/** The parser accepts every JSON text within its limits: any white space, any escapes that denote code
    points, any order of members. A layout is the syntax tree of such a text (section 2 of RFC 4627). */
module JsonGrammar {
  import opened Bytes
  import opened Utf8
  import opened JsonStrings
  import opened JsonStringDecoder
  import opened JsonValues
  import opened JsonParser
  import opened JsonRoundTrip

  // One character of a string: as it is, as a backslash and a letter, or as the escape of a code point
  // with each hexadecimal digit in its own case.
  datatype Token = Plain(c: byte) | Short(letter: byte) | Code(cp: nat, upper: seq<bool>)

  datatype Layout =
    | NullLayout
    | BooleanLayout(on: bool)
    | NumberLayout(negative: bool, digits: seq<byte>)
    | StringLayout(tokens: seq<Token>)
    | ArrayLayout(gap: seq<byte>, elements: seq<Element>)
    | ObjectLayout(gap: seq<byte>, fields: seq<Field>)

  // A value and the white space around it.
  datatype Element = Element(before: seq<byte>, value: Layout, behind: seq<byte>)

  // A name and the white space around it, and what stands behind the colon. JSON opens a name with a quote;
  // the parser does not look at that character.
  datatype Field = Field(before: seq<byte>, open: byte, name: seq<Token>, behind: seq<byte>, element: Element)

  // ----- The text of a layout -----

  function TokenText(t: Token): seq<byte> {
    match t
    case Plain(c) => [c]
    case Short(letter) => [92, letter]
    case Code(cp, upper) => if cp <= 0x10FFFF then CodePointEscape(cp, upper) else []
  }

  function TokensText(tokens: seq<Token>): seq<byte> {
    if |tokens| == 0 then [] else TokenText(tokens[0]) + TokensText(tokens[1..])
  }

  function StringText(open: byte, tokens: seq<Token>): seq<byte> {
    [open] + (TokensText(tokens) + [34])
  }

  function NumberText(negative: bool, digits: seq<byte>): seq<byte> {
    (if negative then [45] else []) + digits
  }

  function LayoutText(l: Layout): seq<byte>
    decreases l
  {
    match l
    case NullLayout => [110, 117, 108, 108]  // null
    case BooleanLayout(on) => if on then [116, 114, 117, 101] else [102, 97, 108, 115, 101]  // true, false
    case NumberLayout(negative, digits) => NumberText(negative, digits)
    case StringLayout(tokens) => StringText(34, tokens)
    case ArrayLayout(gap, elements) => [91] + ((if |elements| == 0 then gap else ElementsText(elements)) + [93])
    case ObjectLayout(gap, fields) => [123] + ((if |fields| == 0 then gap else FieldsText(fields)) + [125])
  }

  function ElementText(e: Element): seq<byte>
    decreases e
  {
    e.before + (LayoutText(e.value) + e.behind)
  }

  // The comma goes between elements.
  function Separator(last: bool): seq<byte> {
    if last then [] else [44]
  }

  function ElementsText(elements: seq<Element>): seq<byte>
    decreases elements
  {
    if |elements| == 0 then []
    else ElementText(elements[0]) + (Separator(|elements| == 1) + ElementsText(elements[1..]))
  }

  function FieldText(f: Field): seq<byte>
    decreases f
  {
    f.before + (StringText(f.open, f.name) + (f.behind + ([58] + ElementText(f.element))))
  }

  function FieldsText(fields: seq<Field>): seq<byte>
    decreases fields
  {
    if |fields| == 0 then []
    else FieldText(fields[0]) + (Separator(|fields| == 1) + FieldsText(fields[1..]))
  }

  // ----- The document a layout denotes -----

  function TokenBytes(t: Token): seq<byte> {
    match t
    case Plain(c) => [c]
    case Short(letter) =>
      if letter == 98 then [8] else if letter == 102 then [12] else if letter == 110 then [10]
      else if letter == 114 then [13] else if letter == 116 then [9] else [letter]
    case Code(cp, _) => if cp <= 0x10FFFF then Utf8Encode(cp) else []
  }

  function TokensBytes(tokens: seq<Token>): seq<byte> {
    if |tokens| == 0 then [] else TokenBytes(tokens[0]) + TokensBytes(tokens[1..])
  }

  // A string ends where an escape puts a zero byte.
  function StringBytes(tokens: seq<Token>): seq<byte> {
    UpToNul(TokensBytes(tokens))
  }

  // What decimal digits denote.
  function DecimalValue(digits: seq<byte>): (r: int)
    ensures (forall k | 0 <= k < |digits| :: digits[k] >= 48) ==> r >= 0
  {
    if |digits| == 0 then 0 else 10 * DecimalValue(digits[..|digits| - 1]) + (digits[|digits| - 1] as int - 48)
  }

  function NumberValue(negative: bool, digits: seq<byte>): int32 {
    if IsNumber(negative, digits) then
      var n: int := DecimalValue(digits);
      if negative then -n else n
    else 0
  }

  function Document(l: Layout): Json
    decreases l
  {
    match l
    case NullLayout => Null
    case BooleanLayout(on) => Boolean(on)
    case NumberLayout(negative, digits) => Number(NumberValue(negative, digits))
    case StringLayout(tokens) => String(StringBytes(tokens))
    case ArrayLayout(_, elements) => Array(Documents(elements))
    case ObjectLayout(_, fields) => Object(FieldDocuments(fields))
  }

  function Documents(elements: seq<Element>): (r: seq<Json>)
    ensures |r| == |elements|
    decreases elements
  {
    if |elements| == 0 then [] else [Document(elements[0].value)] + Documents(elements[1..])
  }

  function FieldDocuments(fields: seq<Field>): (r: seq<Member>)
    ensures |r| == |fields|
    decreases fields
  {
    if |fields| == 0 then []
    else [Member(StringBytes(fields[0].name), Document(fields[0].element.value))] + FieldDocuments(fields[1..])
  }

  // ----- Which layouts are JSON, within the parser's limits -----

  // Tab, line feed, vertical tab, form feed, carriage return and space.
  predicate IsWhite(c: byte) {
    c in {9, 10, 11, 12, 13, 32}
  }

  predicate AreSpaces(s: seq<byte>) {
    forall k | 0 <= k < |s| :: IsWhite(s[k])
  }

  predicate IsToken(t: Token) {
    match t
    case Plain(c) => c >= 0x20 && c != 34 && c != 92
    case Short(letter) => letter in {34, 92, 47, 98, 102, 110, 114, 116}
    case Code(cp, _) => cp < 0xD800 || 0xE000 <= cp <= 0x10FFFF
  }

  predicate AreTokens(tokens: seq<Token>) {
    |tokens| == 0 || (IsToken(tokens[0]) && AreTokens(tokens[1..]))
  }

  predicate IsNumber(negative: bool, digits: seq<byte>) {
    && |digits| > 0 && (forall k | 0 <= k < |digits| :: 48 <= digits[k] <= 57)
    && (digits[0] == 48 ==> |digits| == 1)
    && DecimalValue(digits) < 0x8000_0000 + (if negative then 1 else 0)
  }

  predicate IsLayout(l: Layout, nesting: nat)
    decreases l
  {
    nesting <= 19 &&
    match l
    case NullLayout => true
    case BooleanLayout(_) => true
    case NumberLayout(negative, digits) => IsNumber(negative, digits)
    case StringLayout(tokens) => AreTokens(tokens)
    case ArrayLayout(gap, elements) =>
      AreSpaces(gap) && |elements| <= 122880 && AreElements(elements, nesting + 1)
    case ObjectLayout(gap, fields) =>
      && AreSpaces(gap) && |fields| <= 960 && (|fields| > 0 ==> fields[0].open != 125)
      && AreFields(fields, nesting + 1) && DistinctNames(FieldDocuments(fields))
  }

  predicate AreElements(elements: seq<Element>, nesting: nat)
    decreases elements
  {
    |elements| == 0 || (IsElement(elements[0], nesting) && AreElements(elements[1..], nesting))
  }

  predicate IsElement(e: Element, nesting: nat)
    decreases e
  {
    AreSpaces(e.before) && IsLayout(e.value, nesting) && AreSpaces(e.behind)
  }

  predicate AreFields(fields: seq<Field>, nesting: nat)
    decreases fields
  {
    |fields| == 0 || (IsField(fields[0], nesting) && AreFields(fields[1..], nesting))
  }

  predicate IsField(f: Field, nesting: nat)
    decreases f
  {
    && AreSpaces(f.before) && f.open != 0 && !IsWhite(f.open) && AreTokens(f.name)
    && AreSpaces(f.behind) && IsElement(f.element, nesting)
  }

  // ----- What the parser makes of them -----

  lemma {:induction false} SameValue(digits: seq<byte>)
    requires forall k | 0 <= k < |digits| :: IsDigit(digits[k])
    ensures DigitsValue(digits) == DecimalValue(digits)
  {
    if |digits| > 0 {
      SameValue(digits[..|digits| - 1]);
    }
  }

  // ----- Strings -----

  lemma TokenSkipped(text: seq<byte>, i: nat, t: Token)
    requires IsToken(t) && FoundAt(text, i, TokenText(t))
    ensures SkipBody(text, i) == SkipBody(text, i + |TokenText(t)|)
  {
    hide CodePointEscape, ReadUtf16, Utf8Encode;
    match t {
      case Plain(c) => FoundChar(text, i, [c], 0);
      case Short(letter) =>
        FoundChar(text, i, [BACKSLASH, letter], 0);
        FoundChar(text, i, [BACKSLASH, letter], 1);
      case Code(cp, upper) =>
        CodePointReadBack(text, i, cp, upper);
        EscapeSkipped(text, i);
    }
  }

  lemma TokenDecoded(text: seq<byte>, i: nat, t: Token, end: nat)
    requires IsToken(t) && FoundAt(text, i, TokenText(t)) && i + |TokenText(t)| <= end
    ensures i < end
    ensures Unescaped(text, i, end) == Prepend(TokenBytes(t), Unescaped(text, i + |TokenText(t)|, end))
  {
    hide CodePointEscape, ReadUtf16, SkipBody;
    match t {
      case Plain(c) => FoundChar(text, i, [c], 0);
      case Short(letter) =>
        FoundChar(text, i, [BACKSLASH, letter], 0);
        FoundChar(text, i, [BACKSLASH, letter], 1);
      case Code(cp, upper) =>
        CodePointReadBack(text, i, cp, upper);
    }
  }

  lemma TokensSplit(tokens: seq<Token>, tail: seq<byte>)
    requires AreTokens(tokens) && |tokens| > 0
    ensures IsToken(tokens[0]) && AreTokens(tokens[1..])
    ensures TokensText(tokens) + tail == TokenText(tokens[0]) + (TokensText(tokens[1..]) + tail)
    ensures |TokensText(tokens)| == |TokenText(tokens[0])| + |TokensText(tokens[1..])|
    ensures TokensBytes(tokens) == TokenBytes(tokens[0]) + TokensBytes(tokens[1..])
  {
    hide TokenText, TokenBytes, IsToken;
  }

  lemma {:induction false} TokensSkipped(text: seq<byte>, i: nat, tokens: seq<Token>)
    requires AreTokens(tokens) && FoundAt(text, i, TokensText(tokens) + [QUOTE])
    ensures SkipBody(text, i) == i + |TokensText(tokens)| + 1
    decreases |tokens|
  {
    hide TokenText, FoundAt, IsToken, TokenBytes;
    if |tokens| == 0 {
      FoundChar(text, i, TokensText(tokens) + [QUOTE], 0);
    } else {
      TokensSplit(tokens, [QUOTE]);
      FoundSplit(text, i, TokenText(tokens[0]), TokensText(tokens[1..]) + [QUOTE]);
      TokenSkipped(text, i, tokens[0]);
      TokensSkipped(text, i + |TokenText(tokens[0])|, tokens[1..]);
    }
  }

  lemma {:induction false} TokensDecoded(text: seq<byte>, i: nat, tokens: seq<Token>)
    requires AreTokens(tokens) && FoundAt(text, i, TokensText(tokens))
    ensures Unescaped(text, i, i + |TokensText(tokens)|) == Text(TokensBytes(tokens))
    decreases |tokens|
  {
    hide TokenText, FoundAt, IsToken, TokenBytes, ReadEscape;
    if |tokens| > 0 {
      TokensSplit(tokens, []);
      assert TokensText(tokens) + [] == TokensText(tokens) && TokensText(tokens[1..]) + [] == TokensText(tokens[1..]);
      FoundSplit(text, i, TokenText(tokens[0]), TokensText(tokens[1..]));
      TokenDecoded(text, i, tokens[0], i + |TokensText(tokens)|);
      TokensDecoded(text, i + |TokenText(tokens[0])|, tokens[1..]);
    }
  }

  lemma StringAccepted(text: seq<byte>, i: nat, open: byte, tokens: seq<Token>)
    requires AreTokens(tokens) && FoundAt(text, i, StringText(open, tokens))
    requires Char(text, i + |StringText(open, tokens)|) != 0
    ensures i < |text| && text[i] == open
    ensures GetQuoted(text, i) == QuotedText(Text(StringBytes(tokens)), i + |StringText(open, tokens)|)
  {
    hide TokensText, TokensBytes, SkipBody, Unescaped, AreTokens;
    FoundChar(text, i, StringText(open, tokens), 0);
    FoundSplit(text, i, [open], TokensText(tokens) + [QUOTE]);
    TokensSkipped(text, i + 1, tokens);
    FoundSplit(text, i + 1, TokensText(tokens), [QUOTE]);
    TokensDecoded(text, i + 1, tokens);
  }

  // ----- Values -----

  // What may stand behind a value.
  predicate Ends(c: byte) {
    IsWhite(c) || c == 44 || c == 93 || c == 125
  }

  lemma NumberAccepted(text: seq<byte>, i: nat, negative: bool, digits: seq<byte>)
    requires IsNumber(negative, digits) && FoundAt(text, i, NumberText(negative, digits))
    requires Ends(Char(text, i + |NumberText(negative, digits)|))
    ensures i < |text| && text[i] == if negative then 45 else digits[0]
    ensures ParseNumber(text, i) == Parsed(Number(NumberValue(negative, digits)), i + |NumberText(negative, digits)|)
  {
    hide DigitsValue, DigitsEnd, FoundAt, IsNumber, NumberValue, Ends, ContinuesNumber, Char;
    NumberMeans(negative, digits);
    EndsNumber(Char(text, i + |NumberText(negative, digits)|));
    FoundChar(text, i, NumberText(negative, digits), 0);
    if negative {
      FoundSplit(text, i, [45], digits);
      DigitsAccepted(text, i + 1, digits);
    } else {
      assert [] + digits == digits;
      DigitsAccepted(text, i, digits);
    }
  }

  lemma EndsNumber(c: byte)
    requires Ends(c)
    ensures !IsDigit(c) && !ContinuesNumber(c)
  {
  }

  lemma NumberMeans(negative: bool, digits: seq<byte>)
    requires IsNumber(negative, digits)
    ensures |digits| > 0 && (forall k | 0 <= k < |digits| :: IsDigit(digits[k])) && (digits[0] == 48 ==> |digits| == 1)
    ensures DigitsValue(digits) < 0x8000_0000 + (if negative then 1 else 0)
    ensures var n: int := DigitsValue(digits); NumberValue(negative, digits) == if negative then -n else n
  {
    hide DigitsValue, DecimalValue;
    SameValue(digits);
  }

  lemma DigitsAccepted(text: seq<byte>, start: nat, digits: seq<byte>)
    requires FoundAt(text, start, digits) && |digits| > 0 && forall k | 0 <= k < |digits| :: IsDigit(digits[k])
    requires !IsDigit(Char(text, start + |digits|))
    ensures DigitsEnd(text, start) == start + |digits| <= |text|
    ensures text[start] == digits[0] && text[start..start + |digits|] == digits
  {
    hide DigitsEnd;
    DigitsEndFound(text, start, digits);
    FoundChar(text, start, digits, 0);
  }

  function FirstOf(l: Layout): byte {
    match l
    case NullLayout => 110
    case BooleanLayout(on) => if on then 116 else 102
    case NumberLayout(negative, digits) => if negative || |digits| == 0 then 45 else digits[0]
    case StringLayout(_) => QUOTE
    case ArrayLayout(_, _) => 91
    case ObjectLayout(_, _) => 123
  }

  lemma TextStarts(l: Layout, nesting: nat)
    requires IsLayout(l, nesting)
    ensures |LayoutText(l)| > 0 && LayoutText(l)[0] == FirstOf(l)
    ensures !IsSpace(FirstOf(l)) && FirstOf(l) != 0 && FirstOf(l) != 93 && FirstOf(l) != 125
    ensures l.NumberLayout? ==> FirstOf(l) == 45 || IsDigit(FirstOf(l))
  {
    hide TokensText, ElementsText, FieldsText, DecimalValue, AreElements, AreFields, AreTokens;
  }

  // The function that parses texts like that of l.
  function Route(text: seq<byte>, i: nat, l: Layout, nesting: nat): Result
    requires i < |text|
  {
    match l
    case NullLayout => ParseNull(text, i)
    case BooleanLayout(_) => ParseBoolean(text, i)
    case NumberLayout(_, _) => ParseNumber(text, i)
    case StringLayout(_) => ParseString(text, i)
    case ArrayLayout(_, _) => ParseArray(text, i, nesting + 1)
    case ObjectLayout(_, _) => ParseObject(text, i, nesting + 1)
  }

  lemma Routed(text: seq<byte>, i: nat, l: Layout, nesting: nat)
    requires IsLayout(l, nesting) && FoundAt(text, i, LayoutText(l))
    ensures i < |text| && text[i] == FirstOf(l) != 0 && !IsSpace(FirstOf(l)) && SkipSpaces(text, i) == i
    ensures ParseValue(text, i, nesting) == Route(text, i, l, nesting)
  {
    hide SkipSpaces, ParseObject, ParseArray, ParseString, ParseBoolean, ParseNumber, ParseNull, LayoutText, FoundAt,
         AreElements, AreFields, AreTokens, IsNumber;
    TextStarts(l, nesting);
    FoundChar(text, i, LayoutText(l), 0);
    NoSpaceHere(text, i);
  }

  lemma WordAccepted(text: seq<byte>, i: nat, l: Layout)
    requires l.NullLayout? || l.BooleanLayout?
    requires FoundAt(text, i, LayoutText(l))
    ensures (if l.NullLayout? then ParseNull(text, i) else ParseBoolean(text, i))
         == Parsed(Document(l), i + |LayoutText(l)|)
  {
    hide ElementsText, FieldsText;
    if l == BooleanLayout(false) {
      FoundChar(text, i, LayoutText(l), 0);
    }
  }

  // Main result: the text of a layout, anywhere, parses to the document it denotes.
  lemma {:induction false} LayoutAccepted(text: seq<byte>, i: nat, l: Layout, nesting: nat)
    requires IsLayout(l, nesting) && FoundAt(text, i, LayoutText(l))
    requires l.ArrayLayout? || l.ObjectLayout? || Ends(Char(text, i + |LayoutText(l)|))
    ensures i < |text| && text[i] == FirstOf(l) != 0 && !IsSpace(FirstOf(l)) && SkipSpaces(text, i) == i
    ensures ParseValue(text, i, nesting) == Parsed(Document(l), i + |LayoutText(l)|)
    decreases l
  {
    hide SkipSpaces, ParseValue, ParseObject, ParseArray, ParseBoolean, ParseNumber, ParseNull, FoundAt, Char,
         FirstOf, GetQuoted, ElementsText, FieldsText, StringText, NumberText, StringBytes, NumberValue, Documents,
         FieldDocuments, AreElements, AreFields, AreTokens, IsNumber, DistinctNames;
    Routed(text, i, l, nesting);
    match l {
      case NullLayout => WordAccepted(text, i, l);
      case BooleanLayout(_) => WordAccepted(text, i, l);
      case NumberLayout(negative, digits) => NumberAccepted(text, i, negative, digits);
      case StringLayout(tokens) => StringAccepted(text, i, QUOTE, tokens);
      case ArrayLayout(gap, elements) => ArrayAccepted(text, i, gap, elements, nesting + 1);
      case ObjectLayout(gap, fields) => ObjectAccepted(text, i, gap, fields, nesting + 1);
    }
  }

  lemma GapSkipped(text: seq<byte>, i: nat, gap: seq<byte>)
    requires AreSpaces(gap) && FoundAt(text, i, gap) && i + |gap| < |text| && !IsSpace(text[i + |gap|])
    ensures SkipSpaces(text, i) == i + |gap|
  {
    hide SkipSpaces;
    SpacesSkipped(text, i, gap);
    NoSpaceHere(text, i + |gap|);
  }

  // White space and then a character that is none.
  lemma GapBefore(text: seq<byte>, i: nat, gap: seq<byte>, c: byte)
    requires AreSpaces(gap) && FoundAt(text, i, gap + [c]) && !IsSpace(c)
    ensures SkipSpaces(text, i) == i + |gap| < |text| && text[i + |gap|] == c
    ensures IsSpace(Char(text, i)) || Char(text, i) == c
  {
    hide SkipSpaces, AreSpaces;
    FoundSplit(text, i, gap, [c]);
    FoundChar(text, i + |gap|, [c], 0);
    GapSkipped(text, i, gap);
    GapStarts(text, i, gap, c);
  }

  lemma GapStarts(text: seq<byte>, i: nat, gap: seq<byte>, c: byte)
    requires AreSpaces(gap) && FoundAt(text, i, gap + [c])
    ensures IsSpace(Char(text, i)) || Char(text, i) == c
  {
    FoundChar(text, i, gap + [c], 0);
  }

  lemma {:induction false} ArrayAccepted(text: seq<byte>, i: nat, gap: seq<byte>, elements: seq<Element>, nesting: nat)
    requires AreSpaces(gap) && |elements| <= ARRAY_MAX_CAPACITY && AreElements(elements, nesting)
    requires FoundAt(text, i, LayoutText(ArrayLayout(gap, elements))) && i < |text|
    ensures ParseArray(text, i, nesting)
         == Parsed(Array(Documents(elements)), i + |LayoutText(ArrayLayout(gap, elements))|)
    decreases elements, 1
  {
    hide SkipSpaces, ParseItems, ElementsText, FoundAt, AreElements, Documents, FirstOf, AreSpaces;
    if |elements| == 0 {
      FoundSplit(text, i, [91], gap + [93]);
      GapBefore(text, i + 1, gap, 93);
    } else {
      FoundSplit(text, i, [91], ElementsText(elements) + [93]);
      FoundInside(text, i, [91]);
      ElementsAccepted(text, i + 1, elements, nesting, []);
      assert [] + Documents(elements) == Documents(elements);
    }
  }

  lemma ElementsSplit(elements: seq<Element>, nesting: nat, bracket: byte)
    requires |elements| > 0 && AreElements(elements, nesting)
    ensures IsElement(elements[0], nesting) && AreElements(elements[1..], nesting)
    ensures ElementsText(elements) + [bracket]
         == ElementText(elements[0]) + (Separator(|elements| == 1) + (ElementsText(elements[1..]) + [bracket]))
    ensures |ElementsText(elements)|
         == |ElementText(elements[0])| + |Separator(|elements| == 1)| + |ElementsText(elements[1..])|
    ensures Documents(elements) == [Document(elements[0].value)] + Documents(elements[1..])
    ensures |elements| == 1 ==> ElementsText(elements[1..]) == [] && Documents(elements[1..]) == []
  {
    hide ElementText, IsElement, Document;
  }

  // Where the parts of an element stand.
  lemma ElementFound(text: seq<byte>, i: nat, e: Element, c: byte)
    requires FoundAt(text, i, ElementText(e) + [c]) && AreSpaces(e.behind) && !IsSpace(c)
    ensures var j := i + |e.before|;
            var k := j + |LayoutText(e.value)|;
            && FoundAt(text, i, e.before) && FoundAt(text, j, LayoutText(e.value))
            && SkipSpaces(text, k) == i + |ElementText(e)| < |text| && text[i + |ElementText(e)|] == c
            && (IsSpace(Char(text, k)) || Char(text, k) == c)
  {
    hide SkipSpaces, FoundAt, LayoutText, AreSpaces;
    var value := LayoutText(e.value);
    var j := i + |e.before|;
    assert ElementText(e) + [c] == e.before + (value + (e.behind + [c]));
    FoundSplit(text, i, e.before, value + (e.behind + [c]));
    FoundSplit(text, j, value, e.behind + [c]);
    GapBefore(text, j + |value|, e.behind, c);
  }

  // An element, before a comma or a bracket.
  lemma {:induction false} ElementAccepted(text: seq<byte>, i: nat, e: Element, nesting: nat, c: byte)
    requires IsElement(e, nesting) && FoundAt(text, i, ElementText(e) + [c])
    requires c == 44 || c == 93 || c == 125
    ensures i <= SkipSpaces(text, i) < |text|
    ensures 0 != text[SkipSpaces(text, i)] == FirstOf(e.value)
    ensures SkipSpaces(text, SkipSpaces(text, i)) == SkipSpaces(text, i)
    ensures var r := ParseValue(text, SkipSpaces(text, i), nesting);
            && r.Parsed? && r.value == Document(e.value)
            && SkipSpaces(text, r.next) == i + |ElementText(e)| < |text| && text[i + |ElementText(e)|] == c
    decreases e, 0
  {
    hide SkipSpaces, ParseValue, FoundAt, LayoutText, ElementText, Document, IsLayout, AreSpaces, FirstOf, Char;
    ElementFound(text, i, e, c);
    LayoutAccepted(text, i + |e.before|, e.value, nesting);
    GapSkipped(text, i, e.before);
  }

  // The first element with the comma or bracket behind it, and the others.
  lemma ElementsFound(text: seq<byte>, i: nat, elements: seq<Element>, nesting: nat)
    requires |elements| > 0 && AreElements(elements, nesting) && FoundAt(text, i, ElementsText(elements) + [93])
    ensures IsElement(elements[0], nesting) && AreElements(elements[1..], nesting)
    ensures FoundAt(text, i, ElementText(elements[0]) + [if |elements| == 1 then 93 else 44])
    ensures |elements| > 1 ==>
      && FoundAt(text, i + |ElementText(elements[0])| + 1, ElementsText(elements[1..]) + [93])
      && i + |ElementText(elements[0])| + 1 <= |text|
    ensures |ElementsText(elements)|
         == |ElementText(elements[0])| + (if |elements| == 1 then 0 else 1 + |ElementsText(elements[1..])|)
    ensures Documents(elements) == [Document(elements[0].value)] + Documents(elements[1..])
  {
    hide FoundAt, ElementText, ElementsText, Document, Documents, IsElement, AreElements;
    var first, rest := ElementText(elements[0]), ElementsText(elements[1..]);
    ElementsSplit(elements, nesting, 93);
    if |elements| == 1 {
      assert Separator(true) + ([] + [93]) == [93];
    } else {
      assert first + (Separator(false) + (rest + [93])) == first + [44] + (rest + [93]);
      FoundSplit(text, i, first + [44], rest + [93]);
      FoundInside(text, i, first + [44]);
    }
  }

  // One turn of the parser's loop over items.
  lemma {:induction false} ElementTurn(text: seq<byte>, i: nat, e: Element, nesting: nat, taken: seq<Json>, c: byte)
    requires IsElement(e, nesting) && |taken| < ARRAY_MAX_CAPACITY && (c == 44 || c == 93)
    requires FoundAt(text, i, ElementText(e) + [c]) && i <= |text|
    ensures SkipSpaces(text, i) < |text| && text[SkipSpaces(text, i)] == FirstOf(e.value) != 93
    ensures i + |ElementText(e)| < |text|
    ensures ParseItems(text, SkipSpaces(text, i), nesting, taken) ==
            if c == 44
            then ParseItems(text, SkipSpaces(text, i + |ElementText(e)| + 1), nesting, taken + [Document(e.value)])
            else Parsed(Array(taken + [Document(e.value)]), i + |ElementText(e)| + 1)
    decreases e, 1
  {
    hide SkipSpaces, ParseValue, ParseItems, FoundAt, ElementText, Document, IsElement, FirstOf;
    ElementAccepted(text, i, e, nesting, c);
    ItemParsed(text, SkipSpaces(text, i), nesting, taken);
    FirstIsNoBracket(e, nesting);
  }

  lemma {:induction false} ElementsAccepted(text: seq<byte>, i: nat, elements: seq<Element>, nesting: nat,
                                            taken: seq<Json>)
    requires |elements| > 0 && AreElements(elements, nesting) && |taken| + |elements| <= ARRAY_MAX_CAPACITY
    requires i <= |text| && FoundAt(text, i, ElementsText(elements) + [93])
    ensures SkipSpaces(text, i) < |text| && text[SkipSpaces(text, i)] == FirstOf(elements[0].value) != 93
    ensures ParseItems(text, SkipSpaces(text, i), nesting, taken)
         == Parsed(Array(taken + Documents(elements)), i + |ElementsText(elements)| + 1)
    decreases elements, 0
  {
    hide SkipSpaces, ParseItems, FoundAt, ElementText, ElementsText, Document, Documents, IsElement, AreElements,
         FirstOf;
    var taken' := taken + [Document(elements[0].value)];
    ElementsFound(text, i, elements, nesting);
    ElementTurn(text, i, elements[0], nesting, taken, if |elements| == 1 then 93 else 44);
    if |elements| > 1 {
      ElementsAccepted(text, i + |ElementText(elements[0])| + 1, elements[1..], nesting, taken');
    }
    assert taken' + Documents(elements[1..]) == taken + Documents(elements);
    assert |elements| == 1 ==> taken' + [] == taken';
  }

  lemma FirstIsNoBracket(e: Element, nesting: nat)
    requires IsElement(e, nesting)
    ensures FirstOf(e.value) != 93
  {
    hide IsLayout, FirstOf;
    TextStarts(e.value, nesting);
  }

  lemma {:induction false} ObjectAccepted(text: seq<byte>, i: nat, gap: seq<byte>, fields: seq<Field>, nesting: nat)
    requires AreSpaces(gap) && |fields| <= OBJECT_MAX_CAPACITY && AreFields(fields, nesting)
    requires DistinctNames(FieldDocuments(fields)) && (|fields| > 0 ==> fields[0].open != 125)
    requires FoundAt(text, i, LayoutText(ObjectLayout(gap, fields))) && i < |text|
    ensures ParseObject(text, i, nesting)
         == Parsed(Object(FieldDocuments(fields)), i + |LayoutText(ObjectLayout(gap, fields))|)
    decreases fields, 1
  {
    hide SkipSpaces, ParseMembers, FieldsText, FoundAt, AreFields, FieldDocuments, AreSpaces, DistinctNames;
    if |fields| == 0 {
      FoundSplit(text, i, [123], gap + [125]);
      GapBefore(text, i + 1, gap, 125);
      NoFieldDocuments(fields);
    } else {
      FoundSplit(text, i, [123], FieldsText(fields) + [125]);
      FoundInside(text, i, [123]);
      assert [] + FieldDocuments(fields) == FieldDocuments(fields);
      FieldsAccepted(text, i + 1, fields, nesting, []);
    }
  }

  lemma NoFieldDocuments(fields: seq<Field>)
    requires |fields| == 0
    ensures FieldDocuments(fields) == []
  {
  }

  lemma FieldsSplit(fields: seq<Field>, nesting: nat, bracket: byte)
    requires |fields| > 0 && AreFields(fields, nesting)
    ensures IsField(fields[0], nesting) && AreFields(fields[1..], nesting)
    ensures FieldsText(fields) + [bracket]
         == FieldText(fields[0]) + (Separator(|fields| == 1) + (FieldsText(fields[1..]) + [bracket]))
    ensures |FieldsText(fields)| == |FieldText(fields[0])| + |Separator(|fields| == 1)| + |FieldsText(fields[1..])|
    ensures FieldDocuments(fields) == [FieldDocument(fields[0])] + FieldDocuments(fields[1..])
    ensures |fields| == 1 ==> FieldsText(fields[1..]) == [] && FieldDocuments(fields[1..]) == []
  {
    hide FieldText, IsField, Document, StringBytes;
  }

  function FieldDocument(f: Field): Member {
    Member(StringBytes(f.name), Document(f.element.value))
  }

  // Where the parts of a field stand.
  lemma FieldFound(text: seq<byte>, i: nat, f: Field, c: byte)
    requires FoundAt(text, i, FieldText(f) + [c])
    ensures var j := i + |f.before|;
            var k := j + |StringText(f.open, f.name)|;
            var s := k + |f.behind|;
            && FoundAt(text, i, f.before) && FoundAt(text, j, StringText(f.open, f.name))
            && FoundAt(text, k, f.behind + [58])
            && FoundAt(text, s + 1, ElementText(f.element) + [c])
            && s + 1 + |ElementText(f.element)| == i + |FieldText(f)|
  {
    hide FoundAt, StringText, ElementText;
    var name, element := StringText(f.open, f.name), ElementText(f.element);
    var j := i + |f.before|;
    assert FieldText(f) + [c] == f.before + (name + (f.behind + [58] + (element + [c])));
    FoundSplit(text, i, f.before, name + (f.behind + [58] + (element + [c])));
    FoundSplit(text, j, name, f.behind + [58] + (element + [c]));
    FoundSplit(text, j + |name|, f.behind + [58], element + [c]);
  }

  // The name of a field and the colon behind it.
  lemma NameAccepted(text: seq<byte>, i: nat, f: Field, nesting: nat, c: byte)
    requires IsField(f, nesting) && FoundAt(text, i, FieldText(f) + [c])
    ensures i <= SkipSpaces(text, i) < |text| && text[SkipSpaces(text, i)] == f.open != 0
    ensures var q := GetQuoted(text, SkipSpaces(text, i));
            var s := ColonOf(i, f);
            q.text == Text(StringBytes(f.name)) && SkipSpaces(text, q.next) == s < |text| && text[s] == 58
  {
    hide SkipSpaces, FoundAt, StringText, FieldText, IsElement, AreSpaces, AreTokens, GetQuoted, StringBytes;
    var j := i + |f.before|;
    FieldFound(text, i, f, c);
    GapBefore(text, j + |StringText(f.open, f.name)|, f.behind, 58);
    StringAccepted(text, j, f.open, f.name);
    GapSkipped(text, i, f.before);
  }

  // Where the colon of a field stands.
  function ColonOf(i: nat, f: Field): nat {
    i + |f.before| + |StringText(f.open, f.name)| + |f.behind|
  }

  // The value of a field, before a comma or a bracket.
  lemma {:induction false} FieldValueAccepted(text: seq<byte>, i: nat, f: Field, nesting: nat, c: byte)
    requires IsField(f, nesting) && FoundAt(text, i, FieldText(f) + [c]) && (c == 44 || c == 125)
    ensures i + |FieldText(f)| < |text| && text[i + |FieldText(f)|] == c && ColonOf(i, f) < |text|
    ensures var r := ParseValue(text, ColonOf(i, f) + 1, nesting);
            r.Parsed? && r.value == Document(f.element.value) && SkipSpaces(text, r.next) == i + |FieldText(f)|
    decreases f, 0
  {
    hide SkipSpaces, ParseValue, FoundAt, StringText, ElementText, FieldText, Document, IsElement, AreSpaces,
         AreTokens, FirstOf;
    FieldFound(text, i, f, c);
    var s := ColonOf(i, f);
    ElementAccepted(text, s + 1, f.element, nesting, c);
    ParseValueSkips(text, s + 1, SkipSpaces(text, s + 1), nesting);
  }

  lemma FieldsFound(text: seq<byte>, i: nat, fields: seq<Field>, nesting: nat)
    requires |fields| > 0 && AreFields(fields, nesting) && FoundAt(text, i, FieldsText(fields) + [125])
    ensures IsField(fields[0], nesting) && AreFields(fields[1..], nesting)
    ensures FoundAt(text, i, FieldText(fields[0]) + [if |fields| == 1 then 125 else 44])
    ensures |fields| > 1 ==>
      && FoundAt(text, i + |FieldText(fields[0])| + 1, FieldsText(fields[1..]) + [125])
      && i + |FieldText(fields[0])| + 1 <= |text|
    ensures |FieldsText(fields)|
         == |FieldText(fields[0])| + (if |fields| == 1 then 0 else 1 + |FieldsText(fields[1..])|)
    ensures FieldDocuments(fields) == [FieldDocument(fields[0])] + FieldDocuments(fields[1..])
  {
    hide FoundAt, FieldText, FieldsText, FieldDocument, FieldDocuments, IsField, AreFields;
    var first, rest := FieldText(fields[0]), FieldsText(fields[1..]);
    FieldsSplit(fields, nesting, 125);
    if |fields| == 1 {
      assert Separator(true) + ([] + [125]) == [125];
    } else {
      assert first + (Separator(false) + (rest + [125])) == first + [44] + (rest + [125]);
      FoundSplit(text, i, first + [44], rest + [125]);
      FoundInside(text, i, first + [44]);
    }
  }

  lemma {:induction false} FieldTurn(text: seq<byte>, i: nat, f: Field, nesting: nat, taken: seq<Member>, c: byte)
    requires IsField(f, nesting) && |taken| < OBJECT_MAX_CAPACITY && (c == 44 || c == 125)
    requires !Has(taken, StringBytes(f.name))
    requires FoundAt(text, i, FieldText(f) + [c]) && i <= |text|
    ensures SkipSpaces(text, i) < |text| && text[SkipSpaces(text, i)] == f.open != 0
    ensures i + |FieldText(f)| < |text|
    ensures var taken' := taken + [FieldDocument(f)];
            ParseMembers(text, SkipSpaces(text, i), nesting, taken) ==
            if c == 44 then ParseMembers(text, SkipSpaces(text, i + |FieldText(f)| + 1), nesting, taken')
            else Parsed(Object(taken'), i + |FieldText(f)| + 1)
    decreases f, 1
  {
    hide SkipSpaces, ParseValue, ParseMembers, FoundAt, FieldText, Document, IsField, GetQuoted, StringBytes, Has,
         ColonOf;
    NameAccepted(text, i, f, nesting, c);
    FieldValueAccepted(text, i, f, nesting, c);
    FieldParsed(text, SkipSpaces(text, i), nesting, taken);
  }

  lemma {:induction false} FieldsAccepted(text: seq<byte>, i: nat, fields: seq<Field>, nesting: nat, taken: seq<Member>)
    requires |fields| > 0 && AreFields(fields, nesting) && |taken| + |fields| <= OBJECT_MAX_CAPACITY
    requires DistinctNames(taken + FieldDocuments(fields))
    requires i <= |text| && FoundAt(text, i, FieldsText(fields) + [125])
    ensures SkipSpaces(text, i) < |text| && text[SkipSpaces(text, i)] == fields[0].open != 0
    ensures ParseMembers(text, SkipSpaces(text, i), nesting, taken)
         == Parsed(Object(taken + FieldDocuments(fields)), i + |FieldsText(fields)| + 1)
    decreases fields, 0
  {
    hide SkipSpaces, ParseMembers, FoundAt, FieldText, FieldsText, Document, FieldDocuments, IsField, AreFields,
         DistinctNames, Has, StringBytes;
    var taken' := taken + [FieldDocument(fields[0])];
    FieldsFound(text, i, fields, nesting);
    NameIsNew(taken, FieldDocuments(fields));
    FieldTurn(text, i, fields[0], nesting, taken, if |fields| == 1 then 125 else 44);
    assert taken' + FieldDocuments(fields[1..]) == taken + FieldDocuments(fields);
    if |fields| > 1 {
      FieldsAccepted(text, i + |FieldText(fields[0])| + 1, fields[1..], nesting, taken');
    }
    assert |fields| == 1 ==> taken' + [] == taken';
  }

  // One turn of the parser's loop over members, with white space before the colon.
  lemma FieldParsed(text: seq<byte>, i: nat, nesting: nat, taken: seq<Member>)
    requires i < |text| && text[i] != 0 && |taken| < OBJECT_MAX_CAPACITY
    ensures var q := GetQuoted(text, i);
            var s := SkipSpaces(text, q.next);
            s < |text| && text[s] == 58 && q.text.Text? && !Has(taken, q.text.bytes) ==>
              var r := ParseValue(text, s + 1, nesting);
              r.Parsed? ==>
                var t := SkipSpaces(text, r.next);
                var taken' := taken + [Member(q.text.bytes, r.value)];
                && (Char(text, t) == 44 ==>
                      ParseMembers(text, i, nesting, taken)
                      == ParseMembers(text, SkipSpaces(text, t + 1), nesting, taken'))
                && (Char(text, t) == 125 ==>
                      ParseMembers(text, i, nesting, taken) == Parsed(Object(taken'), t + 1))
  {
    hide SkipSpaces, ParseValue, GetQuoted, Has;
  }

  // The whole text: white space, an array or object, and anything behind it.
  lemma DocumentAccepted(before: seq<byte>, l: Layout, rest: seq<byte>)
    requires AreSpaces(before) && IsLayout(l, 0) && (l.ArrayLayout? || l.ObjectLayout?)
    ensures ParseDocument(before + LayoutText(l) + rest) == Parsed(Document(l), |before + LayoutText(l)|)
  {
    hide SkipSpaces, ParseValue, LayoutText, Document, IsLayout, AreSpaces;
    var text := before + LayoutText(l) + rest;
    assert text[0..|before|] == before;
    assert text[|before|..|before| + |LayoutText(l)|] == LayoutText(l);
    LayoutAccepted(text, |before|, l, 0);
    GapSkipped(text, 0, before);
  }
}
