/** The parser accepts nothing but layouts: whatever it takes for a value is the text of a layout of its
    result. */
module JsonSyntax {
  import opened Bytes
  import opened Utf8
  import opened JsonStrings
  import opened JsonStringDecoder
  import opened JsonValues
  import opened JsonParser
  import opened JsonRoundTrip
  import opened JsonGrammar
  import R = JsonReader

  // ----- Strings -----

  lemma OneToken(text: seq<byte>, i: nat, end: nat) returns (t: Token)
    requires IsBody(text, i, end) && i < end && Unescaped(text, i, end).Text?
    ensures IsToken(t) && |TokenText(t)| > 0 && FoundAt(text, i, TokenText(t))
    ensures IsBody(text, i + |TokenText(t)|, end) && Unescaped(text, i + |TokenText(t)|, end).Text?
  {
    hide ReadUtf16, Utf8Encode, CodePointEscape, SkipBody;
    NoQuoteHere(text, i, end);
    if text[i] == BACKSLASH {
      BodyAfterEscape(text, i, end);
      if Char(text, i + 1) == 117 {
        var upper := ReadIsCodePoint(text, i);
        t := Code(ReadEscape(text, i + 1).cp, upper);
      } else {
        t := Short(text[i + 1]);
        assert text[i..i + 2] == TokenText(t);
      }
    } else {
      BodyAfterByte(text, i, end);
      t := Plain(text[i]);
      assert text[i..i + 1] == TokenText(t);
    }
  }

  lemma NoQuoteHere(text: seq<byte>, i: nat, end: nat)
    requires IsBody(text, i, end) && i < end
    ensures text[i] != QUOTE && text[i] != 0
  {
  }

  lemma {:induction false} BodyIsTokens(text: seq<byte>, i: nat, end: nat) returns (tokens: seq<Token>)
    requires IsBody(text, i, end) && Unescaped(text, i, end).Text?
    ensures AreTokens(tokens) && FoundAt(text, i, TokensText(tokens)) && end == i + |TokensText(tokens)|
    decreases end - i
  {
    hide TokenText, IsToken, IsBody, Unescaped, FoundAt;
    BodyInside(text, i, end);
    if i == end {
      tokens := [];
      NothingFound(text, i);
    } else {
      var t := OneToken(text, i, end);
      var j := i + |TokenText(t)|;
      BodyInside(text, j, end);
      var rest := BodyIsTokens(text, j, end);
      tokens := [t] + rest;
      assert tokens[1..] == rest;
      FoundJoined(text, i, TokenText(t), TokensText(rest));
    }
  }

  lemma BodyInside(text: seq<byte>, i: nat, end: nat)
    requires IsBody(text, i, end)
    ensures i <= end < |text|
  {
  }

  lemma NothingFound(text: seq<byte>, i: nat)
    requires i <= |text|
    ensures FoundAt(text, i, [])
  {
  }

  lemma {:induction false} BodyCloses(text: seq<byte>, i: nat)
    requires i <= |text| && Char(text, SkipBody(text, i)) != 0
    ensures i < SkipBody(text, i) && text[SkipBody(text, i) - 1] == QUOTE
    ensures IsBody(text, i, SkipBody(text, i) - 1)
    decreases |text| - i
  {
    if text[i] == BACKSLASH {
      BodyCloses(text, i + 2);
    } else if text[i] != QUOTE {
      BodyCloses(text, i + 1);
    }
  }

  // A quoted string that is read, whatever stands in place of its opening quote.
  lemma StringRead(text: seq<byte>, i: nat) returns (tokens: seq<Token>)
    requires i < |text| && GetQuoted(text, i).text.Text?
    ensures AreTokens(tokens) && FoundAt(text, i, StringText(text[i], tokens))
    ensures GetQuoted(text, i) == QuotedText(Text(StringBytes(tokens)), i + |StringText(text[i], tokens)|)
  {
    hide AreTokens, TokensText, TokensBytes, SkipBody, Unescaped, UpToNul;
    var end := SkipBody(text, i + 1) - 1;
    BodyCloses(text, i + 1);
    tokens := BodyIsTokens(text, i + 1, end);
    TokensDecoded(text, i + 1, tokens);
    QuotedFound(text, i, TokensText(tokens));
  }

  lemma QuotedFound(text: seq<byte>, i: nat, body: seq<byte>)
    requires FoundAt(text, i + 1, body) && i + 1 + |body| < |text| && text[i + 1 + |body|] == QUOTE
    ensures FoundAt(text, i, [text[i]] + (body + [QUOTE]))
  {
    assert text[i..i + 1] == [text[i]];
    assert text[i + 1 + |body|..i + 1 + |body| + 1] == [QUOTE];
    FoundJoined(text, i + 1, body, [QUOTE]);
    FoundJoined(text, i, [text[i]], body + [QUOTE]);
  }

  // ----- Numbers and words -----

  lemma DigitsAreNumber(negative: bool, digits: seq<byte>)
    requires |digits| > 0 && (forall k | 0 <= k < |digits| :: IsDigit(digits[k])) && (digits[0] == 48 ==> |digits| == 1)
    ensures IsNumber(negative, digits) <==> DigitsValue(digits) < 0x8000_0000 + (if negative then 1 else 0)
    ensures IsNumber(negative, digits) ==>
      var n: int := DigitsValue(digits);
      NumberValue(negative, digits) == if negative then -n else n
  {
    hide DigitsValue, DecimalValue;
    SameValue(digits);
  }

  lemma NumberRead(text: seq<byte>, i: nat) returns (negative: bool, digits: seq<byte>)
    requires i < |text| && ParseNumber(text, i).Parsed? && ParseNumber(text, i).next > i
    ensures IsNumber(negative, digits) && FoundAt(text, i, NumberText(negative, digits))
    ensures ParseNumber(text, i) == Parsed(Number(NumberValue(negative, digits)), i + |NumberText(negative, digits)|)
  {
    hide DigitsValue, DigitsEnd, IsNumber, NumberValue;
    negative := text[i] == 45;
    var start := if negative then i + 1 else i;
    var end := DigitsEnd(text, start);
    digits := text[start..end];
    assert forall k | 0 <= k < |digits| :: digits[k] == text[start + k];
    DigitsAreNumber(negative, digits);
    if negative {
      assert text[i..end] == [45] + digits;
    } else {
      assert text[i..end] == [] + digits;
    }
  }

  // The digits from start on end at end.
  ghost predicate DigitsBetween(text: seq<byte>, start: nat, end: nat) {
    && start <= end <= |text|
    && (forall k | start <= k < end :: 48 <= text[k] <= 57)
    && !(48 <= Char(text, end) <= 57)
  }

  // strtod makes something else than a 32-bit integer of what stands at i: the digits, if any, are followed
  // by one of . E X e x, or there are none and one of I N i n follows, or they are too many.
  ghost predicate IsForeignAt(text: seq<byte>, i: nat) {
    i < |text| &&
    var start := if text[i] == 45 then i + 1 else i;
    exists end: nat | DigitsBetween(text, start, end) ::
      || Char(text, end) in {46, 69, 88, 101, 120}
      || (start == end && Char(text, end) in {73, 78, 105, 110})
      || (start < end && (text[start] != 48 || end == start + 1) && !IsNumber(text[i] == 45, text[start..end]))
  }

  lemma OneEnd(text: seq<byte>, start: nat, end: nat)
    requires start <= |text| && DigitsBetween(text, start, end)
    ensures end == DigitsEnd(text, start)
  {
    hide DigitsEnd;
    var other := DigitsEnd(text, start);
    assert other < |text| ==> !(48 <= text[other] <= 57);
    assert end < |text| ==> !IsDigit(text[end]);
  }

  // Main result on the numbers the model does not read: which they are.
  lemma ForeignIff(text: seq<byte>, i: nat)
    requires i < |text|
    ensures ParseNumber(text, i) == Foreign <==> IsForeignAt(text, i)
  {
    hide DigitsEnd, DigitsValue, DecimalValue;
    var start := if text[i] == 45 then i + 1 else i;
    var end := DigitsEnd(text, start);
    var digits := text[start..end];
    assert DigitsBetween(text, start, end);
    forall k | 0 <= k < |digits|
      ensures IsDigit(digits[k])
    {
      assert digits[k] == text[start + k];
    }
    SameValue(digits);
    forall e | DigitsBetween(text, start, e)
      ensures e == end
    {
      OneEnd(text, start, e);
    }
  }

  // A value is foreign only for a number somewhere in it.
  lemma {:induction false} ForeignNumber(text: seq<byte>, i: nat, nesting: nat) returns (j: nat)
    requires i <= |text| && ParseValue(text, i, nesting) == Foreign
    ensures i <= j < |text| && IsForeignAt(text, j)
    decreases |text| - i, 1
  {
    hide SkipSpaces, ParseItems, ParseMembers, ParseNumber, IsForeignAt, GetQuoted;
    j := SkipSpaces(text, i);
    var c := Char(text, j);
    if c == 123 {
      j := ForeignInMembers(text, SkipSpaces(text, j + 1), nesting + 1, []);
    } else if c == 91 {
      j := ForeignInItems(text, SkipSpaces(text, j + 1), nesting + 1, []);
    } else {
      ForeignIff(text, j);
    }
  }

  lemma {:induction false} ForeignInItems(text: seq<byte>, i: nat, nesting: nat, taken: seq<Json>) returns (j: nat)
    requires i <= |text| && ParseItems(text, i, nesting, taken) == Foreign
    ensures i <= j < |text| && IsForeignAt(text, j)
    decreases |text| - i, 2
  {
    hide SkipSpaces, ParseValue, IsForeignAt;
    var r := ParseValue(text, i, nesting);
    if r.Parsed? {
      var t := SkipSpaces(text, r.next);
      j := ForeignInItems(text, SkipSpaces(text, t + 1), nesting, taken + [r.value]);
    } else {
      j := ForeignNumber(text, i, nesting);
    }
  }

  lemma {:induction false} ForeignInMembers(text: seq<byte>, i: nat, nesting: nat, taken: seq<Member>) returns (j: nat)
    requires i <= |text| && ParseMembers(text, i, nesting, taken) == Foreign
    ensures i <= j < |text| && IsForeignAt(text, j)
    decreases |text| - i, 2
  {
    hide ParseMembers, SkipSpaces, ParseValue, IsForeignAt, GetQuoted, Has;
    if Char(text, i) == 0 {
      R.NoMember(text, i, nesting, taken);
    } else {
      R.MemberTurn(text, i, nesting, taken);
      var s := SkipSpaces(text, GetQuoted(text, i).next);
      var r := ParseValue(text, s + 1, nesting);
      if r.Parsed? {
        var t := SkipSpaces(text, r.next);
        var taken' := taken + [Member(GetQuoted(text, i).text.bytes, r.value)];
        j := ForeignInMembers(text, SkipSpaces(text, t + 1), nesting, taken');
      } else {
        j := ForeignNumber(text, s + 1, nesting);
      }
    }
  }

  // Only a minus sign without digits is read without taking anything.
  lemma NothingTaken(text: seq<byte>, i: nat, nesting: nat)
    requires i <= |text| && ParseValue(text, i, nesting).Parsed?
    requires ParseValue(text, i, nesting).next <= SkipSpaces(text, i)
    ensures ParseValue(text, i, nesting).next == SkipSpaces(text, i) && Char(text, SkipSpaces(text, i)) == 45
  {
    hide SkipSpaces, DigitsEnd, DigitsValue, ParseItems, ParseMembers, GetQuoted;
  }

  // ----- Values -----

  // Which part of the parser took the value.
  lemma TakenBy(text: seq<byte>, i: nat, nesting: nat)
    requires i <= |text| && ParseValue(text, i, nesting).Parsed?
    ensures nesting <= MAX_NESTING && SkipSpaces(text, i) < |text|
    ensures var p := SkipSpaces(text, i);
            ParseValue(text, i, nesting) ==
            if text[p] == 123 then ParseObject(text, p, nesting + 1)
            else if text[p] == 91 then ParseArray(text, p, nesting + 1)
            else if text[p] == QUOTE then ParseString(text, p)
            else if text[p] == 102 || text[p] == 116 then ParseBoolean(text, p)
            else if text[p] == 110 then ParseNull(text, p)
            else ParseNumber(text, p)
  {
    hide SkipSpaces, ParseObject, ParseArray, ParseString, ParseBoolean, ParseNumber, ParseNull;
  }

  // A value from p up to next that l is a layout of.
  ghost predicate IsRead(text: seq<byte>, p: nat, r: Result, l: Layout, nesting: nat) {
    && r.Parsed? && IsLayout(l, nesting) && FoundAt(text, p, LayoutText(l))
    && r.value == Document(l) && r.next == p + |LayoutText(l)|
  }

  // Main result: whatever the parser takes for a value is the text of a layout that denotes its result.
  lemma {:induction false} ValueRead(text: seq<byte>, i: nat, nesting: nat) returns (l: Layout)
    requires i <= |text| && ParseValue(text, i, nesting).Parsed?
    requires ParseValue(text, i, nesting).next > SkipSpaces(text, i)
    ensures IsRead(text, SkipSpaces(text, i), ParseValue(text, i, nesting), l, nesting)
    decreases |text| - i, 1
  {
    hide SkipSpaces, ParseValue, ParseObject, ParseArray, ParseString, ParseBoolean, ParseNumber, ParseNull, IsRead;
    TakenBy(text, i, nesting);
    var p := SkipSpaces(text, i);
    if text[p] == 123 {
      l := ObjectRead(text, p, nesting);
    } else if text[p] == 91 {
      l := ArrayRead(text, p, nesting);
    } else {
      l := ScalarRead(text, p, nesting, ParseValue(text, i, nesting));
    }
  }

  lemma ScalarRead(text: seq<byte>, p: nat, nesting: nat, r: Result) returns (l: Layout)
    requires p < |text| && nesting <= MAX_NESTING && r.Parsed? && r.next > p
    requires r == if text[p] == QUOTE then ParseString(text, p)
                  else if text[p] == 102 || text[p] == 116 then ParseBoolean(text, p)
                  else if text[p] == 110 then ParseNull(text, p)
                  else ParseNumber(text, p)
    ensures IsRead(text, p, r, l, nesting)
  {
    hide ParseNumber, GetQuoted, AreTokens, TokensText, StringBytes, IsNumber, NumberValue;
    if text[p] == QUOTE {
      var tokens := StringRead(text, p);
      l := StringLayout(tokens);
    } else if text[p] == 102 || text[p] == 116 {
      l := BooleanLayout(r.value.on);
    } else if text[p] == 110 {
      l := NullLayout;
    } else {
      var negative, digits := NumberRead(text, p);
      l := NumberLayout(negative, digits);
    }
  }

  // The white space that is skipped.
  lemma GapRead(text: seq<byte>, i: nat, j: nat) returns (gap: seq<byte>)
    requires i <= j <= |text| && SkipSpaces(text, i) == j
    ensures AreSpaces(gap) && FoundAt(text, i, gap) && j == i + |gap|
  {
    hide SkipSpaces;
    gap := text[i..SkipSpaces(text, i)];
  }

  lemma {:induction false} ArrayRead(text: seq<byte>, p: nat, nesting: nat) returns (l: Layout)
    requires p < |text| && text[p] == 91 && nesting <= MAX_NESTING && ParseArray(text, p, nesting + 1).Parsed?
    ensures IsRead(text, p, ParseArray(text, p, nesting + 1), l, nesting)
    decreases |text| - p, 0
  {
    hide SkipSpaces, ParseItems, FoundAt, AreSpaces, AreElements, ElementsText, Documents;
    var q := SkipSpaces(text, p + 1);
    if Char(text, q) == 93 {
      var gap := GapRead(text, p + 1, q);
      l := ArrayLayout(gap, []);
      BracketsFound(text, p, gap);
      NoElements(nesting + 1);
    } else {
      var elements := ItemsRead(text, p + 1, nesting + 1, []);
      l := ArrayLayout([], elements);
      BracketFound(text, p, ElementsText(elements) + [93]);
      assert [] + Documents(elements) == Documents(elements);
      NoSpaces();
    }
  }

  lemma NoSpaces()
    ensures AreSpaces([])
  {
  }

  lemma NoElements(nesting: nat)
    ensures AreElements([], nesting) && Documents([]) == []
    ensures AreFields([], nesting) && FieldDocuments([]) == [] && DistinctNames([])
  {
  }

  // An opening bracket before what was found behind it, and a closing one behind white space.
  lemma BracketFound(text: seq<byte>, p: nat, rest: seq<byte>)
    requires p < |text| && FoundAt(text, p + 1, rest)
    ensures FoundAt(text, p, [text[p]] + rest)
  {
    assert text[p..p + 1] == [text[p]];
    FoundJoined(text, p, [text[p]], rest);
  }

  lemma BracketsFound(text: seq<byte>, p: nat, gap: seq<byte>)
    requires p < |text| && FoundAt(text, p + 1, gap) && p + 1 + |gap| < |text|
    ensures FoundAt(text, p, [text[p]] + (gap + [text[p + 1 + |gap|]]))
  {
    CharFound(text, p + 1, gap);
    BracketFound(text, p, gap + [text[p + 1 + |gap|]]);
  }

  lemma CharFound(text: seq<byte>, i: nat, bytes: seq<byte>)
    requires FoundAt(text, i, bytes) && i + |bytes| < |text|
    ensures FoundAt(text, i, bytes + [text[i + |bytes|]])
  {
    assert text[i + |bytes|..i + |bytes| + 1] == [text[i + |bytes|]];
    FoundJoined(text, i, bytes, [text[i + |bytes|]]);
  }

  // An item, with the comma or bracket behind it.
  lemma {:induction false} ItemRead(text: seq<byte>, i: nat, nesting: nat) returns (e: Element)
    requires i <= |text| && ParseValue(text, SkipSpaces(text, i), nesting).Parsed?
    requires var t := SkipSpaces(text, ParseValue(text, SkipSpaces(text, i), nesting).next);
             Char(text, t) == 44 || Char(text, t) == 93 || Char(text, t) == 125
    ensures IsElement(e, nesting) && Document(e.value) == ParseValue(text, SkipSpaces(text, i), nesting).value
    ensures var t := SkipSpaces(text, ParseValue(text, SkipSpaces(text, i), nesting).next);
            t == i + |ElementText(e)| < |text| && FoundAt(text, i, ElementText(e) + [text[t]])
    decreases |text| - i, 2
  {
    hide SkipSpaces, ParseValue, FoundAt, LayoutText, Document, IsLayout, AreSpaces;
    var p := SkipSpaces(text, i);
    var r := ParseValue(text, p, nesting);
    NoSpaceHere(text, p);
    if r.next <= p {
      NothingTaken(text, p, nesting);
      MinusStays(text, p);
    }
    var before := GapRead(text, i, p);
    var l := ValueRead(text, p, nesting);
    var t := SkipSpaces(text, r.next);
    var behind := GapRead(text, r.next, t);
    e := Element(before, l, behind);
    FoundJoined(text, p, LayoutText(l), behind);
    FoundJoined(text, i, before, LayoutText(l) + behind);
    CharFound(text, i, ElementText(e));
  }

  lemma MinusStays(text: seq<byte>, p: nat)
    requires p <= |text| && Char(text, p) == 45
    ensures SkipSpaces(text, p) == p
  {
  }

  // The turn of the loop over items that was taken.
  lemma ItemTaken(text: seq<byte>, i: nat, nesting: nat, taken: seq<Json>)
    requires i <= |text| && ParseItems(text, i, nesting, taken).Parsed?
    ensures |taken| < ARRAY_MAX_CAPACITY
    ensures var r := ParseValue(text, i, nesting);
            && r.Parsed?
            && var t := SkipSpaces(text, r.next);
               && t < |text| && (text[t] == 44 || text[t] == 93)
               && ParseItems(text, i, nesting, taken) ==
                  if text[t] == 44 then ParseItems(text, SkipSpaces(text, t + 1), nesting, taken + [r.value])
                  else Parsed(Array(taken + [r.value]), t + 1)
  {
    hide ParseValue, SkipSpaces;
  }

  lemma {:induction false} ItemsRead(text: seq<byte>, i: nat, nesting: nat, taken: seq<Json>)
    returns (elements: seq<Element>)
    requires i <= |text| && ParseItems(text, SkipSpaces(text, i), nesting, taken).Parsed?
    ensures |elements| > 0 && AreElements(elements, nesting) && |taken| + |elements| <= ARRAY_MAX_CAPACITY
    ensures FoundAt(text, i, ElementsText(elements) + [93])
    ensures ParseItems(text, SkipSpaces(text, i), nesting, taken)
         == Parsed(Array(taken + Documents(elements)), i + |ElementsText(elements)| + 1)
    decreases |text| - i, 3
  {
    hide SkipSpaces, ParseValue, ParseItems, FoundAt, ElementText, Document, IsElement, AreElements, Documents,
         ElementsText;
    ItemTaken(text, SkipSpaces(text, i), nesting, taken);
    var r := ParseValue(text, SkipSpaces(text, i), nesting);
    var t := SkipSpaces(text, r.next);
    var e := ItemRead(text, i, nesting);
    if text[t] == 93 {
      elements := [e];
      OneElement(e, nesting);
    } else {
      var rest := ItemsRead(text, t + 1, nesting, taken + [r.value]);
      elements := [e] + rest;
      MoreElements(e, rest, nesting);
      FoundJoined(text, i, ElementText(e) + [44], ElementsText(rest) + [93]);
      assert ElementText(e) + [44] + (ElementsText(rest) + [93]) == ElementsText(elements) + [93];
      assert taken + [r.value] + Documents(rest) == taken + Documents(elements);
    }
  }

  lemma OneElement(e: Element, nesting: nat)
    requires IsElement(e, nesting)
    ensures AreElements([e], nesting) && ElementsText([e]) == ElementText(e) && Documents([e]) == [Document(e.value)]
  {
    hide ElementText, IsElement, Document;
    assert [e][1..] == [];
  }

  lemma MoreElements(e: Element, rest: seq<Element>, nesting: nat)
    requires IsElement(e, nesting) && AreElements(rest, nesting) && |rest| > 0
    ensures AreElements([e] + rest, nesting) && Documents([e] + rest) == [Document(e.value)] + Documents(rest)
    ensures ElementsText([e] + rest) == ElementText(e) + [44] + ElementsText(rest)
  {
    hide ElementText, IsElement, Document;
    assert ([e] + rest)[1..] == rest;
  }

  // ----- Objects -----

  lemma {:induction false} ObjectRead(text: seq<byte>, p: nat, nesting: nat) returns (l: Layout)
    requires p < |text| && text[p] == 123 && nesting <= MAX_NESTING && ParseObject(text, p, nesting + 1).Parsed?
    ensures IsRead(text, p, ParseObject(text, p, nesting + 1), l, nesting)
    decreases |text| - p, 0
  {
    hide SkipSpaces, ParseMembers, FoundAt, AreSpaces, AreFields, FieldsText, FieldDocuments, DistinctNames;
    var q := SkipSpaces(text, p + 1);
    NoElements(nesting + 1);
    if Char(text, q) == 125 {
      var gap := GapRead(text, p + 1, q);
      l := ObjectLayout(gap, []);
      BracketsFound(text, p, gap);
    } else {
      var fields := MembersRead(text, p + 1, nesting + 1, []);
      l := ObjectLayout([], fields);
      BracketFound(text, p, FieldsText(fields) + [125]);
      assert [] + FieldDocuments(fields) == FieldDocuments(fields);
      NoSpaces();
    }
  }

  // Where the parser looks for the colon of the member at i, what it reads behind it, and where it looks for
  // the comma.
  function ColonAt(text: seq<byte>, i: nat): (s: nat)
    requires i < |text|
    ensures i < s <= |text|
  {
    SkipSpaces(text, GetQuoted(text, i).next)
  }

  function ValueBehind(text: seq<byte>, i: nat, nesting: nat): (r: Result)
    requires i < |text|
    ensures r.Parsed? ==> r.next <= |text|
  {
    var s := ColonAt(text, i);
    if s < |text| then ParseValue(text, s + 1, nesting) else Failed
  }

  function CommaAt(text: seq<byte>, i: nat, nesting: nat): (t: nat)
    requires i < |text|
    ensures t <= |text|
  {
    var r := ValueBehind(text, i, nesting);
    if r.Parsed? then SkipSpaces(text, r.next) else |text|
  }

  // The turn of the loop over members that was taken.
  lemma MemberTaken(text: seq<byte>, i: nat, nesting: nat, taken: seq<Member>)
    requires i <= |text| && ParseMembers(text, i, nesting, taken).Parsed?
    ensures |taken| < OBJECT_MAX_CAPACITY && i < |text| && text[i] != 0
    ensures GetQuoted(text, i).text.Text? && !Has(taken, GetQuoted(text, i).text.bytes)
    ensures Char(text, ColonAt(text, i)) == 58 && ValueBehind(text, i, nesting).Parsed?
    ensures Char(text, CommaAt(text, i, nesting)) == 44 || Char(text, CommaAt(text, i, nesting)) == 125
    ensures var taken' := taken + [Member(GetQuoted(text, i).text.bytes, ValueBehind(text, i, nesting).value)];
            var t := CommaAt(text, i, nesting);
            ParseMembers(text, i, nesting, taken) ==
            if Char(text, t) == 44 then ParseMembers(text, SkipSpaces(text, t + 1), nesting, taken')
            else Parsed(Object(taken'), t + 1)
  {
    hide ParseMembers, ParseValue, SkipSpaces, GetQuoted, Has;
    if Char(text, i) == 0 {
      R.NoMember(text, i, nesting, taken);
    } else {
      R.MemberTurn(text, i, nesting, taken);
    }
  }

  // A member, with the comma or brace behind it.
  lemma {:induction false} MemberRead(text: seq<byte>, i: nat, nesting: nat) returns (f: Field)
    requires i <= |text| && SkipSpaces(text, i) < |text|
    requires var p := SkipSpaces(text, i);
             && text[p] != 0 && GetQuoted(text, p).text.Text? && Char(text, ColonAt(text, p)) == 58
             && ValueBehind(text, p, nesting).Parsed?
             && (Char(text, CommaAt(text, p, nesting)) == 44 || Char(text, CommaAt(text, p, nesting)) == 125)
    ensures IsField(f, nesting)
    ensures var p := SkipSpaces(text, i);
            var t := CommaAt(text, p, nesting);
            && FieldDocument(f) == Member(GetQuoted(text, p).text.bytes, ValueBehind(text, p, nesting).value)
            && f.open == text[p] && t < |text|
            && t == i + |FieldText(f)| && FoundAt(text, i, FieldText(f) + [text[t]])
    decreases |text| - i, 3
  {
    hide SkipSpaces, ParseValue, FoundAt, GetQuoted, StringText, StringBytes, AreTokens, AreSpaces, ElementText,
         FieldText, IsElement, Document;
    var p := SkipSpaces(text, i);
    var key := GetQuoted(text, p);
    var s := SkipSpaces(text, key.next);
    var before := GapRead(text, i, p);
    var tokens := StringRead(text, p);
    var behind := GapRead(text, key.next, s);
    ParseValueSkips(text, s + 1, SkipSpaces(text, s + 1), nesting);
    NoSpaceHere(text, SkipSpaces(text, s + 1));
    var e := ItemRead(text, s + 1, nesting);
    f := Field(before, text[p], tokens, behind, e);
    FieldJoined(text, i, f, s);
  }

  lemma FieldJoined(text: seq<byte>, i: nat, f: Field, s: nat)
    requires FoundAt(text, i, f.before) && FoundAt(text, i + |f.before|, StringText(f.open, f.name))
    requires FoundAt(text, i + |f.before| + |StringText(f.open, f.name)|, f.behind)
    requires s == ColonOf(i, f) < |text| && text[s] == 58
    requires s + 1 + |ElementText(f.element)| < |text|
    requires FoundAt(text, s + 1, ElementText(f.element) + [text[s + 1 + |ElementText(f.element)|]])
    ensures s + 1 + |ElementText(f.element)| == i + |FieldText(f)|
    ensures FoundAt(text, i, FieldText(f) + [text[i + |FieldText(f)|]])
  {
    hide FoundAt, StringText, ElementText, FieldText;
    var name, element := StringText(f.open, f.name), ElementText(f.element);
    var c := text[s + 1 + |element|];
    var j := i + |f.before|;
    CharFound(text, j + |name|, f.behind);
    FoundJoined(text, j + |name|, f.behind + [58], element + [c]);
    FoundJoined(text, j, name, f.behind + [58] + (element + [c]));
    FoundJoined(text, i, f.before, name + (f.behind + [58] + (element + [c])));
    PartsOfField(f, c);
  }

  lemma PartsOfField(f: Field, c: byte)
    ensures var name, element := StringText(f.open, f.name), ElementText(f.element);
            && f.before + (name + (f.behind + [58] + (element + [c]))) == FieldText(f) + [c]
            && |FieldText(f)| == |f.before| + |name| + |f.behind| + 1 + |element|
  {
    hide StringText, ElementText;
  }

  lemma {:induction false} MembersRead(text: seq<byte>, i: nat, nesting: nat, taken: seq<Member>)
    returns (fields: seq<Field>)
    requires i <= |text| && ParseMembers(text, SkipSpaces(text, i), nesting, taken).Parsed?
    requires DistinctNames(taken)
    ensures |fields| > 0 && AreFields(fields, nesting) && |taken| + |fields| <= OBJECT_MAX_CAPACITY
    ensures DistinctNames(taken + FieldDocuments(fields))
    ensures SkipSpaces(text, i) < |text| && fields[0].open == text[SkipSpaces(text, i)]
    ensures FoundAt(text, i, FieldsText(fields) + [125])
    ensures ParseMembers(text, SkipSpaces(text, i), nesting, taken)
         == Parsed(Object(taken + FieldDocuments(fields)), i + |FieldsText(fields)| + 1)
    decreases |text| - i, 4
  {
    hide SkipSpaces, ParseMembers, FoundAt, GetQuoted, FieldText, FieldDocument, IsField, AreFields, FieldDocuments,
         FieldsText, DistinctNames, Has, ColonAt, ValueBehind, CommaAt;
    MemberTaken(text, SkipSpaces(text, i), nesting, taken);
    var f := MemberRead(text, i, nesting);
    var t := i + |FieldText(f)|;
    var taken' := taken + [FieldDocument(f)];
    StillDistinct(taken, FieldDocument(f));
    if text[t] == 125 {
      fields := [f];
      OneField(f, nesting);
    } else {
      var rest := MembersRead(text, t + 1, nesting, taken');
      fields := [f] + rest;
      MoreFields(f, rest, nesting);
      FoundJoined(text, i, FieldText(f) + [44], FieldsText(rest) + [125]);
      assert FieldText(f) + [44] + (FieldsText(rest) + [125]) == FieldsText(fields) + [125];
      assert taken' + FieldDocuments(rest) == taken + FieldDocuments(fields);
    }
  }

  lemma StillDistinct(taken: seq<Member>, m: Member)
    requires DistinctNames(taken) && !Has(taken, m.name)
    ensures DistinctNames(taken + [m])
  {
  }

  lemma OneField(f: Field, nesting: nat)
    requires IsField(f, nesting)
    ensures AreFields([f], nesting) && FieldsText([f]) == FieldText(f) && FieldDocuments([f]) == [FieldDocument(f)]
  {
    hide FieldText, IsField, Document, StringBytes;
    assert [f][1..] == [];
  }

  lemma MoreFields(f: Field, rest: seq<Field>, nesting: nat)
    requires IsField(f, nesting) && AreFields(rest, nesting) && |rest| > 0
    ensures AreFields([f] + rest, nesting) && FieldDocuments([f] + rest) == [FieldDocument(f)] + FieldDocuments(rest)
    ensures FieldsText([f] + rest) == FieldText(f) + [44] + FieldsText(rest)
  {
    hide FieldText, IsField, Document, StringBytes;
    assert ([f] + rest)[1..] == rest;
  }

  // ----- Documents -----

  // text is white space, the layout of an array or object, and anything behind it.
  ghost predicate IsText(text: seq<byte>, before: seq<byte>, l: Layout) {
    && AreSpaces(before) && IsLayout(l, 0) && (l.ArrayLayout? || l.ObjectLayout?)
    && before + LayoutText(l) <= text
  }

  // Main result: a document is accepted exactly if its text is that of a layout, up to what stands behind it.
  lemma AcceptedIffLayout(text: seq<byte>)
    ensures ParseDocument(text).Parsed? <==> exists before, l :: IsText(text, before, l)
    ensures forall before, l | IsText(text, before, l) ::
      ParseDocument(text) == Parsed(Document(l), |before + LayoutText(l)|)
  {
    hide ParseDocument, IsText;
    forall before, l | IsText(text, before, l)
      ensures ParseDocument(text) == Parsed(Document(l), |before + LayoutText(l)|)
    {
      TextAccepted(text, before, l);
    }
    if ParseDocument(text).Parsed? {
      var before, l := DocumentRead(text);
    }
  }

  lemma TextAccepted(text: seq<byte>, before: seq<byte>, l: Layout)
    requires IsText(text, before, l)
    ensures ParseDocument(text) == Parsed(Document(l), |before + LayoutText(l)|)
  {
    hide ParseDocument, LayoutText, Document, IsLayout, AreSpaces;
    var rest := text[|before + LayoutText(l)|..];
    assert text == before + LayoutText(l) + rest;
    DocumentAccepted(before, l, rest);
  }

  lemma DocumentRead(text: seq<byte>) returns (before: seq<byte>, l: Layout)
    requires ParseDocument(text).Parsed?
    ensures IsText(text, before, l)
  {
    hide SkipSpaces, ParseValue, LayoutText, Document, IsLayout, AreSpaces;
    var p := SkipSpaces(text, 0);
    NoSpaceHere(text, p);
    if ParseValue(text, p, 0).next <= p {
      NothingTaken(text, p, 0);
    }
    before := GapRead(text, 0, p);
    l := ValueRead(text, p, 0);
    LayoutOpens(l);
    FoundChar(text, p, LayoutText(l), 0);
    assert text[..p + |LayoutText(l)|] == text[0..p] + text[p..p + |LayoutText(l)|];
  }

  lemma LayoutOpens(l: Layout)
    requires IsLayout(l, 0)
    ensures |LayoutText(l)| > 0
    ensures LayoutText(l)[0] == 123 || LayoutText(l)[0] == 91 ==> l.ArrayLayout? || l.ObjectLayout?
  {
    hide TokensText, ElementsText, FieldsText, AreElements, AreFields, AreTokens, DecimalValue;
  }
}
