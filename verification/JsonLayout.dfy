/** What the serializer writes, byte by byte: the layout of a document's text, compact or pretty. */
module JsonLayout {
  import opened Bytes
  import opened JsonStrings
  import opened JsonValues
  import opened JsonPrinter
  import opened JsonParser
  import opened JsonRoundTrip
  import opened JsonGrammar

  // How a byte of a string appears: quote, backslash and slash behind a backslash, five control characters
  // as a backslash and a letter, every other byte as it is.
  function TokenFor(c: byte): Token {
    if c in {34, 92, 47} then Short(c)
    else if c == 8 then Short(98)
    else if c == 12 then Short(102)
    else if c == 10 then Short(110)
    else if c == 13 then Short(114)
    else if c == 9 then Short(116)
    else Plain(c)
  }

  function TokensFor(t: seq<byte>): (tokens: seq<Token>)
    ensures |tokens| == |t|
  {
    if |t| == 0 then [] else [TokenFor(t[0])] + TokensFor(t[1..])
  }

  // A line break and four spaces for each level; nothing in compact text.
  function Break(level: nat, pretty: bool): seq<byte> {
    if pretty then [10] + seq(4 * level, _ => 32) else []
  }

  // l is how v is displayed when it starts on a line of that level.
  ghost predicate Displays(l: Layout, v: Json, level: nat, pretty: bool)
    decreases v
  {
    match v
    case Null => l == NullLayout
    case Boolean(on) => l == BooleanLayout(on)
    case Number(n) =>
      && l.NumberLayout? && l.negative == (n < 0)
      && IsNumber(l.negative, l.digits) && NumberValue(l.negative, l.digits) == n
    case String(text) => l == StringLayout(TokensFor(text))
    case Array(items) => l.ArrayLayout? && l.gap == [] && DisplayItems(l.elements, items, level, pretty)
    case Object(members) => l.ObjectLayout? && l.gap == [] && DisplayMembers(l.fields, members, level, pretty)
  }

  // Each item stands on a line of the next level, the bracket on one of this level.
  ghost predicate DisplayItems(elements: seq<Element>, items: seq<Json>, level: nat, pretty: bool)
    decreases items
  {
    && |elements| == |items|
    && (|items| > 0 ==>
          && elements[0].before == Break(level + 1, pretty)
          && Displays(elements[0].value, items[0], level + 1, pretty)
          && elements[0].behind == (if |items| == 1 then Break(level, pretty) else [])
          && DisplayItems(elements[1..], items[1..], level, pretty))
  }

  // The same with a name, a colon and, in pretty text, one space before each value.
  ghost predicate DisplayMembers(fields: seq<Field>, members: seq<Member>, level: nat, pretty: bool)
    decreases members
  {
    && |fields| == |members|
    && (|members| > 0 ==>
          && fields[0].before == Break(level + 1, pretty)
          && fields[0].open == 34 && fields[0].name == TokensFor(members[0].name) && fields[0].behind == []
          && fields[0].element.before == (if pretty then [32] else [])
          && Displays(fields[0].element.value, members[0].value, level + 1, pretty)
          && fields[0].element.behind == (if |members| == 1 then Break(level, pretty) else [])
          && DisplayMembers(fields[1..], members[1..], level, pretty))
  }

  // ----- The text of a document is that of its display -----

  lemma EscapedIsToken(c: byte)
    ensures EscapedByte(c) == TokenText(TokenFor(c))
  {
  }

  lemma {:induction false} EscapedIsTokens(t: seq<byte>)
    ensures EscapedText(t) == TokensText(TokensFor(t))
    decreases |t|
  {
    hide EscapedByte, TokenFor, TokenText;
    if |t| > 0 {
      EscapedIsToken(t[0]);
      EscapedIsTokens(t[1..]);
      assert TokensFor(t)[1..] == TokensFor(t[1..]);
    }
  }

  lemma QuotedIsString(t: seq<byte>)
    ensures Quoted(t) == StringText(34, TokensFor(t))
  {
    hide EscapedText, TokensText, TokensFor;
    EscapedIsTokens(t);
  }

  lemma {:induction false} DigitsMean(n: nat)
    ensures var d := Digits(n);
            && (forall k | 0 <= k < |d| :: 48 <= d[k] <= 57)
            && DecimalValue(d) == n && (d[0] == 48 <==> n == 0) && (n < 10 <==> |d| == 1)
  {
    if n < 10 {
      assert Digits(n)[..0] == [];
    } else {
      DigitsMean(n / 10);
      assert Digits(n)[..|Digits(n)| - 1] == Digits(n / 10);
    }
  }

  lemma DecimalIsNumber(n: int32) returns (digits: seq<byte>)
    ensures Decimal(n) == NumberText(n < 0, digits) && IsNumber(n < 0, digits) && NumberValue(n < 0, digits) == n
  {
    hide DecimalValue, Digits;
    var m: int := n;
    digits := Digits(if m < 0 then -m else m);
    DigitsMean(if m < 0 then -m else m);
  }

  lemma {:induction false} SpacesAre(level: nat)
    ensures Spaces(level) == seq(4 * level, _ => 32)
  {
    if level > 0 {
      SpacesAre(level - 1);
      assert seq(4 * level, _ => 32) == [32, 32, 32, 32] + seq(4 * (level - 1), _ => 32);
    }
  }

  lemma BreakIs(level: nat, pretty: bool)
    ensures Break(level, pretty) == Newline(pretty) + Indent(level, pretty)
  {
    SpacesAre(level);
  }

  // Main result: the text of every document is that of its display, compact and pretty.
  lemma {:induction false} PrintedDisplays(v: Json, level: nat, pretty: bool) returns (l: Layout)
    ensures Displays(l, v, level, pretty) && LayoutText(l) == Printed(v, level, pretty)
    decreases v, 1
  {
    hide PrintedItems, PrintedMembers, ElementsText, FieldsText, DisplayItems, DisplayMembers, StringText, Quoted,
         TokensFor, IsNumber, NumberText, NumberValue, Decimal, Newline, Indent;
    match v {
      case Null => l := NullLayout;
      case Boolean(on) => l := BooleanLayout(on);
      case Number(n) =>
        var digits := DecimalIsNumber(n);
        l := NumberLayout(n < 0, digits);
      case String(text) =>
        QuotedIsString(text);
        l := StringLayout(TokensFor(text));
      case Array(items) =>
        var elements := ItemsDisplayed(items, level, pretty);
        l := ArrayLayout([], elements);
        var nl, inner, indent := Newline(pretty), PrintedItems(items, level + 1, pretty), Indent(level, pretty);
        assert [91] + nl + (inner + (indent + [93])) == [91] + ((nl + (inner + indent)) + [93]);
        assert [91] + ([] + [93]) == [91, 93];
      case Object(members) =>
        var fields := MembersDisplayed(members, level, pretty);
        l := ObjectLayout([], fields);
        var nl, inner, indent := Newline(pretty), PrintedMembers(members, level + 1, pretty), Indent(level, pretty);
        assert [123] + nl + (inner + (indent + [125])) == [123] + ((nl + (inner + indent)) + [125]);
        assert [123] + ([] + [125]) == [123, 125];
    }
  }

  lemma {:induction false} ItemsDisplayed(items: seq<Json>, level: nat, pretty: bool) returns (elements: seq<Element>)
    ensures DisplayItems(elements, items, level, pretty) && |elements| == |items|
    ensures |items| > 0 ==>
      ElementsText(elements)
      == Newline(pretty) + (PrintedItems(items, level + 1, pretty) + Indent(level, pretty))
    decreases items, 0
  {
    hide Printed, LayoutText, Newline, Indent, Displays, Break;
    if |items| == 0 {
      elements := [];
    } else {
      var l := PrintedDisplays(items[0], level + 1, pretty);
      var rest := ItemsDisplayed(items[1..], level, pretty);
      BreakIs(level + 1, pretty);
      BreakIs(level, pretty);
      var e := Element(Break(level + 1, pretty), l, if |items| == 1 then Break(level, pretty) else []);
      elements := [e] + rest;
      assert elements[1..] == rest;
      var nl, indent, outer := Newline(pretty), Indent(level + 1, pretty), Indent(level, pretty);
      var text, more := Printed(items[0], level + 1, pretty), PrintedItems(items[1..], level + 1, pretty);
      if |items| == 1 {
        OneLine(nl, indent, text, outer);
        assert more == [] && rest == [];
      } else {
        MoreLines(nl, indent, text, more, outer);
      }
    }
  }

  lemma OneLine(nl: seq<byte>, indent: seq<byte>, text: seq<byte>, outer: seq<byte>)
    ensures nl + ((indent + (text + (Comma(true) + nl)) + []) + outer)
         == (nl + indent) + (text + (nl + outer)) + (Separator(true) + [])
  {
  }

  lemma MoreLines(nl: seq<byte>, indent: seq<byte>, text: seq<byte>, more: seq<byte>, outer: seq<byte>)
    ensures nl + ((indent + (text + (Comma(false) + nl)) + more) + outer)
         == (nl + indent) + (text + []) + (Separator(false) + (nl + (more + outer)))
  {
  }

  lemma {:induction false} MembersDisplayed(members: seq<Member>, level: nat, pretty: bool) returns (fields: seq<Field>)
    ensures DisplayMembers(fields, members, level, pretty) && |fields| == |members|
    ensures |members| > 0 ==>
      FieldsText(fields)
      == Newline(pretty) + (PrintedMembers(members, level + 1, pretty) + Indent(level, pretty))
    decreases members, 0
  {
    hide Printed, LayoutText, Newline, Indent, Displays, Break, Quoted, StringText, TokensFor;
    if |members| == 0 {
      fields := [];
    } else {
      var l := PrintedDisplays(members[0].value, level + 1, pretty);
      var rest := MembersDisplayed(members[1..], level, pretty);
      BreakIs(level + 1, pretty);
      BreakIs(level, pretty);
      QuotedIsString(members[0].name);
      var e := Element(if pretty then [32] else [], l, if |members| == 1 then Break(level, pretty) else []);
      var f := Field(Break(level + 1, pretty), 34, TokensFor(members[0].name), [], e);
      fields := [f] + rest;
      assert fields[1..] == rest;
      var nl, indent, outer := Newline(pretty), Indent(level + 1, pretty), Indent(level, pretty);
      var name, value := Quoted(members[0].name), Printed(members[0].value, level + 1, pretty);
      var more := PrintedMembers(members[1..], level + 1, pretty);
      FieldIs(f, nl + indent, name, value, pretty);
      if |members| == 1 {
        OneLine(nl, indent, name + (Colon(pretty) + value), outer);
        assert more == [] && rest == [];
      } else {
        MoreLines(nl, indent, name + (Colon(pretty) + value), more, outer);
      }
    }
  }

  lemma FieldIs(f: Field, before: seq<byte>, name: seq<byte>, value: seq<byte>, pretty: bool)
    requires f.before == before && StringText(f.open, f.name) == name && f.behind == []
    requires f.element.before == (if pretty then [32] else []) && LayoutText(f.element.value) == value
    ensures FieldText(f) == before + ((name + (Colon(pretty) + value)) + f.element.behind)
  {
    hide StringText, LayoutText;
  }

  // Main result: the string a document is serialized to is its display and a terminator.
  method SerializeDisplayed(v: Json, pretty: bool) returns (buf: array<byte>, ghost l: Layout)
    requires WellFormed(v)
    ensures fresh(buf) && Displays(l, v, 0, pretty) && buf[..] == LayoutText(l) + [0]
  {
    hide Printed, LayoutText, Displays, WellFormed;
    buf := SerializeToString(v, pretty);
    l := PrintedDisplays(v, 0, pretty);
  }
}
