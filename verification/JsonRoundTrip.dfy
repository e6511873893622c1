/** Parsing undoes printing, compact and pretty, exactly for the documents the parser's limits admit. */
module JsonRoundTrip {
  import opened Bytes
  import opened Utf8
  import opened JsonStrings
  import opened JsonValues
  import opened JsonPrinter
  import opened JsonParser

  // ----- What the parser admits -----

  // v, nested that deep, is not too deep and holds no control character without a short escape.
  predicate Admitted(v: Json, nesting: nat)
    decreases v
  {
    nesting <= MAX_NESTING &&
    match v
    case String(text) => NoRawControl(text)
    case Array(items) => AllAdmitted(items, nesting + 1)
    case Object(members) => AllMembersAdmitted(members, nesting + 1)
    case _ => true
  }

  predicate AllAdmitted(items: seq<Json>, nesting: nat)
    decreases items
  {
    |items| == 0 || (Admitted(items[0], nesting) && AllAdmitted(items[1..], nesting))
  }

  predicate AllMembersAdmitted(members: seq<Member>, nesting: nat)
    decreases members
  {
    |members| == 0 ||
    (NoRawControl(members[0].name) && Admitted(members[0].value, nesting) && AllMembersAdmitted(members[1..], nesting))
  }

  // ----- Numbers -----

  lemma {:induction false} DigitsReadBack(n: nat)
    ensures forall k | 0 <= k < |Digits(n)| :: IsDigit(Digits(n)[k])
    ensures DigitsValue(Digits(n)) == n
    ensures if n == 0 then Digits(n) == [48] else Digits(n)[0] != 48
  {
    if n >= 10 {
      DigitsReadBack(n / 10);
      assert Digits(n)[..|Digits(n)| - 1] == Digits(n / 10);
    } else {
      assert Digits(n)[..0] == [];
    }
  }

  lemma DigitsEndFound(text: seq<byte>, i: nat, digits: seq<byte>)
    requires FoundAt(text, i, digits) && forall k | 0 <= k < |digits| :: IsDigit(digits[k])
    requires !IsDigit(Char(text, i + |digits|))
    ensures DigitsEnd(text, i) == i + |digits|
  {
    var end := DigitsEnd(text, i);
    if end < i + |digits| {
      FoundChar(text, i, digits, end - i);
    }
  }

  predicate Delimits(c: byte) {
    c == 44 || c == 10 || c == 93 || c == 125
  }

  // Where printed digits end, and what they denote.
  lemma DigitsFound(text: seq<byte>, start: nat, m: nat)
    requires FoundAt(text, start, Digits(m)) && !IsDigit(Char(text, start + |Digits(m)|))
    ensures start < |text| && IsDigit(text[start]) && (text[start] == 48 ==> |Digits(m)| == 1)
    ensures DigitsEnd(text, start) == start + |Digits(m)|
    ensures text[start..DigitsEnd(text, start)] == Digits(m)
    ensures DigitsValue(text[start..DigitsEnd(text, start)]) == m
  {
    hide Digits, DigitsValue, DigitsEnd;
    DigitsReadBack(m);
    DigitsEndFound(text, start, Digits(m));
    assert text[start] == text[start..start + |Digits(m)|][0];
    if m == 0 {
      assert |Digits(m)| == 1;
    }
  }

  lemma NumberReadBack(text: seq<byte>, i: nat, n: int32)
    requires FoundAt(text, i, Decimal(n)) && Delimits(Char(text, i + |Decimal(n)|))
    ensures i < |text| && ParseNumber(text, i) == Parsed(Number(n), i + |Decimal(n)|)
  {
    hide Digits, DigitsValue, DigitsEnd, FoundAt;
    var v: int := n;
    if v < 0 {
      FoundChar(text, i, Decimal(n), 0);
      FoundSplit(text, i, [45], Digits(-v));
      DigitsFound(text, i + 1, -v);
    } else {
      DigitsFound(text, i, v);
    }
  }

  // ----- White space -----

  lemma {:induction false} SpacesSkipped(text: seq<byte>, i: nat, spaces: seq<byte>)
    requires FoundAt(text, i, spaces) && forall k | 0 <= k < |spaces| :: IsSpace(spaces[k])
    ensures SkipSpaces(text, i) == SkipSpaces(text, i + |spaces|)
    decreases |spaces|
  {
    if |spaces| > 0 {
      FoundChar(text, i, spaces, 0);
      assert spaces == [spaces[0]] + spaces[1..];
      FoundSplit(text, i, [spaces[0]], spaces[1..]);
      SpacesSkipped(text, i + 1, spaces[1..]);
    }
  }

  lemma {:induction false} SpacesAreSpaces(level: nat)
    ensures forall k | 0 <= k < |Spaces(level)| :: IsSpace(Spaces(level)[k])
  {
    if level > 0 {
      SpacesAreSpaces(level - 1);
    }
  }

  lemma IndentSkipped(text: seq<byte>, i: nat, level: nat, pretty: bool)
    requires FoundAt(text, i, Indent(level, pretty))
    ensures SkipSpaces(text, i) == SkipSpaces(text, i + |Indent(level, pretty)|)
  {
    hide Spaces, SkipSpaces;
    SpacesAreSpaces(level);
    SpacesSkipped(text, i, Indent(level, pretty));
  }

  lemma NoSpaceHere(text: seq<byte>, i: nat)
    requires i <= |text| && !IsSpace(Char(text, i))
    ensures SkipSpaces(text, i) == i
  {
  }

  // ----- Lines -----

  lemma LineFound(text: seq<byte>, i: nat, element: seq<byte>, last: bool, level: nat, pretty: bool, rest: seq<byte>)
    requires FoundAt(text, i, Line(element, last, level, pretty) + rest)
    ensures var j := i + |Indent(level, pretty)|;
            var k := j + |element|;
            && FoundAt(text, i, Indent(level, pretty)) && FoundAt(text, j, element)
            && FoundAt(text, k, Comma(last) + Newline(pretty))
            && FoundAt(text, k + |Comma(last) + Newline(pretty)|, rest)
  {
    hide FoundAt, Indent, Comma, Newline;
    var j := i + |Indent(level, pretty)|;
    var end := Comma(last) + Newline(pretty);
    FoundSplit(text, i, Line(element, last, level, pretty), rest);
    FoundSplit(text, i, Indent(level, pretty), element + end);
    FoundSplit(text, j, element, end);
  }

  // Behind an element that is not the last, the next line starts.
  lemma MoreToCome(text: seq<byte>, k: nat, pretty: bool)
    requires FoundAt(text, k, Comma(false) + Newline(pretty))
    ensures Char(text, k) == 44 && k < |text| && SkipSpaces(text, k) == k
    ensures SkipSpaces(text, k + 1) == SkipSpaces(text, k + |Comma(false) + Newline(pretty)|)
  {
    hide SkipSpaces;
    FoundChar(text, k, Comma(false) + Newline(pretty), 0);
    NoSpaceHere(text, k);
    FoundSplit(text, k, Comma(false), Newline(pretty));
    SpacesSkipped(text, k + 1, Newline(pretty));
  }

  // Behind the last element, there is nothing but white space before the bracket.
  lemma BracketFollows(text: seq<byte>, k: nat, level: nat, pretty: bool, bracket: byte)
    requires bracket == 93 || bracket == 125
    requires FoundAt(text, k, Comma(true) + Newline(pretty))
    requires FoundAt(text, k + |Comma(true) + Newline(pretty)|, Indent(level, pretty) + [bracket])
    ensures Delimits(Char(text, k))
    ensures var e := k + |Comma(true) + Newline(pretty)| + |Indent(level, pretty)|;
            e < |text| && SkipSpaces(text, k) == e && Char(text, e) == bracket
  {
    hide SkipSpaces, Indent;
    var m := k + |Comma(true) + Newline(pretty)|;
    FoundSplit(text, m, Indent(level, pretty), [bracket]);
    var e := m + |Indent(level, pretty)|;
    FoundChar(text, e, [bracket], 0);
    NoSpaceHere(text, e);
    IndentSkipped(text, m, level, pretty);
    SpacesSkipped(text, k, Comma(true) + Newline(pretty));
    if pretty {
      FoundChar(text, k, Comma(true) + Newline(pretty), 0);
    } else {
      NotIndented(level);
    }
  }

  lemma NotIndented(level: nat)
    ensures Indent(level, false) == []
  {
  }

  // ----- Values -----

  // The first character of a value decides how it is parsed.
  function FirstChar(v: Json): byte {
    match v
    case Null => 110
    case Boolean(on) => if on then 116 else 102
    case Number(n) => if n < 0 then 45 else Digits(n)[0]
    case String(_) => QUOTE
    case Array(_) => 91
    case Object(_) => 123
  }

  lemma StartsWithFirst(v: Json, level: nat, pretty: bool)
    ensures |Printed(v, level, pretty)| > 0 && Printed(v, level, pretty)[0] == FirstChar(v)
    ensures v.Number? ==> FirstChar(v) == 45 || IsDigit(FirstChar(v))
    ensures FirstChar(v) != 0 && FirstChar(v) != 93 && !IsSpace(FirstChar(v))
  {
    hide Digits, PrintedItems, PrintedMembers, Indent, EscapedText;
    if v.Number? && v.n >= 0 {
      DigitsReadBack(v.n);
    }
  }

  // Parsing is decided by the first character behind the white space.
  lemma ParseValueSkips(text: seq<byte>, i: nat, j: nat, nesting: nat)
    requires i <= |text| && j <= |text| && SkipSpaces(text, i) == SkipSpaces(text, j)
    ensures ParseValue(text, i, nesting) == ParseValue(text, j, nesting)
  {
    hide SkipSpaces, ParseObject, ParseArray, ParseString, ParseBoolean, ParseNumber, ParseNull;
  }

  // The function that parses values like v.
  function Dispatched(text: seq<byte>, i: nat, v: Json, nesting: nat): Result
    requires i < |text|
  {
    match v
    case Null => ParseNull(text, i)
    case Boolean(_) => ParseBoolean(text, i)
    case Number(_) => ParseNumber(text, i)
    case String(_) => ParseString(text, i)
    case Array(_) => ParseArray(text, i, nesting + 1)
    case Object(_) => ParseObject(text, i, nesting + 1)
  }

  lemma ParseValueAt(text: seq<byte>, i: nat, v: Json, nesting: nat)
    requires i < |text| && text[i] == FirstChar(v) && nesting <= MAX_NESTING
    requires v.Number? ==> FirstChar(v) == 45 || IsDigit(FirstChar(v))
    ensures SkipSpaces(text, i) == i
    ensures ParseValue(text, i, nesting) == Dispatched(text, i, v, nesting)
  {
    hide SkipSpaces, ParseObject, ParseArray, ParseString, ParseBoolean, ParseNumber, ParseNull, Digits;
    NoSpaceHere(text, i);
  }

  lemma LiteralReadBack(text: seq<byte>, i: nat, v: Json, level: nat, pretty: bool)
    requires v.Null? || v.Boolean?
    requires FoundAt(text, i, Printed(v, level, pretty))
    ensures (if v.Null? then ParseNull(text, i) else ParseBoolean(text, i))
         == Parsed(v, i + |Printed(v, level, pretty)|)
  {
    hide PrintedItems, PrintedMembers, Quoted, Decimal;
    if v == Boolean(false) {
      FoundChar(text, i, Printed(v, level, pretty), 0);
    }
  }

  lemma StringReadBack(text: seq<byte>, i: nat, t: seq<byte>)
    requires NoNul(t) && FoundAt(text, i, Quoted(t)) && Char(text, i + |Quoted(t)|) != 0
    ensures i < |text| && ParseString(text, i) == if NoRawControl(t) then Parsed(String(t), i + |Quoted(t)|) else Failed
  {
    hide Quoted;
    QuotedReadBack(text, i, t);
  }

  // What parsing the text of v has to yield.
  function Expected(v: Json, nesting: nat, next: nat): Result {
    if Admitted(v, nesting) then Parsed(v, next) else Failed
  }

  // Main result, for a value anywhere in a text: it reads back as itself exactly when it is admitted.
  lemma {:induction false} ValueReadBack(text: seq<byte>, i: nat, v: Json, level: nat, pretty: bool, nesting: nat)
    requires WellFormed(v) && FoundAt(text, i, Printed(v, level, pretty))
    requires v.Array? || v.Object? || Delimits(Char(text, i + |Printed(v, level, pretty)|))
    ensures i < |text| && text[i] == FirstChar(v) != 0 && SkipSpaces(text, i) == i
    ensures ParseValue(text, i, nesting) == Expected(v, nesting, i + |Printed(v, level, pretty)|)
    decreases v, 1
  {
    hide SkipSpaces, ParseValue, ParseObject, ParseArray, ParseString, ParseBoolean, ParseNumber, ParseNull, Digits,
         Decimal, Quoted, PrintedItems, PrintedMembers, Indent, FoundAt, Char, FirstChar, AllAdmitted,
         AllMembersAdmitted, AllWellFormed, AllMembersWellFormed, DistinctNames;
    ParseDispatches(text, i, v, level, pretty, nesting);
    if nesting <= MAX_NESTING {
      match v {
        case Null => LiteralReadBack(text, i, v, level, pretty);
        case Boolean(_) => LiteralReadBack(text, i, v, level, pretty);
        case Number(n) => NumberReadBack(text, i, n);
        case String(t) => StringReadBack(text, i, t);
        case Array(items) => ArrayReadBack(text, i, items, level, pretty, nesting + 1);
        case Object(members) => ObjectReadBack(text, i, members, level, pretty, nesting + 1);
      }
    }
  }

  lemma ParseDispatches(text: seq<byte>, i: nat, v: Json, level: nat, pretty: bool, nesting: nat)
    requires FoundAt(text, i, Printed(v, level, pretty))
    ensures i < |text| && text[i] == FirstChar(v) && SkipSpaces(text, i) == i
    ensures nesting > MAX_NESTING ==> ParseValue(text, i, nesting) == Failed
    ensures nesting <= MAX_NESTING ==> ParseValue(text, i, nesting) == Dispatched(text, i, v, nesting)
    ensures text[i] != 0
  {
    hide SkipSpaces, ParseObject, ParseArray, ParseString, ParseBoolean, ParseNumber, ParseNull, Printed, Digits,
         Dispatched, FirstChar;
    StartsWithFirst(v, level, pretty);
    FoundChar(text, i, Printed(v, level, pretty), 0);
    NoSpaceHere(text, i);
    if nesting <= MAX_NESTING {
      ParseValueAt(text, i, v, nesting);
    }
  }

  lemma {:induction false} ArrayReadBack(text: seq<byte>, i: nat, items: seq<Json>, level: nat, pretty: bool,
        nesting: nat)
    requires AllWellFormed(items) && |items| <= ARRAY_MAX_CAPACITY
    requires FoundAt(text, i, Printed(Array(items), level, pretty)) && i < |text|
    ensures ParseArray(text, i, nesting) ==
            if AllAdmitted(items, nesting) then Parsed(Array(items), i + |Printed(Array(items), level, pretty)|)
            else Failed
    decreases items, 1
  {
    hide SkipSpaces, ParseItems, PrintedItems, Indent, FoundAt, FirstChar, AllAdmitted, AllWellFormed, Line;
    if |items| == 0 {
      EmptyFound(text, i, 91, 93);
      NoneAdmitted();
    } else {
      var rest := PrintedItems(items, level + 1, pretty) + (Indent(level, pretty) + [93]);
      FoundSplit(text, i, [91] + Newline(pretty), rest);
      var p := i + |[91] + Newline(pretty)|;
      OpeningSkipped(text, i, 91, pretty);
      StartsWithFirst(items[0], level, pretty);
      ItemsReadBack(text, p, items, level, pretty, nesting, []);
      assert [] + items == items;
    }
  }

  lemma NoneAdmitted()
    ensures forall nesting :: AllAdmitted([], nesting) && AllMembersAdmitted([], nesting)
  {
  }

  lemma EmptyFound(text: seq<byte>, i: nat, open: byte, close: byte)
    requires FoundAt(text, i, [open, close]) && (close == 93 || close == 125)
    ensures i + 2 <= |text| && SkipSpaces(text, i + 1) == i + 1 && Char(text, i + 1) == close
  {
    FoundChar(text, i, [open, close], 1);
    NoSpaceHere(text, i + 1);
  }

  lemma OpeningSkipped(text: seq<byte>, i: nat, open: byte, pretty: bool)
    requires FoundAt(text, i, [open] + Newline(pretty))
    ensures i + |[open] + Newline(pretty)| <= |text|
    ensures SkipSpaces(text, i + 1) == SkipSpaces(text, i + |[open] + Newline(pretty)|)
  {
    hide SkipSpaces;
    FoundSplit(text, i, [open], Newline(pretty));
    SpacesSkipped(text, i + 1, Newline(pretty));
  }

  // The items still to be read, on the lines that start at i.
  lemma {:induction false} ItemsReadBack(text: seq<byte>, i: nat, items: seq<Json>, level: nat, pretty: bool,
        nesting: nat, taken: seq<Json>)
    requires |items| > 0 && AllWellFormed(items) && |taken| + |items| <= ARRAY_MAX_CAPACITY
    requires FoundAt(text, i, PrintedItems(items, level + 1, pretty) + (Indent(level, pretty) + [93])) && i <= |text|
    ensures SkipSpaces(text, i) < |text| && text[SkipSpaces(text, i)] == FirstChar(items[0])
    ensures var length := |PrintedItems(items, level + 1, pretty)| + |Indent(level, pretty)| + 1;
            ParseItems(text, SkipSpaces(text, i), nesting, taken) ==
            if AllAdmitted(items, nesting) then Parsed(Array(taken + items), i + length) else Failed
    decreases items, 0
  {
    hide SkipSpaces, ParseValue, ParseItems, Printed, PrintedItems, Indent, FoundAt, Char, FirstChar, Admitted,
         AllAdmitted, WellFormed, AllWellFormed, Line, Comma, Newline;
    var tail := Indent(level, pretty) + [93];
    var element := Printed(items[0], level + 1, pretty);
    var last := |items| == 1;
    var more := PrintedItems(items[1..], level + 1, pretty);
    ItemsSplit(items, level + 1, pretty, nesting, tail);
    LineFound(text, i, element, last, level + 1, pretty, more + tail);
    var j := i + |Indent(level + 1, pretty)|;
    var k := j + |element|;
    var m := k + |Comma(last) + Newline(pretty)|;
    IndentSkipped(text, i, level + 1, pretty);
    if last {
      assert more + tail == tail;
      BracketFollows(text, k, level, pretty, 93);
    } else {
      MoreToCome(text, k, pretty);
      assert Delimits(44);
    }
    ValueReadBack(text, j, items[0], level + 1, pretty, nesting);
    ItemParsed(text, j, nesting, taken);
    if Admitted(items[0], nesting) && !last {
      ItemsReadBack(text, m, items[1..], level, pretty, nesting, taken + [items[0]]);
      assert taken + [items[0]] + items[1..] == taken + items;
    }
    if last {
      assert taken + [items[0]] == taken + items;
    }
  }

  lemma ItemsSplit(items: seq<Json>, level: nat, pretty: bool, nesting: nat, tail: seq<byte>)
    requires |items| > 0 && AllWellFormed(items)
    ensures WellFormed(items[0]) && AllWellFormed(items[1..])
    ensures AllAdmitted(items, nesting) <==> Admitted(items[0], nesting) && AllAdmitted(items[1..], nesting)
    ensures var element, last := Printed(items[0], level, pretty), |items| == 1;
            var more := PrintedItems(items[1..], level, pretty);
            && PrintedItems(items, level, pretty) + tail == Line(element, last, level, pretty) + (more + tail)
            && |PrintedItems(items, level, pretty)|
               == |Indent(level, pretty)| + |element| + |Comma(last) + Newline(pretty)| + |more|
            && (last ==> more == [] && AllAdmitted(items[1..], nesting))
  {
    hide Printed, Admitted, WellFormed, Indent, Comma, Newline;
  }

  // One turn of the parser's loop over items.
  lemma ItemParsed(text: seq<byte>, i: nat, nesting: nat, taken: seq<Json>)
    requires i < |text| && text[i] != 0 && |taken| < ARRAY_MAX_CAPACITY
    ensures var r := ParseValue(text, i, nesting);
            && (!r.Parsed? ==> ParseItems(text, i, nesting, taken) == r)
            && (r.Parsed? ==>
                  var t := SkipSpaces(text, r.next);
                  var taken' := taken + [r.value];
                  && (Char(text, t) == 44 ==>
                        ParseItems(text, i, nesting, taken)
                        == ParseItems(text, SkipSpaces(text, t + 1), nesting, taken'))
                  && (Char(text, t) == 93 ==>
                        ParseItems(text, i, nesting, taken) == Parsed(Array(taken'), t + 1)))
  {
    hide SkipSpaces, ParseValue;
  }

  lemma {:induction false} ObjectReadBack(text: seq<byte>, i: nat, members: seq<Member>, level: nat, pretty: bool,
        nesting: nat)
    requires AllMembersWellFormed(members) && DistinctNames(members) && |members| <= OBJECT_MAX_CAPACITY
    requires FoundAt(text, i, Printed(Object(members), level, pretty)) && i < |text|
    ensures ParseObject(text, i, nesting) ==
            if AllMembersAdmitted(members, nesting)
            then Parsed(Object(members), i + |Printed(Object(members), level, pretty)|) else Failed
    decreases members, 1
  {
    hide SkipSpaces, ParseMembers, PrintedMembers, Indent, FoundAt, AllMembersAdmitted, AllMembersWellFormed, Line,
         DistinctNames;
    if |members| == 0 {
      EmptyFound(text, i, 123, 125);
      NoneAdmitted();
    } else {
      var rest := PrintedMembers(members, level + 1, pretty) + (Indent(level, pretty) + [125]);
      FoundSplit(text, i, [123] + Newline(pretty), rest);
      var p := i + |[123] + Newline(pretty)|;
      OpeningSkipped(text, i, 123, pretty);
      assert [] + members == members;
      MembersReadBack(text, p, members, level, pretty, nesting, []);
    }
  }

  // The members still to be read, on the lines that start at i.
  lemma {:induction false} MembersReadBack(text: seq<byte>, i: nat, members: seq<Member>, level: nat, pretty: bool,
                                           nesting: nat, taken: seq<Member>)
    requires |members| > 0 && AllMembersWellFormed(members) && DistinctNames(taken + members)
    requires |taken| + |members| <= OBJECT_MAX_CAPACITY && i <= |text|
    requires FoundAt(text, i, PrintedMembers(members, level + 1, pretty) + (Indent(level, pretty) + [125]))
    ensures SkipSpaces(text, i) < |text| && text[SkipSpaces(text, i)] == QUOTE
    ensures var length := |PrintedMembers(members, level + 1, pretty)| + |Indent(level, pretty)| + 1;
            ParseMembers(text, SkipSpaces(text, i), nesting, taken) ==
            if AllMembersAdmitted(members, nesting) then Parsed(Object(taken + members), i + length) else Failed
    decreases members, 0
  {
    hide SkipSpaces, ParseMembers, Printed, PrintedMembers, Indent, FoundAt, Char, Admitted, AllMembersAdmitted,
         WellFormed, AllMembersWellFormed, Line, Comma, Newline, MemberText, GetQuoted, Quoted, DistinctNames, NoNul,
         NoRawControl;
    var tail := Indent(level, pretty) + [125];
    var element := MemberText(members[0], level + 1, pretty);
    var last := |members| == 1;
    var more := PrintedMembers(members[1..], level + 1, pretty);
    MembersSplit(members, level + 1, pretty, nesting, tail);
    LineFound(text, i, element, last, level + 1, pretty, more + tail);
    var j := i + |Indent(level + 1, pretty)|;
    var k := j + |element|;
    var m := k + |Comma(last) + Newline(pretty)|;
    IndentSkipped(text, i, level + 1, pretty);
    if last {
      assert more + tail == tail;
      BracketFollows(text, k, level, pretty, 125);
    } else {
      MoreToCome(text, k, pretty);
      assert Delimits(44);
    }
    NameIsNew(taken, members);
    MemberTurn(text, j, members[0], level + 1, pretty, nesting, taken);
    var taken' := taken + [members[0]];
    if NoRawControl(members[0].name) && Admitted(members[0].value, nesting) && !last {
      assert taken' + members[1..] == taken + members;
      MembersReadBack(text, m, members[1..], level, pretty, nesting, taken');
    }
    if last {
      assert taken' == taken + members;
    }
  }

  // One turn of the loop, on a printed member of a new name.
  lemma {:induction false} MemberTurn(text: seq<byte>, i: nat, member: Member, level: nat, pretty: bool, nesting: nat,
                                      taken: seq<Member>)
    requires NoNul(member.name) && WellFormed(member.value) && !Has(taken, member.name) && |taken| < OBJECT_MAX_CAPACITY
    requires FoundAt(text, i, MemberText(member, level, pretty))
    requires Delimits(Char(text, i + |MemberText(member, level, pretty)|))
    ensures i < |text| && text[i] == QUOTE && SkipSpaces(text, i) == i
    ensures i + |MemberText(member, level, pretty)| <= |text|
    ensures !(NoRawControl(member.name) && Admitted(member.value, nesting)) ==>
      ParseMembers(text, i, nesting, taken) == Failed
    ensures NoRawControl(member.name) && Admitted(member.value, nesting) ==>
      var t := SkipSpaces(text, i + |MemberText(member, level, pretty)|);
      var taken' := taken + [member];
      && (Char(text, t) == 44 ==>
            ParseMembers(text, i, nesting, taken) == ParseMembers(text, SkipSpaces(text, t + 1), nesting, taken'))
      && (Char(text, t) == 125 ==>
            ParseMembers(text, i, nesting, taken) == Parsed(Object(taken'), t + 1))
    decreases member, 1
  {
    hide SkipSpaces, ParseValue, ParseMembers, FoundAt, Char, Admitted, WellFormed, GetQuoted, NoNul, NoRawControl,
         MemberText, Has;
    MemberReadBack(text, i, member, level, pretty, nesting);
    MemberParsed(text, i, nesting, taken);
    FoundInside(text, i, MemberText(member, level, pretty));
  }

  lemma FoundInside(text: seq<byte>, i: nat, bytes: seq<byte>)
    requires FoundAt(text, i, bytes)
    ensures i + |bytes| <= |text|
  {
  }

  lemma MembersSplit(members: seq<Member>, level: nat, pretty: bool, nesting: nat, tail: seq<byte>)
    requires |members| > 0 && AllMembersWellFormed(members)
    ensures NoNul(members[0].name) && WellFormed(members[0].value) && AllMembersWellFormed(members[1..])
    ensures AllMembersAdmitted(members, nesting) <==>
      && NoRawControl(members[0].name) && Admitted(members[0].value, nesting)
      && AllMembersAdmitted(members[1..], nesting)
    ensures var element, last := MemberText(members[0], level, pretty), |members| == 1;
            var more := PrintedMembers(members[1..], level, pretty);
            && PrintedMembers(members, level, pretty) + tail == Line(element, last, level, pretty) + (more + tail)
            && |PrintedMembers(members, level, pretty)|
               == |Indent(level, pretty)| + |element| + |Comma(last) + Newline(pretty)| + |more|
            && (last ==> more == [] && AllMembersAdmitted(members[1..], nesting))
  {
    hide Printed, Admitted, WellFormed, Indent, Comma, Newline, Quoted, NoNul, NoRawControl;
  }

  lemma NameIsNew(taken: seq<Member>, members: seq<Member>)
    requires |members| > 0 && DistinctNames(taken + members)
    ensures !Has(taken, members[0].name)
  {
    var all := taken + members;
    forall i | 0 <= i < |taken|
      ensures taken[i].name != members[0].name
    {
      assert all[i] == taken[i] && all[|taken|] == members[0];
    }
  }

  // A name, the colon, and the value.
  lemma {:induction false} MemberReadBack(text: seq<byte>, i: nat, member: Member, level: nat, pretty: bool,
        nesting: nat)
    requires NoNul(member.name) && WellFormed(member.value)
    requires FoundAt(text, i, MemberText(member, level, pretty))
    requires Delimits(Char(text, i + |MemberText(member, level, pretty)|))
    ensures i < |text| && text[i] == QUOTE && SkipSpaces(text, i) == i
    ensures var q := GetQuoted(text, i);
            && q.text == (if NoRawControl(member.name) then Text(member.name) else Malformed)
            && SkipSpaces(text, q.next) == q.next < |text| && Char(text, q.next) == 58
            && ParseValue(text, q.next + 1, nesting)
               == Expected(member.value, nesting, i + |MemberText(member, level, pretty)|)
    decreases member, 0
  {
    hide SkipSpaces, ParseValue, Printed, FoundAt, Char, Admitted, WellFormed, GetQuoted, Quoted, NoNul, NoRawControl,
         Delimits;
    var name, value := Quoted(member.name), Printed(member.value, level, pretty);
    var s := i + |name|;
    FoundSplit(text, i, name, Colon(pretty) + value);
    FoundSplit(text, s, Colon(pretty), value);
    ColonFound(text, s, pretty);
    NameFound(text, i, member.name);
    ValueReadBack(text, s + |Colon(pretty)|, member.value, level, pretty, nesting);
    ParseValueSkips(text, s + 1, s + |Colon(pretty)|, nesting);
  }

  lemma NameFound(text: seq<byte>, i: nat, name: seq<byte>)
    requires NoNul(name) && FoundAt(text, i, Quoted(name)) && Char(text, i + |Quoted(name)|) == 58
    ensures i < |text| && text[i] == QUOTE && SkipSpaces(text, i) == i
    ensures GetQuoted(text, i) == QuotedText(if NoRawControl(name) then Text(name) else Malformed, i + |Quoted(name)|)
  {
    hide GetQuoted, EscapedText;
    QuotedReadBack(text, i, name);
    FoundChar(text, i, Quoted(name), 0);
    NoSpaceHere(text, i);
  }

  lemma ColonFound(text: seq<byte>, s: nat, pretty: bool)
    requires FoundAt(text, s, Colon(pretty))
    ensures s < |text| && Char(text, s) == 58 && SkipSpaces(text, s) == s && s + |Colon(pretty)| <= |text|
    ensures SkipSpaces(text, s + 1) == SkipSpaces(text, s + |Colon(pretty)|)
  {
    hide SkipSpaces;
    FoundChar(text, s, Colon(pretty), 0);
    NoSpaceHere(text, s);
    if pretty {
      assert Colon(pretty) == [58] + [32];
      FoundSplit(text, s, [58], [32]);
      SpacesSkipped(text, s + 1, [32]);
    }
  }

  // One turn of the parser's loop over members.
  lemma MemberParsed(text: seq<byte>, i: nat, nesting: nat, taken: seq<Member>)
    requires i < |text| && text[i] != 0 && |taken| < OBJECT_MAX_CAPACITY
    requires SkipSpaces(text, GetQuoted(text, i).next) == GetQuoted(text, i).next < |text|
    requires Char(text, GetQuoted(text, i).next) == 58
    ensures var q := GetQuoted(text, i);
            var r := ParseValue(text, q.next + 1, nesting);
            && (q.text.Malformed? ==> ParseMembers(text, i, nesting, taken) == Failed)
            && (q.text.Text? && !r.Parsed? ==> ParseMembers(text, i, nesting, taken) == r)
            && (q.text.Text? && r.Parsed? && !Has(taken, q.text.bytes) ==>
                  var t := SkipSpaces(text, r.next);
                  var taken' := taken + [Member(q.text.bytes, r.value)];
                  && (Char(text, t) == 44 ==>
                        ParseMembers(text, i, nesting, taken)
                        == ParseMembers(text, SkipSpaces(text, t + 1), nesting, taken'))
                  && (Char(text, t) == 125 ==>
                        ParseMembers(text, i, nesting, taken) == Parsed(Object(taken'), t + 1)))
  {
    hide SkipSpaces, ParseValue, GetQuoted, Has;
  }

  // ----- Documents -----

  // How deep arrays and objects are nested inside v.
  function Height(v: Json): nat
    decreases v
  {
    match v
    case Array(items) => MaxHeight(items)
    case Object(members) => MaxMemberHeight(members)
    case _ => 0
  }

  function MaxHeight(items: seq<Json>): nat
    decreases items
  {
    if |items| == 0 then 0
    else
      var first, rest := 1 + Height(items[0]), MaxHeight(items[1..]);
      if first > rest then first else rest
  }

  function MaxMemberHeight(members: seq<Member>): nat
    decreases members
  {
    if |members| == 0 then 0
    else
      var first, rest := 1 + Height(members[0].value), MaxMemberHeight(members[1..]);
      if first > rest then first else rest
  }

  // Names and strings hold no control character but those with a short escape.
  predicate Printable(v: Json)
    decreases v
  {
    match v
    case String(text) => NoRawControl(text)
    case Array(items) => AllPrintable(items)
    case Object(members) => AllMembersPrintable(members)
    case _ => true
  }

  predicate AllPrintable(items: seq<Json>)
    decreases items
  {
    |items| == 0 || (Printable(items[0]) && AllPrintable(items[1..]))
  }

  predicate AllMembersPrintable(members: seq<Member>)
    decreases members
  {
    || |members| == 0
    || (&& NoRawControl(members[0].name)
        && Printable(members[0].value)
        && AllMembersPrintable(members[1..]))
  }

  lemma {:induction false} AdmittedIffShallow(v: Json, nesting: nat)
    ensures Admitted(v, nesting) <==> nesting + Height(v) <= MAX_NESTING && Printable(v)
    decreases v
  {
    hide NoRawControl;
    if nesting <= MAX_NESTING {
      match v {
        case Array(items) => AllAdmittedIffShallow(items, nesting);
        case Object(members) => AllMembersAdmittedIffShallow(members, nesting);
        case _ =>
      }
    }
  }

  lemma {:induction false} AllAdmittedIffShallow(items: seq<Json>, nesting: nat)
    requires nesting <= MAX_NESTING
    ensures AllAdmitted(items, nesting + 1) <==> nesting + MaxHeight(items) <= MAX_NESTING && AllPrintable(items)
    decreases items
  {
    hide Admitted, Height, Printable;
    if |items| > 0 {
      AdmittedIffShallow(items[0], nesting + 1);
      AllAdmittedIffShallow(items[1..], nesting);
    }
  }

  lemma {:induction false} AllMembersAdmittedIffShallow(members: seq<Member>, nesting: nat)
    requires nesting <= MAX_NESTING
    ensures AllMembersAdmitted(members, nesting + 1) <==>
              nesting + MaxMemberHeight(members) <= MAX_NESTING && AllMembersPrintable(members)
    decreases members
  {
    hide Admitted, Height, Printable, NoRawControl;
    if |members| > 0 {
      AdmittedIffShallow(members[0].value, nesting + 1);
      AllMembersAdmittedIffShallow(members[1..], nesting);
    }
  }

  // Main result: whatever follows it, a printed document parses back to itself exactly when its root is
  // an array or object, nesting is at most 19 and no control character went out raw; else parsing fails.
  lemma DocumentReadBack(v: Json, pretty: bool, rest: seq<byte>)
    requires WellFormed(v)
    ensures ParseDocument(Printed(v, 0, pretty) + rest) ==
            if (v.Array? || v.Object?) && Height(v) <= MAX_NESTING && Printable(v)
            then Parsed(v, |Printed(v, 0, pretty)|) else Failed
  {
    hide WellFormed, Printed, Admitted, Height, Printable, ParseValue, SkipSpaces, FirstChar;
    var text := Printed(v, 0, pretty) + rest;
    AdmittedIffShallow(v, 0);
    assert text[0..|Printed(v, 0, pretty)|] == Printed(v, 0, pretty);
    if v.Array? || v.Object? {
      ValueReadBack(text, 0, v, 0, pretty, 0);
      FirstOfContainer(v);
    } else {
      ParseDispatches(text, 0, v, 0, pretty, 0);
      FirstOfContainer(v);
    }
  }

  lemma FirstOfContainer(v: Json)
    ensures FirstChar(v) == 91 || FirstChar(v) == 123 <==> v.Array? || v.Object?
  {
    hide Digits;
    if v.Number? && v.n >= 0 {
      DigitsReadBack(v.n);
    }
  }

  // ----- What the parser returns -----

  lemma {:induction false} ItemAppended(items: seq<Json>, v: Json)
    requires AllWellFormed(items) && WellFormed(v)
    ensures AllWellFormed(items + [v])
    ensures MaxHeight(items + [v]) == if 1 + Height(v) > MaxHeight(items) then 1 + Height(v) else MaxHeight(items)
    decreases |items|
  {
    hide WellFormed, Height;
    if |items| > 0 {
      ItemAppended(items[1..], v);
      assert (items + [v])[1..] == items[1..] + [v];
    } else {
      assert (items + [v])[1..] == [] && MaxHeight([]) == 0 && AllWellFormed([]);
    }
  }

  lemma {:induction false} MemberAppended(members: seq<Member>, m: Member)
    requires AllMembersWellFormed(members) && NoNul(m.name) && WellFormed(m.value)
    ensures AllMembersWellFormed(members + [m])
    ensures MaxMemberHeight(members + [m]) ==
            if 1 + Height(m.value) > MaxMemberHeight(members) then 1 + Height(m.value) else MaxMemberHeight(members)
    decreases |members|
  {
    hide WellFormed, Height, NoNul;
    if |members| > 0 {
      MemberAppended(members[1..], m);
      assert (members + [m])[1..] == members[1..] + [m];
    } else {
      assert (members + [m])[1..] == [] && MaxMemberHeight([]) == 0 && AllMembersWellFormed([]);
    }
  }

  // A result that is well-formed and not nested too deep.
  ghost predicate Proper(r: Result, nesting: int) {
    r.Parsed? ==> WellFormed(r.value) && nesting + Height(r.value) <= MAX_NESTING
  }

  lemma {:induction false} ParsedIsProper(text: seq<byte>, i: nat, nesting: nat)
    requires i <= |text|
    ensures Proper(ParseValue(text, i, nesting), nesting)
    decreases |text| - i, 1
  {
    hide SkipSpaces, ParseArray, ParseObject, ParseNumber, GetQuoted, NoNul, AllWellFormed, AllMembersWellFormed;
    var p := SkipSpaces(text, i);
    var c := Char(text, p);
    if nesting <= MAX_NESTING {
      if c == 123 {
        ObjectIsProper(text, p, nesting + 1);
      } else if c == 91 {
        ArrayIsProper(text, p, nesting + 1);
      } else if c == 45 || IsDigit(c) {
        NumberIsProper(text, p, nesting);
      }
    }
  }

  lemma NumberIsProper(text: seq<byte>, i: nat, nesting: nat)
    requires i < |text| && nesting <= MAX_NESTING
    ensures Proper(ParseNumber(text, i), nesting)
  {
    hide DigitsEnd, DigitsValue;
  }

  lemma {:induction false} ArrayIsProper(text: seq<byte>, i: nat, nesting: nat)
    requires i < |text| && 1 <= nesting <= MAX_NESTING + 1
    ensures Proper(ParseArray(text, i, nesting), nesting - 1)
    decreases |text| - i, 0
  {
    hide SkipSpaces, ParseItems;
    ItemsAreProper(text, SkipSpaces(text, i + 1), nesting, []);
  }

  lemma {:induction false} ItemsAreProper(text: seq<byte>, i: nat, nesting: nat, taken: seq<Json>)
    requires i <= |text| && 1 <= nesting <= MAX_NESTING + 1
    requires AllWellFormed(taken) && |taken| <= ARRAY_MAX_CAPACITY && nesting - 1 + MaxHeight(taken) <= MAX_NESTING
    ensures Proper(ParseItems(text, i, nesting, taken), nesting - 1)
    decreases |text| - i, 2
  {
    hide SkipSpaces, ParseValue, MaxHeight, AllWellFormed;
    if Char(text, i) != 0 {
      var r := ParseValue(text, i, nesting);
      ParsedIsProper(text, i, nesting);
      if r.Parsed? && |taken| < ARRAY_MAX_CAPACITY {
        ItemAppended(taken, r.value);
        var t := SkipSpaces(text, r.next);
        if Char(text, t) == 44 {
          ItemsAreProper(text, SkipSpaces(text, t + 1), nesting, taken + [r.value]);
        }
      }
    }
  }

  lemma {:induction false} ObjectIsProper(text: seq<byte>, i: nat, nesting: nat)
    requires i < |text| && 1 <= nesting <= MAX_NESTING + 1
    ensures Proper(ParseObject(text, i, nesting), nesting - 1)
    decreases |text| - i, 0
  {
    hide SkipSpaces, ParseMembers;
    MembersAreProper(text, SkipSpaces(text, i + 1), nesting, []);
  }

  lemma {:induction false} MembersAreProper(text: seq<byte>, i: nat, nesting: nat, taken: seq<Member>)
    requires i <= |text| && 1 <= nesting <= MAX_NESTING + 1
    requires AllMembersWellFormed(taken) && DistinctNames(taken) && |taken| <= OBJECT_MAX_CAPACITY
    requires nesting - 1 + MaxMemberHeight(taken) <= MAX_NESTING
    ensures Proper(ParseMembers(text, i, nesting, taken), nesting - 1)
    decreases |text| - i, 2
  {
    hide SkipSpaces, ParseValue, MaxMemberHeight, AllMembersWellFormed, GetQuoted, NoNul;
    if Char(text, i) != 0 {
      var key := GetQuoted(text, i);
      var s := SkipSpaces(text, key.next);
      if key.text.Text? && Char(text, s) == 58 {
        var r := ParseValue(text, s + 1, nesting);
        ParsedIsProper(text, s + 1, nesting);
        if r.Parsed? && |taken| < OBJECT_MAX_CAPACITY && !Has(taken, key.text.bytes) {
          var m := Member(key.text.bytes, r.value);
          MemberAppended(taken, m);
          var t := SkipSpaces(text, r.next);
          if Char(text, t) == 44 {
            MembersAreProper(text, SkipSpaces(text, t + 1), nesting, taken + [m]);
          }
        }
      }
    }
  }

  // Main result: whatever text it came from, a parsed document is well-formed and at most 19 deep, and
  // printing it and parsing again gives it back exactly when it is printable.
  lemma ParsedPrintsBack(text: seq<byte>, pretty: bool)
    requires ParseDocument(text).Parsed?
    ensures var v := ParseDocument(text).value;
            && (v.Array? || v.Object?) && WellFormed(v) && Height(v) <= MAX_NESTING
            && ParseDocument(Printed(v, 0, pretty))
               == if Printable(v) then Parsed(v, |Printed(v, 0, pretty)|) else Failed
  {
    hide ParseValue, SkipSpaces, WellFormed, Height, Printable, Printed;
    var p := SkipSpaces(text, 0);
    ParsedIsProper(text, p, 0);
    RootIsContainer(text, p);
    var v := ParseDocument(text).value;
    DocumentReadBack(v, pretty, []);
    assert Printed(v, 0, pretty) + [] == Printed(v, 0, pretty);
  }

  lemma RootIsContainer(text: seq<byte>, p: nat)
    requires p <= |text| && SkipSpaces(text, p) == p && (Char(text, p) == 123 || Char(text, p) == 91)
    ensures var r := ParseValue(text, p, 0); r.Parsed? ==> r.value.Array? || r.value.Object?
  {
    hide SkipSpaces, ParseItems, ParseMembers;
    ContainerResult(text, p);
  }

  lemma ContainerResult(text: seq<byte>, p: nat)
    requires p < |text|
    ensures ParseArray(text, p, 1).Parsed? ==> ParseArray(text, p, 1).value.Array?
    ensures ParseObject(text, p, 1).Parsed? ==> ParseObject(text, p, 1).value.Object?
  {
    hide SkipSpaces, ParseItems, ParseMembers;
    var q := SkipSpaces(text, p + 1);
    ItemsMakeArray(text, q, 1, []);
    MembersMakeObject(text, q, 1, []);
  }

  lemma {:induction false} ItemsMakeArray(text: seq<byte>, i: nat, nesting: nat, taken: seq<Json>)
    requires i <= |text|
    ensures ParseItems(text, i, nesting, taken).Parsed? ==> ParseItems(text, i, nesting, taken).value.Array?
    decreases |text| - i
  {
    hide SkipSpaces, ParseValue;
    var r := ParseValue(text, i, nesting);
    if r.Parsed? {
      var t := SkipSpaces(text, r.next);
      if Char(text, t) == 44 {
        ItemsMakeArray(text, SkipSpaces(text, t + 1), nesting, taken + [r.value]);
      }
    }
  }

  lemma {:induction false} MembersMakeObject(text: seq<byte>, i: nat, nesting: nat, taken: seq<Member>)
    requires i <= |text|
    ensures ParseMembers(text, i, nesting, taken).Parsed? ==> ParseMembers(text, i, nesting, taken).value.Object?
    decreases |text| - i
  {
    hide ParseMembers;
    var more, j, taken' := OneMemberOn(text, i, nesting, taken);
    if more {
      MembersMakeObject(text, j, nesting, taken');
    }
  }

  // One turn of the loop over members ends it or goes on further behind.
  lemma OneMemberOn(text: seq<byte>, i: nat, nesting: nat, taken: seq<Member>)
    returns (more: bool, j: nat, taken': seq<Member>)
    requires i <= |text|
    ensures !more ==>
      ParseMembers(text, i, nesting, taken).Parsed? ==> ParseMembers(text, i, nesting, taken).value.Object?
    ensures more ==> i < j <= |text|
    ensures more ==> ParseMembers(text, i, nesting, taken) == ParseMembers(text, j, nesting, taken')
  {
    hide SkipSpaces, ParseValue, GetQuoted, Has;
    more, j, taken' := false, i, taken;
    if Char(text, i) != 0 {
      var key := GetQuoted(text, i);
      var s := SkipSpaces(text, key.next);
      if key.text.Text? && Char(text, s) == 58 && |taken| < OBJECT_MAX_CAPACITY && !Has(taken, key.text.bytes) {
        var r := ParseValue(text, s + 1, nesting);
        if r.Parsed? && Char(text, SkipSpaces(text, r.next)) == 44 {
          j := SkipSpaces(text, SkipSpaces(text, r.next) + 1);
          more, taken' := true, taken + [Member(key.text.bytes, r.value)];
        }
      }
    }
  }

  // A document that can be built and printed, but not read back: its one string is the control character 1.
  lemma RawControlIsLost(pretty: bool)
    ensures var v := Array([String([1])]);
            WellFormed(v) && ParseDocument(Printed(v, 0, pretty)) == Failed
  {
    var v := Array([String([1])]);
    assert WellFormed(v) && !Printable(v) by {
      assert [String([1])][1..] == [];
      assert IsRawControl([1 as byte][0]);
    }
    hide Printed, ParseDocument, Printable, Height, WellFormed;
    DocumentReadBack(v, pretty, []);
    assert Printed(v, 0, pretty) + [] == Printed(v, 0, pretty);
  }
}
