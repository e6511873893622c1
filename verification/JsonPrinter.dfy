/** The serializer: the text of a document, and the two passes that measure and write it. */
module JsonPrinter {
  import opened Bytes
  import opened JsonStrings
  import opened JsonValues

  // ----- The text, in ASCII codes: 10 is a line break, 32 a space, 44 a comma, 45 a minus, 48 a zero,
  // 58 a colon, 91 and 93 are square and 123 and 125 curly brackets -----

  function Digits(n: nat): (r: seq<byte>)
    ensures |r| >= 1
  {
    if n < 10 then [48 + n] else Digits(n / 10) + [48 + n % 10]
  }

  // "%d"
  function Decimal(n: int): (r: seq<byte>)
    ensures |r| >= 1
  {
    if n < 0 then [45] + Digits(-n) else Digits(n)
  }

  function Spaces(level: nat): seq<byte> {
    if level == 0 then [] else [32, 32, 32, 32] + Spaces(level - 1)
  }

  function Indent(level: nat, pretty: bool): seq<byte> {
    if pretty then Spaces(level) else []
  }

  function Newline(pretty: bool): seq<byte> {
    if pretty then [10] else []
  }

  function Colon(pretty: bool): seq<byte> {
    if pretty then [58, 32] else [58]
  }

  function Comma(last: bool): seq<byte> {
    if last then [] else [44]
  }

  function Printed(v: Json, level: nat, pretty: bool): (r: seq<byte>)
    decreases v
  {
    match v
    case Null => [110, 117, 108, 108]  // null
    case Boolean(on) => if on then  // true or false
      [116, 114, 117, 101] else [102, 97, 108, 115, 101]
    case Number(n) => Decimal(n)
    case String(text) => Quoted(text)
    case Array(items) =>
      if |items| == 0 then [91, 93]
      else [91] + Newline(pretty) + (PrintedItems(items, level + 1, pretty) + (Indent(level, pretty) + [93]))
    case Object(members) =>
      if |members| == 0 then [123, 125]
      else [123] + Newline(pretty) + (PrintedMembers(members, level + 1, pretty) + (Indent(level, pretty) + [125]))
  }

  function PrintedItems(items: seq<Json>, level: nat, pretty: bool): seq<byte>
    decreases items
  {
    if |items| == 0 then []
    else Line(Printed(items[0], level, pretty), |items| == 1, level, pretty) + PrintedItems(items[1..], level, pretty)
  }

  function PrintedMembers(members: seq<Member>, level: nat, pretty: bool): seq<byte>
    decreases members
  {
    if |members| == 0 then []
    else
      var text := Quoted(members[0].name) + (Colon(pretty) + Printed(members[0].value, level, pretty));
      Line(text, |members| == 1, level, pretty) + PrintedMembers(members[1..], level, pretty)
  }

  // One element of an array or object.
  function Line(element: seq<byte>, last: bool, level: nat, pretty: bool): seq<byte> {
    Indent(level, pretty) + (element + (Comma(last) + Newline(pretty)))
  }

  // ----- The output buffer -----

  // After done has been written from start on, the buffer is otherwise as before, but for the byte
  // where the terminator goes.
  ghost predicate Written(buffer: seq<byte>, before: seq<byte>, start: nat, done: seq<byte>) {
    && |buffer| == |before| && start + |done| < |before|
    && buffer[..start] == before[..start]
    && buffer[start..start + |done|] == done
    && buffer[start + |done| + 1..] == before[start + |done| + 1..]
  }

  // The pass that only measures has no buffer.
  ghost predicate Holds(buf: array?<byte>, before: seq<byte>, start: nat, done: seq<byte>)
    reads buf
  {
    buf != null ==> Written(buf[..], before, start, done)
  }

  ghost predicate Terminated(buf: array?<byte>, at: nat)
    reads buf
  {
    buf != null ==> at < buf.Length && buf[at] == 0
  }

  predicate Fits(buf: array?<byte>, at: nat, n: nat) {
    buf != null ==> at + n < buf.Length
  }

  ghost function Footprint(buf: array?<byte>): set<object> {
    if buf == null then {} else {buf}
  }

  // sprintf(buf, "%s", s), or only the length of s.
  method AppendString(buf: array?<byte>, at: nat, s: seq<byte>, ghost before: seq<byte>, ghost start: nat,
        ghost done: seq<byte>)
    returns (written: nat)
    requires Holds(buf, before, start, done) && at == start + |done| && Fits(buf, at, |s|)
    modifies Footprint(buf)
    ensures written == |s|
    ensures Holds(buf, before, start, done + s) && Terminated(buf, at + |s|)
  {
    if buf == null {
      return |s|;
    }
    forall k | 0 <= k < |s| {
      buf[at + k] := s[k];
    }
    buf[at + |s|] := 0;
    written := |s|;
  }

  // A byte copied as it is; no terminator follows.
  method AppendByte(buf: array?<byte>, at: nat, c: byte, ghost before: seq<byte>, ghost start: nat,
        ghost done: seq<byte>)
    returns (written: nat)
    requires Holds(buf, before, start, done) && at == start + |done| && Fits(buf, at, 1)
    modifies Footprint(buf)
    ensures written == 1
    ensures Holds(buf, before, start, done + [c])
  {
    if buf != null {
      buf[at] := c;
    }
    written := 1;
  }

  method AppendIndent(buf: array?<byte>, at: nat, level: nat, ghost before: seq<byte>, ghost start: nat,
        ghost done: seq<byte>)
    returns (written: nat)
    requires Holds(buf, before, start, done) && at == start + |done| && Fits(buf, at, |Spaces(level)|)
    modifies Footprint(buf)
    ensures written == |Spaces(level)|
    ensures Holds(buf, before, start, done + Spaces(level))
  {
    hide Written;
    written := 0;
    ghost var d: seq<byte> := [];
    assert done + d == done;
    for i := 0 to level
      invariant written == |d| && |d| + |Spaces(level - i)| == |Spaces(level)|
      invariant d + Spaces(level - i) == Spaces(level)
      invariant Holds(buf, before, start, done + d)
    {
      var n := AppendString(buf, at + written, [32, 32, 32, 32], before, start, done + d);
      assert done + d + [32, 32, 32, 32] == done + (d + [32, 32, 32, 32]);
      assert d + [32, 32, 32, 32] + Spaces(level - i - 1) == d + ([32, 32, 32, 32] + Spaces(level - i - 1));
      written := written + n;
      d := d + [32, 32, 32, 32];
    }
    assert Spaces(0) == [] && d + [] == d;
  }

  method SerializeByte(c: byte, buf: array?<byte>, at: nat, ghost before: seq<byte>, ghost start: nat,
        ghost done: seq<byte>)
    returns (written: nat)
    requires Holds(buf, before, start, done) && at == start + |done| && Fits(buf, at, |EscapedByte(c)|)
    modifies Footprint(buf)
    ensures written == |EscapedByte(c)|
    ensures Holds(buf, before, start, done + EscapedByte(c))
  {
    hide Written;
    if c == 34 || c == 92 || c == 47 {
      written := AppendString(buf, at, [92, c], before, start, done);
    } else if c == 8 {
      written := AppendString(buf, at, [92, 98], before, start, done);
    } else if c == 12 {
      written := AppendString(buf, at, [92, 102], before, start, done);
    } else if c == 10 {
      written := AppendString(buf, at, [92, 110], before, start, done);
    } else if c == 13 {
      written := AppendString(buf, at, [92, 114], before, start, done);
    } else if c == 9 {
      written := AppendString(buf, at, [92, 116], before, start, done);
    } else {
      written := AppendByte(buf, at, c, before, start, done);
    }
  }

  // A text of which d is written and rest is to come.
  ghost predicate Remaining(whole: seq<byte>, d: seq<byte>, rest: seq<byte>) {
    whole == d + rest
  }

  lemma NextPiece(whole: seq<byte>, d: seq<byte>, piece: seq<byte>, rest: seq<byte>)
    requires Remaining(whole, d, piece + rest)
    ensures Remaining(whole, d + piece, rest) && |d| + |piece| + |rest| == |whole|
  {
  }

  method SerializeString(text: seq<byte>, buf: array?<byte>, at: nat, ghost before: seq<byte>, ghost start: nat,
        ghost done: seq<byte>)
    returns (written: nat)
    requires Holds(buf, before, start, done) && at == start + |done| && Fits(buf, at, |Quoted(text)|)
    modifies Footprint(buf)
    ensures written == |Quoted(text)|
    ensures Holds(buf, before, start, done + Quoted(text)) && Terminated(buf, at + written)
  {
    hide Written, EscapedByte, Remaining;
    ghost var whole := Quoted(text);
    written := AppendString(buf, at, [QUOTE], before, start, done);
    ghost var d: seq<byte> := [QUOTE];
    BodyToCome(text);
    for i := 0 to |text|
      invariant written == |d|
      invariant Remaining(whole, d, EscapedText(text[i..]) + [QUOTE])
      invariant Holds(buf, before, start, done + d)
    {
      NextEscaped(text, i, whole, d);
      var n := SerializeByte(text[i], buf, at + written, before, start, done + d);
      assert done + d + EscapedByte(text[i]) == done + (d + EscapedByte(text[i]));
      written := written + n;
      d := d + EscapedByte(text[i]);
    }
    NoneEscaped(text, whole, d);
    var n := AppendString(buf, at + written, [QUOTE], before, start, done + d);
    assert done + d + [QUOTE] == done + (d + [QUOTE]);
    written := written + n;
  }

  lemma BodyToCome(text: seq<byte>)
    ensures Remaining(Quoted(text), [QUOTE], EscapedText(text[0..]) + [QUOTE])
  {
    assert text[0..] == text;
  }

  lemma NextEscaped(text: seq<byte>, i: nat, whole: seq<byte>, d: seq<byte>)
    requires i < |text| && Remaining(whole, d, EscapedText(text[i..]) + [QUOTE])
    ensures Remaining(whole, d + EscapedByte(text[i]), EscapedText(text[i + 1..]) + [QUOTE])
    ensures |d| + |EscapedByte(text[i])| <= |whole|
  {
    hide EscapedByte;
    assert text[i..][1..] == text[i + 1..];
    assert EscapedText(text[i..]) + [QUOTE] == EscapedByte(text[i]) + (EscapedText(text[i + 1..]) + [QUOTE]);
    NextPiece(whole, d, EscapedByte(text[i]), EscapedText(text[i + 1..]) + [QUOTE]);
  }

  lemma NoneEscaped(text: seq<byte>, whole: seq<byte>, d: seq<byte>)
    requires Remaining(whole, d, EscapedText(text[|text|..]) + [QUOTE])
    ensures whole == d + [QUOTE]
  {
    assert text[|text|..] == [];
  }

  // The indentation a line starts with.
  method OpenLine(buf: array?<byte>, at: nat, level: nat, pretty: bool, ghost before: seq<byte>, ghost start: nat,
        ghost done: seq<byte>)
    returns (written: nat)
    requires Holds(buf, before, start, done) && at == start + |done| && Fits(buf, at, |Indent(level, pretty)|)
    modifies Footprint(buf)
    ensures written == |Indent(level, pretty)|
    ensures Holds(buf, before, start, done + Indent(level, pretty))
  {
    hide Written, Spaces;
    written := 0;
    if pretty {
      written := AppendIndent(buf, at, level, before, start, done);
    } else {
      assert done + [] == done;
    }
  }

  // The comma and line break a line ends with.
  method CloseLine(buf: array?<byte>, at: nat, last: bool, pretty: bool, ghost before: seq<byte>, ghost start: nat,
        ghost done: seq<byte>)
    returns (written: nat)
    requires Holds(buf, before, start, done) && at == start + |done| && Fits(buf, at, |Comma(last) + Newline(pretty)|)
    modifies Footprint(buf)
    ensures written == |Comma(last) + Newline(pretty)|
    ensures Holds(buf, before, start, done + (Comma(last) + Newline(pretty)))
  {
    hide Written;
    written := 0;
    ghost var d: seq<byte> := [];
    assert done + d == done;
    if !last {
      written := AppendString(buf, at, [44], before, start, done);
      d := [44];
    }
    assert d == Comma(last);
    if pretty {
      var n := AppendString(buf, at + written, [10], before, start, done + d);
      written := written + n;
      assert done + d + [10] == done + (d + [10]);
    } else {
      assert d + [] == d;
    }
  }

  // The text of v.
  method Serialize(v: Json, buf: array?<byte>, at: nat, level: nat, pretty: bool,
                   ghost before: seq<byte>, ghost start: nat, ghost done: seq<byte>)
    returns (written: nat)
    requires WellFormed(v)
    requires Holds(buf, before, start, done) && at == start + |done| && Fits(buf, at, |Printed(v, level, pretty)|)
    modifies Footprint(buf)
    ensures written == |Printed(v, level, pretty)|
    ensures Holds(buf, before, start, done + Printed(v, level, pretty)) && Terminated(buf, at + written)
    decreases v, 0
  {
    hide Written, Quoted, Decimal, Indent, PrintedItems, PrintedMembers, AllWellFormed, AllMembersWellFormed;
    match v {
      case Null => written := AppendString(buf, at, [110, 117, 108, 108], before, start, done);
      case Boolean(on) =>
        written := AppendString(buf, at, if on then [116, 114, 117, 101] else [102, 97, 108, 115, 101], before,
            start, done);
      case Number(n) => written := AppendString(buf, at, Decimal(n), before, start, done);
      case String(text) => written := SerializeString(text, buf, at, before, start, done);
      case Array(items) => written := SerializeArray(items, buf, at, level, pretty, before, start, done);
      case Object(members) => written := SerializeObject(members, buf, at, level, pretty, before, start, done);
    }
  }

  method SerializeItem(v: Json, last: bool, buf: array?<byte>, at: nat, level: nat, pretty: bool,
                       ghost before: seq<byte>, ghost start: nat, ghost done: seq<byte>)
    returns (written: nat)
    requires WellFormed(v)
    requires Holds(buf, before, start, done) && at == start + |done|
    requires Fits(buf, at, |Line(Printed(v, level, pretty), last, level, pretty)|)
    modifies Footprint(buf)
    ensures written == |Line(Printed(v, level, pretty), last, level, pretty)|
    ensures Holds(buf, before, start, done + Line(Printed(v, level, pretty), last, level, pretty))
    decreases v, 1
  {
    hide Written, Printed, Indent, Comma, Newline, WellFormed;
    var indented := OpenLine(buf, at, level, pretty, before, start, done);
    ghost var d := Indent(level, pretty);
    var n := Serialize(v, buf, at + indented, level, pretty, before, start, done + d);
    ghost var p := Printed(v, level, pretty);
    assert done + d + p == done + (d + p);
    var m := CloseLine(buf, at + indented + n, last, pretty, before, start, done + (d + p));
    assert done + (d + p) + (Comma(last) + Newline(pretty)) == done + (d + (p + (Comma(last) + Newline(pretty))));
    written := indented + n + m;
  }

  method SerializeArray(items: seq<Json>, buf: array?<byte>, at: nat, level: nat, pretty: bool,
                        ghost before: seq<byte>, ghost start: nat, ghost done: seq<byte>)
    returns (written: nat)
    requires AllWellFormed(items)
    requires Holds(buf, before, start, done) && at == start + |done|
    requires Fits(buf, at, |Printed(Array(items), level, pretty)|)
    modifies Footprint(buf)
    ensures written == |Printed(Array(items), level, pretty)|
    ensures Holds(buf, before, start, done + Printed(Array(items), level, pretty)) && Terminated(buf, at + written)
    decreases items
  {
    hide Written, Printed, PrintedItems, Indent, WellFormed, Remaining, Line, AllWellFormed;
    ghost var whole := Printed(Array(items), level, pretty);
    ghost var tail := (if |items| > 0 then Indent(level, pretty) else []) + [93];
    ArrayOpened(items, level, pretty);
    written := AppendString(buf, at, [91], before, start, done);
    ghost var d: seq<byte> := [91];
    if |items| > 0 && pretty {
      var n := AppendString(buf, at + written, [10], before, start, done + d);
      assert done + d + [10] == done + (d + [10]);
      written, d := written + n, d + [10];
    }
    for i := 0 to |items|
      invariant written == |d|
      invariant Remaining(whole, d, PrintedItems(items[i..], level + 1, pretty) + tail)
      invariant Holds(buf, before, start, done + d)
    {
      WellFormedAt(items, i);
      NextItem(items, i, level + 1, pretty, whole, d, tail);
      ghost var line := Line(Printed(items[i], level + 1, pretty), i == |items| - 1, level + 1, pretty);
      var n := SerializeItem(items[i], i == |items| - 1, buf, at + written, level + 1, pretty, before, start, done + d);
      assert done + d + line == done + (d + line);
      written, d := written + n, d + line;
    }
    NoItemsLeft(items, level + 1, pretty, whole, d, tail);
    var n := CloseBracket(buf, at + written, |items| > 0, 93, level, pretty, before, start, done + d);
    assert done + d + tail == done + (d + tail);
    written := written + n;
  }

  // The line a closing bracket stands on.
  method CloseBracket(buf: array?<byte>, at: nat, indented: bool, bracket: byte, level: nat, pretty: bool,
                      ghost before: seq<byte>, ghost start: nat, ghost done: seq<byte>)
    returns (written: nat)
    requires Holds(buf, before, start, done) && at == start + |done|
    requires Fits(buf, at, |(if indented then Indent(level, pretty) else []) + [bracket]|)
    modifies Footprint(buf)
    ensures written == |(if indented then Indent(level, pretty) else []) + [bracket]|
    ensures Holds(buf, before, start, done + ((if indented then Indent(level, pretty) else []) + [bracket]))
    ensures Terminated(buf, at + written)
  {
    hide Written, Indent;
    written := 0;
    ghost var d: seq<byte> := [];
    assert done + d == done;
    if indented {
      written := OpenLine(buf, at, level, pretty, before, start, done);
      d := Indent(level, pretty);
    }
    var n := AppendString(buf, at + written, [bracket], before, start, done + d);
    assert done + d + [bracket] == done + (d + [bracket]);
    written := written + n;
  }

  lemma ArrayOpened(items: seq<Json>, level: nat, pretty: bool)
    ensures var tail := (if |items| > 0 then Indent(level, pretty) else []) + [93];
            Remaining(Printed(Array(items), level, pretty), [91] + (if |items| > 0 then Newline(pretty) else []),
                      PrintedItems(items[0..], level + 1, pretty) + tail)
    ensures [91] + [] == [91] && |Printed(Array(items), level, pretty)| >= if |items| > 0 && pretty then 2 else 1
  {
    hide Indent;
    assert items[0..] == items;
  }

  lemma NextItem(items: seq<Json>, i: nat, level: nat, pretty: bool, whole: seq<byte>, d: seq<byte>, tail: seq<byte>)
    requires i < |items| && Remaining(whole, d, PrintedItems(items[i..], level, pretty) + tail)
    ensures var line := Line(Printed(items[i], level, pretty), i == |items| - 1, level, pretty);
            && |d| + |line| <= |whole|
            && Remaining(whole, d + line, PrintedItems(items[i + 1..], level, pretty) + tail)
  {
    hide Printed, Line, Remaining;
    var line := Line(Printed(items[i], level, pretty), i == |items| - 1, level, pretty);
    assert items[i..][1..] == items[i + 1..];
    assert PrintedItems(items[i..], level, pretty) + tail
        == line + (PrintedItems(items[i + 1..], level, pretty) + tail);
    NextPiece(whole, d, line, PrintedItems(items[i + 1..], level, pretty) + tail);
  }

  lemma NoItemsLeft(items: seq<Json>, level: nat, pretty: bool, whole: seq<byte>, d: seq<byte>, tail: seq<byte>)
    requires Remaining(whole, d, PrintedItems(items[|items|..], level, pretty) + tail)
    ensures whole == d + tail
  {
    assert items[|items|..] == [];
    assert [] + tail == tail;
  }

  // The text of one member of an object, without indentation and comma.
  function MemberText(member: Member, level: nat, pretty: bool): seq<byte> {
    Quoted(member.name) + (Colon(pretty) + Printed(member.value, level, pretty))
  }

  method SerializeMember(members: seq<Member>, i: nat, buf: array?<byte>, at: nat, level: nat, pretty: bool,
                         ghost before: seq<byte>, ghost start: nat, ghost done: seq<byte>)
    returns (written: nat)
    requires i < |members| && DistinctNames(members) && WellFormed(members[i].value)
    requires Holds(buf, before, start, done) && at == start + |done|
    requires Fits(buf, at, |MemberText(members[i], level, pretty)|)
    modifies Footprint(buf)
    ensures written == |MemberText(members[i], level, pretty)|
    ensures Holds(buf, before, start, done + MemberText(members[i], level, pretty))
    decreases members[i].value, 1
  {
    hide Written, Printed, WellFormed, Quoted;
    var key := members[i].name;
    ghost var d := Quoted(key);
    written := SerializeString(key, buf, at, before, start, done);
    var n := AppendString(buf, at + written, Colon(pretty), before, start, done + d);
    assert done + d + Colon(pretty) == done + (d + Colon(pretty));
    written, d := written + n, d + Colon(pretty);
    LookupFirst(members, key, i);
    var value := GetValue(members, key);
    ghost var p := Printed(value.value, level, pretty);
    n := Serialize(value.value, buf, at + written, level, pretty, before, start, done + d);
    assert done + d + p == done + (Quoted(key) + (Colon(pretty) + p));
    written := written + n;
  }

  method SerializeMemberLine(members: seq<Member>, i: nat, buf: array?<byte>, at: nat, level: nat, pretty: bool,
                             ghost before: seq<byte>, ghost start: nat, ghost done: seq<byte>)
    returns (written: nat)
    requires i < |members| && DistinctNames(members) && WellFormed(members[i].value)
    requires Holds(buf, before, start, done) && at == start + |done|
    requires Fits(buf, at, |Line(MemberText(members[i], level, pretty), i == |members| - 1, level, pretty)|)
    modifies Footprint(buf)
    ensures written == |Line(MemberText(members[i], level, pretty), i == |members| - 1, level, pretty)|
    ensures var line := Line(MemberText(members[i], level, pretty), i == |members| - 1, level, pretty);
            Holds(buf, before, start, done + line)
    decreases members[i].value, 2
  {
    hide Written, MemberText, Indent, Comma, Newline, WellFormed, DistinctNames;
    var last := i == |members| - 1;
    var indented := OpenLine(buf, at, level, pretty, before, start, done);
    ghost var d := Indent(level, pretty);
    var n := SerializeMember(members, i, buf, at + indented, level, pretty, before, start, done + d);
    ghost var p := MemberText(members[i], level, pretty);
    assert done + d + p == done + (d + p);
    var m := CloseLine(buf, at + indented + n, last, pretty, before, start, done + (d + p));
    assert done + (d + p) + (Comma(last) + Newline(pretty)) == done + (d + (p + (Comma(last) + Newline(pretty))));
    written := indented + n + m;
  }

  method SerializeObject(members: seq<Member>, buf: array?<byte>, at: nat, level: nat, pretty: bool,
                         ghost before: seq<byte>, ghost start: nat, ghost done: seq<byte>)
    returns (written: nat)
    requires AllMembersWellFormed(members) && DistinctNames(members)
    requires Holds(buf, before, start, done) && at == start + |done|
    requires Fits(buf, at, |Printed(Object(members), level, pretty)|)
    modifies Footprint(buf)
    ensures written == |Printed(Object(members), level, pretty)|
    ensures Holds(buf, before, start, done + Printed(Object(members), level, pretty)) && Terminated(buf, at + written)
    decreases members
  {
    hide Written, Printed, PrintedMembers, Indent, WellFormed, Remaining, Line, AllMembersWellFormed, DistinctNames,
         MemberText;
    ghost var whole := Printed(Object(members), level, pretty);
    ghost var tail := (if |members| > 0 then Indent(level, pretty) else []) + [125];
    ObjectOpened(members, level, pretty);
    written := AppendString(buf, at, [123], before, start, done);
    ghost var d: seq<byte> := [123];
    if |members| > 0 && pretty {
      var n := AppendString(buf, at + written, [10], before, start, done + d);
      assert done + d + [10] == done + (d + [10]);
      written, d := written + n, d + [10];
    }
    for i := 0 to |members|
      invariant written == |d|
      invariant Remaining(whole, d, PrintedMembers(members[i..], level + 1, pretty) + tail)
      invariant Holds(buf, before, start, done + d)
    {
      MemberWellFormedAt(members, i);
      NextMember(members, i, level + 1, pretty, whole, d, tail);
      ghost var line := Line(MemberText(members[i], level + 1, pretty), i == |members| - 1, level + 1, pretty);
      var n := SerializeMemberLine(members, i, buf, at + written, level + 1, pretty, before, start, done + d);
      assert done + d + line == done + (d + line);
      written, d := written + n, d + line;
    }
    NoMembersLeft(members, level + 1, pretty, whole, d, tail);
    var n := CloseBracket(buf, at + written, |members| > 0, 125, level, pretty, before, start, done + d);
    assert done + d + tail == done + (d + tail);
    written := written + n;
  }

  lemma ObjectOpened(members: seq<Member>, level: nat, pretty: bool)
    ensures var tail := (if |members| > 0 then Indent(level, pretty) else []) + [125];
            Remaining(Printed(Object(members), level, pretty), [123] + (if |members| > 0 then Newline(pretty) else []),
                      PrintedMembers(members[0..], level + 1, pretty) + tail)
    ensures [123] + [] == [123] && |Printed(Object(members), level, pretty)| >= if |members| > 0 && pretty then 2 else 1
  {
    hide Indent;
    assert members[0..] == members;
  }

  lemma NextMember(members: seq<Member>, i: nat, level: nat, pretty: bool, whole: seq<byte>, d: seq<byte>,
        tail: seq<byte>)
    requires i < |members| && Remaining(whole, d, PrintedMembers(members[i..], level, pretty) + tail)
    ensures var line := Line(MemberText(members[i], level, pretty), i == |members| - 1, level, pretty);
            && |d| + |line| <= |whole|
            && Remaining(whole, d + line, PrintedMembers(members[i + 1..], level, pretty) + tail)
  {
    hide Printed, Line, Remaining, Quoted;
    var line := Line(MemberText(members[i], level, pretty), i == |members| - 1, level, pretty);
    assert members[i..][1..] == members[i + 1..];
    assert PrintedMembers(members[i..], level, pretty) + tail
        == line + (PrintedMembers(members[i + 1..], level, pretty) + tail);
    NextPiece(whole, d, line, PrintedMembers(members[i + 1..], level, pretty) + tail);
  }

  lemma NoMembersLeft(members: seq<Member>, level: nat, pretty: bool, whole: seq<byte>, d: seq<byte>, tail: seq<byte>)
    requires Remaining(whole, d, PrintedMembers(members[|members|..], level, pretty) + tail)
    ensures whole == d + tail
  {
    assert members[|members|..] == [];
    assert [] + tail == tail;
  }

  // ----- The interface -----

  // The measuring pass: the length of the text and its terminator.
  method SerializationSize(v: Json, pretty: bool) returns (size: nat)
    requires WellFormed(v)
    ensures size == |Printed(v, 0, pretty)| + 1
  {
    hide Printed, WellFormed;
    var res := Serialize(v, null, 0, 0, pretty, [], 0, []);
    size := res + 1;
  }

  // Writes the text into a buffer that is large enough, or leaves the buffer alone.
  method SerializeToBuffer(v: Json, buf: array<byte>, pretty: bool) returns (ok: bool)
    requires WellFormed(v)
    modifies buf
    ensures ok <==> |Printed(v, 0, pretty)| < buf.Length
    ensures ok ==> buf[..] == Splice(old(buf[..]), 0, Printed(v, 0, pretty) + [0])
    ensures !ok ==> buf[..] == old(buf[..])
  {
    hide Printed, WellFormed;
    var needed := SerializationSize(v, pretty);
    if buf.Length < needed {
      return false;
    }
    ghost var before := buf[..];
    var written := Serialize(v, buf, 0, 0, pretty, before, 0, []);
    WrittenIsSpliced(buf[..], before, Printed(v, 0, pretty));
    ok := true;
  }

  lemma WrittenIsSpliced(buffer: seq<byte>, before: seq<byte>, text: seq<byte>)
    requires Written(buffer, before, 0, [] + text) && |text| < |buffer| && buffer[|text|] == 0
    ensures buffer == Splice(before, 0, text + [0])
  {
    assert [] + text == text;
    assert buffer == buffer[..|text|] + [buffer[|text|]] + buffer[|text| + 1..];
  }

  // A string of just the right size.
  method SerializeToString(v: Json, pretty: bool) returns (buf: array<byte>)
    requires WellFormed(v)
    ensures fresh(buf) && buf[..] == Printed(v, 0, pretty) + [0]
  {
    hide Printed, WellFormed;
    var size := SerializationSize(v, pretty);
    buf := new byte[size](_ => 0);
    var ok := SerializeToBuffer(v, buf, pretty);
  }
}
