/** The parser as it runs: a pointer moved over the text, and tables filled on the way. */
module JsonReader {
  import opened Bits
  import opened Bytes
  import opened Utf8
  import opened JsonStrings
  import opened JsonStringDecoder
  import opened JsonValues
  import opened JsonTables
  import P = JsonParser

  class Reader {
    const text: seq<byte>
    var pos: nat

    constructor (t: seq<byte>)
      ensures text == t && pos == 0
    {
      text := t;
      pos := 0;
    }

    method SkipWhitespaces()
      requires pos <= |text|
      modifies this`pos
      ensures pos == P.SkipSpaces(text, old(pos))
    {
      while P.IsSpace(Char(text, pos))
        invariant pos <= |text| && P.SkipSpaces(text, pos) == P.SkipSpaces(text, old(pos))
        decreases |text| - pos
      {
        pos := pos + 1;
      }
    }

    // r is what the parser function yields, and the pointer has moved behind what was parsed.
    ghost predicate Arrived(r: P.Result, expected: P.Result)
      reads this
    {
      r == expected && pos <= |text| && (r.Parsed? ==> pos == r.next)
    }

    method ReadLiteral() returns (r: P.Result)
      requires pos < |text|
      modifies this`pos
      ensures Arrived(r, if old(text[pos]) == 110 then P.ParseNull(text, old(pos)) else P.ParseBoolean(text, old(pos)))
    {
      r := if text[pos] == 110 then P.ParseNull(text, pos) else P.ParseBoolean(text, pos);
      if r.Parsed? {
        pos := r.next;
      }
    }

    method ReadNumber() returns (r: P.Result)
      requires pos < |text|
      modifies this`pos
      ensures Arrived(r, P.ParseNumber(text, old(pos)))
    {
      r := P.ParseNumber(text, pos);
      if r.Parsed? {
        pos := r.next;
      }
    }

    method ReadString() returns (r: P.Result)
      requires pos < |text|
      modifies this`pos
      ensures Arrived(r, P.ParseString(text, old(pos)))
    {
      var newString, next := GetQuotedString(text, pos);
      pos := next;
      r := if newString.Malformed? then P.Failed else P.Parsed(String(newString.bytes), next);
    }

    method ReadValue(nesting: nat) returns (r: P.Result)
      requires pos <= |text|
      modifies this`pos
      ensures Arrived(r, P.ParseValue(text, old(pos), nesting))
      decreases |text| - pos, 1
    {
      hide P.ParseArray, P.ParseObject, P.ParseString, P.ParseNumber, P.ParseNull, P.ParseBoolean, P.SkipSpaces;
      if nesting > P.MAX_NESTING {
        return P.Failed;
      }
      SkipWhitespaces();
      var c := Char(text, pos);
      if c == 123 {
        r := ReadObject(nesting + 1);
      } else if c == 91 {
        r := ReadArray(nesting + 1);
      } else if c == QUOTE {
        r := ReadString();
      } else if c == 102 || c == 116 {
        r := ReadLiteral();
      } else if c == 45 || P.IsDigit(c) {
        r := ReadNumber();
      } else if c == 110 {
        r := ReadLiteral();
      } else {
        r := P.Failed;
      }
    }

    method ReadArray(nesting: nat) returns (r: P.Result)
      requires pos < |text|
      modifies this`pos
      ensures Arrived(r, P.ParseArray(text, old(pos), nesting))
      decreases |text| - pos, 0
    {
      hide P.ParseValue, P.ParseItems, P.SkipSpaces;
      pos := pos + 1;
      SkipWhitespaces();
      if Char(text, pos) == 93 {
        pos := pos + 1;
        return P.Parsed(Array([]), pos);
      }
      r := ReadItems(nesting);
    }

    // A value, which goes into the table.
    method ReadItem(table: ArrayTable, nesting: nat) returns (outcome: P.Result)
      requires pos < |text| && text[pos] != 0
      requires table.Valid() && OnlyGrown(table.items.Length, 13)
      modifies this`pos, table, table.items
      ensures pos <= |text|
      ensures !outcome.Parsed? ==> outcome == P.ParseItems(text, old(pos), nesting, old(table.Contents()))
      ensures outcome.Parsed? ==> table.Valid() && OnlyGrown(table.items.Length, 13) && table.count > 0
      ensures outcome.Parsed? ==> old(pos) <= pos
      ensures outcome.Parsed? ==>
        P.ParseItems(text, old(pos), nesting, old(table.Contents())) == AfterItem(text, pos, nesting, table.Contents())
      ensures table.items == old(table.items) || fresh(table.items)
      decreases |text| - pos, 2
    {
      hide P.ParseValue, P.ParseItems, P.SkipSpaces, OnlyGrown, Pow2;
      ItemTurn(text, pos, nesting, table.Contents());
      outcome := ReadValue(nesting);
      if !outcome.Parsed? {
        return;
      }
      var added := AddItem(table, outcome.value);
      if !added {
        return P.Failed;
      }
    }

    // The loop over the items of an array that is not empty.
    method ReadItems(nesting: nat) returns (r: P.Result)
      requires pos <= |text| && !P.IsSpace(Char(text, pos))
      modifies this`pos
      ensures Arrived(r, P.ParseItems(text, old(pos), nesting, []))
      decreases |text| - pos, 3
    {
      hide P.ParseValue, P.ParseItems, P.SkipSpaces, OnlyGrown, Pow2;
      var table := new ArrayTable();
      NewTable(13);
      var more := Char(text, pos) != 0;
      if !more {
        NoItem(text, pos, nesting, []);
      }
      while more
        invariant pos <= |text| && table.Valid() && fresh(table) && fresh(table.items)
        invariant OnlyGrown(table.items.Length, 13)
        invariant more ==> old(pos) <= pos < |text| && text[pos] != 0
        invariant more ==>
          P.ParseItems(text, pos, nesting, table.Contents()) == P.ParseItems(text, old(pos), nesting, [])
        invariant !more ==> P.ParseItems(text, old(pos), nesting, []) == ArrayClosed(text, pos, table.Contents())
        invariant !more ==> !P.IsSpace(Char(text, pos)) && (table.count > 0 || Char(text, pos) == 0)
        decreases |text| - pos, more
      {
        var outcome := ReadItem(table, nesting);
        if !outcome.Parsed? {
          return outcome;
        }
        SkipWhitespaces();
        if Char(text, pos) != 44 {
          more := false;
        } else {
          pos := pos + 1;
          SkipWhitespaces();
          more := Char(text, pos) != 0;
          if !more {
            NoItem(text, pos, nesting, table.Contents());
          }
        }
      }
      r := CloseArray(table);
    }

    // Expects the closing bracket and trims the table.
    method CloseArray(table: ArrayTable) returns (r: P.Result)
      requires table.Valid() && pos <= |text| && !P.IsSpace(Char(text, pos))
      requires table.count > 0 || Char(text, pos) == 0
      modifies this`pos, table`items
      ensures Arrived(r, ArrayClosed(text, old(pos), old(table.Contents())))
    {
      SkipWhitespaces();
      if Char(text, pos) != 93 {
        return P.Failed;
      }
      var trimmed := table.Resize(table.count);
      if !trimmed {
        return P.Failed;
      }
      pos := pos + 1;
      r := P.Parsed(Array(table.items[..table.count]), pos);
    }

    method ReadObject(nesting: nat) returns (r: P.Result)
      requires pos < |text|
      modifies this`pos
      ensures Arrived(r, P.ParseObject(text, old(pos), nesting))
      decreases |text| - pos, 0
    {
      hide P.ParseValue, P.ParseMembers, P.SkipSpaces;
      pos := pos + 1;
      SkipWhitespaces();
      if Char(text, pos) == 125 {
        pos := pos + 1;
        return P.Parsed(Object([]), pos);
      }
      r := ReadMembers(nesting);
    }

    // A name, a colon and a value, which go into the table.
    method ReadMember(table: ObjectTable, nesting: nat) returns (outcome: P.Result)
      requires pos < |text| && text[pos] != 0
      requires table.Valid() && OnlyGrown(table.names.Length, 6)
      modifies this`pos, table, table.names, table.values
      ensures pos <= |text|
      ensures !outcome.Parsed? ==> outcome == P.ParseMembers(text, old(pos), nesting, old(table.members))
      ensures outcome.Parsed? ==> table.Valid() && OnlyGrown(table.names.Length, 6) && table.count > 0
      ensures outcome.Parsed? ==> old(pos) < pos
      ensures outcome.Parsed? ==>
        P.ParseMembers(text, old(pos), nesting, old(table.members)) == AfterMember(text, pos, nesting, table.members)
      ensures (table.names == old(table.names) && table.values == old(table.values))
        || (fresh(table.names) && fresh(table.values))
      decreases |text| - pos, 1
    {
      hide P.ParseValue, P.ParseMembers, P.SkipSpaces, OnlyGrown, Pow2, GetQuoted, Has, DistinctNames;
      MemberTurn(text, pos, nesting, table.members);
      var newKey, next := GetQuotedString(text, pos);
      pos := next;
      SkipWhitespaces();
      if newKey.Malformed? || Char(text, pos) != 58 {
        return P.Failed;
      }
      pos := pos + 1;
      outcome := ReadValue(nesting);
      if !outcome.Parsed? {
        return;
      }
      var added := AddMember(table, newKey.bytes, outcome.value);
      if !added {
        return P.Failed;
      }
    }

    // The loop over the members of an object that is not empty.
    method ReadMembers(nesting: nat) returns (r: P.Result)
      requires pos <= |text| && !P.IsSpace(Char(text, pos))
      modifies this`pos
      ensures Arrived(r, P.ParseMembers(text, old(pos), nesting, []))
      decreases |text| - pos, 2
    {
      hide P.ParseValue, P.ParseMembers, P.SkipSpaces, OnlyGrown, Pow2, GetQuoted, Has, DistinctNames,
           ObjectTable.Valid;
      var table := new ObjectTable();
      NewTable(6);
      var more := Char(text, pos) != 0;
      if !more {
        NoMember(text, pos, nesting, []);
      }
      while more
        invariant pos <= |text| && table.Valid() && fresh(table) && fresh(table.names) && fresh(table.values)
        invariant OnlyGrown(table.names.Length, 6)
        invariant more ==> old(pos) <= pos < |text| && text[pos] != 0
        invariant more ==>
          P.ParseMembers(text, pos, nesting, table.members) == P.ParseMembers(text, old(pos), nesting, [])
        invariant !more ==> P.ParseMembers(text, old(pos), nesting, []) == ObjectClosed(text, pos, table.members)
        invariant !more ==> !P.IsSpace(Char(text, pos)) && (table.count > 0 || Char(text, pos) == 0)
        decreases |text| - pos, more
      {
        var outcome := ReadMember(table, nesting);
        if !outcome.Parsed? {
          return outcome;
        }
        SkipWhitespaces();
        if Char(text, pos) != 44 {
          more := false;
        } else {
          pos := pos + 1;
          SkipWhitespaces();
          more := Char(text, pos) != 0;
          if !more {
            NoMember(text, pos, nesting, table.members);
          }
        }
      }
      r := CloseObject(table);
    }

    method CloseObject(table: ObjectTable) returns (r: P.Result)
      requires table.Valid() && pos <= |text| && !P.IsSpace(Char(text, pos))
      requires table.count > 0 || Char(text, pos) == 0
      modifies this`pos, table
      ensures Arrived(r, ObjectClosed(text, old(pos), old(table.members)))
    {
      hide DistinctNames;
      SkipWhitespaces();
      if Char(text, pos) != 125 {
        return P.Failed;
      }
      var trimmed := table.Resize(table.count);
      if !trimmed {
        return P.Failed;
      }
      pos := pos + 1;
      var contents := table.Contents();
      r := P.Parsed(contents, pos);
    }

    // The first array or object of the text.
    method ReadDocument() returns (r: P.Result)
      requires pos == 0
      modifies this`pos
      ensures Arrived(r, P.ParseDocument(text))
    {
      hide P.ParseValue, P.SkipSpaces;
      SkipWhitespaces();
      if Char(text, pos) != 123 && Char(text, pos) != 91 {
        return P.Failed;
      }
      r := ReadValue(0);
    }
  }

  // The end of an array: its bracket has to stand at i.
  ghost function ArrayClosed(text: seq<byte>, i: nat, items: seq<Json>): P.Result {
    if Char(text, i) == 93 then P.Parsed(Array(items), i + 1) else P.Failed
  }

  lemma NoItem(text: seq<byte>, i: nat, nesting: nat, taken: seq<Json>)
    requires i <= |text| && Char(text, i) == 0
    ensures P.ParseItems(text, i, nesting, taken) == P.Failed == ArrayClosed(text, i, taken)
  {
  }

  // What parsing goes on to yield behind an item.
  ghost function AfterItem(text: seq<byte>, next: nat, nesting: nat, taken: seq<Json>): P.Result
    requires next <= |text|
  {
    var t := P.SkipSpaces(text, next);
    if Char(text, t) == 44 then P.ParseItems(text, P.SkipSpaces(text, t + 1), nesting, taken)
    else ArrayClosed(text, t, taken)
  }

  // One turn of the loop over items.
  lemma ItemTurn(text: seq<byte>, i: nat, nesting: nat, taken: seq<Json>)
    requires i < |text| && text[i] != 0
    ensures var r := P.ParseValue(text, i, nesting);
            && (!r.Parsed? ==> P.ParseItems(text, i, nesting, taken) == r)
            && (r.Parsed? && |taken| >= ARRAY_MAX_CAPACITY ==> P.ParseItems(text, i, nesting, taken) == P.Failed)
            && (r.Parsed? && |taken| < ARRAY_MAX_CAPACITY ==>
                  P.ParseItems(text, i, nesting, taken) == AfterItem(text, r.next, nesting, taken + [r.value]))
  {
    hide P.ParseValue, P.SkipSpaces;
  }

  ghost function ObjectClosed(text: seq<byte>, i: nat, members: seq<Member>): P.Result {
    if Char(text, i) == 125 then P.Parsed(Object(members), i + 1) else P.Failed
  }

  lemma NoMember(text: seq<byte>, i: nat, nesting: nat, taken: seq<Member>)
    requires i <= |text| && Char(text, i) == 0
    ensures P.ParseMembers(text, i, nesting, taken) == P.Failed == ObjectClosed(text, i, taken)
  {
  }

  // What parsing goes on to yield behind a member.
  ghost function AfterMember(text: seq<byte>, next: nat, nesting: nat, taken: seq<Member>): P.Result
    requires next <= |text|
  {
    var t := P.SkipSpaces(text, next);
    if Char(text, t) == 44 then P.ParseMembers(text, P.SkipSpaces(text, t + 1), nesting, taken)
    else ObjectClosed(text, t, taken)
  }

  // One turn of the loop over members.
  lemma MemberTurn(text: seq<byte>, i: nat, nesting: nat, taken: seq<Member>)
    requires i < |text| && text[i] != 0
    ensures var q := GetQuoted(text, i);
            var s := P.SkipSpaces(text, q.next);
            && (q.text.Malformed? || Char(text, s) != 58 ==> P.ParseMembers(text, i, nesting, taken) == P.Failed)
            && (q.text.Text? && Char(text, s) == 58 ==>
                  var r := P.ParseValue(text, s + 1, nesting);
                  && (!r.Parsed? ==> P.ParseMembers(text, i, nesting, taken) == r)
                  && (r.Parsed? && (|taken| >= OBJECT_MAX_CAPACITY || Has(taken, q.text.bytes)) ==>
                        P.ParseMembers(text, i, nesting, taken) == P.Failed)
                  && (r.Parsed? && |taken| < OBJECT_MAX_CAPACITY && !Has(taken, q.text.bytes) ==>
                        P.ParseMembers(text, i, nesting, taken)
                        == AfterMember(text, r.next, nesting, taken + [Member(q.text.bytes, r.value)])))
  {
    hide P.ParseValue, P.SkipSpaces, GetQuoted, Has;
  }
}
