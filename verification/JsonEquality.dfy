/** Comparing and copying documents. Two documents are equal when they denote the same thing, that is
    when they agree once objects are taken as maps from names to values. */
module JsonEquality {
  import opened Bits
  import opened Bytes
  import opened JsonValues
  import opened JsonTables
  import opened Wrappers

  datatype Doc =
    | NullDoc
    | BooleanDoc(on: bool)
    | NumberDoc(n: int32)
    | StringDoc(text: seq<byte>)
    | ArrayDoc(items: seq<Doc>)
    | ObjectDoc(members: map<seq<byte>, Doc>)

  ghost function Canonical(v: Json): Doc
    decreases v
  {
    match v
    case Null => NullDoc
    case Boolean(on) => BooleanDoc(on)
    case Number(n) => NumberDoc(n)
    case String(text) => StringDoc(text)
    case Array(items) => ArrayDoc(CanonicalItems(items))
    case Object(members) => ObjectDoc(CanonicalMembers(members))
  }

  ghost function CanonicalItems(items: seq<Json>): (r: seq<Doc>)
    ensures |r| == |items|
    decreases items
  {
    if |items| == 0 then [] else [Canonical(items[0])] + CanonicalItems(items[1..])
  }

  ghost function CanonicalMembers(members: seq<Member>): map<seq<byte>, Doc>
    decreases members
  {
    if |members| == 0 then map[]
    else CanonicalMembers(members[1..])[members[0].name := Canonical(members[0].value)]
  }

  lemma {:induction false} ItemDenotes(items: seq<Json>, i: nat)
    requires i < |items|
    ensures CanonicalItems(items)[i] == Canonical(items[i])
    decreases i
  {
    hide Canonical;
    if i > 0 {
      ItemDenotes(items[1..], i - 1);
    }
  }

  lemma {:induction false} NamesDenoted(members: seq<Member>, name: seq<byte>)
    ensures name in CanonicalMembers(members) <==> Has(members, name)
    decreases |members|
  {
    hide Canonical;
    if |members| > 0 {
      var rest := members[1..];
      NamesDenoted(rest, name);
      if Has(rest, name) {
        var i :| 0 <= i < |rest| && rest[i].name == name;
        assert members[i + 1].name == name;
      }
      if Has(members, name) && members[0].name != name {
        var i :| 0 <= i < |members| && members[i].name == name;
        assert rest[i - 1].name == name;
      }
    }
  }

  lemma {:induction false} MemberDenotes(members: seq<Member>, i: nat)
    requires DistinctNames(members) && i < |members|
    ensures members[i].name in CanonicalMembers(members)
    ensures CanonicalMembers(members)[members[i].name] == Canonical(members[i].value)
    decreases i
  {
    hide Canonical;
    if i > 0 {
      MemberDenotes(members[1..], i - 1);
    }
  }

  // With distinct names, an object denotes as many names as it has members.
  lemma {:induction false} NamesCounted(members: seq<Member>)
    requires DistinctNames(members)
    ensures |CanonicalMembers(members)| == |members|
    decreases |members|
  {
    hide Canonical;
    if |members| > 0 {
      var rest := members[1..];
      NamesCounted(rest);
      NamesDenoted(rest, members[0].name);
      assert members[0].name !in CanonicalMembers(rest) by {
        forall i | 0 <= i < |rest|
          ensures rest[i].name != members[0].name
        {
          assert rest[i] == members[i + 1];
        }
      }
    }
  }

  // A map that agrees with another on all its keys is that map, when it is no smaller.
  lemma SameSizeSame(a: map<seq<byte>, Doc>, b: map<seq<byte>, Doc>)
    requires |a| == |b|
    requires forall name | name in a :: name in b && a[name] == b[name]
    ensures a == b
  {
    assert a.Keys <= b.Keys && |a.Keys| == |b.Keys|;
    SameSizeSubset(a.Keys, b.Keys);
  }

  lemma SameSizeSubset(s: set<seq<byte>>, t: set<seq<byte>>)
    requires s <= t && |s| == |t|
    ensures s == t
  {
    assert |t - s| == |t| - |s| == 0;
  }

  // Reordering the members of an object does not change what it denotes.
  lemma OrderDoesNotMatter(members: seq<Member>, members': seq<Member>)
    requires DistinctNames(members) && DistinctNames(members')
    requires multiset(members) == multiset(members')
    ensures Canonical(Object(members)) == Canonical(Object(members'))
  {
    hide Canonical, CanonicalMembers;
    assert |members| == |multiset(members)| == |members'|;
    NamesCounted(members);
    NamesCounted(members');
    forall name | name in CanonicalMembers(members)
      ensures name in CanonicalMembers(members') && CanonicalMembers(members)[name] == CanonicalMembers(members')[name]
    {
      NamesDenoted(members, name);
      var i :| 0 <= i < |members| && members[i].name == name;
      assert members[i] in multiset(members');
      var j :| 0 <= j < |members'| && members'[j] == members[i];
      MemberDenotes(members, i);
      MemberDenotes(members', j);
    }
    SameSizeSame(CanonicalMembers(members), CanonicalMembers(members'));
    ObjectsDenote(members, members');
  }

  lemma ObjectsDenote(members: seq<Member>, members': seq<Member>)
    ensures Canonical(Object(members)) == Canonical(Object(members')) <==>
              CanonicalMembers(members) == CanonicalMembers(members')
  {
    hide CanonicalMembers;
  }

  lemma ArraysDenote(items: seq<Json>, items': seq<Json>)
    ensures Canonical(Array(items)) == Canonical(Array(items')) <==>
      |items| == |items'| && forall i | 0 <= i < |items| :: Canonical(items[i]) == Canonical(items'[i])
  {
    hide CanonicalItems;
    if |items| == |items'| {
      forall i | 0 <= i < |items|
        ensures CanonicalItems(items)[i] == Canonical(items[i]) && CanonicalItems(items')[i] == Canonical(items'[i])
      {
        ItemDenotes(items, i);
        ItemDenotes(items', i);
      }
    }
  }

  // Main result: the comparison says whether the two documents denote the same thing. So it is
  // reflexive, symmetric and transitive, and does not depend on the order of members.
  method ValueEquals(a: Json, b: Json) returns (equal: bool)
    requires WellFormed(a) && WellFormed(b)
    ensures equal <==> Canonical(a) == Canonical(b)
    decreases a
  {
    hide CanonicalItems, CanonicalMembers, AllWellFormed, AllMembersWellFormed;
    match (a, b) {
      case (Array(aItems), Array(bItems)) => equal := ItemsEqual(aItems, bItems);
      case (Object(aMembers), Object(bMembers)) => equal := MembersEqual(aMembers, bMembers);
      case (String(aText), String(bText)) => equal := aText == bText;
      case (Boolean(aOn), Boolean(bOn)) => equal := aOn == bOn;
      case (Number(m), Number(n)) => equal := m == n;
      case (Null, Null) => equal := true;
      case _ => equal := false;
    }
  }

  method ItemsEqual(a: seq<Json>, b: seq<Json>) returns (equal: bool)
    requires AllWellFormed(a) && AllWellFormed(b)
    ensures equal <==> Canonical(Array(a)) == Canonical(Array(b))
    decreases a
  {
    hide Canonical, WellFormed, AllWellFormed;
    ArraysDenote(a, b);
    if |a| != |b| {
      return false;
    }
    for i := 0 to |a|
      invariant forall j | 0 <= j < i :: Canonical(a[j]) == Canonical(b[j])
    {
      WellFormedAt(a, i);
      WellFormedAt(b, i);
      var same := ValueEquals(a[i], b[i]);
      if !same {
        return false;
      }
    }
    equal := true;
  }

  method MembersEqual(a: seq<Member>, b: seq<Member>) returns (equal: bool)
    requires AllMembersWellFormed(a) && DistinctNames(a) && AllMembersWellFormed(b) && DistinctNames(b)
    ensures equal <==> Canonical(Object(a)) == Canonical(Object(b))
    decreases a
  {
    hide Canonical, CanonicalMembers, WellFormed, AllMembersWellFormed, DistinctNames;
    ObjectsDenote(a, b);
    NamesCounted(a);
    NamesCounted(b);
    if |a| != |b| {
      return false;
    }
    for i := 0 to |a|
      invariant forall j | 0 <= j < i ::
        a[j].name in CanonicalMembers(b) && CanonicalMembers(b)[a[j].name] == Canonical(a[j].value)
    {
      MemberWellFormedAt(a, i);
      MemberDenotes(a, i);
      var same := MemberEquals(a, i, b);
      if !same {
        return false;
      }
    }
    AllMembersSame(a, b);
    equal := true;
  }

  lemma AllMembersSame(a: seq<Member>, b: seq<Member>)
    requires DistinctNames(a) && |CanonicalMembers(a)| == |CanonicalMembers(b)|
    requires forall j | 0 <= j < |a| ::
      a[j].name in CanonicalMembers(b) && CanonicalMembers(b)[a[j].name] == Canonical(a[j].value)
    ensures CanonicalMembers(a) == CanonicalMembers(b)
  {
    hide Canonical, CanonicalMembers;
    forall name | name in CanonicalMembers(a)
      ensures name in CanonicalMembers(b) && CanonicalMembers(a)[name] == CanonicalMembers(b)[name]
    {
      NamesDenoted(a, name);
      var j :| 0 <= j < |a| && a[j].name == name;
      MemberDenotes(a, j);
    }
    SameSizeSame(CanonicalMembers(a), CanonicalMembers(b));
  }

  // Whether b has the i-th name of a, with an equal value.
  method MemberEquals(a: seq<Member>, i: nat, b: seq<Member>) returns (same: bool)
    requires i < |a| && DistinctNames(a) && WellFormed(a[i].value)
    requires AllMembersWellFormed(b) && DistinctNames(b)
    ensures same <==> a[i].name in CanonicalMembers(b) && CanonicalMembers(b)[a[i].name] == Canonical(a[i].value)
    decreases a[i], 1
  {
    hide Canonical, CanonicalMembers, WellFormed, AllMembersWellFormed;
    var key := a[i].name;
    LookupFirst(a, key, i);
    NamesDenoted(b, key);
    var aValue := GetValue(a, key);
    var bValue := GetValue(b, key);
    if bValue == None {
      return false;
    }
    FoundMember(b, key);
    same := ValueEquals(aValue.value, bValue.value);
  }

  lemma FoundMember(members: seq<Member>, name: seq<byte>)
    requires DistinctNames(members) && AllMembersWellFormed(members) && Has(members, name)
    ensures Lookup(members, name).Some? && WellFormed(Lookup(members, name).value)
    ensures name in CanonicalMembers(members)
    ensures CanonicalMembers(members)[name] == Canonical(Lookup(members, name).value)
  {
    hide Canonical, CanonicalMembers, WellFormed;
    var i :| 0 <= i < |members| && members[i].name == name;
    LookupFirst(members, name, i);
    MemberDenotes(members, i);
    MemberWellFormedAt(members, i);
  }

  // ----- Copying -----

  // A copy goes through fresh tables, which take all that a well-formed value holds.
  method DeepCopy(v: Json) returns (r: Option<Json>)
    requires WellFormed(v)
    ensures r == Some(v)
    decreases v, 0
  {
    hide AllWellFormed, AllMembersWellFormed, DistinctNames;
    match v {
      case Array(items) => r := CopyItems(items);
      case Object(members) => r := CopyMembers(members);
      case Boolean(on) => r := Some(Boolean(on));
      case Number(n) => r := Some(Number(n));
      case String(text) => r := Some(String(text));
      case Null => r := Some(Null);
    }
  }

  method CopyItems(items: seq<Json>) returns (r: Option<Json>)
    requires AllWellFormed(items) && |items| <= ARRAY_MAX_CAPACITY
    ensures r == Some(Array(items))
    decreases items
  {
    hide WellFormed, AllWellFormed, OnlyGrown, Pow2;
    var table := new ArrayTable();
    NewTable(13);
    for i := 0 to |items|
      invariant table.Valid() && fresh(table) && fresh(table.items) && OnlyGrown(table.items.Length, 13)
      invariant table.Contents() == items[..i]
    {
      WellFormedAt(items, i);
      var copy := DeepCopy(items[i]);
      if copy == None {
        return None;
      }
      var added := AddItem(table, copy.value);
      if !added {
        return None;
      }
    }
    assert items[..|items|] == items;
    r := Some(Array(table.items[..table.count]));
  }

  method CopyMembers(members: seq<Member>) returns (r: Option<Json>)
    requires AllMembersWellFormed(members) && DistinctNames(members) && |members| <= OBJECT_MAX_CAPACITY
    ensures r == Some(Object(members))
    decreases members
  {
    hide WellFormed, AllMembersWellFormed, OnlyGrown, Pow2, Has, DistinctNames;
    var table := new ObjectTable();
    NewTable(6);
    for i := 0 to |members|
      invariant table.Valid() && fresh(table) && fresh(table.names) && fresh(table.values)
      invariant OnlyGrown(table.names.Length, 6)
      invariant table.members == members[..i]
    {
      MemberWellFormedAt(members, i);
      var copy := CopyMember(members, i);
      if copy == None {
        return None;
      }
      NameNotCopied(members, i);
      var added := AddMember(table, members[i].name, copy.value);
      if !added {
        return None;
      }
    }
    assert members[..|members|] == members;
    var contents := table.Contents();
    r := Some(contents);
  }

  method CopyMember(members: seq<Member>, i: nat) returns (r: Option<Json>)
    requires i < |members| && DistinctNames(members) && WellFormed(members[i].value)
    ensures r == Some(members[i].value)
    decreases members[i], 1
  {
    hide WellFormed;
    LookupFirst(members, members[i].name, i);
    var value := GetValue(members, members[i].name);
    r := DeepCopy(value.value);
  }

  lemma NameNotCopied(members: seq<Member>, i: nat)
    requires i < |members| && DistinctNames(members)
    ensures !Has(members[..i], members[i].name)
  {
  }
}
