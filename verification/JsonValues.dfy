/** JSON documents as parson holds them in memory. */
module JsonValues {
  import opened Bytes
  import opened JsonStrings
  import opened Wrappers

  const ARRAY_MAX_CAPACITY: nat := 122880
  const OBJECT_MAX_CAPACITY: nat := 960

  type int32 = x: int | -0x8000_0000 <= x < 0x8000_0000

  datatype Json =
    | Null
    | Boolean(on: bool)
    | Number(n: int32)
    | String(text: seq<byte>)
    | Array(items: seq<Json>)
    | Object(members: seq<Member>)

  datatype Member = Member(name: seq<byte>, value: Json)

  predicate Has(members: seq<Member>, name: seq<byte>) {
    exists i | 0 <= i < |members| :: members[i].name == name
  }

  predicate DistinctNames(members: seq<Member>) {
    forall i, j | 0 <= i < j < |members| :: members[i].name != members[j].name
  }

  // What every value built through the interface is like: C strings, distinct names, sizes in bounds.
  predicate WellFormed(v: Json)
    decreases v
  {
    match v
    case Null => true
    case Boolean(_) => true
    case Number(_) => true
    case String(text) => NoNul(text)
    case Array(items) => |items| <= ARRAY_MAX_CAPACITY && AllWellFormed(items)
    case Object(members) => |members| <= OBJECT_MAX_CAPACITY && DistinctNames(members) && AllMembersWellFormed(members)
  }

  predicate AllWellFormed(items: seq<Json>)
    decreases items
  {
    |items| == 0 || (WellFormed(items[0]) && AllWellFormed(items[1..]))
  }

  predicate AllMembersWellFormed(members: seq<Member>)
    decreases members
  {
    |members| == 0 || (NoNul(members[0].name) && WellFormed(members[0].value) && AllMembersWellFormed(members[1..]))
  }

  // ----- Looking up a name -----

  // The value of the first member of that name.
  function Lookup(members: seq<Member>, name: seq<byte>): (r: Option<Json>)
    ensures r.Some? <==> Has(members, name)
  {
    if |members| == 0 then None
    else if members[0].name == name then Some(members[0].value)
    else
      assert Has(members[1..], name) ==> Has(members, name) by {
        if Has(members[1..], name) {
          var i :| 0 <= i < |members[1..]| && members[1..][i].name == name;
          assert members[i + 1].name == name;
        }
      }
      Lookup(members[1..], name)
  }

  lemma {:induction false} LookupFirst(members: seq<Member>, name: seq<byte>, i: nat)
    requires i < |members| && members[i].name == name && forall j | 0 <= j < i :: members[j].name != name
    ensures Lookup(members, name) == Some(members[i].value)
  {
    if i > 0 {
      LookupFirst(members[1..], name, i - 1);
    }
  }

  method GetValue(members: seq<Member>, name: seq<byte>) returns (r: Option<Json>)
    ensures r == Lookup(members, name)
  {
    var i := 0;
    while i < |members|
      invariant i <= |members|
      invariant forall j | 0 <= j < i :: members[j].name != name
    {
      if members[i].name == name {
        LookupFirst(members, name, i);
        return Some(members[i].value);
      }
      i := i + 1;
    }
    r := None;
  }

  lemma {:induction false} WellFormedAt(items: seq<Json>, i: nat)
    requires AllWellFormed(items) && i < |items|
    ensures WellFormed(items[i])
    decreases i
  {
    hide WellFormed;
    if i > 0 {
      WellFormedAt(items[1..], i - 1);
    }
  }

  lemma {:induction false} MemberWellFormedAt(members: seq<Member>, i: nat)
    requires AllMembersWellFormed(members) && i < |members|
    ensures NoNul(members[i].name) && WellFormed(members[i].value)
    decreases i
  {
    hide WellFormed;
    if i > 0 {
      MemberWellFormedAt(members[1..], i - 1);
    }
  }
}
