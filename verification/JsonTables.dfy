/** The growable tables behind JSON objects and arrays. */
module JsonTables {
  import opened Bits
  import opened Bytes
  import opened JsonValues
  import opened Wrappers

  const STARTING_CAPACITY: nat := 15

  // The capacity a full table grows to.
  function Grown(capacity: nat): nat {
    if capacity * 2 > STARTING_CAPACITY then capacity * 2 else STARTING_CAPACITY
  }

  // The capacities a table can have that was never trimmed: 15 doubled up to so many times.
  ghost predicate OnlyGrown(capacity: nat, doublings: nat) {
    capacity == 0 || exists k: nat :: k <= doublings && capacity == 15 * Pow2(k)
  }

  lemma NewTable(doublings: nat)
    ensures OnlyGrown(0, doublings)
  {
  }

  lemma LimitsAreDoublings()
    ensures OBJECT_MAX_CAPACITY == 15 * Pow2(6) && ARRAY_MAX_CAPACITY == 15 * Pow2(13)
  {
    assert Pow2(6) == 64;
    Pow2Sum(6, 6);
    assert Pow2(13) == 2 * Pow2(12);
  }

  lemma Doubling(k: nat)
    ensures Pow2(k + 1) == 2 * Pow2(k) >= 2 && Pow2(0) == 1
  {
  }

  // Such a table refuses an element exactly when the maximum is reached.
  lemma GrowthLimit(capacity: nat, count: nat, doublings: nat)
    requires OnlyGrown(capacity, doublings) && count <= capacity
    ensures count < capacity || Grown(capacity) <= 15 * Pow2(doublings) <==> count < 15 * Pow2(doublings)
    ensures Grown(capacity) <= 15 * Pow2(doublings) ==> OnlyGrown(Grown(capacity), doublings)
  {
    hide Pow2;
    Doubling(0);
    Pow2Increases(0, doublings);
    if capacity > 0 {
      var k: nat :| k <= doublings && capacity == 15 * Pow2(k);
      Doubling(k);
      assert Grown(capacity) == 15 * Pow2(k + 1);
      if k < doublings {
        Pow2Increases(k + 1, doublings);
        assert capacity < 15 * Pow2(doublings);
      }
    }
  }

  // The capacity at which a table that is only added to stops growing, whatever its capacity is now.
  ghost function LastCapacity(capacity: nat, maximum: nat): (r: nat)
    requires capacity <= maximum
    ensures capacity <= r <= maximum
    decreases maximum - capacity
  {
    if Grown(capacity) <= maximum then LastCapacity(Grown(capacity), maximum) else capacity
  }

  // It refuses an element exactly when it is full at that capacity, and growing does not change that.
  lemma GrowsUpTo(capacity: nat, count: nat, maximum: nat)
    requires count <= capacity <= maximum
    ensures count < capacity || Grown(capacity) <= maximum <==> count < LastCapacity(capacity, maximum)
    ensures Grown(capacity) <= maximum ==>
      LastCapacity(Grown(capacity), maximum) == LastCapacity(capacity, maximum)
  {
  }

  // The largest doubling within the maximum, from a capacity of 8 on.
  lemma {:induction false} LastDoubling(n: nat, maximum: nat) returns (k: nat)
    requires 8 <= n <= maximum
    ensures LastCapacity(n, maximum) == n * Pow2(k) <= maximum < n * Pow2(k + 1)
    decreases maximum - n
  {
    if 2 * n <= maximum {
      k := LastDoubling(2 * n, maximum);
      DoubledTimes(n, k);
      DoubledTimes(n, k + 1);
      k := k + 1;
    } else {
      k := 0;
      Doubling(0);
    }
  }

  lemma DoubledTimes(n: nat, k: nat)
    ensures 2 * n * Pow2(k) == n * Pow2(k + 1)
  {
  }

  // Any smaller table grows to 15 first, and from there to the maximum.
  lemma SmallReachesMaximum(n: nat, doublings: nat)
    requires n < 8 && n <= 15 * Pow2(doublings)
    ensures LastCapacity(n, 15 * Pow2(doublings)) == 15 * Pow2(doublings)
  {
    hide Pow2;
    Doubling(0);
    Pow2Increases(0, doublings);
    ReachesMaximum(0, doublings);
  }

  lemma {:induction false} ReachesMaximum(k: nat, doublings: nat)
    requires k <= doublings
    ensures 15 * Pow2(k) <= 15 * Pow2(doublings)
    ensures LastCapacity(15 * Pow2(k), 15 * Pow2(doublings)) == 15 * Pow2(doublings)
    decreases doublings - k
  {
    hide Pow2;
    Pow2Increases(k, doublings);
    Doubling(k);
    if k < doublings {
      ReachesMaximum(k + 1, doublings);
    }
  }

  // ----- An object's members as a finite map -----

  ghost function AsMap(members: seq<Member>): (m: map<seq<byte>, Json>) {
    if |members| == 0 then map[]
    else AsMap(members[..|members| - 1])[members[|members| - 1].name := members[|members| - 1].value]
  }

  // The members after the one at i has been replaced by the last.
  function WithoutMember(members: seq<Member>, i: nat): (r: seq<Member>)
    requires i < |members|
    ensures |r| == |members| - 1
  {
    members[i := members[|members| - 1]][..|members| - 1]
  }

  lemma {:induction false} MapHasNames(members: seq<Member>, name: seq<byte>)
    ensures name in AsMap(members) <==> Has(members, name)
  {
    if |members| > 0 {
      var last := |members| - 1;
      MapHasNames(members[..last], name);
      assert Has(members, name) <==> Has(members[..last], name) || members[last].name == name by {
        if Has(members[..last], name) {
          var i :| 0 <= i < last && members[..last][i].name == name;
          assert members[i].name == name;
        }
        if Has(members, name) {
          var i :| 0 <= i < |members| && members[i].name == name;
          assert i < last ==> members[..last][i].name == name;
        }
      }
    }
  }

  lemma {:induction false} MapAt(members: seq<Member>, i: nat)
    requires DistinctNames(members) && i < |members|
    ensures members[i].name in AsMap(members) && AsMap(members)[members[i].name] == members[i].value
  {
    var last := |members| - 1;
    if i < last {
      MapAt(members[..last], i);
    }
  }

  // With distinct names, the map determines and is determined by the members in any order.
  lemma MapDetermined(members: seq<Member>, m: map<seq<byte>, Json>)
    requires DistinctNames(members)
    requires forall name :: name in m <==> Has(members, name)
    requires forall i | 0 <= i < |members| :: members[i].name in m && m[members[i].name] == members[i].value
    ensures AsMap(members) == m
  {
    forall name
      ensures name in AsMap(members) <==> name in m
      ensures name in m ==> AsMap(members)[name] == m[name]
    {
      MapHasNames(members, name);
      if name in m {
        var i :| 0 <= i < |members| && members[i].name == name;
        MapAt(members, i);
      }
    }
  }

  lemma LookupIsMap(members: seq<Member>, name: seq<byte>)
    requires DistinctNames(members)
    ensures Lookup(members, name) == if name in AsMap(members) then Some(AsMap(members)[name]) else None
  {
    MapHasNames(members, name);
    if Has(members, name) {
      var i :| 0 <= i < |members| && members[i].name == name;
      LookupFirst(members, name, i);
      MapAt(members, i);
    }
  }

  lemma AddedToMap(members: seq<Member>, name: seq<byte>, value: Json)
    requires DistinctNames(members) && !Has(members, name)
    ensures DistinctNames(members + [Member(name, value)])
    ensures AsMap(members + [Member(name, value)]) == AsMap(members)[name := value]
  {
    var members' := members + [Member(name, value)];
    assert members'[..|members|] == members;
  }

  lemma SetInMap(members: seq<Member>, i: nat, value: Json)
    requires DistinctNames(members) && i < |members|
    ensures var members' := members[i := Member(members[i].name, value)];
            && DistinctNames(members')
            && AsMap(members') == AsMap(members)[members[i].name := value]
  {
    hide AsMap;
    var members' := members[i := Member(members[i].name, value)];
    var m := AsMap(members)[members[i].name := value];
    forall name
      ensures name in m <==> Has(members', name)
    {
      MapHasNames(members, name);
      if Has(members, name) {
        var j :| 0 <= j < |members| && members[j].name == name;
        assert members'[j].name == name;
      }
    }
    forall j | 0 <= j < |members'|
      ensures members'[j].name in m && m[members'[j].name] == members'[j].value
    {
      MapAt(members, j);
    }
    MapDetermined(members', m);
  }

  lemma NamesWithout(members: seq<Member>, i: nat, name: seq<byte>)
    requires DistinctNames(members) && i < |members|
    ensures Has(WithoutMember(members, i), name) <==> Has(members, name) && name != members[i].name
  {
    var members' := WithoutMember(members, i);
    var last := |members| - 1;
    if Has(members, name) && name != members[i].name {
      var j :| 0 <= j < |members| && members[j].name == name;
      assert members'[if j == last then i else j].name == name;
    }
    if Has(members', name) {
      var j :| 0 <= j < |members'| && members'[j].name == name;
      assert members[if j == i then last else j].name == name;
    }
  }

  lemma MembersWithout(members: seq<Member>, i: nat)
    requires DistinctNames(members) && i < |members|
    ensures DistinctNames(WithoutMember(members, i))
    ensures forall j | 0 <= j < |members| - 1 ::
      var k := if j == i then |members| - 1 else j;
      WithoutMember(members, i)[j] == members[k] && members[k].name != members[i].name
  {
  }

  lemma RemovedFromMap(members: seq<Member>, i: nat)
    requires DistinctNames(members) && i < |members|
    ensures DistinctNames(WithoutMember(members, i))
    ensures AsMap(WithoutMember(members, i)) == AsMap(members) - {members[i].name}
  {
    hide AsMap, Has, DistinctNames, WithoutMember;
    var members' := WithoutMember(members, i);
    var m := AsMap(members) - {members[i].name};
    MembersWithout(members, i);
    forall name
      ensures name in m <==> Has(members', name)
    {
      MapHasNames(members, name);
      NamesWithout(members, i, name);
    }
    forall j | 0 <= j < |members'|
      ensures members'[j].name in m && m[members'[j].name] == members'[j].value
    {
      MapAt(members, if j == i then |members| - 1 else j);
    }
    MapDetermined(members', m);
  }

  class ObjectTable {
    var names: array<seq<byte>>
    var values: array<Json>
    var count: nat
    ghost var members: seq<Member>

    ghost predicate Valid()
      reads this, names, values
    {
      && names.Length == values.Length <= OBJECT_MAX_CAPACITY
      && count == |members| <= names.Length
      && DistinctNames(members)
      && forall i | 0 <= i < count :: names[i] == members[i].name && values[i] == members[i].value
    }

    constructor ()
      ensures Valid() && fresh(names) && fresh(values)
      ensures members == [] && names.Length == 0
    {
      names := new seq<byte>[0];
      values := new Json[0];
      count := 0;
      members := [];
    }

    // Moves the members into arrays of another size.
    method Resize(newCapacity: nat) returns (ok: bool)
      requires Valid() && count <= newCapacity <= OBJECT_MAX_CAPACITY
      modifies this`names, this`values
      ensures Valid() && members == old(members)
      ensures ok <==> newCapacity > 0
      ensures ok ==> fresh(names) && fresh(values) && names.Length == newCapacity
      ensures !ok ==> names == old(names) && values == old(values)
    {
      if newCapacity == 0 {
        return false;
      }
      var tempNames := new seq<byte>[newCapacity](_ => []);
      var tempValues := new Json[newCapacity](_ => Null);
      forall i | 0 <= i < count {
        tempNames[i] := names[i];
      }
      forall i | 0 <= i < count {
        tempValues[i] := values[i];
      }
      names, values := tempNames, tempValues;
      ok := true;
    }

    // The value of a name.
    method GetValue(name: seq<byte>) returns (r: Option<Json>)
      requires Valid()
      ensures r == Lookup(members, name)
      ensures r == if name in AsMap(members) then Some(AsMap(members)[name]) else None
    {
      LookupIsMap(members, name);
      var i := 0;
      while i < count
        invariant i <= count
        invariant forall j | 0 <= j < i :: members[j].name != name
      {
        if names[i] == name {
          LookupFirst(members, name, i);
          return Some(values[i]);
        }
        i := i + 1;
      }
      r := None;
    }

    // Makes room for one more member.
    method Reserve() returns (ok: bool)
      requires Valid()
      modifies this`names, this`values
      ensures Valid() && members == old(members)
      ensures ok <==> count < old(names.Length) || Grown(old(names.Length)) <= OBJECT_MAX_CAPACITY
      ensures ok ==> count < names.Length
      ensures names.Length == if ok && count >= old(names.Length) then Grown(old(names.Length)) else old(names.Length)
      ensures (names == old(names) && values == old(values)) || (fresh(names) && fresh(values))
    {
      if count >= names.Length {
        var newCapacity := Grown(names.Length);
        if newCapacity > OBJECT_MAX_CAPACITY {
          return false;
        }
        var resized := Resize(newCapacity);
      }
      ok := true;
    }

    // Stores a member in the first free slot.
    method Append(name: seq<byte>, value: Json)
      requires Valid() && count < names.Length && !Has(members, name)
      modifies this`count, this`members, names, values
      ensures Valid() && members == old(members) + [Member(name, value)]
    {
      AddedToMap(members, name, value);
      names[count] := name;
      values[count] := value;
      members := members + [Member(name, value)];
      count := count + 1;
    }

    // Adds a member of a new name, while there is room.
    method Add(name: seq<byte>, value: Json) returns (ok: bool)
      requires Valid()
      modifies this, names, values
      ensures Valid()
      ensures ok <==>
        && !Has(old(members), name)
        && (|old(members)| < old(names.Length) || Grown(old(names.Length)) <= OBJECT_MAX_CAPACITY)
      ensures members == if ok then old(members) + [Member(name, value)] else old(members)
      ensures AsMap(members) == if ok then AsMap(old(members))[name := value] else AsMap(old(members))
      ensures names.Length == old(names.Length)
        || (|old(members)| >= old(names.Length) && names.Length == Grown(old(names.Length)))
      ensures (names == old(names) && values == old(values)) || (fresh(names) && fresh(values))
    {
      hide AsMap, DistinctNames;
      ok := Reserve();
      if !ok {
        return;
      }
      var existing := GetValue(name);
      if existing != None {
        return false;
      }
      AddedToMap(members, name, value);
      Append(name, value);
    }
  
    // The slot of a name, or count.
    method Find(name: seq<byte>) returns (i: nat)
      requires Valid()
      ensures i <= count && (i < count <==> Has(members, name))
      ensures i < count ==> members[i].name == name
      ensures forall j | 0 <= j < i :: members[j].name != name
    {
      i := 0;
      while i < count
        invariant i <= count
        invariant forall j | 0 <= j < i :: members[j].name != name
      {
        if names[i] == name {
          return;
        }
        i := i + 1;
      }
    }

    // Overwrites the value of a name, or adds the name.
    method SetValue(name: seq<byte>, value: Json) returns (ok: bool)
      requires Valid()
      modifies this, names, values
      ensures Valid()
      ensures ok <==>
        Has(old(members), name) || |old(members)| < old(names.Length) || Grown(old(names.Length)) <= OBJECT_MAX_CAPACITY
      ensures AsMap(members) == if ok then AsMap(old(members))[name := value] else AsMap(old(members))
      ensures |members| == |old(members)| + (if ok && !Has(old(members), name) then 1 else 0)
      ensures forall i | 0 <= i < |old(members)| ::
        members[i] == if old(members)[i].name == name then Member(name, value) else old(members)[i]
      ensures (names == old(names) && values == old(values)) || (fresh(names) && fresh(values))
    {
      hide AsMap;
      var i := Find(name);
      if i < count {
        SetInMap(members, i, value);
        values[i] := value;
        members := members[i := Member(name, value)];
        return true;
      }
      ok := Add(name, value);
    }

    // Removes a name; the last member takes its slot.
    method Remove(name: seq<byte>) returns (ok: bool)
      requires Valid()
      modifies this, names, values
      ensures Valid() && names == old(names) && values == old(values)
      ensures ok <==> Has(old(members), name)
      ensures AsMap(members) == AsMap(old(members)) - {name}
      ensures !ok ==> members == old(members)
      ensures ok ==> exists i | 0 <= i < |old(members)| ::
        old(members)[i].name == name && members == WithoutMember(old(members), i)
    {
      hide AsMap;
      var i := Find(name);
      if i == count {
        MapHasNames(members, name);
        return false;
      }
      RemovedFromMap(members, i);
      var lastItemIndex := count - 1;
      if i != lastItemIndex {
        names[i] := names[lastItemIndex];
        values[i] := values[lastItemIndex];
      }
      members := WithoutMember(members, i);
      count := count - 1;
      ok := true;
    }

    method Clear()
      requires Valid()
      modifies this`count, this`members
      ensures Valid() && members == [] && AsMap(members) == map[]
    {
      count := 0;
      members := [];
    }

    // The value made of the table.
    method Contents() returns (v: Json)
      requires Valid()
      ensures v == Object(members)
    {
      var list: seq<Member> := [];
      for i := 0 to count
        invariant list == members[..i]
      {
        list := list + [Member(names[i], values[i])];
      }
      v := Object(list);
    }
  }

  class ArrayTable {
    var items: array<Json>
    var count: nat

    ghost predicate Valid()
      reads this, items
    {
      count <= items.Length <= ARRAY_MAX_CAPACITY
    }

    ghost function Contents(): seq<Json>
      requires Valid()
      reads this, items
    {
      items[..count]
    }

    constructor ()
      ensures Valid() && fresh(items) && Contents() == [] && items.Length == 0
    {
      items := new Json[0];
      count := 0;
    }

    method Resize(newCapacity: nat) returns (ok: bool)
      requires Valid() && count <= newCapacity <= ARRAY_MAX_CAPACITY
      modifies this`items
      ensures Valid() && Contents() == old(Contents())
      ensures ok <==> newCapacity > 0
      ensures if ok then fresh(items) && items.Length == newCapacity else items == old(items)
    {
      if newCapacity == 0 {
        return false;
      }
      var newItems := new Json[newCapacity](_ => Null);
      forall i | 0 <= i < count {
        newItems[i] := items[i];
      }
      items := newItems;
      ok := true;
    }

    // Appends an item, while there is room.
    method Add(value: Json) returns (ok: bool)
      requires Valid()
      modifies this, items
      ensures Valid()
      ensures ok <==> old(count) < old(items.Length) || Grown(old(items.Length)) <= ARRAY_MAX_CAPACITY
      ensures Contents() == if ok then old(Contents()) + [value] else old(Contents())
      ensures var grown := ok && old(count) >= old(items.Length);
              items.Length == if grown then Grown(old(items.Length)) else old(items.Length)
      ensures items == old(items) || fresh(items)
    {
      if count >= items.Length {
        var newCapacity := Grown(items.Length);
        if newCapacity > ARRAY_MAX_CAPACITY {
          return false;
        }
        var resized := Resize(newCapacity);
      }
      items[count] := value;
      count := count + 1;
      ok := true;
    }
  }

  // A table that was never trimmed takes items up to the maximum.
  method AddItem(table: ArrayTable, value: Json) returns (ok: bool)
    requires table.Valid() && OnlyGrown(table.items.Length, 13)
    modifies table, table.items
    ensures table.Valid() && OnlyGrown(table.items.Length, 13)
    ensures ok <==> |old(table.Contents())| < ARRAY_MAX_CAPACITY
    ensures ok ==> table.Contents() == old(table.Contents()) + [value]
    ensures table.items == old(table.items) || fresh(table.items)
  {
    hide OnlyGrown, Pow2, Grown;
    LimitsAreDoublings();
    GrowthLimit(table.items.Length, table.count, 13);
    ok := table.Add(value);
  }

  // A table that was never trimmed takes members of new names up to the maximum.
  method AddMember(table: ObjectTable, name: seq<byte>, value: Json) returns (ok: bool)
    requires table.Valid() && OnlyGrown(table.names.Length, 6)
    modifies table, table.names, table.values
    ensures table.Valid() && OnlyGrown(table.names.Length, 6)
    ensures ok <==> |old(table.members)| < OBJECT_MAX_CAPACITY && !Has(old(table.members), name)
    ensures ok ==> table.members == old(table.members) + [Member(name, value)]
    ensures
      || (table.names == old(table.names) && table.values == old(table.values))
      || (fresh(table.names) && fresh(table.values))
  {
    hide OnlyGrown, Pow2, Grown, Has, DistinctNames, AsMap;
    LimitsAreDoublings();
    GrowthLimit(table.names.Length, table.count, 6);
    ok := table.Add(name, value);
  }

  // ----- Tables that have been trimmed, as those of parsed objects are -----

  // After trimming, a new name is taken exactly by tables of at most half the maximum.
  method AddToTrimmed(table: ObjectTable, name: seq<byte>, value: Json) returns (ok: bool)
    requires table.Valid() && table.count > 0
    modifies table, table.names, table.values
    ensures table.Valid()
    ensures ok <==> !Has(old(table.members), name) && |old(table.members)| <= OBJECT_MAX_CAPACITY / 2
    ensures table.members == if ok then old(table.members) + [Member(name, value)] else old(table.members)
  {
    hide Has, DistinctNames, AsMap;
    var trimmed := table.Resize(table.count);
    ok := table.Add(name, value);
  }

  // A table that is only added to takes new names up to a limit that the additions do not change.
  method AddToAny(table: ObjectTable, name: seq<byte>, value: Json) returns (ok: bool)
    requires table.Valid()
    modifies table, table.names, table.values
    ensures table.Valid()
    ensures ok <==>
      && !Has(old(table.members), name)
      && |old(table.members)| < old(LastCapacity(table.names.Length, OBJECT_MAX_CAPACITY))
    ensures table.members == if ok then old(table.members) + [Member(name, value)] else old(table.members)
    ensures LastCapacity(table.names.Length, OBJECT_MAX_CAPACITY)
         == old(LastCapacity(table.names.Length, OBJECT_MAX_CAPACITY))
    ensures
      || (table.names == old(table.names) && table.values == old(table.values))
      || (fresh(table.names) && fresh(table.values))
  {
    hide Has, DistinctNames, AsMap, LastCapacity, Grown;
    GrowsUpTo(table.names.Length, table.count, OBJECT_MAX_CAPACITY);
    ok := table.Add(name, value);
  }

  // A table trimmed at n members and then only added to holds at most the largest doubling of n that is
  // not above the maximum, or the maximum when n is less than 8: of any further members it takes so many.
  method AddAllToTrimmed(table: ObjectTable, members: seq<Member>) returns (taken: nat, ghost limit: nat)
    requires table.Valid() && table.count > 0 && DistinctNames(table.members + members)
    modifies table, table.names, table.values
    ensures table.Valid() && taken <= |members|
    ensures table.members == old(table.members) + members[..taken]
    ensures taken == if |old(table.members)| + |members| <= limit then |members| else limit - |old(table.members)|
    ensures |old(table.members)| < 8 ==> limit == OBJECT_MAX_CAPACITY
    ensures |old(table.members)| >= 8 ==>
      exists k: nat | limit == |old(table.members)| * Pow2(k) ::
        limit <= OBJECT_MAX_CAPACITY < |old(table.members)| * Pow2(k + 1)
  {
    hide Has, DistinctNames, AsMap, LastCapacity, Grown, Pow2;
    ghost var start := table.members;
    var trimmed := table.Resize(table.count);
    limit := LastCapacity(table.names.Length, OBJECT_MAX_CAPACITY);
    LimitOfTrimmed(|start|);
    taken := 0;
    var ok := true;
    while taken < |members| && ok
      invariant table.Valid() && taken <= |members|
      invariant fresh(table.names) && fresh(table.values)
      invariant table.members == start + members[..taken]
      invariant LastCapacity(table.names.Length, OBJECT_MAX_CAPACITY) == limit >= |table.members|
      invariant !ok ==> |table.members| == limit
      decreases |members| - taken, ok
    {
      NextIsNew(start, members, taken);
      ok := AddToAny(table, members[taken].name, members[taken].value);
      if ok {
        assert members[..taken] + [members[taken]] == members[..taken + 1];
        taken := taken + 1;
      }
    }
    assert members[..|members|] == members;
  }

  lemma LimitOfTrimmed(n: nat)
    requires 1 <= n <= OBJECT_MAX_CAPACITY
    ensures var limit := LastCapacity(n, OBJECT_MAX_CAPACITY);
            && (n < 8 ==> limit == OBJECT_MAX_CAPACITY)
            && (n >= 8 ==> exists k: nat | limit == n * Pow2(k) :: limit <= OBJECT_MAX_CAPACITY < n * Pow2(k + 1))
  {
    hide LastCapacity, Pow2, Grown;
    LimitsAreDoublings();
    if n < 8 {
      SmallReachesMaximum(n, 6);
    } else {
      var k := LastDoubling(n, OBJECT_MAX_CAPACITY);
    }
  }

  lemma NextIsNew(start: seq<Member>, members: seq<Member>, taken: nat)
    requires taken < |members| && DistinctNames(start + members)
    ensures !Has(start + members[..taken], members[taken].name)
  {
    var all := start + members;
    assert forall i | 0 <= i < |start + members[..taken]| :: (start + members[..taken])[i] == all[i];
    assert all[|start| + taken] == members[taken];
  }

  // Names that differ by their length.
  function Name(n: nat): (r: seq<byte>)
    ensures |r| == n
  {
    if n == 0 then [] else [97] + Name(n - 1)
  }

  // A table of 481 members that refuses a new name, although the maximum is 960.
  method TrimmedTableRefuses() returns (table: ObjectTable, ok: bool)
    ensures fresh(table) && table.Valid() && |table.members| == 481 && !Has(table.members, Name(481))
    ensures !ok
  {
    hide DistinctNames, AsMap, OnlyGrown, Pow2;
    table := new ObjectTable();
    NewTable(6);
    for i := 0 to 481
      invariant table.Valid() && fresh(table) && fresh(table.names) && fresh(table.values)
      invariant OnlyGrown(table.names.Length, 6) && |table.members| == i
      invariant forall k | 0 <= k < i :: |table.members[k].name| == k
    {
      var added := AddMember(table, Name(i), Null);
    }
    ok := AddToTrimmed(table, Name(481), Null);
  }
}
