/** How an HDR histogram's fields describe the multiset of values recorded in it,
    and why each operation keeps the description true. */
module Descriptions {
  import opened Bits
  import opened Buckets
  import opened BucketConfig
  import opened Samples

  // Each slot counts the recorded values of its bucket.
  ghost predicate Tallies(c: Config, counts: seq<int>, m: multiset<int>)
    requires c.WellFormed()
  {
    forall i | 0 <= i < |counts| :: counts[i] == CountIn(m, ValueAtIndex(c, i), ValueAtIndex(c, i + 1))
  }

  ghost predicate InRange(c: Config, m: multiset<int>)
    requires c.WellFormed()
  {
    forall v | v in m :: 0 <= v < c.Limit()
  }

  // maxValue lies in the bucket of the largest recorded value.
  ghost predicate MaxTracks(c: Config, m: multiset<int>, maxValue: int)
    requires c.WellFormed() && InRange(c, m)
  {
    && 0 <= maxValue < c.Limit()
    && (forall v | v in m :: CountsIndexFor(c, v) <= CountsIndexFor(c, maxValue))
    && (maxValue == 0 ==> forall v | v in m :: v == 0)
    && (maxValue != 0 ==> exists v :: v in m && CountsIndexFor(c, v) == CountsIndexFor(c, maxValue))
  }

  // minValue lies in the bucket of the smallest recorded value outside bucket 0;
  // INT64_MAX doubles as "no such value".
  ghost predicate MinTracks(c: Config, m: multiset<int>, minValue: int)
    requires c.WellFormed() && InRange(c, m)
  {
    && 0 < minValue <= INT64_MAX
    && (forall v | v in m && CountsIndexFor(c, v) > 0 :: CountsIndexFor(c, minValue) <= CountsIndexFor(c, v))
    && (minValue == INT64_MAX ==> forall v | v in m && CountsIndexFor(c, v) > 0 :: v == INT64_MAX)
    && (minValue != INT64_MAX ==> exists v :: v in m && CountsIndexFor(c, v) == CountsIndexFor(c, minValue))
  }

  ghost predicate Describes(c: Config, counts: seq<int>, total: int, minValue: int, maxValue: int, m: multiset<int>) {
    && Calculated(c)
    && |counts| == c.countsLen
    && InRange(c, m)
    && Tallies(c, counts, m)
    && total == |m| == Prefix(counts, |counts|)
    && MaxTracks(c, m, maxValue)
    && MinTracks(c, m, minValue)
  }

  function MinAfter(minValue: int, v: int): int {
    if v < minValue && v != 0 then v else minValue
  }

  function MaxAfter(maxValue: int, v: int): int {
    if v > maxValue then v else maxValue
  }

  // The extremes are the largest recorded value and the smallest nonzero one themselves, and not just
  // in their buckets: so it is until the fields are rebuilt from the counts.
  ghost predicate ExtremesExact(m: multiset<int>, minValue: int, maxValue: int) {
    && 0 <= maxValue && 0 < minValue <= INT64_MAX
    && (forall v | v in m :: v <= maxValue && (v != 0 ==> minValue <= v))
    && (maxValue != 0 ==> maxValue in m)
    && (minValue != INT64_MAX ==> minValue in m)
  }

  // The values a corrected recording of v adds: v itself and v - j * interval down to interval.
  predicate Backfilled(v: int, interval: int, x: int) {
    x == v || (0 < interval <= x < v && (v - x) % interval == 0)
  }

  // How many values it adds.
  function Copies(v: int, interval: int): int {
    if interval > 0 && v / interval >= 1 then v / interval else 1
  }

  ghost predicate IsLargest(m: multiset<int>, v: int) {
    v in m && forall w | w in m :: w <= v
  }

  ghost predicate IsSmallest(m: multiset<int>, v: int) {
    v in m && forall w | w in m :: v <= w
  }

  // The counts, with those below zero as zero.
  ghost function Positive(counts: seq<int>): (r: seq<int>)
    ensures |r| == |counts| && AllNonNegative(r)
    ensures forall i | 0 <= i < |counts| :: r[i] == if counts[i] > 0 then counts[i] else 0
  {
    seq(|counts|, i requires 0 <= i < |counts| => if counts[i] > 0 then counts[i] else 0)
  }

  lemma NothingNegative(counts: seq<int>)
    ensures AllNonNegative(counts) ==> Positive(counts) == counts
  {
  }

  ghost predicate LastNonZero(counts: seq<int>, n: int, i: int) {
    && -1 <= i < n <= |counts|
    && (i >= 0 ==> counts[i] > 0)
    && forall k | i < k < n :: counts[k] == 0
  }

  ghost predicate FirstNonZeroAfter0(counts: seq<int>, n: int, i: int) {
    && -1 <= i < n <= |counts| && i != 0
    && (i >= 0 ==> counts[i] > 0)
    && forall k | 1 <= k < n && (i >= 0 ==> k < i) :: counts[k] == 0
  }

  // The multiset that has each slot's count at the first value of its bucket.
  ghost function Representatives(c: Config, counts: seq<int>, n: nat): multiset<int>
    requires c.WellFormed() && n <= |counts| && AllNonNegative(counts)
  {
    if n == 0 then multiset{}
    else
      var m := Representatives(c, counts, n - 1);
      var v := ValueAtIndex(c, n - 1);
      m[v := m[v] + counts[n - 1]]
  }

  // ----- Lemmas about the description -----

  lemma EmptyDescribed(c: Config, counts: seq<int>)
    requires Calculated(c) && |counts| == c.countsLen && forall i | 0 <= i < |counts| :: counts[i] == 0
    ensures Describes(c, counts, 0, INT64_MAX, 0, multiset{})
  {
    hide ValueAtIndex, CountsIndexFor, LowestEquivalent, NextNonEquivalent, HighestEquivalent, SizeOfEquivalentRange;
    forall i | 0 <= i < |counts|
      ensures CountIn(multiset{}, ValueAtIndex(c, i), ValueAtIndex(c, i + 1)) == 0
    {
      CountInOfEmpty(ValueAtIndex(c, i), ValueAtIndex(c, i + 1));
    }
    PrefixOfZeros(counts, |counts|);
    LimitFits(c);
  }

  lemma RecordKeepsTallies(c: Config, counts: seq<int>, m: multiset<int>, v: nat, count: nat)
    requires c.WellFormed() && Tallies(c, counts, m)
    requires 0 <= CountsIndexFor(c, v) < |counts|
    ensures var i := CountsIndexFor(c, v); Tallies(c, counts[i := counts[i] + count], m[v := m[v] + count])
  {
    hide ValueAtIndex, CountsIndexFor, LowestEquivalent, NextNonEquivalent, HighestEquivalent, SizeOfEquivalentRange;
    forall i | 0 <= i < |counts|
      ensures CountIn(m[v := m[v] + count], ValueAtIndex(c, i), ValueAtIndex(c, i + 1))
           == counts[i] + if i == CountsIndexFor(c, v) then count else 0
    {
      CountInAfterAdding(m, v, count, ValueAtIndex(c, i), ValueAtIndex(c, i + 1));
      BucketsTile(c, v, i);
    }
  }

  lemma RecordKeepsMax(c: Config, m: multiset<int>, maxValue: int, v: nat, count: nat)
    requires c.WellFormed() && InRange(c, m) && MaxTracks(c, m, maxValue)
    requires v < c.Limit() && count >= 1
    ensures var m' := m[v := m[v] + count];
            InRange(c, m') && MaxTracks(c, m', MaxAfter(maxValue, v))
  {
    hide ValueAtIndex, CountsIndexFor, LowestEquivalent, NextNonEquivalent, HighestEquivalent, SizeOfEquivalentRange;
    var m' := m[v := m[v] + count];
    var max' := MaxAfter(maxValue, v);
    assert v in m';
    assert forall w :: w in m' <==> w in m || w == v;
    IndexMonotone(c, maxValue, max');
    IndexMonotone(c, v, max');
    if maxValue != 0 {
      var w :| w in m && CountsIndexFor(c, w) == CountsIndexFor(c, maxValue);
      assert w in m';
    }
  }

  lemma RecordKeepsMin(c: Config, m: multiset<int>, minValue: int, v: nat, count: nat)
    requires c.WellFormed() && InRange(c, m) && MinTracks(c, m, minValue)
    requires v < c.Limit() <= INT64_MAX + 1 && count >= 1
    ensures var m' := m[v := m[v] + count];
            InRange(c, m') && MinTracks(c, m', MinAfter(minValue, v))
  {
    hide ValueAtIndex, CountsIndexFor, LowestEquivalent, NextNonEquivalent, HighestEquivalent, SizeOfEquivalentRange;
    var m' := m[v := m[v] + count];
    var min' := MinAfter(minValue, v);
    assert v in m';
    assert forall w :: w in m' <==> w in m || w == v;
    IndexMonotone(c, min', minValue);
    if v != 0 {
      IndexMonotone(c, min', v);
    } else {
      StartOfRange(c);
      BucketsTile(c, 0, 0);
    }
    if minValue != INT64_MAX {
      var w :| w in m && CountsIndexFor(c, w) == CountsIndexFor(c, minValue);
      assert w in m';
    }
  }

  lemma RecordKeepsDescription(c: Config, counts: seq<int>, total: int, minValue: int, maxValue: int,
                               m: multiset<int>, v: nat, count: nat, i: nat)
    requires Describes(c, counts, total, minValue, maxValue, m)
    requires v < c.Limit() && count >= 1
    requires i == CountsIndexFor(c, v) < |counts|
    ensures Describes(c, counts[i := counts[i] + count], total + count,
                      MinAfter(minValue, v),
                      MaxAfter(maxValue, v),
                      m[v := m[v] + count])
  {
    hide ValueAtIndex, CountsIndexFor, LowestEquivalent, NextNonEquivalent, SizeOfEquivalentRange, Tallies, MaxTracks,
         MinTracks;
    AcceptedIffBelowLimit(c, v);
    LimitFits(c);
    RecordKeepsTallies(c, counts, m, v, count);
    RecordKeepsMax(c, m, maxValue, v, count);
    RecordKeepsMin(c, m, minValue, v, count);
    PrefixAfterAdding(counts, i, count, |counts|);
  }

  lemma RecordKeepsExact(m: multiset<int>, minValue: int, maxValue: int, v: nat, count: nat)
    requires ExtremesExact(m, minValue, maxValue) && v <= INT64_MAX && count >= 1
    ensures ExtremesExact(m[v := m[v] + count], MinAfter(minValue, v), MaxAfter(maxValue, v))
  {
    assert forall w :: w in m[v := m[v] + count] <==> w in m || w == v;
  }

  lemma FitsWithLimit(c: Config, v: nat)
    requires Calculated(c) && v < c.Limit()
    ensures v <= INT64_MAX
  {
    LimitFits(c);
  }

  // The state of the backfilling loop after some steps.
  ghost predicate AfterSteps(value: int, interval: int, steps: nat, missing: int, count: int, added: int) {
    missing == value - (steps + 1) * interval && added == count * steps
  }

  lemma NothingMissing(value: int, interval: int)
    requires 0 <= value && (interval <= 0 || value <= interval)
    ensures forall x :: Backfilled(value, interval, x) <==> x == value
    ensures Copies(value, interval) == 1
  {
    if 0 < interval {
      QuotientBounds(value, interval, 2);
    }
  }

  lemma StepsBegin(m: multiset<int>, value: int, interval: int, count: int)
    requires 0 < interval
    ensures AfterSteps(value, interval, 0, value - interval, count, 0)
    ensures FilledDownTo(m, m, value, interval, value - interval, count)
  {
    forall x | value - interval < x < value
      ensures !Backfilled(value, interval, x)
    {
      QuotientUnique(value - x, interval, 0);
    }
  }

  // Between two backfilled values there is no other.
  lemma StepBack(value: int, interval: int, steps: nat, missing: int, count: int, added: int)
    requires 0 < interval <= missing && AfterSteps(value, interval, steps, missing, count, added)
    ensures missing < value && AfterSteps(value, interval, steps + 1, missing - interval, count, added + count)
    ensures forall x :: missing - interval < x < value && Backfilled(value, interval, x) <==>
              (missing < x < value && Backfilled(value, interval, x)) || x == missing
  {
    assert (steps + 2) * interval == (steps + 1) * interval + interval;
    assert count * (steps + 1) == count * steps + count;
    MulMonotone(1, steps + 1, interval);
    forall x
      ensures missing - interval < x < value && Backfilled(value, interval, x) <==>
              (missing < x < value && Backfilled(value, interval, x)) || x == missing
    {
      var d := value - x;
      if (steps + 1) * interval <= d < (steps + 2) * interval {
        QuotientUnique(d, interval, steps + 1);
        assert d == d / interval * interval + d % interval;
      }
    }
  }

  // After holds, beside what before does, count of each backfilled value above missing but the first.
  ghost predicate FilledDownTo(before: multiset<int>, after: multiset<int>, value: int, interval: int,
                               missing: int, count: int)
  {
    forall x :: after[x] == before[x]
                + (if count >= 1 && missing < x < value && Backfilled(value, interval, x) then count else 0)
  }

  lemma StepFills(before: multiset<int>, after: multiset<int>, value: int, interval: int, steps: nat,
                  missing: int, count: int, added: int)
    requires 0 < interval <= missing && AfterSteps(value, interval, steps, missing, count, added)
    requires FilledDownTo(before, after, value, interval, missing, count)
    ensures var after' := if count >= 1 then after[missing := after[missing] + count] else after;
            FilledDownTo(before, after', value, interval, missing - interval, count)
  {
    hide AfterSteps, Backfilled;
    StepBack(value, interval, steps, missing, count, added);
  }

  lemma StepsDone(value: int, interval: int, steps: nat, missing: int, count: int, added: int)
    requires 0 <= missing < interval && AfterSteps(value, interval, steps, missing, count, added)
    ensures Copies(value, interval) == steps + 1 && added == count * (Copies(value, interval) - 1)
    ensures forall x :: x <= missing && Backfilled(value, interval, x) ==> x == value
  {
    assert (steps + 2) * interval == (steps + 1) * interval + interval;
    QuotientUnique(value, interval, steps + 1);
  }

  // ----- Rebuilding from counts -----

  lemma HasSlots(c: Config)
    requires c.WellFormed()
    ensures c.countsLen >= 2
  {
    assert c.countsLen == (c.bucketCount + 1) * c.subBucketHalfCount;
    MulMonotone(2, c.bucketCount + 1, c.subBucketHalfCount);
  }

  lemma {:induction false} RepresentativesTally(c: Config, counts: seq<int>, n: nat, i: nat)
    requires c.WellFormed() && n <= |counts| && AllNonNegative(counts)
    ensures CountIn(Representatives(c, counts, n), ValueAtIndex(c, i), ValueAtIndex(c, i + 1))
         == if i < n then counts[i] else 0
    ensures |Representatives(c, counts, n)| == Prefix(counts, n)
  {
    hide ValueAtIndex, CountsIndexFor, LowestEquivalent, NextNonEquivalent, HighestEquivalent, SizeOfEquivalentRange;
    if n == 0 {
      CountInOfEmpty(ValueAtIndex(c, i), ValueAtIndex(c, i + 1));
    } else {
      var v := ValueAtIndex(c, n - 1);
      RepresentativesTally(c, counts, n - 1, i);
      CountInAfterAdding(Representatives(c, counts, n - 1), v, counts[n - 1], ValueAtIndex(c, i), ValueAtIndex(c,
          i + 1));
      BucketsTile(c, v, i);
      IndexInvertsStart(c, n - 1);
    }
  }

  lemma {:induction false} RepresentativesMembers(c: Config, counts: seq<int>, n: nat)
    requires c.WellFormed() && n <= |counts| && AllNonNegative(counts)
    ensures forall v :: v in Representatives(c, counts, n) <==>
              exists i :: 0 <= i < n && counts[i] > 0 && v == ValueAtIndex(c, i)
  {
    hide ValueAtIndex, CountsIndexFor, LowestEquivalent, NextNonEquivalent, HighestEquivalent, SizeOfEquivalentRange;
    if n != 0 {
      RepresentativesMembers(c, counts, n - 1);
      var m := Representatives(c, counts, n - 1);
      var w := ValueAtIndex(c, n - 1);
      forall v
        ensures v in Representatives(c, counts, n) <==> v in m || (v == w && counts[n - 1] > 0)
      {
      }
    }
  }

  lemma RebuiltDescribed(c: Config, counts: seq<int>, maxIndex: int, minIndex: int)
    requires Calculated(c) && |counts| == c.countsLen && AllNonNegative(counts)
    requires LastNonZero(counts, |counts|, maxIndex) && FirstNonZeroAfter0(counts, |counts|, minIndex)
    ensures var max := if maxIndex == -1 then 0 else HighestEquivalent(c, ValueAtIndex(c, maxIndex));
            var min := if minIndex == -1 then INT64_MAX else ValueAtIndex(c, minIndex);
            && Describes(c, counts, Prefix(counts, |counts|), min, max, Representatives(c, counts, |counts|))
            && (max == 0 ==> c.unitMagnitude == 0 || Prefix(counts, |counts|) == 0)
  {
    hide ValueAtIndex, CountsIndexFor, LowestEquivalent, NextNonEquivalent, HighestEquivalent, SizeOfEquivalentRange;
    var m := Representatives(c, counts, |counts|);
    LimitFits(c);
    RepresentativesInRange(c, counts);
    RepresentativesTally(c, counts, |counts|, 0);
    forall i | 0 <= i < |counts|
      ensures counts[i] == CountIn(m, ValueAtIndex(c, i), ValueAtIndex(c, i + 1))
    {
      RepresentativesTally(c, counts, |counts|, i);
    }
    RebuiltMax(c, counts, maxIndex);
    RebuiltMin(c, counts, minIndex);
  }

  lemma RepresentativesInRange(c: Config, counts: seq<int>)
    requires c.WellFormed() && |counts| == c.countsLen && AllNonNegative(counts)
    ensures InRange(c, Representatives(c, counts, |counts|))
  {
    hide ValueAtIndex, CountsIndexFor, LowestEquivalent, NextNonEquivalent, HighestEquivalent, SizeOfEquivalentRange;
    RepresentativesMembers(c, counts, |counts|);
    forall v | v in Representatives(c, counts, |counts|)
      ensures 0 <= v < c.Limit()
    {
      var i :| 0 <= i < |counts| && counts[i] > 0 && v == ValueAtIndex(c, i);
      IndexInvertsStart(c, i);
      AcceptedIffBelowLimit(c, v);
    }
  }

  lemma RebuiltMax(c: Config, counts: seq<int>, maxIndex: int)
    requires Calculated(c) && |counts| == c.countsLen && AllNonNegative(counts)
    requires LastNonZero(counts, |counts|, maxIndex)
    requires InRange(c, Representatives(c, counts, |counts|))
    ensures var max := if maxIndex == -1 then 0 else HighestEquivalent(c, ValueAtIndex(c, maxIndex));
            && MaxTracks(c, Representatives(c, counts, |counts|), max)
            && (max == 0 ==> c.unitMagnitude == 0 || Prefix(counts, |counts|) == 0)
  {
    hide ValueAtIndex, CountsIndexFor, LowestEquivalent, NextNonEquivalent, SizeOfEquivalentRange;
    var m := Representatives(c, counts, |counts|);
    RepresentativesMembers(c, counts, |counts|);
    if maxIndex == -1 {
      PrefixOfZeros(counts, |counts|);
      StartOfRange(c);
      StartsIncrease(c, 0, c.countsLen);
    } else {
      var start := ValueAtIndex(c, maxIndex);
      var max := HighestEquivalent(c, start);
      IndexInvertsStart(c, maxIndex);
      StartsIncrease(c, maxIndex, maxIndex + 1);
      BucketsTile(c, max, maxIndex);
      AcceptedIffBelowLimit(c, max);
      assert start in m;
      forall v | v in m
        ensures CountsIndexFor(c, v) <= maxIndex
        ensures max == 0 ==> v == 0
      {
        var i :| 0 <= i < |counts| && counts[i] > 0 && v == ValueAtIndex(c, i);
        IndexInvertsStart(c, i);
        if i < maxIndex { StartsIncrease(c, i, maxIndex); }
      }
      StartOfRange(c);
      if max == 0 && maxIndex > 0 {
        StartsIncrease(c, 0, maxIndex);
      }
      if max == 0 {
        assert maxIndex == 0 && Pow2(c.unitMagnitude) == 1;
      }
    }
  }

  lemma RebuiltMin(c: Config, counts: seq<int>, minIndex: int)
    requires Calculated(c) && |counts| == c.countsLen && AllNonNegative(counts)
    requires FirstNonZeroAfter0(counts, |counts|, minIndex)
    requires InRange(c, Representatives(c, counts, |counts|))
    ensures MinTracks(c, Representatives(c, counts, |counts|),
                      if minIndex == -1 then INT64_MAX else ValueAtIndex(c, minIndex))
  {
    hide ValueAtIndex, CountsIndexFor, LowestEquivalent, NextNonEquivalent, HighestEquivalent, SizeOfEquivalentRange;
    var m := Representatives(c, counts, |counts|);
    var min := if minIndex == -1 then INT64_MAX else ValueAtIndex(c, minIndex);
    RepresentativesMembers(c, counts, |counts|);
    LimitFits(c);
    if minIndex != -1 {
      StartsIncrease(c, 0, minIndex);
      assert min in m;
      IndexInvertsStart(c, minIndex);
    }
    forall v | v in m && CountsIndexFor(c, v) > 0
      ensures minIndex != -1 && minIndex <= CountsIndexFor(c, v)
    {
      var i :| 0 <= i < |counts| && counts[i] > 0 && v == ValueAtIndex(c, i);
      IndexInvertsStart(c, i);
    }
    if min == INT64_MAX {
      forall v | v in m && CountsIndexFor(c, v) > 0
        ensures v == INT64_MAX
      {
        IndexOfValue(c, v);
        var i :| 0 <= i < |counts| && counts[i] > 0 && v == ValueAtIndex(c, i);
        IndexInvertsStart(c, i);
        if minIndex < i { StartsIncrease(c, minIndex, i); }
      }
    }
  }

  lemma DescribedShape(c: Config, counts: seq<int>, total: int, minValue: int, maxValue: int, m: multiset<int>)
    requires Describes(c, counts, total, minValue, maxValue, m)
    ensures Calculated(c) && c.WellFormed() && |counts| == c.countsLen >= 2
  {
    HasSlots(c);
  }

  lemma LayoutIsWellFormed(c: Config)
    requires Calculated(c)
    ensures c.WellFormed()
  {
  }

  lemma FoundInside(counts: seq<int>, maxIndex: int, minIndex: int)
    requires LastNonZero(counts, |counts|, maxIndex) && FirstNonZeroAfter0(counts, |counts|, minIndex)
    ensures -1 <= maxIndex < |counts| && -1 <= minIndex < |counts|
  {
  }
}
