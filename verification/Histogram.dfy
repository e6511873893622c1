/** The HDR histogram itself. The class carries, beside the source's fields, the
    multiset of values recorded so far; Valid says that the counts, the total and
    the two extremes describe that multiset. */
module Histograms {
  import opened Buckets
  import opened BucketConfig
  import opened Samples
  import opened Descriptions

  // A double as its 64 bits.
  type DoubleBits = v: int | 0 <= v < 0x1_0000_0000_0000_0000

  const RATIO_OF_ONE: DoubleBits := 0x3ff0_0000_0000_0000

  class Histogram {
    const cfg: Config
    const counts: array<int>
    var totalCount: int
    var minValue: int
    var maxValue: int
    var conversionRatio: DoubleBits
    ghost var recorded: multiset<int>

    ghost predicate Valid()
      reads this, counts
    {
      Describes(cfg, counts[..], totalCount, minValue, maxValue, recorded)
    }

    // Both extremes are recorded values, or the marks for "none".
    ghost predicate Exact()
      reads this
    {
      ExtremesExact(recorded, minValue, maxValue)
    }

    constructor (c: Config)
      requires Calculated(c)
      ensures Valid() && Exact() && fresh(this) && fresh(counts)
      ensures cfg == c && recorded == multiset{}
      ensures totalCount == 0 && minValue == INT64_MAX && maxValue == 0 && conversionRatio == 0x3ff0_0000_0000_0000
    {
      cfg := c;
      counts := new int[c.countsLen](_ => 0);
      totalCount, minValue, maxValue := 0, INT64_MAX, 0;
      conversionRatio := RATIO_OF_ONE;
      recorded := multiset{};
      new;
      EmptyDescribed(c, counts[..]);
    }

    method Reset()
      requires Calculated(cfg) && counts.Length == cfg.countsLen
      modifies this`totalCount, this`minValue, this`maxValue, this`recorded, counts
      ensures Valid() && Exact() && recorded == multiset{}
      ensures totalCount == 0 && minValue == INT64_MAX && maxValue == 0
    {
      totalCount := 0;
      minValue := INT64_MAX;
      maxValue := 0;
      forall i | 0 <= i < counts.Length {
        counts[i] := 0;
      }
      recorded := multiset{};
      EmptyDescribed(cfg, counts[..]);
    }

    method UpdateMinMax(value: int)
      modifies this`minValue, this`maxValue
      ensures minValue == MinAfter(old(minValue), value) && maxValue == MaxAfter(old(maxValue), value)
    {
      minValue := if value < minValue && value != 0 then value else minValue;
      maxValue := if value > maxValue then value else maxValue;
    }

    method CountsInc(index: nat, value: int)
      requires index < counts.Length
      modifies this`totalCount, counts
      ensures counts[..] == old(counts[..])[index := old(counts[index]) + value]
      ensures totalCount == old(totalCount) + value
    {
      counts[index] := counts[index] + value;
      totalCount := totalCount + value;
    }

    // Counts and layout fit each other, whatever the counts are.
    ghost predicate Shaped()
      reads this, counts
    {
      Calculated(cfg) && counts.Length == cfg.countsLen
    }

    // Records value at the index found for it.
    method RecordAt(value: nat, count: int, index: nat)
      requires Shaped() && value < cfg.Limit()
      requires index == CountsIndexFor(cfg, value) < counts.Length
      modifies this`totalCount, this`minValue, this`maxValue, this`recorded, counts
      ensures old(Valid()) && count >= 1 ==> Valid()
      ensures recorded == if count >= 1 then old(recorded)[value := old(recorded)[value] + count] else old(recorded)
      ensures totalCount == old(totalCount) + count
      ensures counts[..] == old(counts[..])[index := old(counts[index]) + count]
      ensures minValue == MinAfter(old(minValue), value) && maxValue == MaxAfter(old(maxValue), value)
    {
      hide Describes, CountsIndexFor, Calculated;
      if Valid() && count >= 1 {
        RecordKeepsDescription(cfg, counts[..], totalCount, minValue, maxValue, recorded, value, count, index);
      }
      CountsInc(index, count);
      UpdateMinMax(value);
      if count >= 1 {
        recorded := recorded[value := recorded[value] + count];
      }
    }

    // Records count copies of value, or refuses a value that has no slot. A count below 1 records nothing,
    // but it is added to the slot and the total, and the value goes into the extremes.
    method RecordValues(value: int, count: int) returns (ok: bool)
      requires Valid() || Shaped()
      modifies this`totalCount, this`minValue, this`maxValue, this`recorded, counts
      ensures Shaped() && (old(Valid()) && count >= 1 ==> Valid())
      ensures ok <==> 0 <= value < cfg.Limit()
      ensures ok && count >= 1 ==> recorded == old(recorded)[value := old(recorded)[value] + count]
      ensures count < 1 ==> recorded == old(recorded)
      ensures ok ==> totalCount == old(totalCount) + count
      ensures ok ==> forall i | 0 <= i < counts.Length ::
        counts[i] == old(counts[i]) + (if i == CountsIndexFor(cfg, value) then count else 0)
      ensures ok ==> minValue == MinAfter(old(minValue), value) && maxValue == MaxAfter(old(maxValue), value)
      ensures old(Exact()) && count >= 1 ==> Exact()
      ensures !ok ==> unchanged(this) && unchanged(counts)
    {
      hide Describes, Calculated, CountsIndexFor, ExtremesExact;
      if Valid() {
        DescribedShape(cfg, counts[..], totalCount, minValue, maxValue, recorded);
      }
      LayoutIsWellFormed(cfg);
      if value < 0 {
        return false;
      }
      var countsIndex := CountsIndexFor(cfg, value);
      AcceptedIffBelowLimit(cfg, value);
      if countsIndex < 0 || counts.Length <= countsIndex {
        return false;
      }
      if Exact() && count >= 1 {
        FitsWithLimit(cfg, value);
        RecordKeepsExact(recorded, minValue, maxValue, value, count);
      }
      RecordAt(value, count, countsIndex);
      ok := true;
    }

    // Records value and, when it exceeds the expected interval, the values a stalled
    // caller would have recorded meanwhile.
    method RecordCorrectedValues(value: int, count: int, expectedInterval: int) returns (ok: bool)
      requires Valid() || Shaped()
      modifies this`totalCount, this`minValue, this`maxValue, this`recorded, counts
      ensures Shaped() && (old(Valid()) && count >= 1 ==> Valid())
      ensures ok <==> 0 <= value < cfg.Limit()
      ensures !ok ==> unchanged(this) && unchanged(counts)
      ensures ok ==> forall x ::
        recorded[x] == old(recorded)[x] + (if count >= 1 && Backfilled(value, expectedInterval, x) then count else 0)
      ensures ok ==> totalCount == old(totalCount) + count * Copies(value, expectedInterval)
      ensures old(Exact()) && count >= 1 ==> Exact()
    {
      hide Describes, Calculated, CountsIndexFor, Copies, ExtremesExact;
      ok := RecordValues(value, count);
      if !ok {
        return false;
      }
      if expectedInterval <= 0 || value <= expectedInterval {
        NothingMissing(value, expectedInterval);
        return true;
      }
      ok := RecordMissing(value, count, expectedInterval);
    }

    // The backfilling loop: no step of it can fail once value itself was accepted.
    method RecordMissing(value: int, count: int, expectedInterval: int) returns (ok: bool)
      requires Shaped()
      requires 0 < expectedInterval < value < cfg.Limit()
      modifies this`totalCount, this`minValue, this`maxValue, this`recorded, counts
      ensures Shaped() && ok && (old(Valid()) && count >= 1 ==> Valid())
      ensures forall x :: recorded[x] == old(recorded)[x]
                + (if count >= 1 && x != value && Backfilled(value, expectedInterval, x) then count else 0)
      ensures totalCount == old(totalCount) + count * (Copies(value, expectedInterval) - 1)
      ensures old(Exact()) && count >= 1 ==> Exact()
    {
      hide Describes, Calculated, CountsIndexFor, Copies, ExtremesExact, AfterSteps;
      var missingValue := value - expectedInterval;
      ghost var steps, added := 0, 0;
      StepsBegin(recorded, value, expectedInterval, count);
      while missingValue >= expectedInterval
        invariant Shaped() && (old(Valid()) && count >= 1 ==> Valid()) && 0 <= missingValue < value
        invariant AfterSteps(value, expectedInterval, steps, missingValue, count, added)
        invariant FilledDownTo(old(recorded), recorded, value, expectedInterval, missingValue, count)
        invariant totalCount == old(totalCount) + added
        invariant old(Exact()) && count >= 1 ==> Exact()
        decreases missingValue
      {
        hide FilledDownTo;
        StepFills(old(recorded), recorded, value, expectedInterval, steps, missingValue, count, added);
        StepBack(value, expectedInterval, steps, missingValue, count, added);
        var accepted := RecordValues(missingValue, count);
        if !accepted {
          return false;
        }
        steps, added := steps + 1, added + count;
        missingValue := missingValue - expectedInterval;
      }
      StepsDone(value, expectedInterval, steps, missingValue, count, added);
      ok := true;
    }

    function Max(): int
      requires Valid()
      reads this, counts
    {
      if maxValue == 0 then 0 else HighestEquivalent(cfg, maxValue)
    }

    function NonZeroMin(): int
      requires Valid()
      reads this, counts
    {
      if minValue == INT64_MAX then INT64_MAX else LowestEquivalent(cfg, minValue)
    }

    function Min(): int
      requires Valid()
      reads this, counts
    {
      HasSlots(cfg);
      if counts[0] > 0 then 0 else NonZeroMin()
    }

    // Rebuilds the total and the extremes from counts that were written from outside, passing over
    // those below zero. What was recorded is then only known up to its bucket.
    method ResetInternalCounters()
      requires Calculated(cfg) && counts.Length == cfg.countsLen
      modifies this`totalCount, this`minValue, this`maxValue, this`recorded
      ensures Describes(cfg, Positive(counts[..]), totalCount, minValue, maxValue, recorded)
      ensures recorded == Representatives(cfg, Positive(counts[..]), counts.Length)
      ensures AllNonNegative(counts[..]) ==> Valid() && Positive(counts[..]) == counts[..]
      ensures maxValue == 0 ==> cfg.unitMagnitude == 0 || totalCount == 0
    {
      hide Describes, Representatives, ValueAtIndex, HighestEquivalent, Calculated, Prefix, LastNonZero,
           FirstNonZeroAfter0, AllNonNegative;
      LayoutIsWellFormed(cfg);
      NothingNegative(counts[..]);
      var observedTotalCount, maxIndex, minNonZeroIndex := ObserveCounts();
      FoundInside(Positive(counts[..]), maxIndex, minNonZeroIndex);
      if maxIndex == -1 {
        maxValue := 0;
      } else {
        var max := ValueAtIndex(cfg, maxIndex);
        maxValue := HighestEquivalent(cfg, max);
      }
      if minNonZeroIndex == -1 {
        minValue := INT64_MAX;
      } else {
        minValue := ValueAtIndex(cfg, minNonZeroIndex);
      }
      totalCount := observedTotalCount;
      recorded := Representatives(cfg, Positive(counts[..]), counts.Length);
      RebuiltDescribed(cfg, Positive(counts[..]), maxIndex, minNonZeroIndex);
    }

    // The sum of the counts above zero, the last such slot, and the first one behind slot 0.
    method ObserveCounts() returns (observedTotalCount: int, maxIndex: int, minNonZeroIndex: int)
      ensures observedTotalCount == Prefix(Positive(counts[..]), counts.Length)
      ensures LastNonZero(Positive(counts[..]), counts.Length, maxIndex)
      ensures FirstNonZeroAfter0(Positive(counts[..]), counts.Length, minNonZeroIndex)
    {
      ghost var positive := Positive(counts[..]);
      minNonZeroIndex, maxIndex := -1, -1;
      observedTotalCount := 0;
      var i := 0;
      while i < counts.Length
        invariant 0 <= i <= counts.Length
        invariant observedTotalCount == Prefix(positive, i)
        invariant LastNonZero(positive, i, maxIndex)
        invariant FirstNonZeroAfter0(positive, i, minNonZeroIndex)
      {
        var countAtIndex := counts[i];
        if countAtIndex > 0 {
          observedTotalCount := observedTotalCount + countAtIndex;
          maxIndex := i;
          if minNonZeroIndex == -1 && i != 0 {
            minNonZeroIndex := i;
          }
        }
        i := i + 1;
      }
    }
  }
}
