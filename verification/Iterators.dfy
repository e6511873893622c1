/** The iterator over a histogram's slots, with the four ways of stepping it. */
module Iterators {
  import opened Bits
  import opened Buckets
  import opened BucketConfig
  import opened Samples
  import opened Descriptions
  import opened Histograms

  // The iterator's snapshot of the total is a 32-bit field.
  function Int32Of(x: int): int {
    (x + 0x8000_0000) % 0x1_0000_0000 - 0x8000_0000
  }

  lemma Int32AtMost(x: int)
    requires x >= 0
    ensures Int32Of(x) <= x
    ensures x < 0x8000_0000 ==> Int32Of(x) == x
    ensures 0x8000_0000 <= x < 0x1_0000_0000 ==> Int32Of(x) < 0
  {
  }

  // How an iterator over reporting levels moves to its next level.
  datatype Step = Linear(units: int) | Logarithmic(base: int)
  {
    predicate Advancing() {
      match this
      case Linear(units) => units >= 1
      case Logarithmic(base) => base >= 2
    }

    function Next(level: int): int {
      match this
      case Linear(units) => level + units
      case Logarithmic(base) => level * base
    }
  }

  // What the running fields are at a position: nothing is passed at -1, everything at the end.
  ghost predicate AtPosition(c: Config, counts: seq<int>, countsIndex: int, cumulative: int, value: nat, count: int) {
    && c.WellFormed()
    && countsIndex >= -1
    && var passed := if countsIndex + 1 <= |counts| then countsIndex + 1 else |counts|;
      && cumulative == Prefix(counts, passed)
      && (passed == 0 ==> value == 0 && count == 0)
      && (passed > 0 ==> value == ValueAtIndex(c, passed - 1) && count == counts[passed - 1])
  }

  // Every slot from index lo up to hi starts below the bound.
  ghost predicate StartBelow(c: Config, lo: int, hi: int, bound: int) {
    c.WellFormed() && forall k: nat | lo <= k < hi :: ValueAtIndex(c, k) < bound
  }

  lemma NoneBelow(c: Config, lo: int, bound: int)
    requires c.WellFormed()
    ensures StartBelow(c, lo, lo, bound)
  {
  }

  lemma OneMoreBelow(c: Config, lo: int, hi: int, bound: int)
    requires StartBelow(c, lo, hi, bound) && (hi >= 0 ==> ValueAtIndex(c, hi) < bound)
    ensures StartBelow(c, lo, hi + 1, bound)
  {
  }

  class Iter {
    const h: Histogram
    const totalCount: int
    var countsIndex: int
    var count: int
    var cumulativeCount: int
    var value: nat
    var highestEquivalentValue: int
    var lowestEquivalentValue: int
    var medianEquivalentValue: int
    var valueIteratedFrom: int
    var valueIteratedTo: int

    // Fields of the level iterators only.
    const step: Step
    var countAddedInThisStep: int
    var nextReportingLevel: nat
    var nextReportingLevelLowestEquivalent: int

    // How many slots have been passed.
    ghost function Passed(): nat
      requires countsIndex >= -1
      reads this, h, h.counts
    {
      if countsIndex + 1 <= h.counts.Length then countsIndex + 1 else h.counts.Length
    }

    ghost predicate Valid()
      reads this, h, h.counts
    {
      && h.Valid()
      && totalCount == Int32Of(h.totalCount)
      && AtPosition(h.cfg, h.counts[..], countsIndex, cumulativeCount, value, count)
    }

    // The part of a level iterator's state that says which level comes next.
    ghost predicate LevelValid()
      reads this, h, h.counts
    {
      && Valid()
      && step.Advancing() && nextReportingLevel >= 1
      && nextReportingLevelLowestEquivalent == LowestEquivalent(h.cfg, nextReportingLevel)
    }

    constructor (histogram: Histogram)
      requires histogram.Valid()
      ensures Valid() && fresh(this) && h == histogram && countsIndex == -1 && cumulativeCount == 0
    {
      h := histogram;
      totalCount := Int32Of(histogram.totalCount);
      countsIndex := -1;
      count, cumulativeCount, value := 0, 0, 0;
      highestEquivalentValue, lowestEquivalentValue, medianEquivalentValue := 0, 0, 0;
      valueIteratedFrom, valueIteratedTo := 0, 0;
      step := Linear(1);
      countAddedInThisStep, nextReportingLevel, nextReportingLevelLowestEquivalent := 0, 0, 0;
    }

    constructor LinearLevels(histogram: Histogram, units: nat)
      requires histogram.Valid() && units >= 1
      ensures LevelValid() && fresh(this) && h == histogram && step == Linear(units) && nextReportingLevel == units
      ensures countsIndex == -1 && cumulativeCount == 0
    {
      h := histogram;
      totalCount := Int32Of(histogram.totalCount);
      countsIndex := -1;
      count, cumulativeCount, value := 0, 0, 0;
      highestEquivalentValue, lowestEquivalentValue, medianEquivalentValue := 0, 0, 0;
      valueIteratedFrom, valueIteratedTo := 0, 0;
      step := Linear(units);
      countAddedInThisStep := 0;
      nextReportingLevel := units;
      nextReportingLevelLowestEquivalent := LowestEquivalent(histogram.cfg, units);
    }

    constructor LogLevels(histogram: Histogram, firstLevel: nat, base: nat)
      requires histogram.Valid() && firstLevel >= 1 && base >= 2
      ensures LevelValid() && fresh(this) && h == histogram
      ensures step == Logarithmic(base) && nextReportingLevel == firstLevel
      ensures countsIndex == -1 && cumulativeCount == 0
    {
      h := histogram;
      totalCount := Int32Of(histogram.totalCount);
      countsIndex := -1;
      count, cumulativeCount, value := 0, 0, 0;
      highestEquivalentValue, lowestEquivalentValue, medianEquivalentValue := 0, 0, 0;
      valueIteratedFrom, valueIteratedTo := 0, 0;
      step := Logarithmic(base);
      countAddedInThisStep := 0;
      nextReportingLevel := firstLevel;
      nextReportingLevelLowestEquivalent := LowestEquivalent(histogram.cfg, firstLevel);
    }

    predicate HasBuckets()
      reads this, h
    {
      countsIndex < h.counts.Length
    }

    predicate HasNext()
      reads this
    {
      cumulativeCount < totalCount
    }

    // While the snapshot promises more, a nonempty slot is still ahead.
    lemma NextIsAhead()
      requires Valid() && HasNext()
      ensures countsIndex + 1 < h.counts.Length
      ensures !(forall k | countsIndex < k < h.counts.Length :: h.counts[k] == 0)
    {
      TotalCovers(h.cfg, h.counts[..], h.totalCount, h.minValue, h.maxValue, h.recorded);
      Int32AtMost(h.totalCount);
      if forall k | Passed() <= k < h.counts.Length :: h.counts[k] == 0 {
        PrefixOverZeros(h.counts[..], Passed(), h.counts.Length);
      }
    }

    method MoveNext() returns (moved: bool)
      requires Valid()
      modifies this`countsIndex, this`count, this`cumulativeCount, this`value,
               this`highestEquivalentValue, this`lowestEquivalentValue, this`medianEquivalentValue
      ensures Valid()
      ensures countsIndex == old(countsIndex) + 1
      ensures moved <==> countsIndex < h.counts.Length
      ensures moved ==> count == h.counts[countsIndex] && cumulativeCount == old(cumulativeCount) + count
      ensures moved ==> highestEquivalentValue == ValueAtIndex(h.cfg, countsIndex + 1) - 1
      ensures !moved ==> cumulativeCount == old(cumulativeCount)
    {
      hide Describes, AtPosition, ValueAtIndex, LowestEquivalent, HighestEquivalent, MedianEquivalent;
      MovedOn(h.cfg, h.counts[..], countsIndex, cumulativeCount, value, count);
      countsIndex := countsIndex + 1;
      if !HasBuckets() {
        return false;
      }
      LoadSlot();
      moved := true;
    }

    method LoadSlot()
      requires h.cfg.WellFormed() && 0 <= countsIndex < h.counts.Length
      modifies this`count, this`cumulativeCount, this`value,
               this`highestEquivalentValue, this`lowestEquivalentValue, this`medianEquivalentValue
      ensures count == h.counts[countsIndex] && cumulativeCount == old(cumulativeCount) + h.counts[countsIndex]
      ensures value == ValueAtIndex(h.cfg, countsIndex)
      ensures highestEquivalentValue == HighestEquivalent(h.cfg, value)
      ensures lowestEquivalentValue == LowestEquivalent(h.cfg, value)
      ensures medianEquivalentValue == MedianEquivalent(h.cfg, value)
    {
      hide ValueAtIndex, LowestEquivalent, HighestEquivalent, MedianEquivalent;
      count := h.counts[countsIndex];
      cumulativeCount := cumulativeCount + count;
      value := ValueAtIndex(h.cfg, countsIndex);
      highestEquivalentValue := HighestEquivalent(h.cfg, value);
      lowestEquivalentValue := LowestEquivalent(h.cfg, value);
      medianEquivalentValue := MedianEquivalent(h.cfg, value);
    }

    method BasicNext() returns (moved: bool)
      requires Valid()
      modifies this`countsIndex, this`count, this`cumulativeCount, this`value,
               this`highestEquivalentValue, this`lowestEquivalentValue, this`medianEquivalentValue
      ensures Valid()
      ensures moved <==> old(cumulativeCount) < totalCount
      ensures moved ==> countsIndex == old(countsIndex) + 1 < h.counts.Length
      ensures moved ==> count == h.counts[countsIndex] && cumulativeCount == old(cumulativeCount) + count
      ensures !moved ==> countsIndex == old(countsIndex) && cumulativeCount == old(cumulativeCount)
    {
      hide Describes;
      if !HasNext() {
        return false;
      }
      NextIsAhead();
      var _ := MoveNext();
      moved := true;
    }

    method UpdateIteratedValues(newValueIteratedTo: int)
      modifies this`valueIteratedFrom, this`valueIteratedTo
      ensures valueIteratedFrom == old(valueIteratedTo) && valueIteratedTo == newValueIteratedTo
    {
      valueIteratedFrom := valueIteratedTo;
      valueIteratedTo := newValueIteratedTo;
    }

    // Steps to the next slot.
    method AllValuesNext() returns (result: bool)
      requires Valid()
      modifies this
      ensures Valid()
      ensures countsIndex == old(countsIndex) + 1
      ensures result <==> countsIndex < h.counts.Length
      ensures result ==> count == h.counts[countsIndex] && cumulativeCount == old(cumulativeCount) + count
      ensures result ==>
        valueIteratedFrom == old(valueIteratedTo) && valueIteratedTo == ValueAtIndex(h.cfg, countsIndex)
    {
      hide Describes, ValueAtIndex;
      result := MoveNext();
      if result {
        UpdateIteratedValues(value);
      }
    }

    // Steps to the next nonempty slot, as long as the snapshot promises one.
    method RecordedNext() returns (result: bool)
      requires Valid()
      modifies this
      ensures Valid()
      ensures result <==> old(cumulativeCount) < totalCount
      ensures result ==> old(countsIndex) < countsIndex < h.counts.Length
      ensures result ==> count == h.counts[countsIndex] != 0
      ensures result ==> forall k | old(countsIndex) < k < countsIndex :: h.counts[k] == 0
      ensures result ==> countAddedInThisStep == h.counts[countsIndex]
      ensures result ==> cumulativeCount == old(cumulativeCount) + countAddedInThisStep
      ensures result ==>
        valueIteratedFrom == old(valueIteratedTo) && valueIteratedTo == ValueAtIndex(h.cfg, countsIndex)
      ensures !result ==> countsIndex == old(countsIndex)
    {
      hide Describes, ValueAtIndex;
      var moved := BasicNext();
      while moved
        invariant Valid()
        invariant moved ==> old(countsIndex) < countsIndex < h.counts.Length && count == h.counts[countsIndex]
        invariant moved ==> forall k | old(countsIndex) < k < countsIndex :: h.counts[k] == 0
        invariant moved ==> old(HasNext()) && cumulativeCount == old(cumulativeCount) + count
        invariant valueIteratedTo == old(valueIteratedTo)
        invariant !moved ==> !old(HasNext()) && countsIndex == old(countsIndex)
        decreases h.counts.Length - countsIndex, moved
      {
        if count != 0 {
          UpdateIteratedValues(value);
          countAddedInThisStep := count;
          return true;
        }
        moved := BasicNext();
      }
      result := false;
    }

    method NextValueGreaterThan(reportingLevelUpperBound: int) returns (greater: bool)
      requires Valid()
      ensures greater <==>
        && countsIndex < h.counts.Length
        && ValueAtIndex(h.cfg, countsIndex + 1) > reportingLevelUpperBound
    {
      DescribedShape(h.cfg, h.counts[..], h.totalCount, h.minValue, h.maxValue, h.recorded);
      if countsIndex >= h.counts.Length {
        return false;
      }
      greater := ValueAtIndex(h.cfg, countsIndex + 1) > reportingLevelUpperBound;
    }

    // Reporting levels still to come inside the current slot.
    ghost function LevelsLeft(): nat
      requires LevelValid()
      reads this, h, h.counts
    {
      var next := ValueAtIndex(h.cfg, if Passed() == 0 then 1 else Passed());
      if nextReportingLevel < next then next - nextReportingLevel else 0
    }

    // Slots still to pass.
    ghost function SlotsLeft(): nat
      requires LevelValid()
      reads this, h, h.counts
    {
      if countsIndex < h.counts.Length then h.counts.Length - countsIndex else 0
    }

    // Reports the level that is due and moves on to the following one.
    method ReportLevel()
      requires LevelValid() && countsIndex < h.counts.Length
      requires value >= nextReportingLevelLowestEquivalent
      modifies this`valueIteratedFrom, this`valueIteratedTo, this`nextReportingLevel,
               this`nextReportingLevelLowestEquivalent
      ensures LevelValid() && LevelsLeft() < old(LevelsLeft())
      ensures valueIteratedTo == old(nextReportingLevel) && valueIteratedFrom == old(valueIteratedTo)
      ensures nextReportingLevel ==
              match step case Linear(units) => old(nextReportingLevel) + units
                         case Logarithmic(base) => old(nextReportingLevel) * base
    {
      hide Describes, Calculated, ValueAtIndex, LowestEquivalent;
      DescribedShape(h.cfg, h.counts[..], h.totalCount, h.minValue, h.maxValue, h.recorded);
      StartOfRange(h.cfg);
      LevelInSlot(h.cfg, if Passed() == 0 then 0 else Passed() - 1, nextReportingLevel);
      UpdateIteratedValues(nextReportingLevel);
      LevelAdvances(step, nextReportingLevel);
      nextReportingLevel := step.Next(nextReportingLevel);
      nextReportingLevelLowestEquivalent := LowestEquivalent(h.cfg, nextReportingLevel);
    }

    // Passes slots until the next reporting level is due or the slots run out: it stops at
    // the first slot that starts at or after the lowest equivalent of the level.
    method PassSlots() returns (due: bool)
      requires LevelValid() && countsIndex < h.counts.Length && countAddedInThisStep == 0
      modifies this`countsIndex, this`count, this`cumulativeCount, this`value, this`countAddedInThisStep,
               this`highestEquivalentValue, this`lowestEquivalentValue, this`medianEquivalentValue
      ensures Valid()
      ensures due <==> countsIndex < h.counts.Length
      ensures old(countsIndex) <= countsIndex <= h.counts.Length
      ensures StartBelow(h.cfg, old(countsIndex), countsIndex, nextReportingLevelLowestEquivalent)
      ensures due ==> value >= nextReportingLevelLowestEquivalent
      ensures old(countsIndex) < countsIndex ==> old(value) < nextReportingLevelLowestEquivalent
      ensures countAddedInThisStep == cumulativeCount - old(cumulativeCount)
    {
      hide StartBelow, Describes, Calculated, ValueAtIndex, LowestEquivalent, AtPosition, LevelsLeft, SlotsLeft;
      DescribedShape(h.cfg, h.counts[..], h.totalCount, h.minValue, h.maxValue, h.recorded);
      NoneBelow(h.cfg, countsIndex, nextReportingLevelLowestEquivalent);
      while value < nextReportingLevelLowestEquivalent
        invariant Valid() && old(countsIndex) <= countsIndex < h.counts.Length
        invariant StartBelow(h.cfg, old(countsIndex), countsIndex, nextReportingLevelLowestEquivalent)
        invariant old(countsIndex) == countsIndex ==> value == old(value)
        invariant old(countsIndex) < countsIndex ==> old(value) < nextReportingLevelLowestEquivalent
        invariant countAddedInThisStep == cumulativeCount - old(cumulativeCount)
        decreases h.counts.Length - countsIndex
      {
        SlotValue(h.cfg, h.counts[..], countsIndex, cumulativeCount, value, count);
        OneMoreBelow(h.cfg, old(countsIndex), countsIndex, nextReportingLevelLowestEquivalent);
        var moved := MoveNext();
        if !moved {
          return false;
        }
        countAddedInThisStep := countAddedInThisStep + count;
      }
      due := true;
    }

    // Steps to the next reporting level. The linear and the logarithmic iterator differ
    // only in how the level advances.
    method LevelNext() returns (result: bool)
      requires LevelValid()
      modifies this
      ensures LevelValid()
      ensures result <==>
        || old(cumulativeCount) < totalCount
        || old(countsIndex < h.counts.Length
               && ValueAtIndex(h.cfg, countsIndex + 1) > nextReportingLevelLowestEquivalent)
      ensures result && countsIndex < h.counts.Length ==>
        && (step.Linear? ==> nextReportingLevel == old(nextReportingLevel) + step.units)
        && (step.Logarithmic? ==> nextReportingLevel == old(nextReportingLevel) * step.base)
        && valueIteratedTo == old(nextReportingLevel) && valueIteratedFrom == old(valueIteratedTo)
      ensures result ==> StartBelow(h.cfg, old(countsIndex), countsIndex, old(nextReportingLevelLowestEquivalent))
      ensures result && countsIndex < h.counts.Length ==> value >= old(nextReportingLevelLowestEquivalent)
      ensures result ==> old(countsIndex) <= countsIndex <= h.counts.Length && old(countsIndex) < h.counts.Length
      ensures old(countsIndex) < countsIndex ==> old(value) < old(nextReportingLevelLowestEquivalent)
      ensures countAddedInThisStep == cumulativeCount - old(cumulativeCount)
      ensures result ==>
        || SlotsLeft() < old(SlotsLeft())
        || (SlotsLeft() == old(SlotsLeft()) && LevelsLeft() < old(LevelsLeft()))
      ensures !result ==> cumulativeCount == old(cumulativeCount) >= totalCount
    {
      hide Describes, Calculated, ValueAtIndex, LowestEquivalent, AtPosition;
      DescribedShape(h.cfg, h.counts[..], h.totalCount, h.minValue, h.maxValue, h.recorded);
      countAddedInThisStep := 0;
      var greater := NextValueGreaterThan(nextReportingLevelLowestEquivalent);
      if HasNext() {
        NextIsAhead();
      }
      if HasNext() || greater {
        var due := PassSlots();
        if due {
          ReportLevel();
        }
        return true;
      }
      result := false;
    }
  }

  // A level that is due lies before the end of the current slot.
  lemma LevelInSlot(c: Config, k: nat, level: nat)
    requires c.WellFormed() && LowestEquivalent(c, level) <= ValueAtIndex(c, k)
    ensures level < ValueAtIndex(c, k + 1)
  {
    hide ValueAtIndex, CountsIndexFor, LowestEquivalent, NextNonEquivalent;
    IndexOfValue(c, level);
    var i := CountsIndexFor(c, level);
    if k < i {
      StartsIncrease(c, k, i);
    } else if i < k {
      StartsIncrease(c, i + 1, k + 1);
    }
  }

  lemma MovedOn(c: Config, counts: seq<int>, countsIndex: int, cumulative: int, value: nat, count: int)
    requires AtPosition(c, counts, countsIndex, cumulative, value, count)
    ensures c.WellFormed() && countsIndex >= -1
    ensures var i := countsIndex + 1;
            if i < |counts| then
              && AtPosition(c, counts, i, cumulative + counts[i], ValueAtIndex(c, i), counts[i])
              && HighestEquivalent(c, ValueAtIndex(c, i)) == ValueAtIndex(c, i + 1) - 1
            else
              AtPosition(c, counts, i, cumulative, value, count)
  {
    hide ValueAtIndex, LowestEquivalent, NextNonEquivalent;
    IndexInvertsStart(c, countsIndex + 1);
  }

  lemma SlotValue(c: Config, counts: seq<int>, countsIndex: int, cumulative: int, value: nat, count: int)
    requires AtPosition(c, counts, countsIndex, cumulative, value, count)
    ensures 0 <= countsIndex < |counts| ==> value == ValueAtIndex(c, countsIndex) && count == counts[countsIndex]
    ensures 0 <= countsIndex < |counts| ==> cumulative == Prefix(counts, countsIndex + 1)
  {
  }

  lemma LevelAdvances(step: Step, level: nat)
    requires step.Advancing() && level >= 1
    ensures step.Next(level) > level
  {
    if step.Logarithmic? {
      MulMonotone(2, step.base, level);
    }
  }

  // ----- A whole iteration over levels -----

  function PowerOf(base: nat, k: nat): nat {
    if k == 0 then 1 else base * PowerOf(base, k - 1)
  }

  // The k-th level that is reported.
  function LevelAt(step: Step, first: nat, k: nat): (level: nat)
    requires step.Advancing() && first >= 1
    ensures level >= 1
  {
    LevelPositive(step, first, k);
    match step
    case Linear(units) => first + k * units
    case Logarithmic(base) => first * PowerOf(base, k)
  }

  lemma {:induction false} LevelPositive(step: Step, first: nat, k: nat)
    requires step.Advancing() && first >= 1
    ensures step.Linear? ==> first + k * step.units >= 1
    ensures step.Logarithmic? ==> first * PowerOf(step.base, k) >= 1
  {
    if step.Linear? {
      MulMonotone(0, k, step.units);
    } else {
      PowerPositive(step.base, k);
      MulMonotone(1, PowerOf(step.base, k), first);
    }
  }

  lemma {:induction false} PowerPositive(base: nat, k: nat)
    requires base >= 1
    ensures PowerOf(base, k) >= 1
  {
    if k > 0 {
      PowerPositive(base, k - 1);
      MulMonotone(1, PowerOf(base, k - 1), base);
    }
  }

  // Each level comes from the one before.
  lemma LevelFollows(step: Step, first: nat, k: nat)
    requires step.Advancing() && first >= 1
    ensures LevelAt(step, first, 0) == first
    ensures LevelAt(step, first, k + 1) == step.Next(LevelAt(step, first, k))
  {
    match step
    case Linear(units) => assert first + (k + 1) * units == first + k * units + units;
    case Logarithmic(base) => assert first * (base * PowerOf(base, k)) == first * PowerOf(base, k) * base;
  }

  // How many slots have been passed when that level is reported: those up to and with the slot of the
  // level, as far as there are slots; none while the level lies in slot 0.
  function PassedFor(c: Config, len: nat, level: nat): (n: nat)
    requires c.WellFormed()
    ensures n <= len
  {
    var i := CountsIndexFor(c, level);
    if i <= 0 then 0 else if i < len then i + 1 else len
  }

  // What each step adds: the counts of the slots passed since the step before.
  ghost predicate AddedPerLevel(c: Config, counts: seq<int>, step: Step, first: nat, added: seq<int>)
    requires c.WellFormed() && step.Advancing() && first >= 1
  {
    forall k | 0 <= k < |added| ::
      var before, upTo := SlotsUpTo(c, counts, step, first, k), SlotsUpTo(c, counts, step, first, k + 1);
      added[k] == Prefix(counts, upTo) - Prefix(counts, before)
  }

  ghost function SlotsUpTo(c: Config, counts: seq<int>, step: Step, first: nat, steps: nat): (n: nat)
    requires c.WellFormed() && step.Advancing() && first >= 1
    ensures n <= |counts|
  {
    if steps == 0 then 0 else PassedFor(c, |counts|, LevelAt(step, first, steps - 1))
  }

  // How the lowest equivalent of a level compares with the start of a slot.
  lemma LevelVersusSlot(c: Config, k: nat, level: nat)
    requires c.WellFormed()
    ensures 0 <= CountsIndexFor(c, level)
    ensures ValueAtIndex(c, k) < LowestEquivalent(c, level) <==> k < CountsIndexFor(c, level)
    ensures LowestEquivalent(c, level) == 0 <==> CountsIndexFor(c, level) == 0
  {
    hide ValueAtIndex, CountsIndexFor, LowestEquivalent, NextNonEquivalent;
    var i := CountsIndexFor(c, level);
    IndexOfValue(c, level);
    StartsOrdered(c, k, i);
    StartsOrdered(c, 0, i);
    StartOfRange(c);
  }

  lemma LastBelow(c: Config, lo: int, hi: int, bound: int)
    requires StartBelow(c, lo, hi, bound) && lo < hi && hi >= 1
    ensures c.WellFormed() && ValueAtIndex(c, hi - 1) < bound
  {
  }

  // The inner loop stops at the slot of its level, which is not before the slot of the last one.
  lemma StopReached(c: Config, len: nat, before: int, index: int, valueBefore: nat, value: nat,
                    previous: nat, level: nat)
    requires c.WellFormed() && -1 <= before <= index <= len && before < len && 1 <= previous <= level
    requires before != -1 ==> before == CountsIndexFor(c, previous) > 0
    requires StartBelow(c, before, index, LowestEquivalent(c, level))
    requires before == -1 ==> valueBefore == 0
    requires before < index ==> valueBefore < LowestEquivalent(c, level)
    requires index < len ==> value >= LowestEquivalent(c, level)
    requires index < len ==> value == if index == -1 then 0 else ValueAtIndex(c, index)
    ensures PassedFor(c, len, level) == if index < len then index + 1 else len
    ensures index < len && index != -1 ==> index == CountsIndexFor(c, level) > 0
  {
    hide ValueAtIndex, CountsIndexFor, LowestEquivalent, NextNonEquivalent, StartBelow;
    IndexMonotone(c, previous, level);
    LevelVersusSlot(c, if index >= 0 then index else 0, level);
    if before < index && index >= 1 {
      LastBelow(c, before, index, LowestEquivalent(c, level));
      LevelVersusSlot(c, index - 1, level);
    }
  }

  lemma StartsOrdered(c: Config, i: nat, j: nat)
    requires c.WellFormed()
    ensures ValueAtIndex(c, i) < ValueAtIndex(c, j) <==> i < j
  {
    hide ValueAtIndex;
    if i < j {
      StartsIncrease(c, i, j);
    } else if j < i {
      StartsIncrease(c, j, i);
    }
  }

  // Where the iterator is between two steps of an iteration.
  ghost predicate AfterLevels(c: Config, counts: seq<int>, step: Step, first: nat, added: seq<int>,
                              index: int, cumulative: int, value: int, level: int)
  {
    && c.WellFormed() && step.Advancing() && first >= 1 && |counts| > 0 && -1 <= index <= |counts|
    && AddedPerLevel(c, counts, step, first, added)
    && SlotsUpTo(c, counts, step, first, |added|) == (if index < |counts| then index + 1 else |counts|)
    && cumulative == Prefix(counts, SlotsUpTo(c, counts, step, first, |added|)) == Prefix(added, |added|)
    && (index == -1 ==> value == 0)
    && (index < |counts| ==> level == LevelAt(step, first, |added|))
    && (-1 < index < |counts| ==> |added| > 0 && index == CountsIndexFor(c, LevelAt(step, first, |added| - 1)) > 0)
  }

  lemma BeforeLevels(c: Config, counts: seq<int>, step: Step, first: nat)
    requires c.WellFormed() && step.Advancing() && first >= 1 && |counts| > 0
    ensures AfterLevels(c, counts, step, first, [], -1, 0, 0, first)
  {
  }

  lemma LevelCounted(c: Config, counts: seq<int>, step: Step, first: nat, added: seq<int>,
                     index: int, cumulative: int, value: nat, level: nat,
                     index': int, cumulative': int, value': nat, count': int, level': nat)
    requires AfterLevels(c, counts, step, first, added, index, cumulative, value, level)
    requires AtPosition(c, counts, index', cumulative', value', count')
    requires index <= index' <= |counts| && index < |counts|
    requires StartBelow(c, index, index', LowestEquivalent(c, level))
    requires index < index' ==> value < LowestEquivalent(c, level)
    requires index' < |counts| ==> value' >= LowestEquivalent(c, level) && level' == step.Next(level)
    ensures AfterLevels(c, counts, step, first, added + [cumulative' - cumulative], index', cumulative', value', level')
  {
    hide ValueAtIndex, CountsIndexFor, LowestEquivalent, PassedFor, AddedPerLevel, Prefix, StartBelow, LevelAt;
    var previous: nat := if |added| == 0 then first else LevelAt(step, first, |added| - 1);
    NextLevel(c, counts, step, first, |added|);
    StopReached(c, |counts|, index, index', value, value', previous, level);
    PrefixOfAppend(added, cumulative' - cumulative);
    OneMoreAdded(c, counts, step, first, added, cumulative' - cumulative);
  }

  lemma NextLevel(c: Config, counts: seq<int>, step: Step, first: nat, k: nat)
    requires c.WellFormed() && step.Advancing() && first >= 1
    ensures SlotsUpTo(c, counts, step, first, k + 1) == PassedFor(c, |counts|, LevelAt(step, first, k))
    ensures LevelAt(step, first, k + 1) == step.Next(LevelAt(step, first, k))
    ensures k > 0 ==> LevelAt(step, first, k) > LevelAt(step, first, k - 1)
    ensures LevelAt(step, first, 0) == first
  {
    hide PassedFor, LevelAt;
    LevelFollows(step, first, k);
    if k > 0 {
      LevelFollows(step, first, k - 1);
      LevelAdvances(step, LevelAt(step, first, k - 1));
    }
  }

  lemma OneMoreAdded(c: Config, counts: seq<int>, step: Step, first: nat, added: seq<int>, x: int)
    requires c.WellFormed() && step.Advancing() && first >= 1 && AddedPerLevel(c, counts, step, first, added)
    requires x == Prefix(counts, SlotsUpTo(c, counts, step, first, |added| + 1))
               - Prefix(counts, SlotsUpTo(c, counts, step, first, |added|))
    ensures AddedPerLevel(c, counts, step, first, added + [x])
  {
    hide SlotsUpTo, Prefix;
  }

  ghost predicate LevelsDone(c: Config, counts: seq<int>, step: Step, first: nat, added: seq<int>, cumulative: int) {
    && c.WellFormed() && step.Advancing() && first >= 1
    && AddedPerLevel(c, counts, step, first, added)
    && cumulative == Prefix(counts, SlotsUpTo(c, counts, step, first, |added|)) == Prefix(added, |added|)
  }

  // One step of an iteration: what it adds to the steps so far.
  method TakeLevel(iter: Iter, ghost cs: seq<int>, ghost first: nat, ghost added: seq<int>)
    returns (more: bool, count: int)
    requires iter.LevelValid() && cs == iter.h.counts[..]
    requires AfterLevels(iter.h.cfg, cs, iter.step, first, added, iter.countsIndex, iter.cumulativeCount, iter.value,
                         iter.nextReportingLevel)
    modifies iter
    ensures iter.LevelValid()
    ensures more ==>
      AfterLevels(iter.h.cfg, cs, iter.step, first, added + [count], iter.countsIndex, iter.cumulativeCount,
                  iter.value, iter.nextReportingLevel)
    ensures more ==>
      || iter.SlotsLeft() < old(iter.SlotsLeft())
      || (iter.SlotsLeft() == old(iter.SlotsLeft()) && iter.LevelsLeft() < old(iter.LevelsLeft()))
    ensures !more ==> LevelsDone(iter.h.cfg, cs, iter.step, first, added, iter.cumulativeCount)
    ensures !more ==> iter.cumulativeCount >= iter.totalCount
  {
    hide Describes, ValueAtIndex, CountsIndexFor, LowestEquivalent, AfterLevels, StartBelow, AtPosition;
    LevelsSoFar(iter.h.cfg, cs, iter.step, first, added, iter.countsIndex, iter.cumulativeCount, iter.value,
                iter.nextReportingLevel);
    ghost var index, cumulative := iter.countsIndex, iter.cumulativeCount;
    ghost var value, level := iter.value, iter.nextReportingLevel;
    more := iter.LevelNext();
    count := iter.countAddedInThisStep;
    if more {
      LevelCounted(iter.h.cfg, cs, iter.step, first, added, index, cumulative, value, level,
                   iter.countsIndex, iter.cumulativeCount, iter.value, iter.count, iter.nextReportingLevel);
    }
  }

  lemma LevelsSoFar(c: Config, counts: seq<int>, step: Step, first: nat, added: seq<int>,
                    index: int, cumulative: int, value: int, level: int)
    requires AfterLevels(c, counts, step, first, added, index, cumulative, value, level)
    ensures LevelsDone(c, counts, step, first, added, cumulative)
  {
    hide AddedPerLevel, SlotsUpTo, Prefix;
  }

  // Main result: an iteration over levels ends, and its k-th step counts the slots behind the one where
  // the step before stopped, up to and with the slot of the k-th level.
  method DrainLevels(iter: Iter) returns (added: seq<int>)
    requires iter.LevelValid() && iter.countsIndex == -1
    modifies iter
    ensures iter.LevelValid()
    ensures iter.step.Linear? ==>
      CountsLinearly(iter.h.cfg, iter.h.counts[..], old(iter.nextReportingLevel), iter.step.units, added)
    ensures iter.step.Logarithmic? ==>
      CountsByPowers(iter.h.cfg, iter.h.counts[..], old(iter.nextReportingLevel), iter.step.base, added)
    ensures iter.cumulativeCount == Prefix(added, |added|) >= iter.totalCount
    ensures iter.h.totalCount < 0x8000_0000 ==> Prefix(added, |added|) == iter.h.totalCount
  {
    hide Describes, ValueAtIndex, AfterLevels, LevelsDone, SlotsUpTo, AddedPerLevel, CountsLinearly, CountsByPowers;
    ghost var cs, first := iter.h.counts[..], iter.nextReportingLevel;
    IterationStarts(iter);
    added := [];
    var more := true;
    while more
      invariant iter.LevelValid()
      invariant more ==> AfterLevels(iter.h.cfg, cs, iter.step, first, added, iter.countsIndex, iter.cumulativeCount,
                                     iter.value, iter.nextReportingLevel)
      invariant !more ==> LevelsDone(iter.h.cfg, cs, iter.step, first, added, iter.cumulativeCount)
      invariant !more ==> iter.cumulativeCount >= iter.totalCount
      decreases more, iter.SlotsLeft(), iter.LevelsLeft()
    {
      var count;
      more, count := TakeLevel(iter, cs, first, added);
      if more {
        added := added + [count];
      }
    }
    IterationCovers(iter, cs, first, added);
    CountedPerLevel(iter.h.cfg, cs, iter.step, first, added, iter.cumulativeCount);
  }

  // The counts of the slots up to and with the one of a level; none while the level lies in slot 0.
  ghost function CountedUpTo(c: Config, counts: seq<int>, level: int): int
    requires c.WellFormed()
  {
    if level < 0 then 0 else Prefix(counts, PassedFor(c, |counts|, level))
  }

  // The k-th step counts the slots between the levels first + (k - 1) * units and first + k * units.
  ghost predicate CountsLinearly(c: Config, counts: seq<int>, first: int, units: int, added: seq<int>) {
    && c.WellFormed()
    && forall k | 0 <= k < |added| ::
         added[k] == CountedUpTo(c, counts, first + k * units)
                     - (if k == 0 then 0 else CountedUpTo(c, counts, first + (k - 1) * units))
  }

  // The same for the levels first * base^k.
  ghost predicate CountsByPowers(c: Config, counts: seq<int>, first: int, base: nat, added: seq<int>) {
    c.WellFormed() && forall k | 0 <= k < |added| :: CountedBy(c, counts, first, base, added, k)
  }

  ghost predicate CountedBy(c: Config, counts: seq<int>, first: int, base: nat, added: seq<int>, k: nat)
    requires c.WellFormed() && k < |added|
  {
    added[k] == CountedUpTo(c, counts, first * PowerOf(base, k))
                - (if k == 0 then 0 else CountedUpTo(c, counts, first * PowerOf(base, k - 1)))
  }

  lemma CountedPerLevel(c: Config, counts: seq<int>, step: Step, first: nat, added: seq<int>, cumulative: int)
    requires LevelsDone(c, counts, step, first, added, cumulative)
    ensures cumulative == Prefix(added, |added|)
    ensures step.Linear? ==> CountsLinearly(c, counts, first, step.units, added)
    ensures step.Logarithmic? ==> CountsByPowers(c, counts, first, step.base, added)
  {
    hide CountsLinearly, CountsByPowers, AddedPerLevel, SlotsUpTo;
    match step
    case Linear(units) => LinearCounted(c, counts, first, units, added);
    case Logarithmic(base) => PowersCounted(c, counts, first, base, added);
  }

  lemma LinearCounted(c: Config, counts: seq<int>, first: nat, units: nat, added: seq<int>)
    requires c.WellFormed() && units >= 1 && first >= 1 && AddedPerLevel(c, counts, Linear(units), first, added)
    ensures CountsLinearly(c, counts, first, units, added)
  {
    hide PassedFor, CountedUpTo, AddedPerLevel, SlotsUpTo;
    forall k | 0 <= k < |added|
      ensures added[k] == CountedUpTo(c, counts, first + k * units)
                          - (if k == 0 then 0 else CountedUpTo(c, counts, first + (k - 1) * units))
    {
      CountedBetween(c, counts, Linear(units), first, added, k);
    }
  }

  lemma PowersCounted(c: Config, counts: seq<int>, first: nat, base: nat, added: seq<int>)
    requires c.WellFormed() && base >= 2 && first >= 1 && AddedPerLevel(c, counts, Logarithmic(base), first, added)
    ensures CountsByPowers(c, counts, first, base, added)
  {
    hide PassedFor, CountedUpTo, AddedPerLevel, SlotsUpTo;
    forall k | 0 <= k < |added|
      ensures CountedBy(c, counts, first, base, added, k)
    {
      CountedBetween(c, counts, Logarithmic(base), first, added, k);
    }
  }

  lemma CountedBetween(c: Config, counts: seq<int>, step: Step, first: nat, added: seq<int>, k: nat)
    requires c.WellFormed() && step.Advancing() && first >= 1
    requires AddedPerLevel(c, counts, step, first, added) && k < |added|
    ensures added[k] == CountedUpTo(c, counts, LevelAt(step, first, k))
                        - (if k == 0 then 0 else CountedUpTo(c, counts, LevelAt(step, first, k - 1)))
  {
    hide PassedFor, LevelAt;
    assert SlotsUpTo(c, counts, step, first, k + 1) == PassedFor(c, |counts|, LevelAt(step, first, k));
    if k > 0 {
      assert SlotsUpTo(c, counts, step, first, k) == PassedFor(c, |counts|, LevelAt(step, first, k - 1));
    }
  }

  lemma IterationStarts(iter: Iter)
    requires iter.LevelValid() && iter.countsIndex == -1
    ensures AfterLevels(iter.h.cfg, iter.h.counts[..], iter.step, iter.nextReportingLevel, [], iter.countsIndex,
                        iter.cumulativeCount, iter.value, iter.nextReportingLevel)
  {
    hide Describes, LowestEquivalent, ValueAtIndex, CountsIndexFor;
    DescribedShape(iter.h.cfg, iter.h.counts[..], iter.h.totalCount, iter.h.minValue, iter.h.maxValue, iter.h.recorded);
    BeforeLevels(iter.h.cfg, iter.h.counts[..], iter.step, iter.nextReportingLevel);
  }

  lemma IterationCovers(iter: Iter, cs: seq<int>, first: nat, added: seq<int>)
    requires iter.Valid() && cs == iter.h.counts[..] && iter.cumulativeCount >= iter.totalCount
    requires LevelsDone(iter.h.cfg, cs, iter.step, first, added, iter.cumulativeCount)
    ensures iter.h.totalCount < 0x8000_0000 ==> Prefix(added, |added|) == iter.h.totalCount
  {
    hide Describes, LowestEquivalent, ValueAtIndex, CountsIndexFor, AddedPerLevel;
    AllVisited(iter.h.cfg, cs, iter.h.totalCount, iter.h.minValue, iter.h.maxValue, iter.h.recorded,
               SlotsUpTo(iter.h.cfg, cs, iter.step, first, |added|));
  }

  // ----- Prefix sums of a described histogram -----

  lemma TotalCovers(c: Config, counts: seq<int>, total: int, minValue: int, maxValue: int, m: multiset<int>)
    requires Describes(c, counts, total, minValue, maxValue, m)
    ensures total == Prefix(counts, |counts|) && total >= 0 && AllNonNegative(counts)
  {
    hide Calculated, MaxTracks, MinTracks, InRange, ValueAtIndex;
    DescribedShape(c, counts, total, minValue, maxValue, m);
    forall i | 0 <= i < |counts|
      ensures counts[i] >= 0
    {
      assert counts[i] == CountIn(m, ValueAtIndex(c, i), ValueAtIndex(c, i + 1));
    }
  }

  lemma {:induction false} PrefixOverZeros(s: seq<int>, m: nat, n: nat)
    requires m <= n <= |s| && forall k | m <= k < n :: s[k] == 0
    ensures Prefix(s, m) == Prefix(s, n)
    decreases n
  {
    if m < n {
      PrefixOverZeros(s, m, n - 1);
    }
  }

  lemma PrefixOfAppend(s: seq<int>, x: int)
    ensures Prefix(s + [x], |s| + 1) == Prefix(s, |s|) + x
  {
    PrefixLocal(s, s + [x], |s|);
  }

  lemma {:induction false} PrefixLocal(s: seq<int>, t: seq<int>, n: nat)
    requires n <= |s| && n <= |t| && forall k | 0 <= k < n :: s[k] == t[k]
    ensures Prefix(s, n) == Prefix(t, n)
  {
    if n != 0 {
      PrefixLocal(s, t, n - 1);
    }
  }

  lemma AllVisited(c: Config, counts: seq<int>, total: int, minValue: int, maxValue: int, m: multiset<int>, n: nat)
    requires Describes(c, counts, total, minValue, maxValue, m)
    requires n <= |counts| && Prefix(counts, n) >= Int32Of(total)
    ensures total < 0x8000_0000 ==> Prefix(counts, n) == total
  {
    TotalCovers(c, counts, total, minValue, maxValue, m);
    PrefixMonotone(counts, n, |counts|);
    Int32AtMost(total);
  }
}
