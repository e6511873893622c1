/** What hdr_min, hdr_max and hdr_value_at_percentile say about the recorded values. */
module Queries {
  import opened Bits
  import opened Buckets
  import opened BucketConfig
  import opened Samples
  import opened Descriptions
  import opened Histograms
  import opened Iterators

  // ----- Extremes -----

  // hdr_max is the top of the largest value's bucket, except that it answers 0 for
  // recordings of nothing but 0 when bucket 0 is wider than one unit.
  lemma MaxIsTopOfLargest(h: Histogram, v: int)
    requires h.Valid() && IsLargest(h.recorded, v)
    ensures v > 0 ==> h.Max() == HighestEquivalent(h.cfg, v)
    ensures h.Max() == HighestEquivalent(h.cfg, v) <==> h.maxValue > 0 || h.cfg.unitMagnitude == 0
    ensures v == 0 && h.maxValue == 0 ==> h.Max() == 0
  {
    hide ValueAtIndex, CountsIndexFor, LowestEquivalent, NextNonEquivalent;
    var c := h.cfg;
    if h.maxValue == 0 {
      StartOfRange(c);
      BucketsTile(c, 0, 0);
      IndexOfValue(c, 0);
      assert HighestEquivalent(c, 0) == Pow2(c.unitMagnitude) - 1;
      Pow2Ordered(0, c.unitMagnitude);
    } else {
      var w :| w in h.recorded && CountsIndexFor(c, w) == CountsIndexFor(c, h.maxValue);
      IndexMonotone(c, w, v);
      EquivalentIffSameIndex(c, v, h.maxValue);
    }
  }

  lemma MaxOfEmpty(h: Histogram)
    requires h.Valid() && h.recorded == multiset{}
    ensures h.Max() == 0 && h.Min() == INT64_MAX
  {
    hide ValueAtIndex, CountsIndexFor, LowestEquivalent, NextNonEquivalent;
    CountInOfEmpty(ValueAtIndex(h.cfg, 0), ValueAtIndex(h.cfg, 1));
    HasSlots(h.cfg);
    assert h.counts[0] == h.counts[..][0];
  }

  // hdr_min is the bottom of the smallest value's bucket, except that INT64_MAX, the mark
  // for "empty", is not seen when it is all that was recorded.
  lemma MinIsBottomOfSmallest(h: Histogram, v: int)
    requires h.Valid() && IsSmallest(h.recorded, v)
    ensures h.Min() == LowestEquivalent(h.cfg, v) <==> !(v == INT64_MAX && h.minValue == INT64_MAX)
    ensures v == INT64_MAX && h.minValue == INT64_MAX ==> h.Min() == INT64_MAX
  {
    hide ValueAtIndex, CountsIndexFor, LowestEquivalent, NextNonEquivalent;
    var c := h.cfg;
    HasSlots(c);
    StartOfRange(c);
    IndexOfValue(c, v);
    BucketsTile(c, v, 0);
    FirstSlotCounts(c, h.counts[..], h.recorded, v);
    assert h.counts[0] == h.counts[..][0];
    if CountsIndexFor(c, v) > 0 {
      if h.minValue == INT64_MAX {
        LargestIsNoStart(c);
      } else {
        var w :| w in h.recorded && CountsIndexFor(c, w) == CountsIndexFor(c, h.minValue);
        IndexMonotone(c, v, w);
        EquivalentIffSameIndex(c, v, h.minValue);
      }
    } else if v == INT64_MAX {
      LargestIsNoStart(c);
      IndexOfLargest(c);
    }
  }

  lemma FirstSlotCounts(c: Config, counts: seq<int>, m: multiset<int>, v: int)
    requires c.WellFormed() && |counts| > 0 && Tallies(c, counts, m) && InRange(c, m) && IsSmallest(m, v)
    ensures counts[0] > 0 <==> CountsIndexFor(c, v) == 0
  {
    hide ValueAtIndex, CountsIndexFor;
    CountInPositive(m, ValueAtIndex(c, 0), ValueAtIndex(c, 1));
    StartOfRange(c);
    BucketsTile(c, v, 0);
  }

  // INT64_MAX is odd and its bucket is wider than one unit, so no bucket starts there.
  lemma LargestIsNoStart(c: Config)
    requires Calculated(c)
    ensures LowestEquivalent(c, INT64_MAX) != INT64_MAX
  {
    hide BucketIndex, SubBucketIndex, LowestEquivalent, Pow2, ShiftLeft;
    var b := BucketIndex(c, INT64_MAX);
    var s := SubBucketIndex(INT64_MAX, b, c.unitMagnitude);
    SubBucketInside(c, INT64_MAX);
    StartOfBucketOf(c, INT64_MAX);
    var k := c.unitMagnitude + b;
    if k == 0 {
      UnitBucketIsLow(c, s);
      LargestNeedsBits(c.subBucketHalfCountMagnitude + 1);
    } else {
      StartIsEven(s, k);
    }
  }

  lemma SubBucketInside(c: Config, v: nat)
    requires c.WellFormed()
    ensures SubBucketIndex(v, BucketIndex(c, v), c.unitMagnitude) < c.subBucketCount
  {
    hide BucketIndex, SubBucketIndex, Pow2;
    BucketBounds(c, v);
  }

  lemma StartOfBucketOf(c: Config, v: nat)
    requires c.WellFormed()
    ensures var b := BucketIndex(c, v);
            LowestEquivalent(c, v) == SubBucketIndex(v, b, c.unitMagnitude) * Pow2(c.unitMagnitude + b)
  {
    hide BucketIndex, SubBucketIndex, Pow2;
  }

  lemma UnitBucketIsLow(c: Config, s: nat)
    requires Calculated(c) && s < c.subBucketCount
    ensures s * Pow2(0) < Pow2(c.subBucketHalfCountMagnitude + 1)
  {
  }

  lemma LargestNeedsBits(n: nat)
    requires n <= 62
    ensures Pow2(n) < INT64_MAX
  {
    Pow2Of63();
    Pow2Increases(n, 62);
    assert Pow2(63) == 2 * Pow2(62);
  }

  lemma StartIsEven(s: nat, k: nat)
    requires k > 0
    ensures s * Pow2(k) % 2 == 0
  {
    assert s * Pow2(k) == 2 * (s * Pow2(k - 1));
  }

  lemma IndexOfLargest(c: Config)
    requires Calculated(c)
    ensures CountsIndexFor(c, INT64_MAX) > 0
  {
    hide ValueAtIndex, CountsIndexFor, LowestEquivalent, NextNonEquivalent;
    StartOfRange(c);
    IndexOfValue(c, INT64_MAX);
    BucketsTile(c, INT64_MAX, 0);
    LargestNeedsBits(c.unitMagnitude);
  }

  // ----- Extremes of histograms that were only recorded into -----

  // hdr_max answers the top of the largest value's bucket exactly when that value is nonzero or a bucket
  // is one unit wide; else it answers 0.
  lemma MaxOfRecorded(h: Histogram, v: int)
    requires h.Valid() && h.Exact() && IsLargest(h.recorded, v)
    ensures h.Max() == HighestEquivalent(h.cfg, v) <==> v > 0 || h.cfg.unitMagnitude == 0
    ensures v == 0 ==> h.Max() == 0
  {
    hide HighestEquivalent, ValueAtIndex, CountsIndexFor, LowestEquivalent, NextNonEquivalent, Tallies;
    MaxIsTopOfLargest(h, v);
  }

  // hdr_min answers the bottom of the smallest value's bucket exactly when that value is not INT64_MAX;
  // else it answers INT64_MAX.
  lemma MinOfRecorded(h: Histogram, v: int)
    requires h.Valid() && h.Exact() && IsSmallest(h.recorded, v)
    ensures h.Min() == LowestEquivalent(h.cfg, v) <==> v != INT64_MAX
    ensures v == INT64_MAX ==> h.Min() == INT64_MAX
  {
    hide HighestEquivalent, ValueAtIndex, CountsIndexFor, LowestEquivalent, NextNonEquivalent, Tallies;
    MinIsBottomOfSmallest(h, v);
  }

  // What the marks for "nothing recorded" stand for.
  lemma MarksMean(h: Histogram)
    requires h.Valid() && h.Exact()
    ensures h.maxValue == 0 <==> forall v | v in h.recorded :: v == 0
    ensures h.Min() == INT64_MAX <==> forall v | v in h.recorded :: v == INT64_MAX
  {
    hide HighestEquivalent, ValueAtIndex, CountsIndexFor, LowestEquivalent, NextNonEquivalent, Tallies, MaxTracks,
         MinTracks;
    if |h.recorded| == 0 {
      assert h.recorded == multiset{};
      MaxOfEmpty(h);
    } else {
      var v := Smallest(h.recorded);
      forall w | w in h.recorded
        ensures w <= INT64_MAX
      {
        RecordedHasSlot(h, w);
      }
      RecordedHasSlot(h, v);
      MinOfRecorded(h, v);
    }
  }

  lemma RecordedHasSlot(h: Histogram, v: int)
    requires h.Valid() && v in h.recorded
    ensures 0 <= v <= INT64_MAX && LowestEquivalent(h.cfg, v) <= v
    ensures v != INT64_MAX ==> LowestEquivalent(h.cfg, v) != INT64_MAX
  {
    hide ValueAtIndex, CountsIndexFor, LowestEquivalent, NextNonEquivalent, Tallies, MaxTracks, MinTracks;
    FitsWithLimit(h.cfg, v);
    IndexOfValue(h.cfg, v);
  }

  lemma {:induction false} Smallest(m: multiset<int>) returns (v: int)
    requires |m| > 0
    ensures IsSmallest(m, v)
    decreases |m|
  {
    assert (forall w :: w !in m) ==> m == multiset{};
    v :| v in m;
    var rest := m - multiset{v};
    if |rest| > 0 {
      var w := Smallest(rest);
      assert forall x | x in m :: x == v || x in rest;
      v := if w < v then w else v;
    } else {
      assert forall x | x in m && x != v :: x in rest;
    }
  }

  // A histogram that was given INT64_MAX alone, and answers as if it were empty.
  method LargestIsHidden() returns (h: Histogram)
    ensures fresh(h) && h.Valid() && h.recorded == multiset{INT64_MAX}
    ensures h.Min() == INT64_MAX != LowestEquivalent(h.cfg, INT64_MAX)
  {
    hide Describes, CountsIndexFor, LowestEquivalent, HighestEquivalent, ValueAtIndex, IsConfigFor;
    WidestShifts();
    var cfg := CalculateBucketConfig(1, INT64_MAX, 3);
    WidestLayout(cfg.value);
    h := new Histogram(cfg.value);
    var ok := h.RecordValues(INT64_MAX, 1);
    MinOfRecorded(h, INT64_MAX);
  }

  lemma WidestShifts()
    ensures ShiftsDefined(1, 3) && Acceptable(1, INT64_MAX, 3)
  {
    BitLengthBelow(1, 1);
    BitLengthBelow(2 * Pow10(3) - 1, 11);
    assert Pow10(3) == 1000 && Pow2(1) == 2 && Pow2(11) == 2048;
  }

  lemma WidestLayout(c: Config)
    requires IsConfigFor(c, 1, INT64_MAX, 3)
    ensures Calculated(c) && INT64_MAX < c.Limit()
  {
    WidestShifts();
  }

  // In every layout with buckets wider than one unit, a histogram that was given 0 alone hides it.
  method ZerosAreHidden(c: Config) returns (h: Histogram)
    requires Calculated(c) && c.unitMagnitude > 0
    ensures fresh(h) && h.Valid() && h.cfg == c && h.recorded == multiset{0}
    ensures h.Max() == 0 != HighestEquivalent(c, 0)
  {
    hide Describes, CountsIndexFor, LowestEquivalent, HighestEquivalent, ValueAtIndex;
    h := new Histogram(c);
    LimitFits(c);
    var ok := h.RecordValues(0, 1);
    MaxOfRecorded(h, 0);
  }

  // A recording of no copies is accepted and records nothing, yet the extremes take the value in: they no
  // longer describe what was recorded.
  method NoCopiesMoveExtremes(c: Config) returns (h: Histogram)
    requires Calculated(c)
    ensures fresh(h) && h.recorded == multiset{} && h.totalCount == 0
    ensures h.minValue == h.maxValue == 1 && !h.Valid()
  {
    hide CountsIndexFor, LowestEquivalent, HighestEquivalent, ValueAtIndex, Calculated, Tallies;
    LayoutHasOne(c);
    h := new Histogram(c);
    var ok := h.RecordValues(1, 0);
  }

  lemma LayoutHasOne(c: Config)
    requires Calculated(c)
    ensures c.WellFormed() && 1 < c.Limit() && 1 < INT64_MAX
  {
  }

  // ----- Percentiles -----

  // The rank a percentile asks for among total recorded values, each operation on doubles rounded.
  function Rank(round: real -> real, percentile: real, total: int): int {
    var countAtPercentile := Position(round, Requested(percentile), total).Floor;
    if countAtPercentile > 1 then countAtPercentile else 1
  }

  function Requested(percentile: real): real {
    if percentile < 100.0 then percentile else 100.0
  }

  function Position(round: real -> real, requested: real, total: int): real {
    round(round(Times(round(requested / 100.0), round(Whole(total)))) + 0.5)
  }

  function Times(x: real, y: real): real { x * y }

  const TWO_TO_52 := 0x10_0000_0000_0000

  // Some reals that are doubles: halves up to 2^52 and integers up to 2^53.
  ghost predicate IsKept(x: real) {
    exists n | 0 <= n <= 2 * TWO_TO_52 :: x == Whole(n) || x == Half(n)
  }

  function Whole(n: int): real { n as real }

  function Half(n: int): real { n as real / 2.0 }

  // Half the distance of 1.0 from the next double.
  const UNIT: real := 1.0 / (2 * TWO_TO_52) as real

  predicate Near(x: real, y: real, error: real) {
    -error <= x - y <= error
  }

  // What is used of rounding to doubles: it is monotone, its relative error is at most 2^-53 but for tiny
  // numbers, it keeps the doubles above, and between 2^52 and 2^53 it takes a half to the even neighbour.
  ghost predicate Rounds(round: real -> real) {
    && (forall x, y | x <= y :: round(x) <= round(y))
    && (forall x | 0.0 <= x <= Whole(2 * TWO_TO_52) :: Near(round(x), x, Times(x, UNIT) + Times(UNIT, UNIT)))
    && (forall x | IsKept(x) :: round(x) == x)
    && (forall n | TWO_TO_52 <= n < 2 * TWO_TO_52 ::
          round(Whole(n) + 0.5) == Whole(if n % 2 == 0 then n else n + 1))
  }

  // There is such a rounding.
  function ToEven(x: real): real {
    if x < Whole(TWO_TO_52) then x
    else
      var n := x.Floor;
      Whole(if x < Whole(n) + 0.5 || (x == Whole(n) + 0.5 && n % 2 == 0) then n else n + 1)
  }

  lemma RoundingExists()
    ensures Rounds(ToEven)
  {
    hide ToEven, IsKept;
    forall x, y | x <= y
      ensures ToEven(x) <= ToEven(y)
    {
      ToEvenInOrder(x, y);
    }
    forall x | 0.0 <= x <= Whole(2 * TWO_TO_52)
      ensures Near(ToEven(x), x, Times(x, UNIT) + Times(UNIT, UNIT))
    {
      ToEvenIsNear(x);
    }
    forall x | IsKept(x)
      ensures ToEven(x) == x
    {
      ToEvenKeeps(x);
    }
    forall n | TWO_TO_52 <= n < 2 * TWO_TO_52
      ensures ToEven(Whole(n) + 0.5) == Whole(if n % 2 == 0 then n else n + 1)
    {
      HalfToEven(n);
    }
  }

  lemma ToEvenInOrder(x: real, y: real)
    requires x <= y
    ensures ToEven(x) <= ToEven(y)
  {
    if x.Floor < y.Floor {
      assert x < Whole(x.Floor + 1) <= y;
    }
  }

  lemma ToEvenIsNear(x: real)
    requires x >= 0.0
    ensures Near(ToEven(x), x, Times(x, UNIT) + Times(UNIT, UNIT))
  {
    if x >= Whole(TWO_TO_52) {
      assert Near(ToEven(x), x, 0.5);
      assert x * UNIT >= 0.5;
    }
  }

  lemma ToEvenKeeps(x: real)
    requires IsKept(x)
    ensures ToEven(x) == x
  {
    var n :| 0 <= n <= 2 * TWO_TO_52 && (x == Whole(n) || x == Half(n));
    if x == Whole(n) {
      assert x.Floor == n;
    } else if n == 2 * TWO_TO_52 {
      assert x.Floor == TWO_TO_52;
    }
  }

  lemma HalfToEven(n: int)
    requires TWO_TO_52 <= n < 2 * TWO_TO_52
    ensures ToEven(Whole(n) + 0.5) == Whole(if n % 2 == 0 then n else n + 1)
  {
    assert (Whole(n) + 0.5).Floor == n;
  }

  lemma Kept(round: real -> real, n: int)
    requires Rounds(round) && 0 <= n <= 2 * TWO_TO_52
    ensures round(Whole(n)) == Whole(n) && round(Half(n)) == Half(n)
  {
    assert IsKept(Whole(n)) && IsKept(Half(n));
  }

  lemma RoundedInOrder(round: real -> real, x: real, y: real)
    requires Rounds(round) && x <= y
    ensures round(x) <= round(y)
  {
  }

  lemma RankMonotone(round: real -> real, p: real, q: real, total: int)
    requires Rounds(round) && p <= q && total >= 0
    ensures Rank(round, p, total) <= Rank(round, q, total)
  {
    hide Rounds, Position;
    PositionMonotone(round, Requested(p), Requested(q), total);
  }

  lemma PositionMonotone(round: real -> real, p: real, q: real, total: int)
    requires Rounds(round) && p <= q && total >= 0
    ensures Position(round, p, total) <= Position(round, q, total)
  {
    hide Rounds, Times;
    var t := round(Whole(total));
    Kept(round, 0);
    RoundedInOrder(round, Whole(0), Whole(total));
    RoundedInOrder(round, p / 100.0, q / 100.0);
    TimesMonotone(round(p / 100.0), round(q / 100.0), t);
    var a, b := Times(round(p / 100.0), t), Times(round(q / 100.0), t);
    RoundedInOrder(round, a, b);
    RoundedInOrder(round, round(a) + 0.5, round(b) + 0.5);
  }

  lemma TimesMonotone(a: real, b: real, t: real)
    requires a <= b && t >= 0.0
    ensures Times(a, t) <= Times(b, t)
  {
    assert (b - a) * t >= 0.0;
  }

  // Below 2^52 the rank is always one of a recorded value, and that of percentile 100 is the last.
  lemma RankInRange(round: real -> real, p: real, total: int)
    requires Rounds(round) && 1 <= total < TWO_TO_52
    ensures 1 <= Rank(round, p, total) <= total == Rank(round, 100.0, total)
  {
    hide Rounds, Position;
    RankOfAll(round, total);
    PositionMonotone(round, Requested(p), 100.0, total);
  }

  // From there to 2^53, percentile 100 asks for one value more than there are, exactly for odd totals.
  lemma RankOfAll(round: real -> real, total: int)
    requires Rounds(round) && 1 <= total < 2 * TWO_TO_52
    ensures Rank(round, 100.0, total) == if total < TWO_TO_52 || total % 2 == 0 then total else total + 1
  {
    hide Rounds, Position;
    PositionOfAll(round, total);
  }

  lemma PositionOfAll(round: real -> real, total: int)
    requires Rounds(round) && 1 <= total < 2 * TWO_TO_52
    ensures Position(round, 100.0, total) ==
            if total < TWO_TO_52 then Whole(total) + 0.5
            else Whole(if total % 2 == 0 then total else total + 1)
  {
    hide IsKept;
    Kept(round, 1);
    Kept(round, total);
    assert 100.0 / 100.0 == Whole(1) && Times(Whole(1), Whole(total)) == Whole(total);
    if total < TWO_TO_52 {
      Kept(round, 2 * total + 1);
      assert Half(2 * total + 1) == Whole(total) + 0.5;
    }
  }

  // The same without rounding.
  function ExactPosition(requested: real, total: int): real {
    Times(requested / 100.0, Whole(total)) + 0.5
  }

  function RankError(total: int): real { (3 * total + 2) as real * UNIT }

  function AtLeastOne(n: int): int {
    if n > 1 then n else 1
  }

  // k is p * total / 100 + 1/2 cut to an integer, give or take the error of the arithmetic, hence at most
  // one off for up to 2^51 values.
  ghost predicate IsNearRank(p: real, total: int, k: int) {
    var exact := p * total as real / 100.0 + 0.5;
    var error := (3 * total + 2) as real / 9007199254740992.0;
    && AtLeastOne((exact - error).Floor) <= k <= AtLeastOne((exact + error).Floor)
    && (total <= 2251799813685248 ==> -1 <= k - AtLeastOne(exact.Floor) <= 1)
  }

  // k is the rank of percentile p among total values: the first below 0, the last from 100 on, or one
  // behind it.
  ghost predicate IsRankFor(p: real, total: int, k: int) {
    && k >= 1
    && (p < 0.0 && total >= 0 ==> k == 1)
    && (0.0 <= p <= 100.0 && 1 <= total < 4503599627370496 ==> IsNearRank(p, total, k))
    && (p >= 100.0 && 1 <= total < 9007199254740992 ==>
          k == if total < 4503599627370496 || total % 2 == 0 then total else total + 1)
  }

  // Main result on ranks: the rounded one is as near to p * total / 100 + 1/2 as the arithmetic allows.
  lemma RankIsNear(round: real -> real, p: real, total: int)
    requires Rounds(round)
    ensures IsRankFor(p, total, Rank(round, p, total))
  {
    hide Rounds, Position, Rank, IsNearRank;
    RankPositive(round, p, total);
    if p < 0.0 && total >= 0 {
      RankBelowZero(round, p, total);
    }
    if 0.0 <= p <= 100.0 && 1 <= total < TWO_TO_52 {
      RankWithin(round, p, total);
    }
    if p >= 100.0 && 1 <= total < 2 * TWO_TO_52 {
      RankOfAll(round, total);
      RankFromHundred(round, p, total);
    }
  }

  lemma RankFromHundred(round: real -> real, p: real, total: int)
    requires p >= 100.0
    ensures Rank(round, p, total) == Rank(round, 100.0, total)
  {
  }

  lemma RankWithin(round: real -> real, p: real, total: int)
    requires Rounds(round) && 0.0 <= p <= 100.0 && 1 <= total < TWO_TO_52
    ensures IsNearRank(p, total, Rank(round, p, total))
  {
    hide Rounds, Position, ExactPosition;
    PositionIsNear(round, p, total);
    ExactPositionIs(p, total);
    assert Requested(p) == p;
    assert RankError(total) == (3 * total + 2) as real / 9007199254740992.0;
    assert total <= 2251799813685248 ==> RankError(total) < 1.0;
  }

  lemma ExactPositionIs(p: real, total: int)
    ensures ExactPosition(p, total) == p * total as real / 100.0 + 0.5
  {
  }

  // A percentile below zero asks for the first value.
  lemma RankBelowZero(round: real -> real, p: real, total: int)
    requires Rounds(round) && p < 0.0 && total >= 0
    ensures Rank(round, p, total) == 1
  {
    hide Rounds, Times, Position;
    PositionMonotone(round, p, 0.0, total);
    PositionOfZero(round, total);
  }

  lemma PositionOfZero(round: real -> real, total: int)
    requires Rounds(round)
    ensures Position(round, 0.0, total) == Half(1)
  {
    hide Rounds, Times;
    Kept(round, 0);
    Kept(round, 1);
    TimesOfOne(round(Whole(total)));
  }

  lemma PositionIsNear(round: real -> real, p: real, total: int)
    requires Rounds(round) && 0.0 <= p <= 100.0 && 1 <= total < TWO_TO_52
    ensures Near(Position(round, p, total), ExactPosition(p, total), RankError(total))
  {
    hide Rounds, Times;
    var q, t := p / 100.0, Whole(total);
    var a := round(q);
    Kept(round, 1);
    Kept(round, total);
    RoundedInOrder(round, q, Whole(1));
    RoundedNear(round, q);
    Kept(round, 0);
    RoundedInOrder(round, Whole(0), q);
    var uu := Times(UNIT, UNIT);
    TimesMonotone(q, 1.0, UNIT);
    TimesOfOne(UNIT);
    TimesNear(a, q, t, UNIT + uu);
    TimesOfSum(UNIT, uu, t);
    TimesSwapped(UNIT, t);
    TimesSwapped(uu, t);
    TimesMonotone(0.0, a, t);
    TimesMonotone(a, 1.0, t);
    TimesOfOne(t);
    var b := Times(a, t);
    RoundedNear(round, b);
    RoundedInOrder(round, b, Whole(total));
    RoundedInOrder(round, Whole(0), b);
    var s := round(b);
    RoundedNear(round, s + 0.5);
    TimesMonotone(b, t, UNIT);
    TimesMonotone(s, t, UNIT);
    TimesOfSum(s, 0.5, UNIT);
    ErrorTotal(total);
    ErrorsAdd(round(s + 0.5), s, b, Times(q, t), Times(t, UNIT), Times(b, UNIT), Times(s, UNIT), uu, Times(t, uu));
  }

  // The error of the product, of its rounding and of the sum's.
  lemma ErrorsAdd(x: real, s: real, b: real, e: real, tu: real, bu: real, su: real, uu: real, tuu: real)
    requires bu <= tu && su <= tu
    requires Near(b, e, tu + tuu) && Near(s, b, bu + uu) && Near(x, s + 0.5, su + 0.5 * UNIT + uu)
    ensures Near(x, e + 0.5, 3.0 * tu + 0.5 * UNIT + tuu + 2.0 * uu)
  {
  }

  lemma TimesOfSum(a: real, b: real, t: real)
    ensures Times(a + b, t) == Times(a, t) + Times(b, t)
  {
  }

  lemma TimesSwapped(a: real, b: real)
    ensures Times(a, b) == Times(b, a)
  {
  }

  lemma ErrorTotal(total: int)
    requires 1 <= total < TWO_TO_52
    ensures var t, uu := Whole(total), Times(UNIT, UNIT);
            3.0 * Times(t, UNIT) + 0.5 * UNIT + Times(t, uu) + 2.0 * uu <= RankError(total)
  {
    var t := Whole(total);
    assert Times(UNIT, UNIT) == UNIT * UNIT;
    assert t * UNIT + 2.0 * UNIT <= 1.5;
    assert (t * UNIT + 2.0 * UNIT) * UNIT <= 1.5 * UNIT;
    assert Times(t, Times(UNIT, UNIT)) == t * UNIT * UNIT;
  }

  lemma RoundedNear(round: real -> real, x: real)
    requires Rounds(round) && 0.0 <= x <= Whole(2 * TWO_TO_52)
    ensures Near(round(x), x, Times(x, UNIT) + Times(UNIT, UNIT))
  {
  }

  lemma TimesNear(a: real, b: real, t: real, error: real)
    requires Near(a, b, error) && t >= 0.0
    ensures Near(Times(a, t), Times(b, t), Times(error, t))
  {
    assert (a - b + error) * t >= 0.0 && (b - a + error) * t >= 0.0;
  }

  lemma TimesOfOne(t: real)
    ensures Times(0.0, t) == 0.0 && Times(0.5, t) == 0.5 * t && Times(1.0, t) == t
  {
  }

  // The loop of hdr_value_at_percentile, for whatever rank the floating-point arithmetic came to: the
  // highest value equivalent to the recorded value of that rank, or 0 when there are fewer values.
  method ValueAtRank(h: Histogram, countAtPercentile: int) returns (r: int)
    requires h.Valid() && countAtPercentile >= 1
    ensures countAtPercentile > h.totalCount ==> r == 0
    ensures countAtPercentile <= h.totalCount ==>
      exists v :: IsKthSmallest(h.recorded, countAtPercentile, v) && v >= 0 && r == HighestEquivalent(h.cfg, v)
  {
    hide Describes, Calculated, ValueAtIndex, HighestEquivalent, AtPosition;
    DescribedShape(h.cfg, h.counts[..], h.totalCount, h.minValue, h.maxValue, h.recorded);
    TotalCovers(h.cfg, h.counts[..], h.totalCount, h.minValue, h.maxValue, h.recorded);
    var iter := new Iter(h);
    var total := 0;
    var more := iter.AllValuesNext();
    while more
      invariant iter.Valid() && iter.countsIndex >= 0
      invariant total < countAtPercentile
      invariant more == (iter.countsIndex < h.counts.Length)
      invariant more ==> total == Prefix(h.counts[..], iter.countsIndex) && iter.count == h.counts[iter.countsIndex]
      invariant !more ==> total == Prefix(h.counts[..], h.counts.Length)
      decreases h.counts.Length - iter.countsIndex
    {
      SlotValue(h.cfg, h.counts[..], iter.countsIndex, iter.cumulativeCount, iter.value, iter.count);
      total := total + iter.count;
      if total >= countAtPercentile {
        var valueFromIndex := iter.value;
        PrefixMonotone(h.counts[..], iter.countsIndex + 1, h.counts.Length);
        PercentileSlot(h.cfg, h.counts[..], h.totalCount, h.minValue, h.maxValue, h.recorded, countAtPercentile,
                       iter.countsIndex);
        return HighestEquivalent(h.cfg, valueFromIndex);
      }
      more := iter.AllValuesNext();
    }
    r := 0;
  }

  // The highest value equivalent to the recorded value of the rank asked for: a recorded value for every
  // percentile as long as fewer than 2^52 are recorded.
  method ValueAtPercentile(h: Histogram, round: real -> real, percentile: real) returns (r: int, ghost k: int)
    requires h.Valid() && Rounds(round)
    ensures IsRankFor(percentile, h.totalCount, k)
    ensures k > h.totalCount ==> r == 0
    ensures k <= h.totalCount ==>
      exists v | IsKthSmallest(h.recorded, k, v) && v >= 0 :: r == HighestEquivalent(h.cfg, v)
    ensures h.totalCount < 4503599627370496 ==> (k <= h.totalCount <==> h.recorded != multiset{})
  {
    hide Calculated, ValueAtIndex, HighestEquivalent, Rank, Rounds, IsRankFor, Tallies, MaxTracks, MinTracks, Prefix;
    var countAtPercentile := Rank(round, percentile, h.totalCount);
    k := countAtPercentile;
    RankPositive(round, percentile, h.totalCount);
    RankIsNear(round, percentile, h.totalCount);
    if 1 <= h.totalCount < TWO_TO_52 {
      RankInRange(round, percentile, h.totalCount);
    }
    r := ValueAtRank(h, countAtPercentile);
  }

  lemma RankPositive(round: real -> real, p: real, total: int)
    ensures Rank(round, p, total) >= 1
  {
  }

  // A histogram of 2^52 + 1 recorded values whose percentile 100 is answered by 0.
  method LastValueIsMissed(c: Config, round: real -> real) returns (h: Histogram, r: int)
    requires Calculated(c) && Rounds(round)
    ensures fresh(h) && h.Valid() && h.cfg == c && h.recorded == multiset{}[1 := TWO_TO_52 + 1]
    ensures r == 0 != HighestEquivalent(c, 1)
  {
    hide Describes, CountsIndexFor, LowestEquivalent, HighestEquivalent, ValueAtIndex, Calculated, Rank, Rounds;
    LayoutHasOne(c);
    h := new Histogram(c);
    var ok := h.RecordValues(1, TWO_TO_52 + 1);
    ghost var k;
    r, k := ValueAtPercentile(h, round, 100.0);
    EquivalentOrder(c, 1);
  }

  // The running total over the slots is the number of values below the next slot's start.
  lemma {:induction false} PrefixCounts(c: Config, counts: seq<int>, m: multiset<int>, n: nat)
    requires c.WellFormed() && Tallies(c, counts, m) && n <= |counts|
    ensures Prefix(counts, n) == CountIn(m, 0, ValueAtIndex(c, n))
  {
    hide ValueAtIndex;
    StartOfRange(c);
    if n != 0 {
      PrefixCounts(c, counts, m, n - 1);
      if n > 1 { StartsIncrease(c, 0, n - 1); }
      StartsIncrease(c, n - 1, n);
      CountInSplit(m, 0, ValueAtIndex(c, n - 1), ValueAtIndex(c, n));
    }
  }

  // The slots from one up to another hold the recorded values between their starts, so each step of a
  // level iteration counts the recorded values between two reporting levels' buckets.
  lemma SlotsHoldValues(h: Histogram, lo: nat, hi: nat)
    requires h.Valid() && lo <= hi <= h.counts.Length
    ensures Prefix(h.counts[..], hi) - Prefix(h.counts[..], lo)
         == CountIn(h.recorded, ValueAtIndex(h.cfg, lo), ValueAtIndex(h.cfg, hi))
  {
    hide ValueAtIndex, MaxTracks, MinTracks;
    PrefixCounts(h.cfg, h.counts[..], h.recorded, lo);
    PrefixCounts(h.cfg, h.counts[..], h.recorded, hi);
    StartOfRange(h.cfg);
    if 0 < lo {
      StartsIncrease(h.cfg, 0, lo);
    }
    if lo < hi {
      StartsIncrease(h.cfg, lo, hi);
    }
    CountInSplit(h.recorded, 0, ValueAtIndex(h.cfg, lo), ValueAtIndex(h.cfg, hi));
  }

  lemma PercentileSlot(c: Config, counts: seq<int>, total: int, minValue: int, maxValue: int, m: multiset<int>,
        k: int, i: nat)
    requires Describes(c, counts, total, minValue, maxValue, m)
    requires i < |counts| && Prefix(counts, i) < k <= Prefix(counts, i + 1)
    ensures m != multiset{}
    ensures exists v | IsKthSmallest(m, k, v) && v >= 0 ::
              HighestEquivalent(c, v) == HighestEquivalent(c, ValueAtIndex(c, i))
  {
    hide ValueAtIndex, CountsIndexFor, HighestEquivalent;
    PrefixCounts(c, counts, m, i);
    PrefixCounts(c, counts, m, i + 1);
    StartsIncrease(c, i, i + 1);
    var v := KthSmallestInRange(m, k, ValueAtIndex(c, i), ValueAtIndex(c, i + 1));
    BucketsTile(c, v, i);
    IndexInvertsStart(c, i);
    EquivalentIffSameIndex(c, v, ValueAtIndex(c, i));
  }

  // A higher percentile never answers with a lower value.
  lemma PercentileMonotone(c: Config, m: multiset<int>, total: int, round: real -> real, p: real, q: real,
                           v: int, w: int)
    requires Rounds(round) && c.WellFormed() && total >= 0 && p <= q && v >= 0 && w >= 0
    requires IsKthSmallest(m, Rank(round, p, total), v) && IsKthSmallest(m, Rank(round, q, total), w)
    ensures v <= w && HighestEquivalent(c, v) <= HighestEquivalent(c, w)
  {
    hide CountsIndexFor, HighestEquivalent, LowestEquivalent, Rank, Rounds;
    RankMonotone(round, p, q, total);
    KthSmallestMonotone(m, Rank(round, p, total), v, Rank(round, q, total), w);
    IndexMonotone(c, v, w);
    EquivalentIffSameIndex(c, v, w);
    EquivalentOrder(c, w);
  }

  lemma EquivalentOrder(c: Config, v: nat)
    requires c.WellFormed()
    ensures LowestEquivalent(c, v) <= v <= HighestEquivalent(c, v)
  {
    IndexOfValue(c, v);
  }
}
