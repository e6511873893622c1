/** How a histogram's bucket layout is derived from the range and precision it is
    asked for, and the precision and coverage that layout achieves. */
module BucketConfig {
  import opened Bits
  import opened Buckets
  import opened Wrappers

  function Pow10(n: nat): (r: nat)
    ensures r >= 1
  {
    if n == 0 then 1 else 10 * Pow10(n - 1)
  }

  // Arguments the source accepts.
  predicate Acceptable(lowest: int, highest: int, figures: int) {
    && lowest >= 1
    && 1 <= figures <= 5
    && lowest * 2 <= highest
  }

  // Arguments for which shifting the sub-bucket mask by the unit magnitude stays
  // inside a signed 64-bit integer; beyond them the C shift is undefined.
  predicate ShiftsDefined(lowest: int, figures: int) {
    lowest >= 1 && 1 <= figures <= 5 ==>
      FloorLog2(lowest) + CeilLog2(2 * Pow10(figures)) <= 62
  }

  // What a layout for these arguments has to be; ConfigIsUnique shows there is only one.
  ghost predicate IsConfigFor(c: Config, lowest: nat, highest: nat, figures: nat) {
    && c.WellFormed()
    && c.lowestTrackable == lowest && c.highestTrackable == highest && c.significantFigures == figures
    && Pow2(c.unitMagnitude) <= lowest < Pow2(c.unitMagnitude + 1)
    && Pow2(c.subBucketHalfCountMagnitude) < 2 * Pow10(figures) <= Pow2(c.subBucketHalfCountMagnitude + 1)
    && c.unitMagnitude + c.subBucketHalfCountMagnitude + 1 <= 62
    && highest < c.Limit()
    && (c.bucketCount > 1 ==> c.subBucketCount * Pow2(c.unitMagnitude + c.bucketCount - 2) <= highest)
  }

  ghost predicate Calculated(c: Config) {
    && Acceptable(c.lowestTrackable, c.highestTrackable, c.significantFigures)
    && IsConfigFor(c, c.lowestTrackable, c.highestTrackable, c.significantFigures)
    && c.highestTrackable <= INT64_MAX
  }

  method Power(base: int, exp: nat) returns (result: int)
    requires base == 10
    ensures result == Pow10(exp)
  {
    result := 1;
    var left := exp;
    while left != 0
      invariant result * Pow10(left) == Pow10(exp)
    {
      result := result * base;
      left := left - 1;
    }
  }

  // The least number of buckets whose range reaches beyond the value.
  method BucketsNeededToCover(value: int, subBucketCount: nat, unitMagnitude: nat) returns (bucketsNeeded: nat)
    requires subBucketCount >= 1 && 0 <= value <= INT64_MAX
    ensures bucketsNeeded >= 1
    ensures value < ShiftLeft(subBucketCount, unitMagnitude + bucketsNeeded - 1)
    ensures bucketsNeeded > 1 ==> ShiftLeft(subBucketCount, unitMagnitude + bucketsNeeded - 2) <= value
  {
    var smallestUntrackable := ShiftLeft(subBucketCount, unitMagnitude);
    assert smallestUntrackable >= 1;
    bucketsNeeded := 1;
    hide ShiftLeft;
    while smallestUntrackable <= value
      invariant bucketsNeeded >= 1
      invariant smallestUntrackable == ShiftLeft(subBucketCount, unitMagnitude + bucketsNeeded - 1) >= 1
      invariant bucketsNeeded > 1 ==> ShiftLeft(subBucketCount, unitMagnitude + bucketsNeeded - 2) <= value
      decreases value - smallestUntrackable
    {
      ShiftOneMore(subBucketCount, unitMagnitude + bucketsNeeded - 1);
      if smallestUntrackable > INT64_MAX / 2 {
        bucketsNeeded := bucketsNeeded + 1;
        return;
      }
      smallestUntrackable := smallestUntrackable * 2;
      bucketsNeeded := bucketsNeeded + 1;
    }
  }

  lemma ShiftOneMore(v: nat, k: nat)
    ensures ShiftLeft(v, k + 1) == 2 * ShiftLeft(v, k)
  {
    DoubledUnit(v, k);
  }

  method CalculateBucketConfig(lowest: int, highest: int, figures: int) returns (r: Option<Config>)
    requires highest <= INT64_MAX
    requires Acceptable(lowest, highest, figures) ==> ShiftsDefined(lowest, figures)
    ensures r.Some? <==> lowest >= 1 && 1 <= figures <= 5 && 2 * lowest <= highest
    ensures r.Some? ==> IsConfigFor(r.value, lowest, highest, figures)
  {
    if lowest < 1 || figures < 1 || 5 < figures {
      return None;
    } else if lowest * 2 > highest {
      return None;
    }
    var power := Power(10, figures);
    var largestWithSingleUnitResolution := 2 * power;
    var subBucketCountMagnitude := CeilLog2(largestWithSingleUnitResolution);
    ResolutionMagnitude(figures);
    var halfMagnitude := (if subBucketCountMagnitude > 1 then subBucketCountMagnitude else 1) - 1;
    var unitMagnitude := FloorLog2(lowest);
    var subBucketCount := Pow2(halfMagnitude + 1);
    var bucketCount := BucketsNeededToCover(highest, subBucketCount, unitMagnitude);
    LayoutMeetsRequest(lowest, highest, figures, unitMagnitude, halfMagnitude, bucketCount);
    r := Some(Layout(lowest, highest, figures, unitMagnitude, halfMagnitude, bucketCount));
  }

  // The configuration record, from the magnitudes and the bucket count.
  function Layout(lowest: nat, highest: nat, figures: nat, unitMagnitude: nat, halfMagnitude: nat,
                  bucketCount: nat): Config
  {
    var subBucketCount := Pow2(halfMagnitude + 1);
    var subBucketHalfCount := subBucketCount / 2;
    var subBucketMask := (subBucketCount - 1) * Pow2(unitMagnitude);
    var countsLen := (bucketCount + 1) * (subBucketCount / 2);
    Config(lowest, highest, figures, unitMagnitude, halfMagnitude, subBucketHalfCount,
           subBucketCount, subBucketMask, bucketCount, countsLen)
  }

  lemma LayoutMeetsRequest(lowest: nat, highest: nat, figures: nat, unitMagnitude: nat, halfMagnitude: nat,
                           bucketCount: nat)
    requires 1 <= figures <= 5 && lowest >= 1 && bucketCount >= 1
    requires unitMagnitude == FloorLog2(lowest) && halfMagnitude + 1 == CeilLog2(2 * Pow10(figures))
    requires unitMagnitude + halfMagnitude + 1 <= 62
    requires highest < Pow2(halfMagnitude + 1) * Pow2(unitMagnitude + bucketCount - 1)
    requires bucketCount > 1 ==> Pow2(halfMagnitude + 1) * Pow2(unitMagnitude + bucketCount - 2) <= highest
    ensures IsConfigFor(Layout(lowest, highest, figures, unitMagnitude, halfMagnitude, bucketCount),
                        lowest, highest, figures)
  {
    assert Pow2(unitMagnitude) <= lowest < Pow2(unitMagnitude + 1) by {
      BitLengthBelow(lowest, unitMagnitude);
      BitLengthBelow(lowest, unitMagnitude + 1);
    }
    ResolutionMagnitude(figures);
    var c := Layout(lowest, highest, figures, unitMagnitude, halfMagnitude, bucketCount);
    assert c.subBucketHalfCount == Pow2(halfMagnitude) && c.WellFormed();
  }

  // Twice the resolution lies strictly between two adjacent powers of two.
  lemma ResolutionMagnitude(figures: nat)
    requires 1 <= figures <= 5
    ensures var m := CeilLog2(2 * Pow10(figures)); m > 1 && Pow2(m - 1) < 2 * Pow10(figures) <= Pow2(m)
  {
    var x := 2 * Pow10(figures);
    var m := CeilLog2(x);
    assert x >= 20;
    BitLengthBelow(x - 1, 1);
    assert Pow2(1) == 2;
    BitLengthBelow(x - 1, m);
    BitLengthBelow(x - 1, m - 1);
  }

  lemma MagnitudeUnique(m: nat, n: nat, x: int)
    requires Pow2(m) <= x < Pow2(m + 1) && Pow2(n) <= x < Pow2(n + 1)
    ensures m == n
  {
    Pow2Ordered(m, n + 1);
    Pow2Ordered(n, m + 1);
  }

  // The layout is determined by the three numbers it was asked for.
  lemma ConfigIsUnique(c: Config, d: Config, lowest: nat, highest: nat, figures: nat)
    requires IsConfigFor(c, lowest, highest, figures) && IsConfigFor(d, lowest, highest, figures)
    ensures c == d
  {
    MagnitudeUnique(c.unitMagnitude, d.unitMagnitude, lowest);
    MagnitudeUnique(c.subBucketHalfCountMagnitude, d.subBucketHalfCountMagnitude, 2 * Pow10(figures) - 1);
    BucketCountNotLess(c, d, lowest, highest, figures);
    BucketCountNotLess(d, c, lowest, highest, figures);
  }

  lemma BucketCountNotLess(c: Config, d: Config, lowest: nat, highest: nat, figures: nat)
    requires IsConfigFor(c, lowest, highest, figures) && IsConfigFor(d, lowest, highest, figures)
    requires c.unitMagnitude == d.unitMagnitude && c.subBucketCount == d.subBucketCount
    ensures c.bucketCount <= d.bucketCount
  {
    if d.bucketCount < c.bucketCount {
      var a, b := Pow2(c.unitMagnitude + d.bucketCount - 1), Pow2(c.unitMagnitude + c.bucketCount - 2);
      assert a <= b by { Pow2Increases(c.unitMagnitude + d.bucketCount - 1, c.unitMagnitude + c.bucketCount - 2); }
      MulMonotone(a, b, c.subBucketCount);
    }
  }

  // Every value that gets a slot fits a signed 64-bit integer.
  lemma LimitFits(c: Config)
    requires Calculated(c)
    ensures c.highestTrackable < c.Limit() <= INT64_MAX + 1
  {
    var u, h, n := c.unitMagnitude, c.subBucketHalfCountMagnitude, c.bucketCount;
    Pow2Sum(h + 1, u + n - 1);
    assert c.Limit() == Pow2(h + u + n);
    Pow2Of63();
    if n > 1 {
      Pow2Sum(h + 1, u + n - 2);
      Pow2Ordered(h + u + n - 1, 63);
    }
    Pow2Increases(h + u + n, 63);
  }

  lemma Pow2Of63()
    ensures Pow2(63) == INT64_MAX + 1
  {
    assert Pow2(9) == 512;
    Pow2Sum(9, 9);
    assert Pow2(18) == 0x4_0000;
    Pow2Sum(18, 9);
    assert Pow2(27) == 0x800_0000;
    Pow2Sum(18, 18);
    Pow2Sum(36, 27);
  }

  // Half the sub-buckets are enough for the requested number of decimal figures.
  lemma HalfCountResolves(c: Config)
    requires Calculated(c)
    ensures Pow10(c.significantFigures) <= c.subBucketHalfCount
  {
  }

  // Main result: a bucket is one unit wide, or narrow relative to every value in it.
  lemma PrecisionBound(c: Config, value: nat)
    requires Calculated(c)
    ensures SubBucketIndex(value, BucketIndex(c, value), c.unitMagnitude) < c.subBucketCount
    ensures var width := SizeOfEquivalentRange(c, value);
            || width == Pow2(c.unitMagnitude) <= c.lowestTrackable
            || width * Pow10(c.significantFigures) <= value
  {
    BucketBounds(c, value);
    HalfCountResolves(c);
    var b := BucketIndex(c, value);
    var s := SubBucketIndex(value, b, c.unitMagnitude);
    var width := Pow2(c.unitMagnitude + b);
    if b > 0 {
      assert width * Pow10(c.significantFigures) <= s * width by {
        MulMonotone(Pow10(c.significantFigures), s, width);
      }
    }
  }
}
