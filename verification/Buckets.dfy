/** The bucket layout of an HDR histogram: how a value is turned into an index of
    the counts array and back, and why the buckets tile the value range. */
module Buckets {
  import opened Bits

  const INT64_MAX: int := 0x7fff_ffff_ffff_ffff

  datatype Config = Config(
    lowestTrackable: nat,
    highestTrackable: nat,
    significantFigures: nat,
    unitMagnitude: nat,
    subBucketHalfCountMagnitude: nat,
    subBucketHalfCount: nat,
    subBucketCount: nat,
    subBucketMask: nat,
    bucketCount: nat,
    countsLen: nat)
  {
    // The relations between the fields that the index arithmetic relies on.
    ghost predicate WellFormed() {
      && subBucketHalfCount == Pow2(subBucketHalfCountMagnitude)
      && subBucketCount == 2 * subBucketHalfCount
      && subBucketMask == (subBucketCount - 1) * Pow2(unitMagnitude)
      && bucketCount >= 1
      && countsLen == (bucketCount + 1) * subBucketHalfCount
    }

    // The first value the counts array has no room for.
    ghost function Limit(): nat
      requires bucketCount >= 1
    {
      subBucketCount * Pow2(unitMagnitude + bucketCount - 1)
    }
  }

  // ----- Index functions -----

  function BucketIndex(c: Config, value: nat): nat
    requires c.WellFormed()
  {
    BucketIndexLength(c, value);
    BitLength(BitOr(value, c.subBucketMask)) - c.unitMagnitude - (c.subBucketHalfCountMagnitude + 1)
  }

  function SubBucketIndex(value: nat, bucketIndex: nat, unitMagnitude: nat): nat {
    ShiftRight(value, bucketIndex + unitMagnitude)
  }

  function CountsIndex(c: Config, bucketIndex: nat, subBucketIndex: nat): int {
    var bucketBaseIndex := ShiftLeft(bucketIndex + 1, c.subBucketHalfCountMagnitude);
    var offsetInBucket := subBucketIndex - c.subBucketHalfCount;
    bucketBaseIndex + offsetInBucket
  }

  function ValueFromIndex(bucketIndex: nat, subBucketIndex: nat, unitMagnitude: nat): nat {
    ShiftLeft(subBucketIndex, bucketIndex + unitMagnitude)
  }

  function CountsIndexFor(c: Config, value: nat): int
    requires c.WellFormed()
  {
    var bucketIndex := BucketIndex(c, value);
    CountsIndex(c, bucketIndex, SubBucketIndex(value, bucketIndex, c.unitMagnitude))
  }

  function ValueAtIndex(c: Config, index: nat): nat
    requires c.WellFormed()
  {
    var bucketIndex := ShiftRight(index, c.subBucketHalfCountMagnitude) - 1;
    var subBucketIndex := index % c.subBucketHalfCount + c.subBucketHalfCount;
    if bucketIndex < 0 then
      ValueFromIndex(0, subBucketIndex - c.subBucketHalfCount, c.unitMagnitude)
    else
      ValueFromIndex(bucketIndex, subBucketIndex, c.unitMagnitude)
  }

  function SizeOfEquivalentRange(c: Config, value: nat): nat
    requires c.WellFormed()
  {
    var bucketIndex := BucketIndex(c, value);
    var subBucketIndex := SubBucketIndex(value, bucketIndex, c.unitMagnitude);
    var adjustedBucket := if subBucketIndex >= c.subBucketCount then bucketIndex + 1 else bucketIndex;
    ShiftLeft(1, c.unitMagnitude + adjustedBucket)
  }

  function LowestEquivalent(c: Config, value: nat): nat
    requires c.WellFormed()
  {
    var bucketIndex := BucketIndex(c, value);
    ValueFromIndex(bucketIndex, SubBucketIndex(value, bucketIndex, c.unitMagnitude), c.unitMagnitude)
  }

  function NextNonEquivalent(c: Config, value: nat): nat
    requires c.WellFormed()
  {
    LowestEquivalent(c, value) + SizeOfEquivalentRange(c, value)
  }

  function HighestEquivalent(c: Config, value: nat): int
    requires c.WellFormed()
  {
    NextNonEquivalent(c, value) - 1
  }

  function MedianEquivalent(c: Config, value: nat): nat
    requires c.WellFormed()
  {
    LowestEquivalent(c, value) + SizeOfEquivalentRange(c, value) / 2
  }

  // ----- Where a value falls -----

  lemma BucketIndexLength(c: Config, value: nat)
    requires c.WellFormed()
    ensures var k := c.unitMagnitude + c.subBucketHalfCountMagnitude + 1;
            BitLength(BitOr(value, c.subBucketMask)) == if BitLength(value) >= k then BitLength(value) else k
  {
    var k := c.unitMagnitude + c.subBucketHalfCountMagnitude + 1;
    BitLengthOfOr(value, c.subBucketMask);
    MaskLength(c);
  }

  // The mask covers exactly the sub-bucket bits above the unit bits.
  lemma MaskLength(c: Config)
    requires c.WellFormed()
    ensures BitLength(c.subBucketMask) == c.unitMagnitude + c.subBucketHalfCountMagnitude + 1
  {
    hide Pow2, BitLength;
    var u, h := c.unitMagnitude, c.subBucketHalfCountMagnitude;
    MaskSpans(h, u);
    BitLengthBelow(c.subBucketMask, u + h + 1);
    BitLengthBelow(c.subBucketMask, u + h);
  }

  lemma MaskSpans(h: nat, u: nat)
    ensures Pow2(u + h) <= (2 * Pow2(h) - 1) * Pow2(u) < Pow2(u + h + 1)
  {
    Pow2Sum(h, u);
    TwiceLessOne(Pow2(h), Pow2(u));
    Pow2Increases(u, u + h);
  }

  lemma TwiceLessOne(p: int, q: int)
    ensures (2 * p - 1) * q == 2 * (p * q) - q
  {
  }

  // The bucket of a value is the first whose sub-buckets reach beyond it.
  lemma BucketCovers(c: Config, value: nat)
    requires c.WellFormed()
    ensures var w := Pow2(c.unitMagnitude + BucketIndex(c, value));
            && value < c.subBucketCount * w
            && (BucketIndex(c, value) > 0 ==> c.subBucketHalfCount * w <= value)
  {
    hide BucketIndex, BitLength;
    var u, h := c.unitMagnitude, c.subBucketHalfCountMagnitude;
    var b := BucketIndex(c, value);
    BucketIndexMeans(c, value);
    assert c.subBucketCount == Pow2(h + 1);
    hide Pow2;
    BitLengthBelow(value, h + 1 + (u + b));
    BitLengthBelow(value, h + (u + b));
    Pow2Sum(h + 1, u + b);
    Pow2Sum(h, u + b);
  }

  lemma BucketIndexMeans(c: Config, value: nat)
    requires c.WellFormed()
    ensures var k := c.unitMagnitude + c.subBucketHalfCountMagnitude + 1;
            k + BucketIndex(c, value) == if BitLength(value) >= k then BitLength(value) else k
  {
    hide BitLength;
    BucketIndexLength(c, value);
  }

  // A value of bucket b fills the top bit of a sub-bucket index there, except in bucket 0.
  lemma BucketBounds(c: Config, value: nat)
    requires c.WellFormed()
    ensures var b := BucketIndex(c, value); var s := SubBucketIndex(value, b, c.unitMagnitude);
            && s < c.subBucketCount
            && (b > 0 ==> c.subBucketHalfCount <= s)
            && s * Pow2(c.unitMagnitude + b) <= value < s * Pow2(c.unitMagnitude + b) + Pow2(c.unitMagnitude + b)
  {
    BucketCovers(c, value);
    var w := Pow2(c.unitMagnitude + BucketIndex(c, value));
    QuotientBounds(value, w, c.subBucketCount);
    QuotientBounds(value, w, c.subBucketHalfCount);
  }

  // Sub-bucket s of bucket b has index b * half + s and starts at s units of its bucket.
  lemma StartOfSubBucket(c: Config, b: nat, s: nat)
    requires c.WellFormed()
    requires s < c.subBucketCount && (b > 0 ==> c.subBucketHalfCount <= s)
    ensures CountsIndex(c, b, s) == b * c.subBucketHalfCount + s
    ensures ValueAtIndex(c, b * c.subBucketHalfCount + s) == s * Pow2(c.unitMagnitude + b)
  {
    var half := c.subBucketHalfCount;
    var i := b * half + s;
    if s < half {
      QuotientUnique(i, half, 0);
    } else {
      assert i == (b + 1) * half + (s - half);
      QuotientUnique(i, half, b + 1);
      assert i % half == i - (b + 1) * half;
    }
  }

  // The bucket after sub-bucket s of bucket b starts where that sub-bucket ends.
  lemma StartOfNextSubBucket(c: Config, b: nat, s: nat)
    requires c.WellFormed()
    requires s < c.subBucketCount && (b > 0 ==> c.subBucketHalfCount <= s)
    ensures ValueAtIndex(c, b * c.subBucketHalfCount + s + 1) == (s + 1) * Pow2(c.unitMagnitude + b)
  {
    hide ValueAtIndex, CountsIndex;
    if s + 1 < c.subBucketCount {
      StartOfSubBucket(c, b, s + 1);
    } else {
      var half := c.subBucketHalfCount;
      StartOfSubBucket(c, b + 1, half);
      assert (b + 1) * half + half == b * half + s + 1;
      assert half * Pow2(c.unitMagnitude + (b + 1)) == (s + 1) * Pow2(c.unitMagnitude + b) by {
        DoubledUnit(half, c.unitMagnitude + b);
      }
    }
  }

  lemma DoubledUnit(half: nat, k: nat)
    ensures half * Pow2(k + 1) == 2 * half * Pow2(k)
  {
  }

  // The sub-bucket an index denotes.
  lemma IndexSplits(c: Config, i: nat) returns (b: nat, s: nat)
    requires c.WellFormed()
    ensures s < c.subBucketCount && (b > 0 ==> c.subBucketHalfCount <= s)
    ensures i == b * c.subBucketHalfCount + s
  {
    var half := c.subBucketHalfCount;
    if i < half {
      b, s := 0, i;
    } else {
      b, s := i / half - 1, i % half + half;
      assert i == (b + 1) * half + i % half;
    }
  }

  // ----- The buckets tile the range -----

  lemma {:induction false} StartsIncrease(c: Config, i: nat, j: nat)
    requires c.WellFormed()
    requires i < j
    ensures ValueAtIndex(c, i) < ValueAtIndex(c, j)
    decreases j
  {
    hide ValueAtIndex, CountsIndex;
    var b, s := IndexSplits(c, j - 1);
    StartOfSubBucket(c, b, s);
    StartOfNextSubBucket(c, b, s);
    if i < j - 1 {
      StartsIncrease(c, i, j - 1);
    }
  }

  lemma NextUnit(s: nat, w: nat)
    ensures (s + 1) * w == s * w + w
  {
  }

  lemma IndexOfValue(c: Config, value: nat)
    requires c.WellFormed()
    ensures CountsIndexFor(c, value) >= 0
    ensures LowestEquivalent(c, value) == ValueAtIndex(c, CountsIndexFor(c, value)) <= value
    ensures NextNonEquivalent(c, value) == ValueAtIndex(c, CountsIndexFor(c, value) + 1) > value
  {
    hide ValueAtIndex, BucketIndex, SubBucketIndex, CountsIndex, Pow2;
    var b := BucketIndex(c, value);
    var s := SubBucketIndex(value, b, c.unitMagnitude);
    BucketBounds(c, value);
    StartOfSubBucket(c, b, s);
    StartOfNextSubBucket(c, b, s);
    NextUnit(s, Pow2(c.unitMagnitude + b));
  }

  // Main result: index i holds exactly the values from its start up to the next start.
  lemma BucketsTile(c: Config, value: nat, i: nat)
    requires c.WellFormed()
    ensures CountsIndexFor(c, value) == i <==> ValueAtIndex(c, i) <= value < ValueAtIndex(c, i + 1)
  {
    hide ValueAtIndex, CountsIndexFor;
    IndexOfValue(c, value);
    var k := CountsIndexFor(c, value);
    if k < i {
      if k + 1 < i { StartsIncrease(c, k + 1, i); }
    } else if i < k {
      if i + 1 < k { StartsIncrease(c, i + 1, k); }
    }
  }

  lemma IndexInvertsStart(c: Config, i: nat)
    requires c.WellFormed()
    ensures CountsIndexFor(c, ValueAtIndex(c, i)) == i
    ensures LowestEquivalent(c, ValueAtIndex(c, i)) == ValueAtIndex(c, i)
    ensures NextNonEquivalent(c, ValueAtIndex(c, i)) == ValueAtIndex(c, i + 1)
  {
    hide ValueAtIndex, CountsIndexFor, NextNonEquivalent, LowestEquivalent;
    StartsIncrease(c, i, i + 1);
    BucketsTile(c, ValueAtIndex(c, i), i);
    IndexOfValue(c, ValueAtIndex(c, i));
  }

  lemma IndexMonotone(c: Config, v: nat, w: nat)
    requires c.WellFormed()
    requires v <= w
    ensures 0 <= CountsIndexFor(c, v) <= CountsIndexFor(c, w)
  {
    hide ValueAtIndex, CountsIndexFor, NextNonEquivalent, LowestEquivalent;
    IndexOfValue(c, v);
    IndexOfValue(c, w);
    var i, j := CountsIndexFor(c, v), CountsIndexFor(c, w);
    if j < i && j + 1 < i {
      StartsIncrease(c, j + 1, i);
    }
  }

  // Values are equivalent exactly when they share an index.
  lemma EquivalentIffSameIndex(c: Config, v: nat, w: nat)
    requires c.WellFormed()
    ensures LowestEquivalent(c, v) == LowestEquivalent(c, w) <==> CountsIndexFor(c, v) == CountsIndexFor(c, w)
    ensures CountsIndexFor(c, v) == CountsIndexFor(c, w) ==> HighestEquivalent(c, v) == HighestEquivalent(c, w)
    ensures CountsIndexFor(c, v) < CountsIndexFor(c, w) ==> HighestEquivalent(c, v) < LowestEquivalent(c, w)
  {
    hide ValueAtIndex, CountsIndexFor, NextNonEquivalent, LowestEquivalent;
    IndexOfValue(c, v);
    IndexOfValue(c, w);
    var i, j := CountsIndexFor(c, v), CountsIndexFor(c, w);
    if i < j {
      StartsIncrease(c, i, j);
      if i + 1 < j { StartsIncrease(c, i + 1, j); }
    } else if j < i {
      StartsIncrease(c, j, i);
    }
  }

  // The values equivalent to v are those from the lowest to the highest, and the median is in their middle.
  lemma EquivalentRange(c: Config, v: nat, w: nat)
    requires c.WellFormed()
    ensures LowestEquivalent(c, v) == LowestEquivalent(c, w) <==>
              LowestEquivalent(c, v) <= w <= HighestEquivalent(c, v)
    ensures MedianEquivalent(c, v) == (LowestEquivalent(c, v) + HighestEquivalent(c, v) + 1) / 2
  {
    hide ValueAtIndex, CountsIndexFor, LowestEquivalent;
    IndexOfValue(c, v);
    EquivalentIffSameIndex(c, v, w);
    BucketsTile(c, w, CountsIndexFor(c, v));
  }

  lemma StartOfRange(c: Config)
    requires c.WellFormed()
    ensures ValueAtIndex(c, 0) == 0
    ensures ValueAtIndex(c, 1) == Pow2(c.unitMagnitude)
    ensures ValueAtIndex(c, c.countsLen) == c.Limit()
  {
    hide ValueAtIndex, CountsIndex;
    StartOfSubBucket(c, 0, 0);
    StartOfNextSubBucket(c, 0, 0);
    var b, s := c.bucketCount - 1, c.subBucketCount - 1;
    StartOfNextSubBucket(c, b, s);
    assert b * c.subBucketHalfCount + 2 * c.subBucketHalfCount == (b + 2) * c.subBucketHalfCount;
    assert b * c.subBucketHalfCount + s + 1 == c.countsLen;
    assert (s + 1) * Pow2(c.unitMagnitude + b) == c.Limit();
  }

  // A value has a slot in the counts array exactly when it is below the limit.
  lemma AcceptedIffBelowLimit(c: Config, value: nat)
    requires c.WellFormed()
    ensures 0 <= CountsIndexFor(c, value)
    ensures CountsIndexFor(c, value) < c.countsLen <==> value < c.Limit()
  {
    hide ValueAtIndex, CountsIndexFor, NextNonEquivalent, LowestEquivalent;
    IndexOfValue(c, value);
    StartOfRange(c);
    var i := CountsIndexFor(c, value);
    if i + 1 < c.countsLen {
      StartsIncrease(c, i + 1, c.countsLen);
    } else if c.countsLen < i {
      StartsIncrease(c, c.countsLen, i);
    }
  }
}
