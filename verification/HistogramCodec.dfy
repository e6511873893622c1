/** Encoding a whole histogram and decoding it again: the header, the payload of counts, and
    what the decoded histogram answers. */
module HistogramCodec {
  import opened Bits
  import opened Buckets
  import opened BucketConfig
  import opened Samples
  import opened Bytes
  import opened Varint
  import opened Descriptions
  import opened Histograms
  import opened Iterators
  import opened Queries
  import opened WireFormat

  const V2_ENCODING_COOKIE: int := 0x1c84_9303
  const HDR_ENCODING_COOKIE_MISMATCH: int := -29998
  const HDR_INFLATE_FAIL: int := -29994
  const ENOMEM: int := 12

  datatype Header = Header(cookie: int, payloadLen: int, normalizingIndexOffset: int, significantFigures: int,
                           lowestTrackable: int, highestTrackable: int, conversionRatio: DoubleBits)

  // cookie & ~0xf0
  function CookieBase(cookie: int): int {
    cookie - cookie / 16 % 16 * 16
  }

  // ----- The header on the wire: seven fields, most significant byte first -----

  const HEADER_SIZE: nat := 40

  function Power256(n: nat): (r: nat)
    ensures r >= 1
  {
    if n == 0 then 1 else 256 * Power256(n - 1)
  }

  lemma EightBytes()
    ensures Power256(4) == 0x1_0000_0000 && Power256(8) == 0x1_0000_0000_0000_0000
  {
    assert Power256(8) == 256 * 256 * 256 * 256 * Power256(4);
  }

  function BytesOf(v: nat, n: nat): (r: seq<byte>)
    ensures |r| == n
  {
    if n == 0 then [] else BytesOf(v / 256, n - 1) + [v % 256]
  }

  function NumberOf(bytes: seq<byte>): (r: nat)
    ensures r < Power256(|bytes|)
  {
    if |bytes| == 0 then 0 else NumberOf(bytes[..|bytes| - 1]) * 256 + bytes[|bytes| - 1]
  }

  // The two's complement of a number as an unsigned one of n bytes, and back.
  predicate FitsBytes(v: int, n: nat) {
    -2 * v <= Power256(n) && 2 * v < Power256(n)
  }

  function Unsigned(v: int, n: nat): (u: int)
    requires FitsBytes(v, n)
    ensures 0 <= u < Power256(n)
  {
    if v < 0 then v + Power256(n) else v
  }

  function SignedOf(u: nat, n: nat): int {
    if 2 * u >= Power256(n) then u - Power256(n) else u
  }

  function Field(v: int, n: nat): (r: seq<byte>)
    requires FitsBytes(v, n)
    ensures |r| == n
  {
    BytesOf(Unsigned(v, n), n)
  }

  predicate OnWire(header: Header) {
    && FitsBytes(header.cookie, 4) && FitsBytes(header.payloadLen, 4) && FitsBytes(header.normalizingIndexOffset, 4)
    && FitsBytes(header.significantFigures, 4) && FitsBytes(header.lowestTrackable, 8)
    && FitsBytes(header.highestTrackable, 8)
  }

  function HeaderBytes(header: Header): seq<byte>
    requires OnWire(header)
  {
    Field(header.cookie, 4) + (Field(header.payloadLen, 4) + (Field(header.normalizingIndexOffset, 4)
      + (Field(header.significantFigures, 4) + (Field(header.lowestTrackable, 8)
      + (Field(header.highestTrackable, 8) + BytesOf(header.conversionRatio, 8))))))
  }

  function FieldAt(bytes: seq<byte>, at: nat, n: nat): (v: int)
    requires at + n <= |bytes|
    ensures 2 * v < Power256(n)
  {
    SignedOf(NumberOf(bytes[at..at + n]), n)
  }

  function HeaderOf(bytes: seq<byte>): Header
    requires |bytes| == HEADER_SIZE
  {
    EightBytes();
    Header(FieldAt(bytes, 0, 4), FieldAt(bytes, 4, 4), FieldAt(bytes, 8, 4), FieldAt(bytes, 12, 4),
           FieldAt(bytes, 16, 8), FieldAt(bytes, 24, 8), NumberOf(bytes[32..40]))
  }

  lemma {:induction false} NumberReadBack(v: nat, n: nat)
    requires v < Power256(n)
    ensures NumberOf(BytesOf(v, n)) == v
    decreases n
  {
    if n > 0 {
      NumberReadBack(v / 256, n - 1);
      assert BytesOf(v, n)[..n - 1] == BytesOf(v / 256, n - 1);
    }
  }

  lemma FieldReadBack(bytes: seq<byte>, at: nat, v: int, n: nat)
    requires FitsBytes(v, n) && FoundAt(bytes, at, Field(v, n))
    ensures at + n <= |bytes| && FieldAt(bytes, at, n) == v
  {
    NumberReadBack(Unsigned(v, n), n);
  }

  // A header comes back from its forty bytes.
  lemma HeaderReadBack(header: Header)
    requires OnWire(header)
    ensures |HeaderBytes(header)| == HEADER_SIZE && HeaderOf(HeaderBytes(header)) == header
  {
    hide Field, FieldAt, FitsBytes, BytesOf, NumberOf, Power256, FoundAt;
    var b := HeaderBytes(header);
    WholeFound(b);
    var f6 := BytesOf(header.conversionRatio, 8);
    var f5 := Field(header.highestTrackable, 8) + f6;
    var f4 := Field(header.lowestTrackable, 8) + f5;
    var f3 := Field(header.significantFigures, 4) + f4;
    var f2 := Field(header.normalizingIndexOffset, 4) + f3;
    var f1 := Field(header.payloadLen, 4) + f2;
    FoundSplit(b, 0, Field(header.cookie, 4), f1);
    FoundSplit(b, 4, Field(header.payloadLen, 4), f2);
    FoundSplit(b, 8, Field(header.normalizingIndexOffset, 4), f3);
    FoundSplit(b, 12, Field(header.significantFigures, 4), f4);
    FoundSplit(b, 16, Field(header.lowestTrackable, 8), f5);
    FoundSplit(b, 24, Field(header.highestTrackable, 8), f6);
    FieldReadBack(b, 0, header.cookie, 4);
    FieldReadBack(b, 4, header.payloadLen, 4);
    FieldReadBack(b, 8, header.normalizingIndexOffset, 4);
    FieldReadBack(b, 12, header.significantFigures, 4);
    FieldReadBack(b, 16, header.lowestTrackable, 8);
    FieldReadBack(b, 24, header.highestTrackable, 8);
    EightBytes();
    NumberReadBack(header.conversionRatio, 8);
    FoundThere(b, 32, f6);
  }

  lemma WholeFound(bytes: seq<byte>)
    ensures FoundAt(bytes, 0, bytes)
  {
  }

  lemma FoundThere(bytes: seq<byte>, at: nat, part: seq<byte>)
    requires FoundAt(bytes, at, part)
    ensures at + |part| <= |bytes| && bytes[at..at + |part|] == part
  {
  }

  // ----- The words of a header, as sums over its bytes -----

  function Word(bytes: seq<byte>, at: nat): (w: nat)
    requires at + 4 <= |bytes|
    ensures w < 0x1_0000_0000
  {
    var a: int, b: int, c: int, d: int := bytes[at], bytes[at + 1], bytes[at + 2], bytes[at + 3];
    a * 0x100_0000 + b * 0x1_0000 + c * 0x100 + d
  }

  function LongWord(bytes: seq<byte>, at: nat): (w: nat)
    requires at + 8 <= |bytes|
    ensures w < 0x1_0000_0000_0000_0000
  {
    Word(bytes, at) * 0x1_0000_0000 + Word(bytes, at + 4)
  }

  function Signed32(w: int): int {
    if w >= 0x8000_0000 then w - 0x1_0000_0000 else w
  }

  function Signed64(w: int): int {
    if w >= 0x8000_0000_0000_0000 then w - 0x1_0000_0000_0000_0000 else w
  }

  lemma OneMoreDigit(b: seq<byte>, n: nat)
    requires n < |b|
    ensures NumberOf(b[..n + 1]) == NumberOf(b[..n]) * 256 + b[n] && NumberOf(b[..0]) == 0
  {
    assert b[..n + 1][..n] == b[..n];
  }

  lemma FourDigits(b: seq<byte>)
    requires |b| >= 4
    ensures NumberOf(b[..4]) == Word(b, 0)
  {
    hide NumberOf;
    OneMoreDigit(b, 0);
    OneMoreDigit(b, 1);
    OneMoreDigit(b, 2);
    OneMoreDigit(b, 3);
  }

  lemma EightDigits(b: seq<byte>)
    requires |b| == 8
    ensures NumberOf(b) == LongWord(b, 0)
  {
    hide NumberOf;
    FourDigits(b);
    OneMoreDigit(b, 4);
    OneMoreDigit(b, 5);
    OneMoreDigit(b, 6);
    OneMoreDigit(b, 7);
    assert b[..8] == b;
  }

  lemma WordRead(bytes: seq<byte>, at: nat)
    requires at + 4 <= |bytes|
    ensures FieldAt(bytes, at, 4) == Signed32(Word(bytes, at))
  {
    hide NumberOf, Power256;
    EightBytes();
    var b := bytes[at..at + 4];
    FourDigits(b);
    assert b[..4] == b;
  }

  lemma LongWordRead(bytes: seq<byte>, at: nat)
    requires at + 8 <= |bytes|
    ensures NumberOf(bytes[at..at + 8]) == LongWord(bytes, at)
    ensures FieldAt(bytes, at, 8) == Signed64(LongWord(bytes, at))
  {
    hide NumberOf, Power256;
    EightBytes();
    EightDigits(bytes[at..at + 8]);
  }

  // What stands where in a header.
  lemma HeaderWords(bytes: seq<byte>)
    requires |bytes| == HEADER_SIZE
    ensures HeaderOf(bytes) ==
      Header(Signed32(Word(bytes, 0)), Signed32(Word(bytes, 4)), Signed32(Word(bytes, 8)), Signed32(Word(bytes, 12)),
             Signed64(LongWord(bytes, 16)), Signed64(LongWord(bytes, 24)), LongWord(bytes, 32))
  {
    hide FieldAt, NumberOf, Word, LongWord, Signed32, Signed64, Power256;
    WordRead(bytes, 0);
    WordRead(bytes, 4);
    WordRead(bytes, 8);
    WordRead(bytes, 12);
    LongWordRead(bytes, 16);
    LongWordRead(bytes, 24);
    LongWordRead(bytes, 32);
  }

  // The first word of a header this decoder takes: bits 4 to 7 may be anything.
  ghost predicate IsV2Word(w: int) {
    exists k | 0 <= k < 16 :: w == 0x1c84_9303 + 16 * k
  }

  lemma CookieTaken(w: int)
    requires 0 <= w < 0x1_0000_0000
    ensures CookieBase(Signed32(w)) == V2_ENCODING_COOKIE <==> IsV2Word(w)
  {
    if CookieBase(Signed32(w)) == V2_ENCODING_COOKIE {
      var k := w / 16 % 16;
      assert w == 0x1c84_9303 + 16 * k;
    }
    forall k | 0 <= k < 16 && w == 0x1c84_9303 + 16 * k
      ensures CookieBase(Signed32(w)) == V2_ENCODING_COOKIE
    {
      assert w / 16 == 0x1c8_4930 + k;
    }
  }

  // How many slots are written: up to the one of the largest value.
  function SlotsToMax(c: Config, maxValue: int): int
    requires c.WellFormed() && maxValue >= 0
  {
    var lenToMax := CountsIndexFor(c, maxValue) + 1;
    if lenToMax < c.countsLen then lenToMax else c.countsLen
  }

  // The inflated payload in a zeroed buffer that leaves room to read one number past its end.
  ghost function Buffered(payload: seq<byte>, payloadLen: nat): (r: seq<byte>)
    requires |payload| <= payloadLen
    ensures |r| == payloadLen + 9
  {
    payload + seq(payloadLen + 9 - |payload|, _ => 0)
  }

  // ----- What is left out holds nothing -----

  // No slot beyond the one of the largest value counts anything.
  lemma NothingAboveMax(c: Config, counts: seq<int>, total: int, minValue: int, maxValue: int, m: multiset<int>, i: nat)
    requires Describes(c, counts, total, minValue, maxValue, m)
    requires CountsIndexFor(c, maxValue) < i < |counts|
    ensures counts[i] == 0
  {
    hide CountsIndexFor, ValueAtIndex;
    CountInPositive(m, ValueAtIndex(c, i), ValueAtIndex(c, i + 1));
    if counts[i] != 0 {
      var v :| v in m && ValueAtIndex(c, i) <= v < ValueAtIndex(c, i + 1);
      BucketsTile(c, v, i);
    }
  }

  lemma AllSlotsWritten(h: Histogram)
    requires h.Valid() && IsCounts(h.counts[..])
    ensures var limit := SlotsToMax(h.cfg, h.maxValue);
            && 0 <= limit <= h.counts.Length
            && h.counts[..limit] + Zeros(h.counts.Length - limit) == h.counts[..]
  {
    hide CountsIndexFor, Describes;
    DescribedShape(h.cfg, h.counts[..], h.totalCount, h.minValue, h.maxValue, h.recorded);
    MaxHasSlot(h.cfg, h.counts[..], h.totalCount, h.minValue, h.maxValue, h.recorded);
    var limit := SlotsToMax(h.cfg, h.maxValue);
    forall i | limit <= i < h.counts.Length
      ensures h.counts[..][i] == 0
    {
      NothingAboveMax(h.cfg, h.counts[..], h.totalCount, h.minValue, h.maxValue, h.recorded, i);
    }
  }

  lemma MaxHasSlot(c: Config, counts: seq<int>, total: int, minValue: int, maxValue: int, m: multiset<int>)
    requires Describes(c, counts, total, minValue, maxValue, m)
    ensures c.WellFormed() && 0 <= maxValue && 0 <= CountsIndexFor(c, maxValue) < |counts|
  {
    AcceptedIffBelowLimit(c, maxValue);
  }

  // ----- The layout comes back -----

  lemma LayoutCanBeAskedFor(c: Config)
    requires Calculated(c)
    ensures Acceptable(c.lowestTrackable, c.highestTrackable, c.significantFigures)
    ensures ShiftsDefined(c.lowestTrackable, c.significantFigures)
  {
    hide BitLength, Pow10;
    var lowest, figures := c.lowestTrackable, c.significantFigures;
    BitLengthBelow(lowest, 0);
    BitLengthBelow(lowest, BitLength(lowest));
    BitLengthBelow(lowest, FloorLog2(lowest));
    MagnitudeUnique(c.unitMagnitude, FloorLog2(lowest), lowest);
    ResolutionMagnitude(figures);
    MagnitudeUnique(c.subBucketHalfCountMagnitude, CeilLog2(2 * Pow10(figures)) - 1, 2 * Pow10(figures) - 1);
  }

  // ----- What the decoded histogram answers -----

  // The slot of maxValue is the last that counts anything.
  lemma LastSlot(c: Config, counts: seq<int>, total: int, minValue: int, maxValue: int, m: multiset<int>)
    requires Describes(c, counts, total, minValue, maxValue, m) && total > 0
    ensures c.WellFormed() && 0 <= maxValue && 0 <= CountsIndexFor(c, maxValue) < |counts|
    ensures counts[CountsIndexFor(c, maxValue)] > 0
    ensures forall i | CountsIndexFor(c, maxValue) < i < |counts| :: counts[i] == 0
  {
    hide CountsIndexFor, ValueAtIndex;
    MaxHasSlot(c, counts, total, minValue, maxValue, m);
    var last := CountsIndexFor(c, maxValue);
    var v := Member(m);
    if maxValue != 0 {
      v :| v in m && CountsIndexFor(c, v) == last;
    }
    SlotOfMember(c, counts, m, v);
    forall i | last < i < |counts|
      ensures counts[i] == 0
    {
      NothingAboveMax(c, counts, total, minValue, maxValue, m, i);
    }
  }

  lemma Member(m: multiset<int>) returns (v: int)
    requires |m| > 0
    ensures v in m
  {
    assert (forall w :: w !in m) ==> m == multiset{};
    v :| v in m;
  }

  lemma SlotOfMember(c: Config, counts: seq<int>, m: multiset<int>, v: int)
    requires c.WellFormed() && Tallies(c, counts, m) && v in m && v >= 0 && CountsIndexFor(c, v) < |counts|
    ensures 0 <= CountsIndexFor(c, v) && counts[CountsIndexFor(c, v)] > 0
  {
    hide CountsIndexFor, ValueAtIndex;
    var i := CountsIndexFor(c, v);
    IndexOfValue(c, v);
    BucketsTile(c, v, i);
    CountInPositive(m, ValueAtIndex(c, i), ValueAtIndex(c, i + 1));
  }

  // Unless minValue is INT64_MAX, its slot is the first that counts anything, slot 0 aside.
  lemma FirstSlot(c: Config, counts: seq<int>, total: int, minValue: int, maxValue: int, m: multiset<int>)
    requires Describes(c, counts, total, minValue, maxValue, m) && |counts| > 0 && counts[0] == 0
    requires minValue != INT64_MAX
    ensures c.WellFormed() && 0 < minValue <= INT64_MAX && 0 < CountsIndexFor(c, minValue) < |counts|
    ensures counts[CountsIndexFor(c, minValue)] > 0
    ensures forall i | 0 <= i < CountsIndexFor(c, minValue) :: counts[i] == 0
  {
    hide CountsIndexFor, ValueAtIndex;
    var first := CountsIndexFor(c, minValue);
    var v :| v in m && CountsIndexFor(c, v) == first;
    AcceptedIffBelowLimit(c, v);
    SlotOfMember(c, counts, m, v);
    forall i | 0 <= i < first
      ensures counts[i] == 0
    {
      CountInPositive(m, ValueAtIndex(c, i), ValueAtIndex(c, i + 1));
      if counts[i] != 0 {
        var w :| w in m && ValueAtIndex(c, i) <= w < ValueAtIndex(c, i + 1);
        BucketsTile(c, w, i);
      }
    }
  }

  lemma SameMax(h: Histogram, g: Histogram)
    requires h.Valid() && g.Valid() && h.cfg == g.cfg && h.counts[..] == g.counts[..]
    requires h.totalCount > 0 && (g.maxValue == 0 ==> g.cfg.unitMagnitude == 0)
    ensures g.Max() == h.Max() <==> h.maxValue > 0 || h.cfg.unitMagnitude == 0
  {
    hide CountsIndexFor, ValueAtIndex, HighestEquivalent, Describes;
    DescribedTotals(h, g);
    LastSlot(h.cfg, h.counts[..], h.totalCount, h.minValue, h.maxValue, h.recorded);
    LastSlot(g.cfg, g.counts[..], g.totalCount, g.minValue, g.maxValue, g.recorded);
    EquivalentIffSameIndex(h.cfg, h.maxValue, g.maxValue);
    TopOfFirstSlot(h.cfg, h.maxValue);
    TopOfFirstSlot(h.cfg, g.maxValue);
  }

  lemma DescribedTotals(h: Histogram, g: Histogram)
    requires h.Valid() && g.Valid() && h.counts[..] == g.counts[..]
    ensures g.totalCount == h.totalCount >= 0
  {
    hide CountsIndexFor, ValueAtIndex, MaxTracks, MinTracks, Tallies;
  }

  lemma TopOfFirstSlot(c: Config, v: nat)
    requires c.WellFormed()
    ensures v <= HighestEquivalent(c, v)
    ensures CountsIndexFor(c, v) == CountsIndexFor(c, 0) ==> HighestEquivalent(c, v) == Pow2(c.unitMagnitude) - 1
    ensures Pow2(c.unitMagnitude) == 1 <==> c.unitMagnitude == 0
  {
    hide CountsIndexFor, ValueAtIndex;
    IndexOfValue(c, v);
    StartOfRange(c);
    BucketsTile(c, 0, 0);
    Pow2Ordered(0, c.unitMagnitude);
  }

  lemma CountsNonNegative(c: Config, counts: seq<int>, total: int, minValue: int, maxValue: int, m: multiset<int>)
    requires Describes(c, counts, total, minValue, maxValue, m)
    ensures AllNonNegative(counts)
  {
    hide MaxTracks, MinTracks, ValueAtIndex;
    forall i | 0 <= i < |counts|
      ensures counts[i] >= 0
    {
      assert counts[i] == CountIn(m, ValueAtIndex(c, i), ValueAtIndex(c, i + 1));
    }
  }

  // The fields as hdr_reset_internal_counters leaves them.
  ghost predicate IsRebuilt(c: Config, counts: seq<int>, total: int, maxValue: int, m: multiset<int>) {
    && c.WellFormed() && AllNonNegative(counts)
    && m == Representatives(c, counts, |counts|)
    && (maxValue == 0 ==> c.unitMagnitude == 0 || total == 0)
  }

  // INT64_MAX as minValue says that nothing else was recorded outside slot 0.
  lemma NoMinMeans(c: Config, counts: seq<int>, total: int, maxValue: int, m: multiset<int>, v: int)
    requires Describes(c, counts, total, INT64_MAX, maxValue, m) && |counts| > 0 && counts[0] == 0 && v in m
    ensures v == INT64_MAX
  {
    hide CountsIndexFor, ValueAtIndex, MaxTracks;
    AcceptedIffBelowLimit(c, v);
    SlotOfMember(c, counts, m, v);
  }

  // Rebuilding finds a smallest value: a bucket never starts at INT64_MAX.
  lemma RebuiltMinFound(c: Config, counts: seq<int>, total: int, minValue: int, maxValue: int, m: multiset<int>)
    requires Describes(c, counts, total, minValue, maxValue, m) && AllNonNegative(counts)
    requires c.WellFormed() && m == Representatives(c, counts, |counts|)
    requires total > 0 && |counts| > 0 && counts[0] == 0
    ensures minValue != INT64_MAX
  {
    hide CountsIndexFor, ValueAtIndex, LowestEquivalent, Representatives, MaxTracks, MinTracks, Tallies, Prefix,
         AllNonNegative;
    RepresentativesMembers(c, counts, |counts|);
    var v := Member(m);
    var i :| 0 <= i < |counts| && counts[i] > 0 && v == ValueAtIndex(c, i);
    IndexInvertsStart(c, i);
    LargestIsNoStart(c);
    if minValue == INT64_MAX {
      NoMinMeans(c, counts, total, maxValue, m, v);
    }
  }

  lemma BelowLargest(c: Config, v: nat)
    requires Calculated(c) && v <= INT64_MAX
    ensures LowestEquivalent(c, v) != INT64_MAX
  {
    hide CountsIndexFor, ValueAtIndex, LowestEquivalent, NextNonEquivalent;
    LargestIsNoStart(c);
    IndexOfValue(c, v);
  }

  // hdr_min in terms of the fields.
  function MinFrom(c: Config, first: int, minValue: int): int
    requires c.WellFormed() && minValue >= 0
  {
    if first > 0 then 0 else if minValue == INT64_MAX then INT64_MAX else LowestEquivalent(c, minValue)
  }

  lemma SameMin(c: Config, counts: seq<int>, total: int, minValue: int, maxValue: int, m: multiset<int>,
                total': int, minValue': int, maxValue': int, m': multiset<int>)
    requires Describes(c, counts, total, minValue, maxValue, m)
    requires Describes(c, counts, total', minValue', maxValue', m')
    requires c.WellFormed() && AllNonNegative(counts) && m' == Representatives(c, counts, |counts|)
    requires total == total' > 0 && |counts| > 0 && counts[0] >= 0 && minValue >= 0 && minValue' >= 0
    ensures MinFrom(c, counts[0], minValue') == MinFrom(c, counts[0], minValue) <==>
              MinFrom(c, counts[0], minValue) != INT64_MAX
  {
    hide CountsIndexFor, ValueAtIndex, LowestEquivalent, Describes, Representatives, AllNonNegative;
    if counts[0] == 0 {
      DescribedShape(c, counts, total, minValue, maxValue, m);
      RebuiltMinFound(c, counts, total', minValue', maxValue', m');
      FirstSlot(c, counts, total', minValue', maxValue', m');
      BelowLargest(c, minValue');
      if minValue != INT64_MAX {
        FirstSlot(c, counts, total, minValue, maxValue, m);
        EquivalentIffSameIndex(c, minValue, minValue');
      }
    }
  }

  // Two histograms with the same counts agree on the total, and on hdr_max and hdr_min up to the
  // two values the fields cannot tell apart from "nothing recorded".
  lemma SameCountsSameAnswers(h: Histogram, g: Histogram)
    requires h.Valid() && g.Valid() && h.cfg == g.cfg && h.counts[..] == g.counts[..]
    requires IsRebuilt(g.cfg, g.counts[..], g.totalCount, g.maxValue, g.recorded)
    ensures g.totalCount == h.totalCount
    ensures g.Max() == h.Max() <==> h.maxValue > 0 || h.totalCount == 0 || h.cfg.unitMagnitude == 0
    ensures g.Min() == h.Min() <==> h.Min() != INT64_MAX || h.totalCount == 0
  {
    hide CountsIndexFor, ValueAtIndex, HighestEquivalent, LowestEquivalent, Describes, Representatives, AllNonNegative;
    DescribedTotals(h, g);
    MinFromFields(h);
    MinFromFields(g);
    if h.totalCount == 0 {
      NothingRecorded(h);
      NothingRecorded(g);
    } else {
      SameMax(h, g);
      CountsNonNegative(h.cfg, h.counts[..], h.totalCount, h.minValue, h.maxValue, h.recorded);
      SameMin(h.cfg, h.counts[..], h.totalCount, h.minValue, h.maxValue, h.recorded,
              g.totalCount, g.minValue, g.maxValue, g.recorded);
    }
  }

  lemma MinFromFields(h: Histogram)
    requires h.Valid()
    ensures h.cfg.WellFormed() && h.counts.Length > 0 && h.minValue >= 0 && h.counts[0] >= 0
    ensures h.Min() == MinFrom(h.cfg, h.counts[0], h.minValue)
  {
    hide CountsIndexFor, ValueAtIndex, LowestEquivalent, MaxTracks, Tallies;
    HasSlots(h.cfg);
    CountsNonNegative(h.cfg, h.counts[..], h.totalCount, h.minValue, h.maxValue, h.recorded);
    assert h.counts[0] == h.counts[..][0];
  }

  lemma NothingRecorded(h: Histogram)
    requires h.Valid() && h.totalCount == 0
    ensures h.Max() == 0 && h.Min() == INT64_MAX
  {
    hide CountsIndexFor, ValueAtIndex, LowestEquivalent, HighestEquivalent, MaxTracks, MinTracks, Tallies;
    assert h.recorded == multiset{};
    MaxOfEmpty(h);
  }

  // ----- Encoding and decoding -----

  // The header put before a payload.
  function HeaderFor(c: Config, payloadLen: nat, conversionRatio: DoubleBits): Header {
    Header(V2_ENCODING_COOKIE + 0x10, payloadLen, 0, c.significantFigures, c.lowestTrackable, c.highestTrackable,
           conversionRatio)
  }

  // A layout has so few slots that the length of a payload fits its field.
  lemma PayloadFits(c: Config)
    requires Calculated(c)
    ensures 9 * c.countsLen < 0x8000_0000
  {
    hide Pow10;
    BucketsBounded(c);
    FiguresBounded(c.significantFigures);
    MulMonotone(c.bucketCount + 1, 64, c.subBucketHalfCount);
  }

  lemma BucketsBounded(c: Config)
    requires Calculated(c)
    ensures c.bucketCount <= 63
  {
    hide Pow10;
    var u, h, n := c.unitMagnitude, c.subBucketHalfCountMagnitude, c.bucketCount;
    LimitFits(c);
    assert c.subBucketCount == Pow2(h + 1);
    hide Pow2;
    Pow2Sum(h + 1, u + n - 1);
    Pow2Of63();
    Pow2Ordered(63, h + 1 + (u + n - 1));
  }

  lemma FiguresBounded(figures: nat)
    requires figures <= 5
    ensures Pow10(figures) <= 100000
  {
    assert Pow10(1) == 10 && Pow10(2) == 100 && Pow10(3) == 1000;
    assert Pow10(4) == 10 * Pow10(3) && Pow10(5) == 10 * Pow10(4);
  }

  // The header before such a payload fits its fields.
  lemma LayoutOnWire(c: Config, payloadLen: nat, conversionRatio: DoubleBits)
    requires Calculated(c) && payloadLen <= 9 * c.countsLen
    ensures OnWire(HeaderFor(c, payloadLen, conversionRatio))
  {
    hide IsConfigFor;
    EightBytes();
    PayloadFits(c);
  }

  lemma CookieIsV2(c: Config, payloadLen: nat, conversionRatio: DoubleBits)
    ensures CookieBase(HeaderFor(c, payloadLen, conversionRatio).cookie) == V2_ENCODING_COOKIE
  {
  }

  // What stands where in the header that is written.
  ghost predicate IsHeaderFor(bytes: seq<byte>, c: Config, payloadLen: nat, conversionRatio: int) {
    && |bytes| == 40
    && bytes[0..4] == [0x1c, 0x84, 0x93, 0x13]
    && Word(bytes, 4) == payloadLen && bytes[8..12] == [0, 0, 0, 0] && Word(bytes, 12) == c.significantFigures
    && LongWord(bytes, 16) == c.lowestTrackable && LongWord(bytes, 24) == c.highestTrackable
    && LongWord(bytes, 32) == conversionRatio
  }

  lemma HeaderStands(c: Config, payloadLen: nat, conversionRatio: DoubleBits)
    requires Calculated(c) && payloadLen <= 9 * c.countsLen
    requires OnWire(HeaderFor(c, payloadLen, conversionRatio))
    ensures IsHeaderFor(HeaderBytes(HeaderFor(c, payloadLen, conversionRatio)), c, payloadLen, conversionRatio)
  {
    hide HeaderBytes, HeaderOf, IsConfigFor, OnWire, Word, LongWord;
    var header := HeaderFor(c, payloadLen, conversionRatio);
    var bytes := HeaderBytes(header);
    PayloadFits(c);
    HeaderReadBack(header);
    HeaderWords(bytes);
    BytesOfWord(bytes, 0, 0x1c, 0x84, 0x93, 0x13);
    BytesOfWord(bytes, 8, 0, 0, 0, 0);
  }

  lemma BytesOfWord(bytes: seq<byte>, at: nat, a: byte, b: byte, c: byte, d: byte)
    requires at + 4 <= |bytes|
    ensures Word(bytes, at) == a * 0x100_0000 + b * 0x1_0000 + c * 0x100 + d ==> bytes[at..at + 4] == [a, b, c, d]
  {
    SameDigits(bytes[at], bytes[at + 1], bytes[at + 2], bytes[at + 3], a, b, c, d);
  }

  lemma SameDigits(p: int, q: int, r: int, s: int, a: int, b: int, c: int, d: int)
    requires 0 <= q < 256 && 0 <= r < 256 && 0 <= s < 256 && 0 <= b < 256 && 0 <= c < 256 && 0 <= d < 256
    ensures p * 0x100_0000 + q * 0x1_0000 + r * 0x100 + s == a * 0x100_0000 + b * 0x1_0000 + c * 0x100 + d ==>
      p == a && q == b && r == c && s == d
  {
  }

  // The payload of a histogram, whose counts may be anything its array holds.
  ghost function PayloadOf(h: Histogram): (payload: seq<byte>)
    requires h.Shaped() && h.maxValue >= 0 && AreInt64(h.counts[..])
    reads h, h.counts
    ensures |payload| <= 9 * h.counts.Length
  {
    SlotsInside(h.cfg, h.maxValue);
    EncodedFits(h.counts[..SlotsToMax(h.cfg, h.maxValue)]);
    Encoded(h.counts[..SlotsToMax(h.cfg, h.maxValue)])
  }

  // It has the slots up to the one of the largest value, or all.
  lemma PayloadSlots(h: Histogram)
    requires h.Shaped() && h.maxValue >= 0 && AreInt64(h.counts[..])
    ensures var i := CountsIndexFor(h.cfg, h.maxValue);
            && i >= 0
            && (i < h.counts.Length ==> PayloadOf(h) == Encoded(h.counts[..i + 1]))
            && (i >= h.counts.Length ==> PayloadOf(h) == Encoded(h.counts[..]))
  {
    hide Encoded, CountsIndexFor;
    SlotsInside(h.cfg, h.maxValue);
    assert h.counts[..h.counts.Length] == h.counts[..];
  }

  lemma SlotsInside(c: Config, maxValue: nat)
    requires c.WellFormed()
    ensures 0 <= SlotsToMax(c, maxValue) <= c.countsLen && CountsIndexFor(c, maxValue) >= 0
  {
    hide CountsIndexFor;
    IndexMonotone(c, maxValue, maxValue);
  }

  // Everything hdr_encode_compressed hands to the compressor: the header and the payload.
  method Encode(h: Histogram) returns (encoded: seq<byte>)
    requires h.Shaped() && h.maxValue >= 0 && AreInt64(h.counts[..])
    ensures var header := HeaderFor(h.cfg, |PayloadOf(h)|, h.conversionRatio);
            OnWire(header) && encoded == HeaderBytes(header) + PayloadOf(h)
    ensures |encoded| >= 40 && encoded[40..] == PayloadOf(h)
    ensures IsHeaderFor(encoded[..40], h.cfg, |encoded| - 40, h.conversionRatio)
    ensures var i := CountsIndexFor(h.cfg, h.maxValue);
            && i >= 0
            && (i < h.counts.Length ==> encoded[40..] == Encoded(h.counts[..i + 1]))
            && (i >= h.counts.Length ==> encoded[40..] == Encoded(h.counts[..]))
  {
    hide Encoded, CountsIndexFor, OnWire, Calculated, SlotsToMax, HeaderBytes, HeaderFor, IsHeaderFor;
    LayoutIsWellFormed(h.cfg);
    SlotsInside(h.cfg, h.maxValue);
    PayloadSlots(h);
    var countsLimit := SlotsToMax(h.cfg, h.maxValue);
    var buffer := new byte[9 * countsLimit](_ => 0);
    var payloadLen := EncodeCounts(h.counts, countsLimit, buffer);
    LayoutOnWire(h.cfg, payloadLen, h.conversionRatio);
    ghost var header := HeaderBytes(HeaderFor(h.cfg, payloadLen, h.conversionRatio));
    HeaderStands(h.cfg, payloadLen, h.conversionRatio);
    HeaderLength(header, h.cfg, payloadLen, h.conversionRatio);
    encoded := HeaderBytes(HeaderFor(h.cfg, payloadLen, h.conversionRatio)) + buffer[..payloadLen];
    assert encoded[..40] == header && encoded[40..] == buffer[..payloadLen];
  }

  lemma HeaderLength(bytes: seq<byte>, c: Config, payloadLen: nat, conversionRatio: int)
    requires IsHeaderFor(bytes, c, payloadLen, conversionRatio)
    ensures |bytes| == 40
  {
  }

  ghost predicate LaidOut(c: Config, header: Header) {
    && Acceptable(header.lowestTrackable, header.highestTrackable, header.significantFigures)
    && IsConfigFor(c, header.lowestTrackable, header.highestTrackable, header.significantFigures)
  }

  // The decoder gets past the header.
  ghost predicate HeaderTaken(header: Header) {
    && CookieBase(header.cookie) == V2_ENCODING_COOKIE
    && Acceptable(header.lowestTrackable, header.highestTrackable, header.significantFigures)
  }

  // What the decoder has to answer.
  ghost function DecodeError(header: Header, payload: seq<byte>, countsLen: nat): int
    requires HeaderTaken(header) ==> header.payloadLen >= 0
  {
    if CookieBase(header.cookie) != V2_ENCODING_COOKIE then HDR_ENCODING_COOKIE_MISMATCH
    else if !Acceptable(header.lowestTrackable, header.highestTrackable, header.significantFigures) then ENOMEM
    else if |payload| > header.payloadLen then HDR_INFLATE_FAIL
    else Applied(Buffered(payload, header.payloadLen), header.payloadLen, 0, Zeros(countsLen), 0).error
  }

  // What decoding the payload for that layout has to yield.
  ghost predicate IsDecoded(c: Config, counts: seq<int>, header: Header, payload: seq<byte>) {
    && LaidOut(c, header)
    && 0 <= header.payloadLen && |payload| <= header.payloadLen
    && counts == Applied(Buffered(payload, header.payloadLen), header.payloadLen, 0, Zeros(c.countsLen), 0).counts
  }

  // Decoding into a histogram of that layout.
  method DecodeInto(cfg: Config, header: Header, payload: seq<byte>) returns (error: int, g: Histogram?)
    requires Calculated(cfg) && header.payloadLen >= 0
    requires LaidOut(cfg, header)
    requires CookieBase(header.cookie) == V2_ENCODING_COOKIE
    ensures error == DecodeError(header, payload, cfg.countsLen)
    ensures error == 0 <==> g != null
    ensures g != null ==> fresh(g) && fresh(g.counts) && g.Valid()
    ensures g != null ==> g.cfg == cfg && IsDecoded(g.cfg, g.counts[..], header, payload)
    ensures g != null ==> g.conversionRatio == header.conversionRatio
    ensures g != null ==> IsRebuilt(g.cfg, g.counts[..], g.totalCount, g.maxValue, g.recorded)
  {
    hide Describes, Representatives, Applied, IsConfigFor, AllNonNegative, Prefix;
    var histogram := new Histogram(cfg);
    if |payload| > header.payloadLen {
      return HDR_INFLATE_FAIL, null;
    }
    var data := new byte[header.payloadLen + 9](i => if 0 <= i < |payload| then payload[i] else 0);
    assert data[..] == Buffered(payload, header.payloadLen);
    FreshCounts(histogram);
    AppliedNonNegative(data[..], header.payloadLen, 0, histogram.counts[..], 0);
    var r := ApplyToCounts(histogram.counts, data, header.payloadLen);
    if r != 0 {
      return r, null;
    }
    histogram.conversionRatio := header.conversionRatio;
    histogram.ResetInternalCounters();
    DescribedShape(cfg, histogram.counts[..], histogram.totalCount, histogram.minValue, histogram.maxValue,
        histogram.recorded);
    return 0, histogram;
  }

  lemma FreshCounts(h: Histogram)
    requires h.Valid() && h.recorded == multiset{}
    ensures h.counts.Length == h.cfg.countsLen
    ensures h.counts[..] == Zeros(h.counts.Length) && AllNonNegative(h.counts[..])
  {
    hide ValueAtIndex, MaxTracks, MinTracks;
    forall i | 0 <= i < h.counts.Length
      ensures h.counts[..][i] == 0
    {
      CountInOfEmpty(ValueAtIndex(h.cfg, i), ValueAtIndex(h.cfg, i + 1));
    }
  }

  // Decoding a payload behind its header into a new histogram of layout c.
  method DecodePayload(header: Header, payload: seq<byte>) returns (error: int, g: Histogram?, ghost c: Config)
    requires header.highestTrackable <= INT64_MAX
    requires HeaderTaken(header) ==>
      header.payloadLen >= 0 && ShiftsDefined(header.lowestTrackable, header.significantFigures)
    ensures HeaderTaken(header) ==> LaidOut(c, header) && (g != null ==> g.cfg == c)
    ensures error == DecodeError(header, payload, c.countsLen)
    ensures error == 0 <==> g != null
    ensures g != null ==> fresh(g) && fresh(g.counts) && g.Valid()
    ensures g != null ==> IsDecoded(g.cfg, g.counts[..], header, payload)
    ensures g != null ==> g.conversionRatio == header.conversionRatio
    ensures g != null ==> IsRebuilt(g.cfg, g.counts[..], g.totalCount, g.maxValue, g.recorded)
  {
    hide IsConfigFor, IsRebuilt, Describes, Applied;
    c := NoLayout();
    if CookieBase(header.cookie) != V2_ENCODING_COOKIE {
      return HDR_ENCODING_COOKIE_MISMATCH, null, c;
    }
    var cfg := CalculateBucketConfig(header.lowestTrackable, header.highestTrackable, header.significantFigures);
    if cfg.None? {
      return ENOMEM, null, c;
    }
    c := cfg.value;
    LayoutIs(cfg.value, header);
    error, g := DecodeInto(cfg.value, header, payload);
  }

  ghost function NoLayout(): Config {
    Config(0, 0, 0, 0, 0, 0, 0, 0, 0, 0)
  }

  lemma LayoutIs(c: Config, header: Header)
    requires Acceptable(header.lowestTrackable, header.highestTrackable, header.significantFigures)
    requires header.highestTrackable <= INT64_MAX
    requires IsConfigFor(c, header.lowestTrackable, header.highestTrackable, header.significantFigures)
    ensures Calculated(c) && LaidOut(c, header)
  {
  }

  // The words of a header ask for a histogram that can be made.
  ghost predicate AsksForHistogram(bytes: seq<byte>)
    requires |bytes| >= 40
  {
    var figures := Signed32(Word(bytes, 12));
    var lowest, highest := Signed64(LongWord(bytes, 16)), Signed64(LongWord(bytes, 24));
    lowest >= 1 && 1 <= figures <= 5 && 2 * lowest <= highest
  }

  ghost predicate IsAskedFor(bytes: seq<byte>, c: Config)
    requires |bytes| >= 40
  {
    && AsksForHistogram(bytes)
    && IsConfigFor(c, Signed64(LongWord(bytes, 16)), Signed64(LongWord(bytes, 24)), Signed32(Word(bytes, 12)))
  }

  // What applying the bytes behind the header to a new array of counts yields.
  ghost function PayloadApplied(bytes: seq<byte>, len: nat): Outcome
    requires |bytes| >= 40 && |bytes| - 40 <= Signed32(Word(bytes, 4))
  {
    var limit := Signed32(Word(bytes, 4));
    Applied(bytes[40..] + seq(limit + 9 - |bytes[40..]|, _ => 0), limit, 0, Zeros(len), 0)
  }

  // Decoding what was inflated: a header of forty bytes and the payload behind it.
  method Decode(inflated: seq<byte>) returns (error: int, g: Histogram?)
    requires |inflated| >= 40 && IsV2Word(Word(inflated, 0)) && AsksForHistogram(inflated) ==>
      && Signed32(Word(inflated, 4)) >= 0
      && ShiftsDefined(Signed64(LongWord(inflated, 16)), Signed32(Word(inflated, 12)))
    ensures |inflated| < 40 ==> error == -29994
    ensures |inflated| >= 40 && !IsV2Word(Word(inflated, 0)) ==> error == -29998
    ensures |inflated| >= 40 && IsV2Word(Word(inflated, 0)) && !AsksForHistogram(inflated) ==> error == 12
    ensures |inflated| >= 40 && IsV2Word(Word(inflated, 0)) && AsksForHistogram(inflated) ==>
      if |inflated| - 40 > Signed32(Word(inflated, 4)) then error == -29994
      else exists c | IsAskedFor(inflated, c) ::
        && error == PayloadApplied(inflated, c.countsLen).error
        && (g != null ==>
              && g.cfg == c && g.counts[..] == PayloadApplied(inflated, c.countsLen).counts
              && g.conversionRatio == LongWord(inflated, 32))
    ensures error == 0 <==> g != null
    ensures g != null ==> fresh(g) && fresh(g.counts) && g.Valid()
    ensures g != null ==> IsRebuilt(g.cfg, g.counts[..], g.totalCount, g.maxValue, g.recorded)
  {
    hide IsConfigFor, IsRebuilt, Describes, Word, LongWord, Applied, NumberOf, FieldAt, HeaderOf, ShiftsDefined,
         IsV2Word, CookieBase, Signed32, Signed64;
    if |inflated| < HEADER_SIZE {
      return HDR_INFLATE_FAIL, null;
    }
    ghost var payload := inflated[HEADER_SIZE..];
    FrontWords(inflated);
    HeaderWords(inflated[..HEADER_SIZE]);
    CookieTaken(Word(inflated, 0));
    var header := HeaderOf(inflated[..HEADER_SIZE]);
    FieldInWidth(inflated[..HEADER_SIZE]);
    ghost var c;
    error, g, c := DecodePayload(header, inflated[HEADER_SIZE..]);
    if HeaderTaken(header) {
      assert IsAskedFor(inflated, c);
    }
  }

  lemma FrontWords(bytes: seq<byte>)
    requires |bytes| >= 40
    ensures forall at: nat | at + 4 <= 40 :: Word(bytes[..40], at) == Word(bytes, at)
    ensures forall at: nat | at + 8 <= 40 :: LongWord(bytes[..40], at) == LongWord(bytes, at)
  {
  }

  lemma FieldInWidth(bytes: seq<byte>)
    requires |bytes| == HEADER_SIZE
    ensures HeaderOf(bytes).highestTrackable <= INT64_MAX
  {
    hide FieldAt, NumberOf;
    EightBytes();
  }

  // Main result: an encoded histogram decodes to one with the same layout, counts, total and conversion
  // ratio, whose hdr_max and hdr_min are the same exactly when those of the first say what was recorded.
  method Transfer(h: Histogram) returns (error: int, g: Histogram?)
    requires h.Valid() && AreInt64(h.counts[..])
    ensures error == 0 && g != null && fresh(g) && g.Valid()
    ensures g.cfg == h.cfg && g.counts[..] == h.counts[..] && g.totalCount == h.totalCount
    ensures g.conversionRatio == h.conversionRatio
    ensures g.Max() == h.Max() <==> h.maxValue > 0 || h.totalCount == 0 || h.cfg.unitMagnitude == 0
    ensures g.Min() == h.Min() <==> h.Min() != INT64_MAX || h.totalCount == 0
  {
    hide Describes, IsRebuilt, Calculated, Encoded, CountsIndexFor, HighestEquivalent, LowestEquivalent, OnWire,
         HeaderBytes, HeaderFor, IsHeaderFor, Word, LongWord, Signed32, Signed64, IsV2Word, AsksForHistogram,
         IsAskedFor, PayloadApplied, ShiftsDefined, PayloadOf;
    DescribedShape(h.cfg, h.counts[..], h.totalCount, h.minValue, h.maxValue, h.recorded);
    MaxHasSlot(h.cfg, h.counts[..], h.totalCount, h.minValue, h.maxValue, h.recorded);
    var encoded := Encode(h);
    WrittenAsks(h.cfg, encoded, h.conversionRatio);
    PayloadDecodes(h, encoded);
    error, g := Decode(encoded);
    SameCountsSameAnswers(h, g);
  }

  // The bytes written ask for the same layout, and for no other.
  lemma WrittenAsks(c: Config, encoded: seq<byte>, conversionRatio: int)
    requires Calculated(c) && 40 <= |encoded| <= 40 + 9 * c.countsLen
    requires IsHeaderFor(encoded[..40], c, |encoded| - 40, conversionRatio)
    ensures IsV2Word(Word(encoded, 0)) && AsksForHistogram(encoded)
    ensures Signed32(Word(encoded, 4)) == |encoded| - 40 && LongWord(encoded, 32) == conversionRatio
    ensures ShiftsDefined(Signed64(LongWord(encoded, 16)), Signed32(Word(encoded, 12)))
    ensures IsAskedFor(encoded, c) && forall d | IsAskedFor(encoded, d) :: d == c
  {
    hide IsConfigFor, ShiftsDefined, Word, LongWord;
    FrontWords(encoded);
    FirstWord(encoded[..40]);
    PayloadFits(c);
    LayoutCanBeAskedFor(c);
    CalculatedMeans(c);
    assert 0x1c84_9313 == 0x1c84_9303 + 16 * 1;
    forall d | IsAskedFor(encoded, d)
      ensures d == c
    {
      ConfigIsUnique(d, c, c.lowestTrackable, c.highestTrackable, c.significantFigures);
    }
  }

  lemma FirstWord(bytes: seq<byte>)
    requires |bytes| == 40 && bytes[0..4] == [0x1c, 0x84, 0x93, 0x13]
    ensures Word(bytes, 0) == 0x1c84_9313
  {
    assert bytes[0] == bytes[0..4][0] && bytes[1] == bytes[0..4][1];
    assert bytes[2] == bytes[0..4][2] && bytes[3] == bytes[0..4][3];
  }

  lemma CalculatedMeans(c: Config)
    requires Calculated(c)
    ensures c.lowestTrackable >= 1 && 1 <= c.significantFigures <= 5
    ensures 2 * c.lowestTrackable <= c.highestTrackable <= INT64_MAX
    ensures IsConfigFor(c, c.lowestTrackable, c.highestTrackable, c.significantFigures)
  {
  }

  lemma PayloadDecodes(h: Histogram, encoded: seq<byte>)
    requires h.Valid() && h.Shaped() && h.maxValue >= 0 && AreInt64(h.counts[..])
    requires |encoded| >= 40 && Signed32(Word(encoded, 4)) == |encoded| - 40 && encoded[40..] == PayloadOf(h)
    ensures PayloadApplied(encoded, h.counts.Length) == Outcome(0, h.counts[..])
  {
    hide Describes, Applied, Word, Signed32, PayloadOf, Calculated;
    EncodedDecodes(h);
  }

  // The payload of a histogram decodes to all of its counts.
  lemma EncodedDecodes(h: Histogram)
    requires h.Valid() && h.Shaped() && h.maxValue >= 0 && AreInt64(h.counts[..])
    ensures var payload := PayloadOf(h);
            Applied(Buffered(payload, |payload|), |payload|, 0, Zeros(h.counts.Length), 0) == Outcome(0, h.counts[..])
  {
    hide Describes, Encoded, CountsIndexFor, Applied;
    CountsOfDescribed(h);
    AllSlotsWritten(h);
    MaxHasSlot(h.cfg, h.counts[..], h.totalCount, h.minValue, h.maxValue, h.recorded);
    var limit := SlotsToMax(h.cfg, h.maxValue);
    var payload := PayloadOf(h);
    var data := Buffered(payload, |payload|);
    assert data[..|payload|] == payload;
    CountsReadBack(h.counts[..limit], h.counts.Length, data, |payload|);
  }

  lemma CountsOfDescribed(h: Histogram)
    requires h.Valid() && AreInt64(h.counts[..])
    ensures IsCounts(h.counts[..])
  {
    hide Describes;
    TotalCovers(h.cfg, h.counts[..], h.totalCount, h.minValue, h.maxValue, h.recorded);
  }
}
