/** Adding one histogram to another, with and without correction for coordinated omission. */
module Merging {
  import opened BucketConfig
  import opened Buckets
  import opened Samples
  import opened Descriptions
  import opened Histograms
  import opened Iterators

  // A recorded iteration whose snapshot of the total is limit passes the first n slots.
  ghost predicate VisitsUpTo(counts: seq<int>, limit: int, n: nat) {
    n <= |counts| && Prefix(counts, n) >= limit && forall k | 0 <= k < n :: Prefix(counts, k) < limit
  }

  // after is before with the members of extra below limit added.
  ghost predicate Gained(before: multiset<int>, after: multiset<int>, extra: multiset<int>, limit: int) {
    forall x :: after[x] == before[x] + (if x < limit then extra[x] else 0)
  }

  // Copies of x added by correcting the values of the first n slots that lie below limit.
  ghost function CorrectedCopies(c: Config, counts: seq<int>, n: nat, limit: int, interval: int, x: int): int
    requires c.WellFormed() && n <= |counts|
  {
    if n == 0 then 0
    else
      var v := ValueAtIndex(c, n - 1);
      CorrectedCopies(c, counts, n - 1, limit, interval, x)
        + (if v < limit && Backfilled(v, interval, x) then counts[n - 1] else 0)
  }

  ghost function DroppedCount(c: Config, counts: seq<int>, n: nat, limit: int): int
    requires c.WellFormed() && n <= |counts|
  {
    if n == 0 then 0
    else DroppedCount(c, counts, n - 1, limit) + (if ValueAtIndex(c, n - 1) < limit then 0 else counts[n - 1])
  }

  // What an addition of the first n slots leaves: the members below limit arrive, the
  // others are reported, and nothing else happens to the total.
  ghost predicate Added(c: Config, counts: seq<int>, n: nat, limit: int, dropped: int,
                        total: int, total': int, m: multiset<int>, m': multiset<int>)
  {
    && c.WellFormed() && AllNonNegative(counts) && n <= |counts|
    && dropped == DroppedCount(c, counts, n, limit)
    && total' + dropped == total + Prefix(counts, n)
    && Gained(m, m', Representatives(c, counts, n), limit)
  }

  // How many values correcting the first n slots adds: each accepted slot counts as often as its
  // value has copies.
  ghost function CorrectedTotal(c: Config, counts: seq<int>, n: nat, limit: int, interval: int): int
    requires c.WellFormed() && n <= |counts|
  {
    if n == 0 then 0
    else
      var v := ValueAtIndex(c, n - 1);
      CorrectedTotal(c, counts, n - 1, limit, interval) + (if v < limit then counts[n - 1] * Copies(v, interval) else 0)
  }

  ghost predicate AddedCorrected(c: Config, counts: seq<int>, n: nat, limit: int, interval: int, dropped: int,
                                 total: int, total': int, m: multiset<int>, m': multiset<int>)
  {
    && c.WellFormed() && AllNonNegative(counts) && n <= |counts|
    && dropped == DroppedCount(c, counts, n, limit)
    && total' == total + CorrectedTotal(c, counts, n, limit, interval)
    && forall x :: m'[x] == m[x] + CorrectedCopies(c, counts, n, limit, interval, x)
  }

  // The iteration has dealt with the first n slots and stands on the next nonempty one, or is over.
  ghost predicate Underway(counts: seq<int>, snapshot: int, n: nat, countsIndex: int, more: bool) {
    && n <= |counts| && -1 <= countsIndex < |counts|
    && (forall k | 0 <= k < n :: Prefix(counts, k) < snapshot)
    && (more <==> Prefix(counts, n) < snapshot)
    && (!more ==> countsIndex + 1 == n)
    && (more ==> n <= countsIndex && counts[countsIndex] != 0 && forall k | n <= k < countsIndex :: counts[k] == 0)
  }

  // Moves the recorded iteration on from the first n slots.
  method NextSlot(iter: Iter, ghost n: nat) returns (more: bool)
    requires iter.Valid() && iter.countsIndex + 1 == n <= iter.h.counts.Length
    requires forall k | 0 <= k < n :: Prefix(iter.h.counts[..], k) < iter.totalCount
    modifies iter
    ensures iter.Valid()
    ensures StandsOn(iter, n, more)
  {
    hide Describes, AtPosition, Underway, Prefix, ValueAtIndex;
    ghost var c, cs := iter.h.cfg, iter.h.counts[..];
    TotalCovers(c, cs, iter.h.totalCount, iter.h.minValue, iter.h.maxValue, iter.h.recorded);
    PositionMeans(c, cs, iter.countsIndex, iter.cumulativeCount, iter.value, iter.count);
    ghost var cumulative := iter.cumulativeCount;
    more := iter.RecordedNext();
    NowUnderway(cs, iter.totalCount, n, cumulative, iter.countsIndex, more);
    if more {
      StandsOnSlot(c, cs, iter.totalCount, n, iter.countsIndex);
      PositionMeans(c, cs, iter.countsIndex, iter.cumulativeCount, iter.value, iter.count);
    }
  }

  // Records the slot at index i, the next nonempty one after the first n, into h.
  method AddSlot(h: Histogram, value: nat, count: int, dropped: int,
                 ghost c: Config, ghost cs: seq<int>, ghost n: nat, ghost i: nat, ghost snapshot: int,
                 ghost limit: int, ghost start: int, ghost m: multiset<int>)
    returns (dropped': int)
    requires h.Valid() && Underway(cs, snapshot, n, i, true) && limit == h.cfg.Limit()
    requires Added(c, cs, n, limit, dropped, start, h.totalCount, m, h.recorded)
    requires c.WellFormed() && i < |cs| && value == ValueAtIndex(c, i) && count == cs[i] >= 1
    modifies h, h.counts
    ensures h.Valid() && (old(h.Exact()) ==> h.Exact())
    ensures forall x | x > value :: h.recorded[x] == old(h.recorded)[x]
    ensures Added(c, cs, i + 1, limit, dropped', start, h.totalCount, m, h.recorded)
  {
    hide Describes, Added, Underway, ValueAtIndex, CountsIndexFor, ExtremesExact;
    ghost var total, before := h.totalCount, h.recorded;
    var accepted := h.RecordValues(value, count);
    AddStep(c, cs, n, i, snapshot, limit, dropped, start, total, h.totalCount, m, before, h.recorded);
    dropped' := if accepted then dropped else dropped + count;
  }

  method AddSlotCorrected(h: Histogram, value: nat, count: int, expectedInterval: int, dropped: int,
                          ghost c: Config, ghost cs: seq<int>, ghost n: nat, ghost i: nat, ghost snapshot: int,
                          ghost limit: int, ghost start: int, ghost m: multiset<int>)
    returns (dropped': int)
    requires h.Valid() && Underway(cs, snapshot, n, i, true) && limit == h.cfg.Limit()
    requires AddedCorrected(c, cs, n, limit, expectedInterval, dropped, start, h.totalCount, m, h.recorded)
    requires c.WellFormed() && i < |cs| && value == ValueAtIndex(c, i) && count == cs[i] >= 1
    modifies h, h.counts
    ensures h.Valid() && (old(h.Exact()) ==> h.Exact())
    ensures forall x | x > value :: h.recorded[x] == old(h.recorded)[x]
    ensures AddedCorrected(c, cs, i + 1, limit, expectedInterval, dropped', start, h.totalCount, m, h.recorded)
  {
    hide Describes, AddedCorrected, Underway, ValueAtIndex, CountsIndexFor, Backfilled, Copies, ExtremesExact;
    ghost var total, before := h.totalCount, h.recorded;
    var accepted := h.RecordCorrectedValues(value, count, expectedInterval);
    NoneBackfilledAbove(value, expectedInterval);
    CorrectionStep(c, cs, n, i, snapshot, limit, expectedInterval, dropped, start, total, h.totalCount, m, before,
                   h.recorded);
    dropped' := if accepted then dropped else dropped + count;
  }

  lemma NoneBackfilledAbove(value: int, interval: int)
    ensures forall x | x > value :: !Backfilled(value, interval, x)
  {
  }

  // One round of an addition: the slot the iteration stands on is recorded, the iteration moves on.
  method TransferSlot(h: Histogram, iter: Iter, dropped: int, ghost cs: seq<int>, ghost n: nat,
                      ghost limit: int, ghost start: int, ghost m: multiset<int>)
    returns (dropped': int, ghost n': nat, more: bool)
    requires h.Valid() && iter.Valid() && h != iter.h && h.counts != iter.h.counts
    requires cs == iter.h.counts[..] && StandsOn(iter, n, true) && limit == h.cfg.Limit()
    requires Added(iter.h.cfg, cs, n, limit, dropped, start, h.totalCount, m, h.recorded)
    modifies h, h.counts, iter
    ensures h.Valid() && iter.Valid() && (old(h.Exact()) ==> h.Exact())
    ensures StandsOn(iter, n', more) && n < n' <= |cs|
    ensures Added(iter.h.cfg, cs, n', limit, dropped', start, h.totalCount, m, h.recorded)
  {
    hide Describes, AtPosition, Added, Underway, StandsOn, Prefix, AllNonNegative, ValueAtIndex, CountsIndexFor,
         ExtremesExact;
    SlotStoodOn(iter, n);
    var value := iter.value;
    var count := iter.count;
    n' := iter.countsIndex + 1;
    dropped' := AddSlot(h, value, count, dropped, iter.h.cfg, cs, n, iter.countsIndex, iter.totalCount, limit, start,
                        m);
    more := NextSlot(iter, n');
  }

  method TransferSlotCorrected(h: Histogram, iter: Iter, expectedInterval: int, dropped: int, ghost cs: seq<int>,
                               ghost n: nat, ghost limit: int, ghost start: int, ghost m: multiset<int>)
    returns (dropped': int, ghost n': nat, more: bool)
    requires h.Valid() && iter.Valid() && h != iter.h && h.counts != iter.h.counts
    requires cs == iter.h.counts[..] && StandsOn(iter, n, true) && limit == h.cfg.Limit()
    requires AddedCorrected(iter.h.cfg, cs, n, limit, expectedInterval, dropped, start, h.totalCount, m, h.recorded)
    modifies h, h.counts, iter
    ensures h.Valid() && iter.Valid() && (old(h.Exact()) ==> h.Exact())
    ensures StandsOn(iter, n', more) && n < n' <= |cs|
    ensures AddedCorrected(iter.h.cfg, cs, n', limit, expectedInterval, dropped', start, h.totalCount, m, h.recorded)
  {
    hide Describes, AtPosition, AddedCorrected, Underway, StandsOn, Prefix, AllNonNegative, ValueAtIndex,
         CountsIndexFor, Backfilled, Copies, ExtremesExact;
    SlotStoodOn(iter, n);
    var value := iter.value;
    var count := iter.count;
    n' := iter.countsIndex + 1;
    dropped' := AddSlotCorrected(h, value, count, expectedInterval, dropped, iter.h.cfg, cs, n, iter.countsIndex,
                                 iter.totalCount, limit, start, m);
    more := NextSlot(iter, n');
  }

  // Records every nonempty slot of from, at the start of its bucket, into h.
  method Add(h: Histogram, from: Histogram) returns (dropped: int, ghost visited: nat)
    requires h.Valid() && from.Valid() && h != from && h.counts != from.counts
    modifies h, h.counts
    ensures h.Valid() && (old(h.Exact()) ==> h.Exact())
    ensures VisitsUpTo(from.counts[..], Int32Of(from.totalCount), visited)
    ensures Added(from.cfg, from.counts[..], visited, h.cfg.Limit(), dropped,
                  old(h.totalCount), h.totalCount, old(h.recorded), h.recorded)
  {
    hide Describes, AtPosition, Added, Underway, StandsOn, VisitsUpTo, Prefix, AllNonNegative, ValueAtIndex,
         CountsIndexFor, ExtremesExact;
    DescribedShape(h.cfg, h.counts[..], h.totalCount, h.minValue, h.maxValue, h.recorded);
    ghost var cs, limit := from.counts[..], h.cfg.Limit();
    var iter := new Iter(from);
    dropped := 0;
    visited := 0;
    AddStarts(from.cfg, cs, from.totalCount, from.minValue, from.maxValue, from.recorded, limit, h.totalCount,
              h.recorded);
    var more := NextSlot(iter, 0);
    while more
      invariant h.Valid() && iter.Valid() && (old(h.Exact()) ==> h.Exact())
      invariant StandsOn(iter, visited, more)
      invariant Added(from.cfg, cs, visited, limit, dropped, old(h.totalCount), h.totalCount,
                      old(h.recorded), h.recorded)
      invariant visited <= |cs|
      decreases |cs| - visited, more
    {
      dropped, visited, more := TransferSlot(h, iter, dropped, cs, visited, limit, old(h.totalCount), old(h.recorded));
    }
    NowOver(iter, visited);
  }

  // The loop's view of the iterator.
  ghost predicate StandsOn(iter: Iter, n: nat, more: bool)
    reads iter, iter.h, iter.h.counts
  {
    && iter.h.cfg.WellFormed() && AllNonNegative(iter.h.counts[..])
    && Underway(iter.h.counts[..], iter.totalCount, n, iter.countsIndex, more)
    && (more ==>
          && 0 <= iter.countsIndex < iter.h.counts.Length
          && iter.value == ValueAtIndex(iter.h.cfg, iter.countsIndex)
          && iter.count == iter.h.counts[iter.countsIndex] >= 1)
    && (more ==> forall k | 0 <= k < iter.countsIndex + 1 :: Prefix(iter.h.counts[..], k) < iter.totalCount)
  }

  // The same, correcting every value for coordinated omission.
  method AddWhileCorrecting(h: Histogram, from: Histogram, expectedInterval: int)
    returns (dropped: int, ghost visited: nat)
    requires h.Valid() && from.Valid() && h != from && h.counts != from.counts
    modifies h, h.counts
    ensures h.Valid() && (old(h.Exact()) ==> h.Exact())
    ensures VisitsUpTo(from.counts[..], Int32Of(from.totalCount), visited)
    ensures AddedCorrected(from.cfg, from.counts[..], visited, h.cfg.Limit(), expectedInterval, dropped,
                           old(h.totalCount), h.totalCount, old(h.recorded), h.recorded)
  {
    hide Describes, AtPosition, AddedCorrected, Underway, StandsOn, VisitsUpTo, Prefix, AllNonNegative, ValueAtIndex,
         CountsIndexFor, Backfilled, Copies, ExtremesExact;
    DescribedShape(h.cfg, h.counts[..], h.totalCount, h.minValue, h.maxValue, h.recorded);
    ghost var cs, limit := from.counts[..], h.cfg.Limit();
    AddStarts(from.cfg, cs, from.totalCount, from.minValue, from.maxValue, from.recorded, limit, h.totalCount,
              h.recorded);
    var iter := new Iter(from);
    dropped := 0;
    visited := 0;
    CorrectionStarts(from.cfg, cs, limit, expectedInterval, h.totalCount, h.recorded);
    var more := NextSlot(iter, 0);
    while more
      invariant h.Valid() && iter.Valid() && (old(h.Exact()) ==> h.Exact())
      invariant StandsOn(iter, visited, more)
      invariant AddedCorrected(from.cfg, cs, visited, limit, expectedInterval, dropped,
                               old(h.totalCount), h.totalCount, old(h.recorded), h.recorded)
      invariant visited <= |cs|
      decreases |cs| - visited, more
    {
      dropped, visited, more := TransferSlotCorrected(h, iter, expectedInterval, dropped, cs, visited, limit,
                                                      old(h.totalCount), old(h.recorded));
    }
    NowOver(iter, visited);
  }

  // ----- Steps of the loops -----

  lemma PositionMeans(c: Config, counts: seq<int>, countsIndex: int, cumulative: int, value: nat, count: int)
    requires AtPosition(c, counts, countsIndex, cumulative, value, count) && countsIndex < |counts|
    ensures c.WellFormed()
    ensures cumulative == Prefix(counts, countsIndex + 1)
    ensures countsIndex >= 0 ==> value == ValueAtIndex(c, countsIndex) && count == counts[countsIndex]
  {
  }

  lemma NowUnderway(counts: seq<int>, snapshot: int, n: nat, cumulative: int, countsIndex: int, more: bool)
    requires n <= |counts| && cumulative == Prefix(counts, n)
    requires forall k | 0 <= k < n :: Prefix(counts, k) < snapshot
    requires more <==> cumulative < snapshot
    requires more ==> n <= countsIndex < |counts| && counts[countsIndex] != 0
    requires more ==> forall k | n <= k < countsIndex :: counts[k] == 0
    requires !more ==> countsIndex + 1 == n
    ensures Underway(counts, snapshot, n, countsIndex, more)
  {
  }

  lemma NowOver(iter: Iter, n: nat)
    requires StandsOn(iter, n, false)
    ensures VisitsUpTo(iter.h.counts[..], iter.totalCount, n)
  {
  }

  lemma SlotStoodOn(iter: Iter, n: nat)
    requires StandsOn(iter, n, true)
    ensures n <= iter.countsIndex < iter.h.counts.Length
    ensures Underway(iter.h.counts[..], iter.totalCount, n, iter.countsIndex, true)
    ensures iter.h.cfg.WellFormed()
    ensures iter.value == ValueAtIndex(iter.h.cfg, iter.countsIndex)
    ensures iter.count == iter.h.counts[..][iter.countsIndex] >= 1
    ensures forall k | 0 <= k < iter.countsIndex + 1 :: Prefix(iter.h.counts[..], k) < iter.totalCount
  {
  }

  lemma StandsOnSlot(c: Config, counts: seq<int>, snapshot: int, n: nat, countsIndex: int)
    requires c.WellFormed() && AllNonNegative(counts)
    requires Underway(counts, snapshot, n, countsIndex, true)
    ensures n <= countsIndex < |counts| && counts[countsIndex] >= 1
    ensures forall k | n <= k < countsIndex :: counts[k] == 0
    ensures forall k | 0 <= k < countsIndex + 1 :: Prefix(counts, k) < snapshot
  {
    forall k | n <= k <= countsIndex
      ensures Prefix(counts, k) < snapshot
    {
      PrefixOverZeros(counts, n, k);
    }
  }

  lemma AddStarts(c: Config, counts: seq<int>, fromTotal: int, minValue: int, maxValue: int, recorded: multiset<int>,
                  limit: int, total: int, m: multiset<int>)
    requires Describes(c, counts, fromTotal, minValue, maxValue, recorded)
    ensures c.WellFormed() && AllNonNegative(counts)
    ensures Added(c, counts, 0, limit, 0, total, total, m, m)
  {
    hide Describes;
    DescribedShape(c, counts, fromTotal, minValue, maxValue, recorded);
    TotalCovers(c, counts, fromTotal, minValue, maxValue, recorded);
  }

  lemma CorrectionStarts(c: Config, counts: seq<int>, limit: int, interval: int, total: int, m: multiset<int>)
    requires c.WellFormed() && AllNonNegative(counts)
    ensures AddedCorrected(c, counts, 0, limit, interval, 0, total, total, m, m)
  {
  }

  // Empty slots between two visits change nothing.
  lemma {:induction false} SkipZeros(c: Config, counts: seq<int>, m: nat, n: nat, limit: int)
    requires c.WellFormed() && AllNonNegative(counts)
    requires m <= n <= |counts| && forall k | m <= k < n :: counts[k] == 0
    ensures Prefix(counts, n) == Prefix(counts, m)
    ensures Representatives(c, counts, n) == Representatives(c, counts, m)
    ensures DroppedCount(c, counts, n, limit) == DroppedCount(c, counts, m, limit)
    decreases n
  {
    hide ValueAtIndex;
    if m < n {
      SkipZeros(c, counts, m, n - 1, limit);
      var r := Representatives(c, counts, n - 1);
      var v := ValueAtIndex(c, n - 1);
      assert r[v := r[v] + 0] == r;
    }
  }

  lemma AddStep(c: Config, counts: seq<int>, n: nat, i: nat, snapshot: int, limit: int, dropped: int,
                start: int, total: int, total': int, m: multiset<int>, before: multiset<int>, after: multiset<int>)
    requires Added(c, counts, n, limit, dropped, start, total, m, before)
    requires Underway(counts, snapshot, n, i, true)
    requires var v := ValueAtIndex(c, i);
             if v < limit then after == before[v := before[v] + counts[i]] && total' == total + counts[i]
             else after == before && total' == total
    ensures Added(c, counts, i + 1, limit, if ValueAtIndex(c, i) < limit then dropped else dropped + counts[i],
                  start, total', m, after)
  {
    hide ValueAtIndex, Representatives, DroppedCount, Prefix;
    SkipZeros(c, counts, n, i, limit);
    OneMoreSlot(c, counts, i, limit);
  }

  lemma OneMoreSlot(c: Config, counts: seq<int>, i: nat, limit: int)
    requires c.WellFormed() && AllNonNegative(counts) && i < |counts|
    ensures Prefix(counts, i + 1) == Prefix(counts, i) + counts[i]
    ensures DroppedCount(c, counts, i + 1, limit)
         == DroppedCount(c, counts, i, limit) + (if ValueAtIndex(c, i) < limit then 0 else counts[i])
    ensures var r, v := Representatives(c, counts, i), ValueAtIndex(c, i);
            Representatives(c, counts, i + 1) == r[v := r[v] + counts[i]]
  {
    hide ValueAtIndex;
  }

  lemma {:induction false} CorrectedOverZeros(c: Config, counts: seq<int>, m: nat, n: nat, limit: int, interval: int,
                                              x: int)
    requires c.WellFormed()
    requires m <= n <= |counts| && forall k | m <= k < n :: counts[k] == 0
    ensures CorrectedCopies(c, counts, n, limit, interval, x) == CorrectedCopies(c, counts, m, limit, interval, x)
    ensures CorrectedTotal(c, counts, n, limit, interval) == CorrectedTotal(c, counts, m, limit, interval)
    decreases n
  {
    hide ValueAtIndex, Backfilled, Copies;
    if m < n {
      CorrectedOverZeros(c, counts, m, n - 1, limit, interval, x);
    }
  }

  lemma CorrectionStep(c: Config, counts: seq<int>, n: nat, i: nat, snapshot: int, limit: int, interval: int,
                       dropped: int, start: int, total: int, total': int,
                       m: multiset<int>, before: multiset<int>, after: multiset<int>)
    requires AddedCorrected(c, counts, n, limit, interval, dropped, start, total, m, before)
    requires Underway(counts, snapshot, n, i, true)
    requires var v := ValueAtIndex(c, i);
             && total' == total + (if v < limit then counts[i] * Copies(v, interval) else 0)
             && forall x :: after[x] == before[x] + (if v < limit && Backfilled(v, interval, x) then counts[i] else 0)
    ensures var dropped' := if ValueAtIndex(c, i) < limit then dropped else dropped + counts[i];
            AddedCorrected(c, counts, i + 1, limit, interval, dropped', start, total', m, after)
  {
    hide ValueAtIndex, Backfilled, Copies;
    SkipZeros(c, counts, n, i, limit);
    CorrectedOverZeros(c, counts, n, i, limit, interval, 0);
    forall x
      ensures after[x] == m[x] + CorrectedCopies(c, counts, i + 1, limit, interval, x)
    {
      CorrectedOverZeros(c, counts, n, i, limit, interval, x);
    }
  }

  // ----- Adding a histogram to itself -----

  // The counts ahead of index are still those the addition started from.
  ghost predicate SameAhead(now: seq<int>, cs: seq<int>, index: int) {
    |now| == |cs| && forall k | index < k < |cs| && k >= 0 :: now[k] == cs[k]
  }

  // Where the addition stands after n slots: on the next nonempty one, or at its end.
  ghost predicate OnOwnSlot(cs: seq<int>, snapshot: int, n: nat, index: int, cumulative: int, count: int, more: bool) {
    && Underway(cs, snapshot, n, index, more)
    && (more ==> count == cs[index] >= 1 && cumulative == Prefix(cs, index + 1))
    && (more ==> forall k | 0 <= k < index + 1 :: Prefix(cs, k) < snapshot)
  }

  // The recorded iteration of an addition over the histogram it is changing: each slot is read before
  // that slot or a later one is recorded into.
  method NextOwnSlot(h: Histogram, snapshot: int, countsIndex: int, cumulativeCount: int, ghost cs: seq<int>)
    returns (index: int, cumulative: int, count: int, more: bool)
    requires -1 <= countsIndex < h.counts.Length && SameAhead(h.counts[..], cs, countsIndex)
    requires AllNonNegative(cs) && snapshot <= Prefix(cs, |cs|)
    requires cumulativeCount == Prefix(cs, countsIndex + 1)
    requires forall k | 0 <= k < countsIndex + 1 :: Prefix(cs, k) < snapshot
    ensures OnOwnSlot(cs, snapshot, countsIndex + 1, index, cumulative, count, more)
  {
    index, cumulative, count, more := countsIndex, cumulativeCount, 0, false;
    while cumulative < snapshot
      invariant countsIndex <= index < |cs| && cumulative == Prefix(cs, index + 1) == Prefix(cs, countsIndex + 1)
      invariant index > countsIndex ==> cumulative < snapshot
      invariant forall k | countsIndex < k <= index :: cs[k] == 0
      invariant forall k | 0 <= k < index + 1 :: Prefix(cs, k) < snapshot
      decreases |cs| - index
    {
      index := index + 1;
      count := h.counts[index];
      cumulative := cumulative + count;
      if count != 0 {
        more := true;
        return;
      }
    }
  }

  lemma {:induction false} CountInSame(m: multiset<int>, m': multiset<int>, lo: int, hi: int)
    requires forall x | lo <= x < hi :: m[x] == m'[x]
    ensures CountIn(m, lo, hi) == CountIn(m', lo, hi)
    decreases hi - lo
  {
    if lo < hi {
      CountInSame(m, m', lo, hi - 1);
    }
  }

  // Recording at or below the start of slot i leaves the slots ahead as they are.
  lemma AheadUnchanged(c: Config, cs: seq<int>, before: seq<int>, after: seq<int>, m: multiset<int>, m': multiset<int>,
                       n: nat, i: nat)
    requires c.WellFormed() && Tallies(c, before, m) && Tallies(c, after, m') && |after| == |before|
    requires n <= i < |cs| && SameAhead(before, cs, n - 1)
    requires forall x | x > ValueAtIndex(c, i) :: m'[x] == m[x]
    ensures SameAhead(after, cs, i)
  {
    hide ValueAtIndex;
    forall k | i < k < |cs|
      ensures after[k] == cs[k]
    {
      StartsIncrease(c, i, k);
      CountInSame(m, m', ValueAtIndex(c, k), ValueAtIndex(c, k + 1));
    }
  }

  lemma DescribedTallies(c: Config, counts: seq<int>, total: int, minValue: int, maxValue: int, m: multiset<int>)
    requires Describes(c, counts, total, minValue, maxValue, m)
    ensures c.WellFormed() && |counts| == c.countsLen && Tallies(c, counts, m)
  {
  }

  method TransferOwnSlot(h: Histogram, index: int, count: int, dropped: int, ghost cs: seq<int>,
                         ghost snapshot: int, ghost n: nat, ghost cumulative: int, ghost limit: int,
                         ghost start: int, ghost m: multiset<int>)
    returns (dropped': int)
    requires h.Valid() && OnOwnSlot(cs, snapshot, n, index, cumulative, count, true) && limit == h.cfg.Limit()
    requires SameAhead(h.counts[..], cs, n - 1)
    requires Added(h.cfg, cs, n, limit, dropped, start, h.totalCount, m, h.recorded)
    modifies h, h.counts
    ensures h.Valid() && (old(h.Exact()) ==> h.Exact())
    ensures SameAhead(h.counts[..], cs, index)
    ensures Added(h.cfg, cs, index + 1, limit, dropped', start, h.totalCount, m, h.recorded)
  {
    hide Describes, Added, ValueAtIndex, CountsIndexFor, ExtremesExact, Tallies, SameAhead, Prefix;
    ghost var before, recorded := h.counts[..], h.recorded;
    DescribedTallies(h.cfg, h.counts[..], h.totalCount, h.minValue, h.maxValue, h.recorded);
    var value := ValueAtIndex(h.cfg, index);
    dropped' := AddSlot(h, value, count, dropped, h.cfg, cs, n, index, snapshot, limit, start, m);
    DescribedTallies(h.cfg, h.counts[..], h.totalCount, h.minValue, h.maxValue, h.recorded);
    AheadUnchanged(h.cfg, cs, before, h.counts[..], recorded, h.recorded, n, index);
  }

  // hdr_add with one histogram as target and source: the slots visited are doubled.
  method AddToItself(h: Histogram) returns (dropped: int, ghost visited: nat)
    requires h.Valid()
    modifies h, h.counts
    ensures h.Valid() && (old(h.Exact()) ==> h.Exact())
    ensures VisitsUpTo(old(h.counts[..]), Int32Of(old(h.totalCount)), visited)
    ensures Added(h.cfg, old(h.counts[..]), visited, h.cfg.Limit(), dropped,
                  old(h.totalCount), h.totalCount, old(h.recorded), h.recorded)
    ensures dropped == 0
    ensures forall i | 0 <= i < h.counts.Length ::
      h.counts[i] == old(h.counts[i]) + (if i < visited then old(h.counts[i]) else 0)
  {
    hide Describes, Added, Underway, OnOwnSlot, VisitsUpTo, Prefix, AllNonNegative, ValueAtIndex, CountsIndexFor,
         ExtremesExact, SameAhead, Tallies;
    ghost var cs, m, start := h.counts[..], h.recorded, h.totalCount;
    DescribedTallies(h.cfg, cs, h.totalCount, h.minValue, h.maxValue, h.recorded);
    ghost var limit := h.cfg.Limit();
    AddStarts(h.cfg, cs, h.totalCount, h.minValue, h.maxValue, h.recorded, limit, h.totalCount, h.recorded);
    var snapshot := Int32Of(h.totalCount);
    OwnStart(h.cfg, cs, h.totalCount, h.minValue, h.maxValue, h.recorded);
    dropped := 0;
    visited := 0;
    var index, cumulative, count, more := NextOwnSlot(h, snapshot, -1, 0, cs);
    while more
      invariant h.Valid() && (old(h.Exact()) ==> h.Exact())
      invariant SameAhead(h.counts[..], cs, visited - 1) && visited <= |cs|
      invariant OnOwnSlot(cs, snapshot, visited, index, cumulative, count, more)
      invariant Added(h.cfg, cs, visited, limit, dropped, start, h.totalCount, m, h.recorded)
      decreases |cs| - visited, more
    {
      OwnSlotAhead(cs, snapshot, visited, index, cumulative, count);
      dropped := TransferOwnSlot(h, index, count, dropped, cs, snapshot, visited, cumulative, limit, start, m);
      visited := index + 1;
      index, cumulative, count, more := NextOwnSlot(h, snapshot, index, cumulative, cs);
    }
    OwnSlotsOver(cs, snapshot, visited, index, cumulative, count);
    DescribedTallies(h.cfg, h.counts[..], h.totalCount, h.minValue, h.maxValue, h.recorded);
    OwnSlotsDoubled(h.cfg, cs, h.counts[..], m, h.recorded, visited, dropped, start, h.totalCount);
  }

  method TransferOwnSlotCorrected(h: Histogram, index: int, count: int, expectedInterval: int, dropped: int,
                                  ghost cs: seq<int>, ghost snapshot: int, ghost n: nat, ghost cumulative: int,
                                  ghost limit: int, ghost start: int, ghost m: multiset<int>)
    returns (dropped': int)
    requires h.Valid() && OnOwnSlot(cs, snapshot, n, index, cumulative, count, true) && limit == h.cfg.Limit()
    requires SameAhead(h.counts[..], cs, n - 1)
    requires AddedCorrected(h.cfg, cs, n, limit, expectedInterval, dropped, start, h.totalCount, m, h.recorded)
    modifies h, h.counts
    ensures h.Valid() && (old(h.Exact()) ==> h.Exact())
    ensures SameAhead(h.counts[..], cs, index)
    ensures AddedCorrected(h.cfg, cs, index + 1, limit, expectedInterval, dropped', start, h.totalCount, m, h.recorded)
  {
    hide Describes, AddedCorrected, ValueAtIndex, CountsIndexFor, ExtremesExact, Tallies, SameAhead, Prefix;
    ghost var before, recorded := h.counts[..], h.recorded;
    DescribedTallies(h.cfg, h.counts[..], h.totalCount, h.minValue, h.maxValue, h.recorded);
    var value := ValueAtIndex(h.cfg, index);
    dropped' := AddSlotCorrected(h, value, count, expectedInterval, dropped, h.cfg, cs, n, index, snapshot, limit,
                                 start, m);
    DescribedTallies(h.cfg, h.counts[..], h.totalCount, h.minValue, h.maxValue, h.recorded);
    AheadUnchanged(h.cfg, cs, before, h.counts[..], recorded, h.recorded, n, index);
  }

  // The corrected addition with one histogram as target and source: what it backfills lies behind it.
  method AddToItselfWhileCorrecting(h: Histogram, expectedInterval: int) returns (dropped: int, ghost visited: nat)
    requires h.Valid()
    modifies h, h.counts
    ensures h.Valid() && (old(h.Exact()) ==> h.Exact())
    ensures VisitsUpTo(old(h.counts[..]), Int32Of(old(h.totalCount)), visited)
    ensures AddedCorrected(h.cfg, old(h.counts[..]), visited, h.cfg.Limit(), expectedInterval, dropped,
                           old(h.totalCount), h.totalCount, old(h.recorded), h.recorded)
  {
    hide Describes, AddedCorrected, Underway, OnOwnSlot, VisitsUpTo, Prefix, AllNonNegative, ValueAtIndex,
         CountsIndexFor, ExtremesExact, SameAhead, Tallies;
    ghost var cs, m, start := h.counts[..], h.recorded, h.totalCount;
    DescribedTallies(h.cfg, cs, h.totalCount, h.minValue, h.maxValue, h.recorded);
    ghost var limit := h.cfg.Limit();
    AddStarts(h.cfg, cs, h.totalCount, h.minValue, h.maxValue, h.recorded, limit, h.totalCount, h.recorded);
    CorrectionStarts(h.cfg, cs, limit, expectedInterval, h.totalCount, h.recorded);
    var snapshot := Int32Of(h.totalCount);
    OwnStart(h.cfg, cs, h.totalCount, h.minValue, h.maxValue, h.recorded);
    dropped := 0;
    visited := 0;
    var index, cumulative, count, more := NextOwnSlot(h, snapshot, -1, 0, cs);
    while more
      invariant h.Valid() && (old(h.Exact()) ==> h.Exact())
      invariant SameAhead(h.counts[..], cs, visited - 1) && visited <= |cs|
      invariant OnOwnSlot(cs, snapshot, visited, index, cumulative, count, more)
      invariant AddedCorrected(h.cfg, cs, visited, limit, expectedInterval, dropped, start, h.totalCount, m, h.recorded)
      decreases |cs| - visited, more
    {
      OwnSlotAhead(cs, snapshot, visited, index, cumulative, count);
      dropped := TransferOwnSlotCorrected(h, index, count, expectedInterval, dropped, cs, snapshot, visited, cumulative,
                                          limit, start, m);
      visited := index + 1;
      index, cumulative, count, more := NextOwnSlot(h, snapshot, index, cumulative, cs);
    }
    OwnSlotsOver(cs, snapshot, visited, index, cumulative, count);
  }

  lemma OwnStart(c: Config, counts: seq<int>, total: int, minValue: int, maxValue: int, m: multiset<int>)
    requires Describes(c, counts, total, minValue, maxValue, m)
    ensures Int32Of(total) <= Prefix(counts, |counts|) && Prefix(counts, 0) == 0 && |counts| > 0
    ensures SameAhead(counts, counts, -1)
  {
    hide Describes;
    TotalCovers(c, counts, total, minValue, maxValue, m);
    DescribedShape(c, counts, total, minValue, maxValue, m);
    Int32AtMost(total);
  }

  lemma OwnSlotAhead(cs: seq<int>, snapshot: int, n: nat, index: int, cumulative: int, count: int)
    requires OnOwnSlot(cs, snapshot, n, index, cumulative, count, true)
    ensures n <= index < |cs| && cumulative == Prefix(cs, index + 1)
    ensures forall k | 0 <= k < index + 1 :: Prefix(cs, k) < snapshot
  {
  }

  lemma OwnSlotsOver(cs: seq<int>, snapshot: int, n: nat, index: int, cumulative: int, count: int)
    requires OnOwnSlot(cs, snapshot, n, index, cumulative, count, false)
    ensures VisitsUpTo(cs, snapshot, n)
  {
  }

  lemma OwnSlotsDoubled(c: Config, cs: seq<int>, after: seq<int>, m: multiset<int>, m': multiset<int>, n: nat,
                        dropped: int, start: int, total: int)
    requires c.WellFormed() && Added(c, cs, n, c.Limit(), dropped, start, total, m, m')
    requires |cs| == |after| == c.countsLen && Tallies(c, cs, m) && Tallies(c, after, m')
    ensures dropped == 0 && forall i | 0 <= i < |cs| :: after[i] == cs[i] + (if i < n then cs[i] else 0)
  {
    hide Tallies, ValueAtIndex;
    forall i | 0 <= i < |cs|
      ensures after[i] == cs[i] + (if i < n then cs[i] else 0)
    {
      SameLayoutSums(c, cs, after, m, m', cs, n, i);
    }
    NothingDropped(c, cs, n);
  }

  // ----- What an addition conserves -----

  // The slots visited hold everything exactly when the 32-bit snapshot exceeds what
  // lies before the last nonempty slot.
  lemma VisitsAllIff(counts: seq<int>, limit: int, n: nat, last: int)
    requires AllNonNegative(counts) && VisitsUpTo(counts, limit, n)
    requires LastNonZero(counts, |counts|, last)
    ensures Prefix(counts, n) == Prefix(counts, |counts|) <==>
              last == -1 || limit > Prefix(counts, |counts|) - counts[last]
  {
    if last == -1 {
      PrefixOfZeros(counts, n);
      PrefixOfZeros(counts, |counts|);
    } else {
      PrefixOverZeros(counts, last + 1, |counts|);
      if n <= last {
        PrefixMonotone(counts, n, last);
      } else {
        PrefixMonotone(counts, last + 1, n);
        PrefixMonotone(counts, n, |counts|);
      }
    }
  }

  // Main result: an addition accounts for every count of the source - recorded or reported
  // as dropped - exactly when the snapshot survives its 32-bit field well enough.
  lemma AddConservesIff(from: Histogram, visited: nat, last: int)
    requires from.Valid() && VisitsUpTo(from.counts[..], Int32Of(from.totalCount), visited)
    requires LastNonZero(from.counts[..], from.counts.Length, last)
    ensures Prefix(from.counts[..], visited) == from.totalCount <==>
              last == -1 || Int32Of(from.totalCount) > from.totalCount - from.counts[last]
    ensures from.totalCount < 0x8000_0000 ==> Prefix(from.counts[..], visited) == from.totalCount
    ensures 0x8000_0000 <= from.totalCount < 0x1_0000_0000 ==> visited == 0
  {
    hide Describes;
    TotalCovers(from.cfg, from.counts[..], from.totalCount, from.minValue, from.maxValue, from.recorded);
    VisitsAllIff(from.counts[..], Int32Of(from.totalCount), visited, last);
    AllVisitedAfter(from.counts[..], from.totalCount, visited);
    Int32AtMost(from.totalCount);
    if visited > 0 {
      assert Prefix(from.counts[..], 0) == 0;
    }
  }

  lemma AllVisitedAfter(counts: seq<int>, total: int, n: nat)
    requires AllNonNegative(counts) && total == Prefix(counts, |counts|) && n <= |counts|
    requires Prefix(counts, n) >= Int32Of(total)
    ensures 0 <= total < 0x8000_0000 ==> Prefix(counts, n) == total
  {
    PrefixMonotone(counts, n, |counts|);
  }

  // With the same layout nothing is dropped and the slots add up one by one.
  lemma SameLayoutSums(c: Config, target: seq<int>, target': seq<int>, m: multiset<int>, m': multiset<int>,
                       source: seq<int>, n: nat, i: nat)
    requires c.WellFormed() && AllNonNegative(source) && |source| == |target| == |target'| == c.countsLen
    requires n <= |source| && i < |target|
    requires Tallies(c, target, m) && Tallies(c, target', m')
    requires Gained(m, m', Representatives(c, source, n), c.Limit())
    ensures target'[i] == target[i] + (if i < n then source[i] else 0)
    ensures DroppedCount(c, source, n, c.Limit()) == 0
  {
    hide ValueAtIndex, Config.Limit;
    RepresentativesTally(c, source, n, i);
    StartOfRange(c);
    if i + 1 < c.countsLen {
      StartsIncrease(c, i + 1, c.countsLen);
    }
    CountInGained(m, m', Representatives(c, source, n), c.Limit(), ValueAtIndex(c, i), ValueAtIndex(c, i + 1));
    NothingDropped(c, source, n);
  }

  lemma {:induction false} CountInGained(m: multiset<int>, m': multiset<int>, extra: multiset<int>, limit: int,
        lo: int, hi: int)
    requires Gained(m, m', extra, limit) && hi <= limit
    ensures CountIn(m', lo, hi) == CountIn(m, lo, hi) + CountIn(extra, lo, hi)
    decreases hi - lo
  {
    if lo < hi {
      CountInGained(m, m', extra, limit, lo, hi - 1);
    }
  }

  lemma {:induction false} NothingDropped(c: Config, counts: seq<int>, n: nat)
    requires c.WellFormed() && n <= |counts| == c.countsLen
    ensures DroppedCount(c, counts, n, c.Limit()) == 0
  {
    hide ValueAtIndex, Config.Limit;
    if n != 0 {
      NothingDropped(c, counts, n - 1);
      StartOfRange(c);
      StartsIncrease(c, n - 1, c.countsLen);
    }
  }

  // ----- The 32-bit snapshot, at its worst -----

  // Adding a histogram with 2^31 recorded values adds nothing and reports nothing as dropped.
  method SnapshotLosesAll(c: Config) returns (h: Histogram, from: Histogram, dropped: int)
    requires Calculated(c)
    ensures from.Valid() && from.recorded == multiset{}[1 := 0x8000_0000] && from.totalCount == 0x8000_0000
    ensures h.Valid() && h.cfg == from.cfg == c && h.recorded == multiset{} && h.totalCount == 0 && dropped == 0
  {
    hide Describes, ValueAtIndex, CountsIndexFor, ExtremesExact, Calculated;
    OneIsAccepted(c);
    from := new Histogram(c);
    var ok := from.RecordValues(1, 0x8000_0000);
    h := new Histogram(c);
    ghost var visited;
    dropped, visited := Add(h, from);
    NothingVisited(from.counts[..], visited);
    NothingAdded(c, from.counts[..], visited, h.cfg.Limit(), dropped, 0, h.totalCount, multiset{}, h.recorded);
  }

  lemma OneIsAccepted(c: Config)
    requires Calculated(c)
    ensures c.WellFormed() && 1 < c.Limit()
  {
  }

  lemma NothingVisited(counts: seq<int>, n: nat)
    requires VisitsUpTo(counts, Int32Of(0x8000_0000), n)
    ensures n == 0
  {
    assert Prefix(counts, 0) == 0;
  }

  lemma NothingAdded(c: Config, counts: seq<int>, n: nat, limit: int, dropped: int, total: int, total': int,
                     m: multiset<int>, m': multiset<int>)
    requires Added(c, counts, n, limit, dropped, total, total', m, m') && n == 0
    ensures dropped == 0 && total' == total && m' == m
  {
    assert forall x :: m'[x] == m[x];
  }
}
