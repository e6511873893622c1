/** What the interval recorder guarantees over whole runs. */
module PhaserResults {
  import opened Phaser

  // ----- Nobody holds what a sample hands out -----

  ghost predicate NobodyHolds(s: State, b: nat) {
    forall w :: !Holds(s, w, b)
  }

  // The step puts b back in use.
  ghost predicate MakesActive(s: State, step: Step, b: nat) {
    step.StoreActive? && s.pc.InactiveStored? && s.pc.temp == b
  }

  lemma NobodyHoldsAtUnlock(s: State)
    requires Inv(s) && s.pc.CaughtUp?
    ensures NobodyHolds(s, s.inactive) && s.active != s.inactive
  {
  }

  lemma StaysUnheld(s: State, step: Step, b: nat)
    requires Enabled(s, step) && NobodyHolds(s, b) && s.active != b && !MakesActive(s, step, b)
    ensures NobodyHolds(Apply(s, step), b) && Apply(s, step).active != b
  {
    var s' := Apply(s, step);
    forall w
      ensures !Holds(s', w, b)
    {
      assert !Holds(s, w, b);
    }
  }

  // Main result: from the moment a flip is through, no writer holds the histogram being handed
  // out, and none can get hold of it before a later sample makes it the active one again.
  lemma {:induction false} HandedOutStaysUnheld(states: seq<State>, steps: seq<Step>, i: nat, j: nat)
    requires IsRunFromStart(states, steps) && i <= j < |states|
    requires states[i].pc.CaughtUp?
    requires forall k | i <= k < j :: !MakesActive(states[k], steps[k], states[i].inactive)
    ensures NobodyHolds(states[j], states[i].inactive) && states[j].active != states[i].inactive
    decreases j
  {
    if i == j {
      InvHolds(states, steps, i);
      NobodyHoldsAtUnlock(states[i]);
    } else {
      HandedOutStaysUnheld(states, steps, i, j - 1);
      StaysUnheld(states[j - 1], steps[j - 1], states[i].inactive);
    }
  }

  // ----- The final read of the result -----

  // All sampling is done by one thread.
  ghost predicate OneSampler(steps: seq<Step>, r: nat) {
    forall k | 0 <= k < |steps| :: SamplerIs(steps[k], r)
  }

  ghost predicate SamplerIs(step: Step, r: nat) {
    match step
    case Lock(q) => q == r
    case Reset(q) => q == r
    case Return(q) => q == r
    case _ => true
  }

  ghost predicate Alone(s: State, r: nat) {
    && s.outside.Keys <= {r}
    && (!s.pc.Free? ==> s.holder == r && r !in s.outside)
  }

  lemma AloneKept(s: State, step: Step, r: nat)
    requires Enabled(s, step) && Alone(s, r) && SamplerIs(step, r)
    ensures Alone(Apply(s, step), r)
  {
  }

  lemma {:induction false} AloneHolds(states: seq<State>, steps: seq<Step>, r: nat, i: nat)
    requires IsRunFromStart(states, steps) && OneSampler(steps, r) && i < |states|
    ensures Alone(states[i], r)
  {
    if i != 0 {
      AloneHolds(states, steps, r, i - 1);
      AloneKept(states[i - 1], steps[i - 1], r);
    }
  }

  // With one sampler thread, the histogram a sample returns is one no writer holds or can load.
  lemma ReturnedIsUnheld(states: seq<State>, steps: seq<Step>, r: nat, j: nat)
    requires IsRunFromStart(states, steps) && OneSampler(steps, r)
    requires j < |steps| && steps[j] == Return(r)
    ensures NobodyHolds(states[j], HandedOut(states[j])) && states[j].active != HandedOut(states[j])
  {
    hide Inside;
    InvHolds(states, steps, j);
    AloneHolds(states, steps, r, j);
  }

  // How often the inactive histogram is replaced between two points of a run.
  ghost function Replacements(steps: seq<Step>, i: nat, j: nat): nat
    requires i <= j <= |steps|
    decreases j
  {
    if i == j then 0 else Replacements(steps, i, j - 1) + (if steps[j - 1].StoreInactive? then 1 else 0)
  }

  // The histogram that is not, or not yet, the active one.
  function Spare(s: State): nat {
    if s.pc.InactiveStored? then s.pc.temp else s.inactive
  }

  lemma ReplacementToggles(s: State, step: Step)
    requires Inv(s) && Enabled(s, step)
    ensures var s' := Apply(s, step);
            && {s'.active, Spare(s')} == {s.active, Spare(s)}
            && s.inactive in {s.active, Spare(s)}
            && s'.inactive in {s.active, Spare(s)}
            && (s'.inactive != s.inactive <==> step.StoreInactive?)
  {
    hide CountsWriters, HoldOnly, Inside;
  }

  // With any number of sampler threads the final read is made after the unlock. It yields the
  // histogram of the sampler's own sample exactly when an even number of other samples have
  // replaced the inactive histogram in between.
  lemma {:induction false} ReturnedIsOwnIff(states: seq<State>, steps: seq<Step>, i: nat, j: nat)
    requires IsRunFromStart(states, steps) && i <= j < |states|
    ensures HandedOut(states[j]) == states[i].inactive <==> Replacements(steps, i, j) % 2 == 0
    ensures {states[j].active, Spare(states[j])} == {states[i].active, Spare(states[i])}
    ensures {states[i].inactive, states[j].inactive} <= {states[i].active, Spare(states[i])}
    decreases j
  {
    hide Inv, Apply, Enabled, Spare, Initial;
    InvHolds(states, steps, j);
    if i < j {
      ReturnedIsOwnIff(states, steps, i, j - 1);
      InvHolds(states, steps, j - 1);
      assert states[j] == Apply(states[j - 1], steps[j - 1]);
      ReplacementToggles(states[j - 1], steps[j - 1]);
    } else {
      InactiveIsOneOfTwo(states[i]);
    }
  }

  // No sampler is between its first store and the end of its flip.
  predicate NoFlipUnderWay(s: State) {
    s.pc.Free? || s.pc.Locked? || s.pc.TempRead? || s.pc.ActiveLoaded? || s.pc.CaughtUp?
  }

  // What a read of the inactive histogram yields in a state, whoever reads: the active histogram exactly
  // between the two stores of a sample, and one that nobody holds unless a flip is under way.
  lemma ReadYields(s: State)
    requires Inv(s)
    ensures s.active == HandedOut(s) <==> s.pc.InactiveStored?
    ensures NoFlipUnderWay(s) ==> NobodyHolds(s, HandedOut(s))
  {
    hide CountsWriters, Inside;
  }

  // In every run of any number of samplers, a late read is bad at most while another sample is between
  // its stores and the end of its flip.
  lemma LateReadIsUnheld(states: seq<State>, steps: seq<Step>, r: nat, j: nat)
    requires IsRunFromStart(states, steps) && j < |steps| && steps[j] == Return(r)
    ensures states[j].active == HandedOut(states[j]) <==> states[j].pc.InactiveStored?
    ensures NoFlipUnderWay(states[j]) ==> NobodyHolds(states[j], HandedOut(states[j]))
  {
    hide Inv, Enabled, Apply, Initial;
    InvHolds(states, steps, j);
    ReadYields(states[j]);
  }

  lemma InactiveIsOneOfTwo(s: State)
    requires Inv(s)
    ensures s.inactive in {s.active, Spare(s)}
  {
  }

  lemma Extend(states: seq<State>, steps: seq<Step>, step: Step) returns (states': seq<State>, steps': seq<Step>)
    requires IsRun(states, steps) && Enabled(states[|steps|], step)
    ensures IsRun(states', steps') && states'[0] == states[0] && |steps'| == |steps| + 1
    ensures steps'[|steps|] == step && states'[|steps|] == states[|steps|]
    ensures states'[|steps'|] == Apply(states[|steps|], step)
  {
    hide Apply, Enabled;
    states', steps' := states + [Apply(states[|steps|], step)], steps + [step];
  }

  // The steps of a sample up to the replacement of the inactive histogram.
  lemma HalfSample(states: seq<State>, steps: seq<Step>, r: nat) returns (states': seq<State>, steps': seq<Step>)
    requires IsRun(states, steps) && states[|steps|].pc.Free? && r !in states[|steps|].outside
    ensures IsRun(states', steps') && states'[0] == states[0]
    ensures var s := states[|steps|];
            states'[|steps'|] == s.(pc := InactiveStored(s.inactive), inactive := s.active, holder := r,
                                    outside := s.outside - {r})
  {
    states', steps' := Extend(states, steps, Lock(r));
    states', steps' := Extend(states', steps', ReadInactive);
    states', steps' := Extend(states', steps', LoadActive);
    states', steps' := Extend(states', steps', StoreInactive);
  }

  // The rest of the first sample of a run, up to the unlock.
  lemma RestOfSample(states: seq<State>, steps: seq<Step>) returns (states': seq<State>, steps': seq<Step>)
    requires IsRun(states, steps) && states[|steps|].pc.InactiveStored?
    requires states[|steps|].startEpoch == 0 && states[|steps|].evenEndEpoch == 0
    ensures IsRun(states', steps') && states'[0] == states[0]
    ensures var s := states[|steps|];
            states'[|steps'|] == s.(pc := Free, active := s.pc.temp, startEpoch := INT64_MIN, oddEndEpoch := INT64_MIN,
                                    outside := s.outside[s.holder := Returning])
  {
    states', steps' := Extend(states, steps, StoreActive);
    states', steps' := Extend(states', steps', LoadEpoch);
    states', steps' := Extend(states', steps', ClearEnd);
    states', steps' := Extend(states', steps', Exchange);
    states', steps' := Extend(states', steps', Poll);
    states', steps' := Extend(states', steps', Unlock);
  }

  lemma EnterAndLoad(states: seq<State>, steps: seq<Step>, w: nat) returns (states': seq<State>, steps': seq<Step>)
    requires IsRun(states, steps) && Enabled(states[|steps|], WriterEnter(w))
    ensures IsRun(states', steps') && states'[0] == states[0]
    ensures var s := states[|steps|];
            var epoch := s.startEpoch + 1;
            states'[|steps'|] == s.(startEpoch := epoch, writers := s.writers[w := Holding(epoch, s.active)])
  {
    states', steps' := Extend(states, steps, WriterEnter(w));
    states', steps' := Extend(states', steps', WriterLoad(w));
    var s := states[|steps|];
    assert s.writers[w := Entered(s.startEpoch + 1)][w := Holding(s.startEpoch + 1, s.active)]
        == s.writers[w := Holding(s.startEpoch + 1, s.active)];
  }

  // Sampler 0 has yet to read its result while writer 7 holds what it would read.
  ghost predicate Racing(s: State) {
    0 in s.outside && s.outside[0].Returning? && Holds(s, 7, HandedOut(s))
  }

  // Sampler 1 replaces the inactive histogram after sampler 0 has unlocked and before it reads its result.
  lemma RaceBegins() returns (states: seq<State>, steps: seq<Step>)
    ensures IsRunFromStart(states, steps) && Racing(states[|steps|])
    ensures states[|steps|].pc.InactiveStored? && states[|steps|].active == HandedOut(states[|steps|])
  {
    states, steps := [State(0, 0, INT64_MIN, 0, 1, map[], Free, 0, map[], map[])], [];
    states, steps := HalfSample(states, steps, 0);
    states, steps := RestOfSample(states, steps);
    assert states[|steps|].active == 1 && states[|steps|].inactive == 0;
    assert states[|steps|].outside == map[0 := Returning];
    states, steps := EnterAndLoad(states, steps, 7);
    states, steps := HalfSample(states, steps, 1);
  }

  // Two sampler threads can make the read yield a histogram a writer is holding.
  lemma TwoSamplersRace() returns (states: seq<State>, steps: seq<Step>)
    ensures IsRunFromStart(states, steps) && |steps| > 0
    ensures var last := |steps| - 1;
            && steps[last] == Return(0)
            && Holds(states[last], 7, HandedOut(states[last]))
            && states[last].active == HandedOut(states[last])
  {
    states, steps := RaceBegins();
    states, steps := Extend(states, steps, Return(0));
  }

  // The program points of the sampler that has the mutex, in the order it passes them.
  function PointOf(pc: Pc): nat {
    match pc
    case Free => 0
    case Locked => 1
    case TempRead(_) => 2
    case ActiveLoaded(_, _) => 3
    case InactiveStored(_) => 4
    case ActiveStored => 5
    case EpochLoaded(_) => 6
    case EndCleared(_) => 7
    case Waiting(_, _) => 8
    case CaughtUp => 9
  }

  // The race lasts until the wait of the flip.
  lemma {:induction false} RaceUpTo(point: nat) returns (states: seq<State>, steps: seq<Step>)
    requires 4 <= point <= 8
    ensures IsRunFromStart(states, steps) && Racing(states[|steps|]) && PointOf(states[|steps|].pc) == point
  {
    hide Inv, IsRun;
    if point == 4 {
      states, steps := RaceBegins();
    } else {
      states, steps := RaceUpTo(point - 1);
      var step := match point case 5 => StoreActive case 6 => LoadEpoch case 7 => ClearEnd case _ => Exchange;
      states, steps := Extend(states, steps, step);
    }
  }

  // A run that ends in a late read of a histogram some writer holds, while the mutex is held at a point.
  ghost predicate ReadsHeldAt(states: seq<State>, steps: seq<Step>, pc: Pc) {
    && IsRunFromStart(states, steps) && |steps| > 0 && steps[|steps| - 1].Return?
    && PointOf(states[|steps| - 1].pc) == PointOf(pc)
    && !NobodyHolds(states[|steps| - 1], HandedOut(states[|steps| - 1]))
  }

  // Main result: a late read can go wrong at just those points of another sampler that lie between its
  // first store and the end of its wait.
  lemma LateReadHeldIff(pc: Pc)
    ensures (exists states, steps :: ReadsHeldAt(states, steps, pc)) <==>
      pc.InactiveStored? || pc.ActiveStored? || pc.EpochLoaded? || pc.EndCleared? || pc.Waiting?
  {
    hide IsRun, Enabled, Apply, Initial;
    forall states, steps | ReadsHeldAt(states, steps, pc)
      ensures 4 <= PointOf(pc) <= 8
    {
      assert IsRunFromStart(states, steps);
      ReadInRun(states, steps);
    }
    if 4 <= PointOf(pc) <= 8 {
      var states, steps := RaceUpTo(PointOf(pc));
      var states', steps' := ThenRead(states, steps);
      assert ReadsHeldAt(states', steps', pc);
    }
  }

  lemma ReadInRun(states: seq<State>, steps: seq<Step>)
    requires IsRunFromStart(states, steps) && |steps| > 0 && steps[|steps| - 1].Return?
    ensures var s := states[|steps| - 1];
            4 <= PointOf(s.pc) <= 8 || NobodyHolds(s, HandedOut(s))
  {
    LateReadIsUnheld(states, steps, steps[|steps| - 1].r, |steps| - 1);
  }

  lemma ThenRead(states: seq<State>, steps: seq<Step>) returns (states': seq<State>, steps': seq<Step>)
    requires IsRunFromStart(states, steps) && Racing(states[|steps|])
    ensures IsRunFromStart(states', steps') && |steps'| > 0 && steps'[|steps'| - 1] == Return(0)
    ensures states'[|steps'| - 1] == states[|steps|]
    ensures !NobodyHolds(states[|steps|], HandedOut(states[|steps|]))
  {
    states', steps' := Extend(states, steps, Return(0));
  }

  // ----- What the start epoch counts -----

  ghost function Entries(steps: seq<Step>, i: nat, j: nat): nat
    requires i <= j <= |steps|
    decreases j
  {
    if i == j then 0 else Entries(steps, i, j - 1) + (if steps[j - 1].WriterEnter? then 1 else 0)
  }

  // From a flip to the next the start epoch counts the writers that entered, from 0 in even phases and
  // from -2^63 in odd ones.
  lemma {:induction false} EntriesSinceFlip(states: seq<State>, steps: seq<Step>, i: nat, j: nat)
    requires IsRunFromStart(states, steps) && i < j <= |steps| && steps[i] == Exchange
    requires forall k | i < k < j :: steps[k] != Exchange
    ensures states[j].startEpoch
         == Entries(steps, i, j) + if states[i].OddPhase() then 0 else -0x8000_0000_0000_0000
    ensures states[j].OddPhase() != states[i].OddPhase()
    decreases j
  {
    hide Inv, Enabled, Apply, Initial;
    InvHolds(states, steps, j - 1);
    assert states[j] == Apply(states[j - 1], steps[j - 1]);
    EpochStep(states[j - 1], steps[j - 1]);
    if j == i + 1 {
      assert Entries(steps, i, i) == 0;
    } else {
      EntriesSinceFlip(states, steps, i, j - 1);
    }
  }

  lemma EpochStep(s: State, step: Step)
    requires Inv(s) && Enabled(s, step)
    ensures var s' := Apply(s, step);
            if step == Exchange then
              && s'.startEpoch == (if s.OddPhase() then 0 else -0x8000_0000_0000_0000)
              && s'.OddPhase() != s.OddPhase()
            else
              && s'.startEpoch == s.startEpoch + (if step.WriterEnter? then 1 else 0)
              && s'.OddPhase() == s.OddPhase()
  {
    hide Inside, BuffersSeparate;
  }

  // ----- The wait of a flip is bounded -----

  function StepsLeft(w: Writer): nat {
    match w
    case Entered(_) => 3
    case Holding(_, _) => 2
    case Updated(_) => 1
  }

  // Writers of a phase with at least k steps to go before they are out.
  ghost function WithSteps(writers: map<nat, Writer>, odd: bool, k: nat): set<nat> {
    set w | w in writers && (writers[w].val < 0) == odd && StepsLeft(writers[w]) >= k
  }

  // The steps all writers of a phase have left together.
  ghost function Work(writers: map<nat, Writer>, odd: bool): nat {
    |WithSteps(writers, odd, 1)| + |WithSteps(writers, odd, 2)| + |WithSteps(writers, odd, 3)|
  }

  // A step of a writer that entered before the flip.
  ghost predicate OfLeaving(s: State, step: Step) {
    match step
    case WriterLoad(w) => w in Inside(s.writers, !s.OddPhase())
    case WriterUpdate(w, _) => w in Inside(s.writers, !s.OddPhase())
    case WriterExit(w) => w in Inside(s.writers, !s.OddPhase())
    case _ => false
  }

  ghost function LeavingSteps(states: seq<State>, steps: seq<Step>, n: nat): nat
    requires n <= |steps| && n <= |states|
  {
    if n == 0 then 0
    else LeavingSteps(states, steps, n - 1) + (if OfLeaving(states[n - 1], steps[n - 1]) then 1 else 0)
  }

  ghost function LeavingExits(states: seq<State>, steps: seq<Step>, n: nat): nat
    requires n <= |steps| && n <= |states|
  {
    if n == 0 then 0
    else LeavingExits(states, steps, n - 1)
         + (if steps[n - 1].WriterExit? && OfLeaving(states[n - 1], steps[n - 1]) then 1 else 0)
  }

  // The distance the waiting sampler still sees between the two counters.
  function Gap(s: State): int
    requires s.pc.Waiting?
  {
    s.pc.startValueAtFlip - s.EndEpoch(s.pc.nextPhaseIsEven)
  }

  lemma WithStepsChanged(writers: map<nat, Writer>, w: nat, next: Writer, odd: bool, k: nat)
    requires w in writers && next.val == writers[w].val
    ensures |WithSteps(writers[w := next], odd, k)| - |WithSteps(writers, odd, k)|
         == (if (next.val < 0) == odd && StepsLeft(next) >= k then 1 else 0)
          - (if (next.val < 0) == odd && StepsLeft(writers[w]) >= k then 1 else 0)
  {
    var before, after := WithSteps(writers, odd, k), WithSteps(writers[w := next], odd, k);
    assert before - {w} == after - {w};
    assert |before - {w}| == |before| - (if w in before then 1 else 0);
    assert |after - {w}| == |after| - (if w in after then 1 else 0);
  }

  lemma WithStepsExited(writers: map<nat, Writer>, w: nat, odd: bool, k: nat)
    requires w in writers
    ensures |WithSteps(writers, odd, k)| - |WithSteps(writers - {w}, odd, k)|
         == if (writers[w].val < 0) == odd && StepsLeft(writers[w]) >= k then 1 else 0
  {
    assert WithSteps(writers - {w}, odd, k) == WithSteps(writers, odd, k) - {w};
  }

  lemma WithStepsEntered(writers: map<nat, Writer>, w: nat, val: int, k: nat)
    requires w !in writers
    ensures WithSteps(writers[w := Entered(val)], val >= 0, k) == WithSteps(writers, val >= 0, k)
  {
  }

  lemma WaitingStep(s: State, step: Step)
    requires Inv(s) && Enabled(s, step) && s.pc.Waiting? && Apply(s, step).pc.Waiting?
    ensures Apply(s, step).OddPhase() == s.OddPhase()
    ensures Work(s.writers, !s.OddPhase())
         == Work(Apply(s, step).writers, !s.OddPhase()) + (if OfLeaving(s, step) then 1 else 0)
  {
    hide Inv, CountsWriters, BuffersSeparate, WithSteps;
    var odd := !s.OddPhase();
    match step
    case WriterEnter(w) =>
      WithStepsEntered(s.writers, w, s.startEpoch + 1, 1);
      WithStepsEntered(s.writers, w, s.startEpoch + 1, 2);
      WithStepsEntered(s.writers, w, s.startEpoch + 1, 3);
    case WriterLoad(w) =>
      var next := Holding(s.writers[w].val, s.active);
      WithStepsChanged(s.writers, w, next, odd, 1);
      WithStepsChanged(s.writers, w, next, odd, 2);
      WithStepsChanged(s.writers, w, next, odd, 3);
    case WriterUpdate(w, _) =>
      var next := Updated(s.writers[w].val);
      WithStepsChanged(s.writers, w, next, odd, 1);
      WithStepsChanged(s.writers, w, next, odd, 2);
      WithStepsChanged(s.writers, w, next, odd, 3);
    case WriterExit(w) =>
      WithStepsExited(s.writers, w, odd, 1);
      WithStepsExited(s.writers, w, odd, 2);
      WithStepsExited(s.writers, w, odd, 3);
    case _ =>
  }

  // Nobody left inside and nothing left to do are the same, and the gap counts those inside.
  lemma GapCounts(s: State)
    requires Inv(s) && s.pc.Waiting?
    ensures Gap(s) == |Inside(s.writers, !s.OddPhase())|
    ensures Work(s.writers, !s.OddPhase()) <= 3 * Gap(s)
    ensures Work(s.writers, !s.OddPhase()) == 0 <==> Gap(s) == 0
    ensures Apply(s, Poll).pc.CaughtUp? <==> Gap(s) == 0
  {
    var odd := !s.OddPhase();
    assert WithSteps(s.writers, odd, 1) == Inside(s.writers, odd);
    SmallerSet(WithSteps(s.writers, odd, 2), Inside(s.writers, odd));
    SmallerSet(WithSteps(s.writers, odd, 3), Inside(s.writers, odd));
  }

  lemma {:induction false} SmallerSet(a: set<nat>, b: set<nat>)
    requires a <= b
    ensures |a| <= |b|
    decreases |a|
  {
    if a != {} {
      var x :| x in a;
      SmallerSet(a - {x}, b - {x});
    }
  }

  // Main result: while a flip waits, every step of a writer from before the flip uses up one of a
  // fixed number of steps, at most three for each of them, whatever newly arriving writers do.
  lemma {:induction false} WaitIsBounded(states: seq<State>, steps: seq<Step>, n: nat)
    requires IsRun(states, steps) && n < |states|
    requires Inv(states[0]) && forall k | 0 <= k <= n :: states[k].pc.Waiting?
    ensures Inv(states[n]) && states[n].OddPhase() == states[0].OddPhase()
    ensures LeavingSteps(states, steps, n) + Work(states[n].writers, !states[n].OddPhase())
         == Work(states[0].writers, !states[0].OddPhase()) <= 3 * Gap(states[0])
    ensures LeavingSteps(states, steps, n) == Work(states[0].writers, !states[0].OddPhase()) <==>
              Apply(states[n], Poll).pc.CaughtUp?
  {
    hide Inv, Work, Inside, Apply, OfLeaving;
    if n == 0 {
      GapCounts(states[0]);
    } else {
      WaitIsBounded(states, steps, n - 1);
      assert states[n] == Apply(states[n - 1], steps[n - 1]);
      StepKeepsInv(states[n - 1], steps[n - 1]);
      WaitingStep(states[n - 1], steps[n - 1]);
      GapCounts(states[n]);
    }
  }

  // The gap itself falls by one with every exit from the old phase and never otherwise changes.
  lemma GapStep(s: State, step: Step)
    requires Inv(s) && Enabled(s, step) && s.pc.Waiting? && Apply(s, step).pc.Waiting?
    ensures Gap(Apply(s, step)) == Gap(s) - (if step.WriterExit? && OfLeaving(s, step) then 1 else 0)
  {
  }

  lemma {:induction false} GapFalls(states: seq<State>, steps: seq<Step>, n: nat)
    requires IsRun(states, steps) && n < |states|
    requires Inv(states[0]) && forall k | 0 <= k <= n :: states[k].pc.Waiting?
    ensures Inv(states[n])
    ensures 0 <= Gap(states[n]) == Gap(states[0]) - LeavingExits(states, steps, n)
  {
    hide Inv, Inside, Apply, OfLeaving, Gap;
    if n != 0 {
      GapFalls(states, steps, n - 1);
      StepKeepsInv(states[n - 1], steps[n - 1]);
      GapStep(states[n - 1], steps[n - 1]);
    }
    GapCounts(states[n]);
  }

  // ----- No update is lost or counted twice -----

  // One sampler thread that resets the inactive histogram before every sample.
  ghost predicate ResetsFirst(s: State, step: Step, r: nat) {
    SamplerIs(step, r) && (step.Lock? ==> r in s.outside && s.outside[r].Clean?)
  }

  ghost predicate Disciplined(states: seq<State>, steps: seq<Step>, r: nat)
    requires |steps| <= |states|
  {
    forall k | 0 <= k < |steps| :: ResetsFirst(states[k], steps[k], r)
  }

  // The values of the update actions performed in the first n steps.
  ghost function Performed(steps: seq<Step>, n: nat): multiset<int>
    requires n <= |steps|
  {
    if n == 0 then multiset{}
    else Performed(steps, n - 1) + (if steps[n - 1].WriterUpdate? then multiset{steps[n - 1].v} else multiset{})
  }

  // The contents of all histograms handed out in the first n steps.
  ghost function HandedOutContents(states: seq<State>, steps: seq<Step>, n: nat): multiset<int>
    requires n <= |steps| && n <= |states|
  {
    if n == 0 then multiset{}
    else HandedOutContents(states, steps, n - 1)
         + (if steps[n - 1].Return? then states[n - 1].Contents(HandedOut(states[n - 1])) else multiset{})
  }

  // The sampler is between its reset and the moment it makes the reset histogram active.
  predicate SpareIsClean(s: State, r: nat) {
    match s.pc
    case Free => r in s.outside && s.outside[r].Clean?
    case Locked => true
    case TempRead(_) => true
    case ActiveLoaded(_, _) => true
    case InactiveStored(_) => true
    case _ => false
  }

  // No sample is under way: the last one has been returned, the next reset is still to come.
  predicate BetweenSamples(s: State, r: nat) {
    s.pc.Free? && r !in s.outside
  }

  ghost predicate Accounted(s: State, r: nat, performed: multiset<int>, handedOut: multiset<int>) {
    && (SpareIsClean(s, r) ==> s.Contents(Spare(s)) == multiset{})
    && performed == handedOut + s.Contents(s.active)
                    + (if BetweenSamples(s, r) then multiset{} else s.Contents(Spare(s)))
  }

  lemma AccountedKept(s: State, step: Step, r: nat, performed: multiset<int>, handedOut: multiset<int>)
    requires Inv(s) && Alone(s, r) && Enabled(s, step) && ResetsFirst(s, step, r)
    requires Accounted(s, r, performed, handedOut)
    ensures Accounted(Apply(s, step), r,
                      performed + (if step.WriterUpdate? then multiset{step.v} else multiset{}),
                      handedOut + (if step.Return? then s.Contents(HandedOut(s)) else multiset{}))
  {
    assert performed + multiset{} == performed && handedOut + multiset{} == handedOut;
    if step.WriterUpdate? {
      UpdateAccounted(s, step.w, step.v, r, performed, handedOut);
    } else if step.Return? {
      ReturnAccounted(s, r, performed, handedOut);
    } else {
      OtherAccounted(s, step, r, performed, handedOut);
    }
  }

  // A step that moves no contents and changes no roles.
  lemma RolesKept(s: State, step: Step, r: nat)
    requires Inv(s) && Alone(s, r) && Enabled(s, step) && ResetsFirst(s, step, r)
    requires !step.WriterUpdate? && !step.Return? && !step.Reset? && !step.StoreActive?
    ensures var s' := Apply(s, step);
            && s'.contents == s.contents && s'.active == s.active && Spare(s') == Spare(s)
            && (SpareIsClean(s', r) ==> SpareIsClean(s, r)) && BetweenSamples(s', r) == BetweenSamples(s, r)
  {
    hide CountsWriters, HoldOnly, Inside;
  }

  lemma ResetAccounted(s: State, r: nat, performed: multiset<int>, handedOut: multiset<int>)
    requires Inv(s) && Alone(s, r) && Enabled(s, Reset(r))
    requires Accounted(s, r, performed, handedOut)
    ensures Accounted(Apply(s, Reset(r)), r, performed, handedOut)
  {
    hide CountsWriters, HoldOnly, Inside;
    var s' := Apply(s, Reset(r));
    assert BetweenSamples(s, r) && s'.Contents(s.active) == s.Contents(s.active);
    assert performed + multiset{} == performed;
  }

  lemma SwapAccounted(s: State, r: nat, performed: multiset<int>, handedOut: multiset<int>)
    requires Inv(s) && Enabled(s, StoreActive)
    requires Accounted(s, r, performed, handedOut)
    ensures Accounted(Apply(s, StoreActive), r, performed, handedOut)
  {
    hide CountsWriters, HoldOnly, Inside;
    var s' := Apply(s, StoreActive);
    assert s'.active == Spare(s) && Spare(s') == s.active;
  }

  lemma OtherAccounted(s: State, step: Step, r: nat, performed: multiset<int>, handedOut: multiset<int>)
    requires Inv(s) && Alone(s, r) && Enabled(s, step) && ResetsFirst(s, step, r)
    requires !step.WriterUpdate? && !step.Return?
    requires Accounted(s, r, performed, handedOut)
    ensures Accounted(Apply(s, step), r, performed, handedOut)
  {
    if step.Reset? {
      ResetAccounted(s, r, performed, handedOut);
    } else if step.StoreActive? {
      SwapAccounted(s, r, performed, handedOut);
    } else {
      RolesKept(s, step, r);
      hide Inv, Apply, Alone, Spare, SpareIsClean, BetweenSamples;
    }
  }

  lemma ReturnAccounted(s: State, r: nat, performed: multiset<int>, handedOut: multiset<int>)
    requires Inv(s) && Alone(s, r) && Enabled(s, Return(r))
    requires Accounted(s, r, performed, handedOut)
    ensures Accounted(Apply(s, Return(r)), r, performed, handedOut + s.Contents(HandedOut(s)))
  {
    hide CountsWriters, HoldOnly, Inside;
    assert s.pc.Free? && Spare(s) == HandedOut(s);
  }

  // Only the active histogram is written while the spare one is clean or already returned.
  lemma UpdateTarget(s: State, w: nat, r: nat)
    requires Inv(s) && Alone(s, r) && w in s.writers && s.writers[w].Holding?
    ensures s.active != Spare(s)
    ensures s.writers[w].buf == s.active || s.writers[w].buf == Spare(s)
    ensures s.writers[w].buf == Spare(s) ==> !SpareIsClean(s, r) && !BetweenSamples(s, r)
  {
    hide CountsWriters, Inside;
  }

  lemma UpdateAccounted(s: State, w: nat, v: int, r: nat, performed: multiset<int>, handedOut: multiset<int>)
    requires Inv(s) && Alone(s, r) && Enabled(s, WriterUpdate(w, v))
    requires Accounted(s, r, performed, handedOut)
    ensures Accounted(Apply(s, WriterUpdate(w, v)), r, performed + multiset{v}, handedOut)
  {
    UpdateTarget(s, w, r);
    var b := s.writers[w].buf;
    var s' := Apply(s, WriterUpdate(w, v));
    assert Spare(s') == Spare(s) && SpareIsClean(s', r) == SpareIsClean(s, r);
    assert BetweenSamples(s', r) == BetweenSamples(s, r);
    assert s'.Contents(s.active) == s.Contents(s.active) + (if b == s.active then multiset{v} else multiset{});
    assert s'.Contents(Spare(s)) == s.Contents(Spare(s)) + (if b == Spare(s) then multiset{v} else multiset{});
    UpdateSum(performed, handedOut, s.Contents(s.active), s.Contents(Spare(s)), v);
    hide Inv, Alone, Apply, Spare, SpareIsClean, BetweenSamples;
  }

  lemma UpdateSum(performed: multiset<int>, handedOut: multiset<int>, a: multiset<int>, b: multiset<int>, v: int)
    ensures performed == handedOut + a + b ==> performed + multiset{v} == handedOut + (a + multiset{v}) + b
    ensures performed == handedOut + a + b ==> performed + multiset{v} == handedOut + a + (b + multiset{v})
    ensures performed == handedOut + a ==> performed + multiset{v} == handedOut + (a + multiset{v})
  {
  }

  // Main result: after any number of steps, the updates performed are exactly those in all intervals
  // handed out, those in the active histogram, and during a sample those about to be handed out.
  lemma {:induction false} NoUpdateLost(states: seq<State>, steps: seq<Step>, r: nat, n: nat)
    requires IsRunFromStart(states, steps) && Disciplined(states, steps, r) && n < |states|
    ensures Accounted(states[n], r, Performed(steps, n), HandedOutContents(states, steps, n))
    ensures BetweenSamples(states[n], r) ==>
      Performed(steps, n) == HandedOutContents(states, steps, n) + states[n].Contents(states[n].active)
  {
    hide Inv, Apply, Enabled, Alone, ResetsFirst;
    if n != 0 {
      NoUpdateLost(states, steps, r, n - 1);
      InvHolds(states, steps, n - 1);
      AloneHolds(states, steps, r, n - 1) by {
        assert OneSampler(steps, r) by { DisciplinedAlone(states, steps, r); }
      }
      assert states[n] == Apply(states[n - 1], steps[n - 1]);
      assert ResetsFirst(states[n - 1], steps[n - 1], r);
      AccountedKept(states[n - 1], steps[n - 1], r, Performed(steps, n - 1), HandedOutContents(states, steps, n - 1));
    }
  }

  lemma DisciplinedAlone(states: seq<State>, steps: seq<Step>, r: nat)
    requires |steps| <= |states| && Disciplined(states, steps, r)
    ensures OneSampler(steps, r)
  {
    forall k | 0 <= k < |steps|
      ensures SamplerIs(steps[k], r)
    {
      assert ResetsFirst(states[k], steps[k], r);
    }
  }
}
