/** The interval recorder and its writer/reader phaser as a transition system: one step for
    every atomic access, for any number of writer threads and of sampler threads. */
module Phaser {
  const INT64_MIN: int := -0x8000_0000_0000_0000
  const TWO_TO_63: int := 0x8000_0000_0000_0000

  // Where a writer thread stands between entering and leaving; an absent writer is outside.
  datatype Writer =
    | Entered(val: int)
    | Holding(val: int, buf: nat)
    | Updated(val: int)

  // Where the sampler that holds the reader mutex stands; Free when the mutex is not held.
  datatype Pc =
    | Free
    | Locked
    | TempRead(temp: nat)
    | ActiveLoaded(temp: nat, loaded: nat)
    | InactiveStored(temp: nat)
    | ActiveStored
    | EpochLoaded(nextPhaseIsEven: bool)
    | EndCleared(nextPhaseIsEven: bool)
    | Waiting(nextPhaseIsEven: bool, startValueAtFlip: int)
    | CaughtUp

  // Where a sampler that does not hold the mutex stands, unless it is between samples:
  // it has reset the inactive histogram, or has unlocked and not yet read its result.
  datatype Outside = Clean | Returning

  datatype State = State(
    startEpoch: int,
    evenEndEpoch: int,
    oddEndEpoch: int,
    active: nat,
    inactive: nat,
    writers: map<nat, Writer>,
    pc: Pc,
    holder: nat,
    outside: map<nat, Outside>,
    contents: map<nat, multiset<int>>)
  {
    function Contents(b: nat): multiset<int> {
      if b in contents then contents[b] else multiset{}
    }

    function EndEpoch(odd: bool): int {
      if odd then oddEndEpoch else evenEndEpoch
    }

    predicate OddPhase() {
      startEpoch < 0
    }
  }

  datatype Step =
    | WriterEnter(w: nat)
    | WriterLoad(w: nat)
    | WriterUpdate(w: nat, v: int)
    | WriterExit(w: nat)
    | Reset(r: nat)
    | Lock(r: nat)
    | ReadInactive
    | LoadActive
    | StoreInactive
    | StoreActive
    | LoadEpoch
    | ClearEnd
    | Exchange
    | Poll
    | Unlock
    | Return(r: nat)

  predicate Initial(s: State) {
    && s.startEpoch == 0 && s.evenEndEpoch == 0 && s.oddEndEpoch == INT64_MIN
    && s.active != s.inactive
    && s.writers == map[] && s.pc == Free && s.outside == map[] && s.contents == map[]
  }

  // A phase is assumed to see fewer than 2^63 entries, so that its counter keeps its sign.
  predicate Enabled(s: State, step: Step) {
    match step
    case WriterEnter(w) => w !in s.writers && s.startEpoch + 1 != 0 && s.startEpoch + 1 < TWO_TO_63
    case WriterLoad(w) => w in s.writers && s.writers[w].Entered?
    case WriterUpdate(w, _) => w in s.writers && s.writers[w].Holding?
    case WriterExit(w) => w in s.writers && s.writers[w].Updated?
    case Reset(r) => r !in s.outside && (s.pc.Free? || s.holder != r)
    case Lock(r) => s.pc.Free? && (r in s.outside ==> s.outside[r].Clean?)
    case ReadInactive => s.pc.Locked?
    case LoadActive => s.pc.TempRead?
    case StoreInactive => s.pc.ActiveLoaded?
    case StoreActive => s.pc.InactiveStored?
    case LoadEpoch => s.pc.ActiveStored?
    case ClearEnd => s.pc.EpochLoaded?
    case Exchange => s.pc.EndCleared?
    case Poll => s.pc.Waiting?
    case Unlock => s.pc.CaughtUp?
    case Return(r) => r in s.outside && s.outside[r].Returning?
  }

  // The state after a step.
  function Apply(s: State, step: Step): State
    requires Enabled(s, step)
  {
    match step
    case WriterEnter(w) =>
      s.(startEpoch := s.startEpoch + 1, writers := s.writers[w := Entered(s.startEpoch + 1)])
    case WriterLoad(w) =>
      s.(writers := s.writers[w := Holding(s.writers[w].val, s.active)])
    case WriterUpdate(w, v) =>
      var b := s.writers[w].buf;
      s.(writers := s.writers[w := Updated(s.writers[w].val)],
         contents := s.contents[b := s.Contents(b) + multiset{v}])
    case WriterExit(w) =>
      if s.writers[w].val < 0 then
        s.(oddEndEpoch := s.oddEndEpoch + 1, writers := s.writers - {w})
      else
        s.(evenEndEpoch := s.evenEndEpoch + 1, writers := s.writers - {w})
    case Reset(r) =>
      s.(contents := s.contents[s.inactive := multiset{}], outside := s.outside[r := Clean])
    case Lock(r) =>
      s.(pc := Locked, holder := r, outside := s.outside - {r})
    case ReadInactive =>
      s.(pc := TempRead(s.inactive))
    case LoadActive =>
      s.(pc := ActiveLoaded(s.pc.temp, s.active))
    case StoreInactive =>
      s.(pc := InactiveStored(s.pc.temp), inactive := s.pc.loaded)
    case StoreActive =>
      s.(pc := ActiveStored, active := s.pc.temp)
    case LoadEpoch =>
      s.(pc := EpochLoaded(s.startEpoch < 0))
    case ClearEnd =>
      if s.pc.nextPhaseIsEven then
        s.(pc := EndCleared(true), evenEndEpoch := 0)
      else
        s.(pc := EndCleared(false), oddEndEpoch := INT64_MIN)
    case Exchange =>
      s.(pc := Waiting(s.pc.nextPhaseIsEven, s.startEpoch), startEpoch := if s.pc.nextPhaseIsEven then 0 else INT64_MIN)
    case Poll =>
      if s.EndEpoch(s.pc.nextPhaseIsEven) == s.pc.startValueAtFlip then s.(pc := CaughtUp) else s
    case Unlock =>
      s.(pc := Free, outside := s.outside[s.holder := Returning])
    case Return(r) =>
      s.(outside := s.outside - {r})
  }

  // The histogram a Return step hands out.
  function HandedOut(s: State): nat {
    s.inactive
  }

  // ----- Runs -----

  ghost predicate IsRun(states: seq<State>, steps: seq<Step>) {
    && |states| == |steps| + 1
    && forall i | 0 <= i < |steps| :: Enabled(states[i], steps[i]) && states[i + 1] == Apply(states[i], steps[i])
  }

  ghost predicate IsRunFromStart(states: seq<State>, steps: seq<Step>) {
    IsRun(states, steps) && Initial(states[0])
  }

  // ----- The invariant -----

  // Writers inside that entered in an odd, or in an even, phase.
  ghost function Inside(writers: map<nat, Writer>, odd: bool): set<nat> {
    set w | w in writers && (writers[w].val < 0) == odd
  }

  // The phase counters count the writers inside.
  ghost predicate CountsWriters(s: State) {
    var odd := s.OddPhase();
    && -0x8000_0000_0000_0000 <= s.startEpoch < 0x8000_0000_0000_0000
    && s.startEpoch - s.EndEpoch(odd) == |Inside(s.writers, odd)|
    && match s.pc
       case Waiting(nextPhaseIsEven, startValueAtFlip) =>
         && odd == !nextPhaseIsEven
         && startValueAtFlip - s.EndEpoch(!odd) == |Inside(s.writers, !odd)|
       case EpochLoaded(nextPhaseIsEven) => nextPhaseIsEven == odd && Inside(s.writers, !odd) == {}
       case EndCleared(nextPhaseIsEven) =>
         && nextPhaseIsEven == odd && Inside(s.writers, !odd) == {}
         && s.EndEpoch(!odd) == (if odd then 0 else INT64_MIN)
       case _ => Inside(s.writers, !odd) == {}
  }

  ghost predicate Holds(s: State, w: nat, b: nat) {
    w in s.writers && s.writers[w].Holding? && s.writers[w].buf == b
  }

  // Which of the two histograms writers may hold, given how far the sampler is.
  ghost predicate BuffersSeparate(s: State) {
    match s.pc
    case TempRead(temp) => s.active != s.inactive && temp == s.inactive && HoldOnly(s, {s.active})
    case ActiveLoaded(temp, loaded) =>
      s.active != s.inactive && temp == s.inactive && loaded == s.active && HoldOnly(s, {s.active})
    case InactiveStored(temp) => s.inactive == s.active != temp && HoldOnly(s, {s.active})
    case ActiveStored => s.active != s.inactive && HoldOnly(s, {s.active, s.inactive})
    case EpochLoaded(_) => s.active != s.inactive && HoldOnly(s, {s.active, s.inactive})
    case EndCleared(_) => s.active != s.inactive && HoldOnly(s, {s.active, s.inactive})
    case Waiting(_, _) =>
      && s.active != s.inactive && HoldOnly(s, {s.active, s.inactive})
      && forall w | w in Inside(s.writers, s.OddPhase()) && s.writers[w].Holding? :: s.writers[w].buf == s.active
    case _ => s.active != s.inactive && HoldOnly(s, {s.active})
  }

  ghost predicate HoldOnly(s: State, allowed: set<nat>) {
    forall w | w in s.writers && s.writers[w].Holding? :: s.writers[w].buf in allowed
  }

  ghost predicate Inv(s: State) {
    CountsWriters(s) && BuffersSeparate(s)
  }

  lemma InsideUnchanged(writers: map<nat, Writer>, w: nat, next: Writer, odd: bool)
    requires w in writers && next.val == writers[w].val
    ensures Inside(writers[w := next], odd) == Inside(writers, odd)
  {
  }

  lemma InsideEntered(writers: map<nat, Writer>, w: nat, val: int)
    requires w !in writers
    ensures Inside(writers[w := Entered(val)], val < 0) == Inside(writers, val < 0) + {w}
    ensures |Inside(writers[w := Entered(val)], val < 0)| == |Inside(writers, val < 0)| + 1
    ensures Inside(writers[w := Entered(val)], val >= 0) == Inside(writers, val >= 0)
  {
    assert w !in Inside(writers, val < 0);
  }

  lemma InsideExited(writers: map<nat, Writer>, w: nat)
    requires w in writers
    ensures var odd := writers[w].val < 0;
            && w in Inside(writers, odd)
            && Inside(writers - {w}, odd) == Inside(writers, odd) - {w}
            && |Inside(writers - {w}, odd)| == |Inside(writers, odd)| - 1
            && Inside(writers - {w}, !odd) == Inside(writers, !odd)
  {
    assert w in Inside(writers, writers[w].val < 0);
  }

  lemma InvInitially(s: State)
    requires Initial(s)
    ensures Inv(s)
  {
    assert Inside(s.writers, true) == {} && Inside(s.writers, false) == {};
  }

  lemma WriterKeepsInv(s: State, step: Step)
    requires Inv(s) && Enabled(s, step)
    requires step.WriterEnter? || step.WriterLoad? || step.WriterUpdate? || step.WriterExit?
    ensures Inv(Apply(s, step))
  {
    hide Inv, Apply, Enabled;
    match step
    case WriterEnter(w) => EnterKeepsInv(s, w);
    case WriterLoad(w) => LoadKeepsInv(s, w);
    case WriterUpdate(w, v) => UpdateKeepsInv(s, w, v);
    case WriterExit(w) => ExitKeepsInv(s, w);
  }

  lemma EnterKeepsInv(s: State, w: nat)
    requires Inv(s) && Enabled(s, WriterEnter(w))
    ensures Inv(Apply(s, WriterEnter(w)))
  {
    hide Inside;
    InsideEntered(s.writers, w, s.startEpoch + 1);
  }

  lemma LoadKeepsInv(s: State, w: nat)
    requires Inv(s) && Enabled(s, WriterLoad(w))
    ensures Inv(Apply(s, WriterLoad(w)))
  {
    hide Inside;
    InsideUnchanged(s.writers, w, Holding(s.writers[w].val, s.active), true);
    InsideUnchanged(s.writers, w, Holding(s.writers[w].val, s.active), false);
  }

  lemma UpdateKeepsInv(s: State, w: nat, v: int)
    requires Inv(s) && Enabled(s, WriterUpdate(w, v))
    ensures Inv(Apply(s, WriterUpdate(w, v)))
  {
    hide Inside;
    InsideUnchanged(s.writers, w, Updated(s.writers[w].val), true);
    InsideUnchanged(s.writers, w, Updated(s.writers[w].val), false);
  }

  lemma ExitKeepsInv(s: State, w: nat)
    requires Inv(s) && Enabled(s, WriterExit(w))
    ensures Inv(Apply(s, WriterExit(w)))
  {
    var s' := Apply(s, WriterExit(w));
    InsideExited(s.writers, w);
    assert CountsWriters(s') by {
      hide Inside;
      if s.writers[w].val < 0 {
        assert s'.EndEpoch(true) == s.EndEpoch(true) + 1 && s'.EndEpoch(false) == s.EndEpoch(false);
      } else {
        assert s'.EndEpoch(false) == s.EndEpoch(false) + 1 && s'.EndEpoch(true) == s.EndEpoch(true);
      }
    }
    assert BuffersSeparate(s');
  }

  lemma SamplerKeepsInv(s: State, step: Step)
    requires Inv(s) && Enabled(s, step)
    requires !step.WriterEnter? && !step.WriterLoad? && !step.WriterUpdate? && !step.WriterExit?
    ensures Inv(Apply(s, step))
  {
    if step.Exchange? {
      ExchangeKeepsInv(s);
    } else if step.Poll? {
      PollKeepsInv(s);
    } else {
      hide Inside;
    }
  }

  // The exchange starts a phase nobody has entered yet; everyone inside belongs to the old one.
  lemma ExchangeKeepsInv(s: State)
    requires Inv(s) && s.pc.EndCleared?
    ensures Inv(Apply(s, Exchange))
  {
    assert |Inside(s.writers, !s.OddPhase())| == 0;
  }

  // The wait ends only when everyone of the old phase has left.
  lemma PollKeepsInv(s: State)
    requires Inv(s) && s.pc.Waiting?
    ensures Inv(Apply(s, Poll))
    ensures Apply(s, Poll).pc.CaughtUp? <==> Inside(s.writers, !s.OddPhase()) == {}
  {
    var leaving := Inside(s.writers, !s.OddPhase());
    assert |leaving| == 0 <==> leaving == {};
    forall w | w in s.writers
      ensures w in Inside(s.writers, s.OddPhase()) || w in leaving
    {
    }
  }

  lemma {:induction false} InvHolds(states: seq<State>, steps: seq<Step>, i: nat)
    requires IsRunFromStart(states, steps) && i < |states|
    ensures Inv(states[i])
  {
    hide Inv, Initial, Apply, Enabled;
    if i == 0 {
      InvInitially(states[0]);
    } else {
      InvHolds(states, steps, i - 1);
      StepKeepsInv(states[i - 1], steps[i - 1]);
    }
  }

  lemma StepKeepsInv(s: State, step: Step)
    requires Inv(s) && Enabled(s, step)
    ensures Inv(Apply(s, step))
  {
    hide Inv, Apply, Enabled;
    if step.WriterEnter? || step.WriterLoad? || step.WriterUpdate? || step.WriterExit? {
      WriterKeepsInv(s, step);
    } else {
      SamplerKeepsInv(s, step);
    }
  }
}
