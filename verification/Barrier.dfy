/** The barrier of lib/posix/options/barriers/barrier.c as a step machine: a counter under a mutex,
    and a condition variable on which every leaving thread signals once. */
module Barrier {
  import opened Common

  /** Where a thread stands in pthread_barrier_wait. */
  datatype Pc =
    | Out
    | Test                  // holds the mutex, about to test count != 0
    | Asleep                // waits on the condition variable
    | Woken                 // signalled, waits for the mutex
    | Signal(serial: bool)  // holds the mutex, about to signal
    | Unlock(serial: bool)  // holds the mutex, about to unlock it and return

  /** `arrivals`, `resets` and `serials` record history: how often a thread has arrived, how often
      the counter was reset, how often PTHREAD_BARRIER_SERIAL_THREAD was returned. `round[t]` is the
      number of resets before the last arrival of thread `t`. */
  datatype State = State(max: nat, count: nat, holder: Option<nat>, pc: seq<Pc>,
                         arrivals: nat, resets: nat, serials: nat, round: seq<nat>)

  /** Locking the mutex and counting oneself is one step: nobody sees the counter in between. */
  datatype Op =
    | Arrive(t: nat)
    | Check(t: nat)
    | Wake(t: nat, u: nat)   // signal with a sleeper: `u` is the one that wakes
    | WakeNone(t: nat)       // signal with no sleeper
    | Leave(t: nat)
    | Relock(t: nat)

  /** pthread_barrier_init with count `max`, and `n` threads about to use the barrier. */
  function Init(max: nat, n: nat): State {
    State(max, 0, None, seq(n, _ => Out), 0, 0, 0, seq(n, _ => 0))
  }

  predicate Enabled(s: State, op: Op) {
    op.t < |s.pc| == |s.round| &&
    var pc := s.pc[op.t];
    match op
    case Arrive(_) => pc.Out? && s.holder.None?
    case Check(_) => pc.Test?
    case Wake(_, u) => pc.Signal? && u < |s.pc| && s.pc[u].Asleep?
    case WakeNone(_) => pc.Signal? && forall u :: 0 <= u < |s.pc| ==> !s.pc[u].Asleep?
    case Leave(_) => pc.Unlock?
    case Relock(_) => pc.Woken? && s.holder.None?
  }

  function Apply(s: State, op: Op): State
    requires Enabled(s, op)
  {
    var t := op.t;
    match op
    case Arrive(_) =>
      var r := s.(holder := Some(t), arrivals := s.arrivals + 1, round := s.round[t := s.resets]);
      if s.count + 1 == s.max then r.(count := 0, resets := s.resets + 1, pc := s.pc[t := Signal(true)])
      else r.(count := s.count + 1, pc := s.pc[t := Test])
    case Check(_) =>
      if s.count != 0 then s.(holder := None, pc := s.pc[t := Asleep]) else s.(pc := s.pc[t := Signal(false)])
    case Wake(_, u) => s.(pc := s.pc[u := Woken][t := Unlock(s.pc[t].serial)])
    case WakeNone(_) => s.(pc := s.pc[t := Unlock(s.pc[t].serial)])
    case Leave(_) =>
      s.(holder := None, pc := s.pc[t := Out], serials := s.serials + (if s.pc[t].serial then 1 else 0))
    case Relock(_) => s.(holder := Some(t), pc := s.pc[t := Test])
  }

  predicate Run(states: seq<State>, ops: seq<Op>) {
    && |states| == |ops| + 1
    && forall k :: 0 <= k < |ops| ==> Enabled(states[k], ops[k]) && states[k + 1] == Apply(states[k], ops[k])
  }

  // ---------------------------------------------------------------- counting, without premise

  predicate Holds(pc: Pc) { pc.Test? || pc.Signal? || pc.Unlock? }

  predicate Serial(pc: Pc) { (pc.Signal? || pc.Unlock?) && pc.serial }

  function Sum(pc: seq<Pc>, w: Pc -> nat): nat {
    if pc == [] then 0 else Sum(pc[..|pc| - 1], w) + w(pc[|pc| - 1])
  }

  function SerialWeight(pc: Pc): nat { if Serial(pc) then 1 else 0 }

  /** The threads that have still to return the serial value. */
  function Serials(pc: seq<Pc>): nat { Sum(pc, SerialWeight) }

  ghost predicate CountInv(s: State) {
    && s.max > 0 && |s.pc| == |s.round| && s.count < s.max
    && s.arrivals == s.max * s.resets + s.count
    && s.serials + Serials(s.pc) == s.resets
    && (s.holder.Some? ==> s.holder.value < |s.pc|)
    && (forall t :: 0 <= t < |s.pc| ==> (s.holder == Some(t) <==> Holds(s.pc[t])))
    && (forall t :: 0 <= t < |s.pc| && !s.pc[t].Out? ==> s.round[t] <= s.resets)
    && (forall t :: 0 <= t < |s.pc| && !s.pc[t].Out? && s.round[t] == s.resets ==>
                      s.count > 0 && !s.pc[t].Signal? && !s.pc[t].Unlock?)
  }

  lemma {:induction false} SumUpdate(pc: seq<Pc>, t: nat, p: Pc, w: Pc -> nat)
    requires t < |pc|
    ensures Sum(pc[t := p], w) == Sum(pc, w) - w(pc[t]) + w(p) && w(pc[t]) <= Sum(pc, w)
    decreases |pc|
  {
    var n := |pc| - 1;
    var q := pc[t := p];
    if t < n {
      assert q[..n] == pc[..n][t := p];
      SumUpdate(pc[..n], t, p, w);
    } else {
      assert q[..n] == pc[..n];
    }
  }

  lemma {:induction false} SumZero(pc: seq<Pc>, w: Pc -> nat)
    requires forall t :: 0 <= t < |pc| ==> w(pc[t]) == 0
    ensures Sum(pc, w) == 0
  {
    if pc != [] { SumZero(pc[..|pc| - 1], w); }
  }

  lemma SumStep(s: State, op: Op, w: Pc -> nat)
    requires |s.pc| == |s.round| && Enabled(s, op)
    ensures var s' := Apply(s, op);
            Sum(s'.pc, w) == Sum(s.pc, w) - w(s.pc[op.t]) + w(s'.pc[op.t])
                             + (if op.Wake? then w(Woken) - w(Asleep) else 0)
  {
    var s' := Apply(s, op);
    var t := op.t;
    if op.Wake? {
      SumUpdate(s.pc, op.u, Woken, w);
      SumUpdate(s.pc[op.u := Woken], t, s'.pc[t], w);
    } else {
      SumUpdate(s.pc, t, s'.pc[t], w);
      assert s'.pc == s.pc[t := s'.pc[t]];
    }
  }

  lemma ArithmeticStep(s: State, op: Op)
    requires CountInv(s) && Enabled(s, op)
    ensures var s' := Apply(s, op);
            s'.max == s.max && s'.count < s'.max && s'.arrivals == s'.max * s'.resets + s'.count
  {
    if op.Arrive? && s.count + 1 == s.max {
      assert s.max * (s.resets + 1) == s.max * s.resets + s.max;
    }
  }

  lemma HolderStep(s: State, op: Op)
    requires CountInv(s) && Enabled(s, op)
    ensures var s' := Apply(s, op);
            && (s'.holder.Some? ==> s'.holder.value < |s'.pc|)
            && forall u :: 0 <= u < |s'.pc| ==> (s'.holder == Some(u) <==> Holds(s'.pc[u]))
  {
    var s' := Apply(s, op);
    forall u | 0 <= u < |s.pc|
      ensures s'.holder == Some(u) <==> Holds(s'.pc[u])
    {
      assert s.holder == Some(op.t) <==> Holds(s.pc[op.t]);
      assert s.holder == Some(u) <==> Holds(s.pc[u]);
    }
  }

  lemma CountStep(s: State, op: Op)
    requires CountInv(s) && Enabled(s, op)
    ensures CountInv(Apply(s, op))
  {
    SumStep(s, op, SerialWeight);
    ArithmeticStep(s, op);
    HolderStep(s, op);
  }

  lemma {:induction false} CountRun(states: seq<State>, ops: seq<Op>, k: nat)
    requires Run(states, ops) && k <= |ops| && CountInv(states[0])
    ensures CountInv(states[k])
  {
    if k > 0 {
      CountRun(states, ops, k - 1);
      CountStep(states[k - 1], ops[k - 1]);
    }
  }

  lemma InitCounts(max: nat, n: nat)
    requires max > 0
    ensures CountInv(Init(max, n))
  {
    SumZero(Init(max, n).pc, SerialWeight);
  }

  /** Over any run, with or without re-entry: arrivals are `max` times the resets plus the counter,
      and every reset is matched by one thread that has returned the serial value or is about to. */
  lemma ArrivalsAreCounted(max: nat, n: nat, states: seq<State>, ops: seq<Op>, k: nat)
    requires max > 0 && Run(states, ops) && states[0] == Init(max, n) && k <= |ops|
    ensures var s := states[k];
            s.max * s.resets + s.count == s.arrivals && s.count < s.max && s.serials + Serials(s.pc) == s.resets
  {
    InitCounts(max, n);
    CountRun(states, ops, k);
  }

  /** No thread returns 0 before the counter was reset after its own arrival, and so not before
      `max` threads arrived in its round. */
  lemma ZeroMeansRoundComplete(max: nat, n: nat, states: seq<State>, ops: seq<Op>, k: nat)
    requires max > 0 && Run(states, ops) && states[0] == Init(max, n) && k < |ops|
    requires ops[k].Leave?
    ensures var s := states[k]; var t := ops[k].t;
            t < |s.pc| == |s.round| && s.pc[t].Unlock?
            && s.resets > s.round[t] && s.arrivals >= s.max * (s.round[t] + 1)
  {
    InitCounts(max, n);
    CountRun(states, ops, k);
    var s, t := states[k], ops[k].t;
    assert Enabled(s, ops[k]);
    MulGrows(s.max, s.round[t] + 1, s.resets);
  }

  // ---------------------------------------------------------------- the hand-off, without re-entry

  /** A thread of a completed round that has not returned yet. */
  predicate Old(s: State, t: nat)
    requires t < |s.pc| == |s.round|
  {
    !s.pc[t].Out? && s.round[t] < s.resets
  }

  ghost predicate Draining(s: State)
    requires |s.pc| == |s.round|
  {
    exists t :: 0 <= t < |s.pc| && Old(s, t)
  }

  /** The premise: nobody enters while a round drains. */
  ghost predicate NoReentry(s: State, op: Op) {
    op.Arrive? ==> |s.pc| == |s.round| && !Draining(s)
  }

  function InsideWeight(pc: Pc): nat { if pc.Out? then 0 else 1 }

  function Inside(s: State): nat { Sum(s.pc, InsideWeight) }

  /** A thread that will signal before it returns. */
  predicate OwesSignal(pc: Pc) { pc.Woken? || pc.Test? || pc.Signal? }

  ghost predicate HandOff(s: State) {
    s.count == 0 && (exists t :: 0 <= t < |s.pc| && s.pc[t].Asleep?) ==>
      exists u :: 0 <= u < |s.pc| && OwesSignal(s.pc[u])
  }

  ghost predicate RoundInv(s: State) {
    && CountInv(s) && HandOff(s)
    && (s.count > 0 ==> !Draining(s))
    && (forall t :: 0 <= t < |s.pc| && s.pc[t].Woken? ==> Old(s, t))
    && (!Draining(s) ==> Inside(s) == s.count)
    && Inside(s) <= s.max
  }

  lemma HandOffStep(s: State, op: Op)
    requires RoundInv(s) && Enabled(s, op) && NoReentry(s, op)
    ensures HandOff(Apply(s, op))
  {
    var s' := Apply(s, op);
    match op {
      case Arrive(t) => assert OwesSignal(s'.pc[t]);
      case Check(t) => assert s.count == 0 ==> OwesSignal(s'.pc[t]);
      case Wake(t, u) => assert s'.pc[u].Woken? && OwesSignal(s'.pc[u]);
      case WakeNone(t) => assert forall u :: 0 <= u < |s.pc| && u != t ==> s'.pc[u] == s.pc[u];
      case Leave(t) =>
        if x :| 0 <= x < |s'.pc| && s'.pc[x].Asleep? {
          assert s.pc[x].Asleep?;
          if s.count == 0 {
            var u :| 0 <= u < |s.pc| && OwesSignal(s.pc[u]);
            assert OwesSignal(s'.pc[u]);
          }
        }
      case Relock(t) => assert OwesSignal(s'.pc[t]);
    }
  }

  lemma DrainingStep(s: State, op: Op)
    requires RoundInv(s) && Enabled(s, op) && NoReentry(s, op)
    ensures var s' := Apply(s, op);
            && |s'.pc| == |s'.round|
            && (s'.count > 0 ==> !Draining(s'))
            && (forall t :: 0 <= t < |s'.pc| && s'.pc[t].Woken? ==> Old(s', t))
  {
    var s' := Apply(s, op);
    CountStep(s, op);
    if s'.count > 0 {
      forall u | 0 <= u < |s'.pc| ensures !Old(s', u) {
        assert !Old(s, u);
      }
    }
    if op.Wake? {
      assert Old(s, op.t);
      assert s.count == 0;
      assert Old(s, op.u);
    }
    forall t | 0 <= t < |s'.pc| && s'.pc[t].Woken? ensures Old(s', t) {
      assert (op.Wake? && t == op.u) || s.pc[t].Woken?;
    }
  }

  lemma InsideStep(s: State, op: Op)
    requires RoundInv(s) && Enabled(s, op) && NoReentry(s, op)
    ensures var s' := Apply(s, op);
            |s'.pc| == |s'.round| && (!Draining(s') ==> Inside(s') == s'.count) && Inside(s') <= s'.max
  {
    var s' := Apply(s, op);
    CountStep(s, op);
    SumStep(s, op, InsideWeight);
    if op.Arrive? {
      if s'.count == 0 { assert Old(s', op.t); }
    } else if Draining(s) {
      if !Draining(s') {
        assert s'.count == 0;
        forall t | 0 <= t < |s'.pc| ensures InsideWeight(s'.pc[t]) == 0 {
          assert !Old(s', t);
        }
        SumZero(s'.pc, InsideWeight);
      }
    } else if op.Leave? || op.Wake? || op.WakeNone? {
      assert Old(s, op.t);
    }
  }

  lemma RoundStep(s: State, op: Op)
    requires RoundInv(s) && Enabled(s, op) && NoReentry(s, op)
    ensures RoundInv(Apply(s, op))
  {
    CountStep(s, op);
    HandOffStep(s, op);
    DrainingStep(s, op);
    InsideStep(s, op);
  }

  ghost predicate GuardedRun(states: seq<State>, ops: seq<Op>) {
    Run(states, ops) && forall k :: 0 <= k < |ops| ==> NoReentry(states[k], ops[k])
  }

  lemma {:induction false} RoundRun(states: seq<State>, ops: seq<Op>, k: nat)
    requires GuardedRun(states, ops) && k <= |ops| && RoundInv(states[0])
    ensures RoundInv(states[k])
  {
    if k > 0 {
      RoundRun(states, ops, k - 1);
      assert Enabled(states[k - 1], ops[k - 1]) && NoReentry(states[k - 1], ops[k - 1]);
      RoundStep(states[k - 1], ops[k - 1]);
    }
  }

  lemma InitRound(max: nat, n: nat)
    requires max > 0
    ensures RoundInv(Init(max, n))
  {
    InitCounts(max, n);
    SumZero(Init(max, n).pc, InsideWeight);
  }

  /** Without re-entry, a sleeper of a completed round always has somebody who still owes it a signal. */
  lemma SleeperIsOwedASignal(max: nat, n: nat, states: seq<State>, ops: seq<Op>, k: nat, t: nat)
    requires max > 0 && GuardedRun(states, ops) && states[0] == Init(max, n) && k <= |ops|
    requires t < |states[k].pc| && states[k].pc[t].Asleep? && states[k].count == 0
    ensures exists u :: 0 <= u < |states[k].pc| && OwesSignal(states[k].pc[u])
  {
    InitRound(max, n);
    RoundRun(states, ops, k);
  }

  function DrainWeight(pc: Pc): nat {
    match pc
    case Out => 0
    case Unlock(_) => 1
    case Signal(_) => 2
    case Test => 3
    case Woken => 4
    case Asleep => 5
  }

  function Measure(s: State): nat { Sum(s.pc, DrainWeight) }

  lemma {:induction false} MeasureBound(pc: seq<Pc>)
    ensures Sum(pc, DrainWeight) <= 5 * Sum(pc, InsideWeight)
  {
    if pc != [] { MeasureBound(pc[..|pc| - 1]); }
  }

  /** Every step of a draining round brings it closer to its end. */
  lemma DrainStep(s: State, op: Op)
    requires RoundInv(s) && Draining(s) && Enabled(s, op) && NoReentry(s, op)
    ensures Measure(Apply(s, op)) < Measure(s) && Apply(s, op).count == 0
  {
    SumStep(s, op, DrainWeight);
  }

  lemma HolderCanGoOn(s: State, h: nat) returns (op: Op)
    requires CountInv(s) && s.holder == Some(h)
    ensures Enabled(s, op) && !op.Arrive?
  {
    assert Holds(s.pc[h]);
    match s.pc[h] {
      case Test => op := Check(h);
      case Unlock(_) => op := Leave(h);
      case Signal(_) =>
        if u :| 0 <= u < |s.pc| && s.pc[u].Asleep? { op := Wake(h, u); } else { op := WakeNone(h); }
    }
  }

  /** With the mutex free, somebody who owes a signal waits for it. */
  lemma SomebodyIsWoken(s: State) returns (w: nat)
    requires RoundInv(s) && Draining(s) && s.holder.None?
    ensures w < |s.pc| && s.pc[w].Woken?
  {
    var t :| 0 <= t < |s.pc| && Old(s, t);
    assert s.holder != Some(t) && !Holds(s.pc[t]);
    if s.pc[t].Woken? {
      w := t;
    } else {
      assert s.pc[t].Asleep?;
      w :| 0 <= w < |s.pc| && OwesSignal(s.pc[w]);
      assert s.holder != Some(w) && !Holds(s.pc[w]);
    }
  }

  /** A draining round is never stuck. */
  lemma DrainCanGoOn(s: State) returns (op: Op)
    requires RoundInv(s) && Draining(s)
    ensures Enabled(s, op) && NoReentry(s, op)
  {
    if s.holder.Some? {
      op := HolderCanGoOn(s, s.holder.value);
    } else {
      var w := SomebodyIsWoken(s);
      op := Relock(w);
    }
  }

  ghost predicate AllOut(s: State) { forall t :: 0 <= t < |s.pc| ==> s.pc[t].Out? }

  lemma DrainedMeansAllOut(s: State)
    requires RoundInv(s) && s.count == 0 && !Draining(s)
    ensures AllOut(s)
  {
    forall t | 0 <= t < |s.pc| ensures s.pc[t].Out? {
      assert !Old(s, t);
    }
  }

  lemma {:induction false} DrainProgress(states: seq<State>, ops: seq<Op>, k: nat)
    requires GuardedRun(states, ops) && RoundInv(states[0]) && Draining(states[0]) && k <= |ops|
    ensures (exists j :: 0 <= j <= k && AllOut(states[j]))
            || (RoundInv(states[k]) && Draining(states[k]) && Measure(states[k]) + k <= Measure(states[0]))
  {
    if k > 0 {
      DrainProgress(states, ops, k - 1);
      if j :| 0 <= j <= k - 1 && AllOut(states[j]) {
      } else {
        var s, op := states[k - 1], ops[k - 1];
        assert Enabled(s, op) && NoReentry(s, op) && states[k] == Apply(s, op);
        RoundStep(s, op);
        DrainStep(s, op);
        if !Draining(states[k]) { DrainedMeansAllOut(states[k]); }
      }
    }
  }

  /** Once a round is complete, all its threads have returned after at most 5 * max further steps,
      whatever the schedule. */
  lemma EveryoneReturns(states: seq<State>, ops: seq<Op>)
    requires GuardedRun(states, ops) && RoundInv(states[0]) && Draining(states[0])
    requires |ops| >= 5 * states[0].max
    ensures exists j :: 0 <= j <= 5 * states[0].max && AllOut(states[j])
  {
    var k := 5 * states[0].max;
    MeasureBound(states[0].pc);
    DrainProgress(states, ops, k);
    if forall j :: 0 <= j <= k ==> !AllOut(states[j]) {
      var t :| 0 <= t < |states[k].pc| && Old(states[k], t);
      SumUpdate(states[k].pc, t, Out, DrainWeight);
      assert false;
    }
  }

  /** The step that completes a round turns exactly `max` threads over to be released. */
  lemma RoundHasMaxThreads(s: State, t: nat)
    requires RoundInv(s) && Enabled(s, Arrive(t)) && NoReentry(s, Arrive(t)) && s.count + 1 == s.max
    ensures var s' := Apply(s, Arrive(t));
            Inside(s') == s.max && forall u :: 0 <= u < |s'.pc| && !s'.pc[u].Out? ==> |s'.round| == |s'.pc| && Old(s', u)
  {
    SumStep(s, Arrive(t), InsideWeight);
  }

  // ---------------------------------------------------------------- the premise is needed

  ghost predicate Reachable(i: State, s: State) {
    exists states, ops :: Run(states, ops) && states[0] == i && states[|ops|] == s
  }

  predicate StepOk(s: State, op: Op, s': State) { Enabled(s, op) && s' == Apply(s, op) }

  lemma ReachStep(i: State, s: State, op: Op, s': State)
    requires Reachable(i, s) && StepOk(s, op, s')
    ensures Reachable(i, s')
  {
    var states, ops :| Run(states, ops) && states[0] == i && states[|ops|] == s;
    var ss, oo := states + [s'], ops + [op];
    forall k | 0 <= k < |oo| ensures Enabled(ss[k], oo[k]) && ss[k + 1] == Apply(ss[k], oo[k]) {
      if k < |ops| { assert Enabled(states[k], ops[k]) && states[k + 1] == Apply(states[k], ops[k]); }
    }
    assert Run(ss, oo) && ss[|oo|] == s';
  }

  lemma TwoSteps(i: State, s0: State, a: Op, s1: State, b: Op, s2: State)
    requires Reachable(i, s0) && StepOk(s0, a, s1) && StepOk(s1, b, s2)
    ensures Reachable(i, s2)
  {
    ReachStep(i, s0, a, s1);
    ReachStep(i, s1, b, s2);
  }

  /** A thread that sleeps in a round that is over, while nobody is left who owes a signal. */
  ghost predicate Lost(s: State, t: nat) {
    t < |s.pc| == |s.round| && s.pc[t].Asleep? && Old(s, t) && forall u :: 0 <= u < |s.pc| ==> !OwesSignal(s.pc[u])
  }

  /** The first k of n threads sleep. */
  function Rows(k: nat, n: nat): seq<Pc> { seq(n, i => if i < k then Asleep else Out) }

  function Zeros(n: nat): seq<nat> { seq(n, _ => 0) }

  function Sleepers(max: nat, n: nat, k: nat): State { State(max, k, None, Rows(k, n), k, 0, 0, Zeros(n)) }

  lemma {:induction false} PutToSleep(max: nat, n: nat, k: nat)
    requires k < max && k <= n
    ensures Reachable(Init(max, n), Sleepers(max, n, k))
  {
    var i := Init(max, n);
    if k == 0 {
      assert Rows(0, n) == i.pc && Zeros(n) == i.round;
      assert Run([i], []);
    } else {
      PutToSleep(max, n, k - 1);
      var s0, t := Sleepers(max, n, k - 1), k - 1;
      var s1 := State(max, k, Some(t), Rows(t, n)[t := Test], k, 0, 0, Zeros(n));
      assert Zeros(n)[t := 0] == Zeros(n);
      assert Rows(t, n)[t := Test][t := Asleep] == Rows(k, n);
      TwoSteps(i, s0, Arrive(t), s1, Check(t), Sleepers(max, n, k));
    }
  }

  /** The last thread of the round arrives, wakes thread 0 and leaves. */
  lemma CompleteRound(max: nat, n: nat)
    requires 2 <= max <= n
    ensures Reachable(Init(max, n), State(max, 0, None, Rows(max - 1, n)[0 := Woken], max, 1, 1, Zeros(n)))
  {
    var i, m, rows, zeros := Init(max, n), max - 1, Rows(max - 1, n), Zeros(n);
    PutToSleep(max, n, m);
    var s1 := State(max, 0, Some(m), rows[m := Signal(true)], max, 1, 0, zeros);
    var s2 := State(max, 0, Some(m), rows[0 := Woken][m := Unlock(true)], max, 1, 0, zeros);
    var s3 := State(max, 0, None, rows[0 := Woken], max, 1, 1, zeros);
    assert zeros[m := 0] == zeros;
    assert rows[m := Signal(true)][0 := Woken][m := Unlock(true)] == s2.pc;
    assert s2.pc[m := Out] == s3.pc;
    TwoSteps(i, Sleepers(max, n, m), Arrive(m), s1, Wake(m, 0), s2);
    ReachStep(i, s2, Leave(m), s3);
  }

  /** It re-enters before thread 0 has the mutex again, and thread 0 finds the counter at 1. */
  lemma Reenter(max: nat, n: nat)
    requires 2 <= max <= n
    ensures Reachable(Init(max, n), State(max, 1, None, Rows(max, n), max + 1, 1, 1, Zeros(n)[max - 1 := 1]))
  {
    var i, m, pc, round := Init(max, n), max - 1, Rows(max - 1, n)[0 := Woken], Zeros(n)[max - 1 := 1];
    CompleteRound(max, n);
    var s3 := State(max, 0, None, pc, max, 1, 1, Zeros(n));
    var s4 := State(max, 1, Some(m), pc[m := Test], max + 1, 1, 1, round);
    var s5 := State(max, 1, None, pc[m := Asleep], max + 1, 1, 1, round);
    var s6 := State(max, 1, Some(0), pc[m := Asleep][0 := Test], max + 1, 1, 1, round);
    var s7 := State(max, 1, None, Rows(max, n), max + 1, 1, 1, round);
    assert s4.pc[m := Asleep] == s5.pc;
    assert s6.pc[0 := Asleep] == s7.pc;
    TwoSteps(i, s3, Arrive(m), s4, Check(m), s5);
    TwoSteps(i, s5, Relock(0), s6, Check(0), s7);
  }

  /** With re-entry the barrier loses a thread, whatever the count from 2 on: thread 0 sleeps although
      its round is over, and nobody owes it a signal. If there are no further threads, no step is
      possible any more. */
  lemma ReentryLosesAThread(max: nat, n: nat) returns (s: State)
    requires 2 <= max <= n
    ensures Reachable(Init(max, n), s) && Lost(s, 0)
    ensures n == max ==> forall op :: !Enabled(s, op)
  {
    Reenter(max, n);
    s := State(max, 1, None, Rows(max, n), max + 1, 1, 1, Zeros(n)[max - 1 := 1]);
    if n == max {
      forall op ensures !Enabled(s, op) {
        assert op.t < n ==> s.pc[op.t].Asleep?;
      }
    }
  }

  /** On a barrier for one nobody ever waits. */
  ghost predicate NobodyWaits(s: State) {
    s.max == 1 && s.count == 0 && forall t :: 0 <= t < |s.pc| ==> !s.pc[t].Asleep? && !s.pc[t].Test? && !s.pc[t].Woken?
  }

  lemma {:induction false} AloneNobodyWaits(states: seq<State>, ops: seq<Op>, k: nat)
    requires Run(states, ops) && NobodyWaits(states[0]) && k <= |ops|
    ensures NobodyWaits(states[k])
  {
    if k > 0 {
      AloneNobodyWaits(states, ops, k - 1);
      assert Enabled(states[k - 1], ops[k - 1]) && states[k] == Apply(states[k - 1], ops[k - 1]);
    }
  }

  /** With fewer threads than the barrier waits for, no round is ever complete. */
  lemma {:induction false} TooFewNeverReset(states: seq<State>, ops: seq<Op>, k: nat)
    requires Run(states, ops) && RoundInv(states[0]) && k <= |ops|
    requires states[0].resets == 0 && |states[0].pc| < states[0].max
    ensures RoundInv(states[k]) && states[k].resets == 0 && |states[k].pc| < states[k].max
  {
    if k > 0 {
      TooFewNeverReset(states, ops, k - 1);
      var s, op := states[k - 1], ops[k - 1];
      assert Enabled(s, op) && states[k] == Apply(s, op);
      assert !Draining(s);
      if op.Arrive? { RoomForOne(s.pc, op.t); }
      RoundStep(s, op);
    }
  }

  lemma RoomForOne(pc: seq<Pc>, t: nat)
    requires t < |pc| && pc[t].Out?
    ensures Sum(pc, InsideWeight) < |pc|
  {
    SumUpdate(pc, t, Test, InsideWeight);
    InsideBound(pc[t := Test]);
  }

  lemma {:induction false} InsideBound(pc: seq<Pc>)
    ensures Sum(pc, InsideWeight) <= |pc|
  {
    if pc != [] { InsideBound(pc[..|pc| - 1]); }
  }

  /** Without the premise a thread can be lost exactly when the barrier waits for more than one thread
      and there are enough to complete a round. */
  lemma ThreadsAreLostExactly(max: nat, n: nat)
    requires max > 0
    ensures (exists s, t :: Reachable(Init(max, n), s) && Lost(s, t)) <==> 2 <= max <= n
  {
    if 2 <= max <= n {
      var s := ReentryLosesAThread(max, n);
    } else {
      forall s, t | Reachable(Init(max, n), s) ensures !Lost(s, t) {
        NoneIsLost(max, n, s, t);
      }
    }
  }

  lemma NoneIsLost(max: nat, n: nat, s: State, t: nat)
    requires max > 0 && !(2 <= max <= n) && Reachable(Init(max, n), s)
    ensures !Lost(s, t)
  {
    var states, ops :| Run(states, ops) && states[0] == Init(max, n) && states[|ops|] == s;
    if max == 1 {
      AloneNobodyWaits(states, ops, |ops|);
    } else {
      InitRound(max, n);
      TooFewNeverReset(states, ops, |ops|);
    }
  }

  /** With the premise none ever is. */
  lemma GuardedRunsLoseNobody(max: nat, n: nat, states: seq<State>, ops: seq<Op>, k: nat, t: nat)
    requires max > 0 && GuardedRun(states, ops) && states[0] == Init(max, n) && k <= |ops|
    ensures !Lost(states[k], t)
  {
    InitRound(max, n);
    RoundRun(states, ops, k);
  }

  // ---------------------------------------------------------------- a whole round

  /** As long as no round was ever complete, nobody can re-enter too early. */
  lemma {:induction false} FirstRoundIsGuarded(states: seq<State>, ops: seq<Op>, k: nat)
    requires Run(states, ops) && RoundInv(states[0]) && k <= |ops| && states[k].resets == 0
    ensures RoundInv(states[k])
  {
    if k > 0 {
      var s, op := states[k - 1], ops[k - 1];
      assert Enabled(s, op) && states[k] == Apply(s, op);
      FirstRoundIsGuarded(states, ops, k - 1);
      assert !Draining(s);
      RoundStep(s, op);
    }
  }

  lemma {:induction false} DrainToTheEnd(i: State, s: State) returns (e: State)
    requires Reachable(i, s) && RoundInv(s) && s.count == 0
    ensures Reachable(i, e) && RoundInv(e) && AllOut(e) && |e.pc| == |s.pc|
    ensures e.max == s.max && e.count == 0 && e.arrivals == s.arrivals && e.resets == s.resets
    decreases Measure(s)
  {
    if Draining(s) {
      var op := DrainCanGoOn(s);
      var s' := Apply(s, op);
      ReachStep(i, s, op, s');
      RoundStep(s, op);
      DrainStep(s, op);
      e := DrainToTheEnd(i, s');
    } else {
      DrainedMeansAllOut(s);
      e := s;
    }
  }

  lemma RoundIsComplete(max: nat, n: nat) returns (s: State)
    requires 1 <= max <= n
    ensures Reachable(Init(max, n), s) && RoundInv(s) && s.count == 0 && s.arrivals == max && s.resets == 1
  {
    var i, m := Init(max, n), max - 1;
    PutToSleep(max, n, m);
    var s0 := Sleepers(max, n, m);
    InitRound(max, n);
    var states, ops :| Run(states, ops) && states[0] == i && states[|ops|] == s0;
    FirstRoundIsGuarded(states, ops, |ops|);
    assert !Draining(s0);
    s := Apply(s0, Arrive(m));
    ReachStep(i, s0, Arrive(m), s);
    RoundStep(s0, Arrive(m));
  }

  /** A barrier does what it is for: max threads can arrive, the round is then complete, all of them can
      return, exactly one as the serial thread, and the counter is as it was. */
  lemma WholeRound(max: nat, n: nat) returns (e: State)
    requires 1 <= max <= n
    ensures Reachable(Init(max, n), e) && AllOut(e)
    ensures e.count == 0 && e.holder == None && e.arrivals == max && e.resets == 1 && e.serials == 1
  {
    var s := RoundIsComplete(max, n);
    e := DrainToTheEnd(Init(max, n), s);
    SumZero(e.pc, SerialWeight);
    assert forall t :: 0 <= t < |e.pc| ==> !Holds(e.pc[t]);
  }
}
