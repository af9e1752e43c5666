/** The reader-writer lock of lib/posix/options/rw_locks/rwlock.c as a step machine: one step per
    semaphore operation, any number of threads, any interleaving. */
module RwLock {
  import opened Common

  /** Where a thread stands inside a lock or unlock call; the comment names its next operation. */
  datatype Pc =
    | Idle
    | RWindow      // has wr_sem for reading; takes reader_active without waiting
    | RActive      // takes rd_sem without waiting
    | RLeave       // gives wr_sem
    | WWait        // has wr_sem for writing; waits for reader_active, or times out
    | WOwn         // has reader_active; stores itself in wr_owner
    | WGiveUp      // timed out; gives wr_sem
    | WUnlock1     // cleared wr_owner; gives reader_active
    | WUnlock2     // gives wr_sem
    | RUnlockTest  // gave rd_sem; tests its count
    | RUnlockLast  // saw the limit; gives reader_active

  /** `held[t]` counts the read locks that thread `t` holds. */
  datatype State = State(limit: nat, rd: nat, wr: nat, active: nat, owner: Option<nat>, pc: seq<Pc>, held: seq<nat>)

  datatype Op =
    | TakeWr(t: nat, writing: bool)
    | TakeActive(t: nat)
    | TakeRd(t: nat)
    | GiveWr(t: nat)
    | Enter(t: nat)
    | TimeOut(t: nat)
    | SetOwner(t: nat)
    | WriteUnlock(t: nat)
    | GiveActive(t: nat)
    | ReadUnlock(t: nat)
    | TestCount(t: nat)

  /** pthread_rwlock_init, with `n` threads about to use the lock. */
  function Init(limit: nat, n: nat): State {
    State(limit, limit, 1, 1, None, seq(n, _ => Idle), seq(n, _ => 0))
  }

  function Give(count: nat, limit: nat): nat { if count < limit then count + 1 else count }

  function TakeNoWait(count: nat): nat { if count > 0 then count - 1 else 0 }

  predicate Enabled(s: State, op: Op) {
    op.t < |s.pc| == |s.held| &&
    var pc := s.pc[op.t];
    match op
    case TakeWr(_, _) => pc.Idle? && s.wr > 0
    case TakeActive(_) => pc.RWindow?
    case TakeRd(_) => pc.RActive?
    case GiveWr(_) => pc.RLeave? || pc.WGiveUp? || pc.WUnlock2?
    case Enter(_) => pc.WWait? && s.active > 0
    case TimeOut(_) => pc.WWait?
    case SetOwner(_) => pc.WOwn?
    case WriteUnlock(t) => pc.Idle? && s.owner == Some(t)
    case GiveActive(_) => pc.WUnlock1? || pc.RUnlockLast?
    case ReadUnlock(t) => pc.Idle? && s.owner != Some(t) && s.held[t] > 0   // only holders unlock
    case TestCount(_) => pc.RUnlockTest?
  }

  function Apply(s: State, op: Op): State
    requires Enabled(s, op)
  {
    var t := op.t;
    match op
    case TakeWr(_, writing) => s.(wr := s.wr - 1, pc := s.pc[t := if writing then WWait else RWindow])
    case TakeActive(_) => s.(active := TakeNoWait(s.active), pc := s.pc[t := RActive])
    case TakeRd(_) => s.(rd := TakeNoWait(s.rd), pc := s.pc[t := RLeave], held := s.held[t := s.held[t] + 1])
    case GiveWr(_) => s.(wr := Give(s.wr, 1), pc := s.pc[t := Idle])
    case Enter(_) => s.(active := s.active - 1, pc := s.pc[t := WOwn])
    case TimeOut(_) => s.(pc := s.pc[t := WGiveUp])
    case SetOwner(_) => s.(owner := Some(t), pc := s.pc[t := Idle])
    case WriteUnlock(_) => s.(owner := None, pc := s.pc[t := WUnlock1])
    case GiveActive(_) =>
      s.(active := Give(s.active, 1), pc := s.pc[t := if s.pc[t].WUnlock1? then WUnlock2 else Idle])
    case ReadUnlock(_) =>
      s.(rd := Give(s.rd, s.limit), pc := s.pc[t := RUnlockTest], held := s.held[t := s.held[t] - 1])
    case TestCount(_) => s.(pc := s.pc[t := if s.rd == s.limit then RUnlockLast else Idle])
  }

  // ---------------------------------------------------------------- the scheduling premise

  /** Between the two takes of a reader, and between its give, test and give. */
  predicate Midway(pc: Pc) {
    pc.RActive? || pc.RUnlockTest? || pc.RUnlockLast?
  }

  function Total(held: seq<nat>): nat {
    if held == [] then 0 else Total(held[..|held| - 1]) + held[|held| - 1]
  }

  /** Which of a reader's two stretches of code run undisturbed, its two takes and its give, test and
      give, and whether read locks stay within the limit. The source guards none of the three. */
  datatype Premise = Premise(takes: bool, gives: bool, bounded: bool)

  const ALL := Premise(true, true, true)

  predicate Undisturbed(pc: Pc, g: Premise) {
    (g.takes && pc.RActive?) || (g.gives && (pc.RUnlockTest? || pc.RUnlockLast?))
  }

  /** Nobody else moves while a thread is in an undisturbed stretch, and no read lock is taken beyond
      the limit. */
  predicate Guarded(s: State, op: Op, g: Premise) {
    && (forall u :: 0 <= u < |s.pc| && Undisturbed(s.pc[u], g) ==> op.t == u)
    && (g.bounded && op.TakeRd? ==> Total(s.held) < s.limit)
  }

  predicate Legal(s: State, ops: seq<Op>, g: Premise)
    decreases |ops|
  {
    ops == [] || (Enabled(s, ops[0]) && Guarded(s, ops[0], g) && Legal(Apply(s, ops[0]), ops[1..], g))
  }

  function Exec(s: State, ops: seq<Op>, g: Premise): State
    requires Legal(s, ops, g)
    decreases |ops|
  {
    if ops == [] then s else Exec(Apply(s, ops[0]), ops[1..], g)
  }

  // ---------------------------------------------------------------- the invariant

  predicate InWindow(s: State, t: nat)
    requires t < |s.pc|
  {
    s.owner == Some(t) || !(s.pc[t].Idle? || s.pc[t].RUnlockTest? || s.pc[t].RUnlockLast?)
  }

  /** Thread `t` has the write lock, or is on its way in or out with it. */
  predicate Writing(s: State, t: nat)
    requires t < |s.pc|
  {
    s.owner == Some(t) || s.pc[t].WOwn? || s.pc[t].WUnlock1?
  }

  ghost predicate Shape(s: State) {
    && |s.pc| == |s.held| && s.limit > 0 && s.wr <= 1 && s.active <= 1
    && Total(s.held) <= s.limit && s.rd == s.limit - Total(s.held)
    && (s.owner.Some? ==> s.owner.value < |s.pc| && s.pc[s.owner.value].Idle?)
  }

  /** wr_sem is 0 exactly when one thread is in its critical window. */
  ghost predicate WindowInv(s: State) {
    && (forall t, u :: 0 <= t < |s.pc| && 0 <= u < |s.pc| && InWindow(s, t) && InWindow(s, u) ==> t == u)
    && (forall t :: 0 <= t < |s.pc| && InWindow(s, t) ==> s.wr == 0)
    && (s.wr == 0 ==> exists t :: 0 <= t < |s.pc| && InWindow(s, t))
  }

  ghost predicate Occupied(s: State) {
    || Total(s.held) > 0
    || (exists t :: 0 <= t < |s.pc| && Writing(s, t))
    || (exists t :: 0 <= t < |s.pc| && Midway(s.pc[t]))
  }

  /** reader_active is 0 exactly when somebody is inside, and a writer is never there with a reader. */
  ghost predicate ActiveInv(s: State) {
    && (s.active == 0 <==> Occupied(s))
    && (forall t :: 0 <= t < |s.pc| && Writing(s, t) ==> Total(s.held) == 0)
    && (forall t, u :: 0 <= t < |s.pc| && 0 <= u < |s.pc| && Writing(s, t) ==> !Midway(s.pc[u]))
    && (forall t, u :: 0 <= t < |s.pc| && 0 <= u < |s.pc| && Midway(s.pc[t]) && Midway(s.pc[u]) ==> t == u)
    && (forall t :: 0 <= t < |s.pc| && s.pc[t].RUnlockLast? ==> Total(s.held) == 0)
  }

  ghost predicate Inv(s: State) { Shape(s) && WindowInv(s) && ActiveInv(s) }

  lemma {:induction false} TotalUpdate(r: seq<nat>, t: nat, v: nat)
    requires t < |r|
    ensures Total(r[t := v]) == Total(r) - r[t] + v && r[t] <= Total(r)
    decreases |r|
  {
    var n := |r| - 1;
    var r' := r[t := v];
    if t < n {
      assert r'[..n] == r[..n][t := v];
      TotalUpdate(r[..n], t, v);
    } else {
      assert r'[..n] == r[..n];
    }
  }

  lemma {:induction false} TotalZeros(n: nat)
    ensures Total(seq(n, _ => 0)) == 0
  {
    if n > 0 {
      var z: seq<nat> := seq(n, _ => 0);
      assert z[..n - 1] == seq(n - 1, _ => 0);
      TotalZeros(n - 1);
    }
  }

  lemma ShapeStep(s: State, op: Op)
    requires Inv(s) && Enabled(s, op) && Guarded(s, op, ALL)
    ensures Shape(Apply(s, op))
  {
    if op.TakeRd? { TotalUpdate(s.held, op.t, s.held[op.t] + 1); }
    if op.ReadUnlock? { TotalUpdate(s.held, op.t, s.held[op.t] - 1); }
    if op.TakeWr? { assert !InWindow(s, op.t); }
  }

  /** A step changes where its own thread stands, and nobody else. */
  lemma OthersStay(s: State, op: Op, u: nat)
    requires Inv(s) && Enabled(s, op) && u < |s.pc| && u != op.t
    ensures var s' := Apply(s, op);
            s'.pc[u] == s.pc[u] && InWindow(s', u) == InWindow(s, u) && Writing(s', u) == Writing(s, u)
  {
    if op.SetOwner? { assert InWindow(s, op.t); }
  }

  lemma WindowStep(s: State, op: Op)
    requires Inv(s) && Enabled(s, op) && Guarded(s, op, ALL)
    ensures WindowInv(Apply(s, op))
  {
    var s' := Apply(s, op);
    var t := op.t;
    forall u | 0 <= u < |s.pc| && u != t
      ensures InWindow(s', u) == InWindow(s, u)
    {
      OthersStay(s, op, u);
    }
    if op.TakeWr? {
      assert InWindow(s', t);
    } else if op.GiveWr? {
      assert InWindow(s, t) && !InWindow(s', t);
    } else {
      assert InWindow(s', t) == InWindow(s, t);
      if s.wr == 0 {
        var w :| 0 <= w < |s.pc| && InWindow(s, w);
        assert InWindow(s', w);
      }
    }
  }

  /** Threads other than `t` count for the occupancy as before. */
  ghost predicate SameButFor(s: State, s': State, t: nat) {
    && t < |s.pc| == |s'.pc|
    && forall u :: 0 <= u < |s.pc| && u != t ==> s'.pc[u] == s.pc[u] && Writing(s', u) == Writing(s, u)
  }

  lemma StepIsLocal(s: State, op: Op)
    requires Inv(s) && Enabled(s, op)
    ensures SameButFor(s, Apply(s, op), op.t)
  {
    forall u | 0 <= u < |s.pc| && u != op.t
      ensures Apply(s, op).pc[u] == s.pc[u] && Writing(Apply(s, op), u) == Writing(s, u)
    {
      OthersStay(s, op, u);
    }
  }

  lemma NoOtherWriter(s: State, t: nat)
    requires Inv(s) && t < |s.pc| && InWindow(s, t) && !Writing(s, t)
    ensures forall u :: 0 <= u < |s.pc| ==> !Writing(s, u)
  {
    forall u | 0 <= u < |s.pc| ensures !Writing(s, u) {
      if Writing(s, u) { assert InWindow(s, u); }
    }
  }

  /** The steps that move a thread without touching the occupancy. */
  lemma ActiveKept(s: State, s': State, t: nat)
    requires ActiveInv(s) && SameButFor(s, s', t) && s'.held == s.held && s'.active == s.active
    requires Writing(s', t) == Writing(s, t) && !Midway(s.pc[t]) && !Midway(s'.pc[t])
    ensures ActiveInv(s')
  {
    if Occupied(s) && Total(s.held) == 0 {
      if w :| 0 <= w < |s.pc| && Writing(s, w) {
        assert Writing(s', w);
      } else {
        var u :| 0 <= u < |s.pc| && Midway(s.pc[u]);
        assert Midway(s'.pc[u]);
      }
    }
  }

  lemma ActiveReader(s: State, op: Op)
    requires Inv(s) && Enabled(s, op) && Guarded(s, op, ALL)
    requires op.TakeActive? || op.TakeRd? || op.ReadUnlock? || op.TestCount?
    ensures ActiveInv(Apply(s, op))
  {
    var s' := Apply(s, op);
    var t := op.t;
    StepIsLocal(s, op);
    TotalUpdate(s.held, t, s'.held[t]);
    assert s'.held == s.held[t := s'.held[t]];
    if op.TakeActive? {
      NoOtherWriter(s, t);
      assert Midway(s'.pc[t]);
    } else if op.ReadUnlock? {
      assert Occupied(s) && Midway(s'.pc[t]) && !Writing(s', t);
    } else {
      assert Midway(s.pc[t]) && Occupied(s) && !Writing(s', t);
      assert op.TestCount? && s.rd == s.limit ==> Midway(s'.pc[t]);
    }
  }

  lemma ActiveWriter(s: State, op: Op)
    requires Inv(s) && Enabled(s, op) && Guarded(s, op, ALL)
    requires op.Enter? || op.SetOwner? || op.WriteUnlock?
    ensures ActiveInv(Apply(s, op))
  {
    var s' := Apply(s, op);
    StepIsLocal(s, op);
    assert Writing(s', op.t);
    assert op.Enter? ==> !Occupied(s);
    assert !op.Enter? ==> Writing(s, op.t) && Occupied(s);
  }

  lemma ActiveVacated(s: State, op: Op)
    requires Inv(s) && Enabled(s, op) && Guarded(s, op, ALL) && op.GiveActive?
    ensures ActiveInv(Apply(s, op))
  {
    var s' := Apply(s, op);
    var t := op.t;
    StepIsLocal(s, op);
    if s.pc[t].WUnlock1? {
      assert Writing(s, t) && InWindow(s, t);
      forall u | 0 <= u < |s.pc| ensures !Writing(s', u) {
        if u != t && Writing(s, u) { assert InWindow(s, u); }
      }
    } else {
      assert Midway(s.pc[t]);
    }
    assert !Occupied(s');
  }

  lemma ActiveStep(s: State, op: Op)
    requires Inv(s) && Enabled(s, op) && Guarded(s, op, ALL)
    ensures ActiveInv(Apply(s, op))
  {
    match op {
      case TakeWr(t, _) =>
        assert !InWindow(s, t);
        StepIsLocal(s, op);
        ActiveKept(s, Apply(s, op), t);
      case GiveWr(t) =>
        StepIsLocal(s, op);
        ActiveKept(s, Apply(s, op), t);
      case TimeOut(t) =>
        StepIsLocal(s, op);
        ActiveKept(s, Apply(s, op), t);
      case GiveActive(_) => ActiveVacated(s, op);
      case Enter(_) => ActiveWriter(s, op);
      case SetOwner(_) => ActiveWriter(s, op);
      case WriteUnlock(_) => ActiveWriter(s, op);
      case _ => ActiveReader(s, op);
    }
  }

  /** Every guarded step keeps the invariant. */
  lemma InvStep(s: State, op: Op)
    requires Inv(s) && Enabled(s, op) && Guarded(s, op, ALL)
    ensures Inv(Apply(s, op))
  {
    ShapeStep(s, op);
    WindowStep(s, op);
    ActiveStep(s, op);
  }

  // ---------------------------------------------------------------- whole runs

  lemma InitInv(limit: nat, n: nat)
    requires limit > 0
    ensures Inv(Init(limit, n))
  {
    TotalZeros(n);
  }

  lemma {:induction false} InvExec(s: State, ops: seq<Op>)
    requires Inv(s) && Legal(s, ops, ALL)
    ensures Inv(Exec(s, ops, ALL))
    decreases |ops|
  {
    if ops != [] {
      InvStep(s, ops[0]);
      InvExec(Apply(s, ops[0]), ops[1..]);
    }
  }

  lemma HeldIsCounted(held: seq<nat>, t: nat)
    requires t < |held| && Total(held) == 0
    ensures held[t] == 0
  {
    TotalUpdate(held, t, 0);
  }

  /** The lock's promise: one writer, or readers, never both. */
  ghost predicate Exclusive(s: State) {
    forall t, u :: 0 <= t < |s.pc| == |s.held| && 0 <= u < |s.pc| && Writing(s, t) ==>
                     s.held[u] == 0 && (Writing(s, u) ==> t == u)
  }

  /** In every state of every run the lock is exclusive. */
  lemma RunsAreExclusive(limit: nat, n: nat, ops: seq<Op>)
    requires limit > 0 && Legal(Init(limit, n), ops, ALL)
    ensures Exclusive(Exec(Init(limit, n), ops, ALL))
  {
    InitInv(limit, n);
    InvExec(Init(limit, n), ops);
    var s := Exec(Init(limit, n), ops, ALL);
    forall t, u | 0 <= t < |s.pc| == |s.held| && 0 <= u < |s.pc| && Writing(s, t)
      ensures s.held[u] == 0 && (Writing(s, u) ==> t == u)
    {
      HeldIsCounted(s.held, u);
      assert InWindow(s, t) && (Writing(s, u) ==> InWindow(s, u));
    }
  }

  lemma {:induction false} ShapeKept(s: State, ops: seq<Op>, g: Premise)
    requires |s.pc| == |s.held| && Legal(s, ops, g)
    ensures var e := Exec(s, ops, g); |e.pc| == |e.held| == |s.pc| && e.limit == s.limit
    decreases |ops|
  {
    if ops != [] { ShapeKept(Apply(s, ops[0]), ops[1..], g); }
  }

  /** Once every lock is released and every call has returned, the lock is as initialised. */
  lemma ReleasedIsInitial(limit: nat, n: nat, ops: seq<Op>)
    requires limit > 0 && Legal(Init(limit, n), ops, ALL)
    requires var s := Exec(Init(limit, n), ops, ALL);
             s.owner.None? && forall t :: 0 <= t < |s.pc| ==> s.pc[t].Idle? && (t < |s.held| ==> s.held[t] == 0)
    ensures Exec(Init(limit, n), ops, ALL) == Init(limit, n)
  {
    var i := Init(limit, n);
    var s := Exec(i, ops, ALL);
    InitInv(limit, n);
    InvExec(i, ops);
    ShapeKept(i, ops, ALL);
    assert s.pc == i.pc && s.held == i.held;
    TotalZeros(n);
    assert forall t :: 0 <= t < |s.pc| ==> !InWindow(s, t);
    assert !Occupied(s);
  }

  /** A writer that waits for readers can enter as soon as the last of them has left. */
  lemma WaitingWriterCanEnter(s: State, t: nat)
    requires Inv(s) && t < |s.pc| && s.pc[t].WWait?
    requires Total(s.held) == 0 && forall u :: 0 <= u < |s.pc| ==> !Midway(s.pc[u])
    ensures Enabled(s, Enter(t))
  {
    NoOtherWriter(s, t);
  }

  // ---------------------------------------------------------------- a write attempt

  /** From taking wr_sem until entering or giving up. */
  predicate Attempting(s: State, t: nat) {
    t < |s.pc| && (s.pc[t].WWait? || s.pc[t].WGiveUp?)
  }

  /** The thread's own part in the run is at most to time out. */
  predicate OnlyTimesOut(ops: seq<Op>, t: nat) {
    forall i :: 0 <= i < |ops| && ops[i].t == t ==> ops[i].TimeOut?
  }

  lemma AttemptStep(s: State, op: Op, t: nat)
    requires Inv(s) && Enabled(s, op) && Guarded(s, op, ALL) && Attempting(s, t) && (op.t == t ==> op.TimeOut?)
    ensures !op.TakeWr? && Attempting(Apply(s, op), t)
    ensures forall u :: 0 <= u < |s.held| ==> Apply(s, op).held[u] <= s.held[u]
  {
    assert InWindow(s, t);
    if op.TakeRd? { assert InWindow(s, op.t); }
  }

  /** While a write attempt lasts, no thread's read locks grow in number. */
  lemma {:induction false} ReadersOnlyShrink(s: State, ops: seq<Op>, t: nat)
    requires Inv(s) && Legal(s, ops, ALL) && Attempting(s, t) && OnlyTimesOut(ops, t)
    ensures var e := Exec(s, ops, ALL);
            |e.held| == |s.held| && forall u :: 0 <= u < |s.held| ==> e.held[u] <= s.held[u]
    decreases |ops|
  {
    if ops != [] {
      AttemptStep(s, ops[0], t);
      InvStep(s, ops[0]);
      assert forall i :: 0 <= i < |ops[1..]| ==> ops[1..][i] == ops[i + 1];
      ReadersOnlyShrink(Apply(s, ops[0]), ops[1..], t);
    }
  }

  function Without(ops: seq<Op>, t: nat): seq<Op> {
    if ops == [] then [] else (if ops[0].t == t then [] else [ops[0]]) + Without(ops[1..], t)
  }

  /** The state as it would be had thread `t` not taken wr_sem. */
  function Erase(s: State, t: nat): State
    requires t < |s.pc|
  {
    s.(wr := s.wr + 1, pc := s.pc[t := Idle])
  }

  lemma EraseStep(s: State, op: Op, t: nat)
    requires Inv(s) && Enabled(s, op) && Guarded(s, op, ALL) && Attempting(s, t) && op.t != t
    ensures Enabled(Erase(s, t), op) && Guarded(Erase(s, t), op, ALL)
    ensures Apply(Erase(s, t), op) == Erase(Apply(s, op), t)
  {
    AttemptStep(s, op, t);
    assert InWindow(s, t);
    var e := Erase(s, t);
    assert InWindow(s, op.t) ==> op.t == t;
    forall u | 0 <= u < |e.pc| && Undisturbed(e.pc[u], ALL) ensures op.t == u {
      assert u != t && e.pc[u] == s.pc[u];
    }
    assert Apply(e, op).pc == Erase(Apply(s, op), t).pc;
  }

  lemma {:induction false} EraseRun(s: State, ops: seq<Op>, t: nat)
    requires Inv(s) && Legal(s, ops, ALL) && Attempting(s, t) && OnlyTimesOut(ops, t)
    ensures Attempting(Exec(s, ops, ALL), t) && Inv(Exec(s, ops, ALL))
    ensures Legal(Erase(s, t), Without(ops, t), ALL)
    ensures Exec(Erase(s, t), Without(ops, t), ALL) == Erase(Exec(s, ops, ALL), t)
    decreases |ops|
  {
    if ops != [] {
      var op, rest := ops[0], ops[1..];
      AttemptStep(s, op, t);
      InvStep(s, op);
      assert forall i :: 0 <= i < |rest| ==> rest[i] == ops[i + 1];
      EraseRun(Apply(s, op), rest, t);
      if op.t == t {
        assert Erase(Apply(s, op), t).pc == Erase(s, t).pc;
        assert Erase(Apply(s, op), t) == Erase(s, t) && Without(ops, t) == Without(rest, t);
      } else {
        EraseStep(s, op, t);
        LegalCons(Erase(s, t), op, Without(rest, t));
        assert Without(ops, t) == [op] + Without(rest, t);
      }
    }
  }

  lemma LegalCons(s: State, op: Op, rest: seq<Op>)
    requires Enabled(s, op) && Guarded(s, op, ALL) && Legal(Apply(s, op), rest, ALL)
    ensures Legal(s, [op] + rest, ALL) && Exec(s, [op] + rest, ALL) == Exec(Apply(s, op), rest, ALL)
  {
    assert ([op] + rest)[1..] == rest;
  }

  lemma {:induction false} ExecAppend(s: State, ops: seq<Op>, op: Op, g: Premise)
    requires Legal(s, ops, g)
    ensures Legal(s, ops + [op], g) <==> Enabled(Exec(s, ops, g), op) && Guarded(Exec(s, ops, g), op, g)
    ensures Legal(s, ops + [op], g) ==> Exec(s, ops + [op], g) == Apply(Exec(s, ops, g), op)
    decreases |ops|
  {
    if ops != [] {
      assert (ops + [op])[1..] == ops[1..] + [op];
      ExecAppend(Apply(s, ops[0]), ops[1..], op, g);
    }
  }

  /** A write attempt that times out leaves no trace: whatever the others did meanwhile, the run
      without the attempt is legal and ends in the same state. */
  lemma TimedOutAttemptIsInvisible(s: State, ops: seq<Op>, t: nat)
    requires Inv(s) && OnlyTimesOut(ops, t)
    requires Legal(s, [TakeWr(t, true)] + ops + [GiveWr(t)], ALL)
    ensures Legal(s, Without(ops, t), ALL)
    ensures Exec(s, Without(ops, t), ALL) == Exec(s, [TakeWr(t, true)] + ops + [GiveWr(t)], ALL)
  {
    var take := TakeWr(t, true);
    var all := [take] + ops + [GiveWr(t)];
    var s1 := Apply(s, take);
    assert all[1..] == ops + [GiveWr(t)];
    InvStep(s, take);
    LegalPrefix(s1, ops, GiveWr(t));
    ExecAppend(s1, ops, GiveWr(t), ALL);
    EraseRun(s1, ops, t);
    assert Erase(s1, t).pc == s.pc;
    assert Erase(s1, t) == s;
    var e := Exec(s1, ops, ALL);
    assert InWindow(e, t);
    assert Apply(e, GiveWr(t)) == Erase(e, t);
  }

  lemma {:induction false} LegalPrefix(s: State, ops: seq<Op>, op: Op)
    requires Legal(s, ops + [op], ALL)
    ensures Legal(s, ops, ALL)
    decreases |ops|
  {
    if ops != [] {
      assert (ops + [op])[1..] == ops[1..] + [op] && (ops + [op])[0] == ops[0];
      LegalPrefix(Apply(s, ops[0]), ops[1..], op);
    }
  }

  // ---------------------------------------------------------------- the premises are needed

  predicate StepOk(s: State, op: Op, s': State, g: Premise) {
    Enabled(s, op) && Guarded(s, op, g) && s' == Apply(s, op)
  }

  ghost predicate Reaches(i: State, s: State, g: Premise) {
    exists ops :: Legal(i, ops, g) && Exec(i, ops, g) == s
  }

  lemma ReachStep(i: State, s: State, op: Op, s': State, g: Premise)
    requires Reaches(i, s, g) && StepOk(s, op, s', g)
    ensures Reaches(i, s', g)
  {
    var ops :| Legal(i, ops, g) && Exec(i, ops, g) == s;
    ExecAppend(i, ops, op, g);
    assert Legal(i, ops + [op], g);
  }

  lemma FourSteps(i: State, s0: State, a: Op, s1: State, b: Op, s2: State, c: Op, s3: State, d: Op, s4: State, g: Premise)
    requires Reaches(i, s0, g)
    requires StepOk(s0, a, s1, g) && StepOk(s1, b, s2, g) && StepOk(s2, c, s3, g) && StepOk(s3, d, s4, g)
    ensures Reaches(i, s4, g)
  {
    ReachStep(i, s0, a, s1, g);
    ReachStep(i, s1, b, s2, g);
    ReachStep(i, s2, c, s3, g);
    ReachStep(i, s3, d, s4, g);
  }

  function Three(limit: nat, rd: nat, wr: nat, active: nat, pc: seq<Pc>, held: seq<nat>): State {
    State(limit, rd, wr, active, None, pc, held)
  }

  lemma TotalThree(a: nat, b: nat, c: nat)
    ensures Total([a, b, c]) == a + b + c
  {
    var r3, r2, r1: seq<nat> := [a, b, c], [a, b], [a];
    assert r3[..2] == r2 && r2[..1] == r1 && r1[..0] == [];
    assert Total(r1) == a;
    assert Total(r2) == Total(r1) + b;
    assert Total(r3) == Total(r2) + c;
  }

  lemma FreshLock(limit: nat, g: Premise)
    ensures Reaches(Init(limit, 3), Three(limit, limit, 1, 1, [Idle, Idle, Idle], [0, 0, 0]), g)
  {
    var i := Init(limit, 3);
    assert i == Three(limit, limit, 1, 1, [Idle, Idle, Idle], [0, 0, 0]);
    assert Legal(i, [], g) && Exec(i, [], g) == i;
  }

  /** Reader 0 enters a fresh lock. */
  lemma Reader0Enters(i: State, limit: nat, g: Premise)
    requires limit > 0 && Reaches(i, Three(limit, limit, 1, 1, [Idle, Idle, Idle], [0, 0, 0]), g)
    ensures Reaches(i, Three(limit, limit - 1, 1, 0, [Idle, Idle, Idle], [1, 0, 0]), g)
  {
    var s0 := Three(limit, limit, 1, 1, [Idle, Idle, Idle], [0, 0, 0]);
    var s1 := Three(limit, limit, 0, 1, [RWindow, Idle, Idle], [0, 0, 0]);
    var s2 := Three(limit, limit, 0, 0, [RActive, Idle, Idle], [0, 0, 0]);
    var s3 := Three(limit, limit - 1, 0, 0, [RLeave, Idle, Idle], [1, 0, 0]);
    var s4 := Three(limit, limit - 1, 1, 0, [Idle, Idle, Idle], [1, 0, 0]);
    TotalThree(0, 0, 0);
    FourSteps(i, s0, TakeWr(0, false), s1, TakeActive(0), s2, TakeRd(0), s3, GiveWr(0), s4, g);
  }

  /** Writer 2 has joined reader 1. */
  function Joined(limit: nat): State
    requires limit > 0
  {
    State(limit, limit - 1, 0, 0, Some(2), [Idle, Idle, Idle], [0, 1, 0])
  }

  lemma JoinedIsNotExclusive(limit: nat)
    requires limit > 0
    ensures !Exclusive(Joined(limit))
  {
    var s := Joined(limit);
    assert Writing(s, 2) && s.held[1] == 1;
  }

  /** Reader 1 is in, reader_active is about to be given, and writer 2 comes. */
  lemma Writer2Enters(i: State, s0: State, op: Op, limit: nat, g: Premise)
    requires limit > 0 && Reaches(i, s0, g)
    requires StepOk(s0, op, Three(limit, limit - 1, 1, 1, [Idle, Idle, Idle], [0, 1, 0]), g)
    ensures Reaches(i, Joined(limit), g)
  {
    var s1 := Three(limit, limit - 1, 1, 1, [Idle, Idle, Idle], [0, 1, 0]);
    var s2 := Three(limit, limit - 1, 0, 1, [Idle, Idle, WWait], [0, 1, 0]);
    var s3 := Three(limit, limit - 1, 0, 0, [Idle, Idle, WOwn], [0, 1, 0]);
    FourSteps(i, s0, op, s1, TakeWr(2, true), s2, Enter(2), s3, SetOwner(2), Joined(limit), g);
  }

  lemma Reader1SlipsIn(i: State, limit: nat, g: Premise)
    requires limit > 0 && g == Premise(true, false, true)
    requires Reaches(i, Three(limit, limit - 1, 1, 0, [Idle, Idle, Idle], [1, 0, 0]), g)
    ensures Reaches(i, Three(limit, limit, 0, 0, [RUnlockLast, RActive, Idle], [0, 0, 0]), g)
  {
    var s4 := Three(limit, limit - 1, 1, 0, [Idle, Idle, Idle], [1, 0, 0]);
    var s5 := Three(limit, limit, 1, 0, [RUnlockTest, Idle, Idle], [0, 0, 0]);
    var s6 := Three(limit, limit, 1, 0, [RUnlockLast, Idle, Idle], [0, 0, 0]);
    var s7 := Three(limit, limit, 0, 0, [RUnlockLast, RWindow, Idle], [0, 0, 0]);
    var s8 := Three(limit, limit, 0, 0, [RUnlockLast, RActive, Idle], [0, 0, 0]);
    FourSteps(i, s4, ReadUnlock(0), s5, TestCount(0), s6, TakeWr(1, false), s7, TakeActive(1), s8, g);
  }

  lemma Reader1Stays(i: State, limit: nat, g: Premise)
    requires limit > 0 && g == Premise(true, false, true)
    requires Reaches(i, Three(limit, limit, 0, 0, [RUnlockLast, RActive, Idle], [0, 0, 0]), g)
    ensures Reaches(i, Three(limit, limit - 1, 1, 0, [RUnlockLast, Idle, Idle], [0, 1, 0]), g)
  {
    TotalThree(0, 0, 0);
    var s8 := Three(limit, limit, 0, 0, [RUnlockLast, RActive, Idle], [0, 0, 0]);
    var s9 := Three(limit, limit - 1, 0, 0, [RUnlockLast, RLeave, Idle], [0, 1, 0]);
    var s10 := Three(limit, limit - 1, 1, 0, [RUnlockLast, Idle, Idle], [0, 1, 0]);
    ReachStep(i, s8, TakeRd(1), s9, g);
    ReachStep(i, s9, GiveWr(1), s10, g);
  }

  lemma AfterLateGive(i: State, limit: nat, g: Premise)
    requires limit > 0 && g == Premise(true, false, true)
    requires Reaches(i, Three(limit, limit - 1, 1, 0, [RUnlockLast, Idle, Idle], [0, 1, 0]), g)
    ensures Reaches(i, Joined(limit), g)
  {
    Writer2Enters(i, Three(limit, limit - 1, 1, 0, [RUnlockLast, Idle, Idle], [0, 1, 0]), GiveActive(0), limit, g);
  }

  /** With only the takes undisturbed the lock fails: reader 0 sees the limit, reader 1 comes in,
      reader 0 then gives reader_active, and writer 2 joins reader 1. */
  lemma GivesMustBeUndisturbed(limit: nat) returns (s: State)
    requires limit > 0
    ensures Reaches(Init(limit, 3), s, Premise(true, false, true)) && !Exclusive(s)
  {
    var i, g := Init(limit, 3), Premise(true, false, true);
    FreshLock(limit, g);
    Reader0Enters(i, limit, g);
    Reader1SlipsIn(i, limit, g);
    Reader1Stays(i, limit, g);
    AfterLateGive(i, limit, g);
    s := Joined(limit);
    JoinedIsNotExclusive(limit);
  }

  lemma Reader0LeavesMeanwhile(i: State, limit: nat, g: Premise)
    requires limit > 0 && g == Premise(false, true, true)
    requires Reaches(i, Three(limit, limit - 1, 1, 0, [Idle, Idle, Idle], [1, 0, 0]), g)
    ensures Reaches(i, Three(limit, limit, 0, 0, [RUnlockLast, RActive, Idle], [0, 0, 0]), g)
  {
    var s4 := Three(limit, limit - 1, 1, 0, [Idle, Idle, Idle], [1, 0, 0]);
    var s5 := Three(limit, limit - 1, 0, 0, [Idle, RWindow, Idle], [1, 0, 0]);
    var s6 := Three(limit, limit - 1, 0, 0, [Idle, RActive, Idle], [1, 0, 0]);
    var s7 := Three(limit, limit, 0, 0, [RUnlockTest, RActive, Idle], [0, 0, 0]);
    var s8 := Three(limit, limit, 0, 0, [RUnlockLast, RActive, Idle], [0, 0, 0]);
    FourSteps(i, s4, TakeWr(1, false), s5, TakeActive(1), s6, ReadUnlock(0), s7, TestCount(0), s8, g);
  }

  lemma Reader1Enters(i: State, limit: nat, g: Premise)
    requires limit > 0 && g == Premise(false, true, true)
    requires Reaches(i, Three(limit, limit, 0, 0, [RUnlockLast, RActive, Idle], [0, 0, 0]), g)
    ensures Reaches(i, Three(limit, limit - 1, 0, 1, [Idle, RLeave, Idle], [0, 1, 0]), g)
  {
    TotalThree(0, 0, 0);
    var s8 := Three(limit, limit, 0, 0, [RUnlockLast, RActive, Idle], [0, 0, 0]);
    var s9 := Three(limit, limit, 0, 1, [Idle, RActive, Idle], [0, 0, 0]);
    var s10 := Three(limit, limit - 1, 0, 1, [Idle, RLeave, Idle], [0, 1, 0]);
    ReachStep(i, s8, GiveActive(0), s9, g);
    ReachStep(i, s9, TakeRd(1), s10, g);
  }

  lemma AfterLateTake(i: State, limit: nat, g: Premise)
    requires limit > 0 && g == Premise(false, true, true)
    requires Reaches(i, Three(limit, limit - 1, 0, 1, [Idle, RLeave, Idle], [0, 1, 0]), g)
    ensures Reaches(i, Joined(limit), g)
  {
    Writer2Enters(i, Three(limit, limit - 1, 0, 1, [Idle, RLeave, Idle], [0, 1, 0]), GiveWr(1), limit, g);
  }

  /** With only the gives undisturbed it fails too: reader 1 takes reader_active, reader 0 leaves
      and gives it back, reader 1 takes rd_sem, and writer 2 joins it. */
  lemma TakesMustBeUndisturbed(limit: nat) returns (s: State)
    requires limit > 0
    ensures Reaches(Init(limit, 3), s, Premise(false, true, true)) && !Exclusive(s)
  {
    var i, g := Init(limit, 3), Premise(false, true, true);
    FreshLock(limit, g);
    Reader0Enters(i, limit, g);
    Reader0LeavesMeanwhile(i, limit, g);
    Reader1Enters(i, limit, g);
    AfterLateTake(i, limit, g);
    s := Joined(limit);
    JoinedIsNotExclusive(limit);
  }

  /** Thread 0 holds k read locks. */
  function Reading(limit: nat, k: nat): State {
    Three(limit, if k < limit then limit - k else 0, 1, if k == 0 then 1 else 0, [Idle, Idle, Idle], [k, 0, 0])
  }

  lemma {:induction false} ReadsWithoutLimit(limit: nat, k: nat, g: Premise)
    requires limit > 0 && g == Premise(true, true, false)
    ensures Reaches(Init(limit, 3), Reading(limit, k), g)
  {
    var i := Init(limit, 3);
    if k == 0 {
      FreshLock(limit, g);
    } else {
      ReadsWithoutLimit(limit, k - 1, g);
      OneMoreRead(i, limit, k - 1, g);
    }
  }

  lemma OneMoreRead(i: State, limit: nat, k: nat, g: Premise)
    requires limit > 0 && g == Premise(true, true, false) && Reaches(i, Reading(limit, k), g)
    ensures Reaches(i, Reading(limit, k + 1), g)
  {
    var s := Reading(limit, k);
    var s1 := Three(limit, s.rd, 0, s.active, [RWindow, Idle, Idle], [k, 0, 0]);
    var s2 := Three(limit, s.rd, 0, 0, [RActive, Idle, Idle], [k, 0, 0]);
    var s3 := Three(limit, Reading(limit, k + 1).rd, 0, 0, [RLeave, Idle, Idle], [k + 1, 0, 0]);
    FourSteps(i, s, TakeWr(0, false), s1, TakeActive(0), s2, TakeRd(0), s3, GiveWr(0), Reading(limit, k + 1), g);
  }

  /** Thread 0 held one read lock more than the limit and has given back j. */
  function Leaving(limit: nat, j: nat): State
    requires j <= limit
  {
    Three(limit, j, 1, 0, [Idle, Idle, Idle], [limit + 1 - j, 0, 0])
  }

  lemma {:induction false} GiveBack(limit: nat, j: nat, g: Premise)
    requires j < limit && g == Premise(true, true, false)
    ensures Reaches(Init(limit, 3), Leaving(limit, j), g)
  {
    var i := Init(limit, 3);
    if j == 0 {
      ReadsWithoutLimit(limit, limit + 1, g);
      assert Reading(limit, limit + 1) == Leaving(limit, 0);
    } else {
      GiveBack(limit, j - 1, g);
      OneLessRead(i, limit, j, g);
    }
  }

  lemma OneLessRead(i: State, limit: nat, j: nat, g: Premise)
    requires 0 < j < limit && g == Premise(true, true, false) && Reaches(i, Leaving(limit, j - 1), g)
    ensures Reaches(i, Leaving(limit, j), g)
  {
    var s1 := Three(limit, j, 1, 0, [RUnlockTest, Idle, Idle], [limit + 1 - j, 0, 0]);
    ReachStep(i, Leaving(limit, j - 1), ReadUnlock(0), s1, g);
    ReachStep(i, s1, TestCount(0), Leaving(limit, j), g);
  }

  /** The count says that nobody reads, but one read lock is held, and writer 2 comes. */
  lemma WriterMiscounts(i: State, limit: nat, g: Premise)
    requires limit > 0 && g == Premise(true, true, false) && Reaches(i, Leaving(limit, limit - 1), g)
    ensures Reaches(i, State(limit, limit, 0, 0, Some(2), [Idle, Idle, Idle], [1, 0, 0]), g)
  {
    var s0 := Leaving(limit, limit - 1);
    var s1 := Three(limit, limit, 1, 0, [RUnlockTest, Idle, Idle], [1, 0, 0]);
    var s2 := Three(limit, limit, 1, 0, [RUnlockLast, Idle, Idle], [1, 0, 0]);
    var s3 := Three(limit, limit, 1, 1, [Idle, Idle, Idle], [1, 0, 0]);
    var s4 := Three(limit, limit, 0, 1, [Idle, Idle, WWait], [1, 0, 0]);
    FourSteps(i, s0, ReadUnlock(0), s1, TestCount(0), s2, GiveActive(0), s3, TakeWr(2, true), s4, g);
    WriterGetsIn(i, limit, g);
  }

  lemma WriterGetsIn(i: State, limit: nat, g: Premise)
    requires limit > 0 && g == Premise(true, true, false)
    requires Reaches(i, Three(limit, limit, 0, 1, [Idle, Idle, WWait], [1, 0, 0]), g)
    ensures Reaches(i, State(limit, limit, 0, 0, Some(2), [Idle, Idle, Idle], [1, 0, 0]), g)
  {
    var s4 := Three(limit, limit, 0, 1, [Idle, Idle, WWait], [1, 0, 0]);
    var s5 := Three(limit, limit, 0, 0, [Idle, Idle, WOwn], [1, 0, 0]);
    ReachStep(i, s4, Enter(2), s5, g);
    ReachStep(i, s5, SetOwner(2), State(limit, limit, 0, 0, Some(2), [Idle, Idle, Idle], [1, 0, 0]), g);
  }

  /** With one read lock more than the limit it fails as well: once the limit is back, reader_active is
      given while that lock is still held. */
  lemma ReadersMustStayBounded(limit: nat) returns (s: State)
    requires limit > 0
    ensures Reaches(Init(limit, 3), s, Premise(true, true, false)) && !Exclusive(s)
  {
    var g := Premise(true, true, false);
    GiveBack(limit, limit - 1, g);
    WriterMiscounts(Init(limit, 3), limit, g);
    s := State(limit, limit, 0, 0, Some(2), [Idle, Idle, Idle], [1, 0, 0]);
    WriterBesideReader(s);
  }

  lemma WriterBesideReader(s: State)
    requires |s.pc| == |s.held| == 3 && s.owner == Some(2) && s.held[0] == 1
    ensures !Exclusive(s)
  {
    assert Writing(s, 2) && s.held[0] == 1;
  }

  predicate Weaker(g: Premise, h: Premise) {
    (g.takes ==> h.takes) && (g.gives ==> h.gives) && (g.bounded ==> h.bounded)
  }

  lemma {:induction false} LegalWeaker(s: State, ops: seq<Op>, g: Premise, h: Premise)
    requires Weaker(g, h) && Legal(s, ops, h)
    ensures Legal(s, ops, g) && Exec(s, ops, g) == Exec(s, ops, h)
    decreases |ops|
  {
    if ops != [] { LegalWeaker(Apply(s, ops[0]), ops[1..], g, h); }
  }

  lemma ReachesWeaker(i: State, s: State, g: Premise, h: Premise)
    requires Weaker(g, h) && Reaches(i, s, h)
    ensures Reaches(i, s, g)
  {
    var ops :| Legal(i, ops, h) && Exec(i, ops, h) == s;
    LegalWeaker(i, ops, g, h);
  }

  ghost predicate AlwaysExclusive(limit: nat, g: Premise) {
    forall n, ops :: Legal(Init(limit, n), ops, g) ==> Exclusive(Exec(Init(limit, n), ops, g))
  }

  /** Every run of any number of threads is exclusive if and only if all three premises are kept. */
  lemma ExclusiveExactly(limit: nat, g: Premise)
    requires limit > 0
    ensures AlwaysExclusive(limit, g) <==> g == ALL
  {
    if g == ALL {
      forall n, ops | Legal(Init(limit, n), ops, g) ensures Exclusive(Exec(Init(limit, n), ops, g)) {
        RunsAreExclusive(limit, n, ops);
      }
    } else {
      var s := FailingRun(limit, g);
      var ops :| Legal(Init(limit, 3), ops, g) && Exec(Init(limit, 3), ops, g) == s;
    }
  }

  lemma FailingRun(limit: nat, g: Premise) returns (s: State)
    requires limit > 0 && g != ALL
    ensures Reaches(Init(limit, 3), s, g) && !Exclusive(s)
  {
    if !g.takes {
      s := TakesMustBeUndisturbed(limit);
      ReachesWeaker(Init(limit, 3), s, g, Premise(false, true, true));
    } else if !g.gives {
      s := GivesMustBeUndisturbed(limit);
      ReachesWeaker(Init(limit, 3), s, g, Premise(true, false, true));
    } else {
      s := ReadersMustStayBounded(limit);
      ReachesWeaker(Init(limit, 3), s, g, Premise(true, true, false));
    }
  }
}
