/** What whole calls on the lock of lib/posix/options/rw_locks/rwlock.c do, from their first semaphore
    operation to their last, and that they can always be finished. */
module RwLockCalls {
  import opened Common
  import opened RwLock

  lemma OneLegal(s: State, a: Op, s1: State)
    requires StepOk(s, a, s1, ALL)
    ensures Legal(s, [a], ALL) && Exec(s, [a], ALL) == s1
  {
    LegalCons(s, a, []);
    assert [a] + [] == [a];
  }

  lemma TwoLegal(s: State, a: Op, s1: State, b: Op, s2: State)
    requires StepOk(s, a, s1, ALL) && StepOk(s1, b, s2, ALL)
    ensures Legal(s, [a, b], ALL) && Exec(s, [a, b], ALL) == s2
  {
    OneLegal(s1, b, s2);
    LegalCons(s, a, [b]);
    assert [a] + [b] == [a, b];
  }

  lemma ThreeLegal(s: State, a: Op, s1: State, b: Op, s2: State, c: Op, s3: State)
    requires StepOk(s, a, s1, ALL) && StepOk(s1, b, s2, ALL) && StepOk(s2, c, s3, ALL)
    ensures Legal(s, [a, b, c], ALL) && Exec(s, [a, b, c], ALL) == s3
  {
    TwoLegal(s1, b, s2, c, s3);
    LegalCons(s, a, [b, c]);
    assert [a] + [b, c] == [a, b, c];
  }

  lemma FourLegal(s: State, a: Op, s1: State, b: Op, s2: State, c: Op, s3: State, d: Op, s4: State)
    requires StepOk(s, a, s1, ALL) && StepOk(s1, b, s2, ALL) && StepOk(s2, c, s3, ALL) && StepOk(s3, d, s4, ALL)
    ensures Legal(s, [a, b, c, d], ALL) && Exec(s, [a, b, c, d], ALL) == s4
  {
    ThreeLegal(s1, b, s2, c, s3, d, s4);
    LegalCons(s, a, [b, c, d]);
    assert [a] + [b, c, d] == [a, b, c, d];
  }

  /** Nobody is in the middle of a stretch that must not be disturbed. */
  ghost predicate Quiet(s: State) { forall u :: 0 <= u < |s.pc| ==> !Midway(s.pc[u]) }

  /** A thread that is in no call. */
  predicate Free(s: State, t: nat) { t < |s.pc| == |s.held| && s.pc[t].Idle? }

  // ---------------------------------------------------------------- the calls

  /** A write unlock runs to its end and gives both semaphores back. */
  lemma WriteUnlockCall(s: State, t: nat)
    requires Inv(s) && s.owner == Some(t)
    ensures Legal(s, [WriteUnlock(t), GiveActive(t), GiveWr(t)], ALL)
    ensures Exec(s, [WriteUnlock(t), GiveActive(t), GiveWr(t)], ALL) == s.(wr := 1, active := 1, owner := None)
  {
    assert Writing(s, t) && InWindow(s, t);
    var s1 := s.(owner := None, pc := s.pc[t := WUnlock1]);
    var s2 := s.(owner := None, active := 1, pc := s.pc[t := WUnlock2]);
    var s3 := s.(owner := None, active := 1, wr := 1);
    assert s1.pc[t := WUnlock2] == s2.pc && s2.pc[t := Idle] == s3.pc;
    ThreeLegal(s, WriteUnlock(t), s1, GiveActive(t), s2, GiveWr(t), s3);
  }

  /** Taking a lock that nobody has for writing. */
  lemma WriteLockCall(s: State, t: nat)
    requires Inv(s) && Quiet(s) && Free(s, t) && s.wr > 0 && Total(s.held) == 0
    ensures Legal(s, [TakeWr(t, true), Enter(t), SetOwner(t)], ALL)
    ensures Exec(s, [TakeWr(t, true), Enter(t), SetOwner(t)], ALL) == s.(wr := 0, active := 0, owner := Some(t))
  {
    NobodyInside(s);
    var s1 := s.(wr := 0, pc := s.pc[t := WWait]);
    var s2 := s.(wr := 0, active := 0, pc := s.pc[t := WOwn]);
    var s3 := s.(wr := 0, active := 0, owner := Some(t));
    assert s1.pc[t := WOwn] == s2.pc && s2.pc[t := Idle] == s3.pc;
    ThreeLegal(s, TakeWr(t, true), s1, Enter(t), s2, SetOwner(t), s3);
  }

  lemma NobodyInside(s: State)
    requires Inv(s) && Quiet(s) && s.wr > 0 && Total(s.held) == 0
    ensures s.active == 1
  {
    forall t | 0 <= t < |s.pc| ensures !Writing(s, t) {
      assert !InWindow(s, t);
    }
    assert !Occupied(s);
  }

  /** Taking a lock for reading that no writer has: one more read lock, and reader_active is gone. */
  lemma ReadLockCall(s: State, t: nat)
    requires Inv(s) && Quiet(s) && Free(s, t) && s.wr > 0 && Total(s.held) < s.limit
    ensures Legal(s, [TakeWr(t, false), TakeActive(t), TakeRd(t), GiveWr(t)], ALL)
    ensures Exec(s, [TakeWr(t, false), TakeActive(t), TakeRd(t), GiveWr(t)], ALL)
            == s.(active := 0, rd := s.rd - 1, held := s.held[t := s.held[t] + 1])
  {
    var s1 := s.(wr := 0, pc := s.pc[t := RWindow]);
    var s2 := s.(wr := 0, active := 0, pc := s.pc[t := RActive]);
    var held := s.held[t := s.held[t] + 1];
    var s3 := s.(wr := 0, active := 0, rd := s.rd - 1, pc := s.pc[t := RLeave], held := held);
    var s4 := s.(active := 0, rd := s.rd - 1, held := held);
    assert s1.pc[t := RActive] == s2.pc && s2.pc[t := RLeave] == s3.pc && s3.pc[t := Idle] == s4.pc;
    FourLegal(s, TakeWr(t, false), s1, TakeActive(t), s2, TakeRd(t), s3, GiveWr(t), s4);
  }

  lemma HolderIsNoOwner(s: State, t: nat)
    requires Inv(s) && t < |s.held| && s.held[t] > 0
    ensures s.owner != Some(t) && s.active == 0 && Total(s.held) > 0 && s.rd < s.limit
  {
    TotalUpdate(s.held, t, 0);
    assert forall u :: 0 <= u < |s.pc| ==> !Writing(s, u);
    assert !Writing(s, t);
    assert Occupied(s);
  }

  /** Giving back a read lock that is not the last. */
  lemma ReadUnlockCall(s: State, t: nat)
    requires Inv(s) && Quiet(s) && Free(s, t) && s.held[t] > 0 && Total(s.held) > 1
    ensures Legal(s, [ReadUnlock(t), TestCount(t)], ALL)
    ensures Exec(s, [ReadUnlock(t), TestCount(t)], ALL) == s.(rd := s.rd + 1, held := s.held[t := s.held[t] - 1])
  {
    HolderIsNoOwner(s, t);
    var held := s.held[t := s.held[t] - 1];
    var s1 := s.(rd := s.rd + 1, pc := s.pc[t := RUnlockTest], held := held);
    var s2 := s.(rd := s.rd + 1, held := held);
    assert s1.pc[t := Idle] == s2.pc;
    TwoLegal(s, ReadUnlock(t), s1, TestCount(t), s2);
  }

  /** Giving back the last read lock: reader_active comes back with it. */
  lemma LastReadUnlockCall(s: State, t: nat)
    requires Inv(s) && Quiet(s) && Free(s, t) && s.held[t] > 0 && Total(s.held) == 1
    ensures Legal(s, [ReadUnlock(t), TestCount(t), GiveActive(t)], ALL)
    ensures Exec(s, [ReadUnlock(t), TestCount(t), GiveActive(t)], ALL)
            == s.(rd := s.limit, active := 1, held := s.held[t := s.held[t] - 1])
  {
    HolderIsNoOwner(s, t);
    var held := s.held[t := s.held[t] - 1];
    var s1 := s.(rd := s.limit, pc := s.pc[t := RUnlockTest], held := held);
    var s2 := s.(rd := s.limit, pc := s.pc[t := RUnlockLast], held := held);
    var s3 := s.(rd := s.limit, active := 1, held := held);
    assert s1.pc[t := RUnlockLast] == s2.pc && s2.pc[t := Idle] == s3.pc;
    ThreeLegal(s, ReadUnlock(t), s1, TestCount(t), s2, GiveActive(t), s3);
  }

  /** A writer that waits in vain gives wr_sem back and leaves everything else alone. */
  lemma GiveUpCall(s: State, t: nat)
    requires Inv(s) && Quiet(s) && t < |s.pc| && s.pc[t].WWait?
    ensures Legal(s, [TimeOut(t), GiveWr(t)], ALL)
    ensures Exec(s, [TimeOut(t), GiveWr(t)], ALL) == s.(wr := 1, pc := s.pc[t := Idle])
  {
    assert InWindow(s, t);
    var s1 := s.(pc := s.pc[t := WGiveUp]);
    var s2 := s.(wr := 1, pc := s.pc[t := Idle]);
    assert s1.pc[t := Idle] == s2.pc;
    TwoLegal(s, TimeOut(t), s1, GiveWr(t), s2);
  }

  /** Nobody else gets past wr_sem while a writer has the lock. */
  lemma WriterKeepsOthersOut(s: State, t: nat, u: nat, writing: bool)
    requires Inv(s) && s.owner == Some(t)
    ensures !Enabled(s, TakeWr(u, writing))
  {
    assert InWindow(s, t);
  }

  /** A writer does not get past reader_active while a read lock is held. */
  lemma ReadersKeepWritersOut(s: State, t: nat)
    requires Inv(s) && Total(s.held) > 0
    ensures !Enabled(s, Enter(t))
  {
    assert Occupied(s);
  }

  // ---------------------------------------------------------------- every call can be finished

  /** The operation that a thread inside a call goes on with; a waiting writer may give up. */
  function NextOp(pc: Pc, t: nat): Op
    requires !pc.Idle?
  {
    match pc
    case RWindow => TakeActive(t)
    case RActive => TakeRd(t)
    case RLeave => GiveWr(t)
    case WWait => TimeOut(t)
    case WOwn => SetOwner(t)
    case WGiveUp => GiveWr(t)
    case WUnlock1 => GiveActive(t)
    case WUnlock2 => GiveWr(t)
    case RUnlockTest => TestCount(t)
    case RUnlockLast => GiveActive(t)
  }

  function ToGo(pc: Pc): nat {
    match pc
    case Idle => 0
    case RWindow => 3
    case RActive => 2
    case RLeave => 1
    case WWait => 2
    case WOwn => 1
    case WGiveUp => 1
    case WUnlock1 => 2
    case WUnlock2 => 1
    case RUnlockTest => 2
    case RUnlockLast => 1
  }

  function AllToGo(pc: seq<Pc>): nat {
    if pc == [] then 0 else AllToGo(pc[..|pc| - 1]) + ToGo(pc[|pc| - 1])
  }

  lemma {:induction false} AllToGoUpdate(pc: seq<Pc>, t: nat, p: Pc)
    requires t < |pc|
    ensures AllToGo(pc[t := p]) == AllToGo(pc) - ToGo(pc[t]) + ToGo(p)
    decreases |pc|
  {
    var front, last := pc[..|pc| - 1], pc[|pc| - 1];
    if t < |front| {
      AllToGoUpdate(front, t, p);
      assert pc[t := p][..|pc| - 1] == front[t := p];
    } else {
      assert pc[t := p][..|pc| - 1] == front;
    }
  }

  /** A reader on its way in has room. */
  ghost predicate Admitted(s: State) {
    forall t :: 0 <= t < |s.pc| && (s.pc[t].RWindow? || s.pc[t].RActive?) ==> Total(s.held) < s.limit
  }

  ghost predicate AllIdle(s: State) { forall t :: 0 <= t < |s.pc| ==> s.pc[t].Idle? }

  lemma AdmittedStep(s: State, op: Op)
    requires Inv(s) && Admitted(s) && Enabled(s, op) && Guarded(s, op, ALL) && !op.TakeWr?
    ensures Admitted(Apply(s, op))
  {
    var s' := Apply(s, op);
    if op.TakeRd? || op.ReadUnlock? { TotalUpdate(s.held, op.t, s'.held[op.t]); }
    forall u | 0 <= u < |s'.pc| && (s'.pc[u].RWindow? || s'.pc[u].RActive?) ensures Total(s'.held) < s'.limit {
      if op.TakeRd? { assert InWindow(s, op.t) && InWindow(s, u); }
    }
  }

  /** Some thread inside a call can always go on with it. */
  lemma SomebodyGoesOn(s: State) returns (t: nat)
    requires Inv(s) && Admitted(s) && !AllIdle(s)
    ensures t < |s.pc| && !s.pc[t].Idle? && Enabled(s, NextOp(s.pc[t], t)) && Guarded(s, NextOp(s.pc[t], t), ALL)
  {
    if u :| 0 <= u < |s.pc| && Midway(s.pc[u]) {
      t := u;
    } else {
      t :| 0 <= t < |s.pc| && !s.pc[t].Idle?;
    }
  }

  lemma GoOn(s: State) returns (op: Op, s': State)
    requires Inv(s) && Admitted(s) && !AllIdle(s)
    ensures StepOk(s, op, s', ALL) && Inv(s') && Admitted(s')
    ensures AllToGo(s'.pc) < AllToGo(s.pc) && |s'.pc| == |s.pc| && s'.limit == s.limit
  {
    var t := SomebodyGoesOn(s);
    op := NextOp(s.pc[t], t);
    s' := Apply(s, op);
    InvStep(s, op);
    AdmittedStep(s, op);
    AllToGoUpdate(s.pc, t, s'.pc[t]);
  }

  lemma {:induction false} FinishCalls(i: State, s: State) returns (e: State)
    requires Reaches(i, s, ALL) && Inv(s) && Admitted(s)
    ensures Reaches(i, e, ALL) && Inv(e) && AllIdle(e) && |e.pc| == |s.pc| && e.limit == s.limit
    decreases AllToGo(s.pc)
  {
    if AllIdle(s) {
      e := s;
    } else {
      var op, s' := GoOn(s);
      ReachStep(i, s, op, s', ALL);
      e := FinishCalls(i, s');
    }
  }

  // ---------------------------------------------------------------- every lock can be given back

  lemma {:induction false} ReachRun(i: State, s: State, ops: seq<Op>)
    requires Reaches(i, s, ALL) && Legal(s, ops, ALL)
    ensures Reaches(i, Exec(s, ops, ALL), ALL)
    decreases |ops|
  {
    if ops != [] {
      ReachStep(i, s, ops[0], Apply(s, ops[0]), ALL);
      ReachRun(i, Apply(s, ops[0]), ops[1..]);
    }
  }

  lemma {:induction false} SomebodyHolds(held: seq<nat>) returns (t: nat)
    requires Total(held) > 0
    ensures t < |held| && held[t] > 0
    decreases |held|
  {
    if held[|held| - 1] > 0 { t := |held| - 1; } else { t := SomebodyHolds(held[..|held| - 1]); }
  }

  lemma {:induction false} GiveBackReads(i: State, s: State) returns (e: State)
    requires Reaches(i, s, ALL) && Inv(s) && AllIdle(s)
    ensures Reaches(i, e, ALL) && Inv(e) && AllIdle(e) && Total(e.held) == 0
    ensures e.owner == s.owner && |e.pc| == |s.pc| && e.limit == s.limit
    decreases Total(s.held)
  {
    if Total(s.held) == 0 {
      e := s;
    } else {
      var t := SomebodyHolds(s.held);
      TotalUpdate(s.held, t, s.held[t] - 1);
      if Total(s.held) > 1 {
        ReadUnlockCall(s, t);
        ReachRun(i, s, [ReadUnlock(t), TestCount(t)]);
        InvExec(s, [ReadUnlock(t), TestCount(t)]);
        e := GiveBackReads(i, s.(rd := s.rd + 1, held := s.held[t := s.held[t] - 1]));
      } else {
        LastReadUnlockCall(s, t);
        ReachRun(i, s, [ReadUnlock(t), TestCount(t), GiveActive(t)]);
        InvExec(s, [ReadUnlock(t), TestCount(t), GiveActive(t)]);
        e := s.(rd := s.limit, active := 1, held := s.held[t := s.held[t] - 1]);
      }
    }
  }

  lemma {:induction false} ZeroTotal(held: seq<nat>)
    requires Total(held) == 0
    ensures forall t :: 0 <= t < |held| ==> held[t] == 0
    decreases |held|
  {
    forall t | 0 <= t < |held| ensures held[t] == 0 {
      TotalUpdate(held, t, 0);
    }
  }

  lemma UnusedIsInitial(s: State)
    requires Inv(s) && AllIdle(s) && Total(s.held) == 0 && s.owner.None?
    ensures s == Init(s.limit, |s.pc|)
  {
    var i := Init(s.limit, |s.pc|);
    ZeroTotal(s.held);
    assert s.pc == i.pc && s.held == i.held;
    assert forall t :: 0 <= t < |s.pc| ==> !InWindow(s, t) && !Writing(s, t);
    assert !Occupied(s);
  }

  lemma ReleaseAll(i: State, s: State)
    requires Reaches(i, s, ALL) && Inv(s) && Admitted(s)
    ensures Reaches(i, Init(s.limit, |s.pc|), ALL)
  {
    var m := FinishCalls(i, s);
    var w := m;
    if m.owner.Some? {
      var t := m.owner.value;
      WriteUnlockCall(m, t);
      ReachRun(i, m, [WriteUnlock(t), GiveActive(t), GiveWr(t)]);
      InvExec(m, [WriteUnlock(t), GiveActive(t), GiveWr(t)]);
      w := m.(wr := 1, active := 1, owner := None);
    }
    var e := GiveBackReads(i, w);
    UnusedIsInitial(e);
  }

  /** From every state of every run, all calls can be finished and all locks given back, and the lock
      is then as it was initialised. */
  lemma CanAlwaysBeReleased(limit: nat, n: nat, ops: seq<Op>)
    requires limit > 0 && Legal(Init(limit, n), ops, ALL) && Admitted(Exec(Init(limit, n), ops, ALL))
    ensures Reaches(Exec(Init(limit, n), ops, ALL), Init(limit, n), ALL)
  {
    var s := Exec(Init(limit, n), ops, ALL);
    InitInv(limit, n);
    InvExec(Init(limit, n), ops);
    ShapeKept(Init(limit, n), ops, ALL);
    assert Legal(s, [], ALL) && Exec(s, [], ALL) == s;
    ReleaseAll(s, s);
  }
}
