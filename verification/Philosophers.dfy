/** The dining philosophers of samples/posix/philosophers/src/main.c, for any number of them from
    two on and any interleaving. */
module Philosophers {
  import opened Common

  /** What a philosopher does next: take the first fork, take the second, drop the second, drop the first. */
  datatype Pc = Starving | HoldingOne | Eating | DroppedOne

  datatype State = State(owner: seq<Option<nat>>, pc: seq<Pc>)

  predicate IsLast(id: nat, n: nat) { id + 1 == n }

  function Fork1(id: nat, n: nat): nat { if IsLast(id, n) then 0 else id }

  function Fork2(id: nat, n: nat): nat { if IsLast(id, n) then id else id + 1 }

  function Init(n: nat): State { State(seq(n, _ => None), seq(n, _ => Starving)) }

  function Size(s: State): nat { |s.pc| }

  predicate Shape(s: State) { |s.pc| == |s.owner| && |s.pc| >= 2 }

  /** Philosopher `i` can take its next step; only taking a held fork blocks. */
  predicate CanStep(s: State, i: nat) {
    Shape(s) && i < Size(s) &&
    match s.pc[i]
    case Starving => s.owner[Fork1(i, Size(s))].None?
    case HoldingOne => s.owner[Fork2(i, Size(s))].None?
    case Eating => true
    case DroppedOne => true
  }

  function Step(s: State, i: nat): State
    requires CanStep(s, i)
  {
    var f1, f2 := Fork1(i, Size(s)), Fork2(i, Size(s));
    match s.pc[i]
    case Starving => State(s.owner[f1 := Some(i)], s.pc[i := HoldingOne])
    case HoldingOne => State(s.owner[f2 := Some(i)], s.pc[i := Eating])
    case Eating => State(s.owner[f2 := None], s.pc[i := DroppedOne])
    case DroppedOne => State(s.owner[f1 := None], s.pc[i := Starving])
  }

  predicate Legal(s: State, schedule: seq<nat>)
    decreases |schedule|
  {
    schedule == [] || (CanStep(s, schedule[0]) && Legal(Step(s, schedule[0]), schedule[1..]))
  }

  function Exec(s: State, schedule: seq<nat>): State
    requires Legal(s, schedule)
    decreases |schedule|
  {
    if schedule == [] then s else Exec(Step(s, schedule[0]), schedule[1..])
  }

  // ---------------------------------------------------------------- who holds what

  predicate HoldsFork(s: State, i: nat, k: nat)
    requires i < Size(s)
  {
    match s.pc[i]
    case Starving => false
    case Eating => k == Fork1(i, Size(s)) || k == Fork2(i, Size(s))
    case _ => k == Fork1(i, Size(s))
  }

  ghost predicate Inv(s: State) {
    Shape(s) && forall k :: 0 <= k < Size(s) ==>
                  (s.owner[k].Some? ==> s.owner[k].value < Size(s))
                  && forall i :: 0 <= i < Size(s) ==> (s.owner[k] == Some(i) <==> HoldsFork(s, i, k))
  }

  lemma ForksAreOrdered(i: nat, n: nat)
    requires i < n && n >= 2
    ensures Fork1(i, n) < Fork2(i, n) < n
  {}

  lemma InvStep(s: State, i: nat)
    requires Inv(s) && CanStep(s, i)
    ensures Inv(Step(s, i))
  {
    var s' := Step(s, i);
    ForksAreOrdered(i, Size(s));
    forall k | 0 <= k < Size(s')
      ensures (s'.owner[k].Some? ==> s'.owner[k].value < Size(s'))
      ensures forall j :: 0 <= j < Size(s') ==> (s'.owner[k] == Some(j) <==> HoldsFork(s', j, k))
    {
      forall j | 0 <= j < Size(s')
        ensures s'.owner[k] == Some(j) <==> HoldsFork(s', j, k)
      {
        assert s.owner[k] == Some(j) <==> HoldsFork(s, j, k);
        assert s.owner[k] == Some(i) <==> HoldsFork(s, i, k);
      }
    }
  }

  lemma {:induction false} InvExec(s: State, schedule: seq<nat>)
    requires Inv(s) && Legal(s, schedule)
    ensures Inv(Exec(s, schedule)) && Size(Exec(s, schedule)) == Size(s)
    decreases |schedule|
  {
    if schedule != [] {
      InvStep(s, schedule[0]);
      InvExec(Step(s, schedule[0]), schedule[1..]);
    }
  }

  function Neighbour(i: nat, n: nat): nat { if IsLast(i, n) then 0 else i + 1 }

  lemma NeighboursShareAFork(s: State, i: nat)
    requires Inv(s) && i < Size(s)
    ensures !(s.pc[i].Eating? && s.pc[Neighbour(i, Size(s))].Eating?)
  {
    var n := Size(s);
    var j, shared := Neighbour(i, n), Neighbour(i, n);
    assert s.owner[shared] == Some(i) <==> HoldsFork(s, i, shared);
    assert s.owner[shared] == Some(j) <==> HoldsFork(s, j, shared);
  }

  lemma InitInv(n: nat)
    requires n >= 2
    ensures Inv(Init(n))
  {}

  /** No two neighbours ever eat together. */
  lemma NeighboursNeverEatTogether(n: nat, schedule: seq<nat>, i: nat)
    requires n >= 2 && Legal(Init(n), schedule) && i < n
    ensures var s := Exec(Init(n), schedule);
            Size(s) == n && !(s.pc[i].Eating? && s.pc[Neighbour(i, n)].Eating?)
  {
    InitInv(n);
    InvExec(Init(n), schedule);
    NeighboursShareAFork(Exec(Init(n), schedule), i);
  }

  // ---------------------------------------------------------------- nobody is locked out

  ghost predicate Reaches(s: State, s': State) {
    exists schedule :: Legal(s, schedule) && Exec(s, schedule) == s'
  }

  lemma ReachSelf(s: State)
    ensures Reaches(s, s)
  {
    assert Legal(s, []) && Exec(s, []) == s;
  }

  lemma {:induction false} ExecAppend(s: State, schedule: seq<nat>, i: nat)
    requires Legal(s, schedule) && CanStep(Exec(s, schedule), i)
    ensures Legal(s, schedule + [i]) && Exec(s, schedule + [i]) == Step(Exec(s, schedule), i)
    decreases |schedule|
  {
    if schedule != [] {
      assert (schedule + [i])[1..] == schedule[1..] + [i];
      ExecAppend(Step(s, schedule[0]), schedule[1..], i);
    }
  }

  lemma ReachStep(s: State, m: State, i: nat)
    requires Reaches(s, m) && CanStep(m, i)
    ensures Reaches(s, Step(m, i))
  {
    var schedule :| Legal(s, schedule) && Exec(s, schedule) == m;
    ExecAppend(s, schedule, i);
    assert Legal(s, schedule + [i]);
  }

  /** Philosopher `p` holds a fork numbered `k` or higher. */
  predicate HoldsFrom(s: State, p: nat, k: nat)
    requires p < Size(s)
  {
    (HoldsFork(s, p, Fork1(p, Size(s))) && Fork1(p, Size(s)) >= k) || (s.pc[p].Eating? && Fork2(p, Size(s)) >= k)
  }

  /** `m` differs from `s` only in philosophers that held a fork from `k` on and now hold none. */
  ghost predicate OnlyReleased(s: State, m: State, k: nat) {
    Size(m) == Size(s) &&
    forall p :: 0 <= p < Size(s) ==> m.pc[p] == s.pc[p] || (HoldsFrom(s, p, k) && m.pc[p].Starving?)
  }

  /** A philosopher that can go on with both forks within reach can put both down. */
  lemma PutDown(s: State, m: State, j: nat)
    requires Inv(m) && Reaches(s, m) && j < Size(m) && !m.pc[j].Starving?
    requires m.pc[j].HoldingOne? ==> m.owner[Fork2(j, Size(m))].None?
    ensures var e := State(m.owner[Fork1(j, Size(m)) := None][Fork2(j, Size(m)) :=
                             if m.pc[j].DroppedOne? then m.owner[Fork2(j, Size(m))] else None], m.pc[j := Starving]);
            Reaches(s, e) && Inv(e)
    decreases match m.pc[j] case HoldingOne => 2 case Eating => 1 case _ => 0
  {
    var n := Size(m);
    ForksAreOrdered(j, n);
    var e := State(m.owner[Fork1(j, n) := None][Fork2(j, n) :=
                     if m.pc[j].DroppedOne? then m.owner[Fork2(j, n)] else None], m.pc[j := Starving]);
    var m' := Step(m, j);
    InvStep(m, j);
    ReachStep(s, m, j);
    if m.pc[j].DroppedOne? {
      assert e.owner == m'.owner;
    } else {
      PutDown(s, m', j);
      var e' := State(m'.owner[Fork1(j, n) := None][Fork2(j, n) :=
                        if m'.pc[j].DroppedOne? then m'.owner[Fork2(j, n)] else None], m'.pc[j := Starving]);
      assert e'.owner == e.owner && e'.pc == e.pc;
    }
  }

  /** Any fork can be freed by letting philosophers that hold it or a higher fork finish. */
  lemma FreeFork(s: State, k: nat) returns (m: State)
    requires Inv(s) && k < Size(s)
    ensures Reaches(s, m) && Inv(m) && OnlyReleased(s, m, k) && m.owner[k].None?
    decreases Size(s) - k
  {
    var n := Size(s);
    ReachSelf(s);
    if s.owner[k].None? {
      m := s;
    } else {
      var j := s.owner[k].value;
      assert HoldsFork(s, j, k) && HoldsFrom(s, j, k);
      ForksAreOrdered(j, n);
      var f1, f2 := Fork1(j, n), Fork2(j, n);
      var r := s;
      if s.pc[j].HoldingOne? {
        r := FreeFork(s, f2);
        assert !HoldsFrom(s, j, f2);
      }
      PutDown(s, r, j);
      m := State(r.owner[f1 := None][f2 := if r.pc[j].DroppedOne? then r.owner[f2] else None], r.pc[j := Starving]);
    }
  }

  /** In every reachable state every philosopher still has a way to its meal, so neither all of
      them nor any group can be deadlocked. */
  lemma EveryoneCanStillEat(n: nat, schedule: seq<nat>, i: nat) returns (m: State)
    requires n >= 2 && Legal(Init(n), schedule) && i < n
    ensures Reaches(Exec(Init(n), schedule), m) && Size(m) == n && m.pc[i].Eating?
  {
    var s := Exec(Init(n), schedule);
    InitInv(n);
    InvExec(Init(n), schedule);
    ForksAreOrdered(i, n);
    ReachSelf(s);
    m := s;
    if s.pc[i].Eating? { return; }
    if s.pc[i].DroppedOne? {
      ReachStep(s, m, i);
      InvStep(m, i);
      m := Step(m, i);
    }
    if m.pc[i].Starving? {
      m := Hungry(s, m, i);
    }
    m := SecondFork(s, m, i);
  }

  lemma ReachTrans(s: State, m: State, e: State)
    requires Reaches(s, m) && Reaches(m, e)
    ensures Reaches(s, e)
  {
    var a :| Legal(s, a) && Exec(s, a) == m;
    var b :| Legal(m, b) && Exec(m, b) == e;
    ExecConcat(s, a, b);
    assert Legal(s, a + b);
  }

  lemma {:induction false} ExecConcat(s: State, a: seq<nat>, b: seq<nat>)
    requires Legal(s, a) && Legal(Exec(s, a), b)
    ensures Legal(s, a + b) && Exec(s, a + b) == Exec(Exec(s, a), b)
    decreases |a|
  {
    if a == [] {
      assert a + b == b;
    } else {
      assert (a + b)[1..] == a[1..] + b;
      ExecConcat(Step(s, a[0]), a[1..], b);
    }
  }

  lemma Hungry(s: State, m: State, i: nat) returns (e: State)
    requires Reaches(s, m) && Inv(m) && i < Size(m) && m.pc[i].Starving?
    ensures Reaches(s, e) && Inv(e) && Size(e) == Size(m) && e.pc[i].HoldingOne?
  {
    ForksAreOrdered(i, Size(m));
    var r := FreeFork(m, Fork1(i, Size(m)));
    ReachTrans(s, m, r);
    assert r.pc[i].Starving?;
    InvStep(r, i);
    ReachStep(s, r, i);
    e := Step(r, i);
  }

  lemma SecondFork(s: State, m: State, i: nat) returns (e: State)
    requires Reaches(s, m) && Inv(m) && i < Size(m) && m.pc[i].HoldingOne?
    ensures Reaches(s, e) && Size(e) == Size(m) && e.pc[i].Eating?
  {
    ForksAreOrdered(i, Size(m));
    var r := FreeFork(m, Fork2(i, Size(m)));
    ReachTrans(s, m, r);
    assert !HoldsFrom(m, i, Fork2(i, Size(m)));
    ReachStep(s, r, i);
    e := Step(r, i);
  }

  /** In particular some philosopher can always move. */
  lemma NeverAllBlocked(n: nat, schedule: seq<nat>) returns (i: nat)
    requires n >= 2 && Legal(Init(n), schedule)
    ensures CanStep(Exec(Init(n), schedule), i)
  {
    var s := Exec(Init(n), schedule);
    InitInv(n);
    InvExec(Init(n), schedule);
    if s.pc[0].Eating? {
      i := 0;
    } else {
      var m := EveryoneCanStillEat(n, schedule, 0);
      var way :| Legal(s, way) && Exec(s, way) == m;
      i := way[0];
    }
  }

  /** A philosopher with both forks free takes them, eats, puts them down, and leaves the table as it was. */
  lemma WholeMeal(s: State, i: nat)
    requires Inv(s) && i < Size(s) && s.pc[i].Starving?
    requires s.owner[Fork1(i, Size(s))].None? && s.owner[Fork2(i, Size(s))].None?
    ensures CanStep(s, i) && CanStep(Step(s, i), i) && Step(Step(s, i), i).pc[i].Eating?
    ensures Legal(s, [i, i, i, i]) && Exec(s, [i, i, i, i]) == s
  {
    var n := Size(s);
    ForksAreOrdered(i, n);
    var a, b := Fork1(i, n), Fork2(i, n);
    var s1 := State(s.owner[a := Some(i)], s.pc[i := HoldingOne]);
    var s2 := State(s.owner[a := Some(i)][b := Some(i)], s.pc[i := Eating]);
    var s3 := State(s.owner[a := Some(i)], s.pc[i := DroppedOne]);
    assert s1 == Step(s, i);
    assert s2 == Step(s1, i);
    assert s3 == Step(s2, i);
    assert s == Step(s3, i);
    assert [i, i, i, i][1..] == [i, i, i] && [i, i, i][1..] == [i, i] && [i, i][1..] == [i] && [i][1..] == [];
    assert Legal(s3, [i]) && Exec(s3, [i]) == s;
    assert Legal(s2, [i, i]) && Exec(s2, [i, i]) == s;
    assert Legal(s1, [i, i, i]) && Exec(s1, [i, i, i]) == s;
  }
}
