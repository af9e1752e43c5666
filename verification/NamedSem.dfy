/** The registry of named semaphores of lib/posix/options/semaphores/semaphore.c: reference-counted
    objects behind names that can be unlinked while handles are still open. */
module NamedSem {
  import opened Common

  datatype Error = EINVAL | ENAMETOOLONG | EEXIST | ENOENT | ENOSPC

  datatype Result<+T> = Ok(value: T) | Fail(error: Error)

  // ---------------------------------------------------------------- what callers see

  /** Names bound to semaphores, and the handles that are open, one per successful open. */
  datatype Registry = Registry(bound: map<string, nat>, opens: multiset<nat>)

  datatype Op =
    | Open(name: string, creat: bool, excl: bool, room: bool, addr: nat)
    | Unlink(name: string)
    | Close(sem: nat)

  /** The semaphores that must be in memory: bound to a name, or held open. */
  ghost predicate Needed(r: Registry, id: nat) {
    id in r.opens || id in r.bound.Values
  }

  ghost predicate OneNameEach(r: Registry) {
    forall a, b :: a in r.bound && b in r.bound && r.bound[a] == r.bound[b] ==> a == b
  }

  /** A new semaphore never takes the place of one that is needed, and only open handles are closed. */
  ghost predicate Allowed(r: Registry, op: Op) {
    match op
    case Open(_, _, _, _, addr) => !Needed(r, addr)
    case Unlink(_) => true
    case Close(sem) => sem in r.opens
  }

  ghost function Apply(r: Registry, op: Op): Registry {
    match op
    case Open(name, creat, excl, room, addr) =>
      if name in r.bound then (if creat && excl then r else r.(opens := r.opens + multiset{r.bound[name]}))
      else if creat && room then Registry(r.bound[name := addr], r.opens + multiset{addr})
      else r
    case Unlink(name) => r.(bound := r.bound - {name})
    case Close(sem) => r.(opens := r.opens - multiset{sem})
  }

  lemma CloseMeans(r: Registry, sem: nat)
    requires sem in r.opens
    ensures Apply(r, Close(sem)).bound == r.bound && Apply(r, Close(sem)).opens + multiset{sem} == r.opens
  {}

  ghost predicate Run(rs: seq<Registry>, ops: seq<Op>) {
    |rs| == |ops| + 1 && forall k :: 0 <= k < |ops| ==> Allowed(rs[k], ops[k]) && rs[k + 1] == Apply(rs[k], ops[k])
  }

  lemma OneNameStep(r: Registry, op: Op)
    requires OneNameEach(r) && Allowed(r, op)
    ensures OneNameEach(Apply(r, op))
  {
    assert forall a :: a in r.bound ==> r.bound[a] in r.bound.Values;
  }

  /** While a handle to a semaphore stays open, no name becomes bound to it that was not: a name
      unlinked and created again is a different semaphore. */
  lemma {:induction false} RecreatedIsDifferent(rs: seq<Registry>, ops: seq<Op>, id: nat, name: string, k: nat)
    requires Run(rs, ops) && k <= |ops|
    requires forall j :: 0 <= j <= k ==> id in rs[j].opens
    requires name !in rs[0].bound || rs[0].bound[name] != id
    ensures name !in rs[k].bound || rs[k].bound[name] != id
  {
    if k > 0 {
      RecreatedIsDifferent(rs, ops, id, name, k - 1);
      assert Allowed(rs[k - 1], ops[k - 1]) && rs[k] == Apply(rs[k - 1], ops[k - 1]);
      assert id in rs[k - 1].opens;
    }
  }

  // ---------------------------------------------------------------- the objects in memory

  datatype Nsem = Nsem(name: Option<string>, refs: int)

  function Linked(o: Nsem): int { if o.name.Some? then 1 else 0 }

  ghost predicate Distinct(list: seq<nat>) {
    forall i, j :: 0 <= i < j < |list| ==> list[i] != list[j]
  }

  /** The reference count of an object is its open handles, plus one while it has a name. */
  ghost predicate Counted(objs: map<nat, Nsem>, r: Registry) {
    && (forall id :: id in objs ==> objs[id].refs == r.opens[id] + Linked(objs[id]) && objs[id].refs > 0)
    && (forall id :: id in r.opens ==> id in objs)
  }

  /** The names in the objects are the bindings, each name once. */
  ghost predicate Bound(objs: map<nat, Nsem>, r: Registry) {
    && (forall id :: id in objs && objs[id].name.Some? ==>
                       objs[id].name.value in r.bound && r.bound[objs[id].name.value] == id)
    && (forall name :: name in r.bound ==> r.bound[name] in objs && objs[r.bound[name]].name == Some(name))
  }

  ghost predicate Consistent(list: seq<nat>, objs: map<nat, Nsem>, r: Registry) {
    && Distinct(list) && (forall id :: id in list <==> id in objs)
    && Counted(objs, r) && Bound(objs, r)
  }

  /** One object still has a reference that its registry entry no longer accounts for. */
  ghost predicate OneTooMany(objs: map<nat, Nsem>, r: Registry, id: nat) {
    && id in objs && objs[id].refs == r.opens[id] + Linked(objs[id]) + 1
    && (forall x :: x in objs && x != id ==> objs[x].refs == r.opens[x] + Linked(objs[x]) && objs[x].refs > 0)
    && (forall x :: x in r.opens ==> x in objs)
  }

  lemma AppendDistinct(list: seq<nat>, x: nat)
    requires Distinct(list) && x !in list
    ensures Distinct(list + [x])
  {}

  /** An object is in memory exactly as long as it is needed. */
  lemma FreedExactlyWhenUnneeded(list: seq<nat>, objs: map<nat, Nsem>, r: Registry, id: nat)
    requires Consistent(list, objs, r)
    ensures id in objs <==> Needed(r, id)
  {
    if id in r.bound.Values {
      var name :| name in r.bound && r.bound[name] == id;
    }
    if id in objs && id !in r.opens {
      assert objs[id].name.Some?;
      assert r.bound[objs[id].name.value] == id;
    }
  }

  lemma AddHandle(list: seq<nat>, objs: map<nat, Nsem>, r: Registry, id: nat)
    requires Consistent(list, objs, r) && id in objs
    ensures Consistent(list, objs[id := objs[id].(refs := objs[id].refs + 1)], r.(opens := r.opens + multiset{id}))
  {
    var r' := r.(opens := r.opens + multiset{id});
    assert forall x :: r'.opens[x] == r.opens[x] + (if x == id then 1 else 0);
  }

  lemma AddObject(list: seq<nat>, objs: map<nat, Nsem>, r: Registry, name: string, id: nat)
    requires Consistent(list, objs, r) && id !in objs && name !in r.bound
    ensures Consistent(list + [id], objs[id := Nsem(Some(name), 2)], Registry(r.bound[name := id], r.opens + multiset{id}))
  {
    var r' := Registry(r.bound[name := id], r.opens + multiset{id});
    assert forall x :: r'.opens[x] == r.opens[x] + (if x == id then 1 else 0);
    AppendDistinct(list, id);
    assert r.opens[id] == 0;
    assert Counted(objs[id := Nsem(Some(name), 2)], r');
  }

  function Remove(list: seq<nat>, id: nat): seq<nat> {
    if list == [] then [] else (if list[0] == id then [] else [list[0]]) + Remove(list[1..], id)
  }

  lemma {:induction false} RemoveMembers(list: seq<nat>, id: nat, x: nat)
    ensures x in Remove(list, id) <==> x in list && x != id
    decreases |list|
  {
    if list != [] {
      RemoveMembers(list[1..], id, x);
      assert x in list <==> x == list[0] || x in list[1..];
    }
  }

  lemma {:induction false} RemoveDistinct(list: seq<nat>, id: nat)
    requires Distinct(list)
    ensures Distinct(Remove(list, id))
    decreases |list|
  {
    if list != [] {
      RemoveDistinct(list[1..], id);
      RemoveMembers(list[1..], id, list[0]);
      assert list[0] !in list[1..] by {
        assert forall k :: 0 <= k < |list[1..]| ==> list[1..][k] == list[k + 1];
      }
      var rest := Remove(list[1..], id);
      if list[0] != id {
        assert Remove(list, id) == [list[0]] + rest;
        assert list[0] !in rest;
      }
    }
  }

  class Semaphores {
    const nameLenMax: nat
    const valueMax: nat
    var list: seq<nat>
    var objs: map<nat, Nsem>
    ghost var view: Registry

    ghost predicate Valid()
      reads this
    {
      Consistent(list, objs, view)
    }

    constructor (nameLenMax: nat, valueMax: nat)
      ensures Valid() && view == Registry(map[], multiset{})
      ensures this.nameLenMax == nameLenMax && this.valueMax == valueMax
    {
      this.nameLenMax, this.valueMax := nameLenMax, valueMax;
      list, objs, view := [], map[], Registry(map[], multiset{});
    }

    method NsemFind(name: string) returns (r: Option<nat>)
      requires Valid()
      ensures r == if name in view.bound then Some(view.bound[name]) else None
    {
      var i := 0;
      while i < |list|
        invariant i <= |list|
        invariant forall k :: 0 <= k < i ==> objs[list[k]].name != Some(name)
      {
        if objs[list[i]].name.Some? && objs[list[i]].name.value == name {
          return Some(list[i]);
        }
        i := i + 1;
      }
      return None;
    }

    /** Drops one reference; the object goes away with its last one, and has no name by then. */
    method NsemUnref(id: nat, ghost r: Registry)
      requires Distinct(list) && (forall x :: x in list <==> x in objs)
      requires OneTooMany(objs, r, id) && Bound(objs, r)
      modifies this
      ensures Consistent(list, objs, r) && view == old(view)
      ensures id in objs <==> old(objs[id].refs) > 1
    {
      var refs := objs[id].refs - 1;
      assert refs >= 0;
      if refs == 0 {
        assert objs[id].name == None;
        RemoveDistinct(list, id);
        forall x ensures x in Remove(list, id) <==> x in list && x != id {
          RemoveMembers(list, id, x);
        }
        list := Remove(list, id);
        objs := objs - {id};
      } else {
        objs := objs[id := objs[id].(refs := refs)];
      }
    }

    /** `objAlloc` and `nameAlloc` say whether the two allocations succeed; `addr` is where a new
        object would be placed. */
    method SemOpen(name: Option<string>, creat: bool, excl: bool, value: nat, objAlloc: bool, nameAlloc: bool, addr: nat)
      returns (r: Result<nat>)
      requires Valid() && addr !in objs
      modifies this
      ensures Valid()
      ensures r.Fail? && (r.error == EINVAL || r.error == ENAMETOOLONG) ==> view == old(view)
      ensures r == if value > valueMax || name.None? then Fail(EINVAL)
                   else if |name.value| + 1 > nameLenMax then Fail(ENAMETOOLONG)
                   else if name.value in old(view.bound) then
                     (if creat && excl then Fail(EEXIST) else Ok(old(view.bound)[name.value]))
                   else if !creat then Fail(ENOENT)
                   else if !objAlloc || !nameAlloc then Fail(ENOSPC)
                   else Ok(addr)
      ensures value <= valueMax && name.Some? && |name.value| + 1 <= nameLenMax ==>
                old(Allowed(view, Open(name.value, creat, excl, objAlloc && nameAlloc, addr)))
                && view == Apply(old(view), Open(name.value, creat, excl, objAlloc && nameAlloc, addr))
      ensures r.Ok? ==> view.opens == old(view.opens) + multiset{r.value}
      ensures r.Ok? ==> view.bound == old(view.bound)[name.value := r.value]
      ensures r.Fail? ==> view == old(view)
    {
      FreedExactlyWhenUnneeded(list, objs, view, addr);
      if value > valueMax {
        return Fail(EINVAL);
      }
      if name.None? {
        return Fail(EINVAL);
      }
      if |name.value| + 1 > nameLenMax {
        return Fail(ENAMETOOLONG);
      }
      var found := NsemFind(name.value);
      if found.Some? {
        if creat && excl {
          return Fail(EEXIST);
        }
        Reopen(found.value);
        assert view.bound == old(view.bound)[name.value := found.value];
        return Ok(found.value);
      }
      if !creat {
        return Fail(ENOENT);
      }
      if !objAlloc {
        return Fail(ENOSPC);
      }
      if !nameAlloc {
        return Fail(ENOSPC);
      }
      Create(name.value, addr);
      return Ok(addr);
    }

    method Reopen(id: nat)
      requires Valid() && id in objs
      modifies this
      ensures Valid() && view == Registry(old(view.bound), old(view.opens) + multiset{id})
    {
      AddHandle(list, objs, view, id);
      objs := objs[id := objs[id].(refs := objs[id].refs + 1)];
      view := view.(opens := view.opens + multiset{id});
    }

    method Create(name: string, addr: nat)
      requires Valid() && addr !in objs && name !in view.bound
      modifies this
      ensures Valid() && view == Registry(old(view.bound)[name := addr], old(view.opens) + multiset{addr})
    {
      AddObject(list, objs, view, name, addr);
      objs := objs[addr := Nsem(Some(name), 2)];
      list := list + [addr];
      view := Registry(view.bound[name := addr], view.opens + multiset{addr});
    }

    method SemUnlink(name: Option<string>) returns (r: Result<()>)
      requires Valid()
      modifies this
      ensures Valid()
      ensures r == if name.None? then Fail(EINVAL)
                   else if |name.value| + 1 > nameLenMax then Fail(ENAMETOOLONG)
                   else if name.value !in old(view.bound) then Fail(ENOENT)
                   else Ok(())
      ensures view == if r.Ok? then Apply(old(view), Unlink(name.value)) else old(view)
      ensures view.opens == old(view.opens)
      ensures r.Ok? ==> view.bound.Keys == old(view.bound).Keys - {name.value}
      ensures forall other :: other in view.bound ==> other in old(view.bound) && view.bound[other] == old(view.bound)[other]
    {
      if name.None? {
        return Fail(EINVAL);
      }
      if |name.value| + 1 > nameLenMax {
        return Fail(ENAMETOOLONG);
      }
      var found := NsemFind(name.value);
      if found.None? {
        return Fail(ENOENT);
      }
      var id := found.value;
      objs := objs[id := objs[id].(name := None)];
      ghost var r' := Apply(view, Unlink(name.value));
      NsemUnref(id, r');
      view := r';
      return Ok(());
    }

    /** Each handle is closed at most once. */
    method SemClose(sem: Option<nat>) returns (r: Result<()>)
      requires Valid() && (sem.Some? ==> sem.value in view.opens)
      modifies this
      ensures Valid()
      ensures r == if sem.None? then Fail(EINVAL) else Ok(())
      ensures view == if r.Ok? then Apply(old(view), Close(sem.value)) else old(view)
      ensures view.bound == old(view.bound)
      ensures r.Ok? ==> view.opens + multiset{sem.value} == old(view.opens)
    {
      if sem.None? {
        return Fail(EINVAL);
      }
      ghost var r' := Apply(view, Close(sem.value));
      CloseMeans(view, sem.value);
      NsemUnref(sem.value, r');
      view := r';
      return Ok(());
    }

    // -------------------------------------------------------------- sequences of calls

    /** An unlinked name is gone for those who do not create it, and free for those who do; handles
        that are open stay open. */
    method UnlinkThenOpen(name: string, creat: bool, excl: bool, value: nat, objAlloc: bool, nameAlloc: bool, addr: nat)
      returns (r: Result<nat>)
      requires Valid() && name in view.bound && |name| + 1 <= nameLenMax && value <= valueMax && addr !in objs
      modifies this
      ensures Valid()
      ensures r == if !creat then Fail(ENOENT) else if objAlloc && nameAlloc then Ok(addr) else Fail(ENOSPC)
      ensures view.opens == old(view.opens) + (if r.Ok? then multiset{addr} else multiset{})
      ensures name in view.bound <==> r.Ok?
      ensures old(view.bound)[name] in old(view.opens) ==> old(view.bound)[name] in objs && old(view.bound)[name] != addr
      ensures forall other :: other != name ==>
                (other in view.bound <==> other in old(view.bound))
                && (other in view.bound ==> view.bound[other] == old(view.bound)[other])
    {
      var u := SemUnlink(Some(name));
      assert u.Ok?;
      r := SemOpen(Some(name), creat, excl, value, objAlloc, nameAlloc, addr);
    }

    /** Two opens of a name, the first of which may create it, give the same semaphore. */
    method OpenTwice(name: string, value: nat, addr: nat, addr2: nat) returns (a: Result<nat>, b: Result<nat>)
      requires Valid() && |name| + 1 <= nameLenMax && value <= valueMax && addr !in objs && addr2 !in objs && addr2 != addr
      modifies this
      ensures Valid() && a.Ok? && a == b
      ensures view.opens == old(view.opens) + multiset{a.value, a.value}
      ensures view.bound == old(view.bound)[name := a.value] && (name !in old(view.bound) ==> a.value == addr)
    {
      FreedExactlyWhenUnneeded(list, objs, view, addr2);
      a := SemOpen(Some(name), true, false, value, true, true, addr);
      ghost var between := view;
      assert name in between.bound && between.bound[name] == a.value && !Needed(between, addr2);
      FreedExactlyWhenUnneeded(list, objs, view, addr2);
      b := SemOpen(Some(name), true, false, value, true, true, addr2);
      assert view.bound == between.bound && view.opens == between.opens + multiset{a.value};
    }

    /** As many closes as there are open handles free a semaphore without a name, and only such a one. */
    method CloseAll(id: nat, n: nat)
      requires Valid() && id in objs && n == view.opens[id]
      modifies this
      ensures Valid() && view.bound == old(view.bound) && view.opens[id] == 0
      ensures id in objs <==> id in view.bound.Values
      ensures forall x :: x != id ==> view.opens[x] == old(view.opens)[x]
    {
      var k := n;
      while k > 0
        invariant Valid() && view.bound == old(view.bound) && view.opens[id] == k <= n
        invariant forall x :: x != id ==> view.opens[x] == old(view.opens)[x]
      {
        ghost var before := view.opens;
        var r := SemClose(Some(id));
        assert before == view.opens + multiset{id};
        k := k - 1;
      }
      FreedExactlyWhenUnneeded(list, objs, view, id);
    }

    /** A whole life: created, opened again, unlinked, closed as often as it was opened, and freed. */
    method WholeLife(name: string, value: nat, addr: nat, addr2: nat)
      requires Valid() && name !in view.bound && |name| + 1 <= nameLenMax && value <= valueMax
      requires addr !in objs && addr2 !in objs && addr2 != addr
      modifies this
      ensures Valid() && addr !in objs && view.bound == old(view.bound) && view.opens[addr] == 0
    {
      FreedExactlyWhenUnneeded(list, objs, view, addr);
      var a, b := OpenTwice(name, value, addr, addr2);
      var u := SemUnlink(Some(name));
      assert view.bound == old(view.bound);
      FreedExactlyWhenUnneeded(list, objs, view, addr);
      CloseAll(addr, 2);
    }
  }
}
