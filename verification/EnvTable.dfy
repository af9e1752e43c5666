/** The environment table of lib/posix/options/shared/env_common.c: a NULL-terminated array of
    "name=value" strings, and the finite map it stands for. */
module EnvTable {
  import opened Common
  import opened EnvMap

  const NUL: char := '\0'

  predicate NoNul(s: string) { forall i :: 0 <= i < |s| ==> s[i] != NUL }

  // ---------------------------------------------------------------- entries

  /** The index of the first '=', or the length. */
  function EqualsAt(e: string): (i: nat)
    ensures i <= |e|
  {
    if e == [] || e[0] == '=' then 0 else 1 + EqualsAt(e[1..])
  }

  lemma {:induction false} EqualsAtIs(e: string, i: nat)
    requires i <= |e| && (i < |e| ==> e[i] == '=') && forall k :: 0 <= k < i ==> e[k] != '='
    ensures EqualsAt(e) == i
    decreases i
  {
    if i > 0 { EqualsAtIs(e[1..], i - 1); }
  }

  lemma {:induction false} EqualsAtFirst(e: string, k: nat)
    requires k <= EqualsAt(e) && k < |e|
    ensures if k < EqualsAt(e) then e[k] != '=' else e[k] == '='
    decreases k
  {
    if k > 0 { EqualsAtFirst(e[1..], k - 1); }
  }

  predicate IsEntry(e: string) { NoNul(e) && 0 < EqualsAt(e) < |e| }

  /** An entry read as a name and a value, told apart by the first '='. */
  function Parse(e: string): Entry
    requires IsEntry(e)
  {
    Entry(e[..EqualsAt(e)], e[EqualsAt(e) + 1..])
  }

  /** What a name must look like: not empty, and without '='. */
  predicate ValidName(name: string) { name != "" && '=' !in name }

  lemma ParseWritten(name: string, val: string)
    requires ValidName(name) && NoNul(name) && NoNul(val)
    ensures var e := name + "=" + val; IsEntry(e) && Parse(e) == Entry(name, val)
  {
    var e := name + "=" + val;
    assert e[|name|] == '=';
    assert forall k :: 0 <= k < |name| ==> e[k] == name[k];
    EqualsAtIs(e, |name|);
  }

  // ---------------------------------------------------------------- the table in memory

  /** An element of environ: NULL, or a pointer to a buffer of its own. */
  datatype Ptr = Null | To(buf: seq<char>)

  function NulAt(buf: seq<char>): (i: nat)
    ensures i <= |buf|
  {
    if buf == [] || buf[0] == NUL then 0 else 1 + NulAt(buf[1..])
  }

  lemma {:induction false} NulAtIs(buf: seq<char>, i: nat)
    requires i <= |buf| && (i < |buf| ==> buf[i] == NUL) && forall k :: 0 <= k < i ==> buf[k] != NUL
    ensures NulAt(buf) == i
    decreases i
  {
    if i > 0 { NulAtIs(buf[1..], i - 1); }
  }

  lemma {:induction false} NulAtIsNul(buf: seq<char>)
    requires NulAt(buf) < |buf|
    ensures buf[NulAt(buf)] == NUL
  {
    if buf[0] != NUL { NulAtIsNul(buf[1..]); }
  }

  /** A buffer that holds a NUL-terminated string. */
  predicate Terminated(buf: seq<char>) { NulAt(buf) < |buf| }

  /** The string in a buffer, up to its NUL. */
  function Text(buf: seq<char>): string { buf[..NulAt(buf)] }

  lemma TextIs(buf: seq<char>, s: string)
    requires NoNul(s) && |s| < |buf| && buf[..|s|] == s && buf[|s|] == NUL
    ensures Terminated(buf) && Text(buf) == s
  {
    assert forall k :: 0 <= k < |s| ==> buf[k] == s[k];
    NulAtIs(buf, |s|);
  }

  /** The number of elements before the first NULL. */
  function Used(table: seq<Ptr>): (n: nat)
    ensures n <= |table| && (n < |table| ==> table[n].Null?) && forall k :: 0 <= k < n ==> table[k].To?
  {
    if table == [] || table[0].Null? then 0 else 1 + Used(table[1..])
  }

  lemma UsedIs(table: seq<Ptr>, n: nat)
    requires n <= |table| && (n < |table| ==> table[n].Null?) && forall k :: 0 <= k < n ==> table[k].To?
    ensures Used(table) == n
  {}

  /** A pointer to a string of the form name=value. */
  predicate Good(p: Ptr) { p.To? && Terminated(p.buf) && IsEntry(Text(p.buf)) }

  function EntryOf(p: Ptr): Entry {
    if Good(p) then Parse(Text(p.buf)) else Entry("", "")
  }

  function EntriesOf(table: seq<Ptr>): (es: seq<Entry>)
    ensures |es| == Used(table) && forall k :: 0 <= k < |es| ==> es[k] == EntryOf(table[k])
  {
    seq(Used(table), k requires 0 <= k < Used(table) => EntryOf(table[k]))
  }

  /** environ == NULL is the empty table; any other table has room for its terminating NULL. */
  ghost predicate WellFormed(table: seq<Ptr>) {
    && (table != [] ==> Used(table) < |table|)
    && (forall k :: 0 <= k < Used(table) ==> Good(table[k]))
    && Unique(EntriesOf(table))
  }

  /** The environment that a table stands for. */
  ghost function Env(table: seq<Ptr>): map<string, string> { View(EntriesOf(table)) }

  /** strncmp(env, name, |name|) == 0 && env[|name|] == '=' */
  predicate StartsWith(buf: seq<char>, name: string)
    requires Terminated(buf)
  {
    |name| <= NulAt(buf) && buf[..|name|] == name && buf[|name|] == '='
  }

  lemma StartsWithIsName(p: Ptr, name: string)
    requires Good(p) && ValidName(name)
    ensures StartsWith(p.buf, name) <==> EntryOf(p).name == name
  {
    var e := Text(p.buf);
    if StartsWith(p.buf, name) {
      NulAtIsNul(p.buf);
      assert e[..|name|] == name;
      assert forall k :: 0 <= k < |name| ==> e[k] == name[k];
      EqualsAtIs(e, |name|);
    }
    if EntryOf(p).name == name {
      EqualsAtFirst(e, |name|);
      assert p.buf[..|name|] == e[..|name|];
    }
  }

  /** Writing `data` into a buffer from index `at`. */
  function Overwrite(buf: seq<char>, at: nat, data: seq<char>): (r: seq<char>)
    requires at + |data| <= |buf|
    ensures |r| == |buf|
  {
    buf[..at] + data + buf[at + |data|..]
  }

  /** realloc: the old contents as far as they fit, anything beyond. */
  function Resize<T>(was: seq<T>, n: nat, junk: T): (r: seq<T>)
    ensures |r| == n && forall k :: 0 <= k < n && k < |was| ==> r[k] == was[k]
  {
    seq(n, k requires 0 <= k < n => if k < |was| then was[k] else junk)
  }

  /** strcpy of the name, then '=', then strncpy of the value with its NUL. */
  function WriteEntry(buf: seq<char>, name: string, val: string): (r: seq<char>)
    requires |name| + 1 + |val| + 1 <= |buf|
  {
    var b1 := Overwrite(buf, 0, name + [NUL]);
    var b2 := Overwrite(b1, |name|, "=");
    Overwrite(b2, |name| + 1, val + [NUL])
  }

  lemma WrittenEntry(buf: seq<char>, name: string, val: string)
    requires |name| + 1 + |val| + 1 <= |buf| && NoNul(name) && NoNul(val)
    ensures var r := WriteEntry(buf, name, val); Terminated(r) && Text(r) == name + "=" + val
  {
    var r := WriteEntry(buf, name, val);
    var s := name + "=" + val;
    assert r[..|s|] == s;
    assert r[|s|] == NUL;
    TextIs(r, s);
  }

  lemma GoodWritten(buf: seq<char>, name: string, val: string)
    requires |name| + 1 + |val| + 1 <= |buf| && NoNul(name) && NoNul(val) && ValidName(name)
    ensures var p := To(WriteEntry(buf, name, val)); Good(p) && EntryOf(p) == Entry(name, val)
  {
    WrittenEntry(buf, name, val);
    ParseWritten(name, val);
  }

  /** Replacing one string pointer. */
  lemma TableReplace(table: seq<Ptr>, i: nat, p: Ptr)
    requires WellFormed(table) && i < Used(table) && Good(p) && EntryOf(p).name == EntryOf(table[i]).name
    ensures WellFormed(table[i := p]) && Env(table[i := p]) == Env(table)[EntryOf(p).name := EntryOf(p).value]
  {
    var es, t := EntriesOf(table), table[i := p];
    UsedIs(t, Used(table));
    ViewReplace(es, i, EntryOf(p).value);
    assert EntriesOf(t) == es[i := EntryOf(p)];
  }

  /** A table grown by two slots, both NULL, stands for the same entries. */
  lemma TableGrown(table: seq<Ptr>, n: nat, grown: seq<Ptr>)
    requires WellFormed(table) && n == Used(table) && |grown| == n + 2 && grown[n].Null? && grown[n + 1].Null?
    requires forall k :: 0 <= k < n ==> grown[k] == table[k]
    ensures WellFormed(grown) && Used(grown) == n && Env(grown) == Env(table)
  {
    UsedIs(grown, n);
    assert EntriesOf(grown) == EntriesOf(table);
  }

  lemma TableAppended(table: seq<Ptr>, p: Ptr)
    requires WellFormed(table) && Used(table) + 2 == |table| && table[Used(table) + 1].Null?
    requires Good(p) && EntryOf(p).name !in Env(table)
    ensures var t := table[Used(table) := p];
            WellFormed(t) && Env(t) == Env(table)[EntryOf(p).name := EntryOf(p).value]
  {
    var t := table[Used(table) := p];
    UsedIs(t, Used(table) + 1);
    ViewLookup(EntriesOf(table), EntryOf(p).name);
    ViewAppend(EntriesOf(table), EntryOf(p));
    assert EntriesOf(t) == EntriesOf(table) + [EntryOf(p)];
  }

  /** Moving the later pointers one slot forward drops exactly one entry. */
  lemma TableShifted(before: seq<Ptr>, i: nat, after: seq<Ptr>)
    requires WellFormed(before) && i < Used(before) && |after| == |before|
    requires forall k :: 0 <= k < i ==> after[k] == before[k]
    requires forall k :: i <= k < Used(before) ==> after[k] == before[k + 1]
    ensures Used(after) == Used(before) - 1
    ensures WellFormed(after) && Env(after) == Env(before) - {EntryOf(before[i]).name}
  {
    UsedIs(after, Used(before) - 1);
    var es := EntriesOf(before);
    ViewRemove(es, i);
    forall k | 0 <= k < |es| - 1
      ensures EntryOf(after[k]) == Drop(es, i)[k] && Good(after[k])
    {
      DropAt(es, i, k);
      assert after[k] == before[Before(i, k)];
    }
    assert EntriesOf(after) == Drop(es, i);
  }

  /** Giving back slots behind the terminating NULL changes nothing. */
  lemma TableShrunk(table: seq<Ptr>, shrunk: seq<Ptr>)
    requires WellFormed(table) && |shrunk| == Used(table) + 1 <= |table|
    requires forall k :: 0 <= k < |shrunk| ==> shrunk[k] == table[k]
    ensures WellFormed(shrunk) && Env(shrunk) == Env(table)
  {
    UsedIs(shrunk, Used(table));
    assert EntriesOf(shrunk) == EntriesOf(table);
  }

  // ---------------------------------------------------------------- what the calls mean for the map

  /** A call, with what the allocator answers to it. */
  datatype EnvOp =
    | Set(name: Option<string>, val: Option<string>, overwrite: bool, tableAlloc: bool, entryAlloc: bool, junk: char)
    | Unset(name: Option<string>, shrinks: bool)

  ghost predicate Usable(op: EnvOp) {
    op.Set? ==> (op.name.Some? ==> NoNul(op.name.value)) && (op.val.Some? ==> NoNul(op.val.value))
  }

  /** When a call needs memory that it does not get: a longer value or a new name. */
  ghost predicate Starved(m: map<string, string>, name: string, val: string, overwrite: bool, tableAlloc: bool, entryAlloc: bool) {
    if name in m then overwrite && |val| > |m[name]| && !entryAlloc
    else !tableAlloc || !entryAlloc
  }

  ghost function Returns(m: map<string, string>, op: EnvOp): int {
    match op
    case Set(name, val, overwrite, tableAlloc, entryAlloc, _) =>
      if name.None? || val.None? || !ValidName(name.value)
         || Starved(m, name.value, val.value, overwrite, tableAlloc, entryAlloc) then -1 else 0
    case Unset(name, _) => if name.Some? && ValidName(name.value) then 0 else -1
  }

  ghost function Effect(m: map<string, string>, op: EnvOp): map<string, string> {
    if Returns(m, op) != 0 then m
    else
      match op
      case Set(name, val, overwrite, _, _, _) =>
        if overwrite || name.value !in m then m[name.value := val.value] else m
      case Unset(name, _) => m - {name.value}
  }

  ghost function EffectOfAll(m: map<string, string>, ops: seq<EnvOp>): map<string, string> {
    if ops == [] then m else Effect(EffectOfAll(m, ops[..|ops| - 1]), ops[|ops| - 1])
  }

  lemma EffectOfNext(m: map<string, string>, ops: seq<EnvOp>, i: nat)
    requires i < |ops|
    ensures EffectOfAll(m, ops[..i + 1]) == Effect(EffectOfAll(m, ops[..i]), ops[i])
  {
    assert ops[..i + 1][..i] == ops[..i];
  }

  /** The results so far are those of the calls they belong to. */
  ghost predicate Answers(m: map<string, string>, ops: seq<EnvOp>, rets: seq<int>) {
    |rets| <= |ops| && forall k :: 0 <= k < |rets| ==> rets[k] == Returns(EffectOfAll(m, ops[..k]), ops[k])
  }

  lemma AnswersNext(m: map<string, string>, ops: seq<EnvOp>, rets: seq<int>, ret: int)
    requires Answers(m, ops, rets) && |rets| < |ops| && ret == Returns(EffectOfAll(m, ops[..|rets|]), ops[|rets|])
    ensures Answers(m, ops, rets + [ret])
  {}

  /** A call that fails leaves the map as it was, and so does one on a name it does not concern. */
  lemma EffectIsLocal(m: map<string, string>, op: EnvOp, n: string)
    requires Returns(m, op) != 0 || op.name != Some(n)
    ensures n in Effect(m, op) <==> n in m
    ensures n in m ==> Effect(m, op)[n] == m[n]
  {}

  datatype Found = Invalid | Missing | At(i: nat)

  class Environment {
    var environ: seq<Ptr>

    constructor ()
      ensures WellFormed(environ) && Env(environ) == map[]
    {
      environ := [];
    }

    method EnvironSize() returns (n: nat)
      requires WellFormed(environ)
      ensures n == Used(environ)
    {
      if environ == [] {
        return 0;
      }
      n := 0;
      while environ[n].To?
        invariant n <= Used(environ) < |environ|
        decreases |environ| - n
      {
        n := n + 1;
      }
    }

    /** Finds an entry by its name. */
    method FindEnv(name: Option<string>) returns (r: Found)
      requires WellFormed(environ)
      ensures match r
              case Invalid => name.None? || !ValidName(name.value)
              case Missing => name.Some? && ValidName(name.value) && name.value !in Env(environ)
              case At(i) => name.Some? && ValidName(name.value) && i < Used(environ)
                            && EntryOf(environ[i]).name == name.value
    {
      if name.None? || name.value == "" || '=' in name.value {
        return Invalid;
      }
      ViewLookup(EntriesOf(environ), name.value);
      if environ == [] {
        return Missing;
      }
      var i := 0;
      while environ[i].To?
        invariant i <= Used(environ) < |environ|
        invariant forall k :: 0 <= k < i ==> EntriesOf(environ)[k].name != name.value
        decreases |environ| - i
      {
        StartsWithIsName(environ[i], name.value);
        if StartsWith(environ[i].buf, name.value) {
          return At(i);
        }
        i := i + 1;
      }
      return Missing;
    }

    method GetEnv(name: Option<string>) returns (val: Option<string>)
      requires WellFormed(environ)
      ensures val == if name.Some? && ValidName(name.value) && name.value in Env(environ)
                     then Some(Env(environ)[name.value]) else None
    {
      var r := FindEnv(name);
      if !r.At? {
        return None;
      }
      ViewLookup(EntriesOf(environ), name.value);
      assert EntriesOf(environ)[r.i].name == name.value;
      var buf := environ[r.i].buf;
      assert buf[|name.value| + 1..NulAt(buf)] == Text(buf)[|name.value| + 1..];
      return Some(buf[|name.value| + 1..NulAt(buf)]);
    }

    /** The name is in the table at `i`: rewrite its string, growing it if it is too short. */
    method Rewrite(i: nat, name: string, val: string, entryAlloc: bool, junk: char) returns (ok: bool)
      requires WellFormed(environ) && ValidName(name) && NoNul(name) && NoNul(val)
      requires i < Used(environ) && EntryOf(environ[i]).name == name
      modifies this
      ensures WellFormed(environ)
      ensures ok == (|val| <= |EntryOf(old(environ)[i]).value| || entryAlloc)
      ensures Env(environ) == if ok then old(Env(environ))[name := val] else old(Env(environ))
    {
      var buf := environ[i].buf;
      var esize := NulAt(buf) + 1;
      var tsize := |name| + 1 + |val| + 1;
      assert esize == |name| + 1 + |EntryOf(environ[i]).value| + 1;
      if esize < tsize {
        if !entryAlloc {
          return false;
        }
        buf := Resize(buf, tsize, junk);
      }
      GoodWritten(buf, name, val);
      var p := To(WriteEntry(buf, name, val));
      TableReplace(environ, i, p);
      environ := environ[i := p];
      return true;
    }

    /** The name is not in the table: grow the table, then allocate its string. */
    method Append(name: string, val: string, tableAlloc: bool, entryAlloc: bool, junk: char) returns (ok: bool)
      requires WellFormed(environ) && ValidName(name) && NoNul(name) && NoNul(val)
      requires name !in Env(environ)
      modifies this
      ensures WellFormed(environ)
      ensures ok == (tableAlloc && entryAlloc)
      ensures Env(environ) == if ok then old(Env(environ))[name := val] else old(Env(environ))
    {
      var esize := EnvironSize();
      if !tableAlloc {
        return false;
      }
      var grown := Resize(environ, esize + 2, Null);
      grown := grown[esize := Null][esize + 1 := Null];
      TableGrown(environ, esize, grown);
      environ := grown;
      if !entryAlloc {
        return false;
      }
      var buf := Resize<char>([], |name| + 1 + |val| + 1, junk);
      GoodWritten(buf, name, val);
      var p := To(WriteEntry(buf, name, val));
      TableAppended(environ, p);
      environ := environ[esize := p];
      return true;
    }

    /** `tableAlloc` and `entryAlloc` say whether the two allocations succeed. */
    method SetEnv(name: Option<string>, val: Option<string>, overwrite: bool, tableAlloc: bool, entryAlloc: bool, junk: char)
      returns (ret: int)
      requires WellFormed(environ)
      requires (name.Some? ==> NoNul(name.value)) && (val.Some? ==> NoNul(val.value))
      modifies this
      ensures WellFormed(environ)
      ensures ret == if name.None? || val.None? || !ValidName(name.value)
                        || Starved(old(Env(environ)), name.value, val.value, overwrite, tableAlloc, entryAlloc) then -1 else 0
      ensures Env(environ) == if ret == 0 && (overwrite || name.value !in old(Env(environ)))
                              then old(Env(environ))[name.value := val.value] else old(Env(environ))
    {
      if name.None? || val.None? {
        return -1;
      }
      var r := FindEnv(name);
      if r.Invalid? {
        return -1;
      }
      var ok := true;
      if r.At? {
        ViewLookup(EntriesOf(environ), name.value);
        assert EntriesOf(environ)[r.i].name == name.value;
        if !overwrite {
          return 0;
        }
        ok := Rewrite(r.i, name.value, val.value, entryAlloc, junk);
      } else {
        ok := Append(name.value, val.value, tableAlloc, entryAlloc, junk);
      }
      ret := if ok then 0 else -1;
    }

    /** Moves the pointers behind `i0` forward by one and ends the table with NULL. */
    method ShiftDown(i0: nat, esize: nat)
      requires WellFormed(environ) && i0 < esize == Used(environ)
      modifies this
      ensures WellFormed(environ) && Used(environ) == esize - 1 && |environ| == |old(environ)|
      ensures Env(environ) == old(Env(environ)) - {EntryOf(old(environ)[i0]).name}
    {
      MovePointers(i0, esize);
      TableShifted(old(environ), i0, environ);
    }

    method MovePointers(i0: nat, esize: nat)
      requires i0 < esize < |environ|
      modifies this
      ensures |environ| == |old(environ)| && environ[esize] == Null
      ensures forall k :: 0 <= k < i0 ==> environ[k] == old(environ)[k]
      ensures forall k :: i0 <= k < esize ==> environ[k] == old(environ)[k + 1]
    {
      var i := i0;
      while i < esize
        invariant i0 <= i <= esize < |environ| == |old(environ)|
        invariant forall k :: 0 <= k < i0 ==> environ[k] == old(environ)[k]
        invariant forall k :: i0 <= k < i ==> environ[k] == old(environ)[k + 1]
        invariant forall k :: i <= k < |environ| ==> environ[k] == old(environ)[k]
      {
        environ := environ[i := environ[i + 1]];
        i := i + 1;
      }
      environ := environ[i := Null];
    }

    /** `shrinks` says whether giving back the spare slot succeeds. */
    method UnsetEnv(name: Option<string>, shrinks: bool) returns (ret: int)
      requires WellFormed(environ)
      modifies this
      ensures WellFormed(environ)
      ensures ret == if name.Some? && ValidName(name.value) then 0 else -1
      ensures Env(environ) == if ret == 0 then old(Env(environ)) - {name.value} else old(Env(environ))
    {
      var r := FindEnv(name);
      if !r.At? {
        return if r.Invalid? then -1 else 0;
      }
      var esize := EnvironSize();
      ShiftDown(r.i, esize);
      esize := esize - 1;
      if esize == 0 {
        assert EntriesOf(environ) == [] == EntriesOf([]);
        environ := [];
      } else if shrinks {
        var shrunk := Resize(environ, esize + 1, Null);
        TableShrunk(environ, shrunk);
        environ := shrunk;
      }
      return 0;
    }

    method Apply(op: EnvOp) returns (ret: int)
      requires WellFormed(environ) && Usable(op)
      modifies this
      ensures WellFormed(environ)
      ensures ret == Returns(old(Env(environ)), op) && Env(environ) == Effect(old(Env(environ)), op)
    {
      match op {
        case Set(name, val, overwrite, tableAlloc, entryAlloc, junk) =>
          ret := SetEnv(name, val, overwrite, tableAlloc, entryAlloc, junk);
        case Unset(name, shrinks) =>
          ret := UnsetEnv(name, shrinks);
      }
    }

    /** Any sequence of calls leaves the table of the map that the same updates build. */
    method ApplyAll(ops: seq<EnvOp>) returns (rets: seq<int>)
      requires WellFormed(environ) && forall k :: 0 <= k < |ops| ==> Usable(ops[k])
      modifies this
      ensures WellFormed(environ) && Env(environ) == EffectOfAll(old(Env(environ)), ops)
      ensures |rets| == |ops| && Answers(old(Env(environ)), ops, rets)
    {
      rets := [];
      ghost var start := Env(environ);
      var i := 0;
      while i < |ops|
        invariant |rets| == i <= |ops| && Answers(start, ops, rets)
        invariant WellFormed(environ) && Env(environ) == EffectOfAll(start, ops[..i])
      {
        var ret := Apply(ops[i]);
        AnswersNext(start, ops, rets, ret);
        EffectOfNext(start, ops, i);
        rets := rets + [ret];
        i := i + 1;
      }
      assert ops[..i] == ops;
    }

    /** A name that was set is found with its value, whatever '=' it holds, and is gone once unset; no
        other name is touched. */
    method SetGetUnsetGet(name: string, val: string, junk: char, other: string)
      returns (found: Option<string>, gone: Option<string>, kept: Option<string>)
      requires WellFormed(environ) && NoNul(name) && NoNul(val) && name != "" && '=' !in name
      requires other != name && other != "" && '=' !in other
      modifies this
      ensures WellFormed(environ) && found == Some(val) && gone == None
      ensures kept == if other in old(Env(environ)) then Some(old(Env(environ))[other]) else None
    {
      var _ := SetEnv(Some(name), Some(val), true, true, true, junk);
      found := GetEnv(Some(name));
      var _ := UnsetEnv(Some(name), true);
      gone := GetEnv(Some(name));
      kept := GetEnv(Some(other));
    }
  }
}
