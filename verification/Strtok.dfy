/** The tokenizer of lib/posix/c_lang_support_r/strtok_r.c, over whole runs of calls. */
module Strtok {
  import opened Common
  import opened Ctype

  /** A stretch of text, from its first character to just past its last. */
  datatype Run = Run(start: nat, end: nat)

  /** strchr(sep, c) != NULL, for a character other than NUL */
  predicate Sep(sep: CString, c: char) {
    exists i :: 0 <= i < |sep| && sep[i] == c
  }

  /** The text t holds a string that begins at `from` and whose NUL is at n. */
  ghost predicate HoldsString(t: seq<char>, from: nat, n: nat) {
    from <= n < |t| && t[n] == EOS && forall i :: from <= i < n ==> t[i] != EOS
  }

  // ---------------------------------------------------------------- the tokens of a text

  /** A separator-free stretch that cannot be made longer on either side. */
  ghost predicate Maximal(t: seq<char>, sep: CString, from: nat, n: nat, r: Run)
    requires n <= |t|
  {
    && from <= r.start < r.end <= n
    && (forall i :: r.start <= i < r.end ==> !Sep(sep, t[i]))
    && (r.start == from || Sep(sep, t[r.start - 1]))
    && (r.end == n || Sep(sep, t[r.end]))
  }

  /** The first place from i on that is not a separator. */
  ghost function Skip(t: seq<char>, sep: CString, i: nat, n: nat): (j: nat)
    requires i <= n <= |t|
    ensures i <= j <= n && (j == n || !Sep(sep, t[j]))
    ensures forall k :: i <= k < j ==> Sep(sep, t[k])
    decreases n - i
  {
    if i < n && Sep(sep, t[i]) then Skip(t, sep, i + 1, n) else i
  }

  /** The first place from i on that is a separator. */
  ghost function Stop(t: seq<char>, sep: CString, i: nat, n: nat): (j: nat)
    requires i <= n <= |t|
    ensures i <= j <= n && (j == n || Sep(sep, t[j]))
    ensures forall k :: i <= k < j ==> !Sep(sep, t[k])
    decreases n - i
  {
    if i < n && !Sep(sep, t[i]) then Stop(t, sep, i + 1, n) else i
  }

  function After(end: nat, n: nat): nat { if end < n then end + 1 else end }

  ghost function Runs(t: seq<char>, sep: CString, i: nat, n: nat): seq<Run>
    requires i <= n <= |t|
    decreases n - i
  {
    var p := Skip(t, sep, i, n);
    if p == n then []
    else
      var e := Stop(t, sep, p, n);
      [Run(p, e)] + Runs(t, sep, After(e, n), n)
  }

  /** The tokens are the maximal separator-free stretches, all of them and nothing else. */
  lemma {:induction false} RunsAreTheMaximalOnes(t: seq<char>, sep: CString, i: nat, n: nat, r: Run)
    requires i <= n <= |t|
    ensures r in Runs(t, sep, i, n) <==> Maximal(t, sep, i, n, r)
    decreases n - i
  {
    var p := Skip(t, sep, i, n);
    if p < n {
      var e := Stop(t, sep, p, n);
      var next := After(e, n);
      assert Runs(t, sep, i, n) == [Run(p, e)] + Runs(t, sep, next, n);
      RunsAreTheMaximalOnes(t, sep, next, n, r);
      if r.start < next {
        MaximalBefore(t, sep, i, n, p, e, r);
      } else {
        MaximalFrom(t, sep, i, n, p, e, r);
      }
    } else {
      assert i <= r.start < n ==> Sep(sep, t[r.start]);
    }
  }

  lemma MaximalBefore(t: seq<char>, sep: CString, i: nat, n: nat, p: nat, e: nat, r: Run)
    requires i <= p < e <= n <= |t| && (e == n || Sep(sep, t[e]))
    requires p == Skip(t, sep, i, n) && e == Stop(t, sep, p, n)
    requires r.start < After(e, n)
    ensures Maximal(t, sep, i, n, r) <==> r == Run(p, e)
  {
    assert i <= r.start < p ==> Sep(sep, t[r.start]);
    assert p < r.start <= e ==> !Sep(sep, t[r.start - 1]);
    assert p <= r.end < e ==> !Sep(sep, t[r.end]);
  }

  lemma MaximalFrom(t: seq<char>, sep: CString, i: nat, n: nat, p: nat, e: nat, r: Run)
    requires i <= p < e <= n <= |t| && (e == n || Sep(sep, t[e]))
    requires p == Skip(t, sep, i, n) && e == Stop(t, sep, p, n)
    requires r.start >= After(e, n)
    ensures r != Run(p, e)
    ensures Maximal(t, sep, i, n, r) <==> Maximal(t, sep, After(e, n), n, r)
  {}

  /** Tokens come in order, and two of them never touch. */
  lemma {:induction false} RunsInOrder(t: seq<char>, sep: CString, i: nat, n: nat, a: nat, b: nat)
    requires i <= n <= |t| && a < b < |Runs(t, sep, i, n)|
    ensures Runs(t, sep, i, n)[a].end < Runs(t, sep, i, n)[b].start
    decreases n - i
  {
    var p := Skip(t, sep, i, n);
    var e := Stop(t, sep, p, n);
    var next := After(e, n);
    var rest := Runs(t, sep, next, n);
    assert Runs(t, sep, i, n) == [Run(p, e)] + rest;
    if a > 0 {
      RunsInOrder(t, sep, next, n, a - 1, b - 1);
    } else {
      RunsAreTheMaximalOnes(t, sep, next, n, rest[b - 1]);
    }
  }

  // ---------------------------------------------------------------- the code

  /** One call. Characters are read from `buf`; the text it held on entry decides the result. */
  method StrtokR(buf: array<char>, str: Option<nat>, sep: CString, state: nat, ghost n: nat)
    returns (token: Option<nat>, state': nat)
    requires HoldsString(buf[..], if str.Some? then str.value else state, n)
    modifies buf
    ensures var t := old(buf[..]);
            var p := Skip(t, sep, if str.Some? then str.value else state, n);
            if p == n then token == None && state' == n && buf[..] == t
            else
              var e := Stop(t, sep, p, n);
              token == Some(p) && state' == After(e, n) && buf[..] == t[e := EOS]
  {
    ghost var t := buf[..];
    var start := if str.Some? then str.value else state;
    ghost var i := start;
    while buf[start] != EOS && Sep(sep, buf[start])
      invariant i <= start <= n && Skip(t, sep, start, n) == Skip(t, sep, i, n)
      invariant buf[..] == t
      decreases n - start
    {
      start := start + 1;
    }
    if buf[start] == EOS {
      return None, start;
    }
    var end := start;
    while buf[end] != EOS && !Sep(sep, buf[end])
      invariant start <= end <= n && Stop(t, sep, end, n) == Stop(t, sep, start, n)
      invariant buf[..] == t
      decreases n - end
    {
      end := end + 1;
    }
    if buf[end] != EOS {
      buf[end] := EOS;
      state' := end + 1;
    } else {
      state' := end;
    }
    return Some(start), state';
  }

  ghost predicate EndsAt(runs: seq<Run>, i: nat) { exists k :: 0 <= k < |runs| && runs[k].end == i }

  /** Two texts that agree from i on have the same tokens there. */
  lemma {:induction false} RunsLookAhead(t: seq<char>, u: seq<char>, sep: CString, i: nat, n: nat)
    requires i <= n <= |t| && |u| == |t| && (forall k :: i <= k < n ==> t[k] == u[k])
    ensures Runs(t, sep, i, n) == Runs(u, sep, i, n)
    ensures Skip(t, sep, i, n) == Skip(u, sep, i, n) && Stop(t, sep, i, n) == Stop(u, sep, i, n)
    decreases n - i
  {
    SkipLookAhead(t, u, sep, i, n);
    StopLookAhead(t, u, sep, i, n);
    var p := Skip(t, sep, i, n);
    if p < n {
      StopLookAhead(t, u, sep, p, n);
      RunsLookAhead(t, u, sep, After(Stop(t, sep, p, n), n), n);
    }
  }

  lemma {:induction false} SkipLookAhead(t: seq<char>, u: seq<char>, sep: CString, i: nat, n: nat)
    requires i <= n <= |t| && |u| == |t| && (forall k :: i <= k < n ==> t[k] == u[k])
    ensures Skip(t, sep, i, n) == Skip(u, sep, i, n)
    decreases n - i
  {
    if i < n { SkipLookAhead(t, u, sep, i + 1, n); }
  }

  lemma {:induction false} StopLookAhead(t: seq<char>, u: seq<char>, sep: CString, i: nat, n: nat)
    requires i <= n <= |t| && |u| == |t| && (forall k :: i <= k < n ==> t[k] == u[k])
    ensures Stop(t, sep, i, n) == Stop(u, sep, i, n)
    decreases n - i
  {
    if i < n { StopLookAhead(t, u, sep, i + 1, n); }
  }

  /** The text b is t with a NUL after each of the runs. */
  ghost predicate CutAt(t: seq<char>, b: seq<char>, runs: seq<Run>) {
    |b| == |t| && forall i :: 0 <= i < |t| ==> b[i] == if EndsAt(runs, i) then EOS else t[i]
  }

  /** All the runs end before `at`, except that the last may end with the string. */
  ghost predicate Behind(runs: seq<Run>, at: nat, n: nat) {
    forall k :: 0 <= k < |runs| ==> runs[k].end < at || runs[k].end == at == n
  }

  lemma AheadIsIntact(t: seq<char>, b: seq<char>, runs: seq<Run>, at: nat, n: nat)
    requires CutAt(t, b, runs) && Behind(runs, at, n) && HoldsString(t, at, n)
    ensures HoldsString(b, at, n) && forall i :: at <= i < n ==> b[i] == t[i]
  {}

  lemma CutOneMore(t: seq<char>, b: seq<char>, runs: seq<Run>, at: nat, n: nat, r: Run)
    requires CutAt(t, b, runs) && Behind(runs, at, n) && at <= r.start < r.end <= n < |t|
    ensures CutAt(t, b[r.end := EOS], runs + [r]) && Behind(runs + [r], After(r.end, n), n)
  {
    forall i | 0 <= i < |t| ensures b[r.end := EOS][i] == if EndsAt(runs + [r], i) then EOS else t[i] {
      EndsAtSnoc(runs, r, i);
    }
  }

  lemma EndsAtSnoc(runs: seq<Run>, r: Run, i: nat)
    ensures EndsAt(runs + [r], i) <==> EndsAt(runs, i) || i == r.end
  {
    if EndsAt(runs, i) {
      var k :| 0 <= k < |runs| && runs[k].end == i;
      assert (runs + [r])[k].end == i;
    }
    if i == r.end { assert (runs + [r])[|runs|].end == i; }
  }

  function Starts(runs: seq<Run>): (starts: seq<nat>)
    ensures |starts| == |runs| && forall k :: 0 <= k < |runs| ==> starts[k] == runs[k].start
  {
    seq(|runs|, k requires 0 <= k < |runs| => runs[k].start)
  }

  /** How far a run of calls has come: `seen` are the tokens given out, `at` is where to go on. */
  ghost predicate Underway(t: seq<char>, b: seq<char>, sep: CString, n: nat, seen: seq<Run>, at: nat, all: seq<Run>) {
    && HoldsString(t, at, n) && CutAt(t, b, seen) && Behind(seen, at, n)
    && all == seen + Runs(t, sep, at, n)
  }

  /** One call within a run of calls, told in terms of the original text t. */
  method NextToken(buf: array<char>, str: Option<nat>, sep: CString, state: nat,
                   ghost n: nat, ghost t: seq<char>, ghost seen: seq<Run>, ghost all: seq<Run>)
    returns (token: Option<nat>, state': nat, ghost seen': seq<Run>)
    requires Underway(t, buf[..], sep, n, seen, if str.Some? then str.value else state, all)
    modifies buf
    ensures Underway(t, buf[..], sep, n, seen', state', all)
    ensures Starts(seen') == Starts(seen) + (if token.Some? then [token.value] else [])
    ensures token.None? ==> seen' == seen == all
    ensures token.Some? ==> (if str.Some? then str.value else state) < state'
  {
    ghost var at := if str.Some? then str.value else state;
    ghost var b := buf[..];
    AheadIsIntact(t, b, seen, at, n);
    RunsLookAhead(t, b, sep, at, n);
    token, state' := StrtokR(buf, str, sep, state, n);
    seen' := seen;
    ghost var p := Skip(t, sep, at, n);
    if p < n {
      StopLookAhead(t, b, sep, p, n);
      ghost var e := Stop(t, sep, p, n);
      CutOneMore(t, b, seen, at, n, Run(p, e));
      seen' := seen + [Run(p, e)];
      Regroup(seen, Run(p, e), Runs(t, sep, state', n));
    }
  }

  lemma Regroup(a: seq<Run>, r: Run, b: seq<Run>)
    ensures a + ([r] + b) == a + [r] + b
    ensures Starts(a + [r]) == Starts(a) + [r.start]
  {}

  /** Calling until NULL: the tokens are the runs of the original text, and only the byte after each
      token is changed. */
  method AllTokens(buf: array<char>, from: nat, sep: CString, ghost n: nat) returns (tokens: seq<nat>)
    requires HoldsString(buf[..], from, n)
    modifies buf
    ensures tokens == Starts(Runs(old(buf[..]), sep, from, n))
    ensures CutAt(old(buf[..]), buf[..], Runs(old(buf[..]), sep, from, n))
  {
    ghost var t, seen := buf[..], [];
    ghost var all := Runs(t, sep, from, n);
    tokens := [];
    var token, state;
    token, state, seen := NextToken(buf, Some(from), sep, 0, n, t, seen, all);
    while token.Some?
      invariant Underway(t, buf[..], sep, n, seen, state, all)
      invariant token.None? ==> seen == all
      invariant Starts(seen) == tokens + (if token.Some? then [token.value] else [])
      decreases token.Some?, n - state
    {
      tokens := tokens + [token.value];
      token, state, seen := NextToken(buf, None, sep, state, n, t, seen, all);
    }
  }
}
