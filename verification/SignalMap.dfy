/** Renumbering signals between the C library and the kernel: lib/posix/options/shared/z_sig_set.c. */
module SignalMap {
  import opened Common
  import opened WordBits
  import opened SignalSets

  /** The positive images of the members that fit below `cap`. */
  ghost function Remap(members: set<nat>, cap: nat, f: int -> int): set<nat> {
    set m | m in members && 0 < f(m) <= cap :: f(m)
  }

  lemma RemapAdd(members: set<nat>, m: nat, cap: nat, f: int -> int)
    ensures Remap(members + {m}, cap, f) == Remap(members, cap, f) + (if 0 < f(m) <= cap then {f(m)} else {})
  {}

  lemma IndexDecidesFit(n: nat, nlongs: nat, lg: nat)
    requires n > 0
    ensures WordIdx(n, lg) < nlongs <==> n <= Capacity(nlongs, lg)
  {
    if n <= Capacity(nlongs, lg) {
      IndexInBounds(n, nlongs, lg);
    } else {
      DivAtLeast(n - 1, Width(lg), nlongs);
    }
  }

  lemma DivAtLeast(x: nat, w: nat, n: nat)
    requires w > 0 && x >= n * w
    ensures x / w >= n
  {
    var q := x / w;
    assert x == w * q + x % w;
    if q < n { MulGrows(w, q + 1, n); }
  }

  /** The members met before word `wi` is down to `word`. */
  ghost predicate Met(src: seq<nat>, lg: nat, wi: nat, word: nat, m: nat) {
    m > 0 && Has(src, lg, m) && (WordIdx(m, lg) < wi || (WordIdx(m, lg) == wi && !Bit(word, WordBit(m, lg))))
  }

  lemma MetStep(src: seq<nat>, lg: nat, wi: nat, word: nat, m: nat)
    requires wi < |src| && 0 < word < Pow2(Width(lg)) && Words(src, lg)
    requires forall i :: 0 <= i < Width(lg) && Bit(word, i) ==> Bit(src[wi], i)
    ensures var b := TrailingZeros(word);
            b < Width(lg) && (Met(src, lg, wi, And(word, word - 1), m)
                              <==> Met(src, lg, wi, word, m) || m == Number(wi, b, lg))
  {
    var b := TrailingZeros(word);
    TrailingZerosIsSet(word, Width(lg));
    var from := Number(wi, b, lg);
    IndexOfNumber(wi, b, lg);
    NumberInCapacity(wi, b, |src|, lg);
    assert Has(src, lg, from);
    ClearLowest(word, b);
    if 0 < m <= Capacity(|src|, lg) {
      IndexInBounds(m, |src|, lg);
      ClearLowest(word, WordBit(m, lg));
    }
  }

  /** One word of the source: its bits are taken from the lowest up and cleared. */
  method RemapWord(src: seq<nat>, wi: nat, dst: array<nat>, lg: nat, f: int -> int, ghost done0: set<nat>)
    returns (ghost done: set<nat>)
    requires Words(src, lg) && wi < |src|
    requires Words(dst[..], lg) && Members(dst[..], lg) == Remap(done0, Capacity(dst.Length, lg), f)
    requires forall m: nat :: m in done0 <==> Met(src, lg, wi, src[wi], m)
    modifies dst
    ensures Words(dst[..], lg) && Members(dst[..], lg) == Remap(done, Capacity(dst.Length, lg), f)
    ensures forall m: nat :: m in done <==> Met(src, lg, wi, 0, m)
  {
    done := done0;
    var word: nat := src[wi];
    while word != 0
      invariant word < Pow2(Width(lg))
      invariant forall i :: 0 <= i < Width(lg) && Bit(word, i) ==> Bit(src[wi], i)
      invariant Words(dst[..], lg) && Members(dst[..], lg) == Remap(done, Capacity(dst.Length, lg), f)
      invariant forall m: nat :: m in done <==> Met(src, lg, wi, word, m)
      decreases word
    {
      var bit := TrailingZeros(word);
      var from := Number(wi, bit, lg);
      var to := f(from);
      RemapAdd(done, from, Capacity(dst.Length, lg), f);
      if to > 0 {
        var di := WordIdx(to, lg);
        IndexDecidesFit(to, dst.Length, lg);
        if di < dst.Length {
          SetSignal(dst, to, lg);
        }
      }
      done := NextDone(src, lg, wi, word, done);
      word := And(word, word - 1);
    }
  }

  lemma NextDone(src: seq<nat>, lg: nat, wi: nat, word: nat, done: set<nat>) returns (next: set<nat>)
    requires wi < |src| && 0 < word < Pow2(Width(lg)) && Words(src, lg)
    requires forall i :: 0 <= i < Width(lg) && Bit(word, i) ==> Bit(src[wi], i)
    requires forall m: nat :: m in done <==> Met(src, lg, wi, word, m)
    ensures next == done + {Number(wi, TrailingZeros(word), lg)}
    ensures forall m: nat :: m in next <==> Met(src, lg, wi, And(word, word - 1), m)
    ensures And(word, word - 1) < word
    ensures forall i :: 0 <= i < Width(lg) && Bit(And(word, word - 1), i) ==> Bit(src[wi], i)
  {
    next := done + {Number(wi, TrailingZeros(word), lg)};
    forall m: nat ensures m in next <==> Met(src, lg, wi, And(word, word - 1), m) {
      MetStep(src, lg, wi, word, m);
    }
    forall i | 0 <= i < Width(lg) && Bit(And(word, word - 1), i) ensures Bit(src[wi], i) {
      ClearLowest(word, i);
    }
    AndBound(word, word - 1);
  }

  /** The destination holds exactly the positive, in-range images of the source's members. */
  method SigWordsRemap(src: seq<nat>, dst: array<nat>, lg: nat, f: int -> int)
    requires Words(src, lg)
    modifies dst
    ensures Words(dst[..], lg)
    ensures Members(dst[..], lg) == Remap(Members(src, lg), Capacity(dst.Length, lg), f)
  {
    for i := 0 to dst.Length
      invariant forall k :: 0 <= k < i ==> dst[k] == 0
    {
      dst[i] := 0;
    }
    NoMembers(dst[..], lg);
    ghost var done: set<nat> := {};
    for wi := 0 to |src|
      invariant Words(dst[..], lg) && Members(dst[..], lg) == Remap(done, Capacity(dst.Length, lg), f)
      invariant forall m: nat :: m in done <==> MetBefore(src, lg, wi, m)
    {
      forall m: nat ensures m in done <==> Met(src, lg, wi, src[wi], m) {
        MetBegin(src, lg, wi, m);
      }
      done := RemapWord(src, wi, dst, lg, f, done);
      forall m: nat ensures m in done <==> MetBefore(src, lg, wi + 1, m) {
        MetEnd(src, lg, wi, m);
      }
    }
    AllMet(src, lg, done);
  }

  ghost predicate MetBefore(src: seq<nat>, lg: nat, wi: nat, m: nat) {
    m > 0 && Has(src, lg, m) && WordIdx(m, lg) < wi
  }

  lemma MetBegin(src: seq<nat>, lg: nat, wi: nat, m: nat)
    requires wi < |src|
    ensures Met(src, lg, wi, src[wi], m) <==> MetBefore(src, lg, wi, m)
  {}

  lemma MetEnd(src: seq<nat>, lg: nat, wi: nat, m: nat)
    requires wi < |src|
    ensures Met(src, lg, wi, 0, m) <==> MetBefore(src, lg, wi + 1, m)
  {
    if m > 0 { BitZero(WordBit(m, lg)); }
  }

  lemma AllMet(src: seq<nat>, lg: nat, done: set<nat>)
    requires forall m: nat :: m in done <==> MetBefore(src, lg, |src|, m)
    ensures done == Members(src, lg)
  {
    forall m: nat | m in Members(src, lg) ensures m in done {
      IndexInBounds(m, |src|, lg);
    }
  }

  /** dst[di] |= BIT(db) */
  method SetSignal(dst: array<nat>, to: nat, lg: nat)
    requires Words(dst[..], lg) && 0 < to <= Capacity(dst.Length, lg)
    modifies dst
    ensures Words(dst[..], lg) && Members(dst[..], lg) == old(Members(dst[..], lg)) + {to}
  {
    WriteSignal(dst[..], to, true, lg);
    ghost var before := dst[..];
    var di, db := WordIdx(to, lg), WordBit(to, lg);
    dst[di] := Or(dst[di], Pow2(db));
    assert dst[..] == before[di := WriteBit(before[di], db, true, lg)];
  }

  // ---------------------------------------------------------------- the two numberings

  const STD_MAX: nat := 33

  /** The tables for standard signals in both directions, and the real-time ranges. */
  datatype Numbering = Numbering(toKernel: seq<nat>, toPosix: seq<nat>, rtMin: int, rtMax: int, kRtMin: int, kNumRt: int)

  /** The build-time assumptions: full tables, and the kernel's real-time range above them. */
  predicate Built(c: Numbering) {
    |c.toKernel| == STD_MAX + 1 && |c.toPosix| == STD_MAX + 1 && c.kRtMin > STD_MAX
  }

  function ZSigMap(signo: int, std: seq<nat>, rtLo: int, rtHi: int, base: int): int
    requires |std| == STD_MAX + 1
  {
    if rtLo <= signo <= rtHi then signo - rtLo + base
    else if signo < 0 || signo > STD_MAX then -1
    else std[signo]
  }

  function FromPosix(c: Numbering): int -> int
    requires Built(c)
  {
    sig => ZSigMap(sig, c.toKernel, c.rtMin, c.rtMax, c.kRtMin)
  }

  function ToPosix(c: Numbering): int -> int
    requires Built(c)
  {
    sig => ZSigMap(sig, c.toPosix, c.kRtMin, c.kRtMin + c.kNumRt, c.rtMin)
  }

  /** The kernel's table undoes the C library's for every standard signal that has a counterpart,
      and the kernel's real-time range is as wide as the C library's. */
  predicate Inverse(c: Numbering)
    requires Built(c)
  {
    && c.rtMax - c.rtMin <= c.kNumRt
    && forall s :: 0 <= s <= STD_MAX && !(c.rtMin <= s <= c.rtMax) && c.toKernel[s] > 0 ==>
                     c.toKernel[s] <= STD_MAX && c.toPosix[c.toKernel[s]] == s
  }

  /** Real-time signals keep their place in the range, whatever the two ranges begin at. */
  lemma RealTimeKeepsItsPlace(c: Numbering, k: nat)
    requires Built(c)
    ensures c.rtMin + k <= c.rtMax ==> FromPosix(c)(c.rtMin + k) == c.kRtMin + k
    ensures k <= c.kNumRt ==> ToPosix(c)(c.kRtMin + k) == c.rtMin + k
  {}

  /** Standard signals go by the tables. */
  lemma StandardGoesByTable(c: Numbering, s: int)
    requires Built(c) && 0 <= s <= 33
    ensures !(c.rtMin <= s <= c.rtMax) ==> FromPosix(c)(s) == c.toKernel[s]
    ensures ToPosix(c)(s) == c.toPosix[s]
  {}

  /** All other numbers go nowhere. */
  lemma OthersGoNowhere(c: Numbering, s: int)
    requires Built(c) && (s < 0 || s > 33)
    ensures !(c.rtMin <= s <= c.rtMax) ==> FromPosix(c)(s) == -1
    ensures !(c.kRtMin <= s <= c.kRtMin + c.kNumRt) ==> ToPosix(c)(s) == -1
  {}

  lemma BackAndForth(c: Numbering, s: nat)
    requires Built(c) && Inverse(c) && FromPosix(c)(s) > 0
    ensures ToPosix(c)(FromPosix(c)(s)) == s
  {}

  /** The members that have a counterpart within the other set's capacity. */
  ghost function Kept(members: set<nat>, cap: nat, f: int -> int): set<nat> {
    set m | m in members && 0 < f(m) <= cap
  }

  ghost predicate Within(members: set<nat>, cap: nat) {
    forall m :: m in members ==> 0 < m <= cap
  }

  /** A renumbering and back returns every set without the signals that have no counterpart,
      if and only if each signal with a counterpart comes back by itself. */
  lemma RoundTripExactly(cap: nat, kcap: nat, f: int -> int, g: int -> int)
    ensures (forall s: set<nat> | Within(s, cap) :: Remap(Remap(s, kcap, f), cap, g) == Kept(s, kcap, f))
            <==> forall m: nat | 0 < m <= cap && 0 < f(m) <= kcap :: g(f(m)) == m
  {
    if forall m: nat | 0 < m <= cap && 0 < f(m) <= kcap :: g(f(m)) == m {
      forall s: set<nat> | Within(s, cap) ensures Remap(Remap(s, kcap, f), cap, g) == Kept(s, kcap, f) {
        RoundTripOf(s, cap, kcap, f, g);
      }
    }
    if forall s: set<nat> | Within(s, cap) :: Remap(Remap(s, kcap, f), cap, g) == Kept(s, kcap, f) {
      forall m: nat | 0 < m <= cap && 0 < f(m) <= kcap ensures g(f(m)) == m {
        SingleTrip(m, cap, kcap, f, g);
      }
    }
  }

  lemma RoundTripOf(s: set<nat>, cap: nat, kcap: nat, f: int -> int, g: int -> int)
    requires Within(s, cap)
    requires forall m: nat | 0 < m <= cap && 0 < f(m) <= kcap :: g(f(m)) == m
    ensures Remap(Remap(s, kcap, f), cap, g) == Kept(s, kcap, f)
  {
    var there := Remap(s, kcap, f);
    var back := Remap(there, cap, g);
    forall n | n in back ensures n in Kept(s, kcap, f) {
      var k :| k in there && g(k) == n && 0 < g(k) <= cap;
      var m :| m in s && 0 < f(m) <= kcap && f(m) == k;
      assert g(f(m)) == m;
    }
    forall n | n in Kept(s, kcap, f) ensures n in back {
      assert f(n) in there && g(f(n)) == n;
    }
  }

  lemma SingleTrip(m: nat, cap: nat, kcap: nat, f: int -> int, g: int -> int)
    requires 0 < m <= cap && 0 < f(m) <= kcap
    requires Remap(Remap({m}, kcap, f), cap, g) == Kept({m}, kcap, f)
    ensures g(f(m)) == m
  {
    assert m in Kept({m}, kcap, f);
    var k :| k in Remap({m}, kcap, f) && g(k) == m;
  }

  /** POSIX to kernel to POSIX, through the two converters. */
  method RoundTrip(set0: seq<nat>, kset: array<nat>, buf: array<nat>, lg: nat, c: Numbering)
    requires Words(set0, lg) && Built(c) && kset != buf && buf.Length == |set0|
    modifies kset, buf
    ensures Members(buf[..], lg) ==
            Remap(Remap(Members(set0, lg), Capacity(kset.Length, lg), FromPosix(c)), Capacity(buf.Length, lg), ToPosix(c))
    ensures Inverse(c) ==> Members(buf[..], lg) == Kept(Members(set0, lg), Capacity(kset.Length, lg), FromPosix(c))
    ensures Inverse(c) ==> Members(buf[..], lg) <= Members(set0, lg)
    ensures Inverse(c) ==> forall s: nat ::
              s in Members(set0, lg) && c.rtMin <= s <= c.rtMax ==>
                (s in Members(buf[..], lg) <==> c.kRtMin + (s - c.rtMin) <= Capacity(kset.Length, lg))
    ensures Inverse(c) ==> forall s: nat ::
              s in Members(set0, lg) && s <= 33 && !(c.rtMin <= s <= c.rtMax) ==>
                (s in Members(buf[..], lg) <==> 0 < c.toKernel[s] <= Capacity(kset.Length, lg))
  {
    SigWordsRemap(set0, kset, lg, FromPosix(c));
    SigWordsRemap(kset[..], buf, lg, ToPosix(c));
    ghost var cap, kcap := Capacity(|set0|, lg), Capacity(kset.Length, lg);
    if Inverse(c) {
      forall m: nat | 0 < m <= cap && 0 < FromPosix(c)(m) <= kcap ensures ToPosix(c)(FromPosix(c)(m)) == m {
        BackAndForth(c, m);
      }
      RoundTripOf(Members(set0, lg), cap, kcap, FromPosix(c), ToPosix(c));
      forall s: nat | s in Members(set0, lg) && c.rtMin <= s <= c.rtMax
        ensures s in Members(buf[..], lg) <==> c.kRtMin + (s - c.rtMin) <= kcap
      {
        RealTimeKeepsItsPlace(c, s - c.rtMin);
      }
      forall s: nat | s in Members(set0, lg) && s <= 33 && !(c.rtMin <= s <= c.rtMax)
        ensures s in Members(buf[..], lg) <==> 0 < c.toKernel[s] <= kcap
      {
        StandardGoesByTable(c, s);
      }
    }
  }

  /** Both sides use the same numbers: the condition under which sets are passed on unconverted. */
  predicate SameNumbers(c: Numbering)
    requires Built(c)
  {
    && c.rtMin == c.kRtMin
    && forall s :: 0 <= s <= STD_MAX ==>
                     (c.toKernel[s] == 0 || c.toKernel[s] == s) && (c.toPosix[s] == 0 || c.toPosix[s] == s)
  }

  lemma IdentityAgrees(f: int -> int, members: set<nat>, cap: nat)
    requires Within(members, cap) && forall m: nat :: f(m) > 0 ==> f(m) == m
    ensures Remap(members, cap, f) == members <==> forall m :: m in members ==> f(m) > 0
  {
    if forall m :: m in members ==> f(m) > 0 {
      forall m | m in members ensures m in Remap(members, cap, f) {
        assert f(m) == m && 0 < f(m) <= cap;
      }
    }
    if Remap(members, cap, f) == members {
      forall m | m in members ensures f(m) > 0 {
        var k :| k in members && 0 < f(k) <= cap && f(k) == m;
      }
    }
  }

  /** The identity fast path agrees with the conversion, in either direction, exactly on the sets
      whose every signal has a counterpart. */
  lemma FastPathAgrees(c: Numbering, members: set<nat>, cap: nat)
    requires Built(c) && SameNumbers(c) && Within(members, cap)
    ensures Remap(members, cap, FromPosix(c)) == members <==> forall m :: m in members ==> FromPosix(c)(m) > 0
    ensures Remap(members, cap, ToPosix(c)) == members <==> forall m :: m in members ==> ToPosix(c)(m) > 0
  {
    IdentityAgrees(FromPosix(c), members, cap);
    IdentityAgrees(ToPosix(c), members, cap);
  }

  /** The numbering the build checks for the minimal C library: every named signal has the same
      number on both sides, and 16, 28 and 30 have no counterpart. */
  function MinimalLibc(rtMin: int, rtMax: int, kNumRt: int): Numbering {
    var std := seq(STD_MAX + 1, i => if i == 16 || i == 28 || i == 30 then 0 else i);
    Numbering(std, std, rtMin, rtMax, rtMin, kNumRt)
  }

  lemma MinimalLibcQualifies(rtMin: int, rtMax: int, kNumRt: int)
    requires rtMin > STD_MAX && rtMax - rtMin <= kNumRt
    ensures var c := MinimalLibc(rtMin, rtMax, kNumRt); Built(c) && Inverse(c) && SameNumbers(c)
    ensures FromPosix(MinimalLibc(rtMin, rtMax, kNumRt))(16) == 0
  {}
}
