/** Signal sets as arrays of words: lib/posix/options/signals/signal.c. */
module SignalSets {
  import opened Common
  import opened WordBits

  /** A word has 2^lg bits. */
  function Width(lg: nat): (b: nat)
    ensures b > 0
  {
    Pow2(lg)
  }

  predicate Words(words: seq<nat>, lg: nat) {
    forall i :: 0 <= i < |words| ==> words[i] < Pow2(Width(lg))
  }

  function Capacity(nlongs: nat, lg: nat): nat { nlongs * Width(lg) }

  /** SIGNO_WORD_IDX and SIGNO_WORD_BIT */
  function WordIdx(signo: nat, lg: nat): nat
    requires signo > 0
  {
    QuotientIsNat(signo - 1, Width(lg));
    (signo - 1) / Width(lg)
  }

  lemma QuotientIsNat(x: nat, w: nat)
    requires w > 0
    ensures x / w >= 0
  {}

  function WordBit(signo: nat, lg: nat): nat
    requires signo > 0
  {
    And(signo - 1, Width(lg) - 1)
  }

  function Number(idx: nat, bit: nat, lg: nat): nat { idx * Width(lg) + bit + 1 }

  lemma IndexInBounds(signo: nat, nlongs: nat, lg: nat)
    requires 0 < signo <= Capacity(nlongs, lg)
    ensures WordIdx(signo, lg) < nlongs && WordBit(signo, lg) < Width(lg)
    ensures Number(WordIdx(signo, lg), WordBit(signo, lg), lg) == signo
  {
    var w := Width(lg);
    AndMask(signo - 1, lg);
    DivBelow(signo - 1, w, nlongs);
  }

  lemma DivBelow(x: nat, w: nat, n: nat)
    requires w > 0 && x < n * w
    ensures x / w < n && x / w * w + x % w == x
  {
    var q := x / w;
    assert x == w * q + x % w;
    if q >= n { MulGrows(w, n, q); }
  }

  lemma IndexOfNumber(idx: nat, bit: nat, lg: nat)
    requires bit < Width(lg)
    ensures WordIdx(Number(idx, bit, lg), lg) == idx && WordBit(Number(idx, bit, lg), lg) == bit
  {
    var n := Number(idx, bit, lg);
    ModUnique(n - 1, Width(lg), idx, bit);
    AndMask(n - 1, lg);
  }

  lemma NumberInCapacity(idx: nat, bit: nat, nlongs: nat, lg: nat)
    requires idx < nlongs && bit < Width(lg)
    ensures Number(idx, bit, lg) <= Capacity(nlongs, lg)
  {
    MulGrows(Width(lg), idx + 1, nlongs);
  }

  /** Signal `n` is in the set that the words represent. */
  predicate Has(words: seq<nat>, lg: nat, n: nat) {
    0 < n <= Capacity(|words|, lg) &&
    (IndexInBounds(n, |words|, lg); Bit(words[WordIdx(n, lg)], WordBit(n, lg)))
  }

  ghost function Members(words: seq<nat>, lg: nat): set<nat> {
    set n | 0 < n <= Capacity(|words|, lg) && Has(words, lg, n)
  }

  /** WRITE_BIT */
  function WriteBit(w: nat, bit: nat, on: bool, lg: nat): (r: nat)
    requires w < Pow2(Width(lg)) && bit < Width(lg)
  {
    Pow2Grows(bit, Width(lg));
    if on then Or(w, Pow2(bit)) else And(w, Not(Pow2(bit), Width(lg)))
  }

  lemma WriteBitEffect(w: nat, bit: nat, on: bool, lg: nat, i: nat)
    requires w < Pow2(Width(lg)) && bit < Width(lg) && i < Width(lg)
    ensures WriteBit(w, bit, on, lg) < Pow2(Width(lg))
    ensures Bit(WriteBit(w, bit, on, lg), i) == if i == bit then on else Bit(w, i)
  {
    Pow2Grows(bit, Width(lg));
    BitPow2(bit, i);
    if on {
      BitOr(w, Pow2(bit), i);
      OrBound(w, Pow2(bit), Width(lg));
    } else {
      BitNot(Pow2(bit), Width(lg), i);
      BitAnd(w, Not(Pow2(bit), Width(lg)), i);
      AndBound(w, Not(Pow2(bit), Width(lg)));
    }
  }

  /** Writing the bit of one signal changes that signal and no other. */
  lemma WriteSignal(words: seq<nat>, n: nat, on: bool, lg: nat)
    requires Words(words, lg) && 0 < n <= Capacity(|words|, lg)
    ensures WordIdx(n, lg) < |words| && WordBit(n, lg) < Width(lg)
    ensures var w := words[WordIdx(n, lg) := WriteBit(words[WordIdx(n, lg)], WordBit(n, lg), on, lg)];
            Words(w, lg) && Members(w, lg) == if on then Members(words, lg) + {n} else Members(words, lg) - {n}
  {
    IndexInBounds(n, |words|, lg);
    var idx, bit := WordIdx(n, lg), WordBit(n, lg);
    var w := words[idx := WriteBit(words[idx], bit, on, lg)];
    WriteBitEffect(words[idx], bit, on, lg, bit);
    forall m: nat | 0 < m <= Capacity(|words|, lg)
      ensures Has(w, lg, m) == if m == n then on else Has(words, lg, m)
    {
      IndexInBounds(m, |words|, lg);
      if WordIdx(m, lg) == idx {
        WriteBitEffect(words[idx], bit, on, lg, WordBit(m, lg));
      }
    }
  }

  // ---------------------------------------------------------------- the operations

  /** CONFIG_THREAD_CANCEL_SIGNAL_NUMBER, SIGRTMIN and SIGRTMAX. */
  datatype Config = Config(cancel: nat, rtMin: nat, rtMax: nat)

  predicate Reserved(c: Config, signo: int) {
    signo == c.cancel || signo == c.cancel + 1
  }

  predicate SignoValid(c: Config, signo: int) {
    if signo <= 0 || Reserved(c, signo) then false
    else if signo < c.rtMin then signo <= 31
    else signo <= c.rtMax
  }

  predicate SignoFits(signo: int, nlongs: nat, lg: nat) {
    0 < signo <= Capacity(nlongs, lg)
  }

  predicate Outside(n: nat, lo: nat, hi: nat) { n > 0 && !(lo <= n < hi) }

  /** All signal numbers up to `cap` except those from `lo` to below `hi`. */
  ghost function AllBut(cap: nat, lo: nat, hi: nat): set<nat> {
    set n: nat | n <= cap && Outside(n, lo, hi)
  }

  datatype SetOp = Empty | Fill | Add(signo: int) | Del(signo: int)

  /** What a call means for the set that the words stand for. */
  ghost function Meaning(c: Config, cap: nat, members: set<nat>, op: SetOp): set<nat> {
    match op
    case Empty => {}
    case Fill => AllBut(cap, c.cancel, c.rtMin)
    case Add(signo) => if SignoValid(c, signo) && 0 < signo <= cap then members + {signo} else members
    case Del(signo) => if SignoValid(c, signo) && 0 < signo <= cap then members - {signo} else members
  }

  method SigEmptySet(words: array<nat>, lg: nat, c: Config)
    modifies words
    ensures Words(words[..], lg)
    ensures Members(words[..], lg) == Meaning(c, Capacity(words.Length, lg), old(Members(words[..], lg)), Empty)
  {
    for i := 0 to words.Length
      invariant forall k :: 0 <= k < i ==> words[k] == 0
    {
      words[i] := 0;
    }
    NoMembers(words[..], lg);
  }

  lemma NoMembers(words: seq<nat>, lg: nat)
    requires forall k :: 0 <= k < |words| ==> words[k] == 0
    ensures Words(words, lg) && Members(words, lg) == {}
  {
    forall n: nat | 0 < n <= Capacity(|words|, lg) ensures !Has(words, lg, n) {
      IndexInBounds(n, |words|, lg);
      BitZero(WordBit(n, lg));
    }
  }

  lemma AllMembers(words: seq<nat>, lg: nat)
    requires forall k :: 0 <= k < |words| ==> words[k] == Pow2(Width(lg)) - 1
    ensures Words(words, lg) && Members(words, lg) == AllBut(Capacity(|words|, lg), 0, 0)
  {
    forall n: nat | 0 < n <= Capacity(|words|, lg) ensures Has(words, lg, n) {
      IndexInBounds(n, |words|, lg);
      BitZero(WordBit(n, lg));
      BitNot(0, Width(lg), WordBit(n, lg));
    }
  }

  method SigFillSet(words: array<nat>, lg: nat, c: Config)
    modifies words
    ensures Words(words[..], lg)
    ensures Members(words[..], lg) == Meaning(c, Capacity(words.Length, lg), old(Members(words[..], lg)), Fill)
  {
    for i := 0 to words.Length
      invariant forall k :: 0 <= k < i ==> words[k] == Pow2(Width(lg)) - 1
    {
      words[i] := Pow2(Width(lg)) - 1;
    }
    AllMembers(words[..], lg);
    var cap := Capacity(words.Length, lg);
    var signo := c.cancel;
    while signo < c.rtMin
      invariant c.cancel <= signo && (signo <= c.rtMin || signo == c.cancel)
      invariant Words(words[..], lg)
      invariant Members(words[..], lg) == AllBut(cap, c.cancel, signo)
      decreases c.rtMin - signo
    {
      if signo > 0 && signo - 1 < cap {
        WriteSignal(words[..], signo, false, lg);
        ghost var before := words[..];
        words[WordIdx(signo, lg)] := WriteBit(words[WordIdx(signo, lg)], WordBit(signo, lg), false, lg);
        assert words[..] == before[WordIdx(signo, lg) := words[WordIdx(signo, lg)]];
      }
      signo := signo + 1;
    }
  }

  method SigChangeSet(words: array<nat>, lg: nat, c: Config, signo: int, on: bool) returns (ret: int)
    requires Words(words[..], lg)
    modifies words
    ensures ret == if SignoValid(c, signo) && SignoFits(signo, words.Length, lg) then 0 else -1
    ensures Words(words[..], lg)
    ensures Members(words[..], lg) == Meaning(c, Capacity(words.Length, lg), old(Members(words[..], lg)),
                                              if on then Add(signo) else Del(signo))
  {
    if !SignoValid(c, signo) {
      return -1;
    }
    if !SignoFits(signo, words.Length, lg) {
      return -1;
    }
    WriteSignal(words[..], signo, on, lg);
    ghost var before := words[..];
    words[WordIdx(signo, lg)] := WriteBit(words[WordIdx(signo, lg)], WordBit(signo, lg), on, lg);
    assert words[..] == before[WordIdx(signo, lg) := words[WordIdx(signo, lg)]];
    return 0;
  }

  method SigIsMember(words: array<nat>, lg: nat, c: Config, signo: int) returns (ret: int)
    ensures if SignoValid(c, signo) && SignoFits(signo, words.Length, lg)
            then ret == if signo in Members(words[..], lg) then 1 else 0
            else ret == -1
  {
    if !SignoValid(c, signo) {
      return -1;
    }
    if !SignoFits(signo, words.Length, lg) {
      return -1;
    }
    IndexInBounds(signo, words.Length, lg);
    return if Bit(words[WordIdx(signo, lg)], WordBit(signo, lg)) then 1 else 0;
  }

  // ---------------------------------------------------------------- reserved signals

  ghost function AfterAll(c: Config, cap: nat, members: set<nat>, ops: seq<SetOp>): set<nat>
    decreases |ops|
  {
    if ops == [] then members else AfterAll(c, cap, Meaning(c, cap, members, ops[0]), ops[1..])
  }

  ghost predicate NoneReserved(c: Config, members: set<nat>) {
    forall n :: n in members ==> !Reserved(c, n)
  }

  /** The reserved numbers that the set has room for lie below the real-time signals. */
  predicate ReservedBelow(c: Config, cap: nat) {
    && (0 < c.cancel <= cap ==> c.cancel < c.rtMin)
    && (c.cancel + 1 <= cap ==> c.cancel + 1 < c.rtMin)
  }

  /** Filling is where a reserved signal could slip in, and this is exactly when it does not. */
  lemma FillKeepsReservedOut(c: Config, cap: nat, members: set<nat>)
    ensures NoneReserved(c, Meaning(c, cap, members, Fill)) <==> ReservedBelow(c, cap)
  {
    var filled := Meaning(c, cap, members, Fill);
    if c.cancel + 1 <= cap && c.rtMin <= c.cancel + 1 {
      assert c.cancel + 1 in filled;
    }
    if 0 < c.cancel <= cap && c.rtMin <= c.cancel {
      assert c.cancel in filled;
    }
  }

  lemma {:induction false} ReservedStayOut(c: Config, cap: nat, members: set<nat>, ops: seq<SetOp>)
    requires ReservedBelow(c, cap) && NoneReserved(c, members)
    ensures NoneReserved(c, AfterAll(c, cap, members, ops))
    decreases |ops|
  {
    if ops != [] {
      FillKeepsReservedOut(c, cap, members);
      ReservedStayOut(c, cap, Meaning(c, cap, members, ops[0]), ops[1..]);
    }
  }

  ghost predicate NeverReserved(c: Config, cap: nat) {
    forall members, ops :: NoneReserved(c, members) ==> NoneReserved(c, AfterAll(c, cap, members, ops))
  }

  /** No sequence of calls puts a reserved signal into a set, if and only if those that fit lie below
      the real-time signals. */
  lemma ReservedStayOutExactly(c: Config, cap: nat)
    ensures NeverReserved(c, cap) <==> ReservedBelow(c, cap)
  {
    if ReservedBelow(c, cap) {
      forall members, ops | NoneReserved(c, members) ensures NoneReserved(c, AfterAll(c, cap, members, ops)) {
        ReservedStayOut(c, cap, members, ops);
      }
    } else {
      FillKeepsReservedOut(c, cap, {});
      assert AfterAll(c, cap, {}, [Fill]) == AfterAll(c, cap, Meaning(c, cap, {}, Fill), []);
      assert NoneReserved(c, {});
    }
  }

  // ---------------------------------------------------------------- whole sequences of calls

  lemma {:induction false} AfterSnoc(c: Config, cap: nat, members: set<nat>, ops: seq<SetOp>, op: SetOp)
    ensures AfterAll(c, cap, members, ops + [op]) == Meaning(c, cap, AfterAll(c, cap, members, ops), op)
    decreases |ops|
  {
    if ops == [] {
      assert [] + [op] == [op];
      assert AfterAll(c, cap, members, [op]) == AfterAll(c, cap, Meaning(c, cap, members, op), []);
    } else {
      assert (ops + [op])[1..] == ops[1..] + [op];
      AfterSnoc(c, cap, Meaning(c, cap, members, ops[0]), ops[1..], op);
    }
  }

  method SigApply(words: array<nat>, lg: nat, c: Config, op: SetOp)
    requires Words(words[..], lg)
    modifies words
    ensures Words(words[..], lg)
    ensures Members(words[..], lg) == Meaning(c, Capacity(words.Length, lg), old(Members(words[..], lg)), op)
  {
    match op {
      case Empty => SigEmptySet(words, lg, c);
      case Fill => SigFillSet(words, lg, c);
      case Add(signo) => var _ := SigChangeSet(words, lg, c, signo, true);
      case Del(signo) => var _ := SigChangeSet(words, lg, c, signo, false);
    }
  }

  /** Any sequence of calls on a word array has the effect of the same operations on the set. */
  method SigApplyAll(words: array<nat>, lg: nat, c: Config, ops: seq<SetOp>)
    requires Words(words[..], lg)
    modifies words
    ensures Words(words[..], lg)
    ensures Members(words[..], lg) == AfterAll(c, Capacity(words.Length, lg), old(Members(words[..], lg)), ops)
  {
    ghost var cap, start := Capacity(words.Length, lg), Members(words[..], lg);
    for i := 0 to |ops|
      invariant Words(words[..], lg)
      invariant Members(words[..], lg) == AfterAll(c, cap, start, ops[..i])
    {
      SigApply(words, lg, c, ops[i]);
      AfterSnoc(c, cap, start, ops[..i], ops[i]);
      assert ops[..i + 1] == ops[..i] + [ops[i]];
    }
    assert ops[..|ops|] == ops;
  }

  /** With the real-time range above 31, the signals that may be used are 1 to 31 and those of the
      range, without the two reserved ones. */
  lemma ValidSignals(c: Config, signo: int)
    requires c.rtMin > 31
    ensures SignoValid(c, signo) <==>
            && (1 <= signo <= 31 || c.rtMin <= signo <= c.rtMax)
            && signo != c.cancel && signo != c.cancel + 1
  {}

  /** A usable signal can be added and is found then, and can be deleted and is gone then. */
  method AddAskDeleteAsk(words: array<nat>, lg: nat, c: Config, signo: int) returns (added: int, deleted: int)
    requires Words(words[..], lg) && SignoValid(c, signo) && 0 < signo <= words.Length * Pow2(lg)
    modifies words
    ensures Words(words[..], lg) && added == 1 && deleted == 0
    ensures Members(words[..], lg) == old(Members(words[..], lg)) - {signo}
  {
    var _ := SigChangeSet(words, lg, c, signo, true);
    added := SigIsMember(words, lg, c, signo);
    var _ := SigChangeSet(words, lg, c, signo, false);
    deleted := SigIsMember(words, lg, c, signo);
  }

  /** An emptied set holds no signal, a filled one every usable signal outside the reserved range. */
  method EmptyAskFillAsk(words: array<nat>, lg: nat, c: Config, signo: int) returns (emptied: int, filled: int)
    requires Words(words[..], lg) && SignoValid(c, signo) && 0 < signo <= words.Length * Pow2(lg)
    modifies words
    ensures Words(words[..], lg) && emptied == 0 && filled == if c.cancel <= signo < c.rtMin then 0 else 1
  {
    SigEmptySet(words, lg, c);
    emptied := SigIsMember(words, lg, c, signo);
    SigFillSet(words, lg, c);
    filled := SigIsMember(words, lg, c, signo);
  }
}
