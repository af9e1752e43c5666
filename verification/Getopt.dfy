/** The short-option scanner of lib/posix/c_lib_ext/zephyr_getopt.c. */
module Getopt {
  import opened Common
  import opened Ctype
  import opened WordBits

  // ---------------------------------------------------------------- the option string

  /** The mask bit of an option letter, or -1. */
  function MaskIndex(c: char): (r: int)
    ensures -1 <= r < 62 && (r >= 0 <==> IsAlnum(c))
  {
    if IsLower(c) then c as int - 'a' as int
    else if IsUpper(c) then c as int - 'A' as int + 26
    else if IsDigit(c) then c as int - '0' as int + 52
    else -1
  }

  lemma MaskIndexInjective(c: char, d: char)
    requires MaskIndex(c) == MaskIndex(d) >= 0
    ensures c == d
  {}

  /** Letter c is one of the first n characters of the option string. */
  ghost predicate Listed(o: CString, n: nat, c: char) {
    exists k :: 0 <= k < n <= |o| && o[k] == c
  }

  /** c first stands at place k, and a colon follows it there. */
  ghost predicate ColonAt(o: CString, k: nat, c: char) {
    k < |o| && o[k] == c && !Listed(o, k, c) && At(o, k + 1) == ':'
  }

  ghost predicate ColonAfter(o: CString, n: nat, c: char) {
    exists k :: 0 <= k < n && ColonAt(o, k, c)
  }

  ghost predicate Known(o: CString, c: char) { IsAlnum(c) && Listed(o, |o|, c) }

  /** An option takes an argument if a colon follows the first place it is listed at. */
  ghost predicate TakesArgument(o: CString, c: char) { IsAlnum(c) && ColonAfter(o, |o|, c) }

  /** The two masks after the first n characters. */
  ghost predicate MasksFor(o: CString, n: nat, omask: nat, amask: nat) {
    forall c :: IsAlnum(c) ==>
      Bit(omask, MaskIndex(c)) == Listed(o, n, c) && Bit(amask, MaskIndex(c)) == ColonAfter(o, n, c)
  }

  lemma MaskedBit(w: nat, k: nat)
    ensures And(w, Pow2(k)) != 0 <==> Bit(w, k)
  {
    BitAnd(w, Pow2(k), k);
    BitPow2(k, k);
    if And(w, Pow2(k)) != 0 && !Bit(w, k) {
      AndIsZero(w, Pow2(k), k);
    }
    BitZero(k);
  }

  lemma {:induction false} AndIsZero(w: nat, p: nat, k: nat)
    requires p == Pow2(k) && !Bit(w, k)
    ensures And(w, p) == 0
    decreases k
  {
    if k > 0 { AndIsZero(w / 2, p / 2, k - 1); }
  }

  lemma SetBit(w: nat, k: nat, b: nat)
    ensures Bit(Or(w, Pow2(k)), b) == (Bit(w, b) || b == k)
  {
    BitOr(w, Pow2(k), b);
    BitPow2(k, b);
  }

  lemma ListedStep(o: CString, n: nat, c: char)
    requires n < |o|
    ensures Listed(o, n + 1, c) <==> Listed(o, n, c) || o[n] == c
  {}

  lemma ColonStep(o: CString, n: nat, c: char)
    ensures ColonAfter(o, n + 1, c) <==> ColonAfter(o, n, c) || ColonAt(o, n, c)
  {}

  /** A character that is no letter or digit, or one seen before, changes nothing. */
  lemma NothingNew(o: CString, n: nat, omask: nat, amask: nat)
    requires n < |o| && MasksFor(o, n, omask, amask) && (!IsAlnum(o[n]) || Listed(o, n, o[n]))
    ensures MasksFor(o, n + 1, omask, amask)
  {
    forall c | IsAlnum(c)
      ensures Bit(omask, MaskIndex(c)) == Listed(o, n + 1, c) && Bit(amask, MaskIndex(c)) == ColonAfter(o, n + 1, c)
    {
      ListedStep(o, n, c);
      ColonStep(o, n, c);
    }
  }

  lemma NewLetter(o: CString, n: nat, omask: nat, amask: nat, amask': nat)
    requires n < |o| && MasksFor(o, n, omask, amask) && IsAlnum(o[n]) && !Listed(o, n, o[n])
    requires amask' == if At(o, n + 1) == ':' then Or(amask, Pow2(MaskIndex(o[n]))) else amask
    ensures MasksFor(o, n + 1, Or(omask, Pow2(MaskIndex(o[n]))), amask')
  {
    var k := MaskIndex(o[n]);
    forall c | IsAlnum(c)
      ensures Bit(Or(omask, Pow2(k)), MaskIndex(c)) == Listed(o, n + 1, c)
      ensures Bit(amask', MaskIndex(c)) == ColonAfter(o, n + 1, c)
    {
      ListedStep(o, n, c);
      ColonStep(o, n, c);
      SetBit(omask, k, MaskIndex(c));
      SetBit(amask, k, MaskIndex(c));
      if MaskIndex(c) == k { MaskIndexInjective(c, o[n]); }
    }
  }

  method ParseOptstring(o: CString) returns (omask: nat, amask: nat, colon: bool)
    ensures forall c :: IsAlnum(c) ==> Bit(omask, MaskIndex(c)) == Known(o, c)
    ensures forall c :: IsAlnum(c) ==> Bit(amask, MaskIndex(c)) == TakesArgument(o, c)
    ensures colon <==> |o| > 0 && o[0] == ':'
  {
    omask, amask, colon := 0, 0, false;
    forall c | IsAlnum(c) ensures !Bit(0, MaskIndex(c)) {
      BitZero(MaskIndex(c));
    }
    var i := 0;
    var last := -1;
    while i < |o|
      invariant i <= |o| && (last == -1 <==> i == 0)
      invariant MasksFor(o, i, omask, amask)
      invariant colon <==> i > 0 && o[0] == ':'
    {
      if last == -1 && o[i] == ':' {
        colon := true;
        NothingNew(o, i, omask, amask);
      } else {
        var idx := MaskIndex(o[i]);
        if idx < 0 {
          NothingNew(o, i, omask, amask);
        } else {
          MaskedBit(omask, idx);
          if And(omask, Pow2(idx)) != 0 {
            NothingNew(o, i, omask, amask);
          } else {
            ghost var was := amask;
            ghost var owas := omask;
            omask := Or(omask, Pow2(idx));
            if At(o, i + 1) == ':' {
              amask := Or(amask, Pow2(idx));
            }
            NewLetter(o, i, owas, was, amask);
            if At(o, i + 1) == ':' {
              i := i + 1;
              NothingNew(o, i, omask, amask);
            }
          }
        }
      }
      last := o[i] as int;
      i := i + 1;
    }
  }

  // ---------------------------------------------------------------- one call

  /** Where an option's argument begins. */
  datatype Place = Place(arg: nat, from: nat)

  const U16: nat := 0x1_0000

  /** uint16_t, the two halves of the word that opterr is used as. */
  type Half = x: nat | x < 0x1_0000

  datatype State = State(optarg: Option<Place>, optind: int, optopt: int, prev: Half, nextchar: Half)

  const END: int := -1

  /** The state a call works from: an index below 1 starts over, and an index that was moved from
      outside starts its argument afresh. */
  function Begin(st: State): State {
    var s := if st.optind < 1 then st.(optind := 1, prev := 1, nextchar := 0) else st;
    if s.optind != s.prev then s.(nextchar := 1, prev := s.optind % U16) else s
  }

  predicate IsOption(arg: CString) { |arg| >= 2 && arg[0] == '-' && arg != "--" }

  /** The character of an argument that a call looks at. */
  function CharIndex(nextchar: Half, arg: CString): (j: Half)
    requires IsOption(arg)
    ensures 1 <= j < |arg|
  {
    if nextchar < 1 || nextchar >= |arg| then 1 else nextchar
  }

  /** What a call returns and leaves behind, as the meaning of the option string has it. */
  ghost function Call(argv: seq<CString>, o: CString, st: State): (int, State) {
    var s := Begin(st);
    if s.optind >= |argv| then (END, s)
    else if !IsOption(argv[s.optind]) then (END, Leave(s, s.optind + if argv[s.optind] == "--" then 1 else 0))
    else Examine(argv, o, s, CharIndex(s.nextchar, argv[s.optind]))
  }

  function Leave(s: State, optind: int): State { s.(optind := optind, prev := optind % U16) }

  ghost function Examine(argv: seq<CString>, o: CString, s: State, j: Half): (int, State)
    requires 0 <= s.optind < |argv| && j < |argv[s.optind]|
  {
    var i, arg := s.optind, argv[s.optind];
    var c := arg[j];
    var t := s.(optopt := c as int, nextchar := j);
    if !Known(o, c) then ('?' as int, Leave(t, i))
    else if TakesArgument(o, c) then
      if j + 1 < |arg| then (c as int, Leave(t.(optarg := Some(Place(i, j + 1))), i + 1))
      else if i + 1 < |argv| then (c as int, Leave(t.(optarg := Some(Place(i + 1, 0))), i + 2))
      else ((if |o| > 0 && o[0] == ':' then ':' as int else '?' as int), Leave(t, i))
    else if j + 1 == |arg| then (c as int, Leave(t.(optarg := None, nextchar := 0), i + 1))
    else (c as int, Leave(t.(optarg := None, nextchar := (j + 1) % U16), i))
  }

  class Scanner {
    var optarg: Option<Place>
    var optind: int
    var optopt: int
    var prev: Half
    var nextchar: Half

    ghost function View(): State
      reads this
    {
      State(optarg, optind, optopt, prev, nextchar)
    }

    method Getopt(argv: seq<CString>, o: CString) returns (ret: int)
      modifies this
      ensures (ret, View()) == Call(argv, o, old(View()))
    {
      if optind < 1 {
        optind, prev, nextchar := 1, 1, 0;
      }
      if optind != prev {
        nextchar := 1;
        prev := optind % U16;
      }
      var omask, amask, colon := ParseOptstring(o);
      if optind >= |argv| {
        return END;
      }
      assert View() == Begin(old(View()));
      var arg := argv[optind];
      if At(arg, 0) != '-' || At(arg, 1) == EOS {
        prev := optind % U16;
        return END;
      }
      if At(arg, 1) == '-' && At(arg, 2) == EOS {
        assert arg == "--";
        optind := optind + 1;
        prev := optind % U16;
        return END;
      }
      if nextchar < 1 || nextchar >= |arg| {
        nextchar := 1;
      }
      ret := Letter(argv, o, omask, amask, colon);
      prev := optind % U16;
    }

    /** The body of the inner loop, which always leaves the loop. */
    method Letter(argv: seq<CString>, o: CString, omask: nat, amask: nat, colon: bool) returns (ret: int)
      requires 0 <= optind < |argv| && 1 <= nextchar < |argv[optind]|
      requires forall c :: IsAlnum(c) ==> Bit(omask, MaskIndex(c)) == Known(o, c)
      requires forall c :: IsAlnum(c) ==> Bit(amask, MaskIndex(c)) == TakesArgument(o, c)
      requires colon <==> |o| > 0 && o[0] == ':'
      modifies this
      ensures var r := Examine(argv, o, old(View()), old(nextchar));
              ret == r.0 && View() == r.1.(prev := old(prev))
    {
      var i, arg, j: nat := optind, argv[optind], nextchar;
      var idx := MaskIndex(arg[j]);
      if idx >= 0 {
        MaskedBit(omask, idx);
        MaskedBit(amask, idx);
      }
      optopt := arg[j] as int;
      if idx < 0 || And(omask, Pow2(idx)) == 0 {
        return '?' as int;
      }
      if And(amask, Pow2(idx)) != 0 {
        if At(arg, j + 1) != EOS {
          optarg := Some(Place(i, j + 1));
          optind := i + 1;
          return optopt;
        }
        if i + 1 < |argv| {
          optarg := Some(Place(i + 1, 0));
          optind := i + 2;
          return optopt;
        }
        return if colon then ':' as int else '?' as int;
      }
      optarg := None;
      if At(arg, j + 1) == EOS {
        optind := i + 1;
        nextchar := 0;
      } else {
        nextchar := (nextchar + 1) % U16;
      }
      return optopt;
    }
  }

  // ---------------------------------------------------------------- whole runs

  predicate IsLetter(ret: int) { ret != END && ret != '?' as int && ret != ':' as int }

  /** The total length of the first n arguments. */
  function Lengths(argv: seq<CString>, n: nat): nat
    requires n <= |argv|
  {
    if n == 0 then 0 else Lengths(argv, n - 1) + |argv[n - 1]|
  }

  lemma {:induction false} LengthsGrow(argv: seq<CString>, m: nat, n: nat)
    requires m <= n <= |argv|
    ensures Lengths(argv, m) <= Lengths(argv, n)
    decreases n
  {
    if m < n { LengthsGrow(argv, m, n - 1); }
  }

  /** How much of the arguments lies before the character that the next call looks at. */
  ghost function Passed(argv: seq<CString>, st: State): nat {
    var s := Begin(st);
    if s.optind >= |argv| then Lengths(argv, |argv|)
    else Lengths(argv, s.optind) + if IsOption(argv[s.optind]) then CharIndex(s.nextchar, argv[s.optind]) else 0
  }

  lemma PassedBound(argv: seq<CString>, st: State)
    ensures Passed(argv, st) <= Lengths(argv, |argv|)
  {
    var s := Begin(st);
    if s.optind < |argv| { LengthsGrow(argv, s.optind + 1, |argv|); }
  }

  lemma PassedAtLeast(argv: seq<CString>, st: State, i: nat)
    requires i < |argv| && i < st.optind
    ensures Passed(argv, st) >= Lengths(argv, i + 1)
  {
    if st.optind < |argv| { LengthsGrow(argv, i + 1, st.optind); } else { LengthsGrow(argv, i + 1, |argv|); }
  }

  /** An option at character j of argument i that a call can get past: it takes an argument, it ends
      its cluster, or both numbers of the next place fit 16 bits. */
  ghost predicate Passable(argv: seq<CString>, o: CString, i: nat, j: nat) {
    i < |argv| && j < |argv[i]| &&
    (TakesArgument(o, argv[i][j]) || j + 1 == |argv[i]| || (i < U16 && j + 1 < U16))
  }

  lemma StaysInCluster(argv: seq<CString>, o: CString, s: State, j: Half)
    requires 1 <= s.optind < |argv| && 1 <= j < |argv[s.optind]| && IsOption(argv[s.optind])
    requires IsLetter(Examine(argv, o, s, j).0) && Examine(argv, o, s, j).1.optind == s.optind
    ensures Passed(argv, Examine(argv, o, s, j).1) ==
            Lengths(argv, s.optind) + (if Passable(argv, o, s.optind, j) then j + 1 else 1)
  {}

  /** A call that reports an option moves forward exactly when it can get past it. */
  lemma CallsAdvanceExactly(argv: seq<CString>, o: CString, st: State)
    requires IsLetter(Call(argv, o, st).0)
    ensures var s := Begin(st);
            s.optind < |argv| && IsOption(argv[s.optind])
            && (Passed(argv, st) < Passed(argv, Call(argv, o, st).1)
                <==> Passable(argv, o, s.optind, CharIndex(s.nextchar, argv[s.optind])))
    ensures Passed(argv, Call(argv, o, st).1) <= Lengths(argv, |argv|)
  {
    var s, s' := Begin(st), Call(argv, o, st).1;
    var i := s.optind;
    var j := CharIndex(s.nextchar, argv[i]);
    assert Passed(argv, st) == Lengths(argv, i) + j < Lengths(argv, i + 1);
    PassedBound(argv, s');
    if s'.optind > i {
      PassedAtLeast(argv, s', i);
    } else {
      StaysInCluster(argv, o, s, j);
    }
  }

  /** A place with an option that some call looks at. */
  ghost predicate Visible(argv: seq<CString>, o: CString, i: nat, j: nat) {
    && 1 <= i < |argv| && IsOption(argv[i]) && 1 <= j < |argv[i]| && Known(o, argv[i][j])
    && j < U16 && (i < U16 || j == 1)
  }

  ghost predicate AllPassable(argv: seq<CString>, o: CString) {
    forall i, j :: Visible(argv, o, i, j) ==> Passable(argv, o, i, j)
  }

  /** As long as argument numbers and character positions fit the 16 bits they are kept in, that holds. */
  lemma SmallIsPassable(argv: seq<CString>, o: CString)
    requires |argv| <= U16 && forall i :: 0 <= i < |argv| ==> |argv[i]| <= U16
    ensures AllPassable(argv, o)
  {}

  lemma CallsAdvance(argv: seq<CString>, o: CString, st: State)
    requires AllPassable(argv, o) && IsLetter(Call(argv, o, st).0)
    ensures Passed(argv, st) < Passed(argv, Call(argv, o, st).1) <= Lengths(argv, |argv|)
  {
    CallsAdvanceExactly(argv, o, st);
    var s := Begin(st);
    assert Visible(argv, o, s.optind, CharIndex(s.nextchar, argv[s.optind]));
  }

  ghost predicate Advances(argv: seq<CString>, o: CString, st: State) {
    IsLetter(Call(argv, o, st).0) ==> Passed(argv, st) < Passed(argv, Call(argv, o, st).1)
  }

  /** A state whose next call looks at a given place. */
  lemma Lookup(argv: seq<CString>, o: CString, i: nat, j: nat) returns (st: State)
    requires Visible(argv, o, i, j)
    ensures Begin(st).optind == i && CharIndex(Begin(st).nextchar, argv[i]) == j
    ensures !TakesArgument(o, argv[i][j]) ==> IsLetter(Call(argv, o, st).0)
  {
    st := State(None, i, 0, i % U16, j);
  }

  /** Every call from every state moves forward if and only if every place can be got past. */
  lemma AllCallsAdvanceExactly(argv: seq<CString>, o: CString)
    ensures AllPassable(argv, o) <==> forall st :: Advances(argv, o, st)
  {
    if AllPassable(argv, o) {
      forall st ensures Advances(argv, o, st) {
        if IsLetter(Call(argv, o, st).0) { CallsAdvance(argv, o, st); }
      }
    }
    if i, j :| Visible(argv, o, i, j) && !Passable(argv, o, i, j) {
      var st := Lookup(argv, o, i, j);
      CallsAdvanceExactly(argv, o, st);
      assert !Advances(argv, o, st);
    }
  }

  /** Calling until no option is reported takes no more calls than there are characters left. */
  method ScanAll(scanner: Scanner, argv: seq<CString>, o: CString) returns (letters: seq<int>, ret: int)
    requires AllPassable(argv, o)
    modifies scanner
    ensures !IsLetter(ret) && (forall k :: 0 <= k < |letters| ==> IsLetter(letters[k]))
    ensures |letters| + old(Passed(argv, scanner.View())) <= Lengths(argv, |argv|)
  {
    letters := [];
    PassedBound(argv, scanner.View());
    while true
      invariant forall k :: 0 <= k < |letters| ==> IsLetter(letters[k])
      invariant |letters| + old(Passed(argv, scanner.View())) <= Passed(argv, scanner.View()) <= Lengths(argv, |argv|)
      decreases Lengths(argv, |argv|) - Passed(argv, scanner.View())
    {
      ghost var st := scanner.View();
      ret := scanner.Getopt(argv, o);
      if !IsLetter(ret) {
        return;
      }
      CallsAdvance(argv, o, st);
      letters := letters + [ret];
    }
  }

  /** After an option is reported at character j of argument i, the next call should look at the next
      character of the cluster, or at the first letter of a later argument. The former holds exactly
      when both numbers fit 16 bits. The latter holds exactly when the option took no argument, or j is a
      place the later argument does not have, or j is 1, or the later number does not fit: the index
      of an option with an argument is kept and taken for one of the next cluster. */
  lemma NextIsProperExactly(argv: seq<CString>, o: CString, st: State)
    requires IsLetter(Call(argv, o, st).0)
    ensures var s, s' := Begin(st), Begin(Call(argv, o, st).1);
            var i, i' := s.optind, s'.optind;
            var j := CharIndex(s.nextchar, argv[i]);
            i' < |argv| && IsOption(argv[i']) ==>
              var j' := CharIndex(s'.nextchar, argv[i']);
              if i' == i then j' == j + 1 <==> (i < U16 && j + 1 < U16)
              else j' == 1 <==> (!TakesArgument(o, argv[i][j]) || j == 1 || j >= |argv[i']| || i' >= U16)
  {}

  /** The state after n calls. */
  ghost function Nth(argv: seq<CString>, o: CString, st: State, n: nat): State {
    if n == 0 then st else Call(argv, o, Nth(argv, o, st, n - 1)).1
  }

  /** The first letters of a cluster, as many as 16 bits count, take no argument. */
  ghost predicate Flags(arg: CString, o: CString) {
    forall j :: 1 <= j < |arg| && j < U16 ==> Known(o, arg[j]) && !TakesArgument(o, arg[j])
  }

  /** In a cluster of more than 65536 characters. */
  ghost predicate InLongCluster(argv: seq<CString>, o: CString, s: State, i: nat) {
    && 1 <= i < |argv| && i < U16 && s.optind == s.prev == i
    && IsOption(argv[i]) && |argv[i]| > U16 && Flags(argv[i], o)
  }

  lemma LetterOfCluster(argv: seq<CString>, o: CString, s: State, i: nat)
    requires InLongCluster(argv, o, s, i)
    ensures IsLetter(Call(argv, o, s).0) && InLongCluster(argv, o, Call(argv, o, s).1, i)
  {
    var j := CharIndex(s.nextchar, argv[i]);
    assert Known(o, argv[i][j]) && !TakesArgument(o, argv[i][j]);
  }

  /** Such a cluster never ends: the index of its letters wraps to 0. */
  lemma {:induction false} LongClusterNeverEnds(argv: seq<CString>, o: CString, st: State, i: nat, n: nat)
    requires InLongCluster(argv, o, st, i)
    ensures InLongCluster(argv, o, Nth(argv, o, st, n), i) && IsLetter(Call(argv, o, Nth(argv, o, st, n)).0)
  {
    if n > 0 { LongClusterNeverEnds(argv, o, st, i, n - 1); LetterOfCluster(argv, o, Nth(argv, o, st, n - 1), i); }
    LetterOfCluster(argv, o, Nth(argv, o, st, n), i);
  }

  /** Beyond 16 bits a cluster never ends: its first letter is reported again and again. */
  lemma StuckBeyond16Bits(argv: seq<CString>, o: CString, st: State)
    requires U16 <= st.optind < |argv|
    requires IsOption(argv[st.optind]) && |argv[st.optind]| > 2
    requires var c := argv[st.optind][1]; Known(o, c) && !TakesArgument(o, c)
    ensures var r := Call(argv, o, st);
            r.0 == argv[st.optind][1] as int && r.1.optind == st.optind && Call(argv, o, r.1) == r
  {}

  lemma SkippingOptions(o: CString)
    requires o == "vb:xyz"
    ensures Known(o, 'v') && Known(o, 'b') && Known(o, 'y') && TakesArgument(o, 'b')
    ensures !TakesArgument(o, 'v') && !TakesArgument(o, 'y')
  {
    assert o[0] == 'v' && o[1] == 'b' && o[2] == ':' && o[3] == 'x' && o[4] == 'y' && o[5] == 'z';
    assert ColonAt(o, 1, 'b');
    assert forall k :: 0 <= k < |o| && o[k] == 'v' ==> k == 0;
    assert forall k :: 0 <= k < |o| && o[k] == 'y' ==> k == 4;
  }

  /** From a reset, the letter x of "-xyz" is passed over when it follows "-vbfile", b taking an
      argument: the letters reported are v, b and y. */
  lemma SkippedLetter(st: State, argv: seq<CString>, o: CString)
    requires st.optind == 0 && argv == ["p", "-vbfile", "-xyz"] && o == "vb:xyz"
    ensures Call(argv, o, st).0 == 'v' as int
    ensures Call(argv, o, Nth(argv, o, st, 1)).0 == 'b' as int && Nth(argv, o, st, 2).optarg == Some(Place(1, 3))
    ensures Call(argv, o, Nth(argv, o, st, 2)).0 == 'y' as int
  {
    SkippingOptions(o);
    var s1 := Call(argv, o, st).1;
    assert s1.optind == 1 && s1.prev == 1 && s1.nextchar == 2;
    assert Nth(argv, o, st, 1) == s1;
    var s2 := Call(argv, o, s1).1;
    assert s2.optind == 2 && s2.prev == 2 && s2.nextchar == 2;
    assert Nth(argv, o, st, 2) == s2;
  }

  // ---------------------------------------------------------------- what command lines mean

  /** c is first listed at place k of the option string. */
  ghost predicate FirstAt(o: CString, k: nat, c: char) {
    k < |o| && o[k] == c && IsAlnum(c) && forall j :: 0 <= j < k ==> o[j] != c
  }

  lemma FirstListing(o: CString, k: nat, c: char)
    requires FirstAt(o, k, c)
    ensures Known(o, c) && (TakesArgument(o, c) <==> k + 1 < |o| && o[k + 1] == ':')
  {
    assert Listed(o, |o|, c);
    assert !Listed(o, k, c);
    if k + 1 < |o| && o[k + 1] == ':' { assert ColonAt(o, k, c); }
    forall x: nat | x != k ensures !ColonAt(o, x, c) {
      assert k < x <= |o| ==> Listed(o, x, c);
    }
  }

  /** The text at a place. */
  function TextAt(argv: seq<CString>, p: Place): CString
    requires p.arg < |argv| && p.from <= |argv[p.arg]|
  {
    argv[p.arg][p.from..]
  }

  /** -cv: the rest of the argument is the option's argument. */
  lemma JoinedArgument(argv: seq<CString>, o: CString, st: State, k: nat, c: Char7, v: CString)
    requires st.optind == 0 && |argv| >= 2 && argv[1] == ['-', c] + v && v != []
    requires FirstAt(o, k, c) && k + 1 < |o| && o[k + 1] == ':'
    ensures var r := Call(argv, o, st);
            && r.0 == c as int && r.1.optopt == c as int && r.1.optind == 2
            && r.1.optarg == Some(Place(1, 2)) && TextAt(argv, Place(1, 2)) == v
  {
    FirstListing(o, k, c);
    assert argv[1][1] == c;
  }

  /** -c v: the next argument is. */
  lemma SeparateArgument(argv: seq<CString>, o: CString, st: State, k: nat, c: Char7)
    requires st.optind == 0 && |argv| >= 3 && argv[1] == ['-', c]
    requires FirstAt(o, k, c) && k + 1 < |o| && o[k + 1] == ':'
    ensures var r := Call(argv, o, st);
            && r.0 == c as int && r.1.optopt == c as int && r.1.optind == 3
            && r.1.optarg == Some(Place(2, 0)) && TextAt(argv, Place(2, 0)) == argv[2]
  {
    FirstListing(o, k, c);
    assert argv[1][1] == c;
    assert argv[2][0..] == argv[2];
  }

  /** With nothing behind it, ':' is returned if the option string starts with one, and '?' otherwise. */
  lemma MissingArgument(argv: seq<CString>, o: CString, st: State, k: nat, c: Char7)
    requires st.optind == 0 && |argv| == 2 && argv[1] == ['-', c]
    requires FirstAt(o, k, c) && k + 1 < |o| && o[k + 1] == ':'
    ensures var r := Call(argv, o, st);
            r.0 == (if o[0] == ':' then ':' as int else '?' as int) && r.1.optopt == c as int && r.1.optind == 1
  {
    FirstListing(o, k, c);
    assert argv[1][1] == c;
  }

  /** An option that is not listed gives '?' and is left in optopt. */
  lemma UnknownOption(argv: seq<CString>, o: CString, st: State)
    requires st.optind == 0 && |argv| >= 2 && |argv[1]| >= 2 && argv[1][0] == '-' && argv[1] != "--"
    requires argv[1][1] !in o || !IsAlnum(argv[1][1])
    ensures var r := Call(argv, o, st); r.0 == '?' as int && r.1.optopt == argv[1][1] as int && r.1.optind == 1
  {}

  ghost predicate Flag(o: CString, k: nat, c: char) { FirstAt(o, k, c) && !(k + 1 < |o| && o[k + 1] == ':') }

  /** -cd is -c and -d. */
  lemma ClusterOfTwo(argv: seq<CString>, o: CString, st: State, j: nat, c: Char7, k: nat, d: Char7)
    requires st.optind == 0 && |argv| >= 2 && argv[1] == ['-', c, d] && Flag(o, j, c) && Flag(o, k, d)
    ensures var r := Call(argv, o, st);
            var q := Call(argv, o, r.1);
            && r.0 == c as int && r.1.optarg == None && r.1.optind == 1
            && q.0 == d as int && q.1.optarg == None && q.1.optind == 2
  {
    FirstListing(o, j, c);
    FirstListing(o, k, d);
    assert argv[1][1] == c && argv[1][2] == d;
    var r := Call(argv, o, st);
    assert r.1.optind == 1 && r.1.prev == 1 && r.1.nextchar == 2;
  }

  /** Options end before the first argument that is none, and behind "--". */
  lemma OptionsEnd(argv: seq<CString>, o: CString, st: State)
    requires st.optind == 0
    ensures var r := Call(argv, o, st);
            && (|argv| < 2 || |argv[1]| < 2 || argv[1][0] != '-' ==> r.0 == -1 && r.1.optind == 1)
            && (|argv| >= 2 && argv[1] == "--" ==> r.0 == -1 && r.1.optind == 2)
  {}
}
