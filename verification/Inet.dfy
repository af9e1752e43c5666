/** Dotted-quad addresses: lib/posix/options/networking/inet_addr.c and inet_ntoa.c. */
module Inet {
  import opened Common
  import opened Ctype
  import opened Decimal
  import opened WordBits

  type Byte = b: nat | b < 256

  /** An address as its four bytes in memory. */
  datatype Addr = Addr(b0: Byte, b1: Byte, b2: Byte, b3: Byte)

  /** (in_addr_t)-1 */
  const NONE: Addr := Addr(255, 255, 255, 255)

  const INET_ADDRSTRLEN: nat := 16

  const U32: nat := 0x1_0000_0000

  /** htonl: the bytes of a word, highest first. */
  function NetworkBytes(w: nat): Addr
    requires w < U32
  {
    Addr(w / 0x100_0000, w / 0x1_0000 % 0x100, w / 0x100 % 0x100, w % 0x100)
  }

  // ---------------------------------------------------------------- the text

  /** Where the address text ends: at white space or at the end of the string. */
  function FieldEnd(s: CString, from: nat): (e: nat)
    requires from <= |s|
    ensures from <= e <= |s| && (e == |s| || IsSpace(s[e]))
    ensures forall i :: from <= i < e ==> !IsSpace(s[i])
    decreases |s| - from
  {
    if from == |s| || IsSpace(s[from]) then from else FieldEnd(s, from + 1)
  }

  /** A text cut at its dots: the parts that a dot ended, and the one after the last dot. */
  datatype Scanned = Scanned(done: seq<string>, cur: string)

  function Scan(t: string): Scanned {
    if t == [] then Scanned([], [])
    else
      var front := Scan(t[..|t| - 1]);
      if t[|t| - 1] == '.' then Scanned(front.done + [front.cur], []) else front.(cur := front.cur + [t[|t| - 1]])
  }

  function Total(parts: seq<string>): nat {
    if parts == [] then 0 else Total(parts[..|parts| - 1]) + |parts[|parts| - 1]|
  }

  ghost predicate Legal(t: string) {
    forall i :: 0 <= i < |t| ==> IsDigit(t[i]) || t[i] == '.'
  }

  ghost predicate ShortParts(parts: seq<string>) {
    forall i :: 0 <= i < |parts| ==> 1 <= |parts[i]| <= 3
  }

  /** What inet_addr lets through: three dots, one to three digits before each, at most three after
      the last one, and four digits or more in all. */
  ghost predicate Accepted(t: string) {
    && Legal(t) && |Scan(t).done| == 3 && ShortParts(Scan(t).done) && |Scan(t).cur| <= 3
    && Total(Scan(t).done) + |Scan(t).cur| >= 4
  }

  lemma ScanSnoc(t: string, i: nat)
    requires i < |t|
    ensures var s := Scan(t[..i]);
            Scan(t[..i + 1]) == if t[i] == '.' then Scanned(s.done + [s.cur], []) else s.(cur := s.cur + [t[i]])
  {
    assert t[..i + 1][..i] == t[..i];
  }

  ghost predicate DigitParts(s: Scanned) {
    AllDigits(s.cur) && forall i :: 0 <= i < |s.done| ==> AllDigits(s.done[i])
  }

  lemma {:induction false} ScanDigits(t: string)
    requires Legal(t)
    ensures DigitParts(Scan(t))
    decreases |t|
  {
    if t != [] { ScanDigits(t[..|t| - 1]); }
  }

  lemma TotalSnoc(parts: seq<string>, p: string)
    ensures Total(parts + [p]) == Total(parts) + |p|
  {
    assert (parts + [p])[..|parts|] == parts;
  }

  lemma {:induction false} ScanLength(t: string)
    ensures |t| == Total(Scan(t).done) + |Scan(t).done| + |Scan(t).cur|
    decreases |t|
  {
    if t != [] {
      var front := Scan(t[..|t| - 1]);
      ScanLength(t[..|t| - 1]);
      TotalSnoc(front.done, front.cur);
    }
  }

  lemma AcceptedIsShort(t: string)
    requires Accepted(t)
    ensures |t| <= 15
  {
    ScanLength(t);
    TotalOfThree(Scan(t).done);
  }

  lemma TotalOfThree(parts: seq<string>)
    requires |parts| == 3
    ensures Total(parts) == |parts[0]| + |parts[1]| + |parts[2]|
  {
    assert parts == [parts[0], parts[1], parts[2]];
    TotalSnoc([], parts[0]);
    TotalSnoc([parts[0]], parts[1]);
    TotalSnoc([parts[0], parts[1]], parts[2]);
    assert [] + [parts[0]] == [parts[0]];
    assert [parts[0]] + [parts[1]] == [parts[0], parts[1]];
    assert [parts[0], parts[1]] + [parts[2]] == parts;
  }

  /** Once a part is too long, or empty before a dot, no continuation mends it. */
  ghost predicate Broken(s: Scanned) { !ShortParts(s.done) || |s.cur| > 3 }

  lemma {:induction false} BrokenStays(t: string, i: nat)
    requires i <= |t| && Broken(Scan(t[..i]))
    ensures !Accepted(t)
    decreases |t| - i
  {
    if i == |t| {
      assert t[..i] == t;
    } else {
      ScanSnoc(t, i);
      BrokenStep(Scan(t[..i]), Scan(t[..i + 1]), t[i]);
      BrokenStays(t, i + 1);
    }
  }

  lemma BrokenStep(s: Scanned, s': Scanned, c: char)
    requires Broken(s) && s' == if c == '.' then Scanned(s.done + [s.cur], []) else s.(cur := s.cur + [c])
    ensures Broken(s')
  {
    if c == '.' {
      if |s.cur| > 3 {
        assert s'.done[|s.done|] == s.cur;
      } else {
        var i :| 0 <= i < |s.done| && !(1 <= |s.done[i]| <= 3);
        assert s'.done[i] == s.done[i];
      }
    }
  }

  // ---------------------------------------------------------------- the number

  /** val <<= 8; val |= tmp; on 32 bits */
  function Push(val: nat, tmp: nat): nat { Or(val * 256 % U32, tmp) }

  ghost function Fold(parts: seq<string>): nat
    requires forall i :: 0 <= i < |parts| ==> AllDigits(parts[i])
  {
    if parts == [] then 0 else Push(Fold(parts[..|parts| - 1]), Value(parts[|parts| - 1]))
  }

  lemma FoldSnoc(parts: seq<string>, p: string)
    requires (forall i :: 0 <= i < |parts| ==> AllDigits(parts[i])) && AllDigits(p)
    ensures Fold(parts + [p]) == Push(Fold(parts), Value(p))
  {
    assert (parts + [p])[..|parts|] == parts;
  }

  lemma PushFits(val: nat, tmp: nat)
    requires tmp < U32
    ensures Push(val, tmp) < U32
  {
    Pow2Is32();
    OrBound(val * 256 % U32, tmp, 32);
  }

  lemma Pow2Is32()
    ensures Pow2(32) == U32 && Pow2(8) == 256
  {
    assert Pow2(8) == 256;
    assert Pow2(16) == 65536;
    assert Pow2(24) == 16777216;
  }

  /** Or works on the lowest byte and on the rest apart. */
  lemma OrBytes(a: nat, b: nat)
    ensures Or(a, b) == 256 * Or(a / 256, b / 256) + Or(a % 256, b % 256) && Or(a % 256, b % 256) < 256
  {
    assert Pow2(8) == 256;
    OrSplit(a, b, 8, 256);
    OrBound(a % 256, b % 256, 8);
  }

  lemma LowByte(x: nat, y: Byte)
    ensures (256 * x + y) / 256 == x && (256 * x + y) % 256 == y
  {}

  lemma OrNothing(x: nat)
    ensures Or(x, 0) == x && Or(0, x) == x
  {}

  lemma OrLow(x: nat, y: Byte, z: Byte)
    ensures Or(256 * x + y, z) == 256 * x + Or(y, z) && Or(y, z) < 256
  {
    OrBytes(256 * x + y, z);
    LowByte(x, y);
    LowByte(0, z);
    OrNothing(x);
  }

  lemma OrShifted(x: nat, t: nat)
    ensures Or(256 * x, t) == 256 * Or(x, t / 256) + t % 256
  {
    OrBytes(256 * x, t);
    LowByte(x, 0);
    OrNothing(t % 256);
  }

  lemma ShiftDropsTop(val: nat)
    ensures val * 256 % U32 == 256 * (val % 0x100_0000)
  {
    var q, y := val / 0x100_0000, val % 0x100_0000;
    ModUnique(val * 256, U32, q, 256 * y);
  }

  /** Pushing a part of any size: its low byte comes behind, the rest is or-ed into what was there. */
  lemma PushPart(val: nat, tmp: nat)
    ensures Push(val, tmp) == 256 * Or(val % 0x100_0000, tmp / 256) + tmp % 256
  {
    ShiftDropsTop(val);
    OrShifted(val % 0x100_0000, tmp);
  }

  /** What becomes of the low byte of a part of value v when `next` is pushed behind it. */
  function Spilled(v: nat, next: nat): Byte { Or(v, next / 256) % 256 }

  lemma SpilledIs(v: nat, next: nat)
    requires next < 0x1_0000
    ensures Spilled(v, next) == Or(v % 256, next / 256)
  {
    OrLow(v / 256, v % 256, next / 256);
    LowByte(v / 256, Or(v % 256, next / 256));
  }

  lemma TopDrops(top: nat, y: Byte)
    ensures (256 * top + y) % 0x100_0000 == 256 * (top % 0x1_0000) + y
  {
    ModUnique(256 * top + y, 0x100_0000, top / 0x1_0000, 256 * (top % 0x1_0000) + y);
  }

  lemma PushBehind(top: nat, v: nat, next: nat)
    requires next < 0x1_0000
    ensures Push(256 * top + v % 256, next) == 256 * (256 * (top % 0x1_0000) + Spilled(v, next)) + next % 256
  {
    PushPart(256 * top + v % 256, next);
    TopDrops(top, v % 256);
    OrLow(top % 0x1_0000, v % 256, next / 256);
    SpilledIs(v, next);
  }

  lemma MiddleBytes(x: nat, a: nat, b: nat)
    requires a < 256 && b < 256
    ensures (256 * (256 * x + a) + b) % 0x1_0000 == 256 * a + b
  {
    ModUnique(256 * (256 * x + a) + b, 0x1_0000, x, 256 * a + b);
  }

  lemma PushTwo(v0: nat, v1: nat)
    requires v0 < 1000 && v1 < 1000
    ensures Push(Push(0, v0), v1) == 256 * (256 * (v0 / 256) + Spilled(v0, v1)) + v1 % 256
  {
    OrNothing(v0);
    assert Push(0, v0) == 256 * (v0 / 256) + v0 % 256;
    PushBehind(v0 / 256, v0, v1);
  }

  lemma PushNext(val: nat, top: nat, v: nat, next: nat)
    requires val == 256 * top + v % 256 && top < 0x1_0000 && next < 1000
    ensures Push(val, next) == 256 * (256 * top + Spilled(v, next)) + next % 256
  {
    PushBehind(top, v, next);
  }

  lemma PushLast(val: nat, x: nat, a: nat, b: nat, v: nat, next: nat)
    requires val == 256 * (256 * (256 * x + a) + b) + v % 256 && a < 256 && b < 256 && next < 1000
    ensures Push(val, next) == 256 * (256 * (256 * a + b) + Spilled(v, next)) + next % 256
  {
    MiddleBytes(x, a, b);
    PushBehind(256 * (256 * x + a) + b, v, next);
  }

  /** The bytes of four parts of up to three digits, whatever their size. */
  lemma PushFour(v0: nat, v1: nat, v2: nat, v3: nat)
    requires v0 < 1000 && v1 < 1000 && v2 < 1000 && v3 < 1000
    ensures var w := Push(Push(Push(Push(0, v0), v1), v2), v3);
            w < U32 && NetworkBytes(w) == Addr(Spilled(v0, v1), Spilled(v1, v2), Spilled(v2, v3), v3 % 256)
  {
    PushTwo(v0, v1);
    PushTheRest(Push(Push(0, v0), v1), v0 / 256, Spilled(v0, v1), v1, v2, v3);
  }

  lemma PushTheRest(val: nat, x: nat, a: Byte, v1: nat, v2: nat, v3: nat)
    requires val == 256 * (256 * x + a) + v1 % 256 && x < 4 && v2 < 1000 && v3 < 1000
    ensures var w := Push(Push(val, v2), v3);
            w < U32 && NetworkBytes(w) == Addr(a, Spilled(v1, v2), Spilled(v2, v3), v3 % 256)
  {
    PushNext(val, 256 * x + a, v1, v2);
    PushLast(Push(val, v2), x, a, Spilled(v1, v2), v2, v3);
    BytesOfSum(a, Spilled(v1, v2), Spilled(v2, v3), v3 % 256);
  }

  lemma BytesOfSum(a: Byte, b: Byte, c: Byte, d: Byte)
    ensures var w := 256 * (256 * (256 * a + b) + c) + d;
            w < U32 && NetworkBytes(w) == Addr(a, b, c, d)
  {
    var w := 256 * (256 * (256 * a + b) + c) + d;
    assert w / 0x100 == 256 * (256 * a + b) + c;
    assert w / 0x1_0000 == 256 * a + b;
    assert w / 0x100_0000 == a;
  }

  lemma {:induction false} FoldFits(parts: seq<string>)
    requires forall i :: 0 <= i < |parts| ==> AllDigits(parts[i]) && |parts[i]| <= 3
    ensures Fold(parts) < U32
    decreases |parts|
  {
    if parts != [] {
      FoldFits(parts[..|parts| - 1]);
      ThreeDigits(parts[|parts| - 1]);
      PushFits(Fold(parts[..|parts| - 1]), Value(parts[|parts| - 1]));
    }
  }

  lemma ThreeDigits(p: string)
    requires AllDigits(p) && |p| <= 3
    ensures Value(p) < 1000
  {
    OnlyOneSpelling(p);
    Pow10Grows(|p|, 3);
    assert Pow10(3) == 1000;
  }

  /** The parts whose values go into the address: an empty last part is not pushed. */
  ghost function Pushed(t: string): seq<string> {
    var s := Scan(t);
    if s.cur == [] then s.done else s.done + [s.cur]
  }

  lemma PushedParts(t: string)
    requires Accepted(t)
    ensures forall i :: 0 <= i < |Pushed(t)| ==> AllDigits(Pushed(t)[i]) && |Pushed(t)[i]| <= 3
    ensures Fold(Pushed(t)) < U32
  {
    ScanDigits(t);
    FoldFits(Pushed(t));
  }

  ghost function Result(t: string): Addr {
    if Accepted(t) then PushedParts(t); NetworkBytes(Fold(Pushed(t))) else NONE
  }

  // ---------------------------------------------------------------- the code

  method InetAddr(cp: Option<CString>) returns (r: Addr)
    ensures r == if cp.None? then NONE else Result(cp.value[..FieldEnd(cp.value, 0)])
  {
    if cp.None? {
      return NONE;
    }
    var s := cp.value;
    ghost var t := s[..FieldEnd(s, 0)];
    var len := CheckShape(s);
    if len.None? {
      return NONE;
    }
    r := Evaluate(s, len.value);
  }

  /** The first loop and the test after it: the length of an acceptable address text. */
  method CheckShape(s: CString) returns (r: Option<nat>)
    ensures var t := s[..FieldEnd(s, 0)]; r == if Accepted(t) then Some(|t|) else None
  {
    ghost var end := FieldEnd(s, 0);
    ghost var t: string := s[..end];
    var len, dots, digits, i, sub := 0, 0, 0, 0, 0;
    while i <= INET_ADDRSTRLEN
      invariant len == i <= end && i <= INET_ADDRSTRLEN + 1
      invariant Checked(t, i, dots, digits, sub)
      decreases INET_ADDRSTRLEN + 1 - i
    {
      if sub > 3 {
        BrokenStays(t, i);
        return None;
      }
      var c := At(s, i);
      if c == EOS {
        break;
      } else if c == '.' {
        if sub == 0 {
          EmptyPart(t, i);
          return None;
        }
        DotStep(t, i, dots, digits, sub);
        dots := dots + 1;
        sub := 0;
      } else if IsDigit(c) {
        DigitStep(t, i, dots, digits, sub);
        digits := digits + 1;
        sub := sub + 1;
      } else if IsSpace(c) {
        break;
      } else {
        assert t[i] == c;
        return None;
      }
      i, len := i + 1, len + 1;
    }
    Verdict(t, i, dots, digits, sub);
    if dots != 3 || digits < 4 {
      return None;
    }
    return Some(len);
  }

  /** What the first loop knows after i characters. */
  ghost predicate Checked(t: string, i: nat, dots: nat, digits: nat, sub: nat) {
    && i <= |t| && Legal(t[..i]) && ShortParts(Scan(t[..i]).done) && sub <= 4
    && dots == |Scan(t[..i]).done| && sub == |Scan(t[..i]).cur|
    && digits == Total(Scan(t[..i]).done) + sub
  }

  lemma EmptyPart(t: string, i: nat)
    requires i < |t| && t[i] == '.' && Scan(t[..i]).cur == []
    ensures !Accepted(t)
  {
    ScanSnoc(t, i);
    assert Scan(t[..i + 1]).done[|Scan(t[..i]).done|] == [];
    BrokenStays(t, i + 1);
  }

  lemma LegalStep(t: string, i: nat)
    requires i < |t| && Legal(t[..i]) && (IsDigit(t[i]) || t[i] == '.')
    ensures Legal(t[..i + 1])
  {
    assert t[..i + 1] == t[..i] + [t[i]];
  }

  lemma DotStep(t: string, i: nat, dots: nat, digits: nat, sub: nat)
    requires Checked(t, i, dots, digits, sub) && i < |t| && t[i] == '.' && 1 <= sub <= 3
    ensures Checked(t, i + 1, dots + 1, digits, 0)
  {
    LegalStep(t, i);
    ScanSnoc(t, i);
    TotalSnoc(Scan(t[..i]).done, Scan(t[..i]).cur);
  }

  lemma DigitStep(t: string, i: nat, dots: nat, digits: nat, sub: nat)
    requires Checked(t, i, dots, digits, sub) && i < |t| && IsDigit(t[i]) && sub <= 3
    ensures Checked(t, i + 1, dots, digits + 1, sub + 1)
  {
    LegalStep(t, i);
    ScanSnoc(t, i);
  }

  lemma Verdict(t: string, i: nat, dots: nat, digits: nat, sub: nat)
    requires Checked(t, i, dots, digits, sub)
    requires (i == |t| && sub <= 3) || i > INET_ADDRSTRLEN
    ensures (dots != 3 || digits < 4) == !Accepted(t)
    ensures Accepted(t) ==> i == |t|
  {
    if i <= INET_ADDRSTRLEN {
      assert t[..i] == t;
    } else {
      if Accepted(t) { AcceptedIsShort(t); }
      ScanLength(t[..i]);
      if dots == 3 { TotalOfThree(Scan(t[..i]).done); }
    }
  }

  /** The second loop. */
  method Evaluate(s: CString, len: nat) returns (r: Addr)
    requires len <= |s| && Accepted(s[..len])
    ensures r == Result(s[..len])
  {
    ghost var t: string := s[..len];
    ScanDigits(t);
    AcceptedIsShort(t);
    var val, i, tmp := 0, 0, 0;
    while i < len
      invariant i <= len
      invariant Legal(t[..i]) && DigitParts(Scan(t[..i]))
      invariant i < len ==> val == Fold(Scan(t[..i]).done) && tmp == Value(Scan(t[..i]).cur)
      invariant i == len > 0 ==> val == Fold(Pushed(t))
    {
      ghost var before := Scan(t[..i]);
      ScanSnoc(t, i);
      ScanDigits(t[..i + 1]);
      if s[i] != '.' {
        assert t[i] == s[i] && IsDigit(s[i]);
        ValueSnoc(before.cur, s[i]);
        tmp := tmp * 10;
        tmp := tmp + (s[i] as int - '0' as int);
      }
      if s[i] == '.' || i == len - 1 {
        FoldSnoc(before.done, if s[i] == '.' then before.cur else Scan(t[..i + 1]).cur);
        val := Push(val, tmp);
        tmp := 0;
      }
      i := i + 1;
      if i == len { assert t[..i] == t; }
    }
    PushedParts(t);
    ScanLength(t);
    r := NetworkBytes(val);
  }

  function CutToFit(text: string, size: nat): string
    requires size > 0
  {
    if |text| < size then text else text[..size - 1]
  }

  /** snprintf("%d.%d.%d.%d"), cut to the buffer. */
  method InetNtoa(a: Addr) returns (buf: string)
    ensures buf == Dotted([Shortest(a.b0), Shortest(a.b1), Shortest(a.b2), Shortest(a.b3)])
    ensures |buf| < INET_ADDRSTRLEN
  {
    var text := Shortest(a.b0) + "." + Shortest(a.b1) + "." + Shortest(a.b2) + "." + Shortest(a.b3);
    ByteWidth(a.b0);
    ByteWidth(a.b1);
    ByteWidth(a.b2);
    ByteWidth(a.b3);
    buf := CutToFit(text, INET_ADDRSTRLEN);
  }

  lemma ByteWidth(b: Byte)
    ensures 1 <= |Shortest(b)| <= 3
  {
    assert Pow10(3) == 1000;
    WidthIsLeast(b, 3);
  }

  // ---------------------------------------------------------------- the two together

  function Dotted(parts: seq<string>): string
    requires |parts| == 4
  {
    parts[0] + "." + parts[1] + "." + parts[2] + "." + parts[3]
  }

  /** A dotted quad: four parts of one to three digits. */
  ghost predicate Quad(parts: seq<string>) {
    |parts| == 4 && forall i :: 0 <= i < 4 ==> 1 <= |parts[i]| <= 3 && AllDigits(parts[i])
  }

  lemma {:induction false} ScanPart(t: string, p: string)
    requires AllDigits(p)
    ensures Scan(t + p) == Scan(t).(cur := Scan(t).cur + p)
    decreases |p|
  {
    if p == [] {
      assert t + p == t;
      assert Scan(t).cur + p == Scan(t).cur;
    } else {
      var front := p[..|p| - 1];
      ScanPart(t, front);
      assert (t + p)[..|t + p| - 1] == t + front;
      assert p == front + [p[|p| - 1]];
      assert Scan(t).cur + front + [p[|p| - 1]] == Scan(t).cur + p;
    }
  }

  lemma ScanDot(t: string)
    ensures Scan(t + ".") == Scanned(Scan(t).done + [Scan(t).cur], [])
  {
    assert (t + ".")[..|t|] == t;
  }

  /** A part and its dot after parts already ended. */
  lemma ScanPartDot(t: string, p: string, done: seq<string>)
    requires AllDigits(p) && Scan(t) == Scanned(done, [])
    ensures Scan(t + p + ".") == Scanned(done + [p], [])
  {
    ScanPart(t, p);
    ScanDot(t + p);
    assert [] + p == p;
  }

  /** A dotted text whose last part may be missing. */
  ghost predicate Dottable(parts: seq<string>) {
    && |parts| == 4 && IsPart(parts[0]) && IsPart(parts[1]) && IsPart(parts[2])
    && |parts[3]| <= 3 && AllDigits(parts[3])
  }

  lemma ScanQuad(parts: seq<string>)
    requires Dottable(parts)
    ensures Scan(Dotted(parts)) == Scanned(parts[..3], parts[3])
  {
    var a := parts[0] + ".";
    var b := a + parts[1] + ".";
    var c := b + parts[2] + ".";
    assert [] + parts[0] + "." == a;
    ScanPartDot([], parts[0], []);
    ScanPartDot(a, parts[1], [parts[0]]);
    ScanPartDot(b, parts[2], [parts[0]] + [parts[1]]);
    ScanPart(c, parts[3]);
    assert [] + parts[3] == parts[3];
    assert [parts[0]] + [parts[1]] + [parts[2]] == parts[..3];
  }

  /** A dotted text is accepted exactly when it has four digits or more. */
  lemma DottedAcceptedExactly(parts: seq<string>)
    requires Dottable(parts)
    ensures Accepted(Dotted(parts)) <==> |parts[0]| + |parts[1]| + |parts[2]| + |parts[3]| >= 4
    ensures Pushed(Dotted(parts)) == if parts[3] == [] then parts[..3] else parts
  {
    ScanQuad(parts);
    TotalOfThree(parts[..3]);
    assert parts[..3] + [parts[3]] == parts;
  }

  lemma QuadAccepted(parts: seq<string>)
    requires Quad(parts)
    ensures Accepted(Dotted(parts)) && Pushed(Dotted(parts)) == parts
  {
    DottedAcceptedExactly(parts);
  }

  lemma FoldOfFour(parts: seq<string>)
    requires Quad(parts)
    ensures Fold(parts) == Push(Push(Push(Push(0, Value(parts[0])), Value(parts[1])), Value(parts[2])), Value(parts[3]))
  {
    var a, b, c, d := parts[0], parts[1], parts[2], parts[3];
    FoldSnoc([], a);
    FoldSnoc([a], b);
    FoldSnoc([a, b], c);
    FoldSnoc([a, b, c], d);
    assert [] + [a] == [a] && [a] + [b] == [a, b] && [a, b] + [c] == [a, b, c] && [a, b, c] + [d] == parts;
  }

  ghost predicate SaysParts(r: Addr, parts: seq<string>)
    requires Quad(parts)
  {
    r.b0 == Value(parts[0]) && r.b1 == Value(parts[1]) && r.b2 == Value(parts[2]) && r.b3 == Value(parts[3])
  }

  /** The bytes of every dotted quad: a part above 255 is not refused, its high bits are or-ed into the
      byte before it. */
  lemma OversizedPartSpills(parts: seq<string>)
    requires Quad(parts)
    ensures Accepted(Dotted(parts))
    ensures Result(Dotted(parts)) ==
            Addr(Spilled(Value(parts[0]), Value(parts[1])), Spilled(Value(parts[1]), Value(parts[2])),
                 Spilled(Value(parts[2]), Value(parts[3])), Value(parts[3]) % 256)
  {
    QuadAccepted(parts);
    PushedParts(Dotted(parts));
    FoldOfFour(parts);
    ThreeDigits(parts[0]);
    ThreeDigits(parts[1]);
    ThreeDigits(parts[2]);
    ThreeDigits(parts[3]);
    PushFour(Value(parts[0]), Value(parts[1]), Value(parts[2]), Value(parts[3]));
  }

  /** Every dotted quad gives its parts as the bytes exactly when no part is above 255. */
  lemma QuadGivesItsBytesExactly(parts: seq<string>)
    requires Quad(parts)
    ensures SaysParts(Result(Dotted(parts)), parts) <==> forall i :: 0 <= i < 4 ==> Value(parts[i]) <= 255
    ensures Accepted(Dotted(parts))
  {
    OversizedPartSpills(parts);
    if forall i :: 0 <= i < 4 ==> Value(parts[i]) <= 255 {
      NothingSpills(Value(parts[0]), Value(parts[1]));
      NothingSpills(Value(parts[1]), Value(parts[2]));
      NothingSpills(Value(parts[2]), Value(parts[3]));
    }
  }

  lemma NothingSpills(v: Byte, next: Byte)
    ensures Spilled(v, next) == v
  {
    OrNothing(v);
  }

  /** Or, and not a sum: whatever stands for 0.0.1.256 is read as 0.0.1.0. */
  lemma SpillIsNoCarry(parts: seq<string>)
    requires Quad(parts) && Value(parts[0]) == Value(parts[1]) == 0 && Value(parts[2]) == 1 && Value(parts[3]) == 256
    ensures Result(Dotted(parts)) == Addr(0, 0, 1, 0)
  {
    OversizedPartSpills(parts);
    assert Or(1, 1) == 1;
  }

  function EachWithDot(parts: seq<string>): string {
    if parts == [] then [] else EachWithDot(parts[..|parts| - 1]) + parts[|parts| - 1] + "."
  }

  lemma {:induction false} Rejoin(t: string)
    ensures t == EachWithDot(Scan(t).done) + Scan(t).cur
    decreases |t|
  {
    if t != [] {
      var front, c := Scan(t[..|t| - 1]), t[|t| - 1];
      Rejoin(t[..|t| - 1]);
      assert t == t[..|t| - 1] + [c];
      RejoinSnoc(front.done, front.cur, c);
    }
  }

  lemma RejoinSnoc(done: seq<string>, cur: string, c: char)
    ensures EachWithDot(done) + cur + [c] == EachWithDot(done) + (cur + [c])
    ensures c == '.' ==> EachWithDot(done) + cur + [c] == EachWithDot(done + [cur]) + []
  {
    assert (done + [cur])[..|done|] == done;
  }

  lemma RejoinThree(a: string, b: string, c: string, d: string)
    ensures EachWithDot([a, b, c]) + d == Dotted([a, b, c, d])
  {
    assert [a][..0] == [] && [a, b][..1] == [a] && [a, b, c][..2] == [a, b];
    assert EachWithDot([]) + a + "." == a + ".";
    assert EachWithDot([a]) == a + ".";
    assert EachWithDot([a, b]) == a + "." + b + ".";
  }

  /** Three parts of at least four digits in all, and a dot after the last of them. */
  ghost predicate ThreeAndDot(parts: seq<string>) {
    Dottable(parts) && parts[3] == [] && |parts[0]| + |parts[1]| + |parts[2]| >= 4
  }

  /** Three parts with a dot after them land one byte too low. */
  lemma ThreeAndDotBytes(parts: seq<string>)
    requires ThreeAndDot(parts)
    ensures Accepted(Dotted(parts)) && Value(parts[0]) < 1000
    ensures Result(Dotted(parts)) ==
            Addr(Value(parts[0]) / 256, Spilled(Value(parts[0]), Value(parts[1])), Spilled(Value(parts[1]), Value(parts[2])),
                 Value(parts[2]) % 256)
  {
    DottedAcceptedExactly(parts);
    PushedParts(Dotted(parts));
    FoldOfThree(parts[..3]);
    ThreeDigits(parts[0]);
    ThreeDigits(parts[1]);
    ThreeDigits(parts[2]);
    PushThree(Value(parts[0]), Value(parts[1]), Value(parts[2]));
  }

  lemma PushThree(v0: nat, v1: nat, v2: nat)
    requires v0 < 1000 && v1 < 1000 && v2 < 1000
    ensures var w := Push(Push(Push(0, v0), v1), v2);
            w < U32 && NetworkBytes(w) == Addr(v0 / 256, Spilled(v0, v1), Spilled(v1, v2), v2 % 256)
  {
    PushFour(0, v0, v1, v2);
    ZeroInFront(v0);
  }

  lemma ZeroInFront(v: nat)
    requires v < 1000
    ensures Push(0, 0) == 0 && Spilled(0, v) == v / 256
  {
    OrNothing(v / 256);
    OrNothing(0);
  }

  lemma FoldOfThree(parts: seq<string>)
    requires |parts| == 3 && IsPart(parts[0]) && IsPart(parts[1]) && IsPart(parts[2])
    ensures Fold(parts) == Push(Push(Push(0, Value(parts[0])), Value(parts[1])), Value(parts[2]))
  {
    var a, b, c := parts[0], parts[1], parts[2];
    FoldSnoc([], a);
    FoldSnoc([a], b);
    FoldSnoc([a, b], c);
    assert [] + [a] == [a] && [a] + [b] == [a, b] && [a, b] + [c] == parts;
  }

  lemma AcceptedTexts(t: string) returns (parts: seq<string>)
    requires Accepted(t)
    ensures |parts| == 4 && t == Dotted(parts) && (Quad(parts) || ThreeAndDot(parts))
  {
    var s := Scan(t);
    ScanDigits(t);
    Rejoin(t);
    RejoinThree(s.done[0], s.done[1], s.done[2], s.cur);
    assert s.done == [s.done[0], s.done[1], s.done[2]];
    TotalOfThree(s.done);
    parts := [s.done[0], s.done[1], s.done[2], s.cur];
    if s.cur != [] { QuadOf(parts[0], parts[1], parts[2], parts[3]); }
  }

  /** All that is accepted: dotted quads, and three parts of at least four digits in all with a dot
      after them. */
  lemma AcceptedExactly(t: string)
    ensures Accepted(t) <==>
            || (exists parts :: Quad(parts) && t == Dotted(parts))
            || (exists parts :: ThreeAndDot(parts) && t == Dotted(parts))
  {
    if Accepted(t) { var parts := AcceptedTexts(t); }
    if parts :| Quad(parts) && t == Dotted(parts) { QuadAccepted(parts); }
    if parts :| ThreeAndDot(parts) && t == Dotted(parts) { DottedAcceptedExactly(parts); }
  }

  /** A quad followed by the end of the string or by white space is read without what follows. */
  lemma FieldOfQuad(parts: seq<string>, s: CString)
    requires Quad(parts) && |Dotted(parts)| <= |s| && s[..|Dotted(parts)|] == Dotted(parts)
    requires |s| == |Dotted(parts)| || IsSpace(s[|Dotted(parts)|])
    ensures s[..FieldEnd(s, 0)] == Dotted(parts)
  {
    var t := Dotted(parts);
    forall i | 0 <= i < |t| ensures !IsSpace(s[i]) {
      QuadAccepted(parts);
      assert s[i] == t[i];
    }
    assert FieldEnd(s, 0) == |t|;
  }

  /** inet_addr undoes inet_ntoa. */
  lemma AddrUndoesNtoa(a: Addr)
    ensures Result(Dotted([Shortest(a.b0), Shortest(a.b1), Shortest(a.b2), Shortest(a.b3)])) == a
  {
    var parts := PartsOf(a);
    BytesGivenBack(a, parts);
  }

  lemma BytesGivenBack(a: Addr, parts: seq<string>)
    requires Quad(parts) && SaysParts(a, parts)
    ensures Result(Dotted(parts)) == a
  {
    QuadGivesItsBytesExactly(parts);
  }

  lemma PartsOf(a: Addr) returns (parts: seq<string>)
    ensures parts == [Shortest(a.b0), Shortest(a.b1), Shortest(a.b2), Shortest(a.b3)]
    ensures Quad(parts) && SaysParts(a, parts)
  {
    ShortByte(a.b0);
    ShortByte(a.b1);
    ShortByte(a.b2);
    ShortByte(a.b3);
    parts := FourParts(a, Shortest(a.b0), Shortest(a.b1), Shortest(a.b2), Shortest(a.b3));
  }

  lemma FourParts(a: Addr, p: string, q: string, r: string, s: string) returns (parts: seq<string>)
    requires IsPart(p) && IsPart(q) && IsPart(r) && IsPart(s)
    requires Value(p) == a.b0 && Value(q) == a.b1 && Value(r) == a.b2 && Value(s) == a.b3
    ensures parts == [p, q, r, s] && Quad(parts) && SaysParts(a, parts)
  {
    parts := [p, q, r, s];
    QuadOf(p, q, r, s);
  }

  ghost predicate IsPart(p: string) { 1 <= |p| <= 3 && AllDigits(p) }

  lemma ShortByte(b: Byte)
    ensures IsPart(Shortest(b)) && Value(Shortest(b)) == b
  {
    ByteWidth(b);
    ShortestReadsBack(b);
  }

  lemma QuadOf(a: string, b: string, c: string, d: string)
    requires IsPart(a) && IsPart(b) && IsPart(c) && IsPart(d)
    ensures Quad([a, b, c, d])
  {}

  lemma QuadIsText(parts: seq<string>, s: string)
    requires Quad(parts) && s == Dotted(parts)
    ensures forall i :: 0 <= i < |s| ==> IsDigit(s[i]) || s[i] == '.'
  {
    QuadAccepted(parts);
  }

  /** The two calls in a row. */
  method PrintAndRead(a: Addr) returns (r: Addr)
    ensures r == a
  {
    var buf := InetNtoa(a);
    ghost var parts := PartsOf(a);
    QuadIsText(parts, buf);
    FieldOfQuad(parts, buf);
    AddrUndoesNtoa(a);
    r := InetAddr(Some(buf));
  }
}
