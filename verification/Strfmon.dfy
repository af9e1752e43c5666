/** The money printer of lib/posix/c_lib_ext/strfmon.c, from the rounded amount onward: a value given
    as a whole number of its smallest fraction is written into a buffer of limited room. */
module Strfmon {
  import opened Ctype
  import opened Decimal

  /** A conversion specification; -1 for an absent precision. */
  datatype Spec = Spec(
    leftJustify: bool,
    forceSign: bool,
    useParens: bool,
    fillChar: char,
    numericFill: char,
    fieldWidth: int,
    leftPrecision: int,
    rightPrecision: int)

  // ---------------------------------------------------------------- the text a conversion stands for

  function Max(a: int, b: int): int { if a < b then b else a }

  function Repeat(c: char, n: nat): (s: string)
    ensures |s| == n && forall i :: 0 <= i < n ==> s[i] == c
  {
    if n == 0 then [] else Repeat(c, n - 1) + [c]
  }

  /** The number of fraction digits. */
  function Right(spec: Spec): nat {
    if spec.rightPrecision < 0 then 2 else spec.rightPrecision
  }

  function Lead(spec: Spec, negative: bool): string {
    if negative then (if spec.useParens then "(" else "-")
    else if spec.forceSign then "+"
    else if spec.leftPrecision > 0 then " "
    else ""
  }

  function Trail(spec: Spec, negative: bool): string {
    if negative && spec.useParens then ")" else ""
  }

  /** The whole part of an amount, and its fraction. */
  function Whole(spec: Spec, v: nat): nat { High(v, Right(spec)) }

  function Part(spec: Spec, v: nat): nat { Low(v, Right(spec)) }

  function Indent(spec: Spec, v: nat): nat { Max(0, spec.leftPrecision - Width(Whole(spec, v))) }

  function Fraction(spec: Spec, v: nat): string {
    if Right(spec) == 0 then "" else "." + Digits(Part(spec, v), Right(spec))
  }

  function Amount(spec: Spec, negative: bool, v: nat): string {
    Lead(spec, negative) + Repeat(spec.numericFill, Indent(spec, v)) + Shortest(Whole(spec, v))
    + Fraction(spec, v) + Trail(spec, negative)
  }

  function Padding(spec: Spec, negative: bool, v: nat): string {
    Repeat(spec.fillChar, Max(0, spec.fieldWidth - |Amount(spec, negative, v)|))
  }

  function Text(spec: Spec, negative: bool, v: nat): string {
    if spec.leftJustify then Amount(spec, negative, v) + Padding(spec, negative, v)
    else Padding(spec, negative, v) + Amount(spec, negative, v)
  }

  // ---------------------------------------------------------------- what the text says

  function DigitsIn(s: string): (t: string)
    ensures AllDigits(t)
  {
    if s == [] then []
    else if IsDigit(s[|s| - 1]) then DigitsIn(s[..|s| - 1]) + [s[|s| - 1]]
    else DigitsIn(s[..|s| - 1])
  }

  lemma {:induction false} DigitsInConcat(s: string, t: string)
    ensures DigitsIn(s + t) == DigitsIn(s) + DigitsIn(t)
    decreases |t|
  {
    if t == [] {
      assert s + t == s;
    } else {
      DigitsInConcat(s, t[..|t| - 1]);
      assert (s + t)[..|s + t| - 1] == s + t[..|t| - 1];
    }
  }

  lemma {:induction false} DigitsInDigits(s: string)
    requires AllDigits(s)
    ensures DigitsIn(s) == s
    decreases |s|
  {
    if s != [] {
      DigitsInDigits(s[..|s| - 1]);
      assert s == s[..|s| - 1] + [s[|s| - 1]];
    }
  }

  lemma {:induction false} DigitsInRepeat(c: char, n: nat)
    ensures DigitsIn(Repeat(c, n)) == if IsDigit(c) then Repeat(c, n) else []
  {
    if n > 0 {
      DigitsInRepeat(c, n - 1);
      assert Repeat(c, n)[..n - 1] == Repeat(c, n - 1);
    }
  }

  /** The digits before and after the point, read as one number, are the value; there are exactly as
      many after the point as asked for, and none to spare before it. */
  lemma DigitsSayTheValue(spec: Spec, v: nat)
    ensures Value(Shortest(Whole(spec, v)) + Digits(Part(spec, v), Right(spec))) == v
    ensures |Digits(Part(spec, v), Right(spec))| == Right(spec)
    ensures Whole(spec, v) > 0 ==> Shortest(Whole(spec, v))[0] != '0'
    ensures Whole(spec, v) == 0 ==> Shortest(Whole(spec, v)) == "0"
  {
    SplitReadsBack(v, Right(spec));
    if Whole(spec, v) > 0 { NoLeadingZero(Whole(spec, v)); }
  }

  /** The fills that a reader of digits does not mistake for part of the number: none at all, no digit,
      or zeros in front. */
  ghost predicate HarmlessFill(spec: Spec, negative: bool, v: nat) {
    && (Indent(spec, v) == 0 || !IsDigit(spec.numericFill) || spec.numericFill == '0')
    && (Padding(spec, negative, v) == [] || !IsDigit(spec.fillChar) || (spec.fillChar == '0' && (!spec.leftJustify || v == 0)))
  }

  lemma DigitsInFraction(spec: Spec, v: nat)
    ensures DigitsIn(Fraction(spec, v)) == Digits(Part(spec, v), Right(spec))
  {
    if Right(spec) > 0 {
      DigitsInConcat(".", Digits(Part(spec, v), Right(spec)));
      DigitsInDigits(Digits(Part(spec, v), Right(spec)));
      assert DigitsIn(".") == [];
    }
  }

  lemma DigitsInSigns(spec: Spec, negative: bool)
    ensures DigitsIn(Lead(spec, negative)) == [] && DigitsIn(Trail(spec, negative)) == []
  {
    assert DigitsIn("(") == [] && DigitsIn("-") == [] && DigitsIn("+") == [] && DigitsIn(" ") == [] && DigitsIn(")") == [];
  }

  function FillDigits(c: char, n: nat): (s: string)
    ensures AllDigits(s)
  {
    if IsDigit(c) then Repeat(c, n) else []
  }

  lemma DigitsInAmount(spec: Spec, negative: bool, v: nat)
    ensures DigitsIn(Amount(spec, negative, v)) ==
            FillDigits(spec.numericFill, Indent(spec, v)) + (Shortest(Whole(spec, v)) + Digits(Part(spec, v), Right(spec)))
  {
    DigitsInSigns(spec, negative);
    DigitsInRepeat(spec.numericFill, Indent(spec, v));
    DigitsInDigits(Shortest(Whole(spec, v)));
    DigitsInFraction(spec, v);
    DigitsInFive(Lead(spec, negative), Repeat(spec.numericFill, Indent(spec, v)), Shortest(Whole(spec, v)),
                 Fraction(spec, v), Trail(spec, negative));
  }

  lemma DigitsInFive(a: string, b: string, c: string, d: string, e: string)
    requires DigitsIn(a) == [] && DigitsIn(e) == []
    ensures DigitsIn(a + b + c + d + e) == DigitsIn(b) + (DigitsIn(c) + DigitsIn(d))
  {
    DigitsInConcat(a, b);
    DigitsInConcat(a + b, c);
    DigitsInConcat(a + b + c, d);
    DigitsInConcat(a + b + c + d, e);
  }

  /** A fill reads as zero exactly when it is empty, no digit, or zeros. */
  lemma {:induction false} FillReadsAsNothing(c: char, n: nat)
    ensures Value(FillDigits(c, n)) == 0 <==> n == 0 || !IsDigit(c) || c == '0'
  {
    if n > 0 && IsDigit(c) {
      FillReadsAsNothing(c, n - 1);
      ValueSnoc(Repeat(c, n - 1), c);
    }
  }

  /** Digits in front leave the value alone exactly when they read as zero. */
  lemma InFront(fill: string, s: string)
    requires AllDigits(fill) && AllDigits(s)
    ensures Value(fill + s) >= Value(s) && (Value(fill + s) == Value(s) <==> Value(fill) == 0)
  {
    ValueConcat(fill, s);
    ProductIsZero(Pow10(|s|), Value(fill));
  }

  lemma ProductIsZero(p: nat, x: nat)
    requires p > 0
    ensures p * x >= x
  {}

  /** Digits behind a number spoil it, unless all of them are zeros behind a zero. */
  lemma Behind(s: string, fill: string, v: nat)
    requires AllDigits(fill) && AllDigits(s) && fill != [] && Value(s) >= v
    ensures Value(s + fill) == v <==> v == 0 && Value(s) == 0 && Value(fill) == 0
  {
    ValueConcat(s, fill);
    TenTimes(Pow10(|fill| - 1), Value(s));
  }

  lemma TenTimes(p: nat, x: nat)
    requires p > 0
    ensures (10 * p) * x >= 10 * x
  {}

  lemma PaddingReadsBack(spec: Spec, negative: bool, v: nat, digits: string)
    requires AllDigits(digits) && DigitsIn(Amount(spec, negative, v)) == digits && Value(digits) >= v
    ensures var n := |Padding(spec, negative, v)|; var fill := FillDigits(spec.fillChar, n);
            Value(DigitsIn(Text(spec, negative, v))) == v
            <==> Value(digits) == v && Value(fill) == 0 && (fill == [] || !spec.leftJustify || v == 0)
  {
    var pad := Padding(spec, negative, v);
    var fill := FillDigits(spec.fillChar, |pad|);
    DigitsInRepeat(spec.fillChar, |pad|);
    if spec.leftJustify {
      DigitsInConcat(Amount(spec, negative, v), pad);
      if fill == [] {
        assert digits + fill == digits;
      } else {
        Behind(digits, fill, v);
      }
    } else {
      DigitsInConcat(pad, Amount(spec, negative, v));
      InFront(fill, digits);
    }
  }

  /** A conversion can be read back, its digits in order being the value, exactly when its fills are
      harmless. */
  lemma TextReadsBackExactly(spec: Spec, negative: bool, v: nat)
    ensures Value(DigitsIn(Text(spec, negative, v))) == v <==> HarmlessFill(spec, negative, v)
  {
    var digits := Shortest(Whole(spec, v)) + Digits(Part(spec, v), Right(spec));
    var inner := FillDigits(spec.numericFill, Indent(spec, v));
    DigitsSayTheValue(spec, v);
    DigitsInAmount(spec, negative, v);
    InFront(inner, digits);
    FillReadsAsNothing(spec.numericFill, Indent(spec, v));
    PaddingReadsBack(spec, negative, v, inner + digits);
    FillReadsAsNothing(spec.fillChar, |Padding(spec, negative, v)|);
  }

  /** The length of the number alone, as strfmon_one adds it up. */
  function NumberLength(spec: Spec, negative: bool, v: nat): int {
    (if negative || spec.forceSign || spec.leftPrecision > 0 then 1 else 0)
    + Max(spec.leftPrecision, Width(Whole(spec, v)))
    + (if Right(spec) > 0 then 1 + Right(spec) else 0)
    + (if negative && spec.useParens then 1 else 0)
  }

  lemma TextLength(spec: Spec, negative: bool, v: nat)
    ensures |Amount(spec, negative, v)| == NumberLength(spec, negative, v)
    ensures |Text(spec, negative, v)| == Max(spec.fieldWidth, NumberLength(spec, negative, v))
  {}

  // ---------------------------------------------------------------- the printer

  const U64: nat := 0x1_0000_0000_0000_0000

  /** The output pointer and the room left, with the whole text sent so far. */
  class Out {
    const buf: array<char>
    ghost const start: nat
    ghost const limit: nat
    ghost const initial: seq<char>
    var ptr: nat
    var size: nat
    ghost var sent: string

    /** What the buffer holds is as much of the text sent as there was room for, and nothing outside
        the room given has been written. */
    ghost predicate Valid()
      reads this, buf
    {
      && |initial| == buf.Length
      && start <= ptr && ptr + size == start + limit <= buf.Length
      && ptr - start == (if |sent| < limit then |sent| else limit)
      && (forall i :: start <= i < ptr ==> buf[i] == sent[i - start])
      && (forall i :: 0 <= i < buf.Length && (i < start || ptr <= i) ==> buf[i] == initial[i])
    }

    constructor (buf: array<char>, ptr: nat, size: nat)
      requires ptr + size <= buf.Length
      ensures Valid() && this.buf == buf && this.ptr == start == ptr && this.size == limit == size
      ensures sent == [] && initial == buf[..]
    {
      this.buf, this.ptr, this.size := buf, ptr, size;
      start, limit, initial, sent := ptr, size, buf[..], [];
    }

    method PutcIfSpace(ch: char)
      requires Valid()
      modifies this`ptr, this`size, this`sent, buf
      ensures Valid() && sent == old(sent) + [ch]
    {
      sent := sent + [ch];
      if size == 0 {
        return;
      }
      buf[ptr] := ch;
      ptr := ptr + 1;
      size := size - 1;
    }

    method PutMany(ch: char, n: int)
      requires Valid()
      modifies this`ptr, this`size, this`sent, buf
      ensures Valid() && sent == old(sent) + Repeat(ch, Max(0, n))
    {
      var i := 0;
      while i < n
        invariant 0 <= i <= Max(0, n)
        invariant Valid() && sent == old(sent) + Repeat(ch, i)
      {
        PutcIfSpace(ch);
        i := i + 1;
      }
    }

    method PutWhole(n: nat, digits: nat)
      requires Valid() && n < U64 && digits == Width(n)
      modifies this`ptr, this`size, this`sent, buf
      ensures Valid() && sent == old(sent) + Shortest(n)
    {
      WidthBounds(n);
      var divisor := PowerBelow(digits);
      if n == 0 {
        PutcIfSpace('0');
        return;
      }
      ghost var i := 0;
      while divisor > 0
        invariant i <= digits
        invariant divisor == if i < digits then Pow10(digits - 1 - i) else 0
        invariant Valid() && sent == old(sent) + Shortest(n)[..i]
        decreases divisor
      {
        var d := n / divisor;
        DivisionSplits(n, digits - 1 - i);
        DigitAt(n, digits, i);
        assert Shortest(n)[..i + 1] == Shortest(n)[..i] + [Shortest(n)[i]];
        PutcIfSpace(DigitChar(d % 10));
        divisor := divisor / 10;
        i := i + 1;
      }
    }

    method PutFraction(part: nat, digits: nat)
      requires Valid() && 0 < digits <= 19 && part < Pow10(digits)
      modifies this`ptr, this`size, this`sent, buf
      ensures Valid() && sent == old(sent) + Digits(part, digits)
    {
      FitsIn64Bits(digits - 1);
      var ddiv := PowerBelow(digits);
      var cur := part;
      LowOfSmall(part, digits);
      var i := 0;
      while i < digits
        invariant i <= digits
        invariant i < digits ==> ddiv == Pow10(digits - 1 - i) && cur == Low(part, digits - i)
        invariant Valid() && sent == old(sent) + Digits(part, digits)[..i]
      {
        ghost var full := Digits(part, digits);
        TopDigit(part, digits - 1 - i);
        DigitAt(part, digits, i);
        assert full[..i + 1] == full[..i] + [full[i]];
        var digit := cur / ddiv;
        PutcIfSpace(DigitChar(digit));
        cur := cur % ddiv;
        if ddiv > 0 {
          ddiv := ddiv / 10;
        }
        i := i + 1;
      }
    }
  }

  lemma {:induction false} LowOfSmall(n: nat, k: nat)
    requires n < Pow10(k)
    ensures Low(n, k) == n
  {
    if k > 0 { LowOfSmall(n / 10, k - 1); }
  }

  /** The divisor of the first digit. */
  method PowerBelow(digits: nat) returns (divisor: nat)
    requires digits > 0 && Pow10(digits - 1) < U64
    ensures divisor == Pow10(digits - 1)
  {
    divisor := 1;
    var i := 1;
    while i < digits
      invariant 1 <= i <= digits
      invariant divisor == Pow10(i - 1)
    {
      Pow10Grows(i, digits - 1);
      divisor := divisor * 10 % U64;
      i := i + 1;
    }
  }

  method CountDigits(n: nat) returns (digits: nat)
    ensures digits == Width(n)
  {
    var t := n;
    if t == 0 {
      digits := 1;
    } else {
      digits := 0;
      while t > 0
        invariant digits + (if t > 0 then Width(t) else 0) == Width(n)
      {
        digits := digits + 1;
        t := t / 10;
      }
    }
  }

  method Scale(right: nat) returns (scale: nat)
    requires right <= 19
    ensures scale == Pow10(right)
  {
    scale := 1;
    var i := 0;
    while i < right
      invariant i <= right && scale == Pow10(i)
    {
      FitsIn64Bits(i + 1);
      scale := scale * 10 % U64;
      i := i + 1;
    }
  }

  method SplitAmount(scaled: nat, scale: nat, ghost right: nat) returns (whole: nat, part: nat)
    requires scale == Pow10(right)
    ensures whole == High(scaled, right) <= scaled && part == Low(scaled, right) < Pow10(right)
  {
    DivisionSplits(scaled, right);
    HighAndLow(scaled, right);
    whole := scaled / scale;
    part := scaled % scale;
  }

  /** How many digit places the whole part takes and how much padding the field needs. */
  method Layout(spec: Spec, negative: bool, digits: nat, right: nat, ghost scaled: nat) returns (shown: int, pad: nat)
    requires digits == Width(Whole(spec, scaled)) && right == Right(spec)
    ensures shown - digits == Indent(spec, scaled)
    ensures pad == Max(0, spec.fieldWidth - NumberLength(spec, negative, scaled))
  {
    var leftPrec := Max(spec.leftPrecision, 0);
    shown := digits;
    if leftPrec > shown {
      shown := leftPrec;
    }
    var lead, trail := 0, 0;
    if negative {
      if spec.useParens {
        lead := 1;
        trail := 1;
      } else {
        lead := 1;
      }
    } else if spec.forceSign || leftPrec > 0 {
      lead := 1;
    }
    var numberLen := lead + shown + (if right > 0 then 1 + right else 0) + trail;
    var width := Max(spec.fieldWidth, 0);
    pad := 0;
    if width > numberLen {
      pad := width - numberLen;
    }
  }

  method PutLead(out: Out, spec: Spec, negative: bool)
    requires out.Valid()
    modifies out`ptr, out`size, out`sent, out.buf
    ensures out.Valid() && out.sent == old(out.sent) + Lead(spec, negative)
  {
    if negative && spec.useParens {
      out.PutcIfSpace('(');
    } else if negative {
      out.PutcIfSpace('-');
    } else if spec.forceSign {
      out.PutcIfSpace('+');
    } else if spec.leftPrecision > 0 {
      out.PutcIfSpace(' ');
    }
  }

  method PutTail(out: Out, spec: Spec, negative: bool, part: nat, right: nat, ghost scaled: nat)
    requires out.Valid() && right == Right(spec) <= 19 && part == Part(spec, scaled) < Pow10(right)
    modifies out`ptr, out`size, out`sent, out.buf
    ensures out.Valid() && out.sent == old(out.sent) + Fraction(spec, scaled) + Trail(spec, negative)
  {
    if right > 0 {
      out.PutcIfSpace('.');
      out.PutFraction(part, right);
      Regroup(old(out.sent), ".", Digits(part, right));
    }
    assert out.sent == old(out.sent) + Fraction(spec, scaled);
    if negative && spec.useParens {
      out.PutcIfSpace(')');
    }
  }

  lemma Regroup(a: string, b: string, c: string)
    ensures a + b + c == a + (b + c)
  {}

  lemma RegroupAmount(s: string, a: string, b: string, c: string, d: string, e: string)
    ensures s + a + b + c + d + e == s + (a + b + c + d + e)
  {
    Regroup(s, a, b);
    Regroup(s, a + b, c);
    Regroup(s, a + b + c, d);
    Regroup(s, a + b + c + d, e);
  }

  /** The number itself: sign, numeric fill, digits, point and fraction, closing parenthesis. */
  method PutAmount(out: Out, spec: Spec, negative: bool, whole: nat, part: nat, digits: nat, indent: int, right: nat,
                   ghost scaled: nat)
    requires out.Valid() && right == Right(spec) <= 19 && whole < U64
    requires whole == Whole(spec, scaled) && part == Part(spec, scaled) < Pow10(right)
    requires digits == Width(whole) && indent == Indent(spec, scaled)
    modifies out`ptr, out`size, out`sent, out.buf
    ensures out.Valid() && out.sent == old(out.sent) + Amount(spec, negative, scaled)
  {
    PutLead(out, spec, negative);
    out.PutMany(spec.numericFill, indent);
    out.PutWhole(whole, digits);
    PutTail(out, spec, negative, part, right, scaled);
    RegroupAmount(old(out.sent), Lead(spec, negative), Repeat(spec.numericFill, Indent(spec, scaled)), Shortest(whole),
                  Fraction(spec, scaled), Trail(spec, negative));
  }

  /** Writes a rounded amount; `scaled` is its magnitude in units of the last fraction digit. */
  method StrfmonOne(out: Out, spec: Spec, negative: bool, scaled: nat)
    requires out.Valid() && Right(spec) <= 19 && scaled < U64
    modifies out`ptr, out`size, out`sent, out.buf
    ensures out.Valid()
    ensures out.sent == old(out.sent) + Text(spec, negative, scaled)
  {
    var right := spec.rightPrecision;
    if right < 0 {
      right := 2;
    }
    var scale := Scale(right);
    var whole, part := SplitAmount(scaled, scale, right);
    var digits := CountDigits(whole);
    var shown, pad := Layout(spec, negative, digits, right, scaled);
    TextLength(spec, negative, scaled);
    if !spec.leftJustify {
      out.PutMany(spec.fillChar, pad);
    }
    PutAmount(out, spec, negative, whole, part, digits, shown - digits, right, scaled);
    if spec.leftJustify {
      out.PutMany(spec.fillChar, pad);
      Regroup(old(out.sent), Amount(spec, negative, scaled), Padding(spec, negative, scaled));
    } else {
      Regroup(old(out.sent), Padding(spec, negative, scaled), Amount(spec, negative, scaled));
    }
  }
}
