/** The output of strfmon as a reader sees it: where the sign, the digits, the point and the padding
    stand, and what the digits on either side of the point say. */
module StrfmonText {
  import opened Ctype
  import opened Decimal
  import opened Strfmon

  /** The pieces of an output: how often the fill stands in front, how often the numeric fill, the digits
      before and after the point, how often the fill stands behind. */
  datatype Pieces = Pieces(front: nat, fill: nat, whole: string, part: string, back: nat)

  function Places(spec: Spec): nat { if spec.rightPrecision >= 0 then spec.rightPrecision else 2 }

  function Opening(spec: Spec, negative: bool): string {
    match (negative, spec.useParens, spec.forceSign)
    case (true, true, _) => "("
    case (true, false, _) => "-"
    case (false, _, true) => "+"
    case (false, _, false) => if spec.leftPrecision > 0 then " " else ""
  }

  function Closing(spec: Spec, negative: bool): string {
    if spec.useParens && negative then ")" else ""
  }

  function Point(spec: Spec): string { if Places(spec) > 0 then "." else "" }

  /** The pieces in their order. */
  function Ahead(spec: Spec, negative: bool, q: Pieces): string {
    Repeat(spec.fillChar, q.front) + Opening(spec, negative) + Repeat(spec.numericFill, q.fill) + q.whole
  }

  function Rest(spec: Spec, negative: bool, q: Pieces): string {
    q.part + Closing(spec, negative) + Repeat(spec.fillChar, q.back)
  }

  ghost predicate Sound(spec: Spec, v: nat, q: Pieces) {
    && AllDigits(q.whole) && AllDigits(q.part) && q.whole != [] && |q.part| == Places(spec)
    && Value(q.whole) == v / Pow10(Places(spec)) && Value(q.part) == v % Pow10(Places(spec))
    && (|q.whole| > 1 ==> q.whole[0] != '0')
    && q.fill == Max(0, spec.leftPrecision - |q.whole|)
    && (if spec.leftJustify then q.front == 0 else q.back == 0)
  }

  lemma FractionIs(spec: Spec, v: nat)
    ensures Fraction(spec, v) == Point(spec) + Digits(Low(v, Places(spec)), Places(spec))
  {}

  lemma WholeIsSound(spec: Spec, v: nat)
    ensures var w := Shortest(High(v, Places(spec)));
            var p := Digits(Low(v, Places(spec)), Places(spec));
            && Value(w) == v / Pow10(Places(spec)) && Value(p) == v % Pow10(Places(spec))
            && w != [] && |p| == Places(spec) && (|w| > 1 ==> w[0] != '0')
  {
    var k := Places(spec);
    DivisionSplits(v, k);
    ShortestReadsBack(High(v, k));
    LowIsSmall(v, k);
    DigitsReadBack(Low(v, k), k);
    if High(v, k) > 0 { NoLeadingZero(High(v, k)); }
  }

  /** Every output is its pieces in order: fill, opening sign, numeric fill, whole digits, point, fraction
      digits, closing sign, fill; as many digits as asked for, and as much fill as the widths leave. */
  lemma Anatomy(spec: Spec, negative: bool, v: nat) returns (q: Pieces)
    ensures Sound(spec, v, q)
    ensures Text(spec, negative, v) == Ahead(spec, negative, q) + Point(spec) + Rest(spec, negative, q)
    ensures |Text(spec, negative, v)| >= spec.fieldWidth
    ensures q.front + q.back > 0 ==> |Text(spec, negative, v)| == spec.fieldWidth
  {
    var n := |Padding(spec, negative, v)|;
    var w := Shortest(Whole(spec, v));
    var p := Digits(Part(spec, v), Right(spec));
    q := Pieces(if spec.leftJustify then 0 else n, Indent(spec, v), w, p, if spec.leftJustify then n else 0);
    WholeIsSound(spec, v);
    InOrder(spec, negative, v, q);
  }

  lemma InOrder(spec: Spec, negative: bool, v: nat, q: Pieces)
    requires q.fill == Indent(spec, v) && q.whole == Shortest(Whole(spec, v)) && q.part == Digits(Part(spec, v), Right(spec))
    requires var n := |Padding(spec, negative, v)|; if spec.leftJustify then q.front == 0 && q.back == n else q.front == n && q.back == 0
    ensures Text(spec, negative, v) == Ahead(spec, negative, q) + Point(spec) + Rest(spec, negative, q)
  {
    FractionIs(spec, v);
    var a, z := Repeat(spec.fillChar, q.front), Repeat(spec.fillChar, q.back);
    var open, fill, close := Opening(spec, negative), Repeat(spec.numericFill, q.fill), Closing(spec, negative);
    assert Text(spec, negative, v) == a + (Amount(spec, negative, v) + z);
    Regrouped(a, open, fill, q.whole, Point(spec), q.part, close, z);
  }

  lemma Regrouped(a: string, b: string, c: string, d: string, e: string, f: string, g: string, z: string)
    ensures a + ((b + c + d + (e + f) + g) + z) == (a + b + c + d) + e + (f + g + z)
  {}

  // ---------------------------------------------------------------- how often a character occurs

  function Count(s: string, c: char): nat {
    if s == [] then 0 else Count(s[..|s| - 1], c) + if s[|s| - 1] == c then 1 else 0
  }

  lemma {:induction false} CountConcat(s: string, t: string, c: char)
    ensures Count(s + t, c) == Count(s, c) + Count(t, c)
    decreases |t|
  {
    if t == [] {
      assert s + t == s;
    } else {
      CountConcat(s, t[..|t| - 1], c);
      assert (s + t)[..|s + t| - 1] == s + t[..|t| - 1];
    }
  }

  lemma {:induction false} CountNone(s: string, c: char)
    requires forall i :: 0 <= i < |s| ==> s[i] != c
    ensures Count(s, c) == 0
    decreases |s|
  {
    if s != [] { CountNone(s[..|s| - 1], c); }
  }

  lemma CountAhead(spec: Spec, negative: bool, q: Pieces, c: char)
    requires !IsDigit(c) && spec.fillChar != c && spec.numericFill != c && AllDigits(q.whole)
    ensures Count(Ahead(spec, negative, q), c) == Count(Opening(spec, negative), c)
  {
    var a, b, d := Repeat(spec.fillChar, q.front), Opening(spec, negative), Repeat(spec.numericFill, q.fill);
    CountConcat(a, b, c);
    CountConcat(a + b, d, c);
    CountConcat(a + b + d, q.whole, c);
    CountNone(a, c);
    CountNone(d, c);
    CountNone(q.whole, c);
  }

  lemma CountBehind(spec: Spec, negative: bool, q: Pieces, c: char)
    requires !IsDigit(c) && spec.fillChar != c && AllDigits(q.part)
    ensures Count(Rest(spec, negative, q), c) == Count(Closing(spec, negative), c)
  {
    var z := Repeat(spec.fillChar, q.back);
    CountConcat(q.part, Closing(spec, negative), c);
    CountConcat(q.part + Closing(spec, negative), z, c);
    CountNone(q.part, c);
    CountNone(z, c);
  }

  /** Apart from digits and fills, only the signs and the point occur. */
  lemma CountInText(spec: Spec, negative: bool, v: nat, c: char)
    requires !IsDigit(c) && spec.fillChar != c && spec.numericFill != c
    ensures Count(Text(spec, negative, v), c)
            == Count(Opening(spec, negative), c) + Count(Point(spec), c) + Count(Closing(spec, negative), c)
  {
    var q := Anatomy(spec, negative, v);
    CountAhead(spec, negative, q, c);
    CountBehind(spec, negative, q, c);
    CountConcat(Ahead(spec, negative, q), Point(spec), c);
    CountConcat(Ahead(spec, negative, q) + Point(spec), Rest(spec, negative, q), c);
  }

  lemma CountOne(x: char, c: char)
    ensures Count([x], c) == if x == c then 1 else 0
  {
    assert [x][..0] == [];
  }

  /** There is one point exactly when fraction digits are asked for. */
  lemma OnePoint(spec: Spec, negative: bool, v: nat)
    requires spec.fillChar != '.' && spec.numericFill != '.'
    ensures Count(Text(spec, negative, v), '.') == if spec.rightPrecision == 0 then 0 else 1
  {
    CountInText(spec, negative, v, '.');
    CountOne('.', '.');
    CountNone(Opening(spec, negative), '.');
    CountNone(Closing(spec, negative), '.');
  }

  /** A minus stands for a negative amount without parentheses, a plus for a forced sign of one that is
      not negative, parentheses for a negative amount with them; none of them otherwise. */
  lemma SignsOccur(spec: Spec, negative: bool, v: nat, c: char)
    requires c == '-' || c == '+' || c == '(' || c == ')'
    requires spec.fillChar != c && spec.numericFill != c
    ensures Count(Text(spec, negative, v), c) ==
            if (c == '-' && negative && !spec.useParens) || (c == '+' && !negative && spec.forceSign)
               || ((c == '(' || c == ')') && negative && spec.useParens) then 1 else 0
  {
    CountInText(spec, negative, v, c);
    CountPoint(spec, c);
    CountSigns(spec, negative, c);
  }

  lemma CountPoint(spec: Spec, c: char)
    requires c != '.'
    ensures Count(Point(spec), c) == 0
  {
    CountSign(Point(spec), c);
  }

  ghost predicate Stands(spec: Spec, negative: bool, c: char) {
    if c == '-' then negative && !spec.useParens
    else if c == '+' then !negative && spec.forceSign
    else negative && spec.useParens
  }

  lemma CountSigns(spec: Spec, negative: bool, c: char)
    requires c == '-' || c == '+' || c == '(' || c == ')'
    ensures Count(Opening(spec, negative), c) == if Stands(spec, negative, c) && c != ')' then 1 else 0
    ensures Count(Closing(spec, negative), c) == if Stands(spec, negative, c) && c == ')' then 1 else 0
  {
    CountSign(Opening(spec, negative), c);
    CountSign(Closing(spec, negative), c);
  }

  lemma CountSign(s: string, c: char)
    requires |s| <= 1
    ensures Count(s, c) == if s == [c] then 1 else 0
  {
    if s != [] {
      assert s == [s[0]];
      CountOne(s[0], c);
    }
  }

  // ---------------------------------------------------------------- reading an output

  /** What stands before the first point, and behind it. */
  function BeforePoint(s: string): string {
    if s == [] || s[0] == '.' then [] else [s[0]] + BeforePoint(s[1..])
  }

  function AfterPoint(s: string): string {
    if s == [] then [] else if s[0] == '.' then s[1..] else AfterPoint(s[1..])
  }

  lemma {:induction false} SplitAtPoint(a: string, b: string)
    requires forall i :: 0 <= i < |a| ==> a[i] != '.'
    ensures BeforePoint(a + "." + b) == a && AfterPoint(a + "." + b) == b
    decreases |a|
  {
    if a == [] {
      assert a + "." + b == "." + b;
      assert ("." + b)[1..] == b;
    } else {
      assert (a + "." + b)[1..] == a[1..] + "." + b;
      SplitAtPoint(a[1..], b);
      assert a == [a[0]] + a[1..];
    }
  }

  /** Fills that a reader does not take for digits or a point: no digit, or zeros in front. */
  ghost predicate Legible(spec: Spec) {
    && spec.fillChar != '.' && spec.numericFill != '.'
    && (!IsDigit(spec.numericFill) || spec.numericFill == '0')
    && (!IsDigit(spec.fillChar) || (spec.fillChar == '0' && !spec.leftJustify))
  }

  lemma NoPointAhead(spec: Spec, negative: bool, q: Pieces)
    requires Legible(spec) && AllDigits(q.whole)
    ensures forall i :: 0 <= i < |Ahead(spec, negative, q)| ==> Ahead(spec, negative, q)[i] != '.'
  {}

  lemma ZerosInFront(c: char, n: nat, s: string)
    requires AllDigits(s) && (!IsDigit(c) || c == '0')
    ensures Value(FillDigits(c, n) + s) == Value(s)
  {
    FillReadsAsNothing(c, n);
    InFront(FillDigits(c, n), s);
  }

  lemma DigitsInFour(a: string, b: string, c: string, d: string)
    requires DigitsIn(b) == []
    ensures DigitsIn(a + b + c + d) == DigitsIn(a) + (DigitsIn(c) + DigitsIn(d))
  {
    DigitsInConcat(a, b);
    DigitsInConcat(a + b, c);
    DigitsInConcat(a + b + c, d);
  }

  lemma NoDigitsInOpening(spec: Spec, negative: bool)
    ensures DigitsIn(Opening(spec, negative)) == []
  {
    DigitsInSigns(spec, negative);
    assert Opening(spec, negative) == Lead(spec, negative);
  }

  lemma DigitsAhead(spec: Spec, negative: bool, q: Pieces)
    requires Legible(spec) && AllDigits(q.whole)
    ensures Value(DigitsIn(Ahead(spec, negative, q))) == Value(q.whole)
  {
    NoDigitsInOpening(spec, negative);
    DigitsInFour(Repeat(spec.fillChar, q.front), Opening(spec, negative), Repeat(spec.numericFill, q.fill), q.whole);
    DigitsInRepeat(spec.fillChar, q.front);
    DigitsInRepeat(spec.numericFill, q.fill);
    DigitsInDigits(q.whole);
    ZerosInFront(spec.numericFill, q.fill, q.whole);
    ZerosInFront(spec.fillChar, q.front, FillDigits(spec.numericFill, q.fill) + q.whole);
  }

  lemma DigitsBehind(spec: Spec, negative: bool, q: Pieces)
    requires Legible(spec) && AllDigits(q.part) && (!spec.leftJustify ==> q.back == 0)
    ensures DigitsIn(Rest(spec, negative, q)) == q.part
  {
    var z := Repeat(spec.fillChar, q.back);
    DigitsInConcat(q.part, Closing(spec, negative));
    DigitsInConcat(q.part + Closing(spec, negative), z);
    DigitsInRepeat(spec.fillChar, q.back);
    DigitsInDigits(q.part);
    assert DigitsIn(Closing(spec, negative)) == [];
  }

  /** What a reader makes of an output: the digits before the point are the whole part of the amount, and
      behind it stand exactly the fraction digits asked for, and they are the rest. */
  lemma PointSeparates(spec: Spec, negative: bool, v: nat)
    requires Legible(spec) && spec.rightPrecision != 0
    ensures var text := Text(spec, negative, v);
            && Value(DigitsIn(BeforePoint(text))) == v / Pow10(Places(spec))
            && |DigitsIn(AfterPoint(text))| == Places(spec)
            && Value(DigitsIn(AfterPoint(text))) == v % Pow10(Places(spec))
  {
    var q := Anatomy(spec, negative, v);
    NoPointAhead(spec, negative, q);
    SplitAtPoint(Ahead(spec, negative, q), Rest(spec, negative, q));
    DigitsAhead(spec, negative, q);
    DigitsBehind(spec, negative, q);
  }
}
