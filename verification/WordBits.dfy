/** Machine words as natural numbers, and the C bit operations on them, for any word width. */
module WordBits {

  function Pow2(n: nat): (r: nat)
    ensures r > 0
  {
    if n == 0 then 1 else 2 * Pow2(n - 1)
  }

  predicate Bit(w: nat, i: nat) {
    if i == 0 then w % 2 == 1 else Bit(w / 2, i - 1)
  }

  /** a & b */
  function And(a: nat, b: nat): nat {
    if a == 0 || b == 0 then 0
    else 2 * And(a / 2, b / 2) + (if a % 2 == 1 && b % 2 == 1 then 1 else 0)
  }

  /** a | b */
  function Or(a: nat, b: nat): nat
    decreases a + b
  {
    if a == 0 then b else if b == 0 then a
    else 2 * Or(a / 2, b / 2) + (if a % 2 == 1 || b % 2 == 1 then 1 else 0)
  }

  /** ~w in a word of `bits` bits */
  function Not(w: nat, bits: nat): nat
    requires w < Pow2(bits)
  {
    Pow2(bits) - 1 - w
  }

  /** The number of trailing zero bits. */
  function TrailingZeros(w: nat): nat
    requires w > 0
  {
    if w % 2 == 1 then 0 else 1 + TrailingZeros(w / 2)
  }

  lemma {:induction false} BitZero(i: nat)
    ensures !Bit(0, i)
  {
    if i > 0 { BitZero(i - 1); }
  }

  lemma {:induction false} BitAnd(a: nat, b: nat, i: nat)
    ensures Bit(And(a, b), i) == (Bit(a, i) && Bit(b, i))
    decreases i
  {
    if a == 0 || b == 0 {
      BitZero(i);
    } else if i > 0 {
      BitAnd(a / 2, b / 2, i - 1);
    }
  }

  lemma {:induction false} BitOr(a: nat, b: nat, i: nat)
    ensures Bit(Or(a, b), i) == (Bit(a, i) || Bit(b, i))
    decreases i
  {
    if a == 0 || b == 0 {
      BitZero(i);
    } else if i > 0 {
      BitOr(a / 2, b / 2, i - 1);
    }
  }

  lemma {:induction false} BitPow2(n: nat, i: nat)
    ensures Bit(Pow2(n), i) == (n == i)
    decreases i
  {
    if n == 0 {
      if i > 0 { BitZero(i - 1); }
    } else if i > 0 {
      BitPow2(n - 1, i - 1);
    }
  }

  lemma {:induction false} BitNot(w: nat, bits: nat, i: nat)
    requires w < Pow2(bits) && i < bits
    ensures Bit(Not(w, bits), i) == !Bit(w, i)
    decreases i
  {
    var p := Pow2(bits - 1);
    assert Pow2(bits) == 2 * p;
    if i > 0 {
      assert w / 2 < p;
      assert Not(w, bits) / 2 == Not(w / 2, bits - 1);
      BitNot(w / 2, bits - 1, i - 1);
    }
  }

  lemma {:induction false} AndBound(a: nat, b: nat)
    ensures And(a, b) <= a && And(a, b) <= b
  {
    if a > 0 && b > 0 { AndBound(a / 2, b / 2); }
  }

  lemma {:induction false} OrBound(a: nat, b: nat, bits: nat)
    requires a < Pow2(bits) && b < Pow2(bits)
    ensures Or(a, b) < Pow2(bits)
    decreases bits
  {
    if a > 0 && b > 0 { OrBound(a / 2, b / 2, bits - 1); }
  }

  lemma {:induction false} Pow2Grows(m: nat, n: nat)
    requires m < n
    ensures Pow2(m) < Pow2(n)
    decreases n
  {
    if m < n - 1 { Pow2Grows(m, n - 1); }
  }

  lemma {:induction false} TrailingZerosIsSet(w: nat, bits: nat)
    requires 0 < w < Pow2(bits)
    ensures TrailingZeros(w) < bits && Bit(w, TrailingZeros(w))
    decreases bits
  {
    if w % 2 == 0 { TrailingZerosIsSet(w / 2, bits - 1); }
  }

  /** `w & (w - 1)` clears exactly the lowest set bit. */
  lemma {:induction false} ClearLowest(w: nat, i: nat)
    requires w > 0
    ensures Bit(And(w, w - 1), i) == (Bit(w, i) && i != TrailingZeros(w))
    ensures And(w, w - 1) < w
    decreases w
  {
    AndBound(w, w - 1);
    BitAnd(w, w - 1, i);
    if w % 2 == 1 {
      if i > 0 { assert (w - 1) / 2 == w / 2; }
    } else if i > 0 {
      assert (w - 1) / 2 == w / 2 - 1;
      ClearLowest(w / 2, i - 1);
      BitAnd(w / 2, w / 2 - 1, i - 1);
    }
  }

  /** Masking with 2^k - 1 is the remainder by 2^k. */
  lemma {:induction false} AndMask(x: nat, k: nat)
    ensures And(x, Pow2(k) - 1) == x % Pow2(k)
    decreases k
  {
    if k > 0 {
      var p := Pow2(k - 1);
      var m := Pow2(k) - 1;
      assert m / 2 == p - 1 && m % 2 == 1;
      AndMask(x / 2, k - 1);
      HalfMod(x, p);
      if p == 1 { assert And(x / 2, 0) == 0; }
    }
  }

  lemma HalfMod(x: nat, p: nat)
    requires p > 0
    ensures x % (2 * p) == 2 * (x / 2 % p) + x % 2
  {
    var q, r := x / 2 / p, x / 2 % p;
    assert x / 2 == p * q + r;
    assert x == 2 * (x / 2) + x % 2;
    assert x == (2 * p) * q + (2 * r + x % 2) by {
      assert 2 * (p * q) == (2 * p) * q;
    }
    ModUnique(x, 2 * p, q, 2 * r + x % 2);
  }

  lemma ModUnique(x: int, m: nat, q: int, r: nat)
    requires m > 0 && x == m * q + r && r < m
    ensures x % m == r && x / m == q
  {
    var q', r' := x / m, x % m;
    assert x == m * q' + r';
    assert m * (q - q') == r' - r by {
      assert m * q - m * q' == m * (q - q');
    }
    if q > q' {
      assert m * (q - q') >= m by { MulAtLeast(m, q - q'); }
    } else if q < q' {
      assert m * (q' - q) >= m by { MulAtLeast(m, q' - q); }
    }
  }

  lemma MulAtLeast(m: nat, k: int)
    requires k >= 1
    ensures m * k >= m
  {}

  lemma OrStep(a: nat, b: nat)
    ensures Or(a, b) == 2 * Or(a / 2, b / 2) + (if a % 2 == 1 || b % 2 == 1 then 1 else 0)
  {}

  lemma HalfDiv(x: nat, p: nat)
    requires p > 0
    ensures x / (2 * p) == x / 2 / p
  {
    var q, r := x / 2 / p, x / 2 % p;
    assert x / 2 == p * q + r;
    ModUnique(x, 2 * p, q, 2 * r + x % 2);
  }

  /** The high and the low bits are combined apart from each other. */
  lemma {:induction false} OrSplit(a: nat, b: nat, k: nat, p: nat)
    requires p == Pow2(k)
    ensures a / p >= 0 && b / p >= 0 && Or(a, b) == p * Or(a / p, b / p) + Or(a % p, b % p)
    decreases k
  {
    if k > 0 {
      var h := Pow2(k - 1);
      OrStep(a, b);
      OrSplit(a / 2, b / 2, k - 1, h);
      HalfDiv(a, h);
      HalfDiv(b, h);
      HalfMod(a, h);
      HalfMod(b, h);
      OrStep(a % p, b % p);
      Double(h, Or(a / p, b / p));
    }
  }

  lemma Double(p: nat, x: nat)
    ensures (2 * p) * x == 2 * (p * x)
  {}
}
