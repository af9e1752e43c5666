/** The 64-bit key that stands for a class name in a bracket expression. */
module ClassKey {
  import opened Common
  import opened Ctype
  import opened Glob

  const TWO64: nat := 0x1_0000_0000_0000_0000

  /** `key <<= 8; key |= c` on a 64-bit unsigned integer. */
  function Shift(key: nat, c: Char7): nat {
    (key * 256 + c as int) % TWO64
  }

  function Key(b: CString): nat {
    if b == [] then 0 else Shift(Key(b[..|b| - 1]), b[|b| - 1])
  }

  /** The bytes read as one number in base 256, with no width limit. */
  function Value(b: CString): nat {
    if b == [] then 0 else Value(b[..|b| - 1]) * 256 + b[|b| - 1] as int
  }

  function Pow256(n: nat): (r: nat)
    ensures r > 0
  {
    if n == 0 then 1 else 256 * Pow256(n - 1)
  }

  lemma {:induction false} ValueBound(b: CString)
    ensures Value(b) < Pow256(|b|)
  {
    if b != [] { ValueBound(b[..|b| - 1]); }
  }

  lemma {:induction false} ValuePrepend(x: Char7, b: CString)
    ensures Value([x] + b) == x as int * Pow256(|b|) + Value(b)
    decreases |b|
  {
    var s := [x] + b;
    if b != [] {
      assert s[..|s| - 1] == [x] + b[..|b| - 1];
      ValuePrepend(x, b[..|b| - 1]);
    }
  }

  /** Distinct NUL-free strings of any lengths have distinct values. */
  lemma {:induction false} ValueInjective(a: CString, b: CString)
    requires Value(a) == Value(b)
    ensures a == b
    decreases |a|
  {
    if a != [] && b != [] {
      var u, v := a[..|a| - 1], b[..|b| - 1];
      assert Value(a) % 256 == a[|a| - 1] as int && Value(b) % 256 == b[|b| - 1] as int;
      ValueInjective(u, v);
      assert a == u + [a[|a| - 1]] && b == v + [b[|b| - 1]];
    }
  }

  lemma Pow256Small()
    ensures Pow256(7) == 0x100_0000_0000_0000 && Pow256(8) == TWO64
  {
    assert Pow256(2) == 0x1_0000;
    assert Pow256(4) == 0x1_0000_0000;
    assert Pow256(6) == 0x1_0000_0000_0000;
  }

  lemma {:induction false} Pow256Monotone(m: nat, n: nat)
    requires m <= n
    ensures Pow256(m) <= Pow256(n)
    decreases n
  {
    if m < n { Pow256Monotone(m, n - 1); }
  }

  function Last8(b: CString): CString {
    if |b| <= 8 then b else b[|b| - 8..]
  }

  lemma DropMultiple(k: nat, v: nat)
    requires v < TWO64
    ensures (k * TWO64 + v) % TWO64 == v
  {}

  /** Shifting a byte into a full window drops the oldest byte. */
  lemma SlideWindow(w: CString, c: Char7)
    requires |w| == 8
    ensures Shift(Value(w), c) == Value(w[1..] + [c])
  {
    var l := w[1..] + [c];
    assert w == [w[0]] + w[1..] && l[..7] == w[1..];
    ValuePrepend(w[0], w[1..]);
    Pow256Small();
    ValueBound(l);
    assert Value(w) * 256 + c as int == w[0] as int * TWO64 + Value(l);
    DropMultiple(w[0] as int, Value(l));
  }

  /** The key is the value of the last eight bytes. */
  lemma {:induction false} KeyIsLast8(b: CString)
    ensures Key(b) == Value(Last8(b))
    decreases |b|
  {
    if b != [] {
      var u, c := b[..|b| - 1], b[|b| - 1];
      KeyIsLast8(u);
      Pow256Small();
      if |b| <= 8 {
        ValueBound(b);
        Pow256Monotone(|b|, 8);
      } else {
        SlideWindow(Last8(u), c);
        assert Last8(b) == Last8(u)[1..] + [c];
      }
    }
  }

  /** The source's FNM_CC5 and FNM_CC6 constants. */
  function Cc5(a: Char7, b: Char7, c: Char7, d: Char7, e: Char7): nat {
    a as int * 0x1_0000_0000_0000 + b as int * 0x100_0000_0000 + c as int * 0x1_0000_0000 + d as int * 0x100_0000 +
    e as int * 0x1_0000 + ':' as int * 0x100 + ']' as int
  }

  function Cc6(a: Char7, b: Char7, c: Char7, d: Char7, e: Char7, g: Char7): nat {
    a as int * 0x100_0000_0000_0000 + Cc5(b, c, d, e, g)
  }

  lemma Cc5Value(a: Char7, b: Char7, c: Char7, d: Char7, e: Char7)
    ensures Cc5(a, b, c, d, e) == Value([a, b, c, d, e, ':', ']'])
  {
    var s: CString := [a, b, c, d, e, ':', ']'];
    assert s[..6] == [a, b, c, d, e, ':'] && s[..6][..5] == [a, b, c, d, e];
    var t: CString := [a, b, c, d, e];
    assert t[..4] == [a, b, c, d] && t[..4][..3] == [a, b, c];
    var u: CString := [a, b, c];
    assert u[..2] == [a, b] && u[..2][..1] == [a] && u[..2][..1][..0] == [];
    assert Value([a]) == a as int;
    assert Value([a, b]) == a as int * 256 + b as int;
    assert Value(u) == Value([a, b]) * 256 + c as int;
    assert Value([a, b, c, d]) == Value(u) * 256 + d as int;
    assert Value(t) == Value([a, b, c, d]) * 256 + e as int;
  }

  lemma Cc6Value(a: Char7, b: Char7, c: Char7, d: Char7, e: Char7, g: Char7)
    ensures Cc6(a, b, c, d, e, g) == Value([a, b, c, d, e, g, ':', ']'])
  {
    Cc5Value(b, c, d, e, g);
    var r: CString := [b, c, d, e, g, ':', ']'];
    ValuePrepend(a, r);
    Pow256Small();
    assert [a] + r == [a, b, c, d, e, g, ':', ']'];
  }

  /** The source's switch on the key. */
  function ClassOfKey(key: nat): Option<Class> {
    if key == Cc5('a', 'l', 'n', 'u', 'm') then Some(Alnum)
    else if key == Cc5('a', 'l', 'p', 'h', 'a') then Some(Alpha)
    else if key == Cc5('b', 'l', 'a', 'n', 'k') then Some(Blank)
    else if key == Cc5('c', 'n', 't', 'r', 'l') then Some(Cntrl)
    else if key == Cc5('d', 'i', 'g', 'i', 't') then Some(Digit)
    else if key == Cc5('g', 'r', 'a', 'p', 'h') then Some(Graph)
    else if key == Cc5('l', 'o', 'w', 'e', 'r') then Some(Lower)
    else if key == Cc5('p', 'r', 'i', 'n', 't') then Some(Print)
    else if key == Cc5('p', 'u', 'n', 'c', 't') then Some(Punct)
    else if key == Cc5('s', 'p', 'a', 'c', 'e') then Some(Space)
    else if key == Cc5('u', 'p', 'p', 'e', 'r') then Some(Upper)
    else if key == Cc6('x', 'd', 'i', 'g', 'i', 't') then Some(Xdigit)
    else None
  }

  /** A five-letter key belongs to exactly one body. */
  lemma Key5Exact(body: CString, a: Char7, b: Char7, c: Char7, d: Char7, e: Char7)
    ensures Key(body) == Cc5(a, b, c, d, e) <==> body == [a, b, c, d, e, ':', ']']
  {
    var name: CString := [a, b, c, d, e, ':', ']'];
    KeyIsLast8(body);
    Cc5Value(a, b, c, d, e);
    if Key(body) == Cc5(a, b, c, d, e) { ValueInjective(Last8(body), name); }
  }

  /** The six-letter key belongs to every body that ends with it. */
  lemma Key6Exact(body: CString, a: Char7, b: Char7, c: Char7, d: Char7, e: Char7, g: Char7)
    ensures Key(body) == Cc6(a, b, c, d, e, g)
            <==> |body| >= 8 && body[|body| - 8..] == [a, b, c, d, e, g, ':', ']']
  {
    var name: CString := [a, b, c, d, e, g, ':', ']'];
    KeyIsLast8(body);
    Cc6Value(a, b, c, d, e, g);
    if Key(body) == Cc6(a, b, c, d, e, g) { ValueInjective(Last8(body), name); }
    assert |body| == 8 ==> body[0..] == body;
  }

  /** Comparing keys recognises exactly the named classes, for bodies of every length. */
  lemma KeyNamesClass(body: CString)
    ensures ClassOfKey(Key(body)) == NamedClass(body)
  {
    Key5Exact(body, 'a', 'l', 'n', 'u', 'm');
    Key5Exact(body, 'a', 'l', 'p', 'h', 'a');
    Key5Exact(body, 'b', 'l', 'a', 'n', 'k');
    Key5Exact(body, 'c', 'n', 't', 'r', 'l');
    Key5Exact(body, 'd', 'i', 'g', 'i', 't');
    Key5Exact(body, 'g', 'r', 'a', 'p', 'h');
    Key5Exact(body, 'l', 'o', 'w', 'e', 'r');
    Key5Exact(body, 'p', 'r', 'i', 'n', 't');
    Key5Exact(body, 'p', 'u', 'n', 'c', 't');
    Key5Exact(body, 's', 'p', 'a', 'c', 'e');
    Key5Exact(body, 'u', 'p', 'p', 'e', 'r');
    Key6Exact(body, 'x', 'd', 'i', 'g', 'i', 't');
  }
}
