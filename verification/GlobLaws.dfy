/** Laws of the pattern language: every token list is written by some pattern, quoted text
    matches only itself, and where the matcher's search budget runs out. */
module GlobLaws {
  import opened Common
  import opened Ctype
  import opened Glob
  import opened Fnmatch

  // ---------------------------------------------------------------- writing a pattern

  function WriteItem(item: Item): (t: CString)
    ensures |t| >= 2 && (t[0] == '\\' || t[0] == '[')
  {
    match item
    case One(c) => ['\\', c]
    case Range(lo, hi) => ['\\', lo, '-', '\\', hi]
    case InClass(k) => "[:" + ClassName(k) + ":]"
  }

  function WriteItems(items: Items): CString {
    match items
    case Nil => "]"
    case More(item, rest) => WriteItem(item) + WriteItems(rest)
  }

  /** A character that stands for itself wherever it is not quoted. */
  predicate Plain(c: char) { c != '?' && c != '*' && c != '[' && c != '\\' }

  /** The tokens that need no particular flag to be written down. */
  predicate Writable(t: Token) {
    match t
    case Lit(c, quoted) => quoted || Plain(c)
    case Any => true
    case Star => true
    case OneOf(_, items) => items.More?
    case Never => false
  }

  function WriteToken(t: Token): CString
    requires Writable(t)
  {
    match t
    case Lit(c, quoted) => if quoted then ['\\', c] else [c]
    case Any => "?"
    case Star => "*"
    case OneOf(negate, items) => (if negate then "[!" else "[") + WriteItems(items)
  }

  function Write(ts: seq<Token>): CString
    requires forall i :: 0 <= i < |ts| ==> Writable(ts[i])
  {
    if ts == [] then [] else WriteToken(ts[0]) + Write(ts[1..])
  }

  /** `text` stands in `p` at index `i`. */
  predicate Holds(p: CString, i: nat, text: CString)
    decreases |text|
  {
    if text == [] then i <= |p| else i < |p| && p[i] == text[0] && Holds(p, i + 1, text[1..])
  }

  lemma {:induction false} HoldsAt(p: CString, i: nat, text: CString, k: nat)
    requires Holds(p, i, text) && k < |text|
    ensures i + |text| <= |p| && p[i + k] == text[k]
    decreases |text|
  {
    if k > 0 {
      HoldsAt(p, i + 1, text[1..], k - 1);
    } else if |text| > 1 {
      HoldsAt(p, i + 1, text[1..], 0);
    }
  }

  lemma {:induction false} HoldsSplit(p: CString, i: nat, a: CString, b: CString)
    requires Holds(p, i, a + b)
    ensures Holds(p, i, a) && Holds(p, i + |a|, b)
    decreases |a|
  {
    if a == [] {
      assert a + b == b;
      HoldsFits(p, i, b);
    } else {
      assert (a + b)[1..] == a[1..] + b;
      HoldsSplit(p, i + 1, a[1..], b);
    }
  }

  lemma {:induction false} HoldsFits(p: CString, i: nat, text: CString)
    requires Holds(p, i, text)
    ensures i + |text| <= |p|
    decreases |text|
  {
    if text != [] { HoldsFits(p, i + 1, text[1..]); }
  }

  lemma {:induction false} HoldsItself(pre: CString, text: CString)
    ensures Holds(pre + text, |pre|, text)
    decreases |text|
  {
    if text != [] {
      assert pre + text == (pre + [text[0]]) + text[1..];
      HoldsItself(pre + [text[0]], text[1..]);
    }
  }

  /** The text from after `[:` through `]`. */
  function BodyOf(k: Class): CString {
    match k
    case Alnum => "alnum:]"
    case Alpha => "alpha:]"
    case Blank => "blank:]"
    case Cntrl => "cntrl:]"
    case Digit => "digit:]"
    case Graph => "graph:]"
    case Lower => "lower:]"
    case Print => "print:]"
    case Punct => "punct:]"
    case Space => "space:]"
    case Upper => "upper:]"
    case Xdigit => "xdigit:]"
  }

  lemma BodyIsName(k: Class)
    ensures ClassName(k) + ":]" == BodyOf(k)
  {}

  lemma BodyNamesClass(k: Class)
    ensures NamedClass(BodyOf(k)) == Some(k)
  {
    var body := BodyOf(k);
    if k.Xdigit? { assert body[0..] == body; }
  }

  lemma NameHasNoBracket(k: Class, i: nat)
    requires i < |ClassName(k)|
    ensures ClassName(k)[i] != ']'
  {}

  lemma NameOfClass(k: Class)
    ensures NamedClass(ClassName(k) + ":]") == Some(k)
    ensures forall i :: 0 <= i < |ClassName(k)| ==> ClassName(k)[i] != ']'
  {
    BodyIsName(k);
    BodyNamesClass(k);
    forall i | 0 <= i < |ClassName(k)| ensures ClassName(k)[i] != ']' { NameHasNoBracket(k, i); }
  }

  // ------------------------------------------------ written text, position by position

  /** An item written from `i` on, ending before `j`. */
  predicate ItemHere(p: CString, i: nat, item: Item, j: nat) {
    j <= |p| &&
    match item
    case One(c) => j == i + 2 && p[i] == '\\' && p[i + 1] == c
    case Range(lo, hi) =>
      j == i + 5 && p[i] == '\\' && p[i + 1] == lo && p[i + 2] == '-' && p[i + 3] == '\\' && p[i + 4] == hi
    case InClass(k) =>
      j == i + 4 + |ClassName(k)| && p[i] == '[' && p[i + 1] == ':' && Holds(p, i + 2, ClassName(k) + ":]")
  }

  predicate ItemsHere(p: CString, i: nat, items: Items, e: nat)
    decreases items
  {
    match items
    case Nil => i < |p| && p[i] == ']' && e == i + 1
    case More(item, rest) => exists j :: i < j <= |p| && ItemHere(p, i, item, j) && ItemsHere(p, j, rest, e)
  }

  predicate TokenHere(p: CString, i: nat, t: Token, j: nat) {
    i < j <= |p| &&
    match t
    case Lit(c, quoted) =>
      if quoted then j == i + 2 && p[i] == '\\' && p[i + 1] == c else j == i + 1 && p[i] == c && Plain(c)
    case Any => j == i + 1 && p[i] == '?'
    case Star => j == i + 1 && p[i] == '*'
    case OneOf(negate, items) =>
      var start := i + (if negate then 2 else 1);
      p[i] == '[' && items.More? && start < |p| && (negate ==> p[i + 1] == '!') && ItemsHere(p, start, items, j)
    case Never => false
  }

  predicate TokensHere(p: CString, i: nat, ts: seq<Token>)
    decreases |ts|
  {
    if ts == [] then i == |p|
    else exists j :: i < j <= |p| && TokenHere(p, i, ts[0], j) && TokensHere(p, j, ts[1..])
  }

  lemma WrittenItem(p: CString, i: nat, item: Item)
    requires Holds(p, i, WriteItem(item))
    ensures ItemHere(p, i, item, i + |WriteItem(item)|)
  {
    var text := WriteItem(item);
    HoldsAt(p, i, text, 0);
    HoldsAt(p, i, text, 1);
    match item {
      case One(c) =>
      case Range(lo, hi) =>
        HoldsAt(p, i, text, 2);
        HoldsAt(p, i, text, 3);
        HoldsAt(p, i, text, 4);
      case InClass(k) =>
        assert text == "[:" + (ClassName(k) + ":]");
        HoldsSplit(p, i, "[:", ClassName(k) + ":]");
    }
  }

  lemma {:induction false} WrittenItems(p: CString, i: nat, items: Items)
    requires Holds(p, i, WriteItems(items))
    ensures ItemsHere(p, i, items, i + |WriteItems(items)|)
    decreases items
  {
    match items {
      case Nil =>
      case More(item, rest) =>
        var j := i + |WriteItem(item)|;
        HoldsSplit(p, i, WriteItem(item), WriteItems(rest));
        WrittenItem(p, i, item);
        WrittenItems(p, j, rest);
    }
  }

  lemma WrittenToken(p: CString, i: nat, t: Token)
    requires Writable(t) && Holds(p, i, WriteToken(t))
    ensures TokenHere(p, i, t, i + |WriteToken(t)|)
  {
    var text := WriteToken(t);
    HoldsAt(p, i, text, 0);
    if t.Lit? && t.quoted { HoldsAt(p, i, text, 1); }
    if t.OneOf? {
      var open: CString := if t.negate then "[!" else "[";
      HoldsSplit(p, i, open, WriteItems(t.items));
      if t.negate { HoldsAt(p, i, open, 1); }
      WrittenItems(p, i + |open|, t.items);
    }
  }

  lemma FirstWritten(p: CString, i: nat, ts: seq<Token>) returns (j: nat)
    requires ts != [] && forall k :: 0 <= k < |ts| ==> Writable(ts[k])
    requires Holds(p, i, Write(ts))
    ensures TokenHere(p, i, ts[0], j) && Holds(p, j, Write(ts[1..])) && j + |Write(ts[1..])| == i + |Write(ts)|
  {
    var first, more := WriteToken(ts[0]), Write(ts[1..]);
    j := i + |first|;
    HoldsSplit(p, i, first, more);
    WrittenToken(p, i, ts[0]);
  }

  lemma {:induction false} WrittenTokens(p: CString, i: nat, ts: seq<Token>)
    requires forall k :: 0 <= k < |ts| ==> Writable(ts[k])
    requires Holds(p, i, Write(ts)) && i + |Write(ts)| == |p|
    ensures TokensHere(p, i, ts)
    decreases |ts|
  {
    if ts != [] {
      var j := FirstWritten(p, i, ts);
      WrittenTokens(p, j, ts[1..]);
    }
  }

  // ------------------------------------------------ reading it back

  lemma ReadClass(p: CString, i: nat, k: Class, j: nat)
    requires ItemHere(p, i, InClass(k), j)
    ensures ClassAt(p, i) == Some(k) && BodyEnd(p, i + 2) == j
  {
    NameOfClass(k);
    var name := ClassName(k);
    var body := name + ":]";
    HoldsFits(p, i + 2, body);
    var found := p[i + 2..j];
    forall m | 0 <= m < |body|
      ensures found[m] == body[m]
    {
      HoldsAt(p, i + 2, body, m);
    }
    assert found == body;
    assert forall n :: i + 2 <= n < j ==> p[n] == found[n - i - 2];
    BodyEndIs(p, i + 2, j - 1);
  }

  /** A written member reads back, whatever follows it but a '-'. */
  lemma ReadItem(p: CString, i: nat, item: Item, j: nat, f: Flags)
    requires !f.noEscape && ItemHere(p, i, item, j) && At(p, j) != '-'
    ensures i < j && MemberAt(p, i, f) == Element(item, j) && p[i] != ']' && p[i] != '/'
  {
    if item.InClass? { ReadClass(p, i, item.k, j); }
  }

  lemma {:induction false} ItemsFront(p: CString, i: nat, items: Items, e: nat)
    requires ItemsHere(p, i, items, e)
    ensures i < |p| && (if items.Nil? then p[i] == ']' else p[i] == '\\' || p[i] == '[')
  {}

  lemma {:induction false} ReadItems(p: CString, i: nat, items: Items, e: nat, start: nat, f: Flags)
    requires !f.noEscape && start <= i && (items.Nil? ==> start < i) && ItemsHere(p, i, items, e)
    ensures i < |p| && Members(p, i, start, f) == WellFormed(items, e)
    decreases items
  {
    match items {
      case Nil =>
      case More(item, rest) =>
        var j :| i < j <= |p| && ItemHere(p, i, item, j) && ItemsHere(p, j, rest, e);
        ItemsFront(p, j, rest, e);
        ReadItem(p, i, item, j, f);
        ReadItems(p, j, rest, e, start, f);
    }
  }

  lemma ReadToken(p: CString, i: nat, t: Token, j: nat, f: Flags)
    requires !f.noEscape && TokenHere(p, i, t, j)
    ensures TokenAt(p, i, f) == (t, j)
  {
    if t.OneOf? {
      var start := i + (if t.negate then 2 else 1);
      ItemsFront(p, start, t.items, j);
      ReadItems(p, start, t.items, j, start, f);
    }
  }

  lemma TokensCons(p: CString, i: nat, ts: seq<Token>, f: Flags)
    requires i < |p| && ts != [] && TokenAt(p, i, f).0 == ts[0] && Tokens(p, TokenAt(p, i, f).1, f) == ts[1..]
    ensures Tokens(p, i, f) == ts
  {
    assert ts == [ts[0]] + ts[1..];
  }

  lemma {:induction false} ReadTokens(p: CString, i: nat, ts: seq<Token>, f: Flags)
    requires !f.noEscape && TokensHere(p, i, ts)
    ensures i <= |p| && Tokens(p, i, f) == ts
    decreases |ts|
  {
    if ts != [] {
      var j :| i < j <= |p| && TokenHere(p, i, ts[0], j) && TokensHere(p, j, ts[1..]);
      ReadToken(p, i, ts[0], j, f);
      ReadTokens(p, j, ts[1..], f);
      TokensCons(p, i, ts, f);
    }
  }

  /** Only brackets with a member need writing: the reader finds no others. */
  lemma BracketsAreNotEmpty(p: CString, i: nat, f: Flags)
    requires i <= |p| && BracketAt(p, i, f).WellFormed?
    ensures BracketAt(p, i, f).items.More?
  {}

  /** Every writable token list is the token form of the pattern written from it. */
  lemma ReadWritten(ts: seq<Token>, f: Flags)
    requires !f.noEscape
    requires forall k :: 0 <= k < |ts| ==> Writable(ts[k])
    ensures Tokens(Write(ts), 0, f) == ts
  {
    HoldsItself([], Write(ts));
    assert [] + Write(ts) == Write(ts);
    WrittenTokens(Write(ts), 0, ts);
    ReadTokens(Write(ts), 0, ts, f);
  }

  // ---------------------------------------------------------------- quoted text

  function Quote(t: CString): seq<Token> {
    seq(|t|, i requires 0 <= i < |t| => Lit(t[i], true))
  }

  predicate SameText(t: CString, s: CString, k: nat, f: Flags) {
    k + |t| <= |s| && forall i :: 0 <= i < |t| ==> Fold(t[i], f) == Fold(s[k + i], f)
  }

  lemma {:induction false} QuotedFrom(t: CString, s: CString, k: nat, f: Flags)
    requires k <= |s|
    ensures MatchFrom(Quote(t), s, k, f) <==> SameText(t, s, k, f) && MayStop(s, k + |t|, f)
    decreases |t|
  {
    if t != [] {
      var ts := Quote(t);
      assert ts[1..] == Quote(t[1..]);
      if k < |s| {
        QuotedFrom(t[1..], s, k + 1, f);
        assert SameText(t, s, k, f) <==> Fold(t[0], f) == Fold(s[k], f) && SameText(t[1..], s, k + 1, f) by {
          if Fold(t[0], f) == Fold(s[k], f) && SameText(t[1..], s, k + 1, f) {
            forall i | 0 <= i < |t| ensures Fold(t[i], f) == Fold(s[k + i], f) {
              if i > 0 { assert t[i] == t[1..][i - 1]; }
            }
          }
        }
      }
    }
  }

  /** A fully escaped text is a pattern for that text alone: the string equals it up to the
      case that FNM_CASEFOLD ignores, or continues with '/' under FNM_LEADING_DIR. */
  lemma QuotedTextMatchesItself(t: CString, s: CString, f: Flags)
    requires !f.noEscape
    ensures var ts := Tokens(Write(Quote(t)), 0, f);
            ts == Quote(t) && (Matches(ts, s, 0, f) <==> SameText(t, s, 0, f) && MayStop(s, |t|, f))
  {
    ReadWritten(Quote(t), f);
    MatchFromIsMatches(Quote(t), s, 0, f);
    QuotedFrom(t, s, 0, f);
  }

  // ---------------------------------------------------------------- the search budget

  /** "*\a" n times. */
  function Stars(n: nat): (ts: seq<Token>)
    ensures forall i :: 0 <= i < |ts| ==> Writable(ts[i])
  {
    if n == 0 then [] else [Star, Lit('a', true)] + Stars(n - 1)
  }

  function Letters(n: nat): CString {
    seq(n, i => 'a')
  }

  lemma {:induction false} StarsMatch(n: nat, m: nat, k: nat, f: Flags)
    requires k <= m && n == m - k
    ensures MatchFrom(Stars(n), Letters(m), k, f) && SearchStars(Stars(n), f) == n
    decreases n
  {
    if n > 0 {
      var ts, s := Stars(n), Letters(m);
      StarsMatch(n - 1, m, k + 1, f);
      assert ts[1..][1..] == Stars(n - 1) && ts[1..][0] == ts[1] == Lit('a', true);
      assert Covers(ts[1..][0], s, k, k + 1, f);
      assert MatchFrom(ts[1..], s, k, f);
      assert Covers(ts[0], s, k, k, f);
    }
  }

  /** From 64 searching star groups on, a pattern that matches is refused: n copies of "*\a"
      match n letters 'a', and the matcher's condition holds just while n < 64. */
  lemma BudgetIsTight(n: nat, f: Flags)
    requires !f.noEscape
    ensures var ts := Tokens(Write(Stars(n)), 0, f);
            Matches(ts, Letters(n), 0, f) && (SearchStars(ts, f) < RECURSION_LIMIT <==> n < 64)
  {
    ReadWritten(Stars(n), f);
    StarsMatch(n, n, 0, f);
    MatchFromIsMatches(Stars(n), Letters(n), 0, f);
  }

  // ---------------------------------------------------------------- case

  function FoldAll(s: CString, f: Flags): (t: CString)
    ensures |t| == |s| && forall i :: 0 <= i < |s| ==> t[i] == Fold(s[i], f)
  {
    seq(|s|, i requires 0 <= i < |s| => Fold(s[i], f))
  }

  /** Matching sees the string only through folding: under FNM_CASEFOLD no token, class or
      range tells apart two strings that differ in case. */
  lemma {:induction false} CaseIsInvisible(ts: seq<Token>, s: CString, t: CString, k: nat, f: Flags)
    requires FoldAll(s, f) == FoldAll(t, f) && k <= |s|
    ensures |s| == |t| && (MatchFrom(ts, s, k, f) <==> MatchFrom(ts, t, k, f))
    decreases |ts|
  {
    assert |s| == |FoldAll(s, f)| == |t|;
    assert forall i :: 0 <= i < |s| ==> FoldAll(s, f)[i] == Fold(s[i], f) == FoldAll(t, f)[i] == Fold(t[i], f);
    assert forall i :: 0 <= i < |s| ==> (s[i] == '/' <==> t[i] == '/') && (s[i] == '.' <==> t[i] == '.');
    if ts != [] {
      forall j: nat | k <= j <= |s|
        ensures Covers(ts[0], s, k, j, f) && MatchFrom(ts[1..], s, j, f)
                <==> Covers(ts[0], t, k, j, f) && MatchFrom(ts[1..], t, j, f)
      {
        CaseIsInvisible(ts[1..], s, t, j, f);
      }
    }
  }
}
