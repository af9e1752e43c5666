/** The rules of patterns as a user of fnmatch knows them, on pattern text and in plain characters:
    what each bracket, '?' and '*' takes, and what FNM_PERIOD, FNM_PATHNAME and FNM_LEADING_DIR change. */
module GlobRules {
  import opened Common
  import opened Ctype
  import opened Glob
  import opened Fnmatch
  import opened GlobLaws

  /** A character as FNM_CASEFOLD sees it. */
  function Low(c: char, f: Flags): char {
    if f.caseFold && 'A' <= c <= 'Z' then (c as int + 32) as char else c
  }

  /** What a wildcard may take at the front of a string. */
  predicate Open(c: char, f: Flags) {
    !(f.pathname && c == '/') && !(f.period && c == '.')
  }

  predicate Between(n: int, lo: int, hi: int) { lo <= n <= hi }

  /** The characters of a class, by ASCII code. */
  predicate InAscii(k: Class, n: int) {
    match k
    case Alnum => Between(n, 48, 57) || Between(n, 65, 90) || Between(n, 97, 122)
    case Alpha => Between(n, 65, 90) || Between(n, 97, 122)
    case Blank => n == 9 || n == 32
    case Cntrl => Between(n, 0, 31) || n == 127
    case Digit => Between(n, 48, 57)
    case Graph => Between(n, 33, 126)
    case Lower => Between(n, 97, 122)
    case Print => Between(n, 32, 126)
    case Punct => Between(n, 33, 47) || Between(n, 58, 64) || Between(n, 91, 96) || Between(n, 123, 126)
    case Space => Between(n, 9, 13) || n == 32
    case Upper => Between(n, 65, 90)
    case Xdigit => Between(n, 48, 57) || Between(n, 65, 70) || Between(n, 97, 102)
  }

  /** What a bracket lists: the character itself, the ends of a range and all between, a class. */
  predicate Names(items: Items, c: char, f: Flags) {
    match items
    case Nil => false
    case More(One(x), rest) => Low(x, f) == Low(c, f) || Names(rest, c, f)
    case More(Range(lo, hi), rest) => Low(lo, f) <= Low(c, f) <= Low(hi, f) || Names(rest, c, f)
    case More(InClass(k), rest) => InAscii(k, Low(c, f) as int) || Names(rest, c, f)
  }

  lemma {:induction false} NamesIsListed(items: Items, c: char, f: Flags)
    ensures Names(items, c, f) <==> Listed(items, Fold(c, f), f)
  {
    if items.More? { NamesIsListed(items.tail, c, f); }
  }

  // ---------------------------------------------------------------- one wildcard, one character

  /** A pattern of one token other than a star takes one character or does not match. */
  lemma OneToken(t: Token, c: Char7, f: Flags)
    requires !t.Star?
    ensures Matches([t], [c], 0, f) <==> Covers(t, [c], 0, 1, f)
  {
    MatchFromIsMatches([t], [c], 0, f);
    assert [t][1..] == [];
    assert MatchFrom([], [c], 1, f);
    if MatchFrom([t], [c], 0, f) {
      var j: nat :| 0 <= j <= 1 && Covers(t, [c], 0, j, f) && MatchFrom([t][1..], [c], j, f);
      assert j == 1;
    }
  }

  lemma BracketToken(negate: bool, items: Items, c: Char7, f: Flags)
    ensures Matches([OneOf(negate, items)], [c], 0, f) <==> Open(c, f) && Names(items, c, f) != negate
  {
    OneToken(OneOf(negate, items), c, f);
    NamesIsListed(items, c, f);
  }

  /** Every bracket, with any members, takes exactly the characters it names, or the others if it is
      negated, and never one that FNM_PATHNAME or FNM_PERIOD keeps from it. */
  lemma BracketTakes(negate: bool, items: Items, c: Char7, f: Flags)
    requires !f.noEscape && items.More?
    ensures Matches(Tokens(Write([OneOf(negate, items)]), 0, f), [c], 0, f) <==> Open(c, f) && Names(items, c, f) != negate
  {
    ReadWritten([OneOf(negate, items)], f);
    BracketToken(negate, items, c, f);
  }

  /** The mark that negates a bracket, if any. */
  predicate Mark(sign: CString) { sign == "" || sign == "!" || sign == "^" }

  /** A character that may begin a range or a list in a bracket without being anything else. */
  predicate Beginner(x: char, sign: CString, f: Flags) {
    && (sign == "" ==> x != '!' && x != '^')
    && !(x == '\\' && !f.noEscape) && !(x == '/' && f.pathname)
  }

  lemma ReadRange(p: CString, s: nat, f: Flags)
    requires s + 4 == |p| && p[s + 1] == '-' && p[s + 2] != ']' && p[s + 3] == ']'
    requires !(p[s] == '\\' && !f.noEscape) && !(p[s] == '/' && f.pathname) && !(p[s + 2] == '\\' && !f.noEscape)
    ensures Members(p, s, s, f) == WellFormed(More(Range(p[s], p[s + 2]), Nil), s + 4)
  {
    assert ClassAt(p, s) == None;
    assert MemberAt(p, s, f) == Element(Range(p[s], p[s + 2]), s + 3);
    assert Members(p, s + 3, s, f) == WellFormed(Nil, s + 4);
  }

  lemma OneBracket(p: CString, sign: CString, items: Items, f: Flags)
    requires Mark(sign) && |p| > |sign| + 1 && p[0] == '[' && (sign != "" ==> p[1] == sign[0])
    requires sign == "" ==> p[1] != '!' && p[1] != '^'
    requires Members(p, |sign| + 1, |sign| + 1, f) == WellFormed(items, |p|)
    ensures Tokens(p, 0, f) == [OneOf(sign != "", items)]
  {
    assert BracketAt(p, 1, f) == WellFormed(items, |p|);
    assert Tokens(p, |p|, f) == [];
  }

  /** [lo-hi], [!lo-hi] and [^lo-hi]: both ends belong to the range. */
  lemma RangeTakes(sign: CString, lo: Char7, hi: Char7, c: Char7, f: Flags)
    requires Mark(sign) && Beginner(lo, sign, f) && hi != ']' && !(hi == '\\' && !f.noEscape)
    ensures Matches(Tokens("[" + sign + [lo, '-', hi, ']'], 0, f), [c], 0, f)
            <==> Open(c, f) && (Low(lo, f) <= Low(c, f) <= Low(hi, f)) == (sign == "")
  {
    var p: CString := "[" + sign + [lo, '-', hi, ']'];
    var s := |sign| + 1;
    assert p[s] == lo && p[s + 1] == '-' && p[s + 2] == hi && p[s + 3] == ']';
    ReadRange(p, s, f);
    var items := More(Range(lo, hi), Nil);
    OneBracket(p, sign, items, f);
    BracketToken(sign != "", items, c, f);
  }

  /** A character that means itself anywhere in a bracket. */
  predicate Ordinary(x: char) {
    x != ']' && x != '[' && x != '-' && x != '\\' && x != '/' && x != '!' && x != '^'
  }

  function Singles(w: CString): Items {
    if w == [] then Nil else More(One(w[0]), Singles(w[1..]))
  }

  lemma {:induction false} ReadSingles(p: CString, i: nat, start: nat, w: CString, f: Flags)
    requires start <= i && i + |w| + 1 == |p| && p[|p| - 1] == ']' && (w == [] ==> start < i)
    requires forall k :: 0 <= k < |w| ==> p[i + k] == w[k] && Ordinary(w[k])
    ensures Members(p, i, start, f) == WellFormed(Singles(w), |p|)
    decreases |w|
  {
    if w != [] {
      assert p[i] == w[0] && Ordinary(p[i]);
      assert p[i + 1] != '-' by {
        if |w| > 1 { assert p[i + 1] == w[1] && Ordinary(w[1]); }
      }
      assert MemberAt(p, i, f) == Element(One(w[0]), i + 1);
      forall k | 0 <= k < |w[1..]| ensures p[i + 1 + k] == w[1..][k] && Ordinary(w[1..][k]) {
        assert p[i + (k + 1)] == w[k + 1];
      }
      ReadSingles(p, i + 1, start, w[1..], f);
    }
  }

  lemma {:induction false} NamesSingles(w: CString, c: char, f: Flags)
    ensures Names(Singles(w), c, f) <==> exists k :: 0 <= k < |w| && Low(w[k], f) == Low(c, f)
    decreases |w|
  {
    if w != [] {
      NamesSingles(w[1..], c, f);
      if k :| 0 <= k < |w| && Low(w[k], f) == Low(c, f) {
        if k > 0 { assert w[1..][k - 1] == w[k]; }
      }
    }
  }

  /** [xyz] and its negations: exactly the characters listed. */
  lemma ListTakes(sign: CString, w: CString, c: Char7, f: Flags)
    requires Mark(sign) && w != [] && forall k :: 0 <= k < |w| ==> Ordinary(w[k])
    ensures Matches(Tokens("[" + sign + w + "]", 0, f), [c], 0, f)
            <==> Open(c, f) && (exists k :: 0 <= k < |w| && Low(w[k], f) == Low(c, f)) == (sign == "")
  {
    var p: CString := "[" + sign + w + "]";
    var s := |sign| + 1;
    assert forall k :: 0 <= k < |w| ==> p[s + k] == w[k];
    ReadSingles(p, s, s, w, f);
    assert p[s] == w[0] && Ordinary(w[0]);
    OneBracket(p, sign, Singles(w), f);
    NamesSingles(w, c, f);
    BracketToken(sign != "", Singles(w), c, f);
  }

  lemma ReadDash(p: CString, s: nat, f: Flags)
    requires s + 3 == |p| && p[s + 1] == '-' && p[s + 2] == ']'
    requires !(p[s] == '\\' && !f.noEscape) && !(p[s] == '/' && f.pathname)
    ensures Members(p, s, s, f) == WellFormed(More(One(p[s]), More(One('-'), Nil)), s + 3)
  {
    assert ClassAt(p, s) == None && ClassAt(p, s + 1) == None;
    assert MemberAt(p, s, f) == Element(One(p[s]), s + 1);
    assert MemberAt(p, s + 1, f) == Element(One('-'), s + 2);
    assert Members(p, s + 2, s, f) == WellFormed(Nil, s + 3);
  }

  /** [x-] and its negations: a '-' at the end is a character like any other. */
  lemma DashAtEndTakes(sign: CString, x: Char7, c: Char7, f: Flags)
    requires Mark(sign) && Beginner(x, sign, f)
    ensures Matches(Tokens("[" + sign + [x, '-', ']'], 0, f), [c], 0, f)
            <==> Open(c, f) && (Low(x, f) == Low(c, f) || c == '-') == (sign == "")
  {
    var p: CString := "[" + sign + [x, '-', ']'];
    var s := |sign| + 1;
    assert p[s] == x && p[s + 1] == '-' && p[s + 2] == ']';
    ReadDash(p, s, f);
    var items := More(One(x), More(One('-'), Nil));
    assert Names(items.tail, c, f) <==> c == '-' by { assert !Names(Nil, c, f); }
    OneBracket(p, sign, items, f);
    BracketToken(sign != "", items, c, f);
  }

  function Spelling(k: Class): CString {
    match k
    case Alnum => "[[:alnum:]]"
    case Alpha => "[[:alpha:]]"
    case Blank => "[[:blank:]]"
    case Cntrl => "[[:cntrl:]]"
    case Digit => "[[:digit:]]"
    case Graph => "[[:graph:]]"
    case Lower => "[[:lower:]]"
    case Print => "[[:print:]]"
    case Punct => "[[:punct:]]"
    case Space => "[[:space:]]"
    case Upper => "[[:upper:]]"
    case Xdigit => "[[:xdigit:]]"
  }

  lemma WrittenClass(k: Class, name: CString)
    requires name == ClassName(k)
    ensures Write([OneOf(false, More(InClass(k), Nil))]) == "[[:" + name + ":]]"
  {
    var items := More(InClass(k), Nil);
    assert [OneOf(false, items)][1..] == [];
    assert Write([OneOf(false, items)]) == WriteToken(OneOf(false, items)) + [];
    assert WriteItems(items) == "[:" + name + ":]" + "]";
  }

  lemma SpellingIsName(k: Class)
    ensures Spelling(k) == "[[:" + ClassName(k) + ":]]"
  {}

  /** [[:digit:]] and the others: the characters of the class; under FNM_CASEFOLD the lower-case
      form of the character is looked up, so that [[:upper:]] takes nothing then. */
  lemma ClassTakes(k: Class, c: Char7, f: Flags)
    requires !f.noEscape
    ensures Matches(Tokens(Spelling(k), 0, f), [c], 0, f) <==> Open(c, f) && InAscii(k, Low(c, f) as int)
  {
    WrittenClass(k, ClassName(k));
    SpellingIsName(k);
    BracketTakes(false, More(InClass(k), Nil), c, f);
  }

  lemma QuestionTakes(c: Char7, f: Flags)
    ensures Matches(Tokens("?", 0, f), [c], 0, f) <==> Open(c, f)
  {
    assert Tokens("?", 1, f) == [];
    assert Tokens("?", 0, f) == [Any];
    OneToken(Any, c, f);
  }

  /** '*' alone takes every string, but not one that starts with a period under FNM_PERIOD, nor across
      a '/' under FNM_PATHNAME; with FNM_LEADING_DIR it may stop there. */
  lemma StarTakes(s: CString, f: Flags)
    ensures Matches(Tokens("*", 0, f), s, 0, f)
            <==> !(f.period && s != [] && s[0] == '.') && (!f.pathname || f.leadingDir || '/' !in s)
  {
    assert Tokens("*", 1, f) == [];
    assert Tokens("*", 0, f) == [Star];
    MatchFromIsMatches([Star], s, 0, f);
    assert [Star][1..] == [];
    if f.pathname && f.leadingDir {
      var j := FirstSlash(s, 0);
      assert Covers(Star, s, 0, j, f) == !HiddenDot(s, 0, f);
      assert MatchFrom([], s, j, f);
    } else {
      assert MatchFrom([], s, |s|, f);
      assert (f.pathname ==> '/' !in s) && !HiddenDot(s, 0, f) ==> Covers(Star, s, 0, |s|, f);
    }
  }

  // ---------------------------------------------------------------- hidden periods, slashes

  /** Under FNM_PERIOD a pattern that goes on with '*', '?' or '[' does not match a period at the front
      of the string, nor after a '/' under FNM_PATHNAME. */
  lemma PeriodIsHidden(p: CString, i: nat, s: CString, k: nat, f: Flags)
    requires i < |p| && (p[i] == '*' || p[i] == '?' || p[i] == '[')
    requires f.period && k < |s| && s[k] == '.' && (k == 0 || (f.pathname && s[k - 1] == '/'))
    ensures !Matches(Tokens(p, i, f), s, k, f)
  {
    var ts := Tokens(p, i, f);
    MatchFromIsMatches(ts, s, k, f);
    assert ts[0] == TokenAt(p, i, f).0;
    forall j: nat | k <= j <= |s| ensures !Covers(ts[0], s, k, j, f) {
      assert HiddenDot(s, k, f);
    }
  }

  function CountSlashes(s: CString): nat {
    if s == [] then 0 else CountSlashes(s[1..]) + if s[0] == '/' then 1 else 0
  }

  function SlashTokens(ts: seq<Token>): nat {
    if ts == [] then 0 else SlashTokens(ts[1..]) + if ts[0].Lit? && ts[0].c == '/' then 1 else 0
  }

  lemma {:induction false} SkipNoSlash(s: CString, k: nat, j: nat)
    requires k <= j <= |s| && NoSlash(s, k, j)
    ensures CountSlashes(s[k..]) == CountSlashes(s[j..])
    decreases j - k
  {
    if k < j {
      assert s[k..][1..] == s[k + 1..];
      SkipNoSlash(s, k + 1, j);
    }
  }

  lemma {:induction false} SlashesFrom(ts: seq<Token>, s: CString, k: nat, f: Flags)
    requires f.pathname && !f.leadingDir && k <= |s| && MatchFrom(ts, s, k, f)
    ensures CountSlashes(s[k..]) == SlashTokens(ts)
    decreases |ts|
  {
    if ts != [] {
      var j: nat :| k <= j <= |s| && Covers(ts[0], s, k, j, f) && MatchFrom(ts[1..], s, j, f);
      SlashesFrom(ts[1..], s, j, f);
      if ts[0].Lit? {
        assert s[k..][1..] == s[j..];
      } else {
        SkipNoSlash(s, k, j);
      }
    }
  }

  /** Under FNM_PATHNAME no wildcard takes a '/': a string that matches has exactly as many slashes as
      the pattern spells out. */
  lemma SlashesAreSpelledOut(p: CString, s: CString, f: Flags)
    requires f.pathname && !f.leadingDir && Matches(Tokens(p, 0, f), s, 0, f)
    ensures CountSlashes(s) == SlashTokens(Tokens(p, 0, f))
  {
    MatchFromIsMatches(Tokens(p, 0, f), s, 0, f);
    assert s[0..] == s;
    SlashesFrom(Tokens(p, 0, f), s, 0, f);
  }

  /** Escaped text matches itself, whatever case FNM_CASEFOLD ignores, and under FNM_LEADING_DIR also
      what goes on with a '/'. */
  lemma TextTakes(t: CString, s: CString, f: Flags)
    requires !f.noEscape
    ensures Matches(Tokens(Write(Quote(t)), 0, f), s, 0, f)
            <==> && |t| <= |s| && (forall i :: 0 <= i < |t| ==> Low(t[i], f) == Low(s[i], f))
                 && (|s| == |t| || (f.leadingDir && s[|t|] == '/'))
  {
    QuotedTextMatchesItself(t, s, f);
    if |t| <= |s| {
      forall i | 0 <= i < |t| ensures Low(t[i], f) == Fold(t[i], f) && Low(s[i], f) == Fold(s[0 + i], f) {}
    }
  }

  // ---------------------------------------------------------------- text without quotes

  predicate Spells(ts: seq<Token>, t: CString) {
    |ts| == |t| && forall i :: 0 <= i < |t| ==> ts[i].Lit? && ts[i].c == t[i]
  }

  /** The string from k on is t, or goes on with a '/' behind it under FNM_LEADING_DIR. */
  predicate IsText(t: CString, s: CString, k: nat, f: Flags) {
    && k + |t| <= |s| && (forall i :: 0 <= i < |t| ==> Low(t[i], f) == Low(s[k + i], f))
    && (|s| == k + |t| || (f.leadingDir && s[k + |t|] == '/'))
  }

  lemma IsTextStep(t: CString, s: CString, k: nat, f: Flags)
    requires t != [] && k < |s|
    ensures IsText(t, s, k, f) <==> Low(t[0], f) == Low(s[k], f) && IsText(t[1..], s, k + 1, f)
  {
    if Low(t[0], f) == Low(s[k], f) && IsText(t[1..], s, k + 1, f) {
      forall i | 0 <= i < |t| ensures Low(t[i], f) == Low(s[k + i], f) {
        if i > 0 { assert t[i] == t[1..][i - 1] && s[k + i] == s[k + 1 + (i - 1)]; }
      }
    }
    if IsText(t, s, k, f) {
      assert Low(t[0], f) == Low(s[k + 0], f);
      forall i | 0 <= i < |t[1..]| ensures Low(t[1..][i], f) == Low(s[k + 1 + i], f) {
        assert t[1..][i] == t[i + 1] && s[k + 1 + i] == s[k + (i + 1)];
      }
    }
  }

  lemma {:induction false} LiteralsFrom(ts: seq<Token>, t: CString, s: CString, k: nat, f: Flags)
    requires Spells(ts, t) && k <= |s|
    ensures MatchFrom(ts, s, k, f) <==> IsText(t, s, k, f)
    decreases |ts|
  {
    if ts != [] && k < |s| {
      LiteralsFrom(ts[1..], t[1..], s, k + 1, f);
      IsTextStep(t, s, k, f);
      assert Low(t[0], f) == Fold(t[0], f) && Low(s[k], f) == Fold(s[k], f);
    }
  }

  /** A character outside brackets that is none of '?', '*', '[' and no escape. */
  predicate Literal(x: char, f: Flags) { x != '?' && x != '*' && x != '[' && !(x == '\\' && !f.noEscape) }

  lemma {:induction false} PlainTokens(p: CString, i: nat, f: Flags)
    requires i <= |p| && forall k :: i <= k < |p| ==> Literal(p[k], f)
    ensures Spells(Tokens(p, i, f), p[i..])
    decreases |p| - i
  {
    if i < |p| {
      PlainTokens(p, i + 1, f);
      var ts, rest := Tokens(p, i, f), Tokens(p, i + 1, f);
      assert TokenAt(p, i, f) == (Lit(p[i], false), i + 1);
      assert ts == [Lit(p[i], false)] + rest && p[i..] == [p[i]] + p[i + 1..];
    }
  }

  /** A pattern without special characters matches its own text and nothing else. */
  lemma PlainTextTakes(p: CString, s: CString, f: Flags)
    requires forall k :: 0 <= k < |p| ==> Literal(p[k], f)
    ensures Matches(Tokens(p, 0, f), s, 0, f) <==> IsText(p, s, 0, f)
  {
    PlainTokens(p, 0, f);
    assert p[0..] == p;
    MatchFromIsMatches(Tokens(p, 0, f), s, 0, f);
    LiteralsFrom(Tokens(p, 0, f), p, s, 0, f);
  }

  lemma {:induction false} NeverClosed(p: CString, i: nat, start: nat, f: Flags)
    requires start <= i <= |p| && forall k :: i <= k < |p| ==> Ordinary(p[k])
    ensures Members(p, i, start, f) == Unterminated
    decreases |p| - i
  {
    if i < |p| {
      assert Ordinary(p[i]) && (i + 1 < |p| ==> Ordinary(p[i + 1]));
      assert MemberAt(p, i, f) == Element(One(p[i]), i + 1);
      NeverClosed(p, i + 1, start, f);
    }
  }

  /** A '[' that no ']' closes is a character like any other. */
  lemma OpenBracketIsText(w: CString, s: CString, f: Flags)
    requires forall k :: 0 <= k < |w| ==> Ordinary(w[k]) && Literal(w[k], f)
    ensures Matches(Tokens("[" + w, 0, f), s, 0, f) <==> IsText("[" + w, s, 0, f)
  {
    var p: CString := "[" + w;
    forall k | 1 <= k < |p| ensures Ordinary(p[k]) && Literal(p[k], f) { assert p[k] == w[k - 1]; }
    NeverClosed(p, 1, 1, f);
    assert BracketAt(p, 1, f) == Unterminated;
    PlainTokens(p, 1, f);
    var ts := Tokens(p, 0, f);
    assert ts == [Lit('[', false)] + Tokens(p, 1, f) && p[1..] == w;
    assert Spells(ts, p);
    MatchFromIsMatches(ts, s, 0, f);
    LiteralsFrom(ts, p, s, 0, f);
  }

  lemma {:induction false} MeetsSlash(p: CString, i: nat, start: nat, j: nat, f: Flags)
    requires f.pathname && start <= i <= j < |p| && p[j] == '/' && forall k :: i <= k < j ==> Ordinary(p[k])
    ensures Members(p, i, start, f) == SlashAborted
    decreases j - i
  {
    if i < j {
      assert Ordinary(p[i]) && (i + 1 < j ==> Ordinary(p[i + 1]));
      assert MemberAt(p, i, f) == Element(One(p[i]), i + 1);
      MeetsSlash(p, i + 1, start, j, f);
    }
  }

  /** Under FNM_PATHNAME a bracket with a '/' in it matches nothing. */
  lemma SlashInBracketTakesNothing(w: CString, rest: CString, s: CString, f: Flags)
    requires f.pathname && forall k :: 0 <= k < |w| ==> Ordinary(w[k])
    ensures !Matches(Tokens("[" + w + "/" + rest, 0, f), s, 0, f)
  {
    var p: CString := "[" + w + "/" + rest;
    forall k | 1 <= k < |w| + 1 ensures Ordinary(p[k]) { assert p[k] == w[k - 1]; }
    assert p[|w| + 1] == '/';
    MeetsSlash(p, 1, 1, |w| + 1, f);
    assert BracketAt(p, 1, f) == SlashAborted;
    var ts := Tokens(p, 0, f);
    assert ts[0] == Never;
    MatchFromIsMatches(ts, s, 0, f);
  }
}
