/** The backtracking matcher of lib/posix/c_lib_ext/fnmatch.c, proved against Glob. */
module Fnmatch {
  import opened Common
  import opened Ctype
  import opened Glob
  import opened ClassKey

  // ---------------------------------------------------------------- the escape premise

  function TrailingBackslashes(p: CString): (n: nat)
    ensures n <= |p|
  {
    if p == [] || p[|p| - 1] != '\\' then 0 else 1 + TrailingBackslashes(p[..|p| - 1])
  }

  lemma {:induction false} TrailingRun(p: CString, i: nat)
    requires i < |p|
    ensures i >= |p| - TrailingBackslashes(p) ==> p[i] == '\\'
    ensures i + 1 == |p| - TrailingBackslashes(p) ==> p[i] != '\\'
    decreases |p|
  {
    if p[|p| - 1] == '\\' && i < |p| - 1 { TrailingRun(p[..|p| - 1], i); }
  }

  /** No escape reaches past the end of the pattern. */
  predicate NoDanglingEscape(p: CString, f: Flags) {
    f.noEscape || TrailingBackslashes(p) % 2 == 0
  }

  /** A position the scanner may stand at: not inside a pair of the final backslash run. */
  predicate Aligned(p: CString, i: nat, f: Flags) {
    var run := |p| - TrailingBackslashes(p);
    i <= |p| && (f.noEscape || i <= run || (i - run) % 2 == 0)
  }

  lemma AlignedStep(p: CString, i: nat, f: Flags)
    requires Aligned(p, i, f) && NoDanglingEscape(p, f) && i < |p|
    ensures f.noEscape || p[i] != '\\' ==> Aligned(p, i + 1, f)
    ensures !f.noEscape && p[i] == '\\' ==> i + 1 < |p| && Aligned(p, i + 2, f)
  {
    TrailingRun(p, i);
  }

  lemma {:induction false} BodyEndsWithBracket(p: CString, i: nat)
    requires i <= |p|
    ensures var e := BodyEnd(p, i); e == |p| || (i < e && p[e - 1] == ']')
    decreases |p| - i
  {
    if i < |p| && p[i] != ']' { BodyEndsWithBracket(p, i + 1); }
  }

  lemma AlignedClass(p: CString, i: nat, f: Flags)
    requires i <= |p| && ClassAt(p, i).Some?
    ensures Aligned(p, BodyEnd(p, i + 2), f)
  {
    var e := BodyEnd(p, i + 2);
    BodyEndsWithBracket(p, i + 2);
    var body := p[i + 2..e];
    assert body[|body| - 1] == p[e - 1];
    assert |body| >= 8 ==> body[|body| - 8..][7] == body[|body| - 1];
    assert p[e - 1] == ']';
    TrailingRun(p, e - 1);
  }

  lemma AlignedMember(p: CString, i: nat, f: Flags)
    requires i < |p| && Aligned(p, i, f) && NoDanglingEscape(p, f)
    ensures var e := MemberAt(p, i, f); e.Element? && Aligned(p, e.next, f)
  {
    AlignedStep(p, i, f);
    var escaped := p[i] == '\\' && !f.noEscape;
    if !escaped && ClassAt(p, i).Some? {
      AlignedClass(p, i, f);
    } else {
      var j := if escaped then i + 1 else i;
      if j + 2 < |p| && p[j + 1] == '-' && p[j + 2] != ']' {
        AlignedStep(p, j + 1, f);
        AlignedStep(p, j + 2, f);
      }
    }
  }

  // ---------------------------------------------------------------- rangematch_cc, rangematch

  datatype RangeResult = RangeError | RangeNoMatch | RangeMatch

  lemma {:induction false} BodyEndIs(p: CString, i: nat, q: nat)
    requires i <= q <= |p|
    requires forall k :: i <= k < q ==> p[k] != ']'
    ensures q < |p| && p[q] == ']' ==> BodyEnd(p, i) == q + 1
    ensures q == |p| ==> BodyEnd(p, i) == q
    decreases q - i
  {
    if i < q { BodyEndIs(p, i + 1, q); }
  }

  method RangematchCc(p: CString, i: nat, ch: char) returns (ret: RangeResult, next: nat)
    requires i <= |p|
    ensures match ClassAt(p, i)
            case None => ret == RangeError
            case Some(k) => ret == (if ClassHas(k, ch) then RangeMatch else RangeNoMatch) && next == BodyEnd(p, i + 2)
  {
    next := i;
    if At(p, i) != '[' || At(p, i + 1) != ':' {
      return RangeError, next;
    }
    var q, key := i + 2, 0;
    while At(p, q) != EOS
      invariant i + 2 <= q <= |p|
      invariant key == Key(p[i + 2..q])
      invariant forall k :: i + 2 <= k < q - 1 ==> p[k] != ']'
      decreases |p| - q
    {
      if p[q - 1] == ']' {
        break;
      }
      assert p[i + 2..q + 1][..q - i - 2] == p[i + 2..q];
      key := Shift(key, p[q]);
      q := q + 1;
    }
    assert q == BodyEnd(p, i + 2) by {
      if q > i + 2 && p[q - 1] == ']' {
        BodyEndIs(p, i + 2, q - 1);
      } else {
        BodyEndIs(p, i + 2, q);
      }
    }
    KeyNamesClass(p[i + 2..q]);
    match ClassOfKey(key) {
      case None =>
        ret := RangeError;
      case Some(k) =>
        ret := if ClassHas(k, ch) then RangeMatch else RangeNoMatch;
        next := q;
    }
  }

  /** What is left to decide once the members before some point are known to list (`ok`) or
      not to list the tested character. */
  ghost predicate Remains(whole: Bracket, rest: Bracket, ok: bool, c: char, f: Flags) {
    match whole
    case Unterminated => rest.Unterminated?
    case SlashAborted => rest.SlashAborted?
    case WellFormed(items, next) =>
      rest.WellFormed? && rest.next == next && Listed(items, c, f) == (ok || Listed(rest.items, c, f))
  }

  lemma RemainsCons(whole: Bracket, item: Item, rest: Bracket, ok: bool, c: char, f: Flags)
    requires Remains(whole, Cons(item, rest), ok, c, f)
    ensures Remains(whole, rest, ok || ItemHas(item, c, f), c, f)
  {}

  /** The tail of the scanning loop: one listed character or range, from its first character. */
  method MatchElement(p: CString, i: nat, test: char, f: Flags) returns (found: bool, hit: bool, next: nat)
    requires i < |p|
    ensures match ElementAt(p, i, f)
            case NoElement => !found
            case Element(item, end) => found && next == end && hit == ItemHas(item, test, f)
  {
    found, hit := true, false;
    var c := Fold(At(p, i), f);
    next := i + 1;
    if At(p, next) == '-' && At(p, next + 1) != EOS && At(p, next + 1) != ']' {
      next := next + 1;
      if At(p, next) == '\\' && !f.noEscape {
        next := next + 1;
      }
      var c2 := Fold(At(p, next), f);
      if c2 == EOS {
        found := false;
        return;
      }
      next := next + 1;
      if f.caseFold {
        c2 := ToLower(c2);
      }
      if c <= test <= c2 {
        hit := true;
      }
    } else if c == test {
      hit := true;
    }
  }

  /** One pass of the scanning loop over a member. */
  method MatchMember(p: CString, i: nat, test: char, f: Flags) returns (found: bool, hit: bool, next: nat)
    requires i < |p|
    requires p[i] == '\\' && !f.noEscape ==> i + 1 < |p|
    ensures match MemberAt(p, i, f)
            case NoElement => !found
            case Element(item, end) => found && next == end && hit == ItemHas(item, test, f)
  {
    if At(p, i) == '\\' && !f.noEscape {
      found, hit, next := MatchElement(p, i + 1, test, f);
    } else {
      var cc, past := RangematchCc(p, i, test);
      if cc == RangeError {
        found, hit, next := MatchElement(p, i, test, f);
      } else {
        found, hit, next := true, cc == RangeMatch, past;
      }
    }
  }

  /** A well-formed bracket lists the tested character, or does not, as `ok` says. */
  ghost predicate Decides(b: Bracket, test: char, f: Flags, ok: bool) {
    b.WellFormed? && ok == Listed(b.items, test, f)
  }

  /** The scanning loop: `err` is RANGE_ERROR, `slash` the early RANGE_NOMATCH. */
  method ScanMembers(p: CString, origpat: nat, test: char, f: Flags)
    returns (err: bool, slash: bool, ok: bool, pat: nat)
    requires Aligned(p, origpat, f) && NoDanglingEscape(p, f)
    ensures err == Members(p, origpat, origpat, f).Unterminated?
    ensures !err ==> slash == Members(p, origpat, origpat, f).SlashAborted?
    ensures !err && !slash ==> Decides(Members(p, origpat, origpat, f), test, f, ok) && Aligned(p, pat, f)
    ensures !err && !slash ==> pat == Members(p, origpat, origpat, f).next
  {
    err, slash, ok, pat := false, false, false, origpat;
    ghost var whole := Members(p, origpat, origpat, f);
    while true
      invariant !err && !slash
      invariant origpat <= pat <= |p| && Aligned(p, pat, f)
      invariant Remains(whole, Members(p, pat, origpat, f), ok, test, f)
      decreases |p| - pat
    {
      if At(p, pat) == ']' && pat > origpat {
        AlignedStep(p, pat, f);
        pat := pat + 1;
        return;
      } else if At(p, pat) == EOS {
        err := true;
        return;
      } else if At(p, pat) == '/' && f.pathname {
        slash := true;
        return;
      }
      AlignedStep(p, pat, f);
      var found, hit, past := MatchMember(p, pat, test, f);
      if !found {
        err := true;
        return;
      }
      AlignedMember(p, pat, f);
      RemainsCons(whole, MemberAt(p, pat, f).item, Members(p, past, origpat, f), ok, test, f);
      ok := ok || hit;
      pat := past;
    }
  }

  /** One token form per bracket: the verdict on `test` is membership in the members that
      BracketAt lists without looking at `test`. */
  method Rangematch(p: CString, i: nat, test: char, f: Flags) returns (ret: RangeResult, next: nat)
    requires i <= |p| && Aligned(p, i, f) && NoDanglingEscape(p, f)
    ensures ret == RangeError <==> BracketAt(p, i, f).Unterminated?
    ensures ret == RangeMatch <==> Decides(BracketAt(p, i, f), Fold(test, f), f, !Negates(At(p, i)))
    ensures ret == RangeMatch ==> next == BracketAt(p, i, f).next && Aligned(p, next, f)
  {
    next := i;
    var pat := i;
    var negate := At(p, pat) == '!' || At(p, pat) == '^';
    if negate {
      AlignedStep(p, pat, f);
      pat := pat + 1;
    }
    var err, slash, ok, past := ScanMembers(p, pat, Fold(test, f), f);
    if err {
      return RangeError, next;
    }
    if slash {
      return RangeNoMatch, next;
    }
    if ok != negate {
      next := past;
      ret := RangeMatch;
    } else {
      ret := RangeNoMatch;
    }
  }

  // ---------------------------------------------------------------- what the matcher decides

  /** The pattern from `i` matches the string from `k`, with fewer than `budget` searches. */
  ghost predicate Succeeds(p: CString, i: nat, s: CString, k: nat, f: Flags, budget: nat)
    requires i <= |p| && k <= |s|
  {
    MatchFrom(Tokens(p, i, f), s, k, f) && SearchStars(Tokens(p, i, f), f) < budget
  }

  /** A token other than a star takes one character. */
  lemma SucceedsOne(p: CString, i: nat, s: CString, k: nat, f: Flags, budget: nat)
    requires i < |p| && k <= |s| && !TokenAt(p, i, f).0.Star?
    ensures Succeeds(p, i, s, k, f, budget)
            <==> k < |s| && Covers(TokenAt(p, i, f).0, s, k, k + 1, f)
                 && Succeeds(p, TokenAt(p, i, f).1, s, k + 1, f, budget)
  {
    var (t, next) := TokenAt(p, i, f);
    var ts := Tokens(p, i, f);
    assert ts[0] == t && ts[1..] == Tokens(p, next, f);
  }

  /** A star may cover s[k..j]. */
  predicate Gap(s: CString, k: nat, j: nat, f: Flags) {
    k <= j <= |s| && (f.pathname ==> NoSlash(s, k, j))
  }

  /** What a star followed by the rest of the pattern amounts to. */
  lemma MatchStar(p: CString, i: nat, s: CString, k: nat, f: Flags)
    requires i < |p| && k <= |s| && p[i] == '*'
    ensures MatchFrom(Tokens(p, i, f), s, k, f)
            <==> !HiddenDot(s, k, f)
                 && exists j: nat :: Gap(s, k, j, f) && MatchFrom(Tokens(p, i + 1, f), s, j, f)
  {
    var ts := Tokens(p, i, f);
    assert ts[0] == Star && ts[1..] == Tokens(p, i + 1, f);
    forall j: nat | k <= j <= |s|
      ensures Covers(ts[0], s, k, j, f) <==> !HiddenDot(s, k, f) && Gap(s, k, j, f)
    {
    }
  }

  lemma SearchStarsStep(p: CString, i: nat, f: Flags)
    requires i < |p| && p[i] == '*'
    ensures SearchStars(Tokens(p, i, f), f)
            == SearchStars(Tokens(p, i + 1, f), f)
               + if i + 1 == |p| || p[i + 1] == '*' || (f.pathname && p[i + 1] == '/') then 0 else 1
  {
    var ts := Tokens(p, i, f);
    assert ts[0] == Star && ts[1..] == Tokens(p, i + 1, f);
    if i + 1 < |p| {
      assert ts[1] == ts[1..][0] == TokenAt(p, i + 1, f).0;
    }
  }

  /** Two stars in a row match what one does. */
  lemma CollapseStars(p: CString, i: nat, s: CString, k: nat, f: Flags, budget: nat)
    requires i + 1 < |p| && k <= |s| && p[i] == '*' && p[i + 1] == '*'
    ensures Succeeds(p, i, s, k, f, budget) <==> Succeeds(p, i + 1, s, k, f, budget)
  {
    SearchStarsStep(p, i, f);
    MatchStar(p, i, s, k, f);
    MatchStar(p, i + 1, s, k, f);
    if MatchFrom(Tokens(p, i, f), s, k, f) {
      var j: nat :| Gap(s, k, j, f) && MatchFrom(Tokens(p, i + 1, f), s, j, f);
      MatchStar(p, i + 1, s, j, f);
      var m: nat :| Gap(s, j, m, f) && MatchFrom(Tokens(p, i + 2, f), s, m, f);
      assert Gap(s, k, m, f);
    }
    if MatchFrom(Tokens(p, i + 1, f), s, k, f) {
      assert Gap(s, k, k, f);
    }
  }

  /** The index of the first '/' from `k` on, or the length of the string. */
  function FirstSlash(s: CString, k: nat): (j: nat)
    requires k <= |s|
    ensures k <= j <= |s| && NoSlash(s, k, j) && (j < |s| ==> s[j] == '/')
    decreases |s| - k
  {
    if k == |s| || s[k] == '/' then k else FirstSlash(s, k + 1)
  }

  /** The trailing-star shortcut. */
  lemma TrailingStar(p: CString, i: nat, s: CString, k: nat, f: Flags, budget: nat)
    requires i + 1 == |p| && k <= |s| && p[i] == '*' && budget > 0
    ensures Succeeds(p, i, s, k, f, budget)
            <==> !HiddenDot(s, k, f) && (!f.pathname || f.leadingDir || FirstSlash(s, k) == |s|)
  {
    SearchStarsStep(p, i, f);
    MatchStar(p, i, s, k, f);
    assert Tokens(p, i + 1, f) == [];
    var first := FirstSlash(s, k);
    if !HiddenDot(s, k, f) && (!f.pathname || first == |s|) {
      assert Gap(s, k, |s|, f);
    } else if !HiddenDot(s, k, f) && f.leadingDir {
      assert Gap(s, k, first, f);
    }
  }

  /** The star-before-slash shortcut. */
  lemma StarBeforeSlash(p: CString, i: nat, s: CString, k: nat, f: Flags, budget: nat)
    requires i + 1 < |p| && k <= |s| && p[i] == '*' && p[i + 1] == '/' && f.pathname
    ensures var j := FirstSlash(s, k);
            Succeeds(p, i, s, k, f, budget)
            <==> !HiddenDot(s, k, f) && j < |s| && Succeeds(p, i + 1, s, j, f, budget)
  {
    SearchStarsStep(p, i, f);
    MatchStar(p, i, s, k, f);
    var first := FirstSlash(s, k);
    if j: nat :| Gap(s, k, j, f) && MatchFrom(Tokens(p, i + 1, f), s, j, f) {
      var ts := Tokens(p, i + 1, f);
      assert ts[0] == Lit('/', false);
      assert j < |s| && s[j] == '/';
      assert first == j;
    }
    if first == |s| {
      forall j: nat | Gap(s, k, j, f)
        ensures !MatchFrom(Tokens(p, i + 1, f), s, j, f)
      {
        assert Tokens(p, i + 1, f)[0] == Lit('/', false);
      }
    }
  }

  /** Any other star is a search for where the rest of the pattern begins. */
  lemma SearchingStar(p: CString, i: nat, s: CString, k: nat, f: Flags, budget: nat)
    requires i + 1 < |p| && k <= |s| && p[i] == '*' && p[i + 1] != '*' && !(f.pathname && p[i + 1] == '/')
    requires budget > 0
    ensures Succeeds(p, i, s, k, f, budget)
            <==> !HiddenDot(s, k, f)
                 && exists j: nat :: Gap(s, k, j, f) && Succeeds(p, i + 1, s, j, f, budget - 1)
  {
    SearchStarsStep(p, i, f);
    MatchStar(p, i, s, k, f);
  }

  /** After a star that is followed by another token, the empty suffix never matches. */
  lemma NoEmptySuffix(p: CString, i: nat, s: CString, f: Flags, budget: nat)
    requires i < |p| && p[i] != '*'
    ensures !Succeeds(p, i, s, |s|, f, budget)
  {
    SucceedsOne(p, i, s, |s|, f, budget);
  }

  // ---------------------------------------------------------------- fnmatchx, fnmatch

  datatype Result = Match | NoMatch | NoResource

  /** A star before position `i` of the pattern that has to search for where the rest begins. */
  predicate Searches(p: CString, i: nat, s: CString, k: nat, f: Flags) {
    && 0 < i < |p| && k <= |s| && !HiddenDot(s, k, f)
    && p[i - 1] == '*' && p[i] != '*' && !(f.pathname && p[i] == '/')
  }

  /** The search has been at all places from k to below j, met no barrier, and found nothing. */
  ghost predicate Searched(p: CString, i: nat, s: CString, k: nat, j: nat, f: Flags, budget: nat) {
    && i <= |p| && k <= j <= |s| + 1
    && (forall x :: k <= x < j && x <= |s| ==> !Succeeds(p, i, s, x, f, budget))
    && (f.pathname ==> forall x :: k <= x < j && x < |s| ==> s[x] != '/')
  }

  lemma SearchFinds(p: CString, i: nat, s: CString, k: nat, j: nat, f: Flags, budget: nat)
    requires Searches(p, i, s, k, f) && Searched(p, i, s, k, j, f, budget) && j <= |s| && Succeeds(p, i, s, j, f, budget)
    ensures Succeeds(p, i - 1, s, k, f, budget + 1)
  {
    SearchingStar(p, i - 1, s, k, f, budget + 1);
    assert Gap(s, k, j, f);
  }

  lemma SearchGivesUp(p: CString, i: nat, s: CString, k: nat, j: nat, f: Flags, budget: nat)
    requires Searches(p, i, s, k, f) && Searched(p, i, s, k, j, f, budget)
    requires j >= |s| || (f.pathname && s[j] == '/' && !Succeeds(p, i, s, j, f, budget))
    ensures !Succeeds(p, i - 1, s, k, f, budget + 1)
  {
    SearchingStar(p, i - 1, s, k, f, budget + 1);
    NoEmptySuffix(p, i, s, f, budget);
  }

  method SearchStar(p: CString, pattern: nat, s: CString, str0: nat, f: Flags, recursion: nat) returns (ret: Result)
    requires Aligned(p, pattern, f) && NoDanglingEscape(p, f) && Searches(p, pattern, s, str0, f)
    ensures ret == if Succeeds(p, pattern - 1, s, str0, f, recursion + 1) then Match else NoMatch
    decreases recursion, 1
  {
    var str := str0;
    var sc := Fold(At(s, str), f);
    while sc != EOS
      invariant Searched(p, pattern, s, str0, str, f, recursion)
      invariant sc == EOS <==> str == |s| + 1 || (str == str0 == |s|)
      decreases |s| + 1 - str
    {
      var r := Fnmatchx(p, pattern, s, str, f, recursion);
      if r == Match {
        SearchFinds(p, pattern, s, str0, str, f, recursion);
        return Match;
      }
      sc := Fold(At(s, str), f);
      if sc == '/' && f.pathname {
        break;
      }
      str := str + 1;
    }
    SearchGivesUp(p, pattern, s, str0, str, f, recursion);
    ret := NoMatch;
  }

  /** The case of a '*' in the matcher's switch. It ends the call, or goes on from (pat, str). */
  method StarCase(p: CString, pat0: nat, s: CString, str0: nat, f: Flags, recursion: nat)
    returns (done: bool, ret: Result, pat: nat, str: nat)
    requires 0 < pat0 <= |p| && str0 <= |s| && Aligned(p, pat0, f) && NoDanglingEscape(p, f) && p[pat0 - 1] == '*'
    ensures var wanted := Succeeds(p, pat0 - 1, s, str0, f, recursion + 1);
            if done then ret == if wanted then Match else NoMatch
            else pat0 <= pat <= |p| && str <= |s| && Aligned(p, pat, f)
                 && Succeeds(p, pat, s, str, f, recursion + 1) == wanted
    decreases recursion, 2
  {
    done, ret, pat, str := true, NoMatch, pat0, str0;
    while At(p, pat) == '*'
      invariant pat0 <= pat <= |p| && Aligned(p, pat, f) && p[pat - 1] == '*'
      invariant Succeeds(p, pat - 1, s, str0, f, recursion + 1) == Succeeds(p, pat0 - 1, s, str0, f, recursion + 1)
      decreases |p| - pat
    {
      AlignedStep(p, pat, f);
      CollapseStars(p, pat - 1, s, str0, f, recursion + 1);
      pat := pat + 1;
    }
    var c := Fold(At(p, pat), f);
    if HiddenDot(s, str, f) {
      MatchStar(p, pat - 1, s, str, f);
      return;
    }
    if c == EOS {
      TrailingStar(p, pat - 1, s, str, f, recursion + 1);
      if !f.pathname || f.leadingDir || FirstSlash(s, str) == |s| {
        ret := Match;
      }
    } else if c == '/' && f.pathname {
      StarBeforeSlash(p, pat - 1, s, str, f, recursion + 1);
      str := FirstSlash(s, str);
      done := str == |s|;
    } else {
      ret := SearchStar(p, pat, s, str, f, recursion);
    }
  }

  /** How a bracket token covers one character of the string. */
  lemma BracketCovers(p: CString, i: nat, s: CString, k: nat, f: Flags)
    requires i < |p| && p[i] == '[' && k < |s|
    ensures var b := BracketAt(p, i + 1, f); var r := TokenAt(p, i, f);
            && !r.0.Star?
            && (b.Unterminated? ==> r.1 == i + 1 && (Covers(r.0, s, k, k + 1, f) <==> Fold(s[k], f) == '['))
            && (b.SlashAborted? ==> !Covers(r.0, s, k, k + 1, f))
            && (b.WellFormed? ==> r.1 == b.next && (Covers(r.0, s, k, k + 1, f) <==>
                                                    Wild(s, k, f) && Decides(b, Fold(s[k], f), f, !Negates(At(p, i + 1)))))
  {}

  lemma FoldTwice(c: char, f: Flags)
    ensures Fold(Fold(c, f), f) == Fold(c, f)
  {}

  /** The case of a '[' in the matcher's switch. */
  method BracketCase(p: CString, pat0: nat, s: CString, str0: nat, f: Flags, ghost budget: nat)
    returns (ok: bool, pat: nat, str: nat)
    requires pat0 < |p| && str0 <= |s| && Aligned(p, pat0, f) && NoDanglingEscape(p, f) && p[pat0] == '['
    ensures var wanted := Succeeds(p, pat0, s, str0, f, budget);
            if ok then pat0 < pat <= |p| && str <= |s| && Aligned(p, pat, f)
                       && Succeeds(p, pat, s, str, f, budget) == wanted
            else !wanted
  {
    SucceedsOne(p, pat0, s, str0, f, budget);
    AlignedStep(p, pat0, f);
    var sc := Fold(At(s, str0), f);
    FoldTwice(At(s, str0), f);
    if str0 < |s| { BracketCovers(p, pat0, s, str0, f); }
    ok, pat, str := false, pat0 + 1, str0;
    if sc == EOS || (sc == '/' && f.pathname) || HiddenDot(s, str, f) {
      return;
    }
    var verdict, past := Rangematch(p, pat, sc, f);
    match verdict {
      case RangeNoMatch =>
      case RangeMatch =>
        ok, pat, str := true, past, str + 1;
      case RangeError =>
        if sc == '[' {
          ok, str := true, str + 1;
        }
    }
  }

  /** The other cases that take one character of the string. */
  method PlainCase(p: CString, pat0: nat, s: CString, str0: nat, f: Flags, ghost budget: nat)
    returns (ok: bool, pat: nat, str: nat)
    requires pat0 < |p| && str0 <= |s| && Aligned(p, pat0, f) && NoDanglingEscape(p, f)
    requires p[pat0] != '*' && p[pat0] != '['
    ensures var wanted := Succeeds(p, pat0, s, str0, f, budget);
            if ok then pat0 < pat <= |p| && str <= |s| && Aligned(p, pat, f)
                       && Succeeds(p, pat, s, str, f, budget) == wanted
            else !wanted
  {
    SucceedsOne(p, pat0, s, str0, f, budget);
    AlignedStep(p, pat0, f);
    var pc := Fold(p[pat0], f);
    var sc := Fold(At(s, str0), f);
    ok, pat, str := false, pat0 + 1, str0;
    if pc == '?' {
      if sc == EOS || (sc == '/' && f.pathname) || HiddenDot(s, str, f) {
        return;
      }
    } else {
      if pc == '\\' && !f.noEscape {
        pc := Fold(At(p, pat), f);
        pat := pat + 1;
      }
      if pc != sc {
        return;
      }
    }
    ok, str := true, str + 1;
  }

  method Fnmatchx(p: CString, pat0: nat, s: CString, str0: nat, f: Flags, recursion0: nat) returns (ret: Result)
    requires pat0 <= |p| && str0 <= |s| && Aligned(p, pat0, f) && NoDanglingEscape(p, f)
    ensures recursion0 == 0 ==> ret == NoResource
    ensures recursion0 > 0 ==>
              ret == if Succeeds(p, pat0, s, str0, f, recursion0) then Match else NoMatch
    decreases recursion0, 0
  {
    if recursion0 == 0 {
      return NoResource;
    }
    var recursion := recursion0 - 1;
    var pattern: nat, str: nat := pat0, str0;
    while true
      invariant pattern <= |p| && str <= |s| && Aligned(p, pattern, f)
      invariant Succeeds(p, pattern, s, str, f, recursion0) == Succeeds(p, pat0, s, str0, f, recursion0)
      decreases |p| - pattern
    {
      var pc := Fold(At(p, pattern), f);
      var sc := Fold(At(s, str), f);
      if pc == EOS {
        if f.leadingDir && sc == '/' {
          return Match;
        }
        return if sc == EOS then Match else NoMatch;
      }
      if pc == '*' {
        AlignedStep(p, pattern, f);
        var done, r, pat', str' := StarCase(p, pattern + 1, s, str, f, recursion);
        if done {
          return r;
        }
        pattern, str := pat', str';
      } else {
        var ok, pat', str';
        if pc == '[' {
          ok, pat', str' := BracketCase(p, pattern, s, str, f, recursion0);
        } else {
          ok, pat', str' := PlainCase(p, pattern, s, str, f, recursion0);
        }
        if !ok {
          return NoMatch;
        }
        pattern, str := pat', str';
      }
    }
  }

  const RECURSION_LIMIT: nat := 64

  /** fnmatch decides the declarative relation exactly for patterns with at most 63 searching
      star groups, and no other pattern ever matches. */
  method FnmatchTop(pattern: CString, s: CString, f: Flags) returns (ret: Result)
    requires NoDanglingEscape(pattern, f)
    ensures ret == Match || ret == NoMatch
    ensures ret == Match
            <==> Matches(Tokens(pattern, 0, f), s, 0, f) && SearchStars(Tokens(pattern, 0, f), f) < RECURSION_LIMIT
  {
    ret := Fnmatchx(pattern, 0, s, 0, f, RECURSION_LIMIT);
    MatchFromIsMatches(Tokens(pattern, 0, f), s, 0, f);
  }
}
