/** What a shell pattern means: its token form, and an existential matching relation
    between a token list and a string. Nothing here backtracks or counts recursion. */
module Glob {
  import opened Common
  import opened Ctype

  /** The FNM_* flags that the matcher tests. */
  datatype Flags = Flags(noEscape: bool, pathname: bool, period: bool, leadingDir: bool, caseFold: bool)

  function Fold(c: char, f: Flags): char {
    if f.caseFold then ToLower(c) else c
  }

  // ---------------------------------------------------------------- bracket expressions

  datatype Class = Alnum | Alpha | Blank | Cntrl | Digit | Graph | Lower | Print | Punct | Space | Upper | Xdigit

  datatype Item = One(c: Char7) | Range(lo: Char7, hi: Char7) | InClass(k: Class)

  predicate ClassHas(k: Class, c: char) {
    match k
    case Alnum => IsAlnum(c)
    case Alpha => IsAlpha(c)
    case Blank => IsBlank(c)
    case Cntrl => IsCntrl(c)
    case Digit => IsDigit(c)
    case Graph => IsGraph(c)
    case Lower => IsLower(c)
    case Print => IsPrint(c)
    case Punct => IsPunct(c)
    case Space => IsSpace(c)
    case Upper => IsUpper(c)
    case Xdigit => IsXdigit(c)
  }

  /** `c` is the tested character, already folded. */
  predicate ItemHas(item: Item, c: char, f: Flags) {
    match item
    case One(x) => Fold(x, f) == c
    case Range(lo, hi) => Fold(lo, f) <= c <= Fold(hi, f)
    case InClass(k) => ClassHas(k, c)
  }

  /** The members of a bracket expression, in order. */
  datatype Items = Nil | More(head: Item, tail: Items)

  predicate Listed(items: Items, c: char, f: Flags) {
    match items
    case Nil => false
    case More(item, rest) => ItemHas(item, c, f) || Listed(rest, c, f)
  }

  function ClassName(k: Class): (name: CString)
    ensures if k.Xdigit? then |name| == 6 else |name| == 5
  {
    match k
    case Alnum => "alnum"
    case Alpha => "alpha"
    case Blank => "blank"
    case Cntrl => "cntrl"
    case Digit => "digit"
    case Graph => "graph"
    case Lower => "lower"
    case Print => "print"
    case Punct => "punct"
    case Space => "space"
    case Upper => "upper"
    case Xdigit => "xdigit"
  }

  /** The class named by a class body, that is by the text from after `[:` through `]`.
      Five-letter names must be the whole body; `xdigit:]` is recognised by the last
      eight bytes, whatever stands before them. */
  function NamedClass(body: CString): Option<Class> {
    if body == "alnum:]" then Some(Alnum)
    else if body == "alpha:]" then Some(Alpha)
    else if body == "blank:]" then Some(Blank)
    else if body == "cntrl:]" then Some(Cntrl)
    else if body == "digit:]" then Some(Digit)
    else if body == "graph:]" then Some(Graph)
    else if body == "lower:]" then Some(Lower)
    else if body == "print:]" then Some(Print)
    else if body == "punct:]" then Some(Punct)
    else if body == "space:]" then Some(Space)
    else if body == "upper:]" then Some(Upper)
    else if |body| >= 8 && body[|body| - 8..] == "xdigit:]" then Some(Xdigit)
    else None
  }

  /** The index after the first `]` at or after `i`, or the end of the pattern. */
  function BodyEnd(p: CString, i: nat): (e: nat)
    requires i <= |p|
    ensures i <= e <= |p|
    decreases |p| - i
  {
    if i == |p| then i else if p[i] == ']' then i + 1 else BodyEnd(p, i + 1)
  }

  function ClassAt(p: CString, i: nat): Option<Class>
    requires i <= |p|
  {
    if At(p, i) == '[' && At(p, i + 1) == ':' then NamedClass(p[i + 2..BodyEnd(p, i + 2)]) else None
  }

  datatype Bracket =
    | Unterminated
    | SlashAborted
    | WellFormed(items: Items, next: nat)

  datatype Element = NoElement | Element(item: Item, next: nat)

  /** One listed character or range whose first character is at `i`. */
  function ElementAt(p: CString, i: nat, f: Flags): (e: Element)
    requires i < |p|
    ensures e.Element? ==> i < e.next <= |p|
  {
    if i + 2 < |p| && p[i + 1] == '-' && p[i + 2] != ']' then
      var k := if p[i + 2] == '\\' && !f.noEscape then i + 3 else i + 2;
      if k == |p| then NoElement else Element(Range(p[i], p[k]), k + 1)
    else Element(One(p[i]), i + 1)
  }

  /** One member of a bracket expression: a class, or a listed character or range, whose first
      character may be escaped. */
  function MemberAt(p: CString, i: nat, f: Flags): (e: Element)
    requires i < |p|
    ensures e.Element? ==> i < e.next <= |p|
  {
    if p[i] == '\\' && !f.noEscape then
      if i + 1 == |p| then NoElement else ElementAt(p, i + 1, f)
    else if ClassAt(p, i).Some? then
      Element(InClass(ClassAt(p, i).value), BodyEnd(p, i + 2))
    else ElementAt(p, i, f)
  }

  function Cons(item: Item, rest: Bracket): Bracket {
    if rest.WellFormed? then rest.(items := More(item, rest.items)) else rest
  }

  /** The members of a bracket expression from `i` on; `start` is the index of its first member.
      The result depends on no tested character. */
  function Members(p: CString, i: nat, start: nat, f: Flags): (b: Bracket)
    requires start <= i <= |p|
    ensures b.WellFormed? ==> i < b.next <= |p|
    decreases |p| - i
  {
    if i == |p| then Unterminated
    else if p[i] == ']' && i > start then WellFormed(Nil, i + 1)
    else if p[i] == '/' && f.pathname then SlashAborted
    else
      match MemberAt(p, i, f)
      case NoElement => Unterminated
      case Element(item, next) => Cons(item, Members(p, next, start, f))
  }

  predicate Negates(c: char) { c == '!' || c == '^' }

  /** The bracket expression whose text starts at `i`, just after the `[`. */
  function BracketAt(p: CString, i: nat, f: Flags): Bracket
    requires i <= |p|
  {
    var start := if Negates(At(p, i)) then i + 1 else i;
    Members(p, start, start, f)
  }

  // ---------------------------------------------------------------- tokens

  datatype Token =
    | Lit(c: Char7, quoted: bool)
    | Any
    | Star
    | OneOf(negate: bool, items: Items)
    | Never   // a bracket expression that meets '/' under FNM_PATHNAME

  /** The token at `i`, and the index after it. */
  function TokenAt(p: CString, i: nat, f: Flags): (r: (Token, nat))
    requires i < |p|
    ensures i < r.1 <= |p|
  {
    if p[i] == '?' then (Any, i + 1)
    else if p[i] == '*' then (Star, i + 1)
    else if p[i] == '[' then
      match BracketAt(p, i + 1, f)
      case Unterminated => (Lit('[', false), i + 1)
      case SlashAborted => (Never, |p|)
      case WellFormed(items, next) => (OneOf(Negates(At(p, i + 1)), items), next)
    else if p[i] == '\\' && !f.noEscape && i + 1 < |p| then (Lit(p[i + 1], true), i + 2)
    else (Lit(p[i], false), i + 1)
  }

  function Tokens(p: CString, i: nat, f: Flags): (ts: seq<Token>)
    requires i <= |p|
    decreases |p| - i
  {
    if i == |p| then [] else
    var (t, next) := TokenAt(p, i, f);
    [t] + Tokens(p, next, f)
  }

  // ---------------------------------------------------------------- matching

  /** A period that FNM_PERIOD hides from every token but a literal. */
  predicate HiddenDot(s: CString, k: nat, f: Flags)
    requires k <= |s|
  {
    f.period && At(s, k) == '.' && (k == 0 || (f.pathname && s[k - 1] == '/'))
  }

  predicate NoSlash(s: CString, a: nat, b: nat)
    requires a <= b <= |s|
  {
    forall i :: a <= i < b ==> s[i] != '/'
  }

  predicate Wild(s: CString, k: nat, f: Flags)
    requires k <= |s|
  {
    k < |s| && !(f.pathname && s[k] == '/') && !HiddenDot(s, k, f)
  }

  /** Token `t` covers exactly `s[a..b]`. */
  predicate Covers(t: Token, s: CString, a: nat, b: nat, f: Flags)
    requires a <= b <= |s|
  {
    match t
    case Lit(c, _) => b == a + 1 && Fold(c, f) == Fold(s[a], f)
    case Any => b == a + 1 && Wild(s, a, f)
    case Star => !HiddenDot(s, a, f) && (f.pathname ==> NoSlash(s, a, b))
    case OneOf(negate, items) => b == a + 1 && Wild(s, a, f) && Listed(items, Fold(s[a], f), f) != negate
    case Never => false
  }

  /** A match may stop at the end of the string, or before a '/' under FNM_LEADING_DIR. */
  predicate MayStop(s: CString, k: nat, f: Flags)
    requires k <= |s|
  {
    k == |s| || (f.leadingDir && s[k] == '/')
  }

  /** `cuts` splits the string from `cuts[0]` on into one consecutive piece per token. */
  predicate Alignment(ts: seq<Token>, s: CString, cuts: seq<nat>, f: Flags) {
    && |cuts| == |ts| + 1
    && (forall i :: 0 <= i < |cuts| ==> cuts[i] <= |s|)
    && (forall i :: 0 <= i < |ts| ==> cuts[i] <= cuts[i + 1] && Covers(ts[i], s, cuts[i], cuts[i + 1], f))
    && MayStop(s, cuts[|ts|], f)
  }

  /** The meaning of a pattern. */
  ghost predicate Matches(ts: seq<Token>, s: CString, k: nat, f: Flags) {
    exists cuts :: Alignment(ts, s, cuts, f) && cuts[0] == k
  }

  /** Matching, one token at a time. */
  ghost predicate MatchFrom(ts: seq<Token>, s: CString, k: nat, f: Flags)
    requires k <= |s|
    decreases |ts|
  {
    if ts == [] then MayStop(s, k, f)
    else exists j: nat :: k <= j <= |s| && Covers(ts[0], s, k, j, f) && MatchFrom(ts[1..], s, j, f)
  }

  /** Matching from the front agrees with the alignment definition. */
  lemma {:induction false} MatchFromIsMatches(ts: seq<Token>, s: CString, k: nat, f: Flags)
    requires k <= |s|
    ensures MatchFrom(ts, s, k, f) <==> Matches(ts, s, k, f)
    decreases |ts|
  {
    if MatchFrom(ts, s, k, f) {
      var cuts := AlignmentOf(ts, s, k, f);
    }
    if Matches(ts, s, k, f) {
      var cuts :| Alignment(ts, s, cuts, f) && cuts[0] == k;
      if ts != [] {
        assert Covers(ts[0], s, cuts[0], cuts[0 + 1], f);
        assert Alignment(ts[1..], s, cuts[1..], f);
        MatchFromIsMatches(ts[1..], s, cuts[1], f);
        assert MatchFrom(ts, s, k, f);
      }
    }
  }

  lemma {:induction false} AlignmentOf(ts: seq<Token>, s: CString, k: nat, f: Flags) returns (cuts: seq<nat>)
    requires k <= |s| && MatchFrom(ts, s, k, f)
    ensures Alignment(ts, s, cuts, f) && cuts[0] == k
    decreases |ts|
  {
    if ts == [] {
      cuts := [k];
    } else {
      var j: nat :| k <= j <= |s| && Covers(ts[0], s, k, j, f) && MatchFrom(ts[1..], s, j, f);
      var rest := AlignmentOf(ts[1..], s, j, f);
      cuts := [k] + rest;
      forall i | 0 <= i < |ts|
        ensures cuts[i] <= cuts[i + 1] && Covers(ts[i], s, cuts[i], cuts[i + 1], f)
      {
        if i > 0 {
          assert ts[i] == ts[1..][i - 1] && cuts[i] == rest[i - 1] && cuts[i + 1] == rest[i - 1 + 1];
        }
      }
    }
  }

  // ---------------------------------------------------------------- star groups

  /** The star groups that neither end the pattern nor stand before a plain '/' under
      FNM_PATHNAME: those that only a search can resolve. */
  function SearchStars(ts: seq<Token>, f: Flags): nat {
    if ts == [] then 0
    else if ts[0].Star? && |ts| > 1 && !ts[1].Star? && !(f.pathname && ts[1] == Lit('/', false)) then
      1 + SearchStars(ts[1..], f)
    else SearchStars(ts[1..], f)
  }
}
