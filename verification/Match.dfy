/** The glob matcher `bridge_fnmatch` (src/bridges/libc/match.c:119-197): a loop that keeps
    one star and one retry position decides whether some assignment of stars matches. */
module Match {
  import opened Common
  import opened MatchPattern

  // ---------------------------------------------------------------- what a match is

  /** A dot at the start of the text, or after a slash with PATHNAME, needs a literal dot. */
  predicate HiddenDot(chars: seq<int>, n: nat, f: Flags)
    requires n <= |chars|
  {
    n < |chars| && chars[n] == DOT && f.period && (n == 0 || (f.pathname && chars[n - 1] == SLASH))
  }

  predicate NoSlash(chars: seq<int>, n: nat, m: nat, f: Flags)
    requires n <= m <= |chars|
  {
    f.pathname ==> forall k :: n <= k < m ==> chars[k] != SLASH
  }

  /** A star standing at `n` may take the characters up to `m`. */
  predicate Absorbs(chars: seq<int>, n: nat, m: nat, f: Flags) {
    n <= m <= |chars| && !HiddenDot(chars, n, f) && NoSlash(chars, n, m, f)
  }

  predicate LiteralDot(tok: Token) {
    tok.Literal? && tok.value == DOT
  }

  /** A token other than a star takes the character at `n`. */
  predicate Accepts(tok: Token, chars: seq<int>, n: nat, f: Flags, loc: Locale) {
    && n < |chars|
    && TokenMatches(tok, chars[n], f, loc)
    && (HiddenDot(chars, n, f) ==> LiteralDot(tok))
  }

  predicate Ends(chars: seq<int>, n: nat, f: Flags) {
    n == |chars| || (n < |chars| && f.leadingDir && chars[n] == SLASH)
  }

  /** The declarative relation: `cuts` says where every token of `toks[a..]` starts and
      where the last one ends, beginning at character `n`. */
  ghost predicate Assignment(toks: seq<Token>, a: nat, chars: seq<int>, n: nat, cuts: seq<nat>, f: Flags, loc: Locale)
    requires a <= |toks|
  {
    && |cuts| == |toks| - a + 1
    && cuts[0] == n
    && Ends(chars, cuts[|toks| - a], f)
    && forall b :: 0 <= b < |toks| - a ==> Piece(toks[a + b], chars, cuts[b], cuts[b + 1], f, loc)
  }

  predicate Piece(tok: Token, chars: seq<int>, n: nat, m: nat, f: Flags, loc: Locale) {
    if tok.Star? then Absorbs(chars, n, m, f) else Accepts(tok, chars, n, f, loc) && m == n + 1
  }

  /** Some assignment of stars makes the pattern match the text. */
  ghost predicate Matches(p: CString, t: CString, f: Flags, loc: Locale) {
    exists cuts :: Assignment(Tokens(p, 0, f, loc), 0, Characters(t, 0), 0, cuts, f, loc)
  }

  // ---------------------------------------------------------------- the same, by recursion

  ghost predicate MatchFrom(toks: seq<Token>, a: nat, chars: seq<int>, n: nat, f: Flags, loc: Locale)
    requires a <= |toks|
    decreases |toks| - a, 0
  {
    if a == |toks| then Ends(chars, n, f)
    else if toks[a].Star? then n <= |chars| && !HiddenDot(chars, n, f) && StarFrom(toks, a + 1, chars, n, f, loc)
    else Accepts(toks[a], chars, n, f, loc) && MatchFrom(toks, a + 1, chars, n + 1, f, loc)
  }

  /** The tokens from `s` match after a star that may still take more from `k` on. */
  ghost predicate StarFrom(toks: seq<Token>, s: nat, chars: seq<int>, k: nat, f: Flags, loc: Locale)
    requires s <= |toks|
    decreases |toks| - s, 1
  {
    exists m :: k <= m <= |chars| && NoSlash(chars, k, m, f) && MatchFrom(toks, s, chars, m, f, loc)
  }

  lemma StarWitness(toks: seq<Token>, s: nat, chars: seq<int>, k: nat, f: Flags, loc: Locale) returns (m: nat)
    requires s <= |toks| && StarFrom(toks, s, chars, k, f, loc)
    ensures k <= m <= |chars| && NoSlash(chars, k, m, f) && MatchFrom(toks, s, chars, m, f, loc)
  {
    m :| k <= m <= |chars| && NoSlash(chars, k, m, f) && MatchFrom(toks, s, chars, m, f, loc);
  }

  lemma {:induction false} AssignmentGivesMatch(
    toks: seq<Token>, a: nat, chars: seq<int>, n: nat, cuts: seq<nat>, f: Flags, loc: Locale)
    requires a <= |toks| && Assignment(toks, a, chars, n, cuts, f, loc)
    ensures MatchFrom(toks, a, chars, n, f, loc)
    decreases |toks| - a
  {
    if a < |toks| {
      assert Piece(toks[a + 0], chars, cuts[0], cuts[0 + 1], f, loc);
      forall b | 0 <= b < |toks| - (a + 1)
        ensures Piece(toks[a + 1 + b], chars, cuts[1..][b], cuts[1..][b + 1], f, loc)
      {
        assert Piece(toks[a + (b + 1)], chars, cuts[b + 1], cuts[b + 1 + 1], f, loc);
      }
      AssignmentGivesMatch(toks, a + 1, chars, cuts[1], cuts[1..], f, loc);
    }
  }

  lemma {:induction false} MatchGivesAssignment(
    toks: seq<Token>, a: nat, chars: seq<int>, n: nat, f: Flags, loc: Locale) returns (cuts: seq<nat>)
    requires a <= |toks| && MatchFrom(toks, a, chars, n, f, loc)
    ensures Assignment(toks, a, chars, n, cuts, f, loc)
    decreases |toks| - a
  {
    if a == |toks| {
      cuts := [n];
    } else {
      var m := n + 1;
      if toks[a].Star? {
        m :| n <= m <= |chars| && NoSlash(chars, n, m, f) && MatchFrom(toks, a + 1, chars, m, f, loc);
      }
      var rest := MatchGivesAssignment(toks, a + 1, chars, m, f, loc);
      cuts := [n] + rest;
      forall b | 0 <= b < |toks| - a
        ensures Piece(toks[a + b], chars, cuts[b], cuts[b + 1], f, loc)
      {
        if b > 0 {
          assert Piece(toks[a + 1 + (b - 1)], chars, rest[b - 1], rest[b - 1 + 1], f, loc);
        }
      }
    }
  }

  /** The recursive relation the loop is proved against is the declarative one. */
  lemma {:induction false} MatchesByRecursion(p: CString, t: CString, f: Flags, loc: Locale)
    ensures Matches(p, t, f, loc) <==> MatchFrom(Tokens(p, 0, f, loc), 0, Characters(t, 0), 0, f, loc)
  {
    var toks, chars := Tokens(p, 0, f, loc), Characters(t, 0);
    if Matches(p, t, f, loc) {
      var cuts :| Assignment(toks, 0, chars, 0, cuts, f, loc);
      AssignmentGivesMatch(toks, 0, chars, 0, cuts, f, loc);
    }
    if MatchFrom(toks, 0, chars, 0, f, loc) {
      var cuts := MatchGivesAssignment(toks, 0, chars, 0, f, loc);
    }
  }

  // ---------------------------------------------------------------- why one star is enough

  /** The tokens `toks[a..b]` hold no star and take one character each from `n` on. */
  ghost predicate Run(toks: seq<Token>, a: nat, b: nat, chars: seq<int>, n: nat, f: Flags, loc: Locale)
    requires a <= b <= |toks|
  {
    forall c :: a <= c < b ==> !toks[c].Star? && Accepts(toks[c], chars, n + c - a, f, loc)
  }

  /** `towlower` sends nothing but the slash to where it sends the slash. */
  ghost predicate SlashHasNoCase(f: Flags, loc: Locale) {
    f.pathname ==> forall c :: Fold(c, f, loc) == Fold(SLASH, f, loc) ==> c == SLASH
  }

  lemma {:induction false} RunThenMatch(
    toks: seq<Token>, a: nat, b: nat, chars: seq<int>, n: nat, f: Flags, loc: Locale)
    requires a <= b <= |toks| && Run(toks, a, b, chars, n, f, loc)
    ensures MatchFrom(toks, a, chars, n, f, loc) <==> MatchFrom(toks, b, chars, n + b - a, f, loc)
    decreases b - a
  {
    if a < b {
      RunThenMatch(toks, a + 1, b, chars, n + 1, f, loc);
    }
  }

  /** A match through star-free tokens runs along them. */
  lemma {:induction false} MatchThenRun(
    toks: seq<Token>, a: nat, b: nat, chars: seq<int>, n: nat, f: Flags, loc: Locale)
    requires a <= b <= |toks| && MatchFrom(toks, a, chars, n, f, loc)
    requires forall c :: a <= c < b ==> !toks[c].Star?
    ensures Run(toks, a, b, chars, n, f, loc)
    ensures MatchFrom(toks, b, chars, n + b - a, f, loc)
    decreases b - a
  {
    if a < b {
      MatchThenRun(toks, a + 1, b, chars, n + 1, f, loc);
    }
  }

  /** Slashes align: two runs of the same tokens, started with no slash between them,
      never get a slash between them. */
  lemma {:induction false} RunsStayTogether(
    toks: seq<Token>, a: nat, b: nat, chars: seq<int>, n: nat, m: nat, f: Flags, loc: Locale)
    requires a <= b <= |toks| && n <= m && SlashHasNoCase(f, loc)
    requires Run(toks, a, b, chars, n, f, loc) && Run(toks, a, b, chars, m, f, loc)
    requires m <= |chars| && NoSlash(chars, n, m, f)
    ensures m + b - a <= |chars| && NoSlash(chars, n + b - a, m + b - a, f)
    decreases b - a
  {
    if a < b {
      assert !toks[a].Star? && Accepts(toks[a], chars, n + a - a, f, loc) && Accepts(toks[a], chars, m + a - a, f, loc);
      RunsStayTogether(toks, a + 1, b, chars, n + 1, m + 1, f, loc);
    }
  }

  /** When the last token of a run took a slash, every other such run took the same one. */
  lemma {:induction false} SlashFixesRun(
    toks: seq<Token>, a: nat, b: nat, chars: seq<int>, n: nat, m: nat, f: Flags, loc: Locale)
    requires a < b <= |toks| && n <= m && SlashHasNoCase(f, loc) && f.pathname
    requires Run(toks, a, b, chars, n, f, loc) && Run(toks, a, b, chars, m, f, loc)
    requires m <= |chars| && NoSlash(chars, n, m, f)
    requires n + b - a <= |chars| && chars[n + b - a - 1] == SLASH
    ensures n == m
  {
    RunsStayTogether(toks, a, b - 1, chars, n, m, f, loc);
    assert Accepts(toks[b - 1], chars, n + (b - 1) - a, f, loc) && Accepts(toks[b - 1], chars, m + (b - 1) - a, f, loc);
  }

  /** What the loop knows when its cursors stand at token `a` and character `n` after a star:
      the tokens from `s` ran from the retry position `k`, and the star stood at `r`. */
  ghost predicate Trying(
    toks: seq<Token>, s: nat, a: nat, chars: seq<int>, r: nat, k: nat, n: nat, f: Flags, loc: Locale)
  {
    && s <= a <= |toks| && r <= k && n == k + a - s && n <= |chars|
    && Absorbs(chars, r, k, f)
    && Run(toks, s, a, chars, k, f, loc)
  }

  /** Only the last star needs retrying: once the tokens up to the next star have run from
      the first possible place, everything an earlier star could still reach is reached
      from the new star. */
  lemma {:induction false} LastStarIsEnough(
    toks: seq<Token>, s: nat, a: nat, chars: seq<int>, r: nat, k: nat, n: nat, f: Flags, loc: Locale)
    requires Trying(toks, s, a, chars, r, k, n, f, loc) && a < |toks| && toks[a].Star?
    requires SlashHasNoCase(f, loc) && !HiddenDot(chars, n, f)
    ensures StarFrom(toks, s, chars, k, f, loc) <==> StarFrom(toks, a + 1, chars, n, f, loc)
  {
    RunThenMatch(toks, s, a, chars, k, f, loc);
    if StarFrom(toks, a + 1, chars, n, f, loc) {
      assert MatchFrom(toks, s, chars, k, f, loc);
    }
    if StarFrom(toks, s, chars, k, f, loc) {
      var m := StarWitness(toks, s, chars, k, f, loc);
      MatchThenRun(toks, s, a, chars, m, f, loc);
      RunsStayTogether(toks, s, a, chars, k, m, f, loc);
      var m' := m + a - s;
      var e := StarWitness(toks, a + 1, chars, m', f, loc);
      assert NoSlash(chars, n, e, f);
    }
  }

  /** Stopping at a hidden dot loses nothing: no star can be made to avoid it. */
  lemma {:induction false} HiddenDotIsFinal(
    toks: seq<Token>, s: nat, a: nat, chars: seq<int>, r: nat, k: nat, n: nat, f: Flags, loc: Locale)
    requires Trying(toks, s, a, chars, r, k, n, f, loc) && SlashHasNoCase(f, loc)
    requires HiddenDot(chars, n, f) && (a < |toks| ==> !LiteralDot(toks[a]))
    ensures !StarFrom(toks, s, chars, k, f, loc)
  {
    if StarFrom(toks, s, chars, k, f, loc) {
      var m := StarWitness(toks, s, chars, k, f, loc);
      MatchThenRun(toks, s, a, chars, m, f, loc);
      if s < a {
        SlashFixesRun(toks, s, a, chars, k, m, f, loc);
      }
    }
  }

  /** A star that reached a slash, or the end, has nothing more to offer. */
  lemma NothingToRetry(toks: seq<Token>, s: nat, chars: seq<int>, k: nat, f: Flags, loc: Locale)
    requires s <= |toks| && k <= |chars| && !MatchFrom(toks, s, chars, k, f, loc)
    ensures k == |chars| || (f.pathname && chars[k] == SLASH) ==> !StarFrom(toks, s, chars, k, f, loc)
    ensures k < |chars| ==> !(f.pathname && chars[k] == SLASH) ==>
              (StarFrom(toks, s, chars, k, f, loc) <==> StarFrom(toks, s, chars, k + 1, f, loc))
  {
    if k < |chars| && !(f.pathname && chars[k] == SLASH) && StarFrom(toks, s, chars, k + 1, f, loc) {
      var m := StarWitness(toks, s, chars, k + 1, f, loc);
      assert NoSlash(chars, k, m, f);
    }
  }

  /** A second star straight after a star adds nothing. */
  lemma StarsCollapse(toks: seq<Token>, s: nat, chars: seq<int>, n: nat, f: Flags, loc: Locale)
    requires s < |toks| && toks[s].Star? && n <= |chars| && !HiddenDot(chars, n, f)
    ensures StarFrom(toks, s, chars, n, f, loc) <==> StarFrom(toks, s + 1, chars, n, f, loc)
  {
    if StarFrom(toks, s + 1, chars, n, f, loc) {
      assert MatchFrom(toks, s, chars, n, f, loc);
    }
    if StarFrom(toks, s, chars, n, f, loc) {
      var m := StarWitness(toks, s, chars, n, f, loc);
      var e := StarWitness(toks, s + 1, chars, m, f, loc);
      assert NoSlash(chars, n, e, f);
    }
  }

  // ---------------------------------------------------------------- byte cursors

  /** Pattern offset `i` is where token `a` starts. */
  ghost predicate PatternAt(p: CString, i: nat, toks: seq<Token>, a: nat, f: Flags, loc: Locale) {
    i <= |p| && a <= |toks| && Tokens(p, i, f, loc) == toks[a..]
  }

  /** Text offset `j` is where character `n` starts. */
  ghost predicate TextAt(t: CString, j: nat, chars: seq<int>, n: nat) {
    && j <= |t| && n <= |chars|
    && Characters(t, j) == chars[n..]
    && (j == 0 <==> n == 0)
    && (n > 0 ==> (t[j - 1] == '/' <==> chars[n - 1] == SLASH))
  }

  lemma TokenStep(p: CString, i: nat, toks: seq<Token>, a: nat, f: Flags, loc: Locale)
    requires PatternAt(p, i, toks, a, f, loc) && i < |p|
    ensures a < |toks| && NextToken(p, i, f, loc).0 == toks[a]
    ensures PatternAt(p, NextToken(p, i, f, loc).1, toks, a + 1, f, loc)
  {
    var (tok, next) := NextToken(p, i, f, loc);
    assert toks[a..][1..] == toks[a + 1..];
    assert toks[a..][0] == toks[a];
  }

  lemma TextStep(t: CString, j: nat, chars: seq<int>, n: nat)
    requires TextAt(t, j, chars, n) && j < |t|
    ensures n < |chars| && Character(t, j).0 == chars[n]
    ensures TextAt(t, Character(t, j).1, chars, n + 1)
    ensures t[j] == '/' <==> chars[n] == SLASH
    ensures t[j] == '.' <==> chars[n] == DOT
  {
    assert chars[n..][1..] == chars[n + 1..];
    assert chars[n..][0] == chars[n];
    AsciiUnits(t, j, '/');
    AsciiUnits(t, j, '.');
  }

  lemma TokensNotStar(p: CString, i: nat, f: Flags, loc: Locale)
    requires i < |p|
    ensures NextToken(p, i, f, loc).0.Star? <==> p[i] == '*'
  {
  }

  // ---------------------------------------------------------------- the loop

  predicate Bit(flags: int, bit: int)
    requires bit > 0
  {
    flags / bit % 2 == 1
  }

  function FlagsOf(flags: int): Flags {
    Flags(Bit(flags, 1), Bit(flags, 2), Bit(flags, 4), Bit(flags, 8), Bit(flags, 16))
  }

  /** The test of lines 158-168: a leading dot and no literal dot to match it. */
  predicate StopsHere(p: CString, i: nat, t: CString, j: nat, f: Flags)
    requires i <= |p| && j <= |t|
  {
    && At(t, j) == '.' && f.period
    && (j == 0 || (f.pathname && t[j - 1] == '/'))
    && At(p, if At(p, i) == '\\' && !f.noEscape then i + 1 else i) != '.'
  }

  method StopsAtDot(p: CString, i: nat, t: CString, j: nat, f: Flags) returns (stop: bool)
    requires i <= |p| && j <= |t|
    ensures stop <==> StopsHere(p, i, t, j, f)
  {
    var leading := j == 0 || (f.pathname && t[j - 1] == '/');
    if At(t, j) == '.' && leading && f.period {
      var literal := i;
      if At(p, literal) == '\\' && !f.noEscape {
        literal := literal + 1;
      }
      return At(p, literal) != '.';
    }
    return false;
  }

  /** What the loop has established, with or without a star. */
  ghost predicate Invariant(
    toks: seq<Token>, a: nat, chars: seq<int>, n: nat, hasStar: bool, s: nat, r: nat, k: nat, f: Flags, loc: Locale)
  {
    if hasStar then
      && Trying(toks, s, a, chars, r, k, n, f, loc)
      && (MatchFrom(toks, 0, chars, 0, f, loc) <==> StarFrom(toks, s, chars, k, f, loc))
    else
      && a <= |toks| && n == a && n <= |chars|
      && Run(toks, 0, a, chars, 0, f, loc)
      && (MatchFrom(toks, 0, chars, 0, f, loc) <==> MatchFrom(toks, a, chars, n, f, loc))
  }

  /** Entering a star from either situation. */
  lemma NewStar(
    toks: seq<Token>, a: nat, chars: seq<int>, n: nat, hasStar: bool, s: nat, r: nat, k: nat, f: Flags, loc: Locale)
    requires Invariant(toks, a, chars, n, hasStar, s, r, k, f, loc) && SlashHasNoCase(f, loc)
    requires a < |toks| && toks[a].Star? && !HiddenDot(chars, n, f)
    ensures Invariant(toks, a + 1, chars, n, true, a + 1, n, n, f, loc)
  {
    if hasStar {
      LastStarIsEnough(toks, s, a, chars, r, k, n, f, loc);
    }
  }

  /** Skipping one more star of a group. */
  lemma OneMoreStar(toks: seq<Token>, a: nat, chars: seq<int>, n: nat, f: Flags, loc: Locale)
    requires a < |toks| && toks[a].Star? && Invariant(toks, a, chars, n, true, a, n, n, f, loc)
    ensures Invariant(toks, a + 1, chars, n, true, a + 1, n, n, f, loc)
  {
    StarsCollapse(toks, a, chars, n, f, loc);
  }

  /** Taking one more character with the token at the cursor. */
  lemma InvariantStep(
    toks: seq<Token>, a: nat, chars: seq<int>, n: nat, hasStar: bool, s: nat, r: nat, k: nat, f: Flags, loc: Locale)
    requires Invariant(toks, a, chars, n, hasStar, s, r, k, f, loc)
    requires a < |toks| && !toks[a].Star? && Accepts(toks[a], chars, n, f, loc)
    ensures Invariant(toks, a + 1, chars, n + 1, hasStar, s, r, k, f, loc)
  {
  }

  /** The retry step: the current attempt failed. */
  lemma RetryStep(
    toks: seq<Token>, a: nat, chars: seq<int>, n: nat, s: nat, r: nat, k: nat, f: Flags, loc: Locale)
    requires Invariant(toks, a, chars, n, true, s, r, k, f, loc)
    requires !MatchFrom(toks, a, chars, n, f, loc)
    ensures k <= |chars|
    ensures k == |chars| || (f.pathname && chars[k] == SLASH) ==> !MatchFrom(toks, 0, chars, 0, f, loc)
    ensures k < |chars| && !(f.pathname && chars[k] == SLASH) ==>
              Invariant(toks, s, chars, k + 1, true, s, r, k + 1, f, loc)
  {
    RunThenMatch(toks, s, a, chars, k, f, loc);
    NothingToRetry(toks, s, chars, k, f, loc);
  }

  /** The tokens and characters the byte cursors stand for. */
  datatype View = View(toks: seq<Token>, chars: seq<int>, a: nat, n: nat, s: nat, r: nat, k: nat)

  /** The loop invariant of `Fnmatch`: byte cursors agree with the view, and the view knows
      where the answer lies. */
  ghost predicate Known(
    p: CString, t: CString, i: nat, j: nat, star: Option<nat>, retry: nat, v: View, f: Flags, loc: Locale)
  {
    && v.toks == Tokens(p, 0, f, loc) && v.chars == Characters(t, 0)
    && PatternAt(p, i, v.toks, v.a, f, loc) && TextAt(t, j, v.chars, v.n)
    && (star.Some? ==> PatternAt(p, star.value, v.toks, v.s, f, loc) && TextAt(t, retry, v.chars, v.k))
    && Invariant(v.toks, v.a, v.chars, v.n, star.Some?, v.s, v.r, v.k, f, loc)
  }

  /** The tokens from the cursor match the text from the cursor. */
  ghost predicate Here(v: View, f: Flags, loc: Locale) {
    v.a <= |v.toks| && MatchFrom(v.toks, v.a, v.chars, v.n, f, loc)
  }

  lemma Translate(
    p: CString, t: CString, i: nat, j: nat, star: Option<nat>, retry: nat, v: View, f: Flags, loc: Locale)
    requires Known(p, t, i, j, star, retry, v, f, loc)
    ensures i < |p| <==> v.a < |v.toks|
    ensures j < |t| <==> v.n < |v.chars|
    ensures i < |p| ==> NextToken(p, i, f, loc).0 == v.toks[v.a] && (v.toks[v.a].Star? <==> p[i] == '*')
    ensures j < |t| ==> Character(t, j).0 == v.chars[v.n] && (t[j] == '/' <==> v.chars[v.n] == SLASH)
    ensures StopsHere(p, i, t, j, f) <==>
              HiddenDot(v.chars, v.n, f) && !(v.a < |v.toks| && LiteralDot(v.toks[v.a]))
  {
    ExplicitDot(p, i, f, loc);
    if i < |p| { TokenStep(p, i, v.toks, v.a, f, loc); }
    if j < |t| { TextStep(t, j, v.chars, v.n); }
  }

  /** Stopping at the dot test is final. */
  lemma Stopped(
    p: CString, t: CString, i: nat, j: nat, star: Option<nat>, retry: nat, v: View, f: Flags, loc: Locale)
    requires Known(p, t, i, j, star, retry, v, f, loc) && SlashHasNoCase(f, loc) && StopsHere(p, i, t, j, f)
    ensures !Matches(p, t, f, loc)
  {
    Translate(p, t, i, j, star, retry, v, f, loc);
    MatchesByRecursion(p, t, f, loc);
    if star.Some? {
      HiddenDotIsFinal(v.toks, v.s, v.a, v.chars, v.r, v.k, v.n, f, loc);
    }
  }

  /** Entering a star makes it the only one to retry. */
  lemma Entered(
    p: CString, t: CString, i: nat, j: nat, star: Option<nat>, retry: nat, v: View, f: Flags, loc: Locale)
    requires Known(p, t, i, j, star, retry, v, f, loc) && SlashHasNoCase(f, loc) && !StopsHere(p, i, t, j, f)
    requires i < |p| && p[i] == '*'
    ensures Known(p, t, i + 1, j, Some(i + 1), j, v.(a := v.a + 1, s := v.a + 1, r := v.n, k := v.n), f, loc)
  {
    Translate(p, t, i, j, star, retry, v, f, loc);
    TokenStep(p, i, v.toks, v.a, f, loc);
    NewStar(v.toks, v.a, v.chars, v.n, star.Some?, v.s, v.r, v.k, f, loc);
  }

  /** The end of the pattern at the end of the text is a match of the whole. */
  lemma Found(
    p: CString, t: CString, i: nat, j: nat, star: Option<nat>, retry: nat, v: View, f: Flags, loc: Locale)
    requires Known(p, t, i, j, star, retry, v, f, loc) && i == |p|
    requires j == |t| || (f.leadingDir && t[j] == '/')
    ensures Matches(p, t, f, loc)
  {
    Translate(p, t, i, j, star, retry, v, f, loc);
    MatchesByRecursion(p, t, f, loc);
    if star.Some? {
      RunThenMatch(v.toks, v.s, v.a, v.chars, v.k, f, loc);
      assert NoSlash(v.chars, v.k, v.k, f);
    }
  }

  /** The unit at the pattern cursor takes the character at the text cursor. */
  predicate Takes(p: CString, i: nat, t: CString, j: nat, f: Flags, loc: Locale) {
    i < |p| && j < |t| && TokenMatches(NextToken(p, i, f, loc).0, Character(t, j).0, f, loc)
  }

  /** Consuming one unit and one character. */
  lemma Advanced(
    p: CString, t: CString, i: nat, j: nat, star: Option<nat>, retry: nat, v: View, f: Flags, loc: Locale)
    requires Known(p, t, i, j, star, retry, v, f, loc) && !StopsHere(p, i, t, j, f)
    requires Takes(p, i, t, j, f, loc)
    ensures Known(p, t, NextToken(p, i, f, loc).1, Character(t, j).1, star, retry,
                  v.(a := v.a + 1, n := v.n + 1), f, loc)
  {
    Translate(p, t, i, j, star, retry, v, f, loc);
    TokenStep(p, i, v.toks, v.a, f, loc);
    TextStep(t, j, v.chars, v.n);
    InvariantStep(v.toks, v.a, v.chars, v.n, star.Some?, v.s, v.r, v.k, f, loc);
  }

  /** Giving the star one more character after a failed attempt, or giving up. */
  lemma Retried(
    p: CString, t: CString, i: nat, j: nat, star: Option<nat>, retry: nat, v: View, f: Flags, loc: Locale)
    requires Known(p, t, i, j, star, retry, v, f, loc)
    requires if i == |p| then !(j == |t| || (f.leadingDir && t[j] == '/'))
             else p[i] != '*' && !Takes(p, i, t, j, f, loc)
    ensures star.None? ==> !Matches(p, t, f, loc)
    ensures star.Some? && (retry == |t| || (f.pathname && t[retry] == '/')) ==> !Matches(p, t, f, loc)
    ensures star.Some? && retry < |t| && !(f.pathname && t[retry] == '/') ==>
              Known(p, t, star.value, Character(t, retry).1, star, Character(t, retry).1,
                    v.(a := v.s, n := v.k + 1, k := v.k + 1), f, loc)
  {
    Translate(p, t, i, j, star, retry, v, f, loc);
    assert !Here(v, f, loc);
    MatchesByRecursion(p, t, f, loc);
    if star.Some? {
      RetryStep(v.toks, v.a, v.chars, v.n, v.s, v.r, v.k, f, loc);
      if retry < |t| { TextStep(t, retry, v.chars, v.k); }
    }
  }

  /** One more star of the same group. */
  lemma Skipped(p: CString, t: CString, i: nat, j: nat, v: View, f: Flags, loc: Locale)
    requires Known(p, t, i, j, Some(i), j, v, f, loc) && v.a == v.s && v.k == v.r == v.n
    requires i < |p| && p[i] == '*'
    ensures Known(p, t, i + 1, j, Some(i + 1), j, v.(a := v.a + 1, s := v.a + 1), f, loc)
  {
    TokenStep(p, i, v.toks, v.a, f, loc);
    OneMoreStar(v.toks, v.a, v.chars, v.n, f, loc);
  }

  /** The loop of lines 171-173 over a group of stars. */
  method SkipStars(p: CString, ghost t: CString, i: nat, ghost j: nat, ghost v: View, f: Flags, loc: Locale)
    returns (next: nat, ghost w: View)
    requires i < |p| && p[i] == '*'
    requires Known(p, t, i + 1, j, Some(i + 1), j, v, f, loc) && v.a == v.s && v.k == v.r == v.n
    ensures i < next <= |p| && Known(p, t, next, j, Some(next), j, w, f, loc)
  {
    next, w := i + 1, v;
    while At(p, next) == '*'
      invariant i < next <= |p| && Known(p, t, next, j, Some(next), j, w, f, loc)
      invariant w.a == w.s && w.k == w.r == w.n
      decreases |p| - next
    {
      Skipped(p, t, next, j, w, f, loc);
      next, w := next + 1, w.(a := w.a + 1, s := w.a + 1);
    }
  }

  /** `bridge_fnmatch`. A null pointer or an unknown flag is refused; otherwise the result
      is 0 exactly when some assignment of stars matches. */
  method Fnmatch(pattern: Option<CString>, text: Option<CString>, flags: int, loc: Locale) returns (result: int)
    requires SlashHasNoCase(FlagsOf(flags), loc)
    ensures result == 0 || result == 1
    ensures result == 0 <==>
              pattern.Some? && text.Some? && 0 <= flags < 32 && Matches(pattern.value, text.value, FlagsOf(flags), loc)
  {
    if pattern.None? || text.None? || !(0 <= flags < 32) {
      return 1;
    }
    result := Search(pattern.value, text.value, FlagsOf(flags), loc);
  }

  /** The matching loop. */
  method Search(p: CString, t: CString, f: Flags, loc: Locale) returns (result: int)
    requires SlashHasNoCase(f, loc)
    ensures result == if Matches(p, t, f, loc) then 0 else 1
  {
    var i: nat, j: nat := 0, 0;
    var star: Option<nat>, retry: nat := None, 0;
    ghost var v := View(Tokens(p, 0, f, loc), Characters(t, 0), 0, 0, 0, 0, 0);
    while true
      invariant i <= |p| && j <= |t| && retry <= j && (star.Some? ==> star.value <= i)
      invariant Known(p, t, i, j, star, retry, v, f, loc)
      decreases if star.Some? then |p| - star.value else |p| + 1, |t| - retry, |t| - j
    {
      var stop := StopsAtDot(p, i, t, j, f);
      if stop {
        Stopped(p, t, i, j, star, retry, v, f, loc);
        return 1;
      }
      if At(p, i) == '*' {
        Entered(p, t, i, j, star, retry, v, f, loc);
        i, v := SkipStars(p, t, i, j, v.(a := v.a + 1, s := v.a + 1, r := v.n, k := v.n), f, loc);
        star, retry := Some(i), j;
        continue;
      }
      if i == |p| {
        if j == |t| || (f.leadingDir && t[j] == '/') {
          Found(p, t, i, j, star, retry, v, f, loc);
          return 0;
        }
      } else if j < |t| {
        var ok, next := MatchUnit(p, i, t, j, f, loc);
        if ok {
          Advanced(p, t, i, j, star, retry, v, f, loc);
          var _, after := NextCharacter(t, j);
          i, j, v := next, after, v.(a := v.a + 1, n := v.n + 1);
          continue;
        }
      }
      Retried(p, t, i, j, star, retry, v, f, loc);
      if star.None? || retry == |t| || (f.pathname && t[retry] == '/') {
        return 1;
      }
      var _, after := NextCharacter(t, retry);
      i, j, retry, v := star.value, after, after, v.(a := v.s, n := v.k + 1, k := v.k + 1);
    }
  }
}
