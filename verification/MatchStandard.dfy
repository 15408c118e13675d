/** Section 2.13 of POSIX.1-2017, XCU, with bracket expressions by section 9.3.5 of XBD, beside the matcher
    (src/bridges/libc/match.c:61-197): which patterns it matches as the standard asks, and how it treats the others.
    What the standard leaves open is read as the code does: "^" after a bracket, ranges by code point, unknown or
    unfinished classes, a backslash in a bracket as a quote, a trailing backslash as no match, and the two flags it does
    not have. */
module MatchStandard {
  import opened Common
  import opened MatchPattern
  import opened Match

  // ---------------------------------------------------------------- the standard's own reading of a pattern

  /** "[c", something and "c]": a class, a collating symbol or an equivalence class. */
  predicate Delimited(p: CString, i: nat, c: char)
    requires i < |p| && c != '\0'
  {
    p[i] == '[' && At(p, i + 1) == c && Closing(p, i + 2, c) < |p|
  }

  function Inner(p: CString, i: nat, c: char): CString
    requires i < |p| && c != '\0' && Delimited(p, i, c)
  {
    p[i + 2..Closing(p, i + 2, c)]
  }

  /** The character a collating symbol stands for: the only one of its name, or what the locale says. */
  function Collated(name: CString, loc: Locale): int {
    if name != "" && Character(name, 0).1 == |name| then Character(name, 0).0 else loc.symbol(name)
  }

  /** A character or a collating symbol, by itself or at an end of a range. */
  function PosixPoint(p: CString, i: nat, f: Flags, loc: Locale): (r: (int, nat))
    requires i < |p|
    ensures i < r.1 <= |p|
  {
    if Delimited(p, i, '.') then (Collated(Inner(p, i, '.'), loc), Closing(p, i + 2, '.') + 2) else Quoted(p, i, f)
  }

  /** Without case, the lower one stands for a character. */
  function PosixCase(c: int, f: Flags, loc: Locale): int {
    if f.caseFold then loc.lower(c) else c
  }

  function PosixItem(p: CString, i: nat, f: Flags, loc: Locale): (r: (Item, nat))
    requires i < |p|
    ensures i < r.1 <= |p|
  {
    if Delimited(p, i, ':') then (Class(Inner(p, i, ':')), Closing(p, i + 2, ':') + 2)
    else if Delimited(p, i, '=') then (Equivalent(Inner(p, i, '=')), Closing(p, i + 2, '=') + 2)
    else
      var (low, dash) := PosixPoint(p, i, f, loc);
      if At(p, dash) != '-' || At(p, dash + 1) == '\0' || At(p, dash + 1) == ']' then
        (Single(PosixCase(low, f, loc)), dash)
      else
        var (high, next) := PosixPoint(p, dash + 1, f, loc);
        (Range(PosixCase(low, f, loc), PosixCase(high, f, loc)), next)
  }

  function PosixItems(p: CString, i: nat, first: bool, f: Flags, loc: Locale): (r: (seq<Item>, nat))
    requires i <= |p|
    ensures i <= r.1 <= |p|
    ensures r.1 < |p| ==> p[r.1] == ']'
    decreases |p| - i
  {
    if i == |p| || (p[i] == ']' && !first) then ([], i)
    else
      var (item, next) := PosixItem(p, i, f, loc);
      var (rest, end) := PosixItems(p, next, false, f, loc);
      ([item] + rest, end)
  }

  /** With PATHNAME slashes come before brackets (section 2.13.3): a "[" with a slash before its "]" is ordinary. */
  predicate PosixOpens(p: CString, i: nat, f: Flags, loc: Locale)
    requires i < |p|
  {
    && p[i] == '['
    && var end := PosixItems(p, BodyStart(p, i), true, f, loc).1;
       end < |p| && (f.pathname ==> '/' !in p[i..end])
  }

  function PosixToken(p: CString, i: nat, f: Flags, loc: Locale): (r: (Token, nat))
    requires i < |p|
    ensures i < r.1 <= |p|
  {
    if p[i] == '*' then (Star, i + 1)
    else if p[i] == '\\' && i + 1 == |p| && !f.noEscape then (Never, i + 1)
    else if p[i] == '?' then (Any, i + 1)
    else if PosixOpens(p, i, f, loc) then
      var (items, end) := PosixItems(p, BodyStart(p, i), true, f, loc);
      (Bracket(Inverted(p, i), items), end + 1)
    else
      var (value, next) := Quoted(p, i, f);
      (Literal(value, Quotes(p, i, f)), next)
  }

  function PosixTokens(p: CString, i: nat, f: Flags, loc: Locale): (toks: seq<Token>)
    requires i <= |p|
    decreases |p| - i
  {
    if i == |p| then []
    else
      var (tok, next) := PosixToken(p, i, f, loc);
      [tok] + PosixTokens(p, next, f, loc)
  }

  // ---------------------------------------------------------------- what the standard matches

  /** A member of a bracket: a class of the locale, a character, everything from one character to another, both
      included, or what is equivalent to a character. */
  predicate PosixHolds(item: Item, c: int, loc: Locale) {
    || (item.Class? && loc.isClass(item.name, c))
    || (item.Single? && c == item.value)
    || (item.Range? && c >= item.low && c <= item.high)
    || (item.Equivalent? && loc.isEquivalent(item.name, c))
  }

  /** A matching list takes what one of its members holds, a nonmatching list what none of them does. */
  predicate PosixListed(invert: bool, items: seq<Item>, c: int, loc: Locale) {
    if invert then forall item :: item in items ==> !PosixHolds(item, c, loc)
    else exists item :: item in items && PosixHolds(item, c, loc)
  }

  /** With PATHNAME a slash is matched by a slash only, quoted or not; line 125 refuses a quoted one. */
  predicate PosixTokenMatches(tok: Token, c: int, f: Flags, loc: Locale) {
    if f.pathname && c == 47 then tok.Literal? && tok.value == 47
    else
      || tok.Any?
      || (tok.Literal? && PosixCase(tok.value, f, loc) == PosixCase(c, f, loc))
      || (tok.Bracket? && PosixListed(tok.invert, tok.items, PosixCase(c, f, loc), loc))
  }

  /** With PERIOD a period at the start, or after a slash with PATHNAME, is matched by a period only. */
  predicate PosixLeading(chars: seq<int>, n: nat, f: Flags) {
    f.period && n < |chars| && chars[n] == 46 && (n > 0 ==> f.pathname && chars[n - 1] == 47)
  }

  predicate PosixPiece(tok: Token, chars: seq<int>, n: nat, m: nat, f: Flags, loc: Locale) {
    if tok.Star? then
      && n <= m <= |chars| && !PosixLeading(chars, n, f)
      && (f.pathname ==> 47 !in chars[n..m])
    else
      && n < |chars| && m == n + 1
      && PosixTokenMatches(tok, chars[n], f, loc)
      && (PosixLeading(chars, n, f) ==> tok.Literal? && tok.value == 46)
  }

  /** The whole text, or with LEADING_DIR what is before a slash. */
  ghost predicate PosixAssignment(toks: seq<Token>, chars: seq<int>, cuts: seq<nat>, f: Flags, loc: Locale) {
    && |cuts| == |toks| + 1
    && cuts[0] == 0
    && (cuts[|toks|] == |chars| || (f.leadingDir && cuts[|toks|] < |chars| && chars[cuts[|toks|]] == 47))
    && forall b :: 0 <= b < |toks| ==> PosixPiece(toks[b], chars, cuts[b], cuts[b + 1], f, loc)
  }

  /** What the standard asks for: some assignment of stars to the pattern as it reads it. */
  ghost predicate PosixMatches(p: CString, t: CString, f: Flags, loc: Locale) {
    exists cuts :: PosixAssignment(PosixTokens(p, 0, f, loc), Characters(t, 0), cuts, f, loc)
  }

  // ---------------------------------------------------------------- what a caller can tell from the pattern

  /** Scanning on from `i`: no collating symbol, equivalence class or class name beyond 30 bytes is a member. */
  predicate PlainItems(p: CString, i: nat, first: bool, f: Flags, loc: Locale)
    requires i <= |p|
    decreases |p| - i
  {
    if i == |p| || (p[i] == ']' && !first) then true
    else
      && !Delimited(p, i, '.') && !Delimited(p, i, '=')
      && (Delimited(p, i, ':') ==> HasClass(p, i))
      && (!HasClass(p, i) ==>
            var dash := Quoted(p, i, f).1;
            dash + 1 < |p| && p[dash] == '-' && p[dash + 1] != ']' ==> !Delimited(p, dash + 1, '.'))
      && PlainItems(p, NextItem(p, i, f, loc).1, false, f, loc)
  }

  /** The text of the bracket or character at `i` holds a slash although it is a bracket. */
  predicate HoldsSlash(p: CString, i: nat, f: Flags, loc: Locale)
    requires i < |p|
  {
    NextToken(p, i, f, loc).0.Bracket? && '/' in p[i..NextToken(p, i, f, loc).1]
  }

  /** Scanning on from `i`: brackets have plain members, and none holds a slash if PATHNAME is asked for. */
  predicate Plain(p: CString, i: nat, f: Flags, loc: Locale)
    requires i <= |p|
    decreases |p| - i
  {
    if i == |p| then true
    else
      && (p[i] == '[' ==> PlainItems(p, BodyStart(p, i), true, f, loc))
      && !(f.pathname && HoldsSlash(p, i, f, loc))
      && Plain(p, NextToken(p, i, f, loc).1, f, loc)
  }

  /** The pattern quotes a slash and PATHNAME is asked for. */
  predicate QuotesSlash(p: CString, f: Flags, loc: Locale) {
    f.pathname && Literal(SLASH, true) in Tokens(p, 0, f, loc)
  }

  // ---------------------------------------------------------------- plain patterns are read alike

  lemma SameItem(p: CString, i: nat, first: bool, f: Flags, loc: Locale)
    requires i < |p| && !(p[i] == ']' && !first) && PlainItems(p, i, first, f, loc)
    ensures PosixItem(p, i, f, loc) == NextItem(p, i, f, loc)
  {
  }

  lemma {:induction false} SameItems(p: CString, i: nat, first: bool, f: Flags, loc: Locale)
    requires i <= |p| && PlainItems(p, i, first, f, loc)
    ensures PosixItems(p, i, first, f, loc) == Items(p, i, first, f, loc)
    decreases |p| - i
  {
    if i < |p| && !(p[i] == ']' && !first) {
      SameItem(p, i, first, f, loc);
      hide Delimited, HasClass, PosixItem, NextItem;
      SameItems(p, NextItem(p, i, f, loc).1, false, f, loc);
    }
  }

  lemma SameToken(p: CString, i: nat, f: Flags, loc: Locale)
    requires i < |p| && Plain(p, i, f, loc)
    ensures PosixToken(p, i, f, loc) == NextToken(p, i, f, loc)
  {
    hide PlainItems, PosixItems, Items, Quoted;
    if p[i] == '[' {
      SameItems(p, BodyStart(p, i), true, f, loc);
      var end := Items(p, BodyStart(p, i), true, f, loc).1;
      if end < |p| {
        assert p[i..end + 1] == p[i..end] + [p[end]];
        assert NextToken(p, i, f, loc).1 == end + 1;
      }
    }
    hide Plain, HoldsSlash;
  }

  lemma {:induction false} SameTokens(p: CString, i: nat, f: Flags, loc: Locale)
    requires i <= |p| && Plain(p, i, f, loc)
    ensures PosixTokens(p, i, f, loc) == Tokens(p, i, f, loc)
    decreases |p| - i
  {
    if i < |p| {
      SameToken(p, i, f, loc);
      hide PosixToken, NextToken, HoldsSlash, PlainItems;
      SameTokens(p, NextToken(p, i, f, loc).1, f, loc);
    }
  }

  /** The code's bracket takes what the standard's does. */
  lemma ListedAlike(invert: bool, items: seq<Item>, c: int, loc: Locale)
    ensures AnyContains(items, c, loc) != invert <==> PosixListed(invert, items, c, loc)
  {
    forall item
      ensures Contains(item, c, loc) <==> PosixHolds(item, c, loc)
    {
    }
    if AnyContains(items, c, loc) {
      var k :| 0 <= k < |items| && Contains(items[k], c, loc);
      assert items[k] in items && PosixHolds(items[k], c, loc);
    }
    if item :| item in items && PosixHolds(item, c, loc) {
      var k :| 0 <= k < |items| && items[k] == item;
      assert Contains(items[k], c, loc);
    }
  }

  lemma TakenAlike(tok: Token, c: int, f: Flags, loc: Locale)
    requires SlashHasNoCase(f, loc) && !tok.Star?
    ensures TokenMatches(tok, c, f, loc) <==>
            PosixTokenMatches(tok, c, f, loc) && !(f.pathname && tok == Literal(SLASH, true))
  {
    if tok.Bracket? {
      ListedAlike(tok.invert, tok.items, PosixCase(c, f, loc), loc);
    }
    if f.pathname && tok == Literal(SLASH, true) {
      assert Fold(c, f, loc) == Fold(SLASH, f, loc) ==> c == SLASH;
    }
    hide AnyContains, PosixListed;
  }

  lemma PieceOfStandard(tok: Token, chars: seq<int>, n: nat, m: nat, f: Flags, loc: Locale)
    requires SlashHasNoCase(f, loc)
    ensures Piece(tok, chars, n, m, f, loc) <==>
            PosixPiece(tok, chars, n, m, f, loc) && !(f.pathname && tok == Literal(SLASH, true))
  {
    if tok.Star? {
      if n <= m <= |chars| {
        assert 47 in chars[n..m] <==> exists k :: n <= k < m && chars[k] == SLASH;
      }
    } else if n < |chars| {
      TakenAlike(tok, chars[n], f, loc);
      hide TokenMatches, PosixTokenMatches;
    }
  }

  /** The same tokens: the code refuses quoted slashes under PATHNAME and agrees otherwise. */
  lemma AssignmentOfStandard(toks: seq<Token>, chars: seq<int>, cuts: seq<nat>, f: Flags, loc: Locale)
    requires SlashHasNoCase(f, loc)
    ensures Assignment(toks, 0, chars, 0, cuts, f, loc) <==>
            PosixAssignment(toks, chars, cuts, f, loc) && !(f.pathname && Literal(SLASH, true) in toks)
  {
    hide Piece, PosixPiece, SlashHasNoCase;
    if Assignment(toks, 0, chars, 0, cuts, f, loc) {
      forall b | 0 <= b < |toks|
        ensures PosixPiece(toks[b], chars, cuts[b], cuts[b + 1], f, loc) &&
                !(f.pathname && toks[b] == Literal(SLASH, true))
      {
        assert Piece(toks[0 + b], chars, cuts[b], cuts[b + 1], f, loc);
        PieceOfStandard(toks[b], chars, cuts[b], cuts[b + 1], f, loc);
      }
    }
    if PosixAssignment(toks, chars, cuts, f, loc) && !(f.pathname && Literal(SLASH, true) in toks) {
      forall b | 0 <= b < |toks|
        ensures Piece(toks[0 + b], chars, cuts[b], cuts[b + 1], f, loc)
      {
        assert toks[b] in toks;
        PieceOfStandard(toks[b], chars, cuts[b], cuts[b + 1], f, loc);
      }
    }
  }

  /** A plain pattern is matched as the standard asks, on every text, exactly when it quotes no slash under PATHNAME;
      one that does matches nothing at all. */
  lemma MatchesStandard(p: CString, t: CString, f: Flags, loc: Locale)
    requires SlashHasNoCase(f, loc) && Plain(p, 0, f, loc)
    ensures Matches(p, t, f, loc) <==> PosixMatches(p, t, f, loc) && !QuotesSlash(p, f, loc)
  {
    var toks, chars := Tokens(p, 0, f, loc), Characters(t, 0);
    SameTokens(p, 0, f, loc);
    hide Assignment, PosixAssignment, Tokens, PosixTokens, Characters, SlashHasNoCase, Plain;
    if Matches(p, t, f, loc) {
      var cuts :| Assignment(toks, 0, chars, 0, cuts, f, loc);
      AssignmentOfStandard(toks, chars, cuts, f, loc);
    }
    if PosixMatches(p, t, f, loc) && !QuotesSlash(p, f, loc) {
      var cuts :| PosixAssignment(toks, chars, cuts, f, loc);
      AssignmentOfStandard(toks, chars, cuts, f, loc);
    }
  }

  // ---------------------------------------------------------------- brackets that hold a slash

  /** Some bracket from `i` on holds a slash. */
  predicate SomeHoldsSlash(p: CString, i: nat, f: Flags, loc: Locale)
    requires i <= |p|
    decreases |p| - i
  {
    i < |p| && (HoldsSlash(p, i, f, loc) || SomeHoldsSlash(p, NextToken(p, i, f, loc).1, f, loc))
  }

  /** The slashes among the bytes [i, j). */
  function SlashBytes(p: CString, i: nat, j: nat): nat
    requires i <= j <= |p|
    decreases j - i
  {
    if i == j then 0 else SlashBytes(p, i, j - 1) + if p[j - 1] == '/' then 1 else 0
  }

  predicate IsSlash(tok: Token) {
    tok.Literal? && tok.value == SLASH
  }

  function SlashTokens(toks: seq<Token>): nat {
    if toks == [] then 0 else SlashTokens(toks[..|toks| - 1]) + if IsSlash(toks[|toks| - 1]) then 1 else 0
  }

  function SlashChars(chars: seq<int>): nat {
    if chars == [] then 0 else SlashChars(chars[..|chars| - 1]) + if chars[|chars| - 1] == SLASH then 1 else 0
  }

  lemma {:induction false} SlashBytesSplit(p: CString, i: nat, j: nat, k: nat)
    requires i <= j <= k <= |p|
    ensures SlashBytes(p, i, k) == SlashBytes(p, i, j) + SlashBytes(p, j, k)
    decreases k - j
  {
    if j < k {
      SlashBytesSplit(p, i, j, k - 1);
    }
  }

  lemma {:induction false} SlashBytesSome(p: CString, i: nat, j: nat)
    requires i <= j <= |p|
    ensures SlashBytes(p, i, j) > 0 <==> '/' in p[i..j]
    decreases j - i
  {
    if i < j {
      assert p[i..j] == p[i..j - 1] + [p[j - 1]];
      SlashBytesSome(p, i, j - 1);
    }
  }

  /** A unit holds a slash exactly when it is one. */
  lemma {:induction false} UnitSlashes(p: CString, i: nat)
    requires i < |p|
    ensures SlashBytes(p, i, Character(p, i).1) == if Character(p, i).0 == SLASH then 1 else 0
  {
    AsciiUnits(p, i, '/');
    var next := Character(p, i).1;
    SlashBytesSplit(p, i, i + 1, next);
    assert SlashBytes(p, i, i + 1) == SlashBytes(p, i, i) + if p[i] == '/' then 1 else 0;
    SlashBytesSome(p, i + 1, next);
    forall k | i < k < next
      ensures p[k] != '/'
    {
      assert Continuation(p[k]);
    }
  }

  lemma QuotedSlashes(p: CString, i: nat, f: Flags)
    requires i < |p|
    ensures SlashBytes(p, i, Quoted(p, i, f).1) == if Quoted(p, i, f).0 == SLASH then 1 else 0
  {
    if Quotes(p, i, f) {
      UnitSlashes(p, i + 1);
      SlashBytesSplit(p, i, i + 1, Character(p, i + 1).1);
      assert SlashBytes(p, i, i + 1) == SlashBytes(p, i, i) + 0;
    } else {
      UnitSlashes(p, i);
    }
  }

  lemma OneByte(p: CString, i: nat)
    requires i < |p| && p[i] != '/'
    ensures SlashBytes(p, i, i + 1) == 0
  {
    assert SlashBytes(p, i, i + 1) == SlashBytes(p, i, i);
  }

  lemma TokenSlashes(p: CString, i: nat, f: Flags, loc: Locale)
    requires i < |p|
    ensures var (tok, next) := NextToken(p, i, f, loc);
            if tok.Bracket? then HoldsSlash(p, i, f, loc) <==> SlashBytes(p, i, next) > 0
            else SlashBytes(p, i, next) == if IsSlash(tok) then 1 else 0
  {
    QuotedSlashes(p, i, f);
    if p[i] != '/' { OneByte(p, i); }
    SlashBytesSome(p, i, NextToken(p, i, f, loc).1);
    hide Items, Quoted, SlashBytes;
  }

  lemma PosixTokenSlashes(p: CString, i: nat, f: Flags, loc: Locale)
    requires i < |p| && f.pathname
    ensures var (tok, next) := PosixToken(p, i, f, loc);
            SlashBytes(p, i, next) == if IsSlash(tok) then 1 else 0
  {
    QuotedSlashes(p, i, f);
    if p[i] != '/' { OneByte(p, i); }
    var end := PosixItems(p, BodyStart(p, i), true, f, loc).1;
    if PosixOpens(p, i, f, loc) {
      assert p[i..end + 1] == p[i..end] + [p[end]];
      SlashBytesSome(p, i, end + 1);
    }
    hide PosixItems, Quoted, SlashBytes;
  }

  lemma {:induction false} SlashTokensCons(tok: Token, rest: seq<Token>)
    ensures SlashTokens([tok] + rest) == SlashTokens(rest) + if IsSlash(tok) then 1 else 0
    decreases |rest|
  {
    var all := [tok] + rest;
    if rest == [] {
      assert all[..0] == [];
    } else {
      assert all[..|all| - 1] == [tok] + rest[..|rest| - 1];
      SlashTokensCons(tok, rest[..|rest| - 1]);
    }
  }

  /** The code takes the slashes outside brackets, the standard all of them. */
  lemma {:induction false} CodeSlashes(p: CString, i: nat, f: Flags, loc: Locale)
    requires i <= |p|
    ensures SlashTokens(Tokens(p, i, f, loc)) <= SlashBytes(p, i, |p|)
    ensures SomeHoldsSlash(p, i, f, loc) ==> SlashTokens(Tokens(p, i, f, loc)) < SlashBytes(p, i, |p|)
    decreases |p| - i
  {
    if i < |p| {
      var (tok, next) := NextToken(p, i, f, loc);
      TokenSlashes(p, i, f, loc);
      SlashTokensCons(tok, Tokens(p, next, f, loc));
      SlashBytesSplit(p, i, next, |p|);
      hide NextToken, PosixToken, SlashTokens, SlashBytes, HoldsSlash;
      CodeSlashes(p, next, f, loc);
    }
  }

  lemma {:induction false} PosixSlashes(p: CString, i: nat, f: Flags, loc: Locale)
    requires i <= |p| && f.pathname
    ensures SlashTokens(PosixTokens(p, i, f, loc)) == SlashBytes(p, i, |p|)
    decreases |p| - i
  {
    if i < |p| {
      var (tok, next) := PosixToken(p, i, f, loc);
      PosixTokenSlashes(p, i, f, loc);
      SlashTokensCons(tok, PosixTokens(p, next, f, loc));
      SlashBytesSplit(p, i, next, |p|);
      hide NextToken, PosixToken, SlashTokens, SlashBytes, HoldsSlash;
      PosixSlashes(p, next, f, loc);
    }
  }

  lemma {:induction false} NoSlashChars(chars: seq<int>, n: nat, m: nat)
    requires n <= m <= |chars| && forall k :: n <= k < m ==> chars[k] != SLASH
    ensures SlashChars(chars[..m]) == SlashChars(chars[..n])
    decreases m - n
  {
    if n < m {
      assert chars[..m][..m - 1] == chars[..m - 1];
      NoSlashChars(chars, n, m - 1);
    }
  }

  /** Under PATHNAME the text matched so far has as many slashes as the tokens that took it. */
  lemma {:induction false} MatchedSlashes(toks: seq<Token>, chars: seq<int>, cuts: seq<nat>, b: nat, f: Flags,
      loc: Locale)
    requires f.pathname && SlashHasNoCase(f, loc) && PosixAssignment(toks, chars, cuts, f, loc) && b <= |toks|
    ensures cuts[b] <= |chars| && SlashChars(chars[..cuts[b]]) == SlashTokens(toks[..b])
  {
    if b > 0 {
      MatchedSlashes(toks, chars, cuts, b - 1, f, loc);
      var tok, n, m := toks[b - 1], cuts[b - 1], cuts[b];
      assert PosixPiece(tok, chars, n, m, f, loc);
      assert toks[..b][..b - 1] == toks[..b - 1];
      if tok.Star? {
        NoSlashChars(chars, n, m);
      } else {
        assert chars[..m][..n] == chars[..n];
        if IsSlash(tok) {
          assert Fold(chars[n], f, loc) == Fold(SLASH, f, loc) ==> chars[n] == SLASH;
        }
      }
    }
  }

  /** With PATHNAME and a bracket that holds a slash, the code and the standard never both match a text: they agree
      exactly where neither does. */
  lemma SlashedBracketsDiffer(p: CString, t: CString, f: Flags, loc: Locale)
    requires f.pathname && !f.leadingDir && SlashHasNoCase(f, loc) && SomeHoldsSlash(p, 0, f, loc)
    ensures !(Matches(p, t, f, loc) && PosixMatches(p, t, f, loc))
  {
    if Matches(p, t, f, loc) && PosixMatches(p, t, f, loc) {
      var chars, code, standard := Characters(t, 0), Tokens(p, 0, f, loc), PosixTokens(p, 0, f, loc);
      assert chars[..|chars|] == chars && code[..|code|] == code && standard[..|standard|] == standard;
      CodeSlashes(p, 0, f, loc);
      PosixSlashes(p, 0, f, loc);
      hide Tokens, PosixTokens, Characters, SlashHasNoCase, SomeHoldsSlash, SlashBytes, SlashTokens, SlashChars;
      var a :| Assignment(code, 0, chars, 0, a, f, loc);
      var b :| PosixAssignment(standard, chars, b, f, loc);
      AssignmentOfStandard(code, chars, a, f, loc);
      MatchedSlashes(code, chars, a, |code|, f, loc);
      MatchedSlashes(standard, chars, b, |standard|, f, loc);
      assert false;
    }
  }

  // ---------------------------------------------------------------- witnesses

  /** A quoted slash. */
  lemma EscapedSlash(f: Flags, loc: Locale)
    requires !f.noEscape
    ensures Plain("\\/", 0, f, loc)
    ensures Matches("\\/", "/", f, loc) <==> !f.pathname
    ensures PosixMatches("\\/", "/", f, loc)
  {
    var p: CString, t: CString := "\\/", "/";
    assert NextToken(p, 0, f, loc) == (Literal(SLASH, true), 2);
    assert PosixToken(p, 0, f, loc) == (Literal(SLASH, true), 2);
    assert Tokens(p, 0, f, loc) == [Literal(SLASH, true)] == PosixTokens(p, 0, f, loc);
    assert Character(t, 0) == (SLASH, 1);
    assert Characters(t, 0) == [SLASH];
    MatchesByRecursion(p, t, f, loc);
    assert PosixPiece(Literal(SLASH, true), [SLASH], 0, 1, f, loc);
    assert PosixAssignment(PosixTokens(p, 0, f, loc), Characters(t, 0), [0, 1], f, loc);
  }

  lemma AsciiStep(t: CString, i: nat)
    requires i < |t| && t[i] as int < 0x80
    ensures Characters(t, i) == [t[i] as int] + Characters(t, i + 1)
  {
  }

  /** A plain character of a pattern, as both read it. */
  lemma OrdinaryToken(p: CString, i: nat, f: Flags, loc: Locale)
    requires i < |p| && p[i] as int < 0x80 && p[i] != '*' && p[i] != '\\' && p[i] != '?' && p[i] != '['
    ensures NextToken(p, i, f, loc) == (Literal(p[i] as int, false), i + 1) == PosixToken(p, i, f, loc)
    ensures Tokens(p, i, f, loc) == [Literal(p[i] as int, false)] + Tokens(p, i + 1, f, loc)
    ensures PosixTokens(p, i, f, loc) == [Literal(p[i] as int, false)] + PosixTokens(p, i + 1, f, loc)
  {
  }

  /** A plain member of a bracket, as both read it. */
  lemma OrdinaryItem(p: CString, i: nat, first: bool, f: Flags, loc: Locale)
    requires i + 1 < |p| && p[i] as int < 0x80 && p[i] != ']' && p[i] != '\\' && p[i] != '[' && p[i + 1] != '-'
    ensures Items(p, i, first, f, loc) ==
            ([Single(Fold(p[i] as int, f, loc))] + Items(p, i + 1, false, f, loc).0, Items(p, i + 1, false, f, loc).1)
    ensures PosixItems(p, i, first, f, loc) ==
            ([Single(Fold(p[i] as int, f, loc))] + PosixItems(p, i + 1, false, f, loc).0,
                PosixItems(p, i + 1, false, f, loc).1)
  {
  }

  /** How many characters tokens without a star take. */
  lemma {:induction false} StarFree(toks: seq<Token>, chars: seq<int>, cuts: seq<nat>, b: nat, f: Flags, loc: Locale)
    requires PosixAssignment(toks, chars, cuts, f, loc) && b <= |toks| && forall k :: 0 <= k < b ==> !toks[k].Star?
    ensures cuts[b] == b <= |chars|
  {
    if b > 0 {
      StarFree(toks, chars, cuts, b - 1, f, loc);
      assert PosixPiece(toks[b - 1], chars, cuts[b - 1], cuts[b - 1 + 1], f, loc);
    }
  }

  const SLASHED: CString := "a[b/c]d"
  const OTHER: CString := "abd"

  lemma SlashedItems(f: Flags, loc: Locale)
    requires !f.caseFold
    ensures Items(SLASHED, 2, true, f, loc) == ([Single(98), Single(SLASH), Single(99)], 5)
    ensures PosixItems(SLASHED, 2, true, f, loc).1 == 5
  {
    OrdinaryItem(SLASHED, 2, true, f, loc);
    OrdinaryItem(SLASHED, 3, false, f, loc);
    OrdinaryItem(SLASHED, 4, false, f, loc);
    assert Items(SLASHED, 5, false, f, loc) == ([], 5);
    assert PosixItems(SLASHED, 5, false, f, loc).1 == 5;
    hide Items, PosixItems;
    assert [Single(98)] + ([Single(SLASH)] + ([Single(99)] + [])) == [Single(98), Single(SLASH), Single(99)];
  }

  lemma SlashedTokens(f: Flags, loc: Locale)
    requires f.pathname && !f.caseFold
    ensures Tokens(SLASHED, 0, f, loc) ==
            [Literal(97, false), Bracket(false, [Single(98), Single(SLASH), Single(99)]), Literal(100, false)]
    ensures PosixTokens(SLASHED, 0, f, loc) ==
            [Literal(97, false), Literal(91, false), Literal(98, false), Literal(SLASH, false), Literal(99, false),
             Literal(93, false), Literal(100, false)]
  {
    SlashedItems(f, loc);
    assert SLASHED[1..5][2] == '/';
    hide Items, PosixItems;
    assert BodyStart(SLASHED, 1) == 2;
    assert NextToken(SLASHED, 1, f, loc) == (Bracket(false, [Single(98), Single(SLASH), Single(99)]), 6);
    assert PosixToken(SLASHED, 1, f, loc) == (Literal(91, false), 2);
    OrdinaryToken(SLASHED, 6, f, loc);
    OrdinaryToken(SLASHED, 5, f, loc);
    OrdinaryToken(SLASHED, 4, f, loc);
    OrdinaryToken(SLASHED, 3, f, loc);
    OrdinaryToken(SLASHED, 2, f, loc);
    OrdinaryToken(SLASHED, 0, f, loc);
    hide NextToken, PosixToken;
    assert Tokens(SLASHED, 7, f, loc) == [] == PosixTokens(SLASHED, 7, f, loc);
  }

  /** A pattern of plain literals matches their own text. */
  lemma LiteralsTake(p: CString, t: CString, f: Flags, loc: Locale)
    requires var toks, chars := PosixTokens(p, 0, f, loc), Characters(t, 0);
             |toks| == |chars| && forall k :: 0 <= k < |toks| ==> toks[k] == Literal(chars[k], false) && chars[k] != DOT
    ensures PosixMatches(p, t, f, loc)
  {
    var toks, chars := PosixTokens(p, 0, f, loc), Characters(t, 0);
    hide PosixTokens, Characters;
    assert PosixAssignment(toks, chars, seq(|toks| + 1, k => k), f, loc);
  }

  /** More tokens without a star than characters. */
  lemma TooShort(p: CString, t: CString, f: Flags, loc: Locale)
    requires var toks := PosixTokens(p, 0, f, loc);
             |toks| > |Characters(t, 0)| && forall k :: 0 <= k < |toks| ==> !toks[k].Star?
    ensures !PosixMatches(p, t, f, loc)
  {
    var toks, chars := PosixTokens(p, 0, f, loc), Characters(t, 0);
    hide PosixTokens, Characters;
    forall cuts | PosixAssignment(toks, chars, cuts, f, loc)
      ensures false
    {
      StarFree(toks, chars, cuts, |toks|, f, loc);
    }
  }

  lemma BracketTakes(toks: seq<Token>, chars: seq<int>, f: Flags, loc: Locale)
    requires toks == [Literal(97, false), Bracket(false, [Single(98), Single(SLASH), Single(99)]), Literal(100, false)]
    requires chars == [97, 98, 100] && !f.caseFold
    ensures Assignment(toks, 0, chars, 0, [0, 1, 2, 3], f, loc)
  {
    assert Contains(toks[1].items[0], 98, loc);
    assert Piece(toks[0], chars, 0, 1, f, loc) && Piece(toks[1], chars, 1, 2, f, loc) &&
           Piece(toks[2], chars, 2, 3, f, loc);
    hide Piece;
    var cuts := [0, 1, 2, 3];
    forall b | 0 <= b < 3
      ensures Piece(toks[0 + b], chars, cuts[b], cuts[b + 1], f, loc)
    {
      assert b == 0 || b == 1 || b == 2;
    }
  }

  /** The first two tokens are no stars, and the second does not take the second character. */
  lemma SecondRefuses(p: CString, t: CString, f: Flags, loc: Locale)
    requires var toks := Tokens(p, 0, f, loc);
             |toks| >= 2 && !toks[0].Star? && !toks[1].Star? && !Accepts(toks[1], Characters(t, 0), 1, f, loc)
    ensures !Matches(p, t, f, loc)
  {
    var toks, chars := Tokens(p, 0, f, loc), Characters(t, 0);
    hide Tokens, Characters;
    forall cuts | Assignment(toks, 0, chars, 0, cuts, f, loc)
      ensures false
    {
      SecondAccepted(toks, chars, cuts, f, loc);
    }
  }

  lemma SecondAccepted(toks: seq<Token>, chars: seq<int>, cuts: seq<nat>, f: Flags, loc: Locale)
    requires Assignment(toks, 0, chars, 0, cuts, f, loc) && |toks| >= 2 && !toks[0].Star? && !toks[1].Star?
    ensures Accepts(toks[1], chars, 1, f, loc)
  {
    assert Piece(toks[0 + 0], chars, cuts[0], cuts[0 + 1], f, loc);
    assert Piece(toks[0 + 1], chars, cuts[1], cuts[1 + 1], f, loc);
  }

  /** A slash in a bracket, the standard's own example: with PATHNAME the pattern matches that text literally, and the
      code matches another. */
  lemma SlashInBracket(f: Flags, loc: Locale)
    requires f.pathname && !f.caseFold
    ensures Matches(SLASHED, OTHER, f, loc) && !PosixMatches(SLASHED, OTHER, f, loc)
    ensures !Matches(SLASHED, SLASHED, f, loc) && PosixMatches(SLASHED, SLASHED, f, loc)
  {
    hide Tokens, PosixTokens, Characters;
    SlashedTokens(f, loc);
    SlashedTexts();
    BracketMatches(SLASHED, OTHER, f, loc);
    SecondRefuses(SLASHED, SLASHED, f, loc);
    TooShort(SLASHED, OTHER, f, loc);
    LiteralsTake(SLASHED, SLASHED, f, loc);
  }

  lemma BracketMatches(p: CString, t: CString, f: Flags, loc: Locale)
    requires Tokens(p, 0, f, loc) ==
             [Literal(97, false), Bracket(false, [Single(98), Single(SLASH), Single(99)]), Literal(100, false)]
    requires Characters(t, 0) == [97, 98, 100] && !f.caseFold
    ensures Matches(p, t, f, loc)
  {
    hide Tokens, Characters, Assignment;
    BracketTakes(Tokens(p, 0, f, loc), Characters(t, 0), f, loc);
  }

  lemma SlashedTexts()
    ensures Characters(SLASHED, 0) == [97, 91, 98, SLASH, 99, 93, 100] && Characters(OTHER, 0) == [97, 98, 100]
  {
    hide Characters;
    assert Characters(SLASHED, 7) == [] == Characters(OTHER, 3) by { NoCharacters(SLASHED); NoCharacters(OTHER); }
    AsciiStep(SLASHED, 6);
    AsciiStep(SLASHED, 5);
    AsciiStep(SLASHED, 4);
    AsciiStep(SLASHED, 3);
    AsciiStep(SLASHED, 2);
    AsciiStep(SLASHED, 1);
    AsciiStep(SLASHED, 0);
    AsciiStep(OTHER, 2);
    AsciiStep(OTHER, 1);
    AsciiStep(OTHER, 0);
  }

  lemma NoCharacters(t: CString)
    ensures Characters(t, |t|) == []
  {
  }

  const COLLATING: CString := "[[.a.]]"
  const EQUIVALENT: CString := "[[=a=]]"

  /** The code closes the bracket at the first `]`, and an ordinary one is left. */
  lemma MembersEnd(p: CString, c: char, f: Flags, loc: Locale)
    requires (c == '.' || c == '=') && p == ['[', '[', c, 'a', c, ']', ']']
    ensures Items(p, 1, true, f, loc).1 == 5
  {
    assert Items(p, 5, false, f, loc) == ([], 5);
    OrdinaryItem(p, 4, false, f, loc);
    OrdinaryItem(p, 3, false, f, loc);
    OrdinaryItem(p, 2, false, f, loc);
    assert NextItem(p, 1, f, loc).1 == 2;
  }

  /** What the code reads in both: a bracket of four members, and a "]". */
  lemma MembersByCode(p: CString, c: char, f: Flags, loc: Locale)
    requires (c == '.' || c == '=') && p == ['[', '[', c, 'a', c, ']', ']']
    ensures var toks := Tokens(p, 0, f, loc); |toks| == 2 && !toks[0].Star? && !toks[1].Star?
  {
    hide Items;
    MembersEnd(p, c, f, loc);
    OrdinaryToken(p, 6, f, loc);
    assert Tokens(p, 7, f, loc) == [];
  }

  /** What the standard reads: a bracket of one member. */
  lemma MembersByStandard(p: CString, c: char, f: Flags, loc: Locale)
    requires (c == '.' || c == '=') && p == ['[', '[', c, 'a', c, ']', ']']
    ensures PosixTokens(p, 0, f, loc) ==
            [Bracket(false, [if c == '.' then Single(Fold(97, f, loc)) else Equivalent("a")])]
  {
    assert Closing(p, 4, c) == 4;
    assert Closing(p, 3, c) == 4;
    assert Inner(p, 1, c) == "a";
    OnlyA("a");
    var item := if c == '.' then Single(Fold(97, f, loc)) else Equivalent("a");
    assert PosixItem(p, 1, f, loc) == (item, 6);
    hide PosixItem, Closing;
    assert PosixItems(p, 6, false, f, loc) == ([], 6);
    assert [item] + [] == [item];
    assert PosixItems(p, 1, true, f, loc) == ([item], 6);
    hide PosixItems;
    assert '/' !in p[0..6];
    assert PosixTokens(p, 7, f, loc) == [];
  }

  lemma OnlyA(name: CString)
    requires name == "a"
    ensures Character(name, 0) == (97, 1) && Characters(name, 0) == [97]
  {
    assert Characters(name, 1) == [];
  }

  /** A collating symbol and an equivalence class: the standard takes one character, the code two. */
  lemma CollatingMembers(t: CString, f: Flags, loc: Locale)
    requires t == "a"
    ensures !Matches(COLLATING, t, f, loc) && PosixMatches(COLLATING, t, f, loc)
    ensures !Matches(EQUIVALENT, t, f, loc)
    ensures PosixMatches(EQUIVALENT, t, f, loc) <==> loc.isEquivalent("a", Fold(97, f, loc))
  {
    MembersByCode(COLLATING, '.', f, loc);
    MembersByCode(EQUIVALENT, '=', f, loc);
    MembersByStandard(COLLATING, '.', f, loc);
    MembersByStandard(EQUIVALENT, '=', f, loc);
    OnlyA(t);
    hide Tokens, PosixTokens, Characters;
    SecondRefuses(COLLATING, t, f, loc);
    SecondRefuses(EQUIVALENT, t, f, loc);
    OneMember(COLLATING, t, Single(Fold(97, f, loc)), f, loc);
    OneMember(EQUIVALENT, t, Equivalent("a"), f, loc);
  }

  lemma OneMember(p: CString, t: CString, item: Item, f: Flags, loc: Locale)
    requires PosixTokens(p, 0, f, loc) == [Bracket(false, [item])] && Characters(t, 0) == [97]
    ensures PosixMatches(p, t, f, loc) <==> Contains(item, Fold(97, f, loc), loc)
  {
    var toks := PosixTokens(p, 0, f, loc);
    hide PosixTokens, Characters;
    if PosixMatches(p, t, f, loc) {
      var cuts :| PosixAssignment(toks, [97], cuts, f, loc);
      assert PosixPiece(toks[0], [97], cuts[0], cuts[0 + 1], f, loc);
    }
    if Contains(item, Fold(97, f, loc), loc) {
      assert item in toks[0].items && PosixHolds(item, PosixCase(97, f, loc), loc);
      assert PosixAssignment(toks, [97], [0, 1], f, loc);
    }
  }
}
