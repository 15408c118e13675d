/** What is a character, and what patterns match, told in characters (src/bridges/libc/match.c:8-197): ordinary text, a
    quoted character, "?", "*", a range in a bracket and its complement, and a class. */
module MatchText {
  import opened Common
  import opened MatchPattern
  import opened Match

  // ---------------------------------------------------------------- bytes and flags

  /** The scalar values of Unicode, without the NUL that ends a C string. */
  lemma ScalarsExactly(value: int)
    ensures ScalarValue(value) <==> 1 <= value < 0xd800 || 0xe000 <= value < 0x11_0000
  {
  }

  /** A unit is a byte that stands for itself or the well-formed UTF-8 of a scalar value: nothing else is decoded. */
  lemma OnlyUtf8IsDecoded(s: CString, i: nat)
    requires i < |s|
    ensures var (value, next) := Character(s, i);
            (value, next) == (s[i] as int, i + 1) || (ScalarValue(value) && s[i..next] == Utf8(value))
  {
    var first := s[i] as int;
    var count := TrailCount(first);
    if 0xc2 <= first <= 0xf4 && i + count < |s| && forall k :: i < k <= i + count ==> Continuation(s[k]) {
      var lead := LeadPayload(first);
      LongUnit(s, i, count);
      UnrolledValue(s, i, count, lead);
      assert Continuation(s[i + 1]);
      if count == 1 {
        TwoBytes(first, s[i + 1] as int);
      } else if count == 2 {
        assert Continuation(s[i + 2]);
        ThreeBytes(first, s[i + 1] as int, s[i + 2] as int);
      } else {
        assert Continuation(s[i + 2]) && Continuation(s[i + 3]);
        FourBytes(first, s[i + 1] as int, s[i + 2] as int, s[i + 3] as int);
      }
    }
    hide Accumulate, Utf8, FromDigits;
  }

  lemma SixBits(high: nat, low: nat)
    requires low < 64
    ensures (high * 64 + low) / 64 == high && (high * 64 + low) % 64 == low
  {
  }

  lemma Shifts(value: nat)
    ensures value / 4096 == value / 64 / 64 && value / 262144 == value / 64 / 64 / 64
  {
  }

  lemma TwoBytes(first: nat, a: nat)
    requires 0xc2 <= first < 0xe0 && 0x80 <= a < 0xc0
    ensures var value := FromDigits(1, LeadPayload(first), a % 64, 0, 0);
            ScalarValue(value) && Utf8(value) == [first as char, a as char]
  {
    var lead, x := first - 0xc0, a - 0x80;
    assert first % 64 == lead && a % 64 == x;
    var value := lead * 64 + x;
    assert value / 64 == lead && value % 64 == x;
  }

  lemma ThreeBytes(first: nat, a: nat, b: nat)
    requires 0xe0 <= first < 0xf0 && 0x80 <= a < 0xc0 && 0x80 <= b < 0xc0
    ensures var value := FromDigits(2, LeadPayload(first), a % 64, b % 64, 0);
            !Refused(2, value) ==> ScalarValue(value) && Utf8(value) == [first as char, a as char, b as char]
  {
    var lead, x, y := first - 0xe0, a - 0x80, b - 0x80;
    assert first % 32 == lead && a % 64 == x && b % 64 == y;
    SixBits(lead * 64 + x, y);
    SixBits(lead, x);
    Shifts((lead * 64 + x) * 64 + y);
  }

  lemma FourBytes(first: nat, a: nat, b: nat, c: nat)
    requires 0xf0 <= first <= 0xf4 && 0x80 <= a < 0xc0 && 0x80 <= b < 0xc0 && 0x80 <= c < 0xc0
    ensures var value := FromDigits(3, LeadPayload(first), a % 64, b % 64, c % 64);
            !Refused(3, value) ==>
              ScalarValue(value) && Utf8(value) == [first as char, a as char, b as char, c as char]
  {
    var lead, x, y, z := first - 0xf0, a - 0x80, b - 0x80, c - 0x80;
    assert first % 16 == lead && a % 64 == x && b % 64 == y && c % 64 == z;
    SixBits((lead * 64 + x) * 64 + y, z);
    SixBits(lead * 64 + x, y);
    SixBits(lead, x);
    Shifts(((lead * 64 + x) * 64 + y) * 64 + z);
  }

  /** The flag word: MATCH_NOESCAPE is 1, MATCH_PATHNAME 2, MATCH_PERIOD 4, MATCH_LEADING_DIR 8, MATCH_CASEFOLD 16. */
  lemma FlagsExactly(f: Flags)
    ensures FlagsOf((if f.noEscape then 1 else 0) + (if f.pathname then 2 else 0) + (if f.period then 4 else 0) +
                    (if f.leadingDir then 8 else 0) + (if f.caseFold then 16 else 0)) == f
  {
  }

  // ---------------------------------------------------------------- in terms of characters

  /** A character of the pattern stands for one of the text; with CASEFOLD their lower cases are compared. */
  predicate Alike(x: int, c: int, f: Flags, loc: Locale) {
    if f.caseFold then loc.lower(x) == loc.lower(c) else x == c
  }

  /** The character at `n` may be hidden: a period at the start, or after a slash with PATHNAME, when PERIOD asks. */
  predicate Hidden(chars: seq<int>, n: nat, f: Flags) {
    f.period && n < |chars| && chars[n] == 46 && (n == 0 || (f.pathname && chars[n - 1] == 47))
  }

  /** The first `n` characters are all of the text, or all before a slash with LEADING_DIR. */
  predicate Covers(chars: seq<int>, n: nat, f: Flags) {
    n == |chars| || (n < |chars| && f.leadingDir && chars[n] == 47)
  }

  /** The text is one character that "?" may stand for. */
  predicate OneVisible(chars: seq<int>, f: Flags) {
    chars != [] && Covers(chars, 1, f) && !(f.pathname && chars[0] == 47) && !Hidden(chars, 0, f)
  }

  // ---------------------------------------------------------------- ordinary text

  /** No character of it means anything but itself. */
  predicate Ordinary(p: CString, f: Flags) {
    '*' !in p && '?' !in p && '[' !in p && ('\\' in p ==> f.noEscape)
  }

  function Literals(chars: seq<int>): (toks: seq<Token>)
    ensures |toks| == |chars|
  {
    seq(|chars|, k requires 0 <= k < |chars| => Literal(chars[k], false))
  }

  lemma {:induction false} OrdinaryTokens(p: CString, i: nat, f: Flags, loc: Locale)
    requires Ordinary(p, f) && i <= |p|
    ensures Tokens(p, i, f, loc) == Literals(Characters(p, i))
    decreases |p| - i
  {
    if i < |p| {
      assert p[i] in p;
      assert !Quotes(p, i, f);
      var (value, next) := Character(p, i);
      assert NextToken(p, i, f, loc) == (Literal(value, false), next);
      OrdinaryTokens(p, next, f, loc);
      assert [Literal(value, false)] + Literals(Characters(p, next)) == Literals([value] + Characters(p, next));
    }
  }

  /** Character by character, what ordinary text takes. */
  predicate TakesText(cs: seq<int>, ts: seq<int>, f: Flags, loc: Locale) {
    && |cs| <= |ts| && Covers(ts, |cs|, f)
    && forall k :: 0 <= k < |cs| ==>
         && Alike(cs[k], ts[k], f, loc)
         && (f.pathname && ts[k] == 47 ==> cs[k] == 47)
         && (Hidden(ts, k, f) ==> cs[k] == 46)
  }

  lemma {:induction false} StraightCuts(
    toks: seq<Token>, chars: seq<int>, cuts: seq<nat>, b: nat, f: Flags, loc: Locale)
    requires Assignment(toks, 0, chars, 0, cuts, f, loc) && b <= |toks|
    requires forall k :: 0 <= k < |toks| ==> !toks[k].Star?
    ensures cuts[b] == b <= |chars|
  {
    if b > 0 {
      StraightCuts(toks, chars, cuts, b - 1, f, loc);
      assert Piece(toks[0 + (b - 1)], chars, cuts[b - 1], cuts[b - 1 + 1], f, loc);
    }
  }

  /** Tokens without a star take one character each. */
  lemma StraightMatch(p: CString, t: CString, f: Flags, loc: Locale)
    requires forall k :: 0 <= k < |Tokens(p, 0, f, loc)| ==> !Tokens(p, 0, f, loc)[k].Star?
    ensures var toks, chars := Tokens(p, 0, f, loc), Characters(t, 0);
            Matches(p, t, f, loc) <==>
            |toks| <= |chars| && Covers(chars, |toks|, f) &&
              forall k :: 0 <= k < |toks| ==> Accepts(toks[k], chars, k, f, loc)
  {
    var toks, chars := Tokens(p, 0, f, loc), Characters(t, 0);
    var n := |toks|;
    hide Tokens, Characters, Accepts;
    if Matches(p, t, f, loc) {
      var cuts :| Assignment(toks, 0, chars, 0, cuts, f, loc);
      StraightCuts(toks, chars, cuts, n, f, loc);
      forall k | 0 <= k < n
        ensures Accepts(toks[k], chars, k, f, loc)
      {
        StraightCuts(toks, chars, cuts, k, f, loc);
        assert Piece(toks[0 + k], chars, cuts[k], cuts[k + 1], f, loc);
      }
    }
    if n <= |chars| && Covers(chars, n, f) && forall k :: 0 <= k < n ==> Accepts(toks[k], chars, k, f, loc) {
      var cuts: seq<nat> := seq(n + 1, k requires 0 <= k <= n => k);
      assert Assignment(toks, 0, chars, 0, cuts, f, loc);
    }
  }

  /** Ordinary text matches itself and, with CASEFOLD, what differs in case only. */
  lemma OrdinaryMatches(p: CString, t: CString, f: Flags, loc: Locale)
    requires Ordinary(p, f)
    ensures Matches(p, t, f, loc) <==> TakesText(Characters(p, 0), Characters(t, 0), f, loc)
  {
    OrdinaryTokens(p, 0, f, loc);
    StraightMatch(p, t, f, loc);
    LiteralsAccept(Characters(p, 0), Characters(t, 0), f, loc);
  }

  lemma LiteralsAccept(cs: seq<int>, ts: seq<int>, f: Flags, loc: Locale)
    ensures |cs| <= |ts| && Covers(ts, |cs|, f) &&
            (forall k :: 0 <= k < |cs| ==> Accepts(Literals(cs)[k], ts, k, f, loc))
            <==> TakesText(cs, ts, f, loc)
  {
    if |cs| <= |ts| {
      forall k | 0 <= k < |cs|
        ensures Accepts(Literals(cs)[k], ts, k, f, loc) <==>
                && Alike(cs[k], ts[k], f, loc)
                && (f.pathname && ts[k] == 47 ==> cs[k] == 47)
                && (Hidden(ts, k, f) ==> cs[k] == 46)
      {
      }
    }
    hide Accepts, Alike, Hidden;
  }

  // ---------------------------------------------------------------- one token

  lemma OneToken(p: CString, t: CString, tok: Token, f: Flags, loc: Locale)
    requires Tokens(p, 0, f, loc) == [tok] && !tok.Star?
    ensures var ts := Characters(t, 0);
            Matches(p, t, f, loc) <==> ts != [] && Covers(ts, 1, f) && Accepts(tok, ts, 0, f, loc)
  {
    StraightMatch(p, t, f, loc);
    hide Tokens, Characters, Accepts, Matches;
  }

  /** "?" matches any one visible character. */
  lemma AnyMatches(t: CString, f: Flags, loc: Locale)
    ensures Matches("?", t, f, loc) <==> OneVisible(Characters(t, 0), f)
  {
    var p: CString := "?";
    assert NextToken(p, 0, f, loc) == (Any, 1);
    assert Tokens(p, 1, f, loc) == [];
    assert Tokens(p, 0, f, loc) == [Any];
    OneToken(p, t, Any, f, loc);
  }

  /** The first `n` characters are the text, and hold no slash with PATHNAME. */
  predicate StarTakes(chars: seq<int>, n: nat, f: Flags) {
    n <= |chars| && Covers(chars, n, f) && (f.pathname ==> 47 !in chars[..n])
  }

  /** "*" matches whatever does not start with a hidden period, up to a slash with PATHNAME. */
  lemma StarMatches(t: CString, f: Flags, loc: Locale)
    ensures Matches("*", t, f, loc) <==>
            !Hidden(Characters(t, 0), 0, f) && exists n: nat :: StarTakes(Characters(t, 0), n, f)
  {
    var p: CString := "*";
    assert NextToken(p, 0, f, loc) == (Star, 1);
    assert Tokens(p, 1, f, loc) == [];
    assert Tokens(p, 0, f, loc) == [Star];
    StarOnly(p, t, f, loc);
  }

  lemma StarOnly(p: CString, t: CString, f: Flags, loc: Locale)
    requires Tokens(p, 0, f, loc) == [Star]
    ensures Matches(p, t, f, loc) <==>
            !Hidden(Characters(t, 0), 0, f) && exists n: nat :: StarTakes(Characters(t, 0), n, f)
  {
    hide Tokens, Characters, Hidden;
    var toks, ts := Tokens(p, 0, f, loc), Characters(t, 0);
    HiddenAlike(ts, f);
    if Matches(p, t, f, loc) {
      var cuts :| Assignment(toks, 0, ts, 0, cuts, f, loc);
      assert Piece(toks[0 + 0], ts, cuts[0], cuts[0 + 1], f, loc);
      assert StarTakes(ts, cuts[1], f);
      assert exists n: nat :: StarTakes(ts, n, f);
    }
    if n: nat :| StarTakes(ts, n, f) && !Hidden(ts, 0, f) {
      assert f.pathname ==> forall k :: 0 <= k < n ==> ts[..n][k] != SLASH;
      var cuts: seq<nat> := [0, n];
      assert Assignment(toks, 0, ts, 0, cuts, f, loc);
    }
  }

  lemma HiddenAlike(ts: seq<int>, f: Flags)
    ensures HiddenDot(ts, 0, f) <==> Hidden(ts, 0, f)
  {
  }

  /** A backslash makes any character ordinary; only a slash cannot be quoted with PATHNAME. */
  lemma QuotedMatches(x: int, t: CString, f: Flags, loc: Locale)
    requires ScalarValue(x) && !f.noEscape
    ensures Matches("\\" + Utf8(x), t, f, loc) <==>
            var ts := Characters(t, 0);
            && ts != [] && Covers(ts, 1, f) && Alike(x, ts[0], f, loc) && !(f.pathname && ts[0] == 47)
            && (Hidden(ts, 0, f) ==> x == 46)
  {
    var p: CString := "\\" + Utf8(x);
    assert p == "\\" + Utf8(x) + "";
    Utf8RoundTrip("\\", x, "");
    assert NextToken(p, 0, f, loc) == (Literal(x, true), |p|);
    assert Tokens(p, |p|, f, loc) == [];
    assert Tokens(p, 0, f, loc) == [Literal(x, true)];
    OneToken(p, t, Literal(x, true), f, loc);
  }

  // ---------------------------------------------------------------- brackets

  /** With CASEFOLD a bracket compares lower cases. */
  function Lower(c: int, f: Flags, loc: Locale): int {
    if f.caseFold then loc.lower(c) else c
  }

  /** Characters that may start a range without being read as something else. */
  predicate StartsRange(x: int, f: Flags) {
    ScalarValue(x) && x != 33 && x != 94 && (x == 92 ==> f.noEscape)
  }

  predicate EndsRange(y: int, f: Flags) {
    ScalarValue(y) && y != 93 && (y == 92 ==> f.noEscape)
  }

  /** "x-y]" */
  function RangeBody(x: int, y: int): CString
    requires ScalarValue(x) && ScalarValue(y)
  {
    Utf8(x) + "-" + Utf8(y) + "]"
  }

  /** The first byte of a character. */
  lemma FirstByte(x: int, c: char)
    requires ScalarValue(x) && 0 < c as int < 0x80
    ensures Utf8(x) != "" && (Utf8(x)[0] == c <==> x == c as int)
  {
  }

  lemma RangeItems(open: CString, x: int, y: int, f: Flags, loc: Locale)
    requires StartsRange(x, f) && EndsRange(y, f)
    ensures var p: CString := open + RangeBody(x, y);
            Items(p, |open|, true, f, loc) == ([Range(Lower(x, f, loc), Lower(y, f, loc))], |p| - 1)
  {
    hide Items, Character, Utf8, Closing;
    var p: CString := open + RangeBody(x, y);
    var i, dash := |open|, |open| + |Utf8(x)|;
    var item := Range(Lower(x, f, loc), Lower(y, f, loc));
    RangeBytes(open, x, y);
    RangeItem(p, i, dash, x, y, f, loc);
    RangeItemsEnd(p, i, item, f, loc);
  }

  /** Where the characters of the range stand. */
  lemma RangeBytes(open: CString, x: int, y: int)
    requires ScalarValue(x) && ScalarValue(y)
    ensures var p: CString := open + RangeBody(x, y); var i, dash := |open|, |open| + |Utf8(x)|;
            && Utf8(x) != "" && Utf8(y) != "" && dash + 1 < |p| && |p| == dash + |Utf8(y)| + 2
            && p[i] == Utf8(x)[0] && p[dash] == '-' && p[dash + 1] == Utf8(y)[0] && p[|p| - 1] == ']'
            && (|Utf8(x)| == 1 ==> p[i + 1] == '-')
            && Character(p, i) == (x, dash) && Character(p, dash + 1) == (y, |p| - 1)
  {
    hide Character, Utf8;
    var p: CString := open + RangeBody(x, y);
    FirstByte(x, 'a');
    FirstByte(y, 'a');
    assert p == open + Utf8(x) + ("-" + Utf8(y) + "]");
    Utf8RoundTrip(open, x, "-" + Utf8(y) + "]");
    assert p == (open + Utf8(x) + "-") + Utf8(y) + "]";
    Utf8RoundTrip(open + Utf8(x) + "-", y, "]");
  }

  lemma OneByte(x: int)
    requires ScalarValue(x)
    ensures x < 0x80 ==> |Utf8(x)| == 1
  {
  }

  lemma RangeItem(p: CString, i: nat, dash: nat, x: int, y: int, f: Flags, loc: Locale)
    requires StartsRange(x, f) && EndsRange(y, f) && i < dash && dash + 1 < |p|
    requires Utf8(x) != "" && Utf8(y) != "" && p[i] == Utf8(x)[0] && p[dash] == '-' && p[dash + 1] == Utf8(y)[0]
    requires |Utf8(x)| == 1 ==> p[i + 1] == '-'
    requires Character(p, i) == (x, dash) && Character(p, dash + 1) == (y, |p| - 1)
    ensures NextItem(p, i, f, loc) == (Range(Lower(x, f, loc), Lower(y, f, loc)), |p| - 1)
  {
    hide Character, Utf8, Closing;
    FirstByte(x, '[');
    FirstByte(x, '\\');
    FirstByte(y, ']');
    FirstByte(y, '\\');
    OneByte(x);
  }

  lemma RangeItemsEnd(p: CString, i: nat, item: Item, f: Flags, loc: Locale)
    requires i < |p| && p != "" && p[|p| - 1] == ']' && NextItem(p, i, f, loc) == (item, |p| - 1)
    ensures Items(p, i, true, f, loc) == ([item], |p| - 1)
  {
    hide NextItem;
    assert Items(p, |p| - 1, false, f, loc) == ([], |p| - 1);
    assert [item] + [] == [item];
  }

  lemma BracketToken(p: CString, invert: bool, item: Item, f: Flags, loc: Locale)
    requires |p| > 2 && p[0] == '[' && p[|p| - 1] == ']'
    requires if invert then p[1] == '!' || p[1] == '^' else p[1] != '!' && p[1] != '^'
    requires Items(p, if invert then 2 else 1, true, f, loc) == ([item], |p| - 1)
    ensures Tokens(p, 0, f, loc) == [Bracket(invert, [item])]
  {
    hide Items;
    assert NextToken(p, 0, f, loc) == (Bracket(invert, [item]), |p|);
    assert Tokens(p, |p|, f, loc) == [];
  }

  /** "[x-y]" matches one visible character from `x` to `y`, both included; "[!x-y]" every other visible one. */
  lemma RangeMatches(x: int, y: int, mark: CString, t: CString, f: Flags, loc: Locale)
    requires StartsRange(x, f) && EndsRange(y, f) && (mark == "" || mark == "!" || mark == "^")
    ensures Matches("[" + mark + RangeBody(x, y), t, f, loc) <==>
            var ts := Characters(t, 0);
            OneVisible(ts, f) &&
              (Lower(x, f, loc) <= Lower(ts[0], f, loc) <= Lower(y, f, loc) <==> mark == "")
  {
    hide Items, Utf8, RangeBody, Tokens, Characters, Character, Matches, Accepts, OneVisible;
    var open: CString := "[" + mark;
    var p: CString := open + RangeBody(x, y);
    var item := Range(Lower(x, f, loc), Lower(y, f, loc));
    RangeItems(open, x, y, f, loc);
    RangeBytes(open, x, y);
    FirstByte(x, '!');
    FirstByte(x, '^');
    assert p[0] == open[0] && (mark != "" ==> p[1] == open[1]);
    BracketToken(p, mark != "", item, f, loc);
    OneToken(p, t, Bracket(mark != "", [item]), f, loc);
    OneItem(item, Characters(t, 0), mark != "", f, loc);
  }

  lemma OneItem(item: Item, ts: seq<int>, invert: bool, f: Flags, loc: Locale)
    ensures ts != [] && Covers(ts, 1, f) && Accepts(Bracket(invert, [item]), ts, 0, f, loc) <==>
            OneVisible(ts, f) && (Contains(item, Lower(ts[0], f, loc), loc) <==> !invert)
  {
    if ts != [] {
      var c := Lower(ts[0], f, loc);
      assert AnyContains([item], c, loc) <==> Contains(item, c, loc) by {
        if Contains(item, c, loc) {
          assert Contains([item][0], c, loc);
        }
      }
    }
    hide AnyContains, Contains;
  }

  /** "[[:name:]]" matches one visible character of the class, whatever the locale knows by that name. */
  lemma ClassMatches(name: CString, mark: CString, t: CString, f: Flags, loc: Locale)
    requires |name| <= 30 && ':' !in name && (mark == "" || mark == "!" || mark == "^")
    ensures Matches("[" + mark + "[:" + name + ":]]", t, f, loc) <==>
            var ts := Characters(t, 0);
            OneVisible(ts, f) && (loc.isClass(name, Lower(ts[0], f, loc)) <==> mark == "")
  {
    hide Items, Closing, Characters, Tokens, NextItem, Matches, Accepts, OneVisible;
    var open: CString := "[" + mark;
    var p: CString := open + "[:" + name + ":]]";
    var item := Class(name);
    ClassItem(open, name, f, loc);
    assert p[0] == open[0] && (mark != "" ==> p[1] == open[1]) && (mark == "" ==> p[1] == '[');
    RangeItemsEnd(p, |open|, item, f, loc);
    BracketToken(p, mark != "", item, f, loc);
    OneToken(p, t, Bracket(mark != "", [item]), f, loc);
    OneItem(item, Characters(t, 0), mark != "", f, loc);
  }

  lemma ClassItem(open: CString, name: CString, f: Flags, loc: Locale)
    requires |name| <= 30 && ':' !in name
    ensures var p: CString := open + "[:" + name + ":]]";
            NextItem(p, |open|, f, loc) == (Class(name), |p| - 1) && p[|p| - 1] == ']'
  {
    hide NextItem;
    var p: CString := open + "[:" + name + ":]]";
    var i := |open|;
    assert p[i + 2..i + 2 + |name|] == name;
    assert p[i] == '[' && p[i + 1] == ':' && p[i + 2 + |name|] == ':' && p[i + 3 + |name|] == ']';
    ClassAt(p, i, name, f, loc);
  }

  lemma ClassAt(p: CString, i: nat, name: CString, f: Flags, loc: Locale)
    requires |name| <= 30 && ':' !in name && i + 3 + |name| < |p| && p[i + 2..i + 2 + |name|] == name
    requires p[i] == '[' && p[i + 1] == ':' && p[i + 2 + |name|] == ':' && p[i + 3 + |name|] == ']'
    ensures NextItem(p, i, f, loc) == (Class(name), i + 4 + |name|)
  {
    hide Closing, Character, Quoted;
    ClosingAfter(p, i + 2, name);
  }

  lemma {:induction false} ClosingAfter(p: CString, i: nat, name: string)
    requires ':' !in name && i + |name| + 1 < |p| && p[i..i + |name|] == name
    requires p[i + |name|] == ':' && p[i + |name| + 1] == ']'
    ensures Closing(p, i, ':') == i + |name|
    decreases |name|
  {
    if name != "" {
      assert p[i] == p[i..i + |name|][0] == name[0];
      assert p[i + 1..i + 1 + |name[1..]|] == p[i..i + |name|][1..];
      ClosingAfter(p, i + 1, name[1..]);
    }
  }
}
