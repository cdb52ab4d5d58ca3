/** The marker tokens of lib/markers.js: `prefix + index + '>'` as handed
    out, `prefix + index + '&gt;'` once the engine has HTML-escaped it, and
    the regular expression `quotemeta(prefix) + '(\d+)(>|&gt;)'` that finds
    them again. */
module TokenPattern {
  import opened Decimal
  import opened JsValues
  import opened GlobalRegex

  /** `\w`: letters, digits and underscore. */
  predicate IsWordChar(c: char) {
    'a' <= c <= 'z' || 'A' <= c <= 'Z' || '0' <= c <= '9' || c == '_'
  }

  /** `String(prefix).replace(/(\W)/g, '\\$1')`: a backslash before every
      non-word character. */
  function QuoteMeta(p: string): string {
    if p == [] then []
    else (if IsWordChar(p[0]) then [p[0]] else ['\\', p[0]]) + QuoteMeta(p[1..])
  }

  /** The matcher of `/(\W)/`: one non-word character, captured. */
  function NonWordAt(s: string, p: nat): (r: Option<Match>)
    ensures r.Some? ==> r.value.offset == p && p <= r.value.end <= |s|
  {
    if p < |s| && !IsWordChar(s[p]) then Some(Match(p, p + 1, [Some([s[p]])])) else None
  }

  function NonWordMatcher(): Matcher {
    (s: string, p: nat) => NonWordAt(s, p)
  }

  lemma NonWordMatcherWellBehaved()
    ensures WellBehaved(NonWordMatcher())
  {
  }

  /** Splicing from a position that no match starts at moves one character
      into the result. */
  lemma SpliceFromStep(s: string, ms: seq<Match>, reps: seq<string>, i: nat)
    requires ValidFrom(s, ms, i + 1) && |reps| == |ms|
    ensures ValidFrom(s, ms, i)
    ensures SpliceFrom(s, ms, reps, i) == [s[i]] + SpliceFrom(s, ms, reps, i + 1)
  {
    if ms != [] {
      assert s[i..ms[0].offset] == [s[i]] + s[i + 1..ms[0].offset];
    }
  }

  /** One step of the scan for `/(\W)/g`: a word character is skipped, a
      non-word character is a one-character match. */
  lemma NonWordScanStep(s: string, i: nat)
    requires i < |s|
    ensures ScanFrom(NonWordMatcher(), s, i) ==
      if IsWordChar(s[i]) then ScanFrom(NonWordMatcher(), s, i + 1)
      else [Match(i, i + 1, [Some([s[i]])])] + ScanFrom(NonWordMatcher(), s, i + 1)
  {
    NonWordMatcherWellBehaved();
  }

  /** `'\\$1'` at a one-character match is a backslash and that character. */
  lemma ExpandBackslashGroup(s: string, i: nat)
    requires i < |s|
    ensures Expand("\\$1", s, Match(i, i + 1, [Some([s[i]])])) == ['\\', s[i]]
  {
    var m := Match(i, i + 1, [Some([s[i]])]);
    ExpandFirstGroup(s, m);
    assert "\\$1"[1..] == "$1";
    assert Expand("\\$1", s, m) == ['\\'] + Expand("$1", s, m);
  }

  /** `'$1'` is the text of the first group. */
  lemma ExpandFirstGroup(s: string, m: Match)
    requires m.offset <= m.end <= |s| && |m.groups| >= 1
    ensures Expand("$1", s, m) == GroupText(m, 1)
  {
    assert DigitsValue("1") == 1;
    assert "$1"[2..] == "";
    assert Expand("", s, m) == "";
    assert GroupText(m, 1) + "" == GroupText(m, 1);
  }

  /** Splicing from a non-word character, which the scan matched on its
      own, puts the backslash and the character into the result. */
  lemma SpliceNonWordStep(s: string, i: nat, tail: seq<Match>)
    requires i < |s| && !IsWordChar(s[i]) && ValidFrom(s, tail, i + 1)
    ensures ValidFrom(s, [Match(i, i + 1, [Some([s[i]])])] + tail, i)
    ensures SpliceFrom(s, [Match(i, i + 1, [Some([s[i]])])] + tail,
                       Expansions("\\$1", s, [Match(i, i + 1, [Some([s[i]])])] + tail), i)
            == ['\\', s[i]] + SpliceFrom(s, tail, Expansions("\\$1", s, tail), i + 1)
  {
    var m := Match(i, i + 1, [Some([s[i]])]);
    var ms := [m] + tail;
    ConsValid(s, m, tail, i);
    ExpansionsCons("\\$1", s, ms);
    ExpandBackslashGroup(s, i);
    SpliceFromCons(s, ms, Expansions("\\$1", s, ms), i);
    assert s[i..i] == "";
  }

  /** The quoting loop, from position `i` on, is the global replace the
      constructor performs. */
  lemma {:induction false} QuoteMetaFrom(s: string, i: nat)
    requires i <= |s|
    ensures ValidFrom(s, ScanFrom(NonWordMatcher(), s, i), i)
    ensures SpliceFrom(s, ScanFrom(NonWordMatcher(), s, i),
                       Expansions("\\$1", s, ScanFrom(NonWordMatcher(), s, i)), i) == QuoteMeta(s[i..])
    decreases |s| - i
  {
    NonWordMatcherWellBehaved();
    var ms := ScanFrom(NonWordMatcher(), s, i);
    if i == |s| {
      assert ScanFrom(NonWordMatcher(), s, i + 1) == [];
      assert ms == [];
    } else {
      QuoteMetaFrom(s, i + 1);
      QuoteMetaStep(s, i);
    }
  }

  lemma QuoteMetaCons(s: string, i: nat)
    requires i < |s|
    ensures QuoteMeta(s[i..]) == (if IsWordChar(s[i]) then [s[i]] else ['\\', s[i]]) + QuoteMeta(s[i + 1..])
  {
    assert s[i..][1..] == s[i + 1..];
  }

  /** One character of the quoting loop, given the rest of the text. */
  lemma QuoteMetaStep(s: string, i: nat)
    requires i < |s| && WellBehaved(NonWordMatcher())
    requires ValidFrom(s, ScanFrom(NonWordMatcher(), s, i + 1), i + 1)
    requires SpliceFrom(s, ScanFrom(NonWordMatcher(), s, i + 1),
                        Expansions("\\$1", s, ScanFrom(NonWordMatcher(), s, i + 1)), i + 1) == QuoteMeta(s[i + 1..])
    ensures ValidFrom(s, ScanFrom(NonWordMatcher(), s, i), i)
    ensures SpliceFrom(s, ScanFrom(NonWordMatcher(), s, i),
                       Expansions("\\$1", s, ScanFrom(NonWordMatcher(), s, i)), i) == QuoteMeta(s[i..])
  {
    NonWordScanStep(s, i);
    QuoteMetaCons(s, i);
    var tail := ScanFrom(NonWordMatcher(), s, i + 1);
    if IsWordChar(s[i]) {
      SpliceFromStep(s, tail, Expansions("\\$1", s, tail), i);
    } else {
      SpliceNonWordStep(s, i, tail);
    }
  }

  /** The constructor's quoting (lib/markers.js:38) is `QuoteMeta`. */
  lemma QuoteMetaIsGlobalReplace(prefix: string)
    ensures ValidMatches(prefix, Scan(NonWordMatcher(), prefix))
    ensures Splice(prefix, Scan(NonWordMatcher(), prefix),
                   Expansions("\\$1", prefix, Scan(NonWordMatcher(), prefix))) == QuoteMeta(prefix)
  {
    QuoteMetaFrom(prefix, 0);
    assert prefix[0..] == prefix;
  }

  /** The text a regular-expression source made only of literal atoms
      matches: a word character stands for itself, and so does a non-word
      character escaped with a backslash. Anything else is not a literal. */
  function LiteralText(source: string): Option<string>
    decreases |source|
  {
    if source == [] then Some([])
    else if source[0] == '\\' then
      if |source| >= 2 && !IsWordChar(source[1]) then
        match LiteralText(source[2..])
        case None => None
        case Some(rest) => Some([source[1]] + rest)
      else None
    else if IsWordChar(source[0]) then
      match LiteralText(source[1..])
      case None => None
      case Some(rest) => Some([source[0]] + rest)
    else None
  }

  /** Quoting makes the prefix a literal: the quoted source matches exactly
      the prefix, whatever characters it holds. */
  lemma {:induction false} QuotedPrefixIsLiteral(prefix: string)
    ensures LiteralText(QuoteMeta(prefix)) == Some(prefix)
    decreases |prefix|
  {
    if prefix != [] {
      QuotedPrefixIsLiteral(prefix[1..]);
      var q := QuoteMeta(prefix);
      assert prefix == [prefix[0]] + prefix[1..];
      if IsWordChar(prefix[0]) {
        assert q[0] == prefix[0] && q[1..] == QuoteMeta(prefix[1..]);
      } else {
        assert q[0] == '\\' && q[1] == prefix[0] && q[2..] == QuoteMeta(prefix[1..]);
      }
    }
  }

  /** The source of the token regular expression (lib/markers.js:39). */
  function TokenRegexSource(prefix: string): string {
    QuoteMeta(prefix) + "(\\d+)(>|&gt;)"
  }

  /** The end of the run of decimal digits starting at `q`. */
  function DigitRunEnd(s: string, q: nat): (e: nat)
    requires q <= |s|
    ensures q <= e <= |s|
    ensures AllDigits(s[q..e])
    ensures e < |s| ==> !IsDigit(s[e])
    decreases |s| - q
  {
    if q < |s| && IsDigit(s[q]) then
      var e := DigitRunEnd(s, q + 1);
      assert s[q..e] == [s[q]] + s[q + 1..e];
      e
    else q
  }

  /** The shape of a token match: group 1 is the index digits, group 2 the
      terminator. */
  predicate IsTokenMatch(m: Match) {
    && |m.groups| == 2
    && m.groups[0].Some? && |m.groups[0].value| > 0 && AllDigits(m.groups[0].value)
    && (m.groups[1] == Some(">") || m.groups[1] == Some("&gt;"))
  }

  /** The token pattern tried at position `p`: the prefix literally, then the
      longest run of digits (backtracking to a shorter run cannot help, as
      a digit is never a terminator), then `>` or `&gt;`. */
  function TokenAt(prefix: string, s: string, p: nat): (r: Option<Match>)
    ensures r.Some? ==> r.value.offset == p && p < r.value.end <= |s| && IsTokenMatch(r.value)
    ensures r.Some? ==> p + |prefix| < r.value.end <= |s| && s[p..p + |prefix|] == prefix
  {
    if p + |prefix| <= |s| && s[p..p + |prefix|] == prefix then TokenRest(s, p, p + |prefix|)
    else None
  }

  /** The digits and the terminator of a token whose prefix spans `p` to `q`. */
  function TokenRest(s: string, p: nat, q: nat): (r: Option<Match>)
    requires p <= q <= |s|
    ensures r.Some? ==> r.value.offset == p && q < r.value.end <= |s| && IsTokenMatch(r.value)
  {
    var e := DigitRunEnd(s, q);
    if e == q then None
    else if e < |s| && s[e] == '>' then Some(Match(p, e + 1, [Some(s[q..e]), Some(">")]))
    else if e + 4 <= |s| && s[e..e + 4] == "&gt;" then Some(Match(p, e + 4, [Some(s[q..e]), Some("&gt;")]))
    else None
  }

  function TokenMatcher(prefix: string): Matcher {
    (s: string, p: nat) => TokenAt(prefix, s, p)
  }

  lemma TokenMatcherWellBehaved(prefix: string)
    ensures WellBehaved(TokenMatcher(prefix))
  {
  }

  /** Digit runs do not depend on text in front. */
  lemma {:induction false} DigitRunPrepend(t: string, s: string, q: nat)
    requires q <= |s|
    ensures DigitRunEnd(t + s, |t| + q) == |t| + DigitRunEnd(s, q)
    decreases |s| - q
  {
    assert q < |s| ==> (t + s)[|t| + q] == s[q];
    if q < |s| && IsDigit(s[q]) {
      DigitRunPrepend(t, s, q + 1);
    }
  }

  /** A digit run that ends inside `s` does not depend on text behind it. */
  lemma {:induction false} DigitRunAppend(s: string, u: string, q: nat)
    requires q <= |s| && DigitRunEnd(s, q) < |s|
    ensures DigitRunEnd(s + u, q) == DigitRunEnd(s, q)
    decreases |s| - q
  {
    assert (s + u)[q] == s[q];
    if IsDigit(s[q]) {
      DigitRunAppend(s, u, q + 1);
    }
  }

  lemma TokenAtPrepend(prefix: string, t: string, s: string, p: nat)
    requires |t| <= p <= |t| + |s|
    ensures TokenAt(prefix, t + s, p) == match TokenAt(prefix, s, p - |t|)
                                         case None => None
                                         case Some(m) => Some(ShiftMatch(m, |t|))
  {
    var p' := p - |t|;
    var q' := p' + |prefix|;
    if q' > |s| {
      assert p + |prefix| > |t + s|;
    } else {
      SliceOfConcat(t, s, p', q');
      assert (t + s)[p..p + |prefix|] == s[p'..q'];
      if s[p'..q'] == prefix {
        TokenAtPrependMatched(prefix, t, s, p');
      } else {
        assert TokenAt(prefix, s, p') == None;
        assert TokenAt(prefix, t + s, p) == None;
      }
    }
  }

  lemma TokenAtPrependMatched(prefix: string, t: string, s: string, p: nat)
    requires p + |prefix| <= |s| && s[p..p + |prefix|] == prefix
    ensures TokenAt(prefix, t + s, |t| + p) == match TokenAt(prefix, s, p)
                                              case None => None
                                              case Some(m) => Some(ShiftMatch(m, |t|))
  {
    var q := p + |prefix|;
    SliceOfConcat(t, s, p, q);
    TokenRestPrepend(t, s, p, q);
    assert TokenAt(prefix, s, p) == TokenRest(s, p, q);
    assert TokenAt(prefix, t + s, |t| + p) == TokenRest(t + s, |t| + p, |t| + q);
  }

  lemma TokenRestPrepend(t: string, s: string, p: nat, q: nat)
    requires p <= q <= |s|
    ensures TokenRest(t + s, |t| + p, |t| + q) == match TokenRest(s, p, q)
                                                  case None => None
                                                  case Some(m) => Some(ShiftMatch(m, |t|))
  {
    var ts := t + s;
    DigitRunPrepend(t, s, q);
    var e := DigitRunEnd(s, q);
    SliceOfConcat(t, s, q, e);
    assert e < |s| ==> ts[|t| + e] == s[e];
    if e + 4 <= |s| {
      SliceOfConcat(t, s, e, e + 4);
    }
  }

  lemma TokenAtAppend(prefix: string, s: string, u: string, p: nat)
    requires p <= |s| && TokenAt(prefix, s, p).Some?
    ensures TokenAt(prefix, s + u, p) == TokenAt(prefix, s, p)
  {
    var su := s + u;
    assert su[p..p + |prefix|] == s[p..p + |prefix|];
    var q := p + |prefix|;
    var e := DigitRunEnd(s, q);
    DigitRunAppend(s, u, q);
    assert su[q..e] == s[q..e];
    assert su[e] == s[e];
    assert e + 4 <= |s| ==> su[e..e + 4] == s[e..e + 4];
  }

  /** The token matcher finds the same tokens wherever the text stands, and
      a token it found stays one whatever follows. */
  lemma TokenMatcherLocal(prefix: string)
    ensures PrependInvariant(TokenMatcher(prefix))
    ensures AppendInvariant(TokenMatcher(prefix))
    ensures |prefix| > 0 ==> StartsWithChar(TokenMatcher(prefix), prefix[0])
  {
    forall t: string, s: string, p: nat | |t| <= p <= |t| + |s|
      ensures TokenMatcher(prefix)(t + s, p) == match TokenMatcher(prefix)(s, p - |t|)
                                                case None => None
                                                case Some(m) => Some(ShiftMatch(m, |t|))
    {
      TokenAtPrepend(prefix, t, s, p);
    }
    forall s: string, u: string, p: nat | p <= |s| && TokenMatcher(prefix)(s, p).Some?
      ensures TokenMatcher(prefix)(s + u, p) == TokenMatcher(prefix)(s, p)
    {
      TokenAtAppend(prefix, s, u, p);
    }
    if |prefix| > 0 {
      forall s: string, p: nat | TokenMatcher(prefix)(s, p).Some?
        ensures p < |s| && s[p] == prefix[0]
      {
        TokenStartsWithPrefixChar(prefix, s, p);
      }
    }
  }

  /** All tokens in `s`, as the global token regular expression finds them. */
  function Tokens(prefix: string, s: string): (ms: seq<Match>)
    ensures ValidMatches(s, ms)
    ensures forall m :: m in ms ==> IsTokenMatch(m) && m.end > m.offset
    ensures forall k :: 0 <= k < |ms| ==> TokenAt(prefix, s, ms[k].offset) == Some(ms[k])
  {
    TokenMatcherWellBehaved(prefix);
    Scan(TokenMatcher(prefix), s)
  }

  /** The placeholder handed out for store index `i`, raw (`>`) or as the
      engine's HTML escaping leaves it (`&gt;`). */
  function TokenText(prefix: string, i: nat, escaped: bool): string {
    prefix + NatToString(i) + (if escaped then "&gt;" else ">")
  }

  /** The digit run starting at `q` is `d` when `d` is digits and no digit
      follows it. */
  lemma {:induction false} DigitRunIs(s: string, q: nat, d: string)
    requires q + |d| <= |s| && s[q..q + |d|] == d && AllDigits(d)
    requires q + |d| < |s| ==> !IsDigit(s[q + |d|])
    ensures DigitRunEnd(s, q) == q + |d|
    decreases |d|
  {
    if d != [] {
      assert s[q + 1..q + |d|] == d[1..];
      DigitRunIs(s, q + 1, d[1..]);
    }
  }

  /** The pattern matches a token at its start, over its whole length. */
  lemma TokenAtStart(prefix: string, i: nat, escaped: bool)
    ensures TokenAt(prefix, TokenText(prefix, i, escaped), 0) ==
      Some(Match(0, |TokenText(prefix, i, escaped)|,
                 [Some(NatToString(i)), Some(if escaped then "&gt;" else ">")]))
  {
    var t := TokenText(prefix, i, escaped);
    var d := NatToString(i);
    var term := if escaped then "&gt;" else ">";
    var q := |prefix|;
    assert t == prefix + d + term;
    assert t[0..q] == prefix;
    assert t[q..q + |d|] == d;
    assert t[q + |d|..] == term;
    TokenRestOfWritten(t, q, d, term);
  }

  /** Digits followed by a terminator, and nothing after them, are the rest
      of a token. */
  lemma TokenRestOfWritten(t: string, q: nat, d: string, term: string)
    requires q + |d| + |term| == |t| && t[q..q + |d|] == d && t[q + |d|..] == term
    requires |d| > 0 && AllDigits(d) && (term == ">" || term == "&gt;")
    ensures TokenRest(t, 0, q) == Some(Match(0, |t|, [Some(d), Some(term)]))
  {
    var e := q + |d|;
    assert t[e] == term[0];
    DigitRunIs(t, q, d);
    if term == "&gt;" {
      assert t[e..e + 4] == term;
    }
  }

  /** No token starts at the very end of a text. */
  lemma NoTokenAtEnd(prefix: string, s: string)
    ensures TokenAt(prefix, s, |s|).None?
  {
    if |prefix| == 0 {
      assert DigitRunEnd(s, |s|) == |s|;
    }
  }

  /** A token is found again as exactly one match, spanning the whole text,
      whose groups are the index digits and the terminator. */
  lemma TokenIsFound(prefix: string, i: nat, escaped: bool)
    ensures Tokens(prefix, TokenText(prefix, i, escaped)) ==
      [Match(0, |TokenText(prefix, i, escaped)|,
             [Some(NatToString(i)), Some(if escaped then "&gt;" else ">")])]
  {
    var t := TokenText(prefix, i, escaped);
    TokenMatcherWellBehaved(prefix);
    TokenAtStart(prefix, i, escaped);
    NoTokenAtEnd(prefix, t);
    assert ScanFrom(TokenMatcher(prefix), t, |t| + 1) == [];
    assert ScanFrom(TokenMatcher(prefix), t, |t|) == [];
  }

  /** Tokens for different indices, or with different terminators, are
      different texts, whatever the prefix. */
  lemma TokensDistinct(prefix: string, i: nat, j: nat, ei: bool, ej: bool)
    requires i != j || ei != ej
    ensures TokenText(prefix, i, ei) != TokenText(prefix, j, ej)
  {
    TokenIsFound(prefix, i, ei);
    TokenIsFound(prefix, j, ej);
    NatToStringInjective(i, j);
  }

  /** A token starts with the prefix's first character. */
  lemma TokenStartsWithPrefixChar(prefix: string, s: string, p: nat)
    requires |prefix| > 0 && TokenAt(prefix, s, p).Some?
    ensures p < |s| && s[p] == prefix[0]
  {
    assert s[p..p + |prefix|][0] == s[p];
  }

  /** Text without the prefix's first character holds no token. */
  lemma NoPrefixCharNoToken(prefix: string, s: string)
    requires |prefix| > 0
    requires Avoids(s, prefix[0])
    ensures Tokens(prefix, s) == []
  {
    var ms := Tokens(prefix, s);
    if ms != [] {
      TokenStartsWithPrefixChar(prefix, s, ms[0].offset);
      assert false;
    }
  }

  /** Wherever the prefix's first character occurs in `s`, a token starts. */
  predicate PrefixOnlyInTokens(prefix: string, s: string)
    requires |prefix| > 0
  {
    forall q {:trigger TokenAt(prefix, s, q)} :: 0 <= q < |s| && s[q] == prefix[0] ==> TokenAt(prefix, s, q).Some?
  }

  /** Text between the tokens the scan finds holds no first character of
      the prefix, when that character occurs only where tokens start: the
      scan misses no token. */
  lemma TokenGapsAvoidPrefix(prefix: string, s: string)
    requires |prefix| > 0 && PrefixOnlyInTokens(prefix, s)
    ensures forall k :: 0 <= k < |Gaps(s, Tokens(prefix, s))| ==> Avoids(Gaps(s, Tokens(prefix, s))[k], prefix[0])
  {
    var gaps := Gaps(s, Tokens(prefix, s));
    forall k, x | 0 <= k < |gaps| && 0 <= x < |gaps[k]| ensures gaps[k][x] != prefix[0] {
      TokenGapChar(prefix, s, k, x);
    }
  }

  /** One character of a gap of the token scan. */
  lemma TokenGapChar(prefix: string, s: string, k: nat, x: nat)
    requires |prefix| > 0 && PrefixOnlyInTokens(prefix, s)
    requires k < |Gaps(s, Tokens(prefix, s))| && x < |Gaps(s, Tokens(prefix, s))[k]|
    ensures Gaps(s, Tokens(prefix, s))[k][x] != prefix[0]
  {
    var ms := Tokens(prefix, s);
    TokenMatcherWellBehaved(prefix);
    GapChar(s, ms, k, x);
    var q := GapStart(ms, 0, k) + x;
    GapPositionUnmatched(TokenMatcher(prefix), s, k, q);
    assert TokenAt(prefix, s, q).None?;
  }
}
