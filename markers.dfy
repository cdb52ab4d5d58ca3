/** lib/markers.js: the store of promises a template's helpers returned,
    the tokens that stand for them in the rendered text, and the
    resolution that puts the settled values back in place of the tokens,
    looking for tokens again inside every value it inserts. */
module Markers {
  import opened Decimal
  import opened JsValues
  import opened GlobalRegex
  import opened TokenPattern
  import opened Utils
  import ReplaceP

  /** What resolution works with once the store's promises have settled:
      the prefix, the settled values (`promiseResults`) and the engine's
      `escapeExpression`. */
  datatype Batch = Batch(prefix: string, results: seq<Value>, escape: Value -> string)

  /** `promiseResults[index]`: only a canonical index below the length names
      an element; any other key reads `undefined`. */
  function Lookup(results: seq<Value>, index: string): Value {
    if Canonical(index) && DigitsValue(index) < |results| then results[DigitsValue(index)] else Undefined
  }

  /** The text a value stands for, once promises are awaited and SafeString
      wrappers unwrapped (lib/markers.js:91-101): a promise-like value is
      awaited first; reading `.toHTML` of `undefined` or `null` throws; a
      value with a `toHTML` function and a truthy `.string` continues with
      its `.string`; anything else is passed through `String(...)`. */
  function TextOf(v: Value): Result<string> {
    if IsPromiseAlike(v) then
      if v.Promise? then TextOf(v.result) else Err(ForeignThenable)
    else
      match Get(v, "toHTML")
      case Err(e) => Err(e)
      case Ok(toHTML) =>
        var str := Get(v, "string").value;
        if toHTML.Fn? && Truthy(str) then
          // a SafeString or something like it: continue with `.string`
          match v
          case Obj(props) => TextOf(props["string"])
          // the engine's SafeString holds a string, where the recursion stops at once
          case _ => Ok(ToString(str))
        else Ok(ToString(v))
  }

  /** `replacePlaceholdersRecursivelyIn(value)`: the value's text with every
      token in it replaced. `fuel` bounds how deeply replacements may nest;
      running out stands for the call stack overflowing. */
  function ReplaceRecursively(b: Batch, v: Value, fuel: nat): Result<string>
    decreases fuel, 1
  {
    match TextOf(v)
    case Err(e) => Err(e)
    case Ok(text) => SubstText(b, text, fuel)
  }

  /** `replaceP(text, regex, replacer)` with the token regular expression:
      every token found in `text` is replaced by its substitution. */
  function SubstText(b: Batch, text: string, fuel: nat): (r: Result<string>)
    decreases fuel, 0
  {
    if fuel == 0 then Err(RecursionLimit)
    else Spliced(text, Tokens(b.prefix, text), SubstAll(b, Tokens(b.prefix, text), fuel - 1))
  }

  /** The text with the matches replaced, or the first failure. */
  function Spliced(text: string, ms: seq<Match>, r: Result<seq<string>>): Result<string>
    requires ValidMatches(text, ms) && (r.Ok? ==> |r.value| == |ms|)
  {
    match r
    case Err(e) => Err(e)
    case Ok(reps) => Ok(Splice(text, ms, reps))
  }

  /** The substitutions of the matches, left to right; the first failure wins. */
  function SubstAll(b: Batch, ms: seq<Match>, fuel: nat): (r: Result<seq<string>>)
    requires forall m :: m in ms ==> IsTokenMatch(m)
    ensures r.Ok? ==> |r.value| == |ms|
    decreases fuel, 3, |ms|
  {
    if ms == [] then Ok([])
    else
      match SubstMatch(b, ms[0], fuel)
      case Err(e) => Err(e)
      case Ok(first) =>
        match SubstAll(b, ms[1..], fuel)
        case Err(e) => Err(e)
        case Ok(rest) => Ok([first] + rest)
  }

  /** The replacer (lib/markers.js:102-107): look the index up; after `>`
      take the value as it is, after `&gt;` take its escaped text; then
      replace tokens inside that, recursively. */
  function SubstMatch(b: Batch, m: Match, fuel: nat): Result<string>
    requires IsTokenMatch(m)
    decreases fuel, 2
  {
    var resolvedValue := Lookup(b.results, m.groups[0].value);
    var result := if m.groups[1] == Some(">") then resolvedValue else Str(b.escape(resolvedValue));
    ReplaceRecursively(b, result, fuel)
  }

  /** The match the token for index `i` is found as. */
  function TokenMatchFor(prefix: string, i: nat, escaped: bool): Match {
    Match(0, |TokenText(prefix, i, escaped)|, [Some(NatToString(i)), Some(if escaped then "&gt;" else ">")])
  }

  /** The tokens for the indices `idx`, with the terminators `esc` says. */
  function TokenTexts(prefix: string, idx: seq<nat>, esc: seq<bool>): (ts: seq<string>)
    requires |esc| == |idx|
    ensures |ts| == |idx|
  {
    seq(|idx|, k requires 0 <= k < |idx| => TokenText(prefix, idx[k], esc[k]))
  }

  // ---- Index lookup ----

  /** The index in a token names the store entry it was handed out for;
      past the end of the store it reads `undefined`. */
  lemma LookupToken(results: seq<Value>, i: nat)
    ensures Lookup(results, NatToString(i)) == if i < |results| then results[i] else Undefined
  {
    DigitsValueOfNatToString(i);
  }

  /** A key with a leading zero, such as `"01"`, names no element. */
  lemma LookupLeadingZero(results: seq<Value>, index: string)
    requires |index| > 1 && index[0] == '0'
    ensures Lookup(results, index) == Undefined
  {
  }

  // ---- What a value stands for ----

  /** Strings stand for themselves; the engine's SafeString for its string;
      `undefined` and `null` throw when their `toHTML` is read; a promise
      stands for what it fulfils with. */
  lemma TextOfValues(t: string, v: Value)
    ensures TextOf(Str(t)) == Ok(t)
    ensures TextOf(SafeString(t)) == Ok(t)
    ensures TextOf(Undefined) == Err(TypeError) && TextOf(Null) == Err(TypeError)
    ensures TextOf(Promise(v)) == TextOf(v)
  {
  }

  /** An object with a `toHTML` function and a truthy `.string`, that is no
      thenable, stands for its `.string`; for the engine's SafeString that
      is the same as taking `.string` and starting again. */
  lemma SafeStringLikeUnwrapped(v: Value)
    requires v != Undefined && v != Null && !IsPromiseAlike(v)
    requires Get(v, "toHTML").value.Fn? && Truthy(Get(v, "string").value)
    ensures TextOf(v) == TextOf(Get(v, "string").value)
  {
  }

  // ---- Substituting tokens ----

  /** A text without tokens is returned as it is. */
  lemma PlainTextPreserved(b: Batch, text: string, fuel: nat)
    requires fuel > 0 && Tokens(b.prefix, text) == []
    ensures SubstText(b, text, fuel) == Ok(text)
  {
    SpliceUnchanged(text, []);
  }

  /** A text that does not contain the prefix's first character is returned
      as it is. */
  lemma PrefixFreeTextPreserved(b: Batch, text: string, fuel: nat)
    requires fuel > 0 && |b.prefix| > 0 && Avoids(text, b.prefix[0])
    ensures SubstText(b, text, fuel) == Ok(text)
  {
    NoPrefixCharNoToken(b.prefix, text);
    PlainTextPreserved(b, text, fuel);
  }

  /** `SubstMatch` reads only the groups of a match. */
  lemma SubstMatchByGroups(b: Batch, m: Match, m': Match, fuel: nat)
    requires IsTokenMatch(m) && m'.groups == m.groups
    ensures IsTokenMatch(m') && SubstMatch(b, m', fuel) == SubstMatch(b, m, fuel)
  {
  }

  /** Substituting every match, each with a known result. */
  lemma {:induction false} SubstAllOk(b: Batch, ms: seq<Match>, fuel: nat, texts: seq<string>)
    requires forall m :: m in ms ==> IsTokenMatch(m)
    requires |texts| == |ms|
    requires forall k :: 0 <= k < |ms| ==> SubstMatch(b, ms[k], fuel) == Ok(texts[k])
    ensures SubstAll(b, ms, fuel) == Ok(texts)
    decreases |ms|
  {
    if ms != [] {
      SubstAllOk(b, ms[1..], fuel, texts[1..]);
      assert [texts[0]] + texts[1..] == texts;
    }
  }

  /** A successful substitution of every match gives each match's own
      substitution, in order. */
  lemma {:induction false} SubstAllPointwise(b: Batch, ms: seq<Match>, fuel: nat)
    requires forall m :: m in ms ==> IsTokenMatch(m)
    requires SubstAll(b, ms, fuel).Ok?
    ensures forall k :: 0 <= k < |ms| ==> SubstMatch(b, ms[k], fuel) == Ok(SubstAll(b, ms, fuel).value[k])
    decreases |ms|
  {
    if ms != [] {
      assert forall m :: m in ms[1..] ==> m in ms;
      SubstAllPointwise(b, ms[1..], fuel);
      var reps := SubstAll(b, ms, fuel).value;
      assert reps[1..] == SubstAll(b, ms[1..], fuel).value;
      forall k | 1 <= k < |ms| ensures SubstMatch(b, ms[k], fuel) == Ok(reps[k]) {
        assert ms[1..][k - 1] == ms[k];
      }
    }
  }

  /** The replacer of lib/markers.js:102-107, for the matches whose
      substitution succeeds: a promise of the substituted text. */
  function TokenReplacer(b: Batch, fuel: nat): (Match, string) -> Value {
    (m: Match, s: string) =>
      if IsTokenMatch(m) && SubstMatch(b, m, fuel).Ok? then Promise(Str(SubstMatch(b, m, fuel).value)) else Undefined
  }

  /** A successful substitution is `replaceP` of the text with the token
      pattern and the replacer above. */
  lemma SubstTextIsReplaceP(b: Batch, text: string, fuel: nat)
    requires SubstText(b, text, fuel).Ok?
    ensures fuel > 0
    ensures SubstText(b, text, fuel) == ReplaceP.FunctionReplace(text, Tokens(b.prefix, text), TokenReplacer(b, fuel - 1))
  {
    var ms := Tokens(b.prefix, text);
    var reps := SubstAll(b, ms, fuel - 1).value;
    SubstAllPointwise(b, ms, fuel - 1);
    var f := TokenReplacer(b, fuel - 1);
    forall k | 0 <= k < |ms| ensures f(ms[k], text) == Promise(Str(reps[k])) {
      assert ms[k] in ms;
    }
    ReplaceP.StringResultsArePlainReplace(text, ms, f, reps);
  }

  /** A token on its own is replaced by what its match substitutes. */
  lemma TokenSubstituted(b: Batch, i: nat, escaped: bool, fuel: nat)
    ensures SubstText(b, TokenText(b.prefix, i, escaped), fuel + 1) == SubstMatch(b, TokenMatchFor(b.prefix, i, escaped), fuel)
  {
    var t := TokenText(b.prefix, i, escaped);
    var m := TokenMatchFor(b.prefix, i, escaped);
    TokenIsFound(b.prefix, i, escaped);
    assert [m][1..] == [];
    match SubstMatch(b, m, fuel) {
      case Err(e) =>
      case Ok(x) =>
        SubstAllOk(b, [m], fuel, [x]);
        assert SpliceFrom(t, [], [], |t|) == "";
        assert Splice(t, [m], [x]) == x by {
          assert t[0..0] == "";
          assert [x][1..] == [];
        }
    }
  }

  /** A raw token for a stored value is replaced by that value's text, with
      tokens inside it replaced in turn. */
  lemma RawTokenSubstituted(b: Batch, i: nat, fuel: nat)
    requires i < |b.results|
    ensures SubstText(b, TokenText(b.prefix, i, false), fuel + 1) == ReplaceRecursively(b, b.results[i], fuel)
  {
    TokenSubstituted(b, i, false, fuel);
    LookupToken(b.results, i);
  }

  /** An escaped token is replaced by `escapeExpression` of the value, with
      tokens inside that replaced in turn. */
  lemma EscapedTokenSubstituted(b: Batch, i: nat, fuel: nat)
    ensures SubstText(b, TokenText(b.prefix, i, true), fuel + 1) ==
      SubstText(b, b.escape(if i < |b.results| then b.results[i] else Undefined), fuel)
  {
    TokenSubstituted(b, i, true, fuel);
    LookupToken(b.results, i);
    TextOfValues(b.escape(if i < |b.results| then b.results[i] else Undefined), Undefined);
  }

  /** A raw token past the end of the store reads `.toHTML` of `undefined`,
      which throws. */
  lemma RawTokenOutOfRangeThrows(b: Batch, i: nat, fuel: nat)
    requires i >= |b.results|
    ensures SubstText(b, TokenText(b.prefix, i, false), fuel + 1) == Err(TypeError)
  {
    TokenSubstituted(b, i, false, fuel);
    LookupToken(b.results, i);
  }

  /** A value that holds its own token is never done: substitution runs out
      of every amount of fuel. */
  lemma {:induction false} SelfReferenceNeverEnds(prefix: string, escape: Value -> string, fuel: nat)
    ensures SubstText(Batch(prefix, [Str(TokenText(prefix, 0, false))], escape), TokenText(prefix, 0, false), fuel)
            == Err(RecursionLimit)
    decreases fuel
  {
    var b := Batch(prefix, [Str(TokenText(prefix, 0, false))], escape);
    if fuel > 0 {
      SelfReferenceNeverEnds(prefix, escape, fuel - 1);
      RawTokenSubstituted(b, 0, fuel - 1);
      TextOfValues(TokenText(prefix, 0, false), Undefined);
    }
  }

  /** Rendered text made of pieces without the prefix's first character and
      tokens between them: each token is replaced by its substitution and
      the pieces are kept, in order. */
  lemma SubstTemplate(b: Batch, gaps: seq<string>, idx: seq<nat>, esc: seq<bool>, texts: seq<string>, fuel: nat)
    requires |b.prefix| > 0
    requires |gaps| == |idx| + 1 && |esc| == |idx| && |texts| == |idx|
    requires forall k :: 0 <= k < |gaps| ==> Avoids(gaps[k], b.prefix[0])
    requires forall k :: 0 <= k < |idx| ==> SubstMatch(b, TokenMatchFor(b.prefix, idx[k], esc[k]), fuel) == Ok(texts[k])
    ensures SubstText(b, Interleave(gaps, TokenTexts(b.prefix, idx, esc)), fuel + 1) == Ok(Interleave(gaps, texts))
  {
    var t := Interleave(gaps, TokenTexts(b.prefix, idx, esc));
    TemplateTokens(b.prefix, gaps, idx, esc);
    var ms := Tokens(b.prefix, t);
    forall k | 0 <= k < |ms| ensures SubstMatch(b, ms[k], fuel) == Ok(texts[k]) {
      SubstMatchByGroups(b, TokenMatchFor(b.prefix, idx[k], esc[k]), ms[k], fuel);
    }
    SubstAllOk(b, ms, fuel, texts);
    assert SubstText(b, t, fuel + 1) == Ok(Splice(t, ms, texts));
  }

  /** The tokens found in a template are the tokens placed between its
      pieces, in order, and splicing replacements for them keeps the pieces. */
  lemma TemplateTokens(prefix: string, gaps: seq<string>, idx: seq<nat>, esc: seq<bool>)
    requires |prefix| > 0 && |gaps| == |idx| + 1 && |esc| == |idx|
    requires forall k :: 0 <= k < |gaps| ==> Avoids(gaps[k], prefix[0])
    ensures |Tokens(prefix, Interleave(gaps, TokenTexts(prefix, idx, esc)))| == |idx|
    ensures forall k :: 0 <= k < |idx| ==>
      Tokens(prefix, Interleave(gaps, TokenTexts(prefix, idx, esc)))[k].groups == TokenMatchFor(prefix, idx[k], esc[k]).groups
    ensures forall reps :: |reps| == |idx| ==>
      Splice(Interleave(gaps, TokenTexts(prefix, idx, esc)), Tokens(prefix, Interleave(gaps, TokenTexts(prefix, idx, esc))), reps)
      == Interleave(gaps, reps)
  {
    var words := TokenTexts(prefix, idx, esc);
    var wordMatches := seq(|idx|, k requires 0 <= k < |idx| => TokenMatchFor(prefix, idx[k], esc[k]));
    TokenMatcherLocal(prefix);
    TokenMatcherWellBehaved(prefix);
    forall k | 0 <= k < |idx|
      ensures TokenMatcher(prefix)(words[k], 0) == Some(wordMatches[k]) && wordMatches[k].end == |words[k]| > 0
    {
      TokenAtStart(prefix, idx[k], esc[k]);
    }
    ScanOfInterleave(TokenMatcher(prefix), prefix[0], gaps, words, wordMatches);
  }

  // ---- Termination ----

  /** The index a token carries. */
  function TokenIndex(m: Match): nat
    requires IsTokenMatch(m)
  {
    DigitsValue(m.groups[0].value)
  }

  /** A token whose index is written as `asMarker` writes it and lies in
      `[lo, hi)`. */
  predicate IndexIn(m: Match, lo: nat, hi: nat) {
    IsTokenMatch(m) && Canonical(m.groups[0].value) && lo <= TokenIndex(m) < hi
  }

  predicate TokensIndexedIn(prefix: string, text: string, lo: nat, hi: nat) {
    forall m :: m in Tokens(prefix, text) ==> IndexIn(m, lo, hi)
  }

  /** Every token in `text` names an entry of the store whose rank is below
      `bound`. */
  predicate TokensRankedBelow(prefix: string, text: string, rank: seq<nat>, bound: nat) {
    forall m :: m in Tokens(prefix, text) ==> IndexIn(m, 0, |rank|) && rank[TokenIndex(m)] < bound
  }

  /** The store holds no cycle of tokens: `rank` gives every entry a number,
      and the text of an entry, raw or escaped, holds only tokens of entries
      of lower rank. Any store in which nesting is acyclic has such a rank,
      whichever order the nested values were stored in. */
  predicate Ranked(b: Batch, rank: seq<nat>) {
    |rank| == |b.results| && forall i :: 0 <= i < |b.results| ==> EntryRanked(b, rank, i)
  }

  predicate EntryRanked(b: Batch, rank: seq<nat>, i: nat)
    requires i < |b.results| == |rank|
  {
    && TextOf(b.results[i]).Ok?
    && TokensRankedBelow(b.prefix, TextOf(b.results[i]).value, rank, rank[i])
    && TokensRankedBelow(b.prefix, b.escape(b.results[i]), rank, rank[i])
  }

  /** With a ranked store, substitution in a text whose tokens rank below
      `bound` ends and succeeds once the fuel exceeds `bound`: every nesting
      step moves to an entry of strictly lower rank. */
  lemma {:induction false} SubstTextSucceeds(b: Batch, rank: seq<nat>, text: string, bound: nat, fuel: nat)
    requires Ranked(b, rank) && TokensRankedBelow(b.prefix, text, rank, bound)
    requires fuel > bound
    ensures SubstText(b, text, fuel).Ok?
    decreases fuel, 0
  {
    SubstAllSucceeds(b, rank, Tokens(b.prefix, text), bound, fuel - 1);
  }

  lemma {:induction false} SubstAllSucceeds(b: Batch, rank: seq<nat>, ms: seq<Match>, bound: nat, fuel: nat)
    requires Ranked(b, rank)
    requires forall m :: m in ms ==> IsTokenMatch(m) && IndexIn(m, 0, |rank|) && rank[TokenIndex(m)] < bound
    requires fuel >= bound
    ensures SubstAll(b, ms, fuel).Ok?
    decreases fuel, 3, |ms|
  {
    if ms != [] {
      assert ms[0] in ms;
      SubstMatchSucceeds(b, rank, ms[0], bound, fuel);
      assert forall m :: m in ms[1..] ==> m in ms;
      SubstAllSucceeds(b, rank, ms[1..], bound, fuel);
    }
  }

  lemma {:induction false} SubstMatchSucceeds(b: Batch, rank: seq<nat>, m: Match, bound: nat, fuel: nat)
    requires Ranked(b, rank) && IndexIn(m, 0, |rank|) && rank[TokenIndex(m)] < bound
    requires fuel >= bound
    ensures SubstMatch(b, m, fuel).Ok?
    decreases fuel, 2
  {
    var i := TokenIndex(m);
    var v := b.results[i];
    assert Lookup(b.results, m.groups[0].value) == v;
    assert EntryRanked(b, rank, i);
    if m.groups[1] == Some(">") {
      SubstTextSucceeds(b, rank, TextOf(v).value, rank[i], fuel);
    } else {
      TextOfValues(b.escape(v), Undefined);
      SubstTextSucceeds(b, rank, b.escape(v), rank[i], fuel);
    }
  }

  /** Entry `i` holds, raw and escaped, only tokens of later entries, or
      only tokens of earlier ones. */
  predicate EntryNests(b: Batch, i: nat, later: bool)
    requires i < |b.results|
  {
    var lo, hi := if later then i + 1 else 0, if later then |b.results| else i;
    && TextOf(b.results[i]).Ok?
    && TokensIndexedIn(b.prefix, TextOf(b.results[i]).value, lo, hi)
    && TokensIndexedIn(b.prefix, b.escape(b.results[i]), lo, hi)
  }

  /** Every entry holds only tokens of earlier entries: a helper that renders
      a block synchronously is stored after the helpers called inside it
      (index.js:39-40 pushes a result only once the helper has returned). */
  predicate NestsEarlier(b: Batch) {
    forall i :: 0 <= i < |b.results| ==> EntryNests(b, i, false)
  }

  /** Every entry holds only tokens of later entries: a helper whose value
      is produced after further helpers were registered. */
  predicate NestsLater(b: Batch) {
    forall i :: 0 <= i < |b.results| ==> EntryNests(b, i, true)
  }

  /** Nesting into earlier entries is ranked by the index itself. */
  lemma NestsEarlierRanked(b: Batch)
    requires NestsEarlier(b)
    ensures Ranked(b, seq(|b.results|, i => i))
  {
    var rank: seq<nat> := seq(|b.results|, i => i);
    forall i | 0 <= i < |b.results| ensures EntryRanked(b, rank, i) {
      assert EntryNests(b, i, false);
    }
  }

  /** Nesting into later entries is ranked by the distance to the end. */
  lemma NestsLaterRanked(b: Batch)
    requires NestsLater(b)
    ensures Ranked(b, seq(|b.results|, i => |b.results| - 1 - i))
  {
    var n := |b.results|;
    var rank: seq<nat> := seq(n, i => n - 1 - i);
    forall i | 0 <= i < n ensures EntryRanked(b, rank, i) {
      assert EntryNests(b, i, true);
    }
  }

  /** Tokens naming store entries rank below the store size, ranked by
      index. */
  lemma TokensRankedByIndex(prefix: string, text: string, n: nat)
    requires TokensIndexedIn(prefix, text, 0, n)
    ensures TokensRankedBelow(prefix, text, seq(n, i => i), n)
  {
  }

  /** Tokens naming store entries rank below the store size, ranked by the
      distance to the end. */
  lemma TokensRankedFromEnd(prefix: string, text: string, n: nat)
    requires TokensIndexedIn(prefix, text, 0, n)
    ensures TokensRankedBelow(prefix, text, seq(n, i => n - 1 - i), n)
  {
  }

  // ---- The fuel bound changes nothing but the overflow ----

  /** Any outcome other than running out of fuel stays the same with more
      fuel: a success is the text the unbounded recursion returns, and a
      failure is the error it throws. */
  lemma {:induction false} SubstTextStable(b: Batch, text: string, fuel: nat, more: nat)
    requires fuel <= more && SubstText(b, text, fuel) != Err(RecursionLimit)
    ensures SubstText(b, text, more) == SubstText(b, text, fuel)
    decreases fuel, 0
  {
    SubstAllStable(b, Tokens(b.prefix, text), fuel - 1, more - 1);
  }

  lemma {:induction false} SubstAllStable(b: Batch, ms: seq<Match>, fuel: nat, more: nat)
    requires forall m :: m in ms ==> IsTokenMatch(m)
    requires fuel <= more && SubstAll(b, ms, fuel) != Err(RecursionLimit)
    ensures SubstAll(b, ms, more) == SubstAll(b, ms, fuel)
    decreases fuel, 3, |ms|
  {
    if ms != [] {
      assert ms[0] in ms;
      SubstMatchStable(b, ms[0], fuel, more);
      if SubstMatch(b, ms[0], fuel).Ok? {
        assert forall m :: m in ms[1..] ==> m in ms;
        SubstAllStable(b, ms[1..], fuel, more);
      }
    }
  }

  lemma {:induction false} SubstMatchStable(b: Batch, m: Match, fuel: nat, more: nat)
    requires IsTokenMatch(m) && fuel <= more && SubstMatch(b, m, fuel) != Err(RecursionLimit)
    ensures SubstMatch(b, m, more) == SubstMatch(b, m, fuel)
    decreases fuel, 2
  {
    var resolvedValue := Lookup(b.results, m.groups[0].value);
    var result := if m.groups[1] == Some(">") then resolvedValue else Str(b.escape(resolvedValue));
    ReplaceRecursivelyStable(b, result, fuel, more);
  }

  lemma {:induction false} ReplaceRecursivelyStable(b: Batch, v: Value, fuel: nat, more: nat)
    requires fuel <= more && ReplaceRecursively(b, v, fuel) != Err(RecursionLimit)
    ensures ReplaceRecursively(b, v, more) == ReplaceRecursively(b, v, fuel)
    decreases fuel, 1
  {
    if TextOf(v).Ok? {
      SubstTextStable(b, TextOf(v).value, fuel, more);
    }
  }

  // ---- No token survives ----

  /** The first character of the prefix occurs, in `escapeExpression` of
      `undefined` and in the text and the escaped text of every entry, only
      where a token starts. */
  predicate CleanValues(b: Batch) {
    && |b.prefix| > 0
    && PrefixOnlyInTokens(b.prefix, b.escape(Undefined))
    && forall i :: 0 <= i < |b.results| ==>
         && (TextOf(b.results[i]).Ok? ==> PrefixOnlyInTokens(b.prefix, TextOf(b.results[i]).value))
         && PrefixOnlyInTokens(b.prefix, b.escape(b.results[i]))
  }

  /** When the prefix's first character occurs only where tokens start, in
      the text and in the values, a successful substitution leaves no such
      character, so no token at all, in its result. */
  lemma {:induction false} SubstTextClean(b: Batch, text: string, fuel: nat)
    requires CleanValues(b) && PrefixOnlyInTokens(b.prefix, text) && SubstText(b, text, fuel).Ok?
    ensures Avoids(SubstText(b, text, fuel).value, b.prefix[0])
    decreases fuel, 0
  {
    assert fuel > 0;
    var ms := Tokens(b.prefix, text);
    var reps := SubstAll(b, ms, fuel - 1).value;
    assert SubstText(b, text, fuel) == Ok(Splice(text, ms, reps));
    SubstAllClean(b, ms, fuel - 1);
    TokenGapsAvoidPrefix(b.prefix, text);
    SpliceAvoids(text, ms, reps, b.prefix[0]);
  }

  lemma {:induction false} SubstAllClean(b: Batch, ms: seq<Match>, fuel: nat)
    requires CleanValues(b) && (forall m :: m in ms ==> IsTokenMatch(m)) && SubstAll(b, ms, fuel).Ok?
    ensures forall k :: 0 <= k < |ms| ==> Avoids(SubstAll(b, ms, fuel).value[k], b.prefix[0])
    decreases fuel, 3, |ms|
  {
    if ms != [] {
      assert ms[0] in ms;
      SubstMatchClean(b, ms[0], fuel);
      assert forall m :: m in ms[1..] ==> m in ms;
      SubstAllClean(b, ms[1..], fuel);
    }
  }

  lemma {:induction false} SubstMatchClean(b: Batch, m: Match, fuel: nat)
    requires CleanValues(b) && IsTokenMatch(m) && SubstMatch(b, m, fuel).Ok?
    ensures Avoids(SubstMatch(b, m, fuel).value, b.prefix[0])
    decreases fuel, 2
  {
    var v := Lookup(b.results, m.groups[0].value);
    assert v == Undefined || exists i :: 0 <= i < |b.results| && v == b.results[i];
    if m.groups[1] == Some(">") {
      SubstTextClean(b, TextOf(v).value, fuel);
    } else {
      TextOfValues(b.escape(v), Undefined);
      SubstTextClean(b, b.escape(v), fuel);
    }
  }

  /** The store of lib/markers.js. `promiseStore` only ever grows; a token's
      index is a position in it. */
  class Markers {
    var promiseStore: seq<Value>
    /** The engine's `escapeExpression`. */
    const escape: Value -> string
    const prefix: string
    /** The source of the token regular expression. */
    const regex: string

    /** The constructor (lib/markers.js:29-40): an empty store, and the
        regular expression made of the quoted prefix, a group of digits and
        a group for the terminator. */
    constructor (escape: Value -> string, prefix: string)
      ensures promiseStore == [] && this.escape == escape && this.prefix == prefix
      ensures regex == TokenRegexSource(prefix)
      ensures LiteralText(regex[..|regex| - |"(\\d+)(>|&gt;)"|]) == Some(prefix)
    {
      promiseStore := [];
      this.escape := escape;
      this.prefix := prefix;
      NonWordMatcherWellBehaved();
      var nonWord := Scan(NonWordMatcher(), prefix);
      var placeHolderRegexEscaped := Splice(prefix, nonWord, Expansions("\\$1", prefix, nonWord));
      QuoteMetaIsGlobalReplace(prefix);
      QuotedPrefixIsLiteral(prefix);
      var source := placeHolderRegexEscaped + "(\\d+)(>|&gt;)";
      assert source[..|source| - |"(\\d+)(>|&gt;)"|] == placeHolderRegexEscaped;
      regex := source;
    }

    /** `asMarker(promise)` (lib/markers.js:52-62): the token is the prefix,
        the current store length and `>`; the promise is appended. */
    method AsMarker(promise: Value) returns (placeholder: string)
      modifies this
      ensures promiseStore == old(promiseStore) + [promise]
      ensures placeholder == TokenText(prefix, |old(promiseStore)|, false)
    {
      placeholder := prefix + NatToString(|promiseStore|) + ">";
      promiseStore := promiseStore + [promise];
    }

    /** `resolve(input)` (lib/markers.js:75-114): await the input; a result
        that is not a string is returned as it is; otherwise await the whole
        store and replace the tokens. */
    function Resolve(input: Value, fuel: nat): Result<Value>
      reads this
    {
      match Await(input)
      case Err(e) => Err(e)
      case Ok(output) =>
        if TypeOf(output) != "string" then Ok(output)
        else
          match AwaitAll(promiseStore)
          case Err(e) => Err(e)
          case Ok(promiseResults) =>
            match ReplaceRecursively(Batch(prefix, promiseResults, escape), output, fuel)
            case Err(e) => Err(e)
            case Ok(text) => Ok(Str(text))
    }
  }

  // ---- What `resolve` promises ----

  /** The batch `resolve` substitutes with once the store has settled. */
  function SettledBatch(m: Markers): (b: Batch)
    reads m
    requires AwaitAll(m.promiseStore).Ok?
    ensures b.prefix == m.prefix && b.escape == m.escape && |b.results| == |m.promiseStore|
    ensures forall i :: 0 <= i < |b.results| ==> b.results[i] == Await(m.promiseStore[i]).value
  {
    Batch(m.prefix, AwaitAll(m.promiseStore).value, m.escape)
  }

  /** An input that is not a string after awaiting comes back as it is,
      whatever the store holds. */
  lemma ResolvePassesNonStrings(m: Markers, input: Value, fuel: nat)
    requires Await(input).Ok? && !Await(input).value.Str?
    ensures m.Resolve(input, fuel) == Await(input)
  {
  }

  /** A string input is searched for tokens with the settled store. */
  lemma ResolveOfString(m: Markers, input: Value, fuel: nat)
    requires Await(input).Ok? && Await(input).value.Str? && AwaitAll(m.promiseStore).Ok?
    ensures m.Resolve(input, fuel) == match SubstText(SettledBatch(m), Await(input).value.s, fuel)
                                      case Err(e) => Err(e)
                                      case Ok(text) => Ok(Str(text))
  {
    TextOfValues(Await(input).value.s, Undefined);
  }

  /** A string whose substitution succeeds resolves to its substituted text. */
  lemma ResolveSubstituted(m: Markers, t: string, fuel: nat, x: string)
    requires AwaitAll(m.promiseStore).Ok? && SubstText(SettledBatch(m), t, fuel) == Ok(x)
    ensures m.Resolve(Str(t), fuel) == Ok(Str(x))
  {
    ResolveOfString(m, Str(t), fuel);
  }

  /** More fuel changes no outcome of `resolve` other than running out. */
  lemma ResolveStable(m: Markers, input: Value, fuel: nat, more: nat)
    requires fuel <= more && m.Resolve(input, fuel) != Err(RecursionLimit)
    ensures m.Resolve(input, more) == m.Resolve(input, fuel)
  {
    if Await(input).Ok? && Await(input).value.Str? && AwaitAll(m.promiseStore).Ok? {
      ResolveOfString(m, input, fuel);
      ResolveOfString(m, input, more);
      SubstTextStable(SettledBatch(m), Await(input).value.s, fuel, more);
    }
  }

  /** With a ranked store, `resolve` of a string whose tokens rank below
      `bound` succeeds with fuel above `bound`: nothing runs away. */
  lemma ResolveTerminates(m: Markers, input: Value, rank: seq<nat>, bound: nat)
    requires Await(input).Ok? && Await(input).value.Str?
    requires AwaitAll(m.promiseStore).Ok? && Ranked(SettledBatch(m), rank)
    requires TokensRankedBelow(m.prefix, Await(input).value.s, rank, bound)
    ensures m.Resolve(input, bound + 1).Ok?
  {
    ResolveOfString(m, input, bound + 1);
    SubstTextSucceeds(SettledBatch(m), rank, Await(input).value.s, bound, bound + 1);
  }

  /** Whether nested values name earlier entries (a block rendered
      synchronously inside a helper) or later ones, `resolve` of a string
      whose tokens name store entries succeeds with fuel one more than the
      store size. */
  lemma ResolveTerminatesNested(m: Markers, input: Value)
    requires Await(input).Ok? && Await(input).value.Str?
    requires AwaitAll(m.promiseStore).Ok?
    requires NestsEarlier(SettledBatch(m)) || NestsLater(SettledBatch(m))
    requires TokensIndexedIn(m.prefix, Await(input).value.s, 0, |m.promiseStore|)
    ensures m.Resolve(input, |m.promiseStore| + 1).Ok?
  {
    if NestsEarlier(SettledBatch(m)) {
      ResolveTerminatesEarlier(m, input);
    } else {
      ResolveTerminatesLater(m, input);
    }
  }

  lemma ResolveTerminatesEarlier(m: Markers, input: Value)
    requires Await(input).Ok? && Await(input).value.Str?
    requires AwaitAll(m.promiseStore).Ok? && NestsEarlier(SettledBatch(m))
    requires TokensIndexedIn(m.prefix, Await(input).value.s, 0, |m.promiseStore|)
    ensures m.Resolve(input, |m.promiseStore| + 1).Ok?
  {
    var n := |m.promiseStore|;
    TokensRankedByIndex(m.prefix, Await(input).value.s, n);
    NestsEarlierRanked(SettledBatch(m));
    ResolveTerminates(m, input, seq(n, i => i), n);
  }

  lemma ResolveTerminatesLater(m: Markers, input: Value)
    requires Await(input).Ok? && Await(input).value.Str?
    requires AwaitAll(m.promiseStore).Ok? && NestsLater(SettledBatch(m))
    requires TokensIndexedIn(m.prefix, Await(input).value.s, 0, |m.promiseStore|)
    ensures m.Resolve(input, |m.promiseStore| + 1).Ok?
  {
    var n := |m.promiseStore|;
    TokensRankedFromEnd(m.prefix, Await(input).value.s, n);
    NestsLaterRanked(SettledBatch(m));
    ResolveTerminates(m, input, seq(n, i => n - 1 - i), n);
  }

  /** When the prefix's first character occurs, in the input and in what
      the store holds, only where a token starts, a successful `resolve`
      returns a string with no token left in it. */
  lemma ResolveLeavesNoToken(m: Markers, input: Value, fuel: nat)
    requires Await(input).Ok? && Await(input).value.Str?
    requires AwaitAll(m.promiseStore).Ok? && CleanValues(SettledBatch(m))
    requires PrefixOnlyInTokens(m.prefix, Await(input).value.s)
    requires m.Resolve(input, fuel).Ok?
    ensures m.Resolve(input, fuel).value.Str?
    ensures Avoids(m.Resolve(input, fuel).value.s, m.prefix[0])
    ensures Tokens(m.prefix, m.Resolve(input, fuel).value.s) == []
  {
    ResolveOfString(m, input, fuel);
    SubstTextClean(SettledBatch(m), Await(input).value.s, fuel);
    NoPrefixCharNoToken(m.prefix, m.Resolve(input, fuel).value.s);
  }

  /** A store entry whose text, raw or escaped as the token asks, holds no
      first character of the prefix. */
  predicate PlainEntry(b: Batch, i: nat, escaped: bool)
    requires |b.prefix| > 0
  {
    i < |b.results| &&
    if escaped then Avoids(b.escape(b.results[i]), b.prefix[0])
    else TextOf(b.results[i]).Ok? && Avoids(TextOf(b.results[i]).value, b.prefix[0])
  }

  /** What such an entry's token becomes. */
  function EntryText(b: Batch, i: nat, escaped: bool): string
    requires |b.prefix| > 0 && PlainEntry(b, i, escaped)
  {
    if escaped then b.escape(b.results[i]) else TextOf(b.results[i]).value
  }

  lemma PlainEntrySubstituted(b: Batch, i: nat, escaped: bool)
    requires |b.prefix| > 0 && PlainEntry(b, i, escaped)
    ensures SubstMatch(b, TokenMatchFor(b.prefix, i, escaped), 1) == Ok(EntryText(b, i, escaped))
  {
    LookupToken(b.results, i);
    var v := b.results[i];
    if escaped {
      TextOfValues(b.escape(v), Undefined);
      PrefixFreeTextPreserved(b, b.escape(v), 1);
    } else {
      PrefixFreeTextPreserved(b, TextOf(v).value, 1);
    }
  }

  /** What the tokens `idx`/`esc` become when all their entries are plain. */
  function EntryTexts(b: Batch, idx: seq<nat>, esc: seq<bool>): (ts: seq<string>)
    requires |b.prefix| > 0 && |esc| == |idx|
    requires forall k :: 0 <= k < |idx| ==> PlainEntry(b, idx[k], esc[k])
    ensures |ts| == |idx|
  {
    seq(|idx|, k requires 0 <= k < |idx| => EntryText(b, idx[k], esc[k]))
  }

  /** Substitution in a template of plain text and tokens of plain entries
      puts each entry's text, raw or escaped, where its token stood. */
  lemma PlainTemplateSubstituted(b: Batch, gaps: seq<string>, idx: seq<nat>, esc: seq<bool>)
    requires |b.prefix| > 0
    requires |gaps| == |idx| + 1 && |esc| == |idx|
    requires forall k :: 0 <= k < |gaps| ==> Avoids(gaps[k], b.prefix[0])
    requires forall k :: 0 <= k < |idx| ==> PlainEntry(b, idx[k], esc[k])
    ensures SubstText(b, Interleave(gaps, TokenTexts(b.prefix, idx, esc)), 2) == Ok(Interleave(gaps, EntryTexts(b, idx, esc)))
  {
    var texts := EntryTexts(b, idx, esc);
    forall k | 0 <= k < |idx|
      ensures SubstMatch(b, TokenMatchFor(b.prefix, idx[k], esc[k]), 1) == Ok(texts[k])
    {
      PlainEntrySubstituted(b, idx[k], esc[k]);
    }
    SubstTemplate(b, gaps, idx, esc, texts, 1);
  }

  /** A rendered template: plain text pieces around tokens handed out by
      this store, whose entries hold plain text. `resolve` puts each entry's
      text, raw or escaped, where its token stood; two rounds of fuel do. */
  lemma ResolveTemplate(m: Markers, gaps: seq<string>, idx: seq<nat>, esc: seq<bool>)
    requires |m.prefix| > 0 && AwaitAll(m.promiseStore).Ok?
    requires |gaps| == |idx| + 1 && |esc| == |idx|
    requires forall k :: 0 <= k < |gaps| ==> Avoids(gaps[k], m.prefix[0])
    requires forall k :: 0 <= k < |idx| ==> PlainEntry(SettledBatch(m), idx[k], esc[k])
    ensures m.Resolve(Str(Interleave(gaps, TokenTexts(m.prefix, idx, esc))), 2)
         == Ok(Str(Interleave(gaps, EntryTexts(SettledBatch(m), idx, esc))))
  {
    PlainTemplateSubstituted(SettledBatch(m), gaps, idx, esc);
    ResolveSubstituted(m, Interleave(gaps, TokenTexts(m.prefix, idx, esc)), 2,
                       Interleave(gaps, EntryTexts(SettledBatch(m), idx, esc)));
  }
}
