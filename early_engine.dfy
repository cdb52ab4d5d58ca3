/** index.js: the first, self-contained form of the protocol. Every wrapped
    helper call stores its result in the per-render list `promises` and
    hands the engine one fixed placeholder; once the render is done and the
    list has settled, the k-th occurrence of the placeholder in the output
    is replaced by the k-th result. */
module EarlyEngine {
  import opened JsValues
  import opened GlobalRegex
  import opened TokenPattern
  import opened Utils
  import opened ReplaceP

  /** `options.placeholder || '\u0001'` (index.js:27-28). */
  function PlaceholderOption(configured: Value): (p: Value)
    ensures Truthy(p)
    ensures Truthy(configured) ==> p == configured
    ensures !Truthy(configured) ==> p == Str("\U{1}")
  {
    if Truthy(configured) then configured else Str("\U{1}")
  }

  /** Without a configured placeholder, or with an empty one, the placeholder
      is the single control character U+0001. */
  lemma DefaultPlaceholder()
    ensures ToString(PlaceholderOption(Undefined)) == "\U{1}"
    ensures ToString(PlaceholderOption(Null)) == "\U{1}"
    ensures ToString(PlaceholderOption(Str(""))) == "\U{1}"
  {
  }

  // ---- The placeholder pattern ----

  /** The regular expression made of a quoted literal: it matches `lit` and
      nothing else, and captures nothing. */
  function LiteralAt(lit: string, s: string, p: nat): (r: Option<Match>)
    ensures r.Some? <==> p + |lit| <= |s| && s[p..p + |lit|] == lit
    ensures r.Some? ==> r.value == Match(p, p + |lit|, [])
  {
    if p + |lit| <= |s| && s[p..p + |lit|] == lit then Some(Match(p, p + |lit|, [])) else None
  }

  function LiteralMatcher(lit: string): Matcher {
    (s: string, p: nat) => LiteralAt(lit, s, p)
  }

  /** Whether the literal occurs at a position depends only on the text from
      there on, and every occurrence starts with the literal's first
      character. */
  lemma LiteralMatcherLocal(lit: string)
    ensures WellBehaved(LiteralMatcher(lit))
    ensures PrependInvariant(LiteralMatcher(lit))
    ensures AppendInvariant(LiteralMatcher(lit))
    ensures |lit| > 0 ==> StartsWithChar(LiteralMatcher(lit), lit[0])
  {
    forall t: string, s: string, p: nat | |t| <= p <= |t| + |s|
      ensures LiteralMatcher(lit)(t + s, p) == match LiteralMatcher(lit)(s, p - |t|)
                                               case None => None
                                               case Some(m) => Some(ShiftMatch(m, |t|))
    {
      LiteralAtPrepend(lit, t, s, p);
    }
    forall s: string, u: string, p: nat | p <= |s| && LiteralMatcher(lit)(s, p).Some?
      ensures LiteralMatcher(lit)(s + u, p) == LiteralMatcher(lit)(s, p)
    {
      LiteralAtAppend(lit, s, u, p);
    }
    if |lit| > 0 {
      forall s: string, p: nat | LiteralMatcher(lit)(s, p).Some?
        ensures p < |s| && s[p] == lit[0]
      {
        LiteralAtStart(lit, s, p);
      }
    }
  }

  lemma LiteralAtPrepend(lit: string, t: string, s: string, p: nat)
    requires |t| <= p <= |t| + |s|
    ensures LiteralAt(lit, t + s, p) == match LiteralAt(lit, s, p - |t|)
                                        case None => None
                                        case Some(m) => Some(ShiftMatch(m, |t|))
  {
    if p + |lit| <= |t + s| {
      SliceOfConcat(t, s, p - |t|, p - |t| + |lit|);
    }
  }

  lemma LiteralAtAppend(lit: string, s: string, u: string, p: nat)
    requires p + |lit| <= |s|
    ensures LiteralAt(lit, s + u, p) == LiteralAt(lit, s, p)
  {
    assert (s + u)[p..p + |lit|] == s[p..p + |lit|];
  }

  lemma LiteralAtStart(lit: string, s: string, p: nat)
    requires |lit| > 0 && LiteralAt(lit, s, p).Some?
    ensures p < |s| && s[p] == lit[0]
  {
    assert s[p..p + |lit|][0] == s[p];
  }

  /** The output of a render: the template text around the helper calls,
      with the placeholder where each call stood. */
  function Rendered(placeholder: string, texts: seq<string>, calls: nat): string
    requires |texts| == calls + 1
  {
    Interleave(texts, seq(calls, _ => placeholder))
  }

  // ---- Ordered substitution ----

  /** What `results.shift()` hands out to the first `n` matches, as strings:
      the results in order, then `undefined` once the queue is empty. */
  function ShiftedTexts(results: seq<Value>, n: nat): (ts: seq<string>)
    ensures |ts| == n
    ensures forall k :: 0 <= k < n && k < |results| ==> ts[k] == ToString(results[k])
    ensures forall k :: 0 <= k < n && |results| <= k ==> ts[k] == ToString(Undefined) == "undefined"
  {
    assert ToString(Undefined) == "undefined";
    seq(n, k requires 0 <= k < n => ToString(if k < |results| then results[k] else Undefined))
  }

  /** One more match of the replacement loop: its gap and its
      replacement move from the pending part of the result to the built
      part. */
  lemma ReplaceStep(s: string, ms: seq<Match>, reps: seq<string>, i: nat, r: string)
    requires ValidMatches(s, ms) && |reps| == |ms| && i < |ms|
    requires r + Interleave(Gaps(s, ms)[i..], reps[i..]) == Interleave(Gaps(s, ms), reps)
    ensures GapStart(ms, 0, i) <= ms[i].offset
    ensures r + s[GapStart(ms, 0, i)..ms[i].offset] + reps[i] + Interleave(Gaps(s, ms)[i + 1..], reps[i + 1..])
         == Interleave(Gaps(s, ms), reps)
  {
    var gaps := Gaps(s, ms);
    GapBounds(s, ms, 0, i);
    assert gaps[i] == s[GapStart(ms, 0, i)..ms[i].offset];
    assert gaps[i..][1..] == gaps[i + 1..];
    assert reps[i..][1..] == reps[i + 1..];
    assert Interleave(gaps[i..], reps[i..]) == gaps[i] + reps[i] + Interleave(gaps[i + 1..], reps[i + 1..]);
  }

  /** After the last match the tail completes the result. */
  lemma ReplaceTail(s: string, ms: seq<Match>, reps: seq<string>, r: string)
    requires ValidMatches(s, ms) && |reps| == |ms|
    requires r + Interleave(Gaps(s, ms)[|ms|..], reps[|ms|..]) == Interleave(Gaps(s, ms), reps)
    ensures GapStart(ms, 0, |ms|) <= |s|
    ensures r + s[GapStart(ms, 0, |ms|)..] == Splice(s, ms, reps)
  {
    GapBounds(s, ms, 0, |ms|);
    assert Gaps(s, ms)[|ms|] == s[GapStart(ms, 0, |ms|)..|s|];
    assert s[GapStart(ms, 0, |ms|)..|s|] == s[GapStart(ms, 0, |ms|)..];
    assert Gaps(s, ms)[|ms|..] == [Gaps(s, ms)[|ms|]];
    assert reps[|ms|..] == [];
    SpliceIsInterleave(s, ms, reps, 0);
  }

  /** `resultWithPlaceholders.replace(regex, () => results.shift())`
      (index.js:61-63): the matches are visited left to right, each takes the
      head of the queue, and the text between them is kept. The replacement
      strings are not searched again. */
  method ReplaceInOrder(s: string, ms: seq<Match>, results: seq<Value>) returns (r: string)
    requires ValidMatches(s, ms)
    ensures r == Splice(s, ms, ShiftedTexts(results, |ms|))
  {
    ghost var reps := ShiftedTexts(results, |ms|);
    var queue := results;
    r := "";
    var lastIndex := 0;
    for i := 0 to |ms|
      invariant i <= |results| ==> queue == results[i..]
      invariant i > |results| ==> queue == []
      invariant lastIndex == GapStart(ms, 0, i)
      invariant r + Interleave(Gaps(s, ms)[i..], reps[i..]) == Interleave(Gaps(s, ms), reps)
    {
      var next := if queue == [] then Undefined else queue[0];
      queue := if queue == [] then [] else queue[1..];
      assert ToString(next) == reps[i];
      ReplaceStep(s, ms, reps, i, r);
      r := r + s[lastIndex..ms[i].offset] + ToString(next);
      lastIndex := ms[i].end;
    }
    ReplaceTail(s, ms, reps, r);
    r := r + s[lastIndex..];
  }

  /** What a render resolves to once the captured list has settled: every
      occurrence of the placeholder replaced, in order, by the next result. */
  function Substitute(placeholder: string, rendered: string, captured: seq<Value>): Result<string> {
    LiteralMatcherLocal(placeholder);
    match AwaitAll(captured)
    case Err(e) => Err(e)
    case Ok(results) =>
      var ms := Scan(LiteralMatcher(placeholder), rendered);
      Ok(Splice(rendered, ms, ShiftedTexts(results, |ms|)))
  }

  /** When the template text holds no first character of the placeholder,
      the placeholders the scan finds are exactly the calls', and replacing
      them keeps the template text. */
  lemma PlaceholderScan(placeholder: string, texts: seq<string>, n: nat)
    requires |placeholder| > 0 && |texts| == n + 1
    requires forall k :: 0 <= k < |texts| ==> Avoids(texts[k], placeholder[0])
    ensures WellBehaved(LiteralMatcher(placeholder))
    ensures |Scan(LiteralMatcher(placeholder), Rendered(placeholder, texts, n))| == n
    ensures forall reps :: |reps| == n ==>
      Splice(Rendered(placeholder, texts, n), Scan(LiteralMatcher(placeholder), Rendered(placeholder, texts, n)), reps)
        == Interleave(texts, reps)
  {
    var words := seq(n, _ => placeholder);
    var wordMatches := seq(n, _ => Match(0, |placeholder|, []));
    LiteralMatcherLocal(placeholder);
    assert placeholder[0..|placeholder|] == placeholder;
    assert LiteralAt(placeholder, placeholder, 0) == Some(Match(0, |placeholder|, []));
    ScanOfInterleave(LiteralMatcher(placeholder), placeholder[0], texts, words, wordMatches);
  }

  /** When the template text holds no first character of the placeholder,
      the placeholders are exactly the helper calls, and the k-th call's
      result, as a string, lands where the k-th call stood; the template
      text is kept. */
  lemma PlaceholdersReplacedInOrder(placeholder: string, texts: seq<string>, captured: seq<Value>)
    requires |placeholder| > 0 && |texts| == |captured| + 1
    requires forall k :: 0 <= k < |texts| ==> Avoids(texts[k], placeholder[0])
    requires AwaitAll(captured).Ok?
    ensures Substitute(placeholder, Rendered(placeholder, texts, |captured|), captured)
         == Ok(Interleave(texts, Strings(AwaitAll(captured).value)))
  {
    var n := |captured|;
    PlaceholderScan(placeholder, texts, n);
    var results := AwaitAll(captured).value;
    assert ShiftedTexts(results, n) == Strings(results);
  }

  /** The placeholder written twice is found twice. */
  lemma DoubledPlaceholderScan(placeholder: string)
    requires |placeholder| > 0
    ensures WellBehaved(LiteralMatcher(placeholder))
    ensures Scan(LiteralMatcher(placeholder), placeholder + placeholder)
         == [Match(0, |placeholder|, []), Match(|placeholder|, 2 * |placeholder|, [])]
  {
    var s := placeholder + placeholder;
    var n := |placeholder|;
    LiteralMatcherLocal(placeholder);
    assert s[0..n] == placeholder && s[n..2 * n] == placeholder;
    assert LiteralAt(placeholder, s, 0) == Some(Match(0, n, []));
    assert LiteralAt(placeholder, s, n) == Some(Match(n, 2 * n, []));
    assert LiteralAt(placeholder, s, 2 * n).None?;
    assert ScanFrom(LiteralMatcher(placeholder), s, 2 * n + 1) == [];
    assert ScanFrom(LiteralMatcher(placeholder), s, 2 * n) == [];
    assert ScanFrom(LiteralMatcher(placeholder), s, n) == [Match(n, 2 * n, [])];
  }

  lemma AwaitOne(v: Value)
    ensures AwaitAll([v]) == match Await(v)
                             case Err(e) => Err(e)
                             case Ok(x) => Ok([x])
  {
    var vs := [v];
    assert vs[0] == v && vs[1..] == [];
    assert AwaitAll(vs[1..]) == Ok([]);
    match Await(v) {
      case Err(e) =>
      case Ok(x) =>
        assert AwaitAll(vs) == Ok([x] + []);
        assert [x] + [] == [x];
    }
  }

  /** A template text that contains the placeholder shifts the results: the
      first call's result lands on the stray occurrence and the placeholder
      the call returned gets `undefined`. */
  lemma StrayPlaceholderShiftsResults(placeholder: string, v: Value)
    requires |placeholder| > 0
    ensures Substitute(placeholder, Rendered(placeholder, [placeholder, ""], 1), [v])
         == match Await(v)
            case Err(e) => Err(e)
            case Ok(x) => Ok(ToString(x) + "undefined")
  {
    var s := placeholder + placeholder;
    var n := |placeholder|;
    RenderedStray(placeholder);
    DoubledPlaceholderScan(placeholder);
    AwaitOne(v);
    match Await(v) {
      case Err(e) =>
      case Ok(x) =>
        ShiftedOne(x);
        SpliceTwoWords(s, n, ToString(x), "undefined");
        assert Substitute(placeholder, s, [v])
            == Ok(Splice(s, [Match(0, n, []), Match(n, 2 * n, [])], ShiftedTexts([x], 2)));
    }
  }

  lemma RenderedStray(placeholder: string)
    ensures Rendered(placeholder, [placeholder, ""], 1) == placeholder + placeholder
  {
    assert seq(1, _ => placeholder) == [placeholder];
    assert Interleave([""], []) == "";
    assert Rendered(placeholder, [placeholder, ""], 1) == Interleave([placeholder, ""], [placeholder]);
  }

  lemma ShiftedOne(x: Value)
    ensures ShiftedTexts([x], 2) == [ToString(x), "undefined"]
  {
    var reps := ShiftedTexts([x], 2);
    assert reps[0] == ToString([x][0]);
  }

  /** Two adjacent whole-word matches covering the text. */
  lemma SpliceTwoWords(s: string, n: nat, a: string, b: string)
    requires |s| == 2 * n
    ensures Splice(s, [Match(0, n, []), Match(n, 2 * n, [])], [a, b]) == a + b
  {
    var m0 := Match(0, n, []);
    var m1 := Match(n, 2 * n, []);
    assert [m0, m1][1..] == [m1] && [m1][1..] == [] && [a, b][1..] == [b] && [b][1..] == [];
    assert SpliceFrom(s, [], [], 2 * n) == "";
    assert s[n..n] == "" && s[0..0] == "";
    assert SpliceFrom(s, [m1], [b], n) == "" + b + "";
    assert Splice(s, [m0, m1], [a, b]) == "" + a + SpliceFrom(s, [m1], [b], n);
    assert "" + a + ("" + b + "") == a + b;
  }

  /** A helper call as the engine makes it: the helper's name and the
      arguments it is given. */
  datatype HelperCall = HelperCall(name: string, args: seq<Value>)

  /** The results of the calls, in call order. */
  function CallResults(helpers: map<string, seq<Value> -> Value>, calls: seq<HelperCall>): (vs: seq<Value>)
    requires forall k :: 0 <= k < |calls| ==> calls[k].name in helpers
    ensures |vs| == |calls|
  {
    seq(|calls|, k requires 0 <= k < |calls| => helpers[calls[k].name](calls[k].args))
  }

  /** The entries of `obj` under its first `n` keys. */
  ghost function FirstEntries<V>(obj: Dict<V>, n: nat): map<string, V>
    requires obj.Valid() && n <= |obj.keys|
  {
    map k | k in obj.keys[..n] && k in obj.entries :: obj.entries[k]
  }

  lemma FirstEntriesStep<V>(obj: Dict<V>, n: nat)
    requires obj.Valid() && n < |obj.keys|
    ensures obj.keys[n] in obj.entries
    ensures FirstEntries(obj, n + 1) == FirstEntries(obj, n)[obj.keys[n] := obj.entries[obj.keys[n]]]
  {
    assert obj.keys[..n + 1] == obj.keys[..n] + [obj.keys[n]];
  }

  lemma AllEntries<V>(obj: Dict<V>)
    requires obj.Valid()
    ensures FirstEntries(obj, |obj.keys|) == obj.entries
  {
    assert obj.keys[..|obj.keys|] == obj.keys;
  }

  lemma MergeThenUpdate<V>(a: map<string, V>, b: map<string, V>, k: string, v: V)
    ensures (a + b)[k := v] == a + b[k := v]
  {
  }

  /** The engine returned by `promisedHandlebars(Handlebars, options)`. */
  class PromisedEngine {
    const placeholder: Value
    /** The source of the placeholder regular expression. */
    const regex: string
    /** The module-level list of the current render; `null` before the
        first render. */
    var promises: Option<seq<Value>>
    /** The functions registered through the wrapped `registerHelper`. */
    var helpers: map<string, seq<Value> -> Value>

    /** index.js:27-34: the placeholder option, the regular expression of
        the quoted placeholder, no list yet and no wrapped helper. */
    constructor (configured: Value)
      ensures placeholder == PlaceholderOption(configured)
      ensures regex == QuoteMeta(ToString(placeholder))
      ensures LiteralText(regex) == Some(ToString(placeholder))
      ensures promises == None && helpers == map[]
    {
      placeholder := PlaceholderOption(configured);
      var text := ToString(PlaceholderOption(configured));
      NonWordMatcherWellBehaved();
      var nonWord := Scan(NonWordMatcher(), text);
      QuoteMetaIsGlobalReplace(text);
      QuotedPrefixIsLiteral(text);
      regex := Splice(text, nonWord, Expansions("\\$1", text, nonWord));
      promises := None;
      helpers := map[];
    }

    /** The placeholder as it appears in the rendered output. */
    function PlaceholderText(): string
      reads this
    {
      ToString(placeholder)
    }

    /** `registerHelper(name, fn)` with a string key (index.js:37-42): the
        wrapped function is stored under the name. */
    method RegisterHelper(name: string, fn: seq<Value> -> Value)
      modifies this
      ensures helpers == old(helpers)[name := fn]
      ensures promises == old(promises)
    {
      helpers := helpers[name := fn];
    }

    /** `registerHelper(object)` (index.js:43-47): each own key is
        registered with its own function, in key order. */
    method RegisterHelpers(obj: Dict<seq<Value> -> Value>)
      requires obj.Valid()
      modifies this
      ensures helpers == old(helpers) + obj.entries
      ensures promises == old(promises)
    {
      for i := 0 to |obj.keys|
        invariant helpers == old(helpers) + FirstEntries(obj, i)
        invariant promises == old(promises)
      {
        FirstEntriesStep(obj, i);
        MergeThenUpdate(old(helpers), FirstEntries(obj, i), obj.keys[i], obj.entries[obj.keys[i]]);
        RegisterHelper(obj.keys[i], obj.entries[obj.keys[i]]);
      }
      AllEntries(obj);
    }

    /** A wrapped helper call (index.js:38-42): the helper's result is
        pushed onto the list and the placeholder returned. Before the first
        render the list is `null` and the push throws. */
    method CallHelper(call: HelperCall) returns (r: Result<Value>)
      requires call.name in helpers
      modifies this
      ensures helpers == old(helpers)
      ensures old(promises).None? ==> r == Err(TypeError) && promises == None
      ensures old(promises).Some? ==>
        r == Ok(placeholder) && promises == Some(old(promises).value + [helpers[call.name](call.args)])
    {
      var result := helpers[call.name](call.args);
      if promises.None? {
        return Err(TypeError);
      }
      promises := Some(promises.value + [result]);
      r := Ok(placeholder);
    }

    /** A call of a compiled template (index.js:55-64): the list starts
        empty, the render makes the helper calls in order and puts what they
        return between the pieces of template text, the list is captured,
        and once it has settled the placeholders are replaced in order. */
    method Render(texts: seq<string>, calls: seq<HelperCall>) returns (r: Result<string>)
      requires |texts| == |calls| + 1
      requires forall k :: 0 <= k < |calls| ==> calls[k].name in helpers
      modifies this
      ensures helpers == old(helpers)
      ensures promises == Some(CallResults(helpers, calls))
      ensures r == Substitute(PlaceholderText(), Rendered(PlaceholderText(), texts, |calls|), CallResults(helpers, calls))
    {
      promises := Some([]);
      var placeholderText := PlaceholderText();
      var outputs: seq<string> := [];
      for i := 0 to |calls|
        invariant helpers == old(helpers)
        invariant promises == Some(CallResults(helpers, calls)[..i])
        invariant outputs == seq(i, _ => placeholderText)
      {
        var returned := CallHelper(calls[i]);
        assert CallResults(helpers, calls)[..i + 1] == CallResults(helpers, calls)[..i] + [helpers[calls[i].name](calls[i].args)];
        outputs := outputs + [ToString(returned.value)];
      }
      assert CallResults(helpers, calls)[..|calls|] == CallResults(helpers, calls);
      var resultWithPlaceholders := Interleave(texts, outputs);
      var captured := promises.value;
      var awaited := AwaitAll(captured);
      if awaited.Err? {
        return Err(awaited.error);
      }
      LiteralMatcherLocal(PlaceholderText());
      var ms := Scan(LiteralMatcher(PlaceholderText()), resultWithPlaceholders);
      var text := ReplaceInOrder(resultWithPlaceholders, ms, awaited.value);
      r := Ok(text);
    }
  }

  /** A render of a template whose text holds no first character of the
      placeholder resolves to the text with each helper's settled result, as
      a string, where the helper was called. */
  lemma RenderPlainTemplate(e: PromisedEngine, texts: seq<string>, calls: seq<HelperCall>)
    requires |texts| == |calls| + 1
    requires forall k :: 0 <= k < |calls| ==> calls[k].name in e.helpers
    requires |e.PlaceholderText()| > 0
    requires forall k :: 0 <= k < |texts| ==> Avoids(texts[k], e.PlaceholderText()[0])
    requires AwaitAll(CallResults(e.helpers, calls)).Ok?
    ensures Substitute(e.PlaceholderText(), Rendered(e.PlaceholderText(), texts, |calls|), CallResults(e.helpers, calls))
         == Ok(Interleave(texts, Strings(AwaitAll(CallResults(e.helpers, calls)).value)))
  {
    PlaceholdersReplacedInOrder(e.PlaceholderText(), texts, CallResults(e.helpers, calls));
  }
}
