/** lib/replaceP.js: `String.prototype.replace` for a replacer that may
    return promises. The matches are enumerated first and the text is cut
    into a `parts` list (unmatched text, replacement value, unmatched text,
    ...); only then are the replacement values awaited, stringified and the
    parts joined. */
module ReplaceP {
  import opened JsValues
  import opened GlobalRegex
  import opened Decimal

  /** The third argument of `replaceP`: a replacement string, a replacer
      function (called with the match and the whole text), or anything else. */
  datatype Replacer =
    | StringReplacer(template: string)
    | FunctionReplacer(f: (Match, string) -> Value)
    | OtherReplacer(v: Value)

  /** An entry of the `parts` list: a piece of unmatched text, or the value a
      replacer call returned, not yet awaited. */
  datatype Part = Text(text: string) | Replacement(value: Value)

  /** `s.substr(start, length)`: a negative start counts from the end, and
      the piece is clipped to the text; a negative length gives "". */
  function Substr(s: string, start: int, length: int): (r: string)
    ensures 0 <= start <= |s| && 0 <= length <= |s| - start ==> r == s[start..start + length]
    ensures length <= 0 ==> r == ""
  {
    var from := if start < 0 then (if |s| + start < 0 then 0 else |s| + start)
                else if start > |s| then |s| else start;
    var size := if length < 0 then 0 else if length > |s| - from then |s| - from else length;
    s[from..from + size]
  }

  /** `s.substr(start)`: from `start` to the end. */
  function SubstrToEnd(s: string, start: int): (r: string)
    ensures 0 <= start <= |s| ==> r == s[start..]
  {
    Substr(s, start, |s|)
  }

  /** The match iteration (lib/replaceP.js:33-57): for each match, the text
      from `lastIndex` up to the match, then the replacer's value for it;
      `lastIndex` moves to the end of the match; finally the tail. Gaps sit
      at the even positions and replacement values at the odd ones, all
      fixed before any value is awaited. */
  method CollectParts(s: string, ms: seq<Match>, f: (Match, string) -> Value) returns (parts: seq<Part>)
    requires ValidMatches(s, ms)
    ensures |parts| == 2 * |ms| + 1
    ensures forall j :: 0 <= j < |parts| ==>
      parts[j] == if j % 2 == 0 then Text(Gaps(s, ms)[j / 2]) else Replacement(f(ms[j / 2], s))
  {
    var gaps := Gaps(s, ms);
    parts := [];
    var lastIndex := 0;
    for i := 0 to |ms|
      invariant |parts| == 2 * i
      invariant lastIndex == GapStart(ms, 0, i)
      invariant forall j :: 0 <= j < |parts| ==>
        parts[j] == if j % 2 == 0 then Text(gaps[j / 2]) else Replacement(f(ms[j / 2], s))
    {
      var m := ms[i];
      GapBounds(s, ms, 0, i);
      parts := parts + [Text(Substr(s, lastIndex, m.offset - lastIndex))];
      parts := parts + [Replacement(f(m, s))];
      lastIndex := m.offset + |s[m.offset..m.end]|;
    }
    GapBounds(s, ms, 0, |ms|);
    parts := parts + [Text(SubstrToEnd(s, lastIndex))];
  }

  /** `Promise.all(parts).then(resolved => resolved.join(''))`: each
      replacement value is awaited and passed through `String(...)`; the
      first value that cannot be awaited makes the whole result fail. */
  function Join(parts: seq<Part>): Result<string> {
    if parts == [] then Ok("")
    else
      match PartText(parts[0])
      case Err(e) => Err(e)
      case Ok(head) =>
        match Join(parts[1..])
        case Err(e) => Err(e)
        case Ok(rest) => Ok(head + rest)
  }

  /** One resolved part: the gap itself, or `String(await value)`. */
  function PartText(part: Part): Result<string> {
    match part
    case Text(t) => Ok(t)
    case Replacement(v) =>
      match Await(v)
      case Err(e) => Err(e)
      case Ok(x) => Ok(ToString(x))
  }

  /** The values a replacer function returns, one per match. */
  function ReplacerResults(s: string, ms: seq<Match>, f: (Match, string) -> Value): (vs: seq<Value>)
    ensures |vs| == |ms|
  {
    seq(|ms|, k requires 0 <= k < |ms| => f(ms[k], s))
  }

  function Strings(vs: seq<Value>): (ts: seq<string>)
    ensures |ts| == |vs|
  {
    seq(|vs|, k requires 0 <= k < |vs| => ToString(vs[k]))
  }

  /** The reference result with a replacer function: `String.prototype.replace`
      with each match replaced by the string of its awaited replacer value. */
  function FunctionReplace(s: string, ms: seq<Match>, f: (Match, string) -> Value): Result<string>
    requires ValidMatches(s, ms)
  {
    match AwaitAll(ReplacerResults(s, ms, f))
    case Err(e) => Err(e)
    case Ok(vs) => Ok(Splice(s, ms, Strings(vs)))
  }

  /** Joining a gap and a replacement value in front of further parts. */
  lemma JoinGapAndValue(gap: string, v: Value, rest: seq<Part>)
    ensures Join([Text(gap), Replacement(v)] + rest) ==
      match PartText(Replacement(v))
      case Err(e) => Err(e)
      case Ok(h) =>
        match Join(rest)
        case Err(e) => Err(e)
        case Ok(t) => Ok(gap + h + t)
  {
    var parts := [Text(gap), Replacement(v)] + rest;
    assert parts[1..] == [Replacement(v)] + rest;
    assert parts[1..][1..] == rest;
    match PartText(Replacement(v)) {
      case Err(e) =>
      case Ok(h) =>
        match Join(rest) {
          case Err(e) =>
          case Ok(t) =>
            assert Join(parts[1..]) == Ok(h + t);
            assert gap + (h + t) == gap + h + t;
        }
    }
  }

  /** Parts alternating between the gaps and the values, starting and
      ending with a gap. */
  predicate Alternates(parts: seq<Part>, gaps: seq<string>, vs: seq<Value>)
    requires |gaps| == |vs| + 1
  {
    && |parts| == 2 * |vs| + 1
    && forall j :: 0 <= j < |parts| ==>
         parts[j] == if j % 2 == 0 then Text(gaps[j / 2]) else Replacement(vs[j / 2])
  }

  lemma AlternatesTail(parts: seq<Part>, gaps: seq<string>, vs: seq<Value>)
    requires |gaps| == |vs| + 1 && |vs| > 0 && Alternates(parts, gaps, vs)
    ensures Alternates(parts[2..], gaps[1..], vs[1..])
    ensures parts == [Text(gaps[0]), Replacement(vs[0])] + parts[2..]
  {
    var rest := parts[2..];
    forall j | 0 <= j < |rest|
      ensures rest[j] == if j % 2 == 0 then Text(gaps[1..][j / 2]) else Replacement(vs[1..][j / 2])
    {
      assert rest[j] == parts[j + 2];
      assert (j + 2) / 2 == j / 2 + 1 && (j + 2) % 2 == j % 2;
    }
    assert parts[0] == Text(gaps[0]) && parts[1] == Replacement(vs[0]);
  }

  /** The step of `JoinInterleaved`: a gap and a value in front of parts
      already known to join. */
  lemma JoinInterleavedStep(rest: seq<Part>, gaps: seq<string>, vs: seq<Value>)
    requires |gaps| == |vs| + 1 && |vs| > 0
    requires Join(rest) == match AwaitAll(vs[1..])
                           case Err(e) => Err(e)
                           case Ok(ws) => Ok(Interleave(gaps[1..], Strings(ws)))
    ensures Join([Text(gaps[0]), Replacement(vs[0])] + rest) == match AwaitAll(vs)
                                                                case Err(e) => Err(e)
                                                                case Ok(ws) => Ok(Interleave(gaps, Strings(ws)))
  {
    JoinGapAndValue(gaps[0], vs[0], rest);
    assert AwaitAll(vs) == match Await(vs[0])
                           case Err(e) => Err(e)
                           case Ok(x) =>
                             match AwaitAll(vs[1..])
                             case Err(e) => Err(e)
                             case Ok(ws) => Ok([x] + ws);
    match Await(vs[0]) {
      case Err(e) =>
      case Ok(x) =>
        match AwaitAll(vs[1..]) {
          case Err(e) =>
          case Ok(ws) =>
            StringsCons(x, ws);
            assert Interleave(gaps, [ToString(x)] + Strings(ws))
                == gaps[0] + ToString(x) + Interleave(gaps[1..], Strings(ws));
        }
    }
  }

  lemma StringsCons(x: Value, ws: seq<Value>)
    ensures Strings([x] + ws) == [ToString(x)] + Strings(ws)
  {
    var l, r := Strings([x] + ws), [ToString(x)] + Strings(ws);
    forall k | 0 <= k < |l| ensures l[k] == r[k] {
      if k > 0 {
        assert ([x] + ws)[k] == ws[k - 1];
      }
    }
  }

  /** Joining gap/value parts awaits the values in order and interleaves
      their strings with the gaps. */
  lemma {:induction false} JoinInterleaved(parts: seq<Part>, gaps: seq<string>, vs: seq<Value>)
    requires |gaps| == |vs| + 1 && Alternates(parts, gaps, vs)
    ensures Join(parts) == match AwaitAll(vs)
                           case Err(e) => Err(e)
                           case Ok(ws) => Ok(Interleave(gaps, Strings(ws)))
    decreases |vs|
  {
    if vs == [] {
      assert parts == [Text(gaps[0])];
      assert Join(parts[1..]) == Ok("");
      assert gaps[0] + "" == gaps[0];
    } else {
      AlternatesTail(parts, gaps, vs);
      JoinInterleaved(parts[2..], gaps[1..], vs[1..]);
      JoinInterleavedStep(parts[2..], gaps, vs);
    }
  }

  /** `replaceP(string, regex, replacer)`. A replacement string gives what
      `String.prototype.replace` gives; a replacer function gives the
      parts, awaited and joined; any other replacer gives `undefined`
      (`None`). */
  method ReplaceP(s: string, ms: seq<Match>, replacer: Replacer) returns (r: Option<Result<string>>)
    requires ValidMatches(s, ms)
    ensures r.None? <==> replacer.OtherReplacer?
    ensures replacer.StringReplacer? ==> r == Some(Ok(Splice(s, ms, Expansions(replacer.template, s, ms))))
    ensures replacer.FunctionReplacer? ==> r == Some(FunctionReplace(s, ms, replacer.f))
  {
    match replacer {
      case StringReplacer(template) =>
        r := Some(Ok(Splice(s, ms, Expansions(template, s, ms))));
      case FunctionReplacer(f) =>
        var parts := CollectParts(s, ms, f);
        JoinInterleaved(parts, Gaps(s, ms), ReplacerResults(s, ms, f));
        var awaited := AwaitAll(ReplacerResults(s, ms, f));
        if awaited.Ok? {
          SpliceIsInterleave(s, ms, Strings(awaited.value), 0);
        }
        r := Some(Join(parts));
      case OtherReplacer(_) =>
        r := None;
    }
  }

  /** A replacement string acts as the replacer function that expands it at
      each match. */
  function ExpandingReplacer(template: string): (Match, string) -> Value {
    (m: Match, s: string) => Str(if m.offset <= m.end <= |s| then Expand(template, s, m) else "")
  }

  lemma StringReplacerAsFunction(s: string, ms: seq<Match>, template: string)
    requires ValidMatches(s, ms)
    ensures FunctionReplace(s, ms, ExpandingReplacer(template)) == Ok(Splice(s, ms, Expansions(template, s, ms)))
  {
    var vs := ReplacerResults(s, ms, ExpandingReplacer(template));
    var ws := AwaitAll(vs).value;
    assert Strings(ws) == Expansions(template, s, ms);
  }

  /** A replacer whose values are strings, or promises of strings, gives
      what `String.prototype.replace` gives with those strings. */
  lemma StringResultsArePlainReplace(s: string, ms: seq<Match>, f: (Match, string) -> Value, texts: seq<string>)
    requires ValidMatches(s, ms) && |texts| == |ms|
    requires forall k :: 0 <= k < |ms| ==> f(ms[k], s) == Str(texts[k]) || f(ms[k], s) == Promise(Str(texts[k]))
    ensures FunctionReplace(s, ms, f) == Ok(Splice(s, ms, texts))
  {
    var vs := ReplacerResults(s, ms, f);
    forall k | 0 <= k < |vs| ensures Await(vs[k]) == Ok(Str(texts[k])) {
      assert vs[k] == f(ms[k], s);
    }
    AwaitAllStrings(vs, texts);
  }

  /** Values that await to the strings `texts` are awaited together, and
      their strings are `texts`. */
  lemma AwaitAllStrings(vs: seq<Value>, texts: seq<string>)
    requires |texts| == |vs|
    requires forall k :: 0 <= k < |vs| ==> Await(vs[k]) == Ok(Str(texts[k]))
    ensures AwaitAll(vs).Ok? && Strings(AwaitAll(vs).value) == texts
  {
    var ws := AwaitAll(vs).value;
    forall k | 0 <= k < |vs| ensures ws[k] == Str(texts[k]) {
      AwaitedAt(vs, k, texts[k]);
    }
    StringsOfStrs(ws, texts);
  }

  lemma AwaitedAt(vs: seq<Value>, k: nat, t: string)
    requires k < |vs| && AwaitAll(vs).Ok? && Await(vs[k]) == Ok(Str(t))
    ensures AwaitAll(vs).value[k] == Str(t)
  {
  }

  lemma StringsOfStrs(ws: seq<Value>, texts: seq<string>)
    requires |ws| == |texts| && forall k :: 0 <= k < |ws| ==> ws[k] == Str(texts[k])
    ensures Strings(ws) == texts
  {
    var ts := Strings(ws);
    forall k | 0 <= k < |ts| ensures ts[k] == texts[k] {
      assert ws[k] == Str(texts[k]);
    }
  }

  /** The pattern `/([bd])./` tried at one position: a `b` or `d`, captured,
      and any one character after it. */
  function BdDotAt(s: string, p: nat): (r: Option<Match>)
    ensures r.Some? ==> r.value.offset == p && p <= r.value.end <= |s|
  {
    if p + 1 < |s| && (s[p] == 'b' || s[p] == 'd') then Some(Match(p, p + 2, [Some([s[p]])])) else None
  }

  function BdDot(): Matcher {
    (s: string, p: nat) => BdDotAt(s, p)
  }

  lemma BdDotWellBehaved()
    ensures WellBehaved(BdDot())
  {
  }

  /** The global scan of `/([bd])./g` over `'abcde'` finds `bc` and `de`. */
  lemma BdDotScan()
    ensures WellBehaved(BdDot())
    ensures Scan(BdDot(), "abcde") == [Match(1, 3, [Some("b")]), Match(3, 5, [Some("d")])]
  {
    BdDotWellBehaved();
    var s := "abcde";
    var bc, de := Match(1, 3, [Some("b")]), Match(3, 5, [Some("d")]);
    assert BdDotAt(s, 0).None? && BdDotAt(s, 1) == Some(bc);
    assert BdDotAt(s, 3) == Some(de) && BdDotAt(s, 5).None?;
    assert ScanFrom(BdDot(), s, 5) == [];
    assert ScanFrom(BdDot(), s, 3) == [de];
    assert ScanFrom(BdDot(), s, 1) == [bc, de];
  }

  /** The example of test/replaceP-spec.js:24: `'abcde'` with
      `/([bd])./g` and `'$1x'` becomes `'abxdx'`. */
  lemma ExampleReplacementString()
    ensures WellBehaved(BdDot())
    ensures Splice("abcde", Scan(BdDot(), "abcde"), Expansions("$1x", "abcde", Scan(BdDot(), "abcde"))) == "abxdx"
  {
    var s := "abcde";
    BdDotScan();
    var ms := Scan(BdDot(), s);
    ExpandGroupThenX(s, ms[0]);
    ExpandGroupThenX(s, ms[1]);
    var reps := Expansions("$1x", s, ms);
    assert reps[0] == "bx" && reps[1] == "dx";
    assert SpliceFrom(s, ms[1..], reps[1..], 3) == "dx";
  }

  lemma ExpandGroupThenX(s: string, m: Match)
    requires m.offset <= m.end <= |s| && |m.groups| >= 1
    ensures Expand("$1x", s, m) == GroupText(m, 1) + "x"
  {
    assert DigitsValue("1") == 1;
    assert !IsDigit('x');
    assert "$1x"[2..] == "x" && "x"[1..] == "";
    assert Expand("x", s, m) == "x";
  }
}
