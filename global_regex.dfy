/** What `String.prototype.replace` does with a global regular expression,
    for any pattern given as a matcher: the left-to-right, non-overlapping
    iteration over matches, the splicing of replacements into the text, and
    the expansion of `$` patterns in a replacement string. */
module GlobalRegex {
  import opened Decimal
  import opened JsValues

  /** One match: the matched text is `s[offset..end]`; `groups[g]` is capture
      group g + 1, `None` when that group did not take part. */
  datatype Match = Match(offset: nat, end: nat, groups: seq<Option<string>>)

  /** A pattern, as the attempt to match it at one position of a string. */
  type Matcher = (string, nat) -> Option<Match>

  /** A match found at position `p` starts there and stays inside the string. */
  ghost predicate WellBehaved(matchAt: Matcher) {
    forall s: string, p: nat :: matchAt(s, p).Some? ==>
      matchAt(s, p).value.offset == p && p <= matchAt(s, p).value.end <= |s|
  }

  /** Matches inside `s`, in order and without overlap. */
  predicate ValidMatches(s: string, ms: seq<Match>) {
    && (forall k :: 0 <= k < |ms| ==> ms[k].offset <= ms[k].end <= |s|)
    && (forall j, k :: 0 <= j < k < |ms| ==> ms[j].end <= ms[k].offset)
  }

  /** Where the search resumes after a match: its end, or one further when
      the match was empty. */
  function Resume(m: Match): nat {
    if m.end > m.offset then m.end else m.offset + 1
  }

  /** The matches a global regular expression finds from `lastIndex == p`
      on: try each position in turn; after a match, resume at its end (one
      further for an empty match). Every position up to and including `|s|`
      is tried. */
  function ScanFrom(matchAt: Matcher, s: string, p: nat): (ms: seq<Match>)
    requires WellBehaved(matchAt)
    ensures ValidMatches(s, ms)
    ensures forall k :: 0 <= k < |ms| ==> p <= ms[k].offset && matchAt(s, ms[k].offset) == Some(ms[k])
    decreases |s| + 1 - p
  {
    if p > |s| then []
    else
      match matchAt(s, p)
      case None => ScanFrom(matchAt, s, p + 1)
      case Some(m) => [m] + ScanFrom(matchAt, s, Resume(m))
  }

  function Scan(matchAt: Matcher, s: string): (ms: seq<Match>)
    requires WellBehaved(matchAt)
  {
    ScanFrom(matchAt, s, 0)
  }

  /** The scan skips no match: a position that no found match covers (an
      empty match covers its own position) has no match. */
  lemma {:induction false} ScanMissesNothing(matchAt: Matcher, s: string, p: nat, q: nat)
    requires WellBehaved(matchAt)
    requires p <= q <= |s|
    requires forall j :: 0 <= j < |ScanFrom(matchAt, s, p)| ==>
      !(ScanFrom(matchAt, s, p)[j].offset <= q < Resume(ScanFrom(matchAt, s, p)[j]))
    ensures matchAt(s, q).None?
    decreases |s| + 1 - p
  {
    var ms := ScanFrom(matchAt, s, p);
    match matchAt(s, p)
    case None =>
      if q != p {
        ScanMissesNothing(matchAt, s, p + 1, q);
      }
    case Some(m) =>
      assert ms[0] == m;
      var rest := ScanFrom(matchAt, s, Resume(m));
      assert ms == [m] + rest;
      forall j | 0 <= j < |rest| ensures !(rest[j].offset <= q < Resume(rest[j])) {
        assert rest[j] == ms[j + 1];
      }
      ScanMissesNothing(matchAt, s, Resume(m), q);
  }

  // ---- Gaps: the unmatched text around the matches ----

  /** Matches in `s` that all lie at or after `from`. */
  predicate ValidFrom(s: string, ms: seq<Match>, from: nat) {
    ValidMatches(s, ms) && from <= |s| && (|ms| > 0 ==> from <= ms[0].offset)
  }

  function GapStart(ms: seq<Match>, from: nat, k: nat): nat
    requires k <= |ms|
  {
    if k == 0 then from else ms[k - 1].end
  }

  function GapEnd(s: string, ms: seq<Match>, k: nat): nat
    requires k <= |ms|
  {
    if k < |ms| then ms[k].offset else |s|
  }

  lemma GapBounds(s: string, ms: seq<Match>, from: nat, k: nat)
    requires ValidFrom(s, ms, from) && k <= |ms|
    ensures GapStart(ms, from, k) <= GapEnd(s, ms, k) <= |s|
  {
  }

  /** The `x`-th character of the `k`-th gap. */
  lemma GapChar(s: string, ms: seq<Match>, k: nat, x: nat)
    requires ValidMatches(s, ms) && k <= |ms| && x < |Gaps(s, ms)[k]|
    ensures GapStart(ms, 0, k) + x < GapEnd(s, ms, k) <= |s|
    ensures Gaps(s, ms)[k][x] == s[GapStart(ms, 0, k) + x]
  {
    GapBounds(s, ms, 0, k);
    assert Gaps(s, ms)[k] == s[GapStart(ms, 0, k)..GapEnd(s, ms, k)];
  }

  /** A position inside a gap between non-empty matches of the scan has no
      match. */
  lemma GapPositionUnmatched(matchAt: Matcher, s: string, k: nat, q: nat)
    requires WellBehaved(matchAt)
    requires forall m :: m in Scan(matchAt, s) ==> m.end > m.offset
    requires k <= |Scan(matchAt, s)|
    requires GapStart(Scan(matchAt, s), 0, k) <= q < GapEnd(s, Scan(matchAt, s), k)
    ensures matchAt(s, q).None?
  {
    var ms := Scan(matchAt, s);
    forall j | 0 <= j < |ms| ensures !(ms[j].offset <= q < Resume(ms[j])) {
      assert ms[j] in ms;
      if j < k {
        assert ms[j].end <= ms[k - 1].end;
      } else {
        assert ms[k].offset <= ms[j].offset;
      }
    }
    ScanMissesNothing(matchAt, s, 0, q);
  }


  /** The text before the first match, between consecutive matches, and
      after the last one: `|ms| + 1` pieces. */
  function GapsFrom(s: string, ms: seq<Match>, from: nat): (gaps: seq<string>)
    requires ValidFrom(s, ms, from)
    ensures |gaps| == |ms| + 1
  {
    seq(|ms| + 1, k requires 0 <= k <= |ms| =>
      GapBounds(s, ms, from, k);
      s[GapStart(ms, from, k)..GapEnd(s, ms, k)])
  }

  function Gaps(s: string, ms: seq<Match>): (gaps: seq<string>)
    requires ValidMatches(s, ms)
    ensures |gaps| == |ms| + 1
  {
    GapsFrom(s, ms, 0)
  }

  /** The texts the matches cover. */
  function MatchedTexts(s: string, ms: seq<Match>): (texts: seq<string>)
    requires ValidMatches(s, ms)
    ensures |texts| == |ms|
  {
    seq(|ms|, k requires 0 <= k < |ms| => s[ms[k].offset..ms[k].end])
  }

  /** `gaps[0] + reps[0] + gaps[1] + ... + reps[n-1] + gaps[n]`. */
  function Interleave(gaps: seq<string>, reps: seq<string>): string
    requires |gaps| == |reps| + 1
    decreases |reps|
  {
    if reps == [] then gaps[0] else gaps[0] + reps[0] + Interleave(gaps[1..], reps[1..])
  }

  lemma GapsFromCons(s: string, ms: seq<Match>, from: nat)
    requires ValidFrom(s, ms, from) && |ms| > 0
    ensures ValidFrom(s, ms[1..], ms[0].end)
    ensures GapsFrom(s, ms, from) == [s[from..ms[0].offset]] + GapsFrom(s, ms[1..], ms[0].end)
  {
    var tail := ms[1..];
    assert forall k :: 0 <= k < |tail| ==> tail[k] == ms[k + 1];
    var g, g' := GapsFrom(s, ms, from), GapsFrom(s, tail, ms[0].end);
    GapOfGapsFrom(s, ms, from, 0);
    forall k | 0 < k <= |ms| ensures g[k] == g'[k - 1] {
      GapOfTail(s, ms, from, k);
    }
    assert g == [g[0]] + g';
  }

  lemma GapOfTail(s: string, ms: seq<Match>, from: nat, k: nat)
    requires ValidFrom(s, ms, from) && 0 < k <= |ms| && ValidFrom(s, ms[1..], ms[0].end)
    ensures GapsFrom(s, ms, from)[k] == GapsFrom(s, ms[1..], ms[0].end)[k - 1]
  {
    var tail := ms[1..];
    GapOfGapsFrom(s, ms, from, k);
    GapOfGapsFrom(s, tail, ms[0].end, k - 1);
    assert k > 1 ==> tail[k - 2] == ms[k - 1];
    assert k < |ms| ==> tail[k - 1] == ms[k];
    assert GapStart(ms, from, k) == GapStart(tail, ms[0].end, k - 1);
    assert GapEnd(s, ms, k) == GapEnd(s, tail, k - 1);
  }

  lemma GapOfGapsFrom(s: string, ms: seq<Match>, from: nat, k: nat)
    requires ValidFrom(s, ms, from) && k <= |ms|
    ensures GapStart(ms, from, k) <= GapEnd(s, ms, k) <= |s|
    ensures GapsFrom(s, ms, from)[k] == s[GapStart(ms, from, k)..GapEnd(s, ms, k)]
  {
    GapBounds(s, ms, from, k);
  }

  /** Partition: the gaps and the matched texts, interleaved, give back the
      original text. */
  lemma {:induction false} GapsAndMatchesPartition(s: string, ms: seq<Match>, from: nat)
    requires ValidFrom(s, ms, from)
    ensures Interleave(GapsFrom(s, ms, from), MatchedTexts(s, ms)) == s[from..]
    decreases |ms|
  {
    if ms != [] {
      GapsFromCons(s, ms, from);
      var m := ms[0];
      assert MatchedTexts(s, ms)[1..] == MatchedTexts(s, ms[1..]);
      GapsAndMatchesPartition(s, ms[1..], m.end);
      assert s[from..] == s[from..m.offset] + s[m.offset..m.end] + s[m.end..];
    }
  }

  // ---- String.prototype.replace ----

  /** The result of a global replace, computed as the language specifies
      it: accumulate, match by match, the text from the resume position up
      to the match and the match's replacement; then append the rest. */
  function SpliceFrom(s: string, ms: seq<Match>, reps: seq<string>, next: nat): string
    requires ValidFrom(s, ms, next) && |reps| == |ms|
    decreases |ms|
  {
    if ms == [] then s[next..]
    else
      assert ValidFrom(s, ms[1..], ms[0].end) by {
        assert forall k :: 0 <= k < |ms| - 1 ==> ms[1..][k] == ms[k + 1];
      }
      s[next..ms[0].offset] + reps[0] + SpliceFrom(s, ms[1..], reps[1..], ms[0].end)
  }

  /** `s.replace(regex, ...)` where the k-th match is replaced by `reps[k]`. */
  function Splice(s: string, ms: seq<Match>, reps: seq<string>): string
    requires ValidMatches(s, ms) && |reps| == |ms|
  {
    SpliceFrom(s, ms, reps, 0)
  }

  /** The replaced text is the unmatched text, kept verbatim and in order,
      with the replacements between the pieces. */
  lemma {:induction false} SpliceIsInterleave(s: string, ms: seq<Match>, reps: seq<string>, from: nat)
    requires ValidFrom(s, ms, from) && |reps| == |ms|
    ensures SpliceFrom(s, ms, reps, from) == Interleave(GapsFrom(s, ms, from), reps)
    decreases |ms|
  {
    if ms != [] {
      GapsFromCons(s, ms, from);
      SpliceIsInterleave(s, ms[1..], reps[1..], ms[0].end);
    }
  }

  /** With no match the text is returned unchanged; replacing every match
      by its own text also gives the text back. */
  lemma SpliceUnchanged(s: string, ms: seq<Match>)
    requires ValidMatches(s, ms)
    ensures Splice(s, [], []) == s
    ensures Splice(s, ms, MatchedTexts(s, ms)) == s
  {
    SpliceIsInterleave(s, ms, MatchedTexts(s, ms), 0);
    GapsAndMatchesPartition(s, ms, 0);
  }

  // ---- Replacement patterns ----

  /** The text of capture group `n` (1-based), empty when it did not take part. */
  function GroupText(m: Match, n: nat): string
    requires 1 <= n <= |m.groups|
  {
    match m.groups[n - 1]
    case None => ""
    case Some(g) => g
  }

  /** The replacement a string replacer stands for at match `m`: `$$` is a
      dollar sign, `$&` the match, `` $` `` the text before it, `$'` the text
      after it, `$n` and `$nn` a capture group (the two-digit reading wins
      when such a group exists); any other `$` is literal. */
  function Expand(template: string, s: string, m: Match): string
    requires m.offset <= m.end <= |s|
    decreases |template|
  {
    if template == [] then []
    else if template[0] != '$' || |template| == 1 then [template[0]] + Expand(template[1..], s, m)
    else
      var c := template[1];
      if c == '$' then "$" + Expand(template[2..], s, m)
      else if c == '&' then s[m.offset..m.end] + Expand(template[2..], s, m)
      else if c == '`' then s[..m.offset] + Expand(template[2..], s, m)
      else if c == '\'' then s[m.end..] + Expand(template[2..], s, m)
      else if IsDigit(c) && |template| >= 3 && IsDigit(template[2])
              && 1 <= DigitsValue(template[1..3]) <= |m.groups| then
        GroupText(m, DigitsValue(template[1..3])) + Expand(template[3..], s, m)
      else if IsDigit(c) && 1 <= DigitsValue([c]) <= |m.groups| then
        GroupText(m, DigitsValue([c])) + Expand(template[2..], s, m)
      else "$" + Expand(template[1..], s, m)
  }

  lemma ExpansionsCons(template: string, s: string, ms: seq<Match>)
    requires ValidMatches(s, ms) && |ms| > 0
    ensures ValidMatches(s, ms[1..]) && ms[0].offset <= ms[0].end <= |s|
    ensures Expansions(template, s, ms) == [Expand(template, s, ms[0])] + Expansions(template, s, ms[1..])
  {
    assert forall k :: 0 <= k < |ms| - 1 ==> ms[1..][k] == ms[k + 1];
    var e, e' := Expansions(template, s, ms), Expansions(template, s, ms[1..]);
    forall k | 0 <= k < |ms| - 1 ensures e[k + 1] == e'[k] {
      assert ms[1..][k] == ms[k + 1];
    }
    assert e == [e[0]] + e';
  }

  /** A replacement string without `$` is inserted as it is. */
  lemma {:induction false} ExpandLiteral(template: string, s: string, m: Match)
    requires m.offset <= m.end <= |s|
    requires forall i :: 0 <= i < |template| ==> template[i] != '$'
    ensures Expand(template, s, m) == template
    decreases |template|
  {
    if template != [] {
      ExpandLiteral(template[1..], s, m);
    }
  }

  /** The replacement strings of a string replacer, one per match. */
  function Expansions(template: string, s: string, ms: seq<Match>): (reps: seq<string>)
    requires ValidMatches(s, ms)
    ensures |reps| == |ms|
  {
    seq(|ms|, k requires 0 <= k < |ms| => Expand(template, s, ms[k]))
  }

  // ---- Scanning text assembled from pieces ----

  function ShiftMatch(m: Match, d: nat): Match {
    Match(m.offset + d, m.end + d, m.groups)
  }

  function ShiftMatches(ms: seq<Match>, d: nat): (r: seq<Match>)
    ensures |r| == |ms|
    ensures forall k :: 0 <= k < |ms| ==> r[k] == ShiftMatch(ms[k], d)
  {
    seq(|ms|, k requires 0 <= k < |ms| => ShiftMatch(ms[k], d))
  }

  lemma ShiftMatchesCons(m: Match, ms: seq<Match>, d: nat)
    ensures ShiftMatches([m] + ms, d) == [ShiftMatch(m, d)] + ShiftMatches(ms, d)
  {
  }

  /** Text in front does not change what matches further on, only where. */
  ghost predicate PrependInvariant(matchAt: Matcher) {
    forall t: string, s: string, p: nat {:trigger matchAt(t + s, p)} :: |t| <= p <= |t| + |s| ==>
      matchAt(t + s, p) == match matchAt(s, p - |t|)
                           case None => None
                           case Some(m) => Some(ShiftMatch(m, |t|))
  }

  /** A match, once found, is not changed by text appended behind it. */
  ghost predicate AppendInvariant(matchAt: Matcher) {
    forall s: string, u: string, p: nat {:trigger matchAt(s + u, p)} ::
      p <= |s| && matchAt(s, p).Some? ==> matchAt(s + u, p) == matchAt(s, p)
  }

  /** `s` does not contain the character `c`. */
  predicate Avoids(s: string, c: char) {
    forall x :: 0 <= x < |s| ==> s[x] != c
  }

  /** Pieces without `c`, interleaved, give a text without `c`. */
  lemma {:induction false} InterleaveAvoids(gaps: seq<string>, reps: seq<string>, c: char)
    requires |gaps| == |reps| + 1
    requires forall k :: 0 <= k < |gaps| ==> Avoids(gaps[k], c)
    requires forall k :: 0 <= k < |reps| ==> Avoids(reps[k], c)
    ensures Avoids(Interleave(gaps, reps), c)
    decreases |reps|
  {
    if reps != [] {
      InterleaveAvoids(gaps[1..], reps[1..], c);
      var rest := Interleave(gaps[1..], reps[1..]);
      forall x | 0 <= x < |gaps[0] + reps[0] + rest| ensures (gaps[0] + reps[0] + rest)[x] != c {
        if x < |gaps[0]| {
          assert (gaps[0] + reps[0] + rest)[x] == gaps[0][x];
        } else if x < |gaps[0]| + |reps[0]| {
          assert (gaps[0] + reps[0] + rest)[x] == reps[0][x - |gaps[0]|];
        } else {
          assert (gaps[0] + reps[0] + rest)[x] == rest[x - |gaps[0]| - |reps[0]|];
        }
      }
    }
  }

  /** Replacing matches by text without `c`, when the text between them has
      no `c` either, gives a text without `c`. */
  lemma SpliceAvoids(s: string, ms: seq<Match>, reps: seq<string>, c: char)
    requires ValidMatches(s, ms) && |reps| == |ms|
    requires forall k :: 0 <= k < |Gaps(s, ms)| ==> Avoids(Gaps(s, ms)[k], c)
    requires forall k :: 0 <= k < |reps| ==> Avoids(reps[k], c)
    ensures Avoids(Splice(s, ms, reps), c)
  {
    SpliceIsInterleave(s, ms, reps, 0);
    InterleaveAvoids(Gaps(s, ms), reps, c);
  }

  /** Every match starts with the character `c`. */
  ghost predicate StartsWithChar(matchAt: Matcher, c: char) {
    forall s: string, p: nat :: matchAt(s, p).Some? ==> p < |s| && s[p] == c
  }

  /** The scan passes over positions where nothing matches. */
  lemma {:induction false} ScanSkips(matchAt: Matcher, s: string, p: nat, q: nat)
    requires WellBehaved(matchAt) && p <= q
    requires forall x :: p <= x < q ==> matchAt(s, x).None?
    ensures ScanFrom(matchAt, s, p) == ScanFrom(matchAt, s, q)
    decreases q - p
  {
    if p < q {
      ScanSkips(matchAt, s, p + 1, q);
    }
  }

  /** One step of the scan at a position where a match is found. */
  lemma ScanFromMatch(matchAt: Matcher, s: string, p: nat, m: Match)
    requires WellBehaved(matchAt) && p <= |s| && matchAt(s, p) == Some(m)
    ensures ScanFrom(matchAt, s, p) == [m] + ScanFrom(matchAt, s, Resume(m))
  {
  }

  /** One step of the scan at a position where nothing matches. */
  lemma ScanFromNoMatch(matchAt: Matcher, s: string, p: nat)
    requires WellBehaved(matchAt) && p <= |s| && matchAt(s, p).None?
    ensures ScanFrom(matchAt, s, p) == ScanFrom(matchAt, s, p + 1)
  {
  }

  /** Under `PrependInvariant`, a match of `s` is a match of `t + s`, moved. */
  lemma PrependedMatch(matchAt: Matcher, t: string, s: string, p: nat)
    requires PrependInvariant(matchAt) && p <= |s|
    ensures matchAt(s, p).None? ==> matchAt(t + s, |t| + p).None?
    ensures matchAt(s, p).Some? ==> matchAt(t + s, |t| + p) == Some(ShiftMatch(matchAt(s, p).value, |t|))
  {
    assert |t| + p - |t| == p;
  }

  /** The step of `ScanShifts` at a position where `s` has no match. */
  lemma ScanShiftsNoMatch(matchAt: Matcher, t: string, s: string, p: nat)
    requires WellBehaved(matchAt)
    requires p <= |s| && matchAt(s, p).None? && matchAt(t + s, |t| + p).None?
    requires ScanFrom(matchAt, t + s, |t| + p + 1) == ShiftMatches(ScanFrom(matchAt, s, p + 1), |t|)
    ensures ScanFrom(matchAt, t + s, |t| + p) == ShiftMatches(ScanFrom(matchAt, s, p), |t|)
  {
    ScanFromNoMatch(matchAt, t + s, |t| + p);
    ScanFromNoMatch(matchAt, s, p);
  }

  /** The step of `ScanShifts` at a position where `s` has a match. */
  lemma ScanShiftsAtMatch(matchAt: Matcher, t: string, s: string, p: nat, m: Match)
    requires WellBehaved(matchAt)
    requires p <= |s| && matchAt(s, p) == Some(m) && matchAt(t + s, |t| + p) == Some(ShiftMatch(m, |t|))
    requires ScanFrom(matchAt, t + s, |t| + Resume(m)) == ShiftMatches(ScanFrom(matchAt, s, Resume(m)), |t|)
    ensures ScanFrom(matchAt, t + s, |t| + p) == ShiftMatches(ScanFrom(matchAt, s, p), |t|)
  {
    var m' := ShiftMatch(m, |t|);
    assert Resume(m') == |t| + Resume(m);
    var rest := ScanFrom(matchAt, s, Resume(m));
    ScanFromMatch(matchAt, t + s, |t| + p, m');
    ScanFromMatch(matchAt, s, p, m);
    ShiftMatchesCons(m, rest, |t|);
    var shiftedRest := ScanFrom(matchAt, t + s, Resume(m'));
    assert shiftedRest == ShiftMatches(rest, |t|);
    assert ScanFrom(matchAt, t + s, |t| + p) == [m'] + shiftedRest;
    assert ScanFrom(matchAt, s, p) == [m] + rest;
  }

  /** Scanning `t + s` from a position inside `s` finds the matches of `s`,
      moved by `|t|`. */
  lemma {:induction false} ScanShifts(matchAt: Matcher, t: string, s: string, p: nat)
    requires WellBehaved(matchAt) && PrependInvariant(matchAt)
    ensures ScanFrom(matchAt, t + s, |t| + p) == ShiftMatches(ScanFrom(matchAt, s, p), |t|)
    decreases |s| + 1 - p
  {
    if p <= |s| {
      PrependedMatch(matchAt, t, s, p);
      if matchAt(s, p).None? {
        ScanShifts(matchAt, t, s, p + 1);
        ScanShiftsNoMatch(matchAt, t, s, p);
      } else {
        var m := matchAt(s, p).value;
        ScanShifts(matchAt, t, s, Resume(m));
        ScanShiftsAtMatch(matchAt, t, s, p, m);
      }
    } else {
      assert ScanFrom(matchAt, t + s, |t| + p) == [];
    }
  }

  /** The first step of a splice. */
  lemma SpliceFromCons(s: string, ms: seq<Match>, reps: seq<string>, p: nat)
    requires ValidFrom(s, ms, p) && |reps| == |ms| && |ms| > 0
    ensures ValidFrom(s, ms[1..], ms[0].end)
    ensures SpliceFrom(s, ms, reps, p) == s[p..ms[0].offset] + reps[0] + SpliceFrom(s, ms[1..], reps[1..], ms[0].end)
  {
    assert forall k :: 0 <= k < |ms| - 1 ==> ms[1..][k] == ms[k + 1];
  }

  lemma ShiftMatchesTail(ms: seq<Match>, d: nat)
    requires |ms| > 0
    ensures ShiftMatches(ms, d)[1..] == ShiftMatches(ms[1..], d)
  {
  }

  /** The step of `SpliceShifts` at the first match. */
  lemma SpliceShiftsStep(t: string, s: string, ms: seq<Match>, reps: seq<string>, p: nat)
    requires ValidFrom(s, ms, p) && |reps| == |ms| && |ms| > 0
    requires ValidFrom(t + s, ShiftMatches(ms[1..], |t|), |t| + ms[0].end)
    requires SpliceFrom(t + s, ShiftMatches(ms[1..], |t|), reps[1..], |t| + ms[0].end)
          == SpliceFrom(s, ms[1..], reps[1..], ms[0].end)
    ensures ValidFrom(t + s, ShiftMatches(ms, |t|), |t| + p)
    ensures SpliceFrom(t + s, ShiftMatches(ms, |t|), reps, |t| + p) == SpliceFrom(s, ms, reps, p)
  {
    var ts := t + s;
    var shifted := ShiftMatches(ms, |t|);
    var m := ms[0];
    ShiftedValidFrom(t, s, ms, p);
    ShiftMatchesTail(ms, |t|);
    SliceOfConcat(t, s, p, m.offset);
    assert ts[|t| + p..shifted[0].offset] == s[p..m.offset];
    assert SpliceFrom(ts, shifted[1..], reps[1..], shifted[0].end) == SpliceFrom(s, ms[1..], reps[1..], m.end);
    SpliceFromConsEq(ts, shifted, |t| + p, s, ms, p, reps);
  }

  /** Two splices agree when their first gaps and their splices after the
      first match agree. */
  lemma SpliceFromConsEq(s1: string, ms1: seq<Match>, p1: nat, s2: string, ms2: seq<Match>, p2: nat, reps: seq<string>)
    requires ValidFrom(s1, ms1, p1) && ValidFrom(s2, ms2, p2)
    requires |ms1| == |ms2| == |reps| > 0
    requires s1[p1..ms1[0].offset] == s2[p2..ms2[0].offset]
    requires ValidFrom(s1, ms1[1..], ms1[0].end) && ValidFrom(s2, ms2[1..], ms2[0].end)
    requires SpliceFrom(s1, ms1[1..], reps[1..], ms1[0].end) == SpliceFrom(s2, ms2[1..], reps[1..], ms2[0].end)
    ensures SpliceFrom(s1, ms1, reps, p1) == SpliceFrom(s2, ms2, reps, p2)
  {
    SpliceFromCons(s1, ms1, reps, p1);
    SpliceFromCons(s2, ms2, reps, p2);
  }

  lemma ConcatCongruence(a: string, a': string, b: string, c: string, c': string)
    requires a == a' && c == c'
    ensures a + b + c == a' + b + c'
  {
  }

  lemma SliceOfConcat(t: string, s: string, i: nat, j: nat)
    requires i <= j <= |s|
    ensures (t + s)[|t| + i..|t| + j] == s[i..j]
  {
  }

  /** Splicing shifted matches into `t + s` from inside `s` is splicing into `s`. */
  lemma {:induction false} SpliceShifts(t: string, s: string, ms: seq<Match>, reps: seq<string>, p: nat)
    requires ValidFrom(s, ms, p) && |reps| == |ms|
    ensures ValidFrom(t + s, ShiftMatches(ms, |t|), |t| + p)
    ensures SpliceFrom(t + s, ShiftMatches(ms, |t|), reps, |t| + p) == SpliceFrom(s, ms, reps, p)
    decreases |ms|
  {
    if ms == [] {
      assert (t + s)[|t| + p..] == s[p..];
    } else {
      SpliceFromCons(s, ms, reps, p);
      SpliceShifts(t, s, ms[1..], reps[1..], ms[0].end);
      SpliceShiftsStep(t, s, ms, reps, p);
    }
  }

  /** Shifted matches are still matches of `t + s`. */
  lemma ShiftedValidFrom(t: string, s: string, ms: seq<Match>, p: nat)
    requires ValidFrom(s, ms, p) && |ms| > 0
    ensures ValidFrom(t + s, ShiftMatches(ms, |t|), |t| + p)
    ensures ShiftMatches(ms, |t|)[0].offset == |t| + ms[0].offset
    ensures ShiftMatches(ms, |t|)[0].end == |t| + ms[0].end
  {
    ShiftedValid(t, s, ms);
  }

  lemma ShiftedValid(t: string, s: string, ms: seq<Match>)
    requires ValidMatches(s, ms)
    ensures ValidMatches(t + s, ShiftMatches(ms, |t|))
  {
  }

  /** No match starts inside a piece free of `c`. */
  lemma ScanSkipsFreeText(matchAt: Matcher, c: char, g: string, rest: string)
    requires WellBehaved(matchAt) && StartsWithChar(matchAt, c)
    requires Avoids(g, c)
    ensures ScanFrom(matchAt, g + rest, 0) == ScanFrom(matchAt, g + rest, |g|)
  {
    forall x | 0 <= x < |g| ensures matchAt(g + rest, x).None? {
      assert (g + rest)[x] == g[x];
    }
    ScanSkips(matchAt, g + rest, 0, |g|);
  }

  /** A whole match at the front, then the matches of the rest. */
  lemma ScanWordThenRest(matchAt: Matcher, w: string, rest: string, m: Match)
    requires WellBehaved(matchAt) && PrependInvariant(matchAt) && AppendInvariant(matchAt)
    requires matchAt(w, 0) == Some(m) && m.end == |w| > 0
    ensures ScanFrom(matchAt, w + rest, 0) == [m] + ShiftMatches(Scan(matchAt, rest), |w|)
  {
    assert matchAt(w + rest, 0) == matchAt(w, 0);
    ScanFromMatch(matchAt, w + rest, 0, m);
    ScanShifts(matchAt, w, rest, 0);
  }

  lemma SliceSplit(s: string, p: nat, q: nat, o: nat)
    requires p <= q <= o <= |s|
    ensures s[p..o] == s[p..q] + s[q..o]
  {
  }

  lemma ConcatAssoc(a: string, b: string, c: string)
    ensures (a + b) + c == a + (b + c)
  {
  }

  /** Starting a splice earlier adds the text in between, unchanged. */
  lemma SpliceFromEarlier(s: string, ms: seq<Match>, reps: seq<string>, p: nat, q: nat)
    requires ValidFrom(s, ms, q) && |reps| == |ms| && p <= q
    ensures ValidFrom(s, ms, p)
    ensures SpliceFrom(s, ms, reps, p) == s[p..q] + SpliceFrom(s, ms, reps, q)
  {
    if ms == [] {
      SliceSplit(s, p, q, |s|);
      assert s[p..] == s[p..|s|] && s[q..] == s[q..|s|];
    } else {
      SpliceFromCons(s, ms, reps, p);
      SpliceFromCons(s, ms, reps, q);
      var o := ms[0].offset;
      var r := reps[0];
      var x := SpliceFrom(s, ms[1..], reps[1..], ms[0].end);
      SliceSplit(s, p, q, o);
      ConcatAssoc(s[p..q], s[q..o], r);
      ConcatAssoc(s[p..q], s[q..o] + r, x);
    }
  }

  /** Text put in front passes through a splice unchanged. */
  lemma SplicePrefix(g: string, s: string, ms: seq<Match>, reps: seq<string>)
    requires ValidMatches(s, ms) && |reps| == |ms|
    ensures ValidMatches(g + s, ShiftMatches(ms, |g|))
    ensures Splice(g + s, ShiftMatches(ms, |g|), reps) == g + Splice(s, ms, reps)
  {
    SpliceShifts(g, s, ms, reps, 0);
    SpliceFromEarlier(g + s, ShiftMatches(ms, |g|), reps, 0, |g|);
    assert (g + s)[0..|g|] == g;
  }

  /** A match followed by matches that start at or after its end. */
  lemma ConsValid(s: string, m: Match, ms: seq<Match>, from: nat)
    requires from <= m.offset <= m.end && ValidFrom(s, ms, m.end)
    ensures ValidFrom(s, [m] + ms, from) && ([m] + ms)[1..] == ms
  {
  }

  /** Splicing into `w + rest` when the first match covers exactly `w`. */
  lemma SpliceWordThenRest(w: string, rest: string, m: Match, restMs: seq<Match>, reps: seq<string>)
    requires ValidMatches(rest, restMs) && m.offset == 0 && m.end == |w|
    requires |reps| == |restMs| + 1
    ensures ValidMatches(w + rest, [m] + ShiftMatches(restMs, |w|))
    ensures Splice(w + rest, [m] + ShiftMatches(restMs, |w|), reps) == reps[0] + Splice(rest, restMs, reps[1..])
  {
    var wr := w + rest;
    var wrMs := [m] + ShiftMatches(restMs, |w|);
    SpliceShifts(w, rest, restMs, reps[1..], 0);
    ConsValid(wr, m, ShiftMatches(restMs, |w|), 0);
    SpliceFromCons(wr, wrMs, reps, 0);
    assert wr[0..0] == "";
  }

  /** The scan of a free piece, a whole match and the rest. */
  lemma ScanPieceWordRest(matchAt: Matcher, c: char, g: string, w: string, rest: string, m: Match)
    requires WellBehaved(matchAt) && PrependInvariant(matchAt) && AppendInvariant(matchAt)
    requires StartsWithChar(matchAt, c)
    requires Avoids(g, c)
    requires matchAt(w, 0) == Some(m) && m.end == |w| > 0
    ensures Scan(matchAt, g + (w + rest)) == ShiftMatches([m] + ShiftMatches(Scan(matchAt, rest), |w|), |g|)
  {
    ScanSkipsFreeText(matchAt, c, g, w + rest);
    ScanWordThenRest(matchAt, w, rest, m);
    ScanShifts(matchAt, g, w + rest, 0);
  }

  /** Splicing into a piece, a whole match and the rest. */
  lemma SplicePieceWordRest(g: string, w: string, rest: string, m: Match, restMs: seq<Match>, reps: seq<string>)
    requires ValidMatches(rest, restMs) && m.offset == 0 && m.end == |w|
    requires |reps| == |restMs| + 1
    ensures ValidMatches(g + (w + rest), ShiftMatches([m] + ShiftMatches(restMs, |w|), |g|))
    ensures Splice(g + (w + rest), ShiftMatches([m] + ShiftMatches(restMs, |w|), |g|), reps)
            == g + reps[0] + Splice(rest, restMs, reps[1..])
  {
    SpliceWordThenRest(w, rest, m, restMs, reps);
    SplicePrefix(g, w + rest, [m] + ShiftMatches(restMs, |w|), reps);
    ConcatAssoc(g, reps[0], Splice(rest, restMs, reps[1..]));
  }

  /** A piece free of `c` alone has no match, and splicing leaves it. */
  lemma ScanOfFreeText(matchAt: Matcher, c: char, g: string)
    requires WellBehaved(matchAt) && StartsWithChar(matchAt, c) && Avoids(g, c)
    ensures Scan(matchAt, g) == []
  {
    ScanSkipsFreeText(matchAt, c, g, "");
    assert g + "" == g;
    ScanFromNoMatch(matchAt, g, |g|);
    assert ScanFrom(matchAt, g, |g| + 1) == [];
  }

  /** What `ScanOfInterleave` states, for one list of pieces and words. */
  ghost predicate ScansAsInterleaved(matchAt: Matcher, gaps: seq<string>, words: seq<string>, wordMatches: seq<Match>)
    requires WellBehaved(matchAt)
    requires |gaps| == |words| + 1 && |wordMatches| == |words|
  {
    && |Scan(matchAt, Interleave(gaps, words))| == |words|
    && (forall k :: 0 <= k < |words| ==> Scan(matchAt, Interleave(gaps, words))[k].groups == wordMatches[k].groups)
    && (forall reps :: |reps| == |words| ==>
         Splice(Interleave(gaps, words), Scan(matchAt, Interleave(gaps, words)), reps) == Interleave(gaps, reps))
  }

  /** The step of `ScanOfInterleave`: from the tail's scan to the whole,
      given that the whole scan is the first word's match followed by the
      tail's matches, shifted. */
  lemma ScanOfInterleaveStep(matchAt: Matcher, gaps: seq<string>, words: seq<string>, wordMatches: seq<Match>)
    requires WellBehaved(matchAt)
    requires |gaps| == |words| + 1 && |wordMatches| == |words| && |words| > 0
    requires wordMatches[0].offset == 0 && wordMatches[0].end == |words[0]|
    requires Scan(matchAt, gaps[0] + (words[0] + Interleave(gaps[1..], words[1..])))
          == ShiftMatches([wordMatches[0]] + ShiftMatches(Scan(matchAt, Interleave(gaps[1..], words[1..])), |words[0]|), |gaps[0]|)
    requires ScansAsInterleaved(matchAt, gaps[1..], words[1..], wordMatches[1..])
    ensures ScansAsInterleaved(matchAt, gaps, words, wordMatches)
  {
    var t := Interleave(gaps, words);
    var rest := Interleave(gaps[1..], words[1..]);
    ConcatAssoc(gaps[0], words[0], rest);
    var restMs := Scan(matchAt, rest);
    var ms := ShiftMatches([wordMatches[0]] + ShiftMatches(restMs, |words[0]|), |gaps[0]|);
    assert Scan(matchAt, t) == ms;
    forall k | 0 < k < |words| ensures ms[k].groups == wordMatches[k].groups {
      assert ms[k].groups == restMs[k - 1].groups;
      assert wordMatches[1..][k - 1] == wordMatches[k];
    }
    forall reps | |reps| == |words| ensures Splice(t, ms, reps) == Interleave(gaps, reps) {
      assert Splice(rest, restMs, reps[1..]) == Interleave(gaps[1..], reps[1..]);
      SpliceInterleaveStep(gaps, words, wordMatches[0], restMs, reps);
    }
  }

  /** Splicing into an interleaving whose first word is one whole match,
      given the splice into the rest. */
  lemma SpliceInterleaveStep(gaps: seq<string>, words: seq<string>, m: Match, restMs: seq<Match>, reps: seq<string>)
    requires |gaps| == |words| + 1 && |words| > 0 && |reps| == |words| && |restMs| + 1 == |words|
    requires m.offset == 0 && m.end == |words[0]|
    requires ValidMatches(Interleave(gaps[1..], words[1..]), restMs)
    requires Splice(Interleave(gaps[1..], words[1..]), restMs, reps[1..]) == Interleave(gaps[1..], reps[1..])
    ensures ValidMatches(Interleave(gaps, words), ShiftMatches([m] + ShiftMatches(restMs, |words[0]|), |gaps[0]|))
    ensures Splice(Interleave(gaps, words), ShiftMatches([m] + ShiftMatches(restMs, |words[0]|), |gaps[0]|), reps)
         == Interleave(gaps, reps)
  {
    var rest := Interleave(gaps[1..], words[1..]);
    ConcatAssoc(gaps[0], words[0], rest);
    SplicePieceWordRest(gaps[0], words[0], rest, m, restMs, reps);
  }

  /** Text made of pieces free of `c` with whole matches between them: the
      scan finds exactly the pieces' matches, so a replace with `reps` keeps
      the pieces and puts `reps[k]` where the k-th word was. */
  lemma {:induction false} ScanOfInterleave(matchAt: Matcher, c: char, gaps: seq<string>,
                                            words: seq<string>, wordMatches: seq<Match>)
    requires WellBehaved(matchAt) && PrependInvariant(matchAt) && AppendInvariant(matchAt)
    requires StartsWithChar(matchAt, c)
    requires |gaps| == |words| + 1 && |wordMatches| == |words|
    requires forall k :: 0 <= k < |gaps| ==> Avoids(gaps[k], c)
    requires forall k :: 0 <= k < |words| ==>
      matchAt(words[k], 0) == Some(wordMatches[k]) && wordMatches[k].end == |words[k]| > 0
    ensures |Scan(matchAt, Interleave(gaps, words))| == |words|
    ensures forall k :: 0 <= k < |words| ==> Scan(matchAt, Interleave(gaps, words))[k].groups == wordMatches[k].groups
    ensures forall reps :: |reps| == |words| ==>
      Splice(Interleave(gaps, words), Scan(matchAt, Interleave(gaps, words)), reps) == Interleave(gaps, reps)
    decreases |words|
  {
    if words == [] {
      ScanOfFreeText(matchAt, c, gaps[0]);
      forall reps | |reps| == 0 ensures Splice(gaps[0], [], reps) == Interleave(gaps, reps) {
        assert gaps[0][0..] == gaps[0];
      }
    } else {
      ScanOfInterleave(matchAt, c, gaps[1..], words[1..], wordMatches[1..]);
      ScanPieceWordRest(matchAt, c, gaps[0], words[0], Interleave(gaps[1..], words[1..]), wordMatches[0]);
      ScanOfInterleaveStep(matchAt, gaps, words, wordMatches);
    }
  }
}
