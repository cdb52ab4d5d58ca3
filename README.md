# promised-handlebars: the marker protocol, in Dafny

promised-handlebars lets Handlebars helpers return promises, although the
template engine renders synchronously and only handles strings. A helper's
promise is kept in a store. The engine gets a short *marker* (placeholder)
string instead. When rendering is done and the promises have settled, the
markers in the output are replaced by the settled values.

This project models that protocol and proves what it promises:

- `lib/markers.js` is the class `Markers.Markers`.
  - Its constructor quotes the prefix and builds the token pattern.
  - `AsMarker` appends to `promiseStore` and returns the token for the new index.
  - `Resolve` is a function over the settled store. It uses
    `ReplaceRecursively`/`SubstText`/`SubstAll`/`SubstMatch`, which are
    `replacePlaceholdersRecursivelyIn` and its replacer.
- `lib/replaceP.js` is `ReplaceP.ReplaceP`.
  - The match loop that builds the `parts` list is the method `CollectParts`.
  - The final join is `Join`.
- `lib/utils.js` is module `Utils`. It holds the search loop `AnyApplies`,
  the accumulating loop `MapValues`, and `Values`, `ToArray`, `Wrap` and
  `IsPromiseAlike`.
- `index.js`, the older single-file form of the protocol, is module
  `EarlyEngine`.
  - The class `PromisedEngine` holds the per-render `promises` list and the
    wrapped helpers.
  - `Render` is the wrapped compiled template. It replaces the k-th
    placeholder by the k-th result.

Supporting modules:

- `Decimal`: decimal index texts, which are JavaScript's array-index keys.
- `JsValues`: the JavaScript values involved, `typeof`, truthiness,
  property reads, `String(...)`, and awaiting a settled promise.
- `GlobalRegex`: what `String.prototype.replace` does with a global regular
  expression. It covers the left-to-right scan, splicing, and `$`
  replacement patterns, for any pattern given as a matcher function.
- `TokenPattern`: the quoting of the prefix (`/(\W)/g` replaced by `'\\$1'`)
  and the token pattern `prefix (\d+)(>|&gt;)`.

Modelling choices:

- Promises are values that have already settled: `Value.Promise(result)`.
- `escapeExpression` is an arbitrary function `Value -> string`, fixed per store.
- Recursive substitution takes a `fuel` argument. Running out of fuel gives
  `Err(RecursionLimit)`, where JavaScript would overflow its stack.
  - `SelfReferenceNeverEnds` shows that a value holding its own token runs
    out of every amount of fuel.
  - `ResolveTerminates` shows that a store without cycles of tokens always
    finishes. Such a store has a rank for each entry, and the text of an
    entry holds only tokens of lower rank. It finishes with fuel one more
    than the rank bound, whichever order nested values were stored in.
  - `SubstTextStable` and `ResolveStable` show that more fuel changes no
    outcome other than running out. A success is the text the unbounded
    recursion returns.

## Model

| member | source | states |
|---|---|---|
| Decimal.NatToString | lib/markers.js:54 | the index written into a token is a non-empty digit string without a leading zero; it is one digit exactly when the index is below 10 |
| Decimal.DigitsValueOfNatToString | lib/markers.js:54 | reading the written index back as a number gives the index |
| Decimal.NatToStringOfDigitsValue | lib/markers.js:104 | a canonical digit key is the written form of the number it denotes, so canonical keys and indices correspond one to one |
| Decimal.NatToStringInjective | lib/markers.js:54 | different indices are written differently |
| JsValues.Get | lib/markers.js:96 | a property read fails exactly on `undefined` and `null` |
| JsValues.Await | lib/markers.js:77 | an awaited value is never a thenable; a non-thenable awaits to itself; only a foreign thenable fails |
| JsValues.AwaitAll | lib/markers.js:82 | `Promise.all` succeeds exactly when every element can be awaited, and then gives the awaited values in order |
| Utils.PromiseAlikeExactly | lib/utils.js:86-91 | promise-like exactly for promises and objects whose `then` is a function; never for functions, `undefined` or `null` |
| Utils.PromiseAlikeIsObjectThenable | lib/utils.js:86-91 | promise-like exactly when object-typed with a callable `then` |
| Utils.AnyApplies | lib/utils.js:63-70 | true exactly when some element satisfies the test; it stops at the first one, and no earlier element satisfies it; false after testing every element, including on an empty array |
| Utils.MapValues | lib/utils.js:39-44 | the result has exactly the input's keys, in the same order, each mapped to `mapFn(obj[key], key, obj)` |
| Utils.Values | lib/utils.js:51-55 | one value per key, in key order |
| Utils.ValuesCoverEntries | lib/utils.js:51-55 | the values listed are exactly the values stored |
| Utils.ToArray | lib/utils.js:77-79 | a fresh array with the same elements in the same order |
| Utils.Wrap | lib/utils.js:27-31 | the wrapped function, given an argument list, returns the wrapper applied to the original function and that list |
| GlobalRegex.ScanFrom | lib/replaceP.js:37-54 | the matches come in order, do not overlap, lie inside the text, and each is what the pattern matches at its own offset |
| GlobalRegex.ScanMissesNothing | lib/replaceP.js:37-54 | no position that the found matches leave uncovered holds a match |
| GlobalRegex.GapsAndMatchesPartition | lib/replaceP.js:39-53 | the gaps interleaved with the matched texts give back the original string |
| GlobalRegex.SpliceIsInterleave | lib/replaceP.js:42-57 | the replaced text is the unmatched gaps, verbatim and in order, with the k-th replacement between gap k and gap k+1 |
| GlobalRegex.SpliceUnchanged | lib/replaceP.js:57 | with no match the input comes back; replacing each match by its own text also gives back the input |
| GlobalRegex.ExpandLiteral | lib/replaceP.js:30 | a replacement string without `$` is inserted unchanged |
| GlobalRegex.SpliceAvoids | lib/markers.js:102 | gaps and replacements free of a character give a result free of it |
| GlobalRegex.ScanShifts | lib/markers.js:102 | for a pattern that does not look behind, text in front shifts the matches found after it and changes nothing else |
| GlobalRegex.ScanOfInterleave | lib/markers.js:102 | in text made of pieces free of a character c, with whole matches starting with c between them, the scan finds exactly those matches, and replacing keeps the pieces and puts the k-th replacement where the k-th match was |
| ReplaceP.Substr | lib/replaceP.js:42 | `substr(start, length)` within bounds is the slice; a non-positive length gives the empty string |
| ReplaceP.SubstrToEnd | lib/replaceP.js:57 | `substr(start)` within bounds is the tail from `start` |
| ReplaceP.CollectParts | lib/replaceP.js:33-57 | the parts list has 2·matches+1 entries: gap k at position 2k and the replacer's value for match k at position 2k+1, all fixed before any value is awaited |
| ReplaceP.JoinGapAndValue | lib/replaceP.js:59-61 | joining a gap and a value in front of more parts gives the gap, then the value's string, then the rest, or the first failure |
| ReplaceP.JoinInterleaved | lib/replaceP.js:44-61 | joining alternating gaps and values awaits every value, stringifies it, and interleaves the strings with the gaps; it fails exactly when some value cannot be awaited |
| ReplaceP.ReplaceP | lib/replaceP.js:28-63 | a string replacer gives `String.prototype.replace` with that string; a function replacer gives the gaps with the stringified awaited replacer values between them; any other replacer gives no result |
| ReplaceP.StringReplacerAsFunction | lib/replaceP.js:29-31 | the string-replacer branch agrees with the function branch applied to the replacer that expands the string |
| ReplaceP.StringResultsArePlainReplace | lib/replaceP.js:32-62 | a replacer returning strings, or promises of strings, gives what ordinary `replace` gives with those strings |
| ReplaceP.BdDotScan | test/replaceP-spec.js:24 | the global scan of `/([bd])./g` over `'abcde'` finds `bc` and `de`, with `b` and `d` captured |
| ReplaceP.ExampleReplacementString | test/replaceP-spec.js:24 | `'abcde'` with `/([bd])./g` and `'$1x'` becomes `'abxdx'` |
| TokenPattern.NonWordAt | lib/markers.js:38 | the pattern `(\W)` matches at most one character, at the position tried |
| TokenPattern.QuoteMetaIsGlobalReplace | lib/markers.js:38 | the global replace of `/(\W)/g` by `'\\$1'` is the quoting that puts a backslash before every non-word character |
| TokenPattern.QuotedPrefixIsLiteral | lib/markers.js:38-39 | the quoted prefix, read as a regular expression, matches the prefix literally, whatever characters it holds |
| TokenPattern.DigitRunEnd | lib/markers.js:39 | `\d+` takes the longest run of digits: all digits up to the end, and no digit after it |
| TokenPattern.TokenAt | lib/markers.js:39 | a token match starts where tried, begins with the prefix, and carries the index digits and the terminator `>` or `&gt;` as its groups |
| TokenPattern.TokenMatcherLocal | lib/markers.js:39 | the token pattern does not depend on text in front or behind a match, and every match starts with the prefix's first character |
| TokenPattern.Tokens | lib/markers.js:102 | the tokens found in a text are valid, non-empty, in order, and each is the token pattern's match at its offset |
| TokenPattern.TokenAtStart | lib/markers.js:54 | the pattern matches a handed-out token over its whole length, with its index and terminator as groups |
| TokenPattern.TokenIsFound | lib/markers.js:54 | a token on its own is found as exactly one match |
| TokenPattern.TokensDistinct | lib/markers.js:54 | tokens for different indices, or with different terminators, are different strings |
| TokenPattern.TokenStartsWithPrefixChar | lib/markers.js:39 | a token starts with the prefix's first character |
| TokenPattern.NoPrefixCharNoToken | lib/markers.js:102 | text without the prefix's first character holds no token |
| TokenPattern.TokenGapsAvoidPrefix | lib/markers.js:102 | when that character occurs only where tokens start, the text between found tokens does not contain it |
| Markers.Markers.constructor | lib/markers.js:29-40 | an empty store, the given prefix and escape function, and a regular expression that is the quoted prefix followed by `(\d+)(>|&gt;)`, whose literal part matches exactly the prefix |
| Markers.Markers.AsMarker | lib/markers.js:52-62 | exactly one entry, the promise, is appended and earlier entries are unchanged; the token returned is the prefix, the old store length and `>` |
| Markers.LookupToken | lib/markers.js:104 | a token's index names the store entry at that position, and reads `undefined` past the end |
| Markers.LookupLeadingZero | lib/markers.js:104 | a key with a leading zero such as `"01"` reads `undefined` |
| Markers.TextOfValues | lib/markers.js:90-101 | a string stands for itself and a SafeString for its string; `undefined` and `null` throw; a promise stands for what it settles to |
| Markers.SafeStringLikeUnwrapped | lib/markers.js:96-99 | a value with a `toHTML` function and a truthy `.string` is replaced by its `.string` before substitution |
| Markers.PlainTextPreserved | lib/markers.js:102 | a text without tokens comes back unchanged |
| Markers.PrefixFreeTextPreserved | lib/markers.js:102 | a text without the prefix's first character comes back unchanged |
| Markers.SubstAllOk | lib/markers.js:102-107 | when every token's substitution succeeds, the replacements are those results in match order |
| Markers.TokenSubstituted | lib/markers.js:102-107 | a token on its own is replaced by its replacer's result |
| Markers.RawTokenSubstituted | lib/markers.js:104-106 | a `>` token is replaced by the raw stored value, itself searched for tokens again |
| Markers.EscapedTokenSubstituted | lib/markers.js:105-106 | a `&gt;` token is replaced by `escapeExpression` of the stored value, itself searched for tokens again |
| Markers.RawTokenOutOfRangeThrows | lib/markers.js:96-105 | a raw token past the end of the store reads `toHTML` of `undefined` and fails with a TypeError |
| Markers.SelfReferenceNeverEnds | lib/markers.js:90-107 | a value holding its own token makes substitution run out of every amount of fuel |
| Markers.TemplateTokens | lib/markers.js:39 | in text of token-free pieces and tokens, the scan finds exactly those tokens in order, and replacing them keeps the pieces verbatim |
| Markers.SubstTemplate | lib/markers.js:102-107 | in such text each token is replaced by its own substitution and the text outside tokens is preserved |
| Markers.SubstTextSucceeds | lib/markers.js:90-107 | with a store without cycles (each entry, raw or escaped, holds only tokens of entries of lower rank), substitution of a text whose tokens rank below a bound succeeds with fuel above that bound |
| Markers.NestsEarlierRanked | lib/markers.js:90-107 | a store whose entries hold only tokens of earlier entries, as a helper rendering a block synchronously produces, is ranked by the index |
| Markers.NestsLaterRanked | lib/markers.js:90-107 | a store whose entries hold only tokens of later entries is ranked by the distance to the end |
| Markers.SubstTextStable | lib/markers.js:90-107 | any substitution outcome other than running out of fuel is the same with more fuel |
| Markers.SubstAllPointwise | lib/markers.js:102-107 | a successful substitution of all matches gives each match its own substitution, in order |
| Markers.SubstTextIsReplaceP | lib/markers.js:102-107 | a successful substitution is `replaceP` of the text with the token pattern and a replacer returning a promise of each token's substitution |
| Markers.SubstTextClean | lib/markers.js:90-107 | when the prefix's first character occurs only where tokens start, a successful substitution leaves no such character |
| Markers.SettledBatch | lib/markers.js:82-83 | the results substituted with are the awaited store entries, in order, with the store's prefix and escape |
| Markers.ResolvePassesNonStrings | lib/markers.js:77-81 | a non-string output comes back unchanged, whatever the store holds |
| Markers.ResolveOfString | lib/markers.js:82-111 | a string output is searched for tokens against the settled store |
| Markers.ResolveSubstituted | lib/markers.js:82-111 | a string whose substitution succeeds resolves to the substituted string |
| Markers.ResolveStable | lib/markers.js:75-114 | any outcome of `resolve` other than running out of fuel is the same with more fuel |
| Markers.ResolveTerminates | lib/markers.js:75-114 | with a store without cycles, `resolve` of a string whose tokens rank below a bound succeeds with fuel above the bound |
| Markers.ResolveTerminatesNested | lib/markers.js:75-114 | when every entry holds only tokens of earlier entries, or only of later ones, `resolve` of a string whose tokens name store entries succeeds with fuel one more than the store size |
| Markers.ResolveLeavesNoToken | lib/markers.js:75-114 | a successful `resolve` of such text returns a string with no token left in it |
| Markers.PlainEntrySubstituted | lib/markers.js:104-106 | a token for an entry with plain text becomes that text, raw or escaped as its terminator says |
| Markers.PlainTemplateSubstituted | lib/markers.js:102-107 | text of plain pieces and tokens of plain entries becomes the pieces with each entry's text where its token stood |
| Markers.ResolveTemplate | lib/markers.js:75-114 | `resolve` of a rendered template puts each stored value's text, raw or escaped, where its token stood, and keeps the template text |
| EarlyEngine.PlaceholderOption | index.js:27-28 | a configured truthy placeholder is kept; otherwise it is `'\u0001'`; either way it is truthy |
| EarlyEngine.DefaultPlaceholder | index.js:28 | with no placeholder, `null` or `""`, the placeholder is `'\u0001'` |
| EarlyEngine.LiteralAt | index.js:31 | the quoted placeholder pattern matches exactly where the placeholder occurs, over its length, capturing nothing |
| EarlyEngine.LiteralMatcherLocal | index.js:31 | that pattern does not depend on surrounding text, and every match starts with the placeholder's first character |
| EarlyEngine.DoubledPlaceholderScan | index.js:31 | the global pattern finds both occurrences of a doubled placeholder |
| EarlyEngine.ShiftedTexts | index.js:61-63 | the k-th match gets the k-th result as a string, and `"undefined"` once the queue is empty |
| EarlyEngine.ReplaceInOrder | index.js:61-63 | the shift loop gives the text with the k-th match replaced by the k-th queue entry; the gaps are kept and nothing is rescanned |
| EarlyEngine.PlaceholderScan | index.js:61-63 | in rendered output whose template text avoids the placeholder, the placeholders found are exactly the helper calls', and replacing them keeps the template text |
| EarlyEngine.PlaceholdersReplacedInOrder | index.js:60-63 | the k-th placeholder, left to right, is replaced by the k-th helper result, and the template text is kept |
| EarlyEngine.StrayPlaceholderShiftsResults | index.js:61-63 | a placeholder already in the template text takes the first result, and the helper's own placeholder gets `"undefined"` |
| EarlyEngine.PromisedEngine.constructor | index.js:27-34 | the placeholder option, its quoted pattern that matches the placeholder literally, no list yet, no wrapped helper |
| EarlyEngine.PromisedEngine.RegisterHelper | index.js:37-42 | the wrapped helper is stored under its name and nothing else changes |
| EarlyEngine.PromisedEngine.RegisterHelpers | index.js:43-48 | every key of the object is registered with its own function |
| EarlyEngine.PromisedEngine.CallHelper | index.js:38-42 | a wrapped call appends exactly the helper's result to the list and returns the placeholder; before any render the list is `null` and the push throws |
| EarlyEngine.PromisedEngine.Render | index.js:55-64 | the list starts empty, holds the call results in call order after the render, and the result is the captured list's settled values substituted in order |
| EarlyEngine.RenderPlainTemplate | index.js:52-66 | a render of a template whose text avoids the placeholder gives the text with each helper's settled result where it was called |

## Left out

- Promise mechanics are not modelled: `then` chaining, rejection, timing,
  the Q library, `deep-aplus`. A promise is a value that has already
  settled. A foreign thenable is not run; awaiting it gives
  `Err(ForeignThenable)`.
- Asynchronous interleaving of renders is not modelled. It covers the
  module-level `promises` of index.js being reset by another render before
  the first one captured it. The model captures the list at the end of
  each render (index.js:59), in sequence.
- The Handlebars engine itself is not part of this model: `create`,
  `compile`, the original `registerHelper`, rendering and escaping. A render
  is its template text pieces and its helper calls in order.
  `escapeExpression` is an arbitrary function.
- The `toString` override on the promise `asMarker` returns
  (lib/markers.js:56-59) is left out. `AsMarker` returns the token string
  itself, which is what that `toString` yields.
- Markers.SubstText: nesting depth is bounded by a `fuel` argument. A
  substitution that JavaScript would run until the stack overflows ends in
  `Err(RecursionLimit)`. `SubstTextStable` and `ResolveStable` show that
  every other outcome does not depend on the fuel.
- JsValues.Value has no arrays, no non-integer numbers and no user
  `toString` methods. `String(obj)` is `"[object Object]"` and `String(fn)`
  is the function's source text.
- GlobalRegex.Expand: named groups (`$<name>`) in replacement strings are not
  modelled, since the patterns here have none.
- ReplaceP.ReplaceP takes the list of matches of the regular expression as
  an argument, not the regular expression. Its replacer function receives
  the match and the whole text, which carry everything the JavaScript
  arguments carry.
- Utils.Wrap: `this` is not passed through, because the model has no
  receiver objects.
- The mutation of the caller's `options` object (index.js:28) is not
  modelled; only the resulting placeholder is.
- EarlyEngine.PromisedEngine.CallHelper requires the helper name to be
  registered. The engine only calls registered helpers; an unregistered
  name is Handlebars' own missing-helper error.
- EarlyEngine.PlaceholdersReplacedInOrder and
  EarlyEngine.RenderPlainTemplate require the template text to avoid the
  placeholder's first character. `StrayPlaceholderShiftsResults` shows what
  happens otherwise.
- Markers.ResolveTemplate requires entries whose text avoids the prefix's
  first character. Nested tokens are covered by `SubstTextSucceeds`,
  `ResolveTerminates` and `SubstTextClean` instead.
- EarlyEngine.Rendered and EarlyEngine.RenderPlainTemplate assume that the
  placeholder a helper returns reaches the rendered text unescaped.
  Handlebars escapes the value of a `{{helper}}` call. A configured
  placeholder holding `&`, `<`, `>`, `"`, `'`, `=` or a backtick would be
  written escaped.
  The pattern of index.js:31 would then not find it, and the results would
  not be substituted. The default placeholder U+0001 is not affected.
- Strings are sequences of Unicode characters. JavaScript's `\W`, match
  offsets and `substr` work on UTF-16 code units. For a character outside
  the Basic Multilingual Plane, `QuoteMeta` writes one backslash where the
  program writes two, one per surrogate. Either way the quoted prefix
  matches the prefix literally.
