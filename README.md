# is-extglob in Dafny

A model of `isExtglob(str)` from the `is-extglob` package. This predicate
decides whether a glob pattern contains an extended-glob group: one of
`@(`, `?(`, `!(`, `+(`, `*(`, with some `)` later in the string.
The model covers the whole of `index.js`:

- the fast-reject pre-check, which looks for any of the five prefix characters;
- the main scan, whose cursor moves by two over a backslash and the character
  it escapes, and by one otherwise;
- the inner search for a closing parenthesis;
- the module-level result cache, capped at 100 entries.

The model has three modules:

- `ExtglobSpec` (`ExtglobSpec.dfy`) gives the meaning without loops.
  `Reachable(s, p)` says that the scan visits position `p`.
  `Triggers(s, p)` says that `p` holds a prefix character, then `(`, then
  some `)` at or after `p + 2`. `ContainsExtglob(s)` says that some visited
  position triggers. Its lemmas give a second description of the visited
  positions: they are exactly those preceded by an even run of backslashes.
  They also prove the escaping law, and that the pre-check and the main scan
  agree.
- `IsExtglob` (`IsExtglob.dfy`) holds the loops of `index.js` as methods,
  each proved against the spec. The module-level `cache` object and
  `cacheSize` counter become the fields of a `Detector` object. Its
  `IsExtglob` method is the exported function.
- `ExtglobExamples` (`Examples.dfy`) derives from the spec the answers
  for the benchmark's sample strings.

The JavaScript module state is one shared object per loaded module. Here it
is a `Detector` instance, built by its constructor with an empty cache.

The definitions every contract rests on, and the source they come from:

- `IsExtglob.MaxCacheSize`, the constant 100: index.js:20.
- `ExtglobSpec.IsPrefixChar`, the five prefix characters: index.js:10-14, 41-42 and 65-66.
- `ExtglobSpec.Reachable`, the cursor's start at 0 and its steps of 2 and 1: index.js:52-61 and 82.
- `ExtglobSpec.HasCloseAfter`, the search for `)`: index.js:69-75.
- `ExtglobSpec.Triggers`, the condition at index.js:65-67 together with that search.
- `ExtglobSpec.ContainsExtglob`, the answer, true iff some visited position triggers: index.js:76-78.

## Model

| member | source | states |
|---|---|---|
| `ExtglobSpec.EscapedNotReached` | index.js:57-61 | the scan never visits the character right after a backslash it visits, so an escaped character is never a trigger |
| `ExtglobSpec.ReachedOrEscaped` | index.js:53-82 | every position up to the end is visited or is escaped by a visited backslash just before it (the cursor skips nothing else) |
| `ExtglobSpec.ReachableWithoutEscapes` | index.js:53-82 | in a string without backslashes, every position is visited |
| `ExtglobSpec.ReachableIffEvenRun` | index.js:56-61 | a position is visited iff an even number of backslashes stand immediately before it |
| `ExtglobSpec.ContainsExtglobByParity` | index.js:53-83 | the answer is true iff some prefix character preceded by an even backslash run is followed by `(` and a later `)` |
| `ExtglobSpec.EscapedPrefixShiftsScan` | index.js:57-61 | behind a leading backslash and its escaped character, the scan visits the rest exactly as it would on its own |
| `ExtglobSpec.EscapedPrefixIgnored` | index.js:57-61 | escaping law: a leading backslash plus any character contributes nothing, so the answer equals that for the rest |
| `ExtglobSpec.NoPrefixCharNoExtglob` | index.js:38-49 | with none of `@ ? ! + *` in the string, the answer is false (the pre-check's rejection is sound) |
| `ExtglobSpec.NoParensNoExtglob` | index.js:65-79 | with no `(` or with no `)` in the string, the answer is false |
| `IsExtglob.HasPotentialExtglob` | index.js:38-46 | the pre-check loop returns true iff some prefix character occurs |
| `IsExtglob.FindClosingParen` | index.js:69-75 | the inner loop returns true iff a `)` occurs at or after the start index |
| `IsExtglob.MainScan` | index.js:52-83 | the main scan alone returns exactly `ContainsExtglob(s)` on every input; its cursor rises by 1 or 2 toward the length, so it terminates |
| `IsExtglob.Detector.constructor` | index.js:18-19 | the cache starts empty with a count of zero, and the cache invariant holds |
| `IsExtglob.Detector.IsExtglob` | index.js:22-93 | returns `ContainsExtglob(str)` on every path: empty string, cache hit and fresh scan. It keeps the invariant: the count equals the number of keys and is at most 100, the empty string is never stored, and every stored value equals a fresh answer. It stores the new answer only on a miss with room left; existing entries are never overwritten or evicted |
| `IsExtglob.RepeatedCallsAgree` | index.js:28-31 | two calls with the same string give the same answer, which is the fresh answer; the cache afterwards is exactly what one call leaves (the string added once, on a miss with room), and with room left the string ends up cached |
| `ExtglobExamples.PrefixGroupExamples` | benchmark.js:14-18 | each prefix character followed by `(abc)` is an extglob |
| `ExtglobExamples.PathExamples` | benchmark.js:19-20 | an extglob group inside a path is found |
| `ExtglobExamples.NestedExample` | index.js:68-79 | balance is not checked: the nested `@(a` then `?(b))` string and the unbalanced `@(a(b)` are both extglobs |
| `ExtglobExamples.PlainExamples` | benchmark.js:23-33 | the empty string, a single letter and plain paths are not extglobs |
| `ExtglobExamples.WildcardExamples` | benchmark.js:24-25 | `*.js`, `**/*.js` and an unclosed `?(abc` are not extglobs |
| `ExtglobExamples.EscapedExample` | benchmark.js:34 | the escaped `\?(abc)` is not an extglob |

## Left out

- The `typeof str !== 'string'` test (index.js:24): the input is a Dafny `string`, so only the empty-string case remains.
- Character codes: JavaScript compares UTF-16 code units, and the model compares Dafny characters. Every character the detector compares is ASCII, so the answers agree.
- `Object.create(null)`: a prototype-free object is modelled as a `map<string, bool>`.
- Concurrency: the source is single-threaded, and so is the model.
- benchmark.js: timing and console output only. Its sample strings appear as the example lemmas.
- ExtglobExamples.PlainExamples: it omits the benchmark's long path `very/long/path/with/many/segments/but/no/extglob/pattern.js`. The general lemma `NoPrefixCharNoExtglob` covers that string.
