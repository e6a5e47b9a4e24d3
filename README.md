# scroll-timeline value utilities, modelled in Dafny

This project models `src/utils.js` of the scroll-timeline polyfill. That file is the value front end of the polyfill's CSS value resolution:

- **Tokenizer** (`tokenizer.dfy`, module `Tokenizer`). `splitIntoComponentValues` splits a property value into component values. Whitespace at parenthesis depth 0 separates tokens. A `)` that brings the depth back to 0 ends the token right after it. A token whose depth never returns to 0 runs to the end of the input. The method `SplitIntoComponentValues` keeps the source's shape: one shared cursor, a whitespace loop, and a component loop with a depth counter. It is proved equal to the function `Split`. `Split` is in turn characterised by `IsSplitting`, which does not scan: the input is `w0 t1 w1 ... tn wn`, every gap `wk` is whitespace (possibly empty), and every `tk` is a component value after which the scan stops. `Split` satisfies it (`SplitIsSplitting`), and nothing else does (`SplittingIsSplit`).
- **Axis normalizer** (`axis.dfy`, module `Axis`). `normalizeAxis` returns `x` and `y` unchanged. It maps `block` and `inline` to a physical axis using the writing mode: the logical-to-physical mapping of CSS Writing Modes Level 3, section 6.1, reduced to `horizontal-tb` and every other mode. Its two thrown errors are the `Err` cases of a `Result`.
- **Viewport unit resolver** (`viewport.dfy`, module `Viewport`). `resolveViewportUnit` turns `vw`, `vh`, `vmin` and `vmax` (the viewport-percentage lengths of CSS Values and Units Level 3, section 5.1.2) into the unit the viewport dimensions are given in. The source's `null` is `None`.
- **Unit classification** (`units.dfy`, module `Units`). `isCanonical` and `isViewportUnit` test membership of the lower-cased unit in two fixed sets.
- `wrappers.dfy` (module `Wrappers`) holds `Option` and `Result`.

The inputs come in as parameters:
- The computed style is an `Option` holding only its writing mode.
- The viewport dimensions are two `Option<UnitValue>`.
- `root instanceof CSSUnitValue` becomes the `UnitNumeric` / `OtherNumeric` variants of `NumericValue`.

Behaviour worth knowing (the model follows the code):
- Tokens joined with single spaces do not always reproduce the input up to whitespace. `"f(a)b"` gives `["f(a)", "b"]`, whose joined form is `"f(a) b"`. The model proves the exact decomposition instead.
- The resolver compares unit names case-sensitively, although `isViewportUnit` lower-cases them.
- The writing-mode context is the `writingMode` string, compared with `horizontal-tb`.
- A stray `)` takes the depth below 0. While the depth is below 0, whitespace does not separate tokens: `") b"` is one token (`StrayParenExample`). A later `(` that brings the depth back to 0 lets whitespace separate tokens again. This is modelled as written.

## Model

| member | source | states |
|---|---|---|
| `Tokenizer.IsWs` | src/utils.js:54 | the characters `/\s/` matches: the WhiteSpace and LineTerminator code points of JavaScript (a definition; see "## Left out") |
| `Tokenizer.WhitespaceLen` | src/utils.js:71-75 | the length of the whitespace run `consumeWhitespace` skips; it never passes the end, and `WhitespaceRun` and `WhitespaceLenExact` state what it is |
| `Tokenizer.Split` | src/utils.js:45-86 | the token list `splitIntoComponentValues` returns, defined by the outer scan (no contract of its own; `SplitIsSplitting` and `SplittingIsSplit` characterise it) |
| `Tokenizer.StopsAt` | src/utils.js:52-67 | where the component loop leaves: the end of the input, whitespace at depth 0, or just after a `)` that brought the depth back to 0 (a definition) |
| `Tokenizer.ScannedTokenIsComponent` | src/utils.js:49-69 | the token `consumeComponentValue` takes from a non-whitespace position is a component value, and the scan stops right after it |
| `Tokenizer.SplitIntoComponentValues` | src/utils.js:45-86 | the tokens the scan pushes are exactly `Split(input)` |
| `Tokenizer.ConsumeWhitespace` | src/utils.js:71-75 | the cursor moves past exactly the whitespace run at `i` |
| `Tokenizer.ConsumeComponentValue` | src/utils.js:49-69 | from a non-whitespace position, the cursor moves past exactly one component value; in every case the cursor moves past `ComponentLen` characters and the token is the slice it passed |
| `Tokenizer.WhitespaceRun` | src/utils.js:71-75 | the whitespace skip is the longest all-whitespace prefix |
| `Tokenizer.WhitespaceLenExact` | src/utils.js:72-74 | a whitespace prefix not followed by whitespace is the skipped run |
| `Tokenizer.ComponentLen` | src/utils.js:52-67 | a component scan never passes the end, and takes at least one character unless it starts on whitespace at depth 0 |
| `Tokenizer.ComponentLenFrom` | src/utils.js:52-67 | scanning from any position the scan is still running at (not just after a closing `)`), with the depth of the prefix read so far ends at the first later position where the scan stops |
| `Tokenizer.ComponentLenIsFirstStop` | src/utils.js:49-69 | a token ends at the end of input, at whitespace at depth 0, or just after a `)` that returns the depth to 0, whichever comes first |
| `Tokenizer.ComponentLenOfComponent` | src/utils.js:49-69 | a component value followed by text where the scan stops is consumed exactly |
| `Tokenizer.SplitAtWhitespace` | src/utils.js:79-80 | an outer step on whitespace skips a non-empty run and emits nothing |
| `Tokenizer.SplitAtComponent` | src/utils.js:81-82 | an outer step on a non-whitespace character emits one non-empty token and resumes after it |
| `Tokenizer.SplitSkipsGap` | src/utils.js:79-80 | a whitespace gap before a token, or before the end, contributes no token |
| `Tokenizer.SplitCons` | src/utils.js:77-84 | gap, component value, rest yields that value followed by the tokens of the rest |
| `Tokenizer.SplitIsSplitting` | src/utils.js:45-85 | the input is `w0 t1 w1 ... tn wn` with whitespace gaps and the returned tokens, each a component value after which the scan stops |
| `Tokenizer.SplittingIsSplit` | src/utils.js:45-85 | any such decomposition has exactly the returned tokens, so the decomposition characterises the result |
| `Tokenizer.SplittingInterleaves` | src/utils.js:45-85 | a decomposition reassembles to the input |
| `Tokenizer.TokensAreNonEmpty` | src/utils.js:77-84 | every token is non-empty and does not begin with whitespace |
| `Tokenizer.SplitOfWhitespace` | src/utils.js:71-84 | an empty or whitespace-only input yields no tokens |
| `Tokenizer.EmptySplitIsWhitespace` | src/utils.js:77-84 | only a whitespace-only input yields no tokens |
| `Tokenizer.SplitEmptyIff` | src/utils.js:71-84 | no tokens if and only if the input is whitespace only |
| `Tokenizer.UnbalancedRunsToEnd` | src/utils.js:52-68 | if the depth is non-zero after every non-empty prefix, the whole input is one token, whitespace included |
| `Tokenizer.UnclosedCallRunsToEnd` | src/utils.js:52-67 | a plain name, `(`, and arguments whose depth never drops below 0 form one token running to the end of the input, whitespace included |
| `Tokenizer.FunctionCallIsComponent` | src/utils.js:54-64 | `name(args)` with balanced arguments is one component value whatever whitespace it holds, and ends at its closing `)` |
| `Tokenizer.PlainIsComponent` | src/utils.js:54-55 | a word without whitespace or parentheses is a component value of depth 0 |
| `Tokenizer.StopsAfter` | src/utils.js:54-63 | the scan stops after a depth-0 token followed by whitespace or the end, and after a token closing its parentheses whatever follows |
| `Tokenizer.DepthConcat` | src/utils.js:56-59 | the depth count is additive over concatenation |
| `Tokenizer.BalancedConcat` | src/utils.js:56-59 | two balanced texts in a row are balanced |
| `Tokenizer.NoParensBalanced` | src/utils.js:56-59 | text without parentheses is balanced |
| `Tokenizer.KeywordExample` | src/utils.js:37 | `"cover"` gives `["cover"]` |
| `Tokenizer.TwoWordsExample` | src/utils.js:77-84 | `"auto 100%"` gives `["auto", "100%"]` |
| `Tokenizer.CalcExample` | src/utils.js:39 | `"calc(0% + 50px) calc(100% - 50px)"` gives the two `calc` tokens |
| `Tokenizer.NestedExample` | src/utils.js:56-64 | `"min(1px, max(2px, 3px))"` is a single token |
| `Tokenizer.AdjacentExample` | src/utils.js:60-63 | `"f(a)b"` gives `["f(a)", "b"]` |
| `Tokenizer.UnclosedCallExample` | src/utils.js:52-67 | `"calc(1px 2px"` is a single token |
| `Tokenizer.StrayParenExample` | src/utils.js:54-59 | `") b"` is one token, because after the stray `)` the depth is -1 |
| `Axis.NormalizeAxis` | src/utils.js:13-30 | `x`/`y` come back unchanged with or without a style; a missing style is reported for every other axis, invalid ones included; with a style only `block`/`inline` succeed, and the invalid-axis error names the axis; every success is `x` or `y` |
| `Axis.LogicalAxesArePerpendicular` | src/utils.js:20-27 | with a style, `block` and `inline` both succeed and map to different physical axes |
| `Axis.HorizontalWritingMode` | src/utils.js:20-24 | `inline` is `x`, and `block` is `y`, exactly when the writing mode is `horizontal-tb` |
| `Axis.AxisExamples` | src/utils.js:13-30 | `block` is `y` in `horizontal-tb` and `x` in `vertical-rl`; `inline` is the converse; `block` with no style and an unknown axis give the errors |
| `Units.IsCanonical` | src/utils.js:1-7 | the lower-cased unit is one of `CanonicalUnits` (`px`, `deg`, `s`, `hz`, `dppx`, `number`, `fr`); a definition, whose meaning up to case `IsCanonicalIgnoresCase` states |
| `Units.IsViewportUnit` | src/utils.js:3-11 | the lower-cased unit is one of `ViewportUnits` (`vw`, `vh`, `vmin`, `vmax`); a definition, whose meaning up to case `IsViewportUnitIgnoresCase` states |
| `Units.LowerChar` | src/utils.js:6-10 | one character of `toLowerCase()`: the result is never an ASCII capital, and a changed character was a capital moved 32 code points on |
| `Units.ToLower` | src/utils.js:6-10 | `toLowerCase()`: the same length, every ASCII capital replaced by its lower-case letter (32 code points on), no capital left, every other character kept |
| `Units.IsCanonicalIgnoresCase` | src/utils.js:5-7 | a unit is canonical exactly when it spells `px`, `deg`, `s`, `hz`, `dppx`, `number` or `fr` in some mix of ASCII case |
| `Units.IsViewportUnitIgnoresCase` | src/utils.js:9-11 | a unit is a viewport unit exactly when it spells `vw`, `vh`, `vmin` or `vmax` in some mix of ASCII case |
| `Units.MembershipIgnoresCase` | src/utils.js:5-11 | membership after lower-casing is membership up to case, for a set written in lower case |
| `Units.CanonicalAndViewportDisjoint` | src/utils.js:1-3 | no unit is both canonical and viewport-relative |
| `Units.UnitExamples` | src/utils.js:5-11 | `PX` and `Hz` are canonical and `em` is not; `VMin` is a viewport unit and `vb` is not |
| `Viewport.ResolveViewportUnit` | src/utils.js:96-127 | there is a result exactly when the root is a unit value, both dimensions are known and the unit is exactly `vw`, `vh`, `vmin` or `vmax`; the result's unit is the height's for `vh` and the width's otherwise |
| `Viewport.Min` | src/utils.js:116 | the smaller of the two magnitudes |
| `Viewport.Max` | src/utils.js:121 | the larger of the two magnitudes |
| `Viewport.HundredIsFullExtent` | src/utils.js:102-123 | `100vw` is the viewport width and `100vh` the height; `100vmin` and `100vmax` are the smaller and the larger, in the width's unit |
| `Viewport.ResolveIsLinear` | src/utils.js:102-123 | the resolved magnitude is linear in the given one; with `HundredIsFullExtent` this fixes it as `value * dimension / 100` |
| `Viewport.MinMaxAreExtremes` | src/utils.js:115-123 | `vmin`/`vmax` equal the `vw` or the `vh` length; for a non-negative magnitude they are the shorter and the longer |
| `Viewport.MinMaxUseWidthUnit` | src/utils.js:115-123 | `vmin` and `vmax` report the width's unit even when the height is selected |
| `Viewport.ResolveIsCaseSensitive` | src/utils.js:102-126 | every resolved unit is a viewport unit, but `VW` is a viewport unit that is not resolved |
| `Viewport.ViewportExamples` | src/utils.js:96-127 | for an 800px by 600px viewport: 50vw is 400px, 50vh is 300px, 10vmin is 60px, 10vmax is 80px; `px`, a non-unit value and a missing width give no result |

## Left out

- Floating point: magnitudes are `real`. IEEE-754 rounding, NaN, infinities and signed zero in `*`, `/ 100`, `Math.min` and `Math.max` are not modelled.
- `CSSUnitValue` and `CSSNumericValue` are browser classes. The model keeps only the `instanceof CSSUnitValue` distinction. `CSSNumericValue.parse`, named in the doc comment of `splitIntoComponentValues`, is not modelled.
- The DOM computed-style object is reduced to its `writingMode` string. It is either absent or present.
- JavaScript truthiness: `!computedStyle` and `!viewportWidth`/`!viewportHeight` are modelled as "absent". Other falsy values passed in place of an object are not modelled.
- `IsWs` is a fixed list of characters: the WhiteSpace and LineTerminator code points of JavaScript's `\s`. It is not tied to the space separators of a particular Unicode version.
- The source reads UTF-16 code units, and the model reads Unicode scalar values. Whitespace and parentheses all lie in the Basic Multilingual Plane, so a surrogate half is never either one, and both give the same token boundaries.
- `toLowerCase()` is modelled as ASCII lower-casing. Only two non-ASCII characters lower-case to text containing ASCII: U+212A lower-cases to `k` and U+0130 to `i` plus a combining dot. Neither can turn a unit into a member of either set, so the membership results are the same.
- The doc-comment example `'auto 0%'` giving `['auto', '100%']` is a typo and is not stated as a property. `TwoWordsExample` uses `"auto 100%"`.
- `Viewport.ResolveViewportUnit`: its own contract states when there is a result and which unit it has, not the magnitude. The magnitude is pinned down by `HundredIsFullExtent` and `ResolveIsLinear` together.
- `Axis.NormalizeAxis`: its own contract does not give the value for `block` and `inline`. `HorizontalWritingMode` and `LogicalAxesArePerpendicular` state it.
