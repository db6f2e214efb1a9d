# AtCoderPrettier colour-override engine in Dafny

AtCoderPrettier is a userscript. It darkens the pages of atcoder.jp by writing inline
overrides on elements whose computed colours are light. This project models the script's
colour-override engine, `main.js`, and proves properties of it.

The engine has four parts:

- **The colour model** (`colors.dfy`, module `ColorModel`):
  - `parseColor`, with its regular expression written out as a matcher;
  - the integer luma test `isLightColor`;
  - the RGB/HSL conversions `rgbToHsl`, `hslToRgb` and `hue2rgb`, which lighten dark text.
- **The per-element classifier** (`classifier.dfy`, module `Classifier`).
  `processElement(el, isStaticCheck)` is a function `Process` from an element's state and what
  the engine reads of it to its new state. The state is the inline `background-color`,
  `border-color` and `color`, and the two dataset markers `acOriginallyLight` and
  `acTextAdjusted`.
- **The restoration policy** of the `mouseout` listener (`reconciler.dfy`, module `Reconciler`).
  The module also covers the life of one element under any sequence of classifications and
  mouse-leave events.
- **The DOM layer** (`dom.dfy`, module `Dom`):
  - a `Node` class whose engine-written fields the methods update in place;
  - `processElement` as a method;
  - `scanAll` as a loop over the descendants;
  - the mutation-observer callback as nested loops over the records and their added nodes;
  - the `mouseover` and `mouseout` listeners.

The browser supplies everything the engine only reads. These are input fields of `Node`
that no method writes:

- the class name;
- the computed background and text colours;
- whether `getComputedStyle` fails;
- whether the cursor is over the element.

JavaScript numbers are exact rationals (`real`). `Math.round(x)` is `Floor(x + 0.5)`.

Each method is proved against the function that specifies it. For example,
`Dom.ProcessElement` leaves exactly `Classifier.Process` of the old state, and `Dom.OnMutations`
leaves every node of the batch in the state its calls fold to. The properties of those
functions are proved as lemmas.

The observer reacts to style writes. An override the engine writes is an inline-style
mutation, and it triggers the dynamic classification again. That second call sees the
overridden computed colours. `Classifier.OverridesAreFixedPoint` shows that it changes
nothing: the dark background is not light and the lightened text is not dark.
`Classifier.ProcessTwice` covers a second classification with the same computed style:
classifying twice is classifying once.

The design intends that one malformed node never halts a scan. The code does not do that for
SVG elements; see "Findings". `Dom.ScanAll` and `Dom.OnMutations` model the intended
per-element isolation. `Dom.ScanAllAsWritten` models the code as written.

## Model

| member | source | states |
|---|---|---|
| ColorModel.IsDigit | main.js:92 | the class `\d` holds neither the `,` nor the `)` that may follow a `(\d+)` group |
| ColorModel.IsSpace | main.js:92 | the class `\s` holds no digit and no `.`, so `\s*` never takes the start of the group after it |
| ColorModel.IsAlphaChar | main.js:92 | the class `[\d\.]` holds neither `,`, `)` nor a space, so the alpha group ends at the `)` |
| ColorModel.Span | main.js:92 | a greedy `[class]*`: the prefix it takes and what is left make up the input, every taken character is in the class, and the next character is not |
| ColorModel.SpanOf | main.js:92 | a run of class characters followed by a non-class character is split exactly there |
| ColorModel.DigitChar | main.js:95-97 | the digit character for a value below ten is a digit and reads back as that value |
| ColorModel.DecimalValue | main.js:95-97 | `parseInt` of a run of `k` digits is below `10^k` |
| ColorModel.DecimalConcat | main.js:95-98 | the value of two digit runs written one after the other is the first shifted by the length of the second, plus the second |
| ColorModel.Decimal | main.js:95-97 | the decimal numeral of a number is a non-empty string of digits |
| ColorModel.DecimalRoundTrip | main.js:95-97 | `parseInt` of the decimal numeral of `n` is `n` |
| ColorModel.ParseDecimalPrefix | main.js:98 | `parseFloat` of the alpha group is a non-negative number when the group starts with a digit, and NaN when it is empty or a lone `.` not followed by a digit |
| ColorModel.FractionValue | main.js:98 | the number written `I.F` is non-negative |
| ColorModel.ParseInteger | main.js:98 | `parseFloat` of a digit run not followed by a digit or `.` is the run's integer value |
| ColorModel.FractionParts | main.js:98 | `parseFloat("I.F…")` reads the integer part `I` and the fraction digits `F` and ignores what follows them |
| ColorModel.ParseFraction | main.js:98 | `parseFloat("I.F…")` is the integer `IF` divided by ten to the length of `F` |
| ColorModel.ParseDecimalOfDecimal | main.js:98 | `parseFloat` of the numeral of `n` is `n` |
| ColorModel.FractionBelowOne | main.js:98 | `parseFloat("0.F…")` is a number in [0, 1), so such an alpha takes the `rgba` branch of main.js:180 |
| ColorModel.ParseHalf | main.js:98 | `parseFloat("0.5")` is 0.5 |
| ColorModel.Run | main.js:92 | a `(\d+)`-style group is non-empty, made of class characters, and a prefix of the input |
| ColorModel.Separated | main.js:92 | a `,\s*(group)` step yields a non-empty group of class characters |
| ColorModel.MatchRgb | main.js:92 | a match anchored at `rgb`/`rgba` has three digit groups and a non-empty alpha group when there is one |
| ColorModel.MatchArguments | main.js:92 | the same for the argument list `(...)` |
| ColorModel.MatchTail | main.js:92 | the optional alpha group and `)` keep the three channel groups unchanged |
| ColorModel.Search | main.js:92 | the unanchored `match` has three digit groups, and is the anchored match at position 0 when there is one |
| ColorModel.SearchLeftmost | main.js:92 | the unanchored `match` is the anchored match at the first position where one exists, with none at any earlier position, and it is null exactly when no position matches |
| ColorModel.ParseColor | main.js:90-102 | `""`, `"transparent"` and `"rgba(0, 0, 0, 0)"` give null, and any non-null result comes from a regex match |
| ColorModel.SeparatedOf | main.js:92 | `, ` followed by a group and a non-class character gives exactly that group |
| ColorModel.MatchRgbPrefix | main.js:92 | `rgb(` and `rgba(` both reach the argument matcher |
| ColorModel.MatchChannels | main.js:92 | three digit groups separated by `, ` are matched as the channels, up to the first character after them |
| ColorModel.MatchArgumentsRgb | main.js:92 | `(R, G, B)` with digit groups gives those three groups and no alpha |
| ColorModel.MatchTailAlpha | main.js:92 | `, A)` with `A` over `[0-9.]` is matched as the alpha group |
| ColorModel.MatchArgumentsRgba | main.js:92 | `(R, G, B, A)` gives the four groups |
| ColorModel.MatchRgbText | main.js:92 | the text `rgb(r, g, b)` matches with the decimal numerals of its channels |
| ColorModel.MatchRgbaText | main.js:92 | the text `rgba(r, g, b, A)` matches with its channels and `A` |
| ColorModel.ParseMatch | main.js:90-102 | a string other than the three special ones that matches at its start parses to `parseInt` of the channel groups and `parseFloat` of the alpha group, or alpha 1 without one |
| ColorModel.RgbTextNotSpecial | main.js:91 | no `rgb(...)` text is one of the three strings that give null |
| ColorModel.ParseRgbText | main.js:90-102 | `parseColor("rgb(R, G, B)")` is exactly `{r: R, g: G, b: B, a: 1}`, unclamped |
| ColorModel.ParseRgbaText | main.js:90-102 | `parseColor("rgba(R, G, B, A)")` is the channels with `a = parseFloat(A)`, unless the text is the transparent-black string |
| ColorModel.TransparentForms | main.js:91 | the empty string, `transparent` and `rgba(0, 0, 0, 0)` all give null |
| ColorModel.IsLightColor | main.js:149-151 | light exactly when `299r + 587g + 114b > 150000`, the threshold 150 (main.js:23) scaled by 1000 |
| ColorModel.LightnessBoundary | main.js:149-151 | the test is strict: gray 150 is not light, gray 151 is, and the dark override colour 30 is not |
| ColorModel.LightnessMonotone | main.js:149-151 | raising any channel never turns a light colour dark |
| ColorModel.RgbToHsl | main.js:105-122 | lightness `< 0.5` exactly when max channel + min channel `< 255`; grays have hue and saturation 0 |
| ColorModel.Hue2RgbBetween | main.js:132-139 | for `p <= q` and a hue offset `t >= -1`, `hue2rgb(p, q, t)` lies between `p` and `q` |
| ColorModel.RisingBetween | main.js:135 | the rising edge `p + (q - p) * 6 * t` stays between `p` and `q` on its sector |
| ColorModel.FallingBetween | main.js:137 | the falling edge `p + (q - p) * (2/3 - t) * 6` stays between `p` and `q` on its sector |
| ColorModel.Round | main.js:146 | `Math.round(x)` is the integer nearest `x`, halves rounded up |
| ColorModel.HslToRgb | main.js:125-147 | with saturation 0 the three channels are `Math.round(l * 255)` |
| ColorModel.Lightened | main.js:207-213 | gray text is lightened to `rgb(191, 191, 191)` |
| ColorModel.DarkSaturation | main.js:113-114 | a dark colour that is not gray has saturation in (0, 1] |
| ColorModel.HueNonNegative | main.js:115-121 | the hue of any colour is non-negative |
| ColorModel.RoundUpperHalf | main.js:146 | a component in [0.5, 1] rounds to a channel in 128..255 |
| ColorModel.LightenedChannels | main.js:207-213 | every channel of lightened dark text lies in 128..255 |
| ColorModel.LightenedIsNotDark | main.js:207-213 | lightened dark text has HSL lightness at least 0.5 |
| Classifier.LowerAscii | main.js:158 | `toLowerCase` keeps the length of the tag name, leaves no upper-case ASCII letter and keeps every other character |
| Classifier.Contains | main.js:166-169 | `includes` finds the empty string in any string, and never a string longer than the one searched |
| Classifier.ContainsInfix | main.js:166-169 | a class name holding a word anywhere contains it in the sense of `includes` |
| Classifier.ContainsSplit | main.js:166-169 | what `includes` finds occurs somewhere in the string, so `includes` is exactly "is an infix" |
| Classifier.ProtectedClass | main.js:159-169 | an empty class name, which is what a missing `el.className` becomes, is not protected |
| Classifier.ThrowsTypeError | main.js:159-166 | no element with a string class name throws |
| Classifier.ThrowingIsExempt | main.js:159-166 | the element that throws is exempt: it writes nothing |
| Classifier.ClasslessIsProcessed | main.js:156-172 | an element with an empty class name is processed unless its tag is skipped or `getComputedStyle` fails |
| Classifier.DarkBackground | main.js:179-184 | the dark background written is not light; it is the `rgba` form exactly when the parsed alpha is a number below 1, and then carries that alpha |
| Classifier.Overrides | main.js:174-213 | a classification writes `background-color` and `border-color: #444` exactly when the background is light, and `color` exactly when the text is dark |
| Classifier.BackgroundOverride | main.js:175-184 | a background override exists exactly when the computed background parses and is light |
| Classifier.TextOverride | main.js:198-211 | a text override exists exactly when the computed colour parses and has lightness `< 0.5` |
| Classifier.Process | main.js:155-224 | skipped elements are unchanged; in the dynamic context neither marker changes; markers are only ever set; no inline property is removed |
| Classifier.BackgroundRule | main.js:174-192 | on a light background, `background-color` becomes `rgb(30, 30, 30)` if `a >= 1`, else `rgba(30, 30, 30, a)`, and `border-color` becomes `#444`; `acOriginallyLight` is set in the static context; otherwise both properties and the marker are as they were |
| Classifier.TextRule | main.js:198-221 | on text with max + min `< 255`, `color` becomes the lightened colour and `acTextAdjusted` is set in the static context; otherwise `color` and the marker are as they were |
| Classifier.GrayTextRule | main.js:201-219 | gray text of channel at most 127, at any alpha, is overridden with `rgb(191, 191, 191)`, marked in the static context |
| Classifier.ProtectedClassUntouched | main.js:165-169 | a class name containing `navbar`, `row` or a status class leaves the element exactly as it was |
| Classifier.ProcessTwice | main.js:171-221 | classifying again with the same computed style gives the state of one classification, static if either was |
| Classifier.DarkBackgroundIsNotLight | main.js:178-184 | the written dark background, opaque or with any alpha, is not light, so reclassifying it writes no background |
| Classifier.LightenedTextIsNotDark | main.js:201-220 | the written light text colour is not dark, so reclassifying it writes no colour |
| Classifier.OverridesAreFixedPoint | main.js:174-221 | an element whose computed background is the engine's opaque or translucent dark override or is not light, and whose text is a lightened colour or is not dark, is left unchanged by a second classification |
| Classifier.FirstThrow | main.js:227-232 | the position of the first element whose class check throws: every earlier element does not throw, and the one there does |
| Classifier.FirstThrowStep | main.js:229-230 | a scan that has not thrown either stops at the current element or passes it |
| Reconciler.Restore | main.js:254-283 | `mouseout` never touches the markers; a hovered element, an originally light one, or one with no inline background is unchanged; only removals happen, and kept entries keep their values |
| Reconciler.RestoreTiers | main.js:265-282 | past the first two tiers, a text-adjusted element loses background and border and keeps `color`; any other loses all three |
| Reconciler.MarkersPersist | main.js:155-283 | once set, a marker survives any sequence of classifications and mouse-leave events |
| Reconciler.DynamicEventsKeepMarkers | main.js:189-219 | events without a static classification never change either marker |
| Reconciler.OriginallyLightKeepsOverrides | main.js:260-263 | an originally light element never loses an inline property and stays marked |
| Reconciler.DivIsNotExempt | main.js:156-169 | a plain `<div>` with an empty class name passes every skip rule |
| Reconciler.GrayBackground | main.js:174-186 | a gray background is overridden with `rgb(30, 30, 30)` exactly when its channel exceeds 150 |
| Reconciler.GrayText | main.js:198-213 | gray text is overridden with `rgb(191, 191, 191)` exactly when its channel is at most 127 |
| Reconciler.GrayDiv | main.js:174-221 | what a gray `<div>` gets written, as a function of its two channels |
| Reconciler.BackgroundOnly | main.js:174-221 | a light background with text that is not dark gets only background and border written |
| Reconciler.TextOnly | main.js:174-221 | dark text on a background that is not light gets only `color` written |
| Reconciler.NoOverrides | main.js:174-221 | neither condition means nothing is written |
| Reconciler.NativeLightCase | main.js:260-263 | a natively light element gets the dark background and border and is marked at insertion, its text is lightened and marked exactly when dark, and mouse-leave cannot undo any of it |
| Reconciler.TextAdjustedAtInsertion | main.js:198-219 | dark text at insertion gets the lightened colour and the text marker only |
| Reconciler.TextAdjustedCase | main.js:265-275 | a text-adjusted element that lights up under the cursor returns, on leave, to exactly its insertion state |
| Reconciler.HoverOnlyCase | main.js:277-282 | an element that is light only under the cursor is fully restored to untouched on leave |
| Reconciler.CasesAreInhabited | main.js:149-151 | the hypotheses of the three scenarios hold for concrete gray divs |
| Dom.Node.constructor | main.js:155-159 | a node as inserted: the given tag, class and colours, no inline overrides, no markers |
| Dom.Inputs | main.js:158-175 | what `processElement` reads of each node of a sequence, in order |
| Dom.ProcessElement | main.js:155-224 | the method throws exactly on an SVG element that is not tag-skipped, and leaves the element in state `Process` of its old state |
| Dom.WriteOverrides | main.js:171-223 | the `try` block's writes, in source order, give `Process` of the old state |
| Dom.WriteBackground | main.js:185-191 | a background override sets `background-color` then `border-color` and, in the static context, the `originallyLight` marker; no override changes nothing |
| Dom.WriteText | main.js:211-219 | a text override sets `color` and, in the static context, the `textAdjusted` marker; no override changes nothing |
| Dom.ClassificationWrites | main.js:185-218 | the step-by-step `setProperty` and marker writes give `Process` |
| Dom.SetProperties | main.js:185-213 | the `setProperty` calls in order are the override maps merged over the inline style |
| Dom.ScanStep | main.js:229-231 | one loop iteration classifies the next element statically |
| Dom.ScanAll | main.js:227-232 | with per-element isolation, every descendant ends in `Process(old state, inputs, static)`, also when listed twice |
| Dom.ThrowingStepUnchanged | main.js:166 | the element that throws is left as it was |
| Dom.AsWrittenStep | main.js:229-231 | one iteration as written: it throws at the first throwing element or classifies the current element |
| Dom.AsWrittenLoop | main.js:229-231 | the as-written loop stops exactly at the first throwing element, with the earlier ones classified |
| Dom.ScanAllAsWritten | main.js:227-232 | as written, `scanAll` throws exactly when some descendant throws; the descendants before it are classified and the rest are unchanged |
| Dom.SvgGroupStopsScan | main.js:162-166 | an SVG `<g>` throws while the light `<div>` after it would be darkened |
| Dom.SvgPage | main.js:227-228 | a body holding an SVG group and then a `<div>`, all fresh and untouched |
| Dom.SvgPageAsWritten | main.js:227-232 | scanned as written, the div after the group stays untouched |
| Dom.SvgPageCorrected | main.js:227-232 | scanned with isolation, a light div after the group is marked originally light |
| Dom.ClassMutationIsNotStyle | main.js:242 | a `class` attribute mutation is not a style mutation |
| Dom.ScanCalls | main.js:227-232 | `scanAll(node)` makes one static call per descendant, in order |
| Dom.NodeCallsShape | main.js:236-241 | an added element causes one call for itself and one per descendant, all static; any other node causes none |
| Dom.AddedCalls | main.js:236-241 | every call the added nodes of a record cause is static |
| Dom.MutationCallsShape | main.js:235-245 | a record's calls are static, except that a style mutation adds one last dynamic call on its target |
| Dom.Calls | main.js:234-246 | a batch with no style mutation makes only static calls |
| Dom.BatchNodes | main.js:234-246 | a batch of records that add nothing and are not style mutations can change no node |
| Dom.AttributeMutations | main.js:242-244 | a `class` attribute mutation causes no call; a `style` mutation causes one dynamic call on its target |
| Dom.ExpectStep | main.js:234-246 | one more classification folds into the state of the calls so far |
| Dom.ClassifyInBatch | main.js:238 | one `processElement` call of a batch keeps every batch node at its folded state |
| Dom.ScanInBatch | main.js:239 | one `scanAll(node)` call of a batch keeps every batch node at its folded state |
| Dom.OnMutations | main.js:234-246 | after a batch, each touched node is classified once from its state before the batch, in the static context if any call was static |
| Dom.MutationInBatch | main.js:235-245 | one record: the calls for its added nodes, then the dynamic call for a style mutation |
| Dom.AddedNodesInBatch | main.js:236-241 | each added element is classified statically, then its descendants via `scanAll` |
| Dom.ScanTargets | main.js:227-232 | `scanAll(node)` names exactly the node's descendants |
| Dom.NodeTargets | main.js:236-241 | an added element names itself and its descendants; any other added node names nothing |
| Dom.AddedElementsAppend | main.js:236-241 | the nodes an added list names grow by those of each node appended |
| Dom.AddedTargets | main.js:236-241 | the calls for an added list name exactly its elements and their descendants |
| Dom.MutationTargets | main.js:235-245 | one record names exactly its added elements, their descendants and, for a style mutation, its target |
| Dom.BatchNodesAppend | main.js:234-246 | the nodes a batch names grow by those of each record appended |
| Dom.BatchNodesAreTargets | main.js:234-246 | the nodes `OnMutations` may change are exactly those some call of the batch names |
| Dom.MouseOver | main.js:250-252 | `mouseover` is a dynamic classification of the target |
| Dom.MouseOut | main.js:254-283 | the in-place removals leave the element in exactly `Restore(old state, hovering)` |

## Left out

- The `GM_addStyle` style sheet and the user-agent check behind `acrylicAlpha` (main.js:18-20, main.js:27-86) are left out: they are fixed configuration with no logic.
- `handleScroll` (main.js:303-313) is not part of this model: it measures page geometry and does not touch colours.
- `init`, the `readyState` check and the observer and listener registrations (main.js:286-301) are left out: they only wire the callbacks to the page. The `attributeFilter` of main.js:292 is modelled as the two attribute names a record can carry (`Dom.AttributeMutations`).
- `textLightnessThreshold` (main.js:24) is declared and never read; the model uses the literal 0.5 of main.js:207, as the code does.
- IEEE-754 doubles are replaced by exact rationals. Rounding differences of double arithmetic in `rgbToHsl`, `hslToRgb` and the luma division are not modelled. The luma test is the exact integer comparison.
- ColorModel.LightenedChannels: states that lightened text has every channel in 128..255 and lightness at least 0.5. It does not prove that hue and saturation are kept; that would need inverting the HSL round trip over rationals.
- ColorModel.RgbToHsl: the saturation formula is guarded against `max + min = 2`, where main.js:114 divides by zero. For channels in 0..255 the guard never fires. The model does not clamp channels, and for `rgb(300, 210, 210)` it fires: the model gives saturation 0 where the source gives an infinite value. The saturation is read only when `l < 0.5`, which such colours do not reach, so no written value differs.
- `parseInt` is exact on arbitrarily long digit strings. The loss of precision of JavaScript numbers beyond 2^53 is not modelled.
- ColorModel.ParseDecimalPrefix: only strings of digits and `.` are modelled, since the regex group admits nothing else.
- Classifier.LowerAscii: `toLowerCase` is modelled on ASCII letters only; tag names outside ASCII are case-mapped differently by the browser.
- A missing `el` (`!el`, main.js:156) is not modelled: every call passes a node.
- The page's own inline values and `data-*` markers written in the HTML are not modelled. An untouched node starts with no inline overrides and no markers, and `CssValue.PageValue` is the only trace of page-set values.
- Computed styles and the hover state are inputs that stay fixed while a callback runs. The reflow after an override, which changes `getComputedStyle`, is not modelled.
- The DOM tree is reduced to each node's list of descendants (`getElementsByTagName('*')`). Live-collection updates during a scan are not modelled.
- Dom.OnMutations: models the observer with per-element isolation, like `Dom.ScanAll`. The as-written abort of the whole batch on an SVG element is shown for `scanAll` only (`Dom.ScanAllAsWritten`). The same exception also ends the observer batch and `init` before `observer.observe`, and those are not modelled separately.
- Events arriving between the observer's records are not modelled: records are processed in the order delivered, each to completion, as the single-threaded event loop guarantees.

## Findings

| source | as written | input that shows it | evidently intended | confidence | as-written member | corrected member |
|---|---|---|---|---|---|---|
| main.js:159-166 | On an SVG element, `el.className` is an `SVGAnimatedString` object. This holds unless the tag is `svg` or `path`, which are skipped. `className.includes` is then not a function, and the TypeError is raised before the `try`. It leaves `processElement` and ends the whole `scanAll` loop (and the observer batch). | a body whose descendants are an SVG `<g>` and then a `<div>` with background `rgb(240, 240, 240)`: the div is never darkened | each malformed element is skipped and the scan goes on with its siblings | high; not executed | Dom.ScanAllAsWritten, Dom.SvgGroupStopsScan, Dom.SvgPageAsWritten | Dom.ScanAll, Dom.SvgPageCorrected |
