# Label fitter of the film-location visualizer

The visualizer draws a hierarchy of groups as circles nested in circles and
writes each group's name inside its circle. Before a name is written,
`shortenToWithinRadius(radius, text)` fits it to the circle:

- **Budgets.** A line holds `maxWidth = radius / 3.1` characters, and the
  circle holds `lines = radius / 10` lines.
- **Word stage.** The text is split on runs of whitespace. Every piece at
  least `maxWidth` long gets a hard break (`addBreakPoint`): the `-<br>`
  marker near the end of the line. The pieces are joined again with single
  spaces.
- **Truncation.** A result longer than `maxWidth * lines` is cut by
  `addEllips` to its first `maxWidth - 3` characters followed by
  `&hellip;`. When that prefix has 4 characters or fewer, the label is
  dropped (`''`).

The project has two modules.

- `JsString` (`js_string.dfy`) states the ECMAScript built-ins the fitter
  relies on:
  - the `\s` character class;
  - the truncation of numbers to integers (ToIntegerOrInfinity);
  - `String.prototype.substr` as defined in ECMA-262 Annex B, B.2.2.1;
  - `split(/\s+/g)` and `join`.
- `TextManipulation` (`text_manipulation.dfy`) holds:
  - the configuration constants;
  - `AddBreakPoint`, `AddEllips` and `ShortenToWithinRadius`;
  - the lemmas about them.

All of them are pure functions, as in the source. The radius is a `real`
with no precondition, because the source accepts any number. A negative
radius is therefore modelled exactly.

What the model shows about the code:

- **The hard break replaces a character when a line holds two or more.**
  The comment on `lineBreakBackTrack` (`src/app/visualizer/utils/text-manipulation.ts:15`) speaks of going back
  before inserting `-`. The code keeps `s.substr(0, maxWidth - 2)` and
  resumes at `maxWidth - 2 + 1`. For `maxWidth >= 2` the character at index
  `floor(maxWidth - 2)` is therefore replaced by the marker and lost
  (`BreakPointReplacesOneChar`, `ShortenBreaksWord`). For
  `0 < maxWidth < 2` nothing is lost: the marker comes first and the whole
  word follows it (`BreakPointNarrow`).
- **A negative radius need not give `''`.** Radius zero always does
  (`ShortenRadiusZero`). A negative radius makes `maxWidth` and `lines`
  both negative, so their product, the budget `radius * radius / 31`, is
  positive (`BudgetNonNegative`). A word stage within that budget is
  returned, hard-broken: `ShortenNegativeRadius` shows that radius -100
  turns "hello" into "-<br>hello". A word stage over it gives `''`,
  because a negative line width is below 8 (`ShortenNegativeOverBudget`):
  radius -1 turns "hello" into `''` (`ShortenNegativeRadiusSmall`).
- **Fitting is not a fixed point.** A hard-broken word has no whitespace,
  so fitting it again with the same radius treats it as one long piece and
  breaks it again: `ShortenBreaksWord` turns "abcdefg" into "abcd-<br>fg",
  `ShortenRebreaksWord` turns that into `''`, and `ShortenNotFixedPoint`
  puts the two together.
- **The label fits its budget.** Whatever the radius, the result is no
  longer than `maxWidth * lines` (`ShortenFitsBudget`). The length counts
  raw code units, so the markers count as 5 (`-<br>`) and 8 (`&hellip;`)
  characters, although the renderer shows them as a line break with one
  hyphen and as one ellipsis character.

## Model

| member | source | states |
|---|---|---|
| `JsString.WhitespaceClass` | src/app/visualizer/utils/text-manipulation.ts:42 | the `\s` of the split pattern matches the space, tab, line feed, carriage return, no-break space, ideographic space, byte order mark and line separator, and does not match the letter `a`, `-`, `<`, the next-line control U+0085, U+180E or the zero-width space U+200B |
| `JsString.Trunc` | src/app/visualizer/utils/text-manipulation.ts:54-61 | the fractional position and length given to `substr` become `x` truncated toward zero, the integer `n` with `n <= x < n + 1` for non-negative `x` and `n - 1 < x <= n` for negative `x` |
| `JsString.Substr` | src/app/visualizer/utils/text-manipulation.ts:54-61 | `substr` takes at most `|s|` characters and adds no whitespace. A length below one gives `''`. From position 0 it gives the first `Trunc(length)` characters. A start inside the string with enough length gives the whole rest. A negative start with enough length counts back from the end and stops at 0 |
| `JsString.SubstrFromStart` | src/app/visualizer/utils/text-manipulation.ts:54 | `substr` from position 0 always gives a prefix of the string, whatever the length |
| `JsString.SubstrToEnd` | src/app/visualizer/utils/text-manipulation.ts:56 | `substr` with a length of at least `|s|` always gives a suffix of the string, whatever the start |
| `JsString.Split` | src/app/visualizer/utils/text-manipulation.ts:42 | `split(/\s+/g)` gives at least one piece, even for the empty text; where the pieces break is stated by `SplitRun` and `SplitWordRun` |
| `JsString.SplitRun` | src/app/visualizer/utils/text-manipulation.ts:42 | a maximal run of whitespace of any length and kind at the front of a text gives an empty first piece, followed by the pieces of the rest |
| `JsString.SplitWordRun` | src/app/visualizer/utils/text-manipulation.ts:42 | a word without whitespace, a maximal whitespace run and the rest split into the word followed by the pieces of the rest: the text breaks at the run, and nowhere inside it |
| `JsString.SplitTabAndDoubleSpace` | src/app/visualizer/utils/text-manipulation.ts:42 | "ab\tcd" and "ab  cd" (two spaces) both split into "ab" and "cd" |
| `JsString.SplitPieces` | src/app/visualizer/utils/text-manipulation.ts:42 | no piece of `split(/\s+/g)` holds whitespace; only the first and the last piece can be empty; the first piece is empty exactly when the text starts with whitespace |
| `JsString.SplitLastPiece` | src/app/visualizer/utils/text-manipulation.ts:42 | the last piece is empty exactly when the text is empty or ends with whitespace |
| `JsString.SplitNoWhitespace` | src/app/visualizer/utils/text-manipulation.ts:42 | a text without whitespace splits into exactly one piece, the text itself |
| `JsString.SplitAtWhitespace` | src/app/visualizer/utils/text-manipulation.ts:42 | a text with whitespace anywhere splits into two or more pieces |
| `JsString.SplitKeepsText` | src/app/visualizer/utils/text-manipulation.ts:42 | splitting loses only whitespace: the pieces put back together, in order, are the text with its whitespace removed |
| `JsString.Join` | src/app/visualizer/utils/text-manipulation.ts:44 | joining no pieces gives `''`. Otherwise the result starts with the first piece, followed by the separator if there are two or more. Pieces and a separator without whitespace give a result without whitespace |
| `JsString.SplitJoin` | src/app/visualizer/utils/text-manipulation.ts:42-44 | splitting undoes the join with `' '`, for pieces without whitespace whose inner pieces are non-empty |
| `TextManipulation.MaxWidth` | src/app/visualizer/utils/text-manipulation.ts:36 | the line width times the divider 3.1 is the radius |
| `TextManipulation.Lines` | src/app/visualizer/utils/text-manipulation.ts:37 | the number of lines times the divider 10 is the radius |
| `TextManipulation.BudgetNonNegative` | src/app/visualizer/utils/text-manipulation.ts:46 | the budget `maxWidth * lines` is never negative, and it is zero exactly for radius zero; so a negative radius has a positive budget |
| `TextManipulation.WideBudget` | src/app/visualizer/utils/text-manipulation.ts:46-47 | with lines of eight characters or more, the budget exceeds both the line width and 19 characters |
| `TextManipulation.AddBreakPoint` | src/app/visualizer/utils/text-manipulation.ts:52-57 | the result is a prefix of `s` of `Trunc(maxWidth - 2)` characters (clamped to `0..|s|`), then the marker, then a suffix of `s`; it is at most `|s| + 5` long and has no whitespace when `s` has none |
| `TextManipulation.BreakPointReplacesOneChar` | src/app/visualizer/utils/text-manipulation.ts:52-57 | for `2 <= maxWidth <= |s|`, with `k = floor(maxWidth - 2)`, `k + 2 <= maxWidth < k + 3`: the result is `s[..k] + "-<br>" + s[k+1..]`, exactly one character replaced by the marker, four characters longer |
| `TextManipulation.BreakPointNarrow` | src/app/visualizer/utils/text-manipulation.ts:52-57 | for `0 < maxWidth < 2` the marker comes first and the whole word follows it |
| `TextManipulation.BreakPointNonPositive` | src/app/visualizer/utils/text-manipulation.ts:52-57 | for `maxWidth <= 0` only the tail of the word that `substr` counts back from the end follows the marker |
| `TextManipulation.FitPiece` | src/app/visualizer/utils/text-manipulation.ts:43 | the `map` callback keeps a piece free of whitespace, and gives `''` exactly when the piece is empty and the line width is positive |
| `TextManipulation.BreakLongWords` | src/app/visualizer/utils/text-manipulation.ts:42-44 | after the word stage the only whitespace left is the plain space `' '` |
| `TextManipulation.JoinSpaces` | src/app/visualizer/utils/text-manipulation.ts:44 | pieces without whitespace joined with `' '` hold no whitespace other than the spaces |
| `TextManipulation.BreakLongWordsPieces` | src/app/visualizer/utils/text-manipulation.ts:42-44 | splitting the word stage's result gives exactly the `map` of the callback over the input's pieces, one for one. So the number of pieces is kept, and a piece shorter than `maxWidth` comes back unchanged |
| `TextManipulation.BreakLongWordsNonEmpty` | src/app/visualizer/utils/text-manipulation.ts:42-46 | the word stage of a non-empty text is non-empty, so the `text &&` test before the length check always passes |
| `TextManipulation.BreakLongWordsKeepsShortWords` | src/app/visualizer/utils/text-manipulation.ts:42-44 | non-empty words without whitespace, each shorter than `maxWidth` and joined by single spaces, come out of the word stage unchanged |
| `TextManipulation.OneWord` | src/app/visualizer/utils/text-manipulation.ts:42-44 | a text without whitespace is a single piece, so the word stage only applies the `map` callback to it |
| `TextManipulation.AddEllips` | src/app/visualizer/utils/text-manipulation.ts:60-66 | the result is `''` exactly when the text has at most 4 characters or `maxWidth - 3 < 5`. Otherwise it is the text's first `min(floor(maxWidth - 3), |text|)` characters, more than 4 of them, followed by `&hellip;` |
| `TextManipulation.EllipsOverBudget` | src/app/visualizer/utils/text-manipulation.ts:46-47 | for a text over the budget of `radius`, `addEllips` gives `''` exactly when `maxWidth < 8`. Otherwise it gives the first `floor(maxWidth - 3)` characters (more than 4, and never more than the text has) and `&hellip;` |
| `TextManipulation.ShortenToWithinRadius` | src/app/visualizer/utils/text-manipulation.ts:34-50 | an empty text gives `''`. A word stage within `maxWidth * lines` is returned as is. Over the budget the label is `''` exactly when `maxWidth < 8`; otherwise it is the word stage's first `k = floor(maxWidth - 3)` characters and `&hellip;`, with `4 < k <= maxWidth - 3` |
| `TextManipulation.ShortenFitsBudget` | src/app/visualizer/utils/text-manipulation.ts:27-50 | for every radius and text, the label is no longer than the budget `maxWidth * lines` it was measured against, so it fits the circle in the sense the doc comment gives |
| `TextManipulation.EllipsWithinBudget` | src/app/visualizer/utils/text-manipulation.ts:46-47 | for lines of eight characters or more, `maxWidth - 3` characters and the 8 characters of `&hellip;` fit the budget |
| `TextManipulation.ShortenOneWord` | src/app/visualizer/utils/text-manipulation.ts:34-50 | a one-word label is the fitted word when that is within the budget, and `addEllips` of it otherwise |
| `TextManipulation.ShortenKeepsFittingText` | src/app/visualizer/utils/text-manipulation.ts:42-49 | a text of non-empty words without whitespace, joined by single spaces, each shorter than `maxWidth` and within the budget as a whole, is returned unchanged |
| `TextManipulation.ShortenRadiusZero` | src/app/visualizer/utils/text-manipulation.ts:36-47 | with radius 0, every non-empty text gives `''` |
| `TextManipulation.ShortenHelloWorld` | src/app/visualizer/utils/text-manipulation.ts:34-50 | radius 100 leaves "hello world" unchanged |
| `TextManipulation.ShortenSmallRadius` | src/app/visualizer/utils/text-manipulation.ts:34-57 | radius 5 turns "ok" into `''`: the word is hard-broken into "-<br>ok" and then over the budget |
| `TextManipulation.ShortenLongWordSmallRadius` | src/app/visualizer/utils/text-manipulation.ts:34-50 | radius 10 turns "hippopotamus" into `''` |
| `TextManipulation.ShortenNegativeRadius` | src/app/visualizer/utils/text-manipulation.ts:34-57 | radius -100 turns "hello" into "-<br>hello", not `''` |
| `TextManipulation.ShortenNegativeOverBudget` | src/app/visualizer/utils/text-manipulation.ts:36-47 | for a negative radius, a non-empty text whose word stage is over the budget gives `''` |
| `TextManipulation.ShortenNegativeRadiusSmall` | src/app/visualizer/utils/text-manipulation.ts:34-57 | radius -1 turns "hello" into `''`: the word stage "-<br>o" is over the budget of about 0.03 |
| `TextManipulation.FitAbcdefg` | src/app/visualizer/utils/text-manipulation.ts:43-57 | with radius 20 the hard break turns "abcdefg" into "abcd-<br>fg", replacing the "e" |
| `TextManipulation.ShortenBreaksWord` | src/app/visualizer/utils/text-manipulation.ts:34-57 | radius 20 turns "abcdefg" into "abcd-<br>fg" (the "e" is lost) |
| `TextManipulation.ShortenRebreaksWord` | src/app/visualizer/utils/text-manipulation.ts:34-57 | radius 20 turns "abcd-<br>fg" into `''` |
| `TextManipulation.ShortenNotFixedPoint` | src/app/visualizer/utils/text-manipulation.ts:34-50 | fitting a fitted label again with the same radius can change it |

## Left out

- **Characters outside the Basic Multilingual Plane.** Strings holding them (surrogate pairs in JavaScript) are not modelled. For every other string a `char` is one UTF-16 code unit and `|s|` is the JavaScript `length`.
- **Rounding.** `radius / 3.1`, `radius / 10` and `maxWidth * lines` are computed in doubles. The model uses exact reals, so a boundary case where double rounding flips a `>=` or `>` comparison is not covered.
- **Numbers that are not finite.** A radius of NaN or infinity is not modelled.
- **Text that is not a string.** `!text` also catches `null` and `undefined`. The model's text is always a string, so only the empty string is covered.
- **Changing the configuration.** `textShortenConfig` can be changed at run time by other modules. The model uses the four constants as the file defines them. `minimumLenght` is named `MinimumLength`.
- **The markers.** `-<br>` and `&hellip;` are treated as opaque strings, not as HTML.
- JsString.Substr: its contract covers the three cases the fitter uses: from position 0, a start with the whole rest, and a negative start with the whole rest. Other cases, such as a positive start with a short length, are defined only by the function body.
- **Other files.** `src/visualizer.ts` (SVG construction, window sizing, the loading indicator and an asynchronous fetch) is not part of this model. Neither are `src/app.ts` (start-up and console logging), `src/model/group-repository.ts` (an asynchronous interface with no behaviour) and `node_modules/types.d3/lib/d3-hierarchy.d.ts` (type declarations of the layout library, whose circle packing is floating-point geometry). The end-to-end property of the controller binding fetched data belongs to this UI glue and is not modelled either.
