# Justified gallery layout and image captions

This project models the two pieces of `js/gallery.js` that carry real logic,
and proves properties of them in Dafny.

- **Justified rows** (`layoutJustified`, module `JustifiedLayout` in
  `justified_layout.dfy`). Items are given by their aspect ratios
  (width / height). A greedy single pass groups them into rows. It closes a
  row as soon as the row's estimated width at the target height is at least
  the container width, as long as the row holds two items or more. Items
  left over form the last row. Every row but the last then gets the height
  that makes it fill the container exactly. The last row keeps the target
  height. Every item gets the width `ratio * rowHeight`.
  - The grouping loop is the method `GroupRows`. Its loop invariants tie it
    to the pure function `Group`.
  - `ValidGrouping` states what a grouping must be, without the loop: an
    in-order partition into non-empty rows, where every row but the last
    met the closing test and no row could have closed earlier. `Group`
    satisfies it (`GroupIsValid`), and `Group` is the only grouping that
    does (`GroupIsUnique`).
  - The per-row and per-item sizing is pure functions (`RowHeight`,
    `ItemWidths`, `SizeRow`, `SizeRows`, `Pack`).
  - `LayoutJustified` is the whole call: what happens when the container
    has no width, when there are no items, and otherwise.
- **Captions** (`titleFromSrc`, module `Caption` in `caption.dfy`). It takes
  the last path segment and trims it. It strips a final extension. It turns
  runs of `_`/`-`, and then runs of whitespace, into single spaces, and trims
  again. Each JavaScript string operation is a function with its own
  contract: `LastSegment`, `Trim`, `StripExtension` and `CollapseRuns`.
- **Worked examples** (module `Scenarios` in `scenarios.dfy`): three concrete
  layouts, computed and checked by the verifier.

Numbers are exact reals. The inputs that the code reads from the page are
parameters (`Params`): the container's `clientWidth`, the target row height,
the row gap, and the frame padding plus border that `getFrameExtraX` measures.
Strings are sequences of Unicode scalar values. Every character the caption
code tests (`/`, `.`, `_`, `-` and JavaScript's whitespace) lies in the Basic
Multilingual Plane outside the surrogate range. Such a character is one UTF-16
code unit in JavaScript and one character here. `IsSpace` is the fixed set of
characters that both `trim()` and the regular expression `\s` treat as
whitespace.

Behaviour of the code that the model keeps:
- With an empty item list, the code throws at js/gallery.js:80. There
  `getFrameExtraX(items[0])` receives `undefined`. `LayoutJustified` returns
  `FrameProbeFails` for this case. The only caller never passes an empty
  list (js/gallery.js:151-154).
- The code divides without any floor (js/gallery.js:119), so a stretched
  height can be zero or negative. `StretchedHeightPositive` says exactly when
  it is positive.
- Stretch exactness is proved over exact reals, before `Math.round` rounds
  the rendered sizes.

## Model

| member | source | states |
|---|---|---|
| `JustifiedLayout.OverheadFormula` | js/gallery.js:94-95 | the width reserved for a row of n items, built up one item at a time, is gap × (n − 1) plus frameExtraX × n |
| `JustifiedLayout.EstimateFormula` | js/gallery.js:92-96 | the estimate the closing test uses is the ratio sum times the target height plus gaps plus frames |
| `JustifiedLayout.GroupRows` | js/gallery.js:84-104 | the grouping loop, with its running ratio sum, emits exactly the rows of `Group` |
| `JustifiedLayout.GroupFromValid` | js/gallery.js:88-104 | the greedy pass, started from a pending row that never met the closing test, yields a valid grouping of the pending row followed by the remaining items |
| `JustifiedLayout.GroupIsValid` | js/gallery.js:84-104 | the emitted rows concatenate back to the input in order; no row is empty; every row but the last has at least 2 items and an estimate of at least the container width; no proper prefix of a row met the closing test (greedy minimality) |
| `JustifiedLayout.GroupFromUnique` | js/gallery.js:88-104 | any valid grouping of a never-closed pending row plus the remaining items is the one the greedy pass builds |
| `JustifiedLayout.GroupIsUnique` | js/gallery.js:84-104 | the properties of `GroupIsValid` determine the rows: the greedy grouping is the only grouping that has them |
| `JustifiedLayout.SumPositive` | js/gallery.js:114-119 | a non-empty row of positive ratios has a positive ratio sum, so the stretch division is defined |
| `JustifiedLayout.RowHeight` | js/gallery.js:106-119 | the last row's height is the target height; any other row's height times its ratio sum, plus gaps and frames, equals the container width exactly |
| `JustifiedLayout.StretchedHeightPositive` | js/gallery.js:117-119 | a stretched row's height is positive exactly when the width left after gaps and frames is positive |
| `JustifiedLayout.ItemWidths` | js/gallery.js:125-126 | one width per item, each the item's ratio times the shared row height |
| `JustifiedLayout.SumOfWidths` | js/gallery.js:114-126 | widths that are each ratio times the row height add up to the ratio sum times that height |
| `JustifiedLayout.AspectPreserved` | js/gallery.js:126 | width divided by the row height gives back the item's ratio |
| `JustifiedLayout.SizeRow` | js/gallery.js:106-126 | all items share the row height and keep their aspect; a stretched row's total width (images, gaps, frames) equals the container width; the last row keeps the target height, and its total width equals its estimate |
| `JustifiedLayout.SizeRows` | js/gallery.js:106-126 | sizes every row in order: every row but the last fills the container exactly, and the last keeps the target height |
| `JustifiedLayout.FlattenPositive` | js/gallery.js:88-104 | every row of a partition of positive ratios consists of positive ratios |
| `JustifiedLayout.Pack` | js/gallery.js:84-126 | the full layout: the rows of `Group` form a valid grouping; no input gives no rows; each row's items share its height and keep their aspect; every non-last row fills the container exactly; the last row is at the target height |
| `JustifiedLayout.LayoutJustified` | js/gallery.js:72-126 | a zero container width leaves the gallery untouched; otherwise an empty item list fails at the frame probe; otherwise the gallery gets the non-empty rows of `Pack` |
| `Scenarios.ThreeSquaresStayOneRow` | js/gallery.js:84-126 | three squares, container 900, target 240, gap 10: one row at height 240 with widths 240 |
| `Scenarios.SixSquaresGroupInThrees` | js/gallery.js:84-104 | six squares, container 600, target 200: the estimate reaches exactly 600 at three items, so the rows are two rows of three |
| `Scenarios.ThreeSquaresStretchTo200` | js/gallery.js:106-126 | three squares stretched into 600 with no gaps or frames: height 200, every width 200 |
| `Scenarios.SixSquaresFillExactly` | js/gallery.js:84-126 | six squares, container 600, target 200: two rows of three; the first is stretched to exactly 200 and the last kept at 200 |
| `Scenarios.PanoramaSharesItsRow` | js/gallery.js:88-104 | a 3.5 panorama wider than the container does not close a row alone: rows are [3.5, 1] and [1] |
| `Caption.LastSegment` | js/gallery.js:2 | the result has no '/' and is a suffix of the path that is either the whole path or directly preceded by '/' |
| `Caption.LastSegmentAfterSlash` | js/gallery.js:2 | whatever comes before a '/' does not change the last segment |
| `Caption.DropRun` | js/gallery.js:5-6 | removes exactly the leading run of characters of the class |
| `Caption.CollapseRuns` | js/gallery.js:5-6 | the shape of the result: no class character other than ' ' is left; no two class characters are adjacent; only ' ' is ever added; a string without class characters is unchanged (so the empty string stays empty); the first character is kept, or becomes ' ' if it was in the class |
| `Caption.DropRunSplit` | js/gallery.js:5-6 | a leading run ends at the first character outside the class; everything from there on is kept |
| `Caption.CollapseRunsSplit` | js/gallery.js:5-6 | a character outside the class is kept, and the parts before and after it are collapsed on their own |
| `Caption.CollapseRunsWholeRun` | js/gallery.js:5-6 | a non-empty string made only of class characters becomes exactly " "; with `CollapseRunsSplit` and the empty case this fixes the result of every input |
| `Caption.CollapseRunsFixedPoint` | js/gallery.js:5-6 | a string whose class characters are lone spaces is unchanged |
| `Caption.CollapseWhitespaceIdempotent` | js/gallery.js:6 | collapsing whitespace twice is the same as once |
| `Caption.TrimStart` | js/gallery.js:2 | drops exactly the leading whitespace |
| `Caption.TrimEnd` | js/gallery.js:7 | drops exactly the trailing whitespace |
| `Caption.TrimKeepsMiddle` | js/gallery.js:2 | trim keeps exactly the contiguous part that starts after the leading whitespace, with only whitespace before and after it |
| `Caption.Trim` | js/gallery.js:2 | no whitespace at either end; a string already without it is unchanged; adds no character; keeps "no two adjacent whitespace" |
| `Caption.LastDot` | js/gallery.js:3 | the index of the last '.' (or -1): a '.' with none after it |
| `Caption.ExtensionAtUnique` | js/gallery.js:3 | the pattern `\.[^.]+$` matches at one position at most |
| `Caption.StripExtension` | js/gallery.js:3 | the result is a prefix of the name: exactly the part before the match when the pattern matches, and the whole name otherwise |
| `Caption.StripExtensionRemovesLast` | js/gallery.js:3 | `base + "." + ext` with a non-empty, dot-free `ext` gives `base` (so "a.b.c" gives "a.b") |
| `Caption.StripExtensionKeepsTrailingDot` | js/gallery.js:3 | a name that ends in '.' is left unchanged |
| `Caption.CollapsedName` | js/gallery.js:4-6 | after both run replacements, a name without '/' has no '/', '_' or '-', only plain spaces as whitespace, and never two adjacent |
| `Caption.TrimmedName` | js/gallery.js:7 | trimming such a name gives a caption of the required shape |
| `Caption.TitleFromSrc` | js/gallery.js:1-8 | the caption has no '/', '_' or '-'; it has no leading or trailing whitespace; its only whitespace is plain spaces; no two are adjacent |
| `Caption.TitleIgnoresDirectories` | js/gallery.js:1-8 | `titleFromSrc(dir + "/" + name)` equals `titleFromSrc(name)` |

## Left out

- `createLightbox` (js/gallery.js:10-50): DOM construction and event listeners.
- `getFrameExtraX` (js/gallery.js:58-70): it reads computed CSS. Its result is the parameter `frameExtraX`.
- DOM writes in `layoutJustified` (js/gallery.js:82, 121-135): clearing the gallery, building the row elements, writing style strings.
- `Math.round` of the rendered sizes (js/gallery.js:128-129): the model proves its equations before rounding.
- Floating point: sums, products and quotients are exact reals, so rounding in the running ratio sum is not modelled.
- `loadGallery` (js/gallery.js:139-249): fetching the manifest, waiting for images, computing ratios from `naturalWidth/naturalHeight`, the mobile media query, measuring the row gap, and the resize debounce. This is all I/O, asynchrony or browser state.
- JavaScript strings can hold lone surrogate code units; Unicode scalar values cannot. This changes no caption, because every character the caption code tests is outside the surrogate range.
- Items are modelled by their ratios alone. The DOM elements they carry play no part in the layout.
- JustifiedLayout.RowHeight: requires a non-zero ratio sum for a stretched row. JavaScript would produce Infinity or NaN, which reals cannot represent.
- JustifiedLayout.SizeRows: requires non-empty rows of positive ratios, for the same reason.
- JustifiedLayout.Pack: requires positive ratios. The code defaults a ratio to 1 only before the image loads (js/gallery.js:191), and never normalises a bad one.
- JustifiedLayout.LayoutJustified: requires positive ratios, for the same reason as `Pack`.
