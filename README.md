# Flow container layout, modelled in Dafny

`FlowContainer` is an Android view group that lays its children out like
words in a paragraph: left to right, wrapping to a new row when the next
child does not fit. It does this in two passes.

- The **measure pass** (`onMeasure`) clears its two row buffers, `mAllLines`
  and `mLineHeights`. It walks the children in order and skips those that are
  `GONE`. Before appending a child to the current row, it tests
  `measuredWidth + lineWidth + mHorizontalSpacing > dispatchWidth`. When the
  test fires, the current row and its height are recorded and a new row is
  started. It then chooses its own size: the parent's size in `EXACTLY` mode,
  otherwise the content size.
- The **layout pass** (`onLayout`) replays the recorded rows. It places each
  child at a left/top cursor and moves the cursor on.

## How the model is organised

- `flow_rows.dfy`, module `FlowRows`: the measure pass as specification
  functions.
  - `Child` is a child's measured width, measured height and visibility.
    `visible` means "not `GONE`" (FlowContainer.kt:58). An `INVISIBLE` child
    still takes its place in a row.
  - `Pass` holds the loop's state: the two buffers, the row being filled
    (`lineViews`, `lineWidth`, `lineHeight`) and the running totals
    (`parentWidth`, `parentHeight`).
  - `Open(cs, k, …)` runs the loop body over the first `k` children, without
    the flush at the last index.
  - `Measure` adds that flush exactly when the child at the last index is
    visible.
  - The row functions say what the results mean: `Flatten`, `Visible`,
    `RowWidth`, `SumWidths`, `RowHeight`, `TotalHeight` and `Widest`.
  - A child is identified by its index in the child list, so a row is a
    `seq<nat>`.
- `greedy_rows.dfy`, module `GreedyRows`: the wrap rule on its own.
  - `Greedy(rows)` holds when every child that joined a row passed the wrap
    test against the members before it, and every row after the first was
    opened by a child that failed the test against the whole previous row.
  - `GreedyUnique` proves that this rule determines the rows.
- `measure_facts.dfy`, module `MeasureFacts`: what `Measure` computes. This
  covers the rows, heights and totals, and the two edge cases of the code.
- `placement.dfy`, module `FlowPlacement`: the layout pass as the sequence of
  `layout(left, top, right, bottom)` calls it makes, with its closed form.
- `flow_container.dfy`, module `Container`: the class `FlowContainer`.
  - `OnMeasure` clears and appends to the `allLines`/`lineHeights` fields in
    place, in a loop proved against `Measure`.
  - `OnLayout` runs the cursor loop over the rows, proved against `Layout`. Its inner loop over one row (the `forEach` body) is the method `LayoutRow`.
  - The two client methods run the passes the way the platform does.
- `scenarios.dfy`, module `Scenarios`: worked cases on concrete children.

### Behaviour as written

The model follows the Kotlin code. In three places the code is not what a
quick reading of a flow layout suggests:

- **No empty-row guard.** The wrap test (FlowContainer.kt:74) does not check
  whether the row is empty. A first child that fails the test leaves an empty
  row 0 of height 0 in front of it (`MeasureFirstRow`, `OversizedFirstChild`).
  Only row 0 can be empty.
- **The last row is recorded only when the last child is visible.** The flush
  happens when the child at index `childCount - 1` is visible
  (FlowContainer.kt:94). When that child is `GONE`, the row being filled is
  never recorded. Its children are placed nowhere, and the totals do not
  count it (`MeasureDropsPendingRow`, `TrailingGoneChildLosesRow`).
- **Trailing spacing.** A row's width already holds one horizontal spacing per
  member (FlowContainer.kt:90), and folding it into `parentWidth` adds one more
  (:79, :98). `parentHeight` also counts a vertical spacing after the last row
  (`TrailingVerticalSpacing`). The wrap threshold is the raw `dispatchWidth`,
  not reduced by padding.

## Model

| member | source | states |
|---|---|---|
| `Container.FlowContainer.constructor` | View/src/main/java/com/abala/view/FlowContainer.kt:29-36 | A new container holds the given children, spacings and paddings. Both row buffers start empty. The field initialisers at :33-36 leave both lists empty. |
| `Container.FlowContainer.OnMeasure` | View/src/main/java/com/abala/view/FlowContainer.kt:38-116 | The pass takes the children as `child.measure` sized them under this pass's specs. They replace the previous pass's children, and `OnLayout` reads them. Both buffers are rebuilt in place from those children and the width spec alone, to `Measure`'s rows and heights. The recorded width is the parent's size in EXACTLY mode and the content width otherwise; height follows the same rule. The class invariant (one height per row) is kept. |
| `Container.FlowContainer.OnLayout` | View/src/main/java/com/abala/view/FlowContainer.kt:122-143 | The nested cursor loops make exactly the `layout` calls of `Layout` over the recorded rows and heights, in order. |
| `Container.FlowContainer.LayoutRow` | View/src/main/java/com/abala/view/FlowContainer.kt:129-137 | The inner loop over one row makes exactly that row's `layout` calls. The cursor starts at the left padding and moves past each child plus one horizontal spacing. |
| `Container.MeasureTwice` | View/src/main/java/com/abala/view/FlowContainer.kt:43-45 | Idempotence: after a second measure pass with the same specs, where the children measure to the same sizes again, the rows, heights and recorded size equal those after the first. |
| `Container.MeasureAndLayout` | View/src/main/java/com/abala/view/FlowContainer.kt:55-58 | After a measure pass over the given measured children and a layout pass, no GONE child is placed. When the child at the last index is visible, the placed children are exactly the visible children, each once, in input order. |
| `MeasureFacts.MeasureSizes` | View/src/main/java/com/abala/view/FlowContainer.kt:76-99 | One height per recorded row, each equal to the tallest member of its row (0 for an empty row). `parentHeight` is the sum over recorded rows of (height + vertical spacing). `parentWidth` is the largest (row width + horizontal spacing). |
| `MeasureFacts.MeasureRows` | View/src/main/java/com/abala/view/FlowContainer.kt:55-99 | No GONE child is in any row. With the last child visible, the recorded rows joined in order are exactly the visible children in input order, and they obey the wrap rule. Otherwise this holds of the recorded rows plus the pending one. |
| `MeasureFacts.MeasureIsTheGreedyPartition` | View/src/main/java/com/abala/view/FlowContainer.kt:74-91 | With the last child visible, any partition of the visible children, in order, that obeys the wrap rule equals the recorded rows. |
| `MeasureFacts.MeasureFirstRow` | View/src/main/java/com/abala/view/FlowContainer.kt:74-86 | With the last child visible, row 0 is recorded empty, with height 0, exactly when the first visible child fails the wrap test against an empty row. Every later row is non-empty. |
| `MeasureFacts.MeasureDropsPendingRow` | View/src/main/java/com/abala/view/FlowContainer.kt:94-99 | When the child at the last index is GONE and some child is visible, the pending row is non-empty and none of its children is in a recorded row. |
| `MeasureFacts.MeasureNothingVisible` | View/src/main/java/com/abala/view/FlowContainer.kt:52-58 | With no visible child (in particular, no children), no row is recorded and both totals are 0. |
| `MeasureFacts.OpenRows` | View/src/main/java/com/abala/view/FlowContainer.kt:74-91 | At every point of the loop, the recorded rows plus the row being filled hold only visible children, join to the visible children seen so far, and obey the wrap rule. |
| `MeasureFacts.OpenSized` | View/src/main/java/com/abala/view/FlowContainer.kt:76-91 | At every point of the loop, each recorded height is its row's tallest member. `lineWidth` and `lineHeight` are the width and height of the row being filled. The totals are the sum and the maximum over the recorded rows. |
| `MeasureFacts.FlushSized` | View/src/main/java/com/abala/view/FlowContainer.kt:77-80 | Recording the pending row keeps heights and totals consistent with the rows. |
| `MeasureFacts.AddChildGrows` | View/src/main/java/com/abala/view/FlowContainer.kt:74-91 | On rows, one visible child either opens a new row, when the wrap test fires against the row being filled, or joins that row. |
| `MeasureFacts.OpenNoneVisible` | View/src/main/java/com/abala/view/FlowContainer.kt:55-58 | A loop that has seen no visible child is still in its starting state. |
| `GreedyRows.GreedyGrow` | View/src/main/java/com/abala/view/FlowContainer.kt:74-91 | One more child, wrapped or appended by the test, keeps the rows obeying the wrap rule. The child is appended to the joined rows. |
| `GreedyRows.GreedyShrink` | View/src/main/java/com/abala/view/FlowContainer.kt:74-91 | Taking the last child off rows that obey the wrap rule leaves rows that obey it. Adding the child back by the rule restores the original rows. |
| `GreedyRows.GreedyUnique` | View/src/main/java/com/abala/view/FlowContainer.kt:74-91 | Two partitions of the same children, in the same order, that both obey the wrap rule are equal. |
| `GreedyRows.GreedyFirstRow` | View/src/main/java/com/abala/view/FlowContainer.kt:74-86 | In rows obeying the wrap rule, only row 0 can be empty. It is empty exactly when the first child fails the test against an empty row. |
| `GreedyRows.GrowOnlyVisible` | View/src/main/java/com/abala/view/FlowContainer.kt:58 | Adding a visible child keeps every row free of GONE children. |
| `FlowPlacement.RowWidthSplit` | View/src/main/java/com/abala/view/FlowContainer.kt:90 | A row's `lineWidth` is the sum of its members' widths plus one horizontal spacing per member. |
| `FlowPlacement.RowPlacementAt` | View/src/main/java/com/abala/view/FlowContainer.kt:129-137 | In a row, the k-th member's left edge is the row's left plus the widths of earlier members plus k spacings. Its right - left and bottom - top are its measured width and height. |
| `FlowPlacement.LayoutChildren` | View/src/main/java/com/abala/view/FlowContainer.kt:127-141 | The layout pass makes one call per row member, in row order and left to right. |
| `FlowPlacement.LayoutAt` | View/src/main/java/com/abala/view/FlowContainer.kt:125-141 | The k-th child of row j has left = paddingLeft + (earlier widths in the row) + k·horizontal spacing. Its top = paddingTop + Σ over earlier rows of (height + vertical spacing). It keeps its measured width and height. The cursor returns to paddingLeft at each row. |
| `FlowPlacement.LayoutFits` | View/src/main/java/com/abala/view/FlowContainer.kt:74 | On rows obeying the wrap rule, each child that did not open a row has its right edge at least one horizontal spacing before paddingLeft + dispatchWidth. |
| `Scenarios.ThreeChildrenWrapOnce` | View/src/main/java/com/abala/view/FlowContainer.kt:74-99 | Width 100, no spacing, three children 40 wide: the rows are [0, 1] and [2]. |
| `Scenarios.OversizedFirstChild` | View/src/main/java/com/abala/view/FlowContainer.kt:74-86 | A single child 150 wide in a container 100 wide: the rows are an empty row of height 0, then the child. |
| `Scenarios.TrailingGoneChildLosesRow` | View/src/main/java/com/abala/view/FlowContainer.kt:94 | A visible child followed by a GONE one: no row is recorded and the content size is 0. |
| `Scenarios.TrailingVerticalSpacing` | View/src/main/java/com/abala/view/FlowContainer.kt:94-99 | The measure pass over three children 60 wide, in a container 100 wide with vertical spacing 5, gives rows [0], [1], [2] of height 10. The content height `parentHeight` is 45, not 40: the last row's flush also adds a spacing. |
| `Scenarios.SecondRowTop` | View/src/main/java/com/abala/view/FlowContainer.kt:139 | Rows of heights 20 and 30, vertical spacing 5, top padding 10: the second row's top is 35. |

## Left out

- `AnimatedTextLogoView` (the other widget) is not part of this model. Its
  geometry is floating-point text measurement. It places glyphs at random
  positions. It is driven by animator callbacks and canvas drawing.
- Child measurement (`getChildMeasureSpec` and `child.measure`,
  FlowContainer.kt:60-71) is platform code. `OnMeasure` takes each pass's
  result as its parameter `measured` and stores it for `OnLayout`. How the
  sizes follow from the container's specs is not modelled, and neither are
  the paddings that only feed it (start, end, bottom).
- `MeasureTwice` assumes that child measurement is deterministic: the idempotence it
  states needs the same measured children in both passes. With other specs
  the children may measure differently, and the two passes need not agree.
- `dp2px` (FlowContainer.kt:153-157) converts through the display metrics in
  floating point. The spacings are non-negative integer parameters instead.
- `MeasureSpec` bit packing is not modelled: a spec is a (mode, size) pair,
  and `getSize`/`getMode` are field reads.
- `onSizeChanged`, `onDraw` and `onTouchEvent` only call the superclass. The
  logging call in the measure loop has no effect on the result.
- Kotlin `Int` is 32-bit; the model uses unbounded integers with
  non-negative sizes and spacings, so overflow is not modelled.
- `onLayout` ignores its `changed, l, t, r, b` arguments. The model returns
  the `layout` calls it would make rather than invoking them on view objects.
- Views are identified by their index in the child list. `mAllLines` keeps a
  reference to the `lineViews` list. That list is never changed after it is
  stored (it is replaced at a wrap, and the loop ends after the last flush),
  so a value sequence gives the same rows. The null check on
  `getChildAt(i)` is not modelled, since the index is always in range.
