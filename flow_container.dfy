/** The flow container itself: a view group whose two passes rebuild the row
    buffers in place (OnMeasure) and then place every child row by row
    (OnLayout).  Each pass is proved against the specification functions of
    FlowRows and FlowPlacement. */
module Container {
  import opened FlowRows
  import opened MeasureFacts
  import opened FlowPlacement

  /** The mode part of an Android MeasureSpec. */
  datatype Mode = Exactly | AtMost | Unspecified

  /** A size handed down by the parent together with its mode. */
  datatype MeasureSpec = MeasureSpec(mode: Mode, size: nat)

  class FlowContainer {
    /** The child views, with the sizes they took in the latest measure
        pass: each pass measures every child again, under specs derived from
        its own, so these change from pass to pass. */
    var children: seq<Child>
    const horizontalSpacing: nat
    const verticalSpacing: nat
    const paddingLeft: int
    const paddingTop: int

    /** mAllLines: the rows, as indices into `children`. */
    var allLines: seq<seq<nat>>
    /** mLineHeights: one height per row. */
    var lineHeights: seq<nat>
    /** What setMeasuredDimension recorded. */
    var measuredWidth: nat
    var measuredHeight: nat

    /** One height per row, and every row names children that exist. */
    ghost predicate Valid()
      reads this
    {
      |allLines| == |lineHeights| && RowsInRange(children, allLines)
    }

    constructor (children: seq<Child>, horizontalSpacing: nat, verticalSpacing: nat,
                 paddingLeft: int, paddingTop: int)
      ensures Valid()
      ensures this.children == children
      ensures this.horizontalSpacing == horizontalSpacing && this.verticalSpacing == verticalSpacing
      ensures this.paddingLeft == paddingLeft && this.paddingTop == paddingTop
      ensures allLines == [] && lineHeights == [] && measuredWidth == 0 && measuredHeight == 0
    {
      this.children := children;
      this.horizontalSpacing := horizontalSpacing;
      this.verticalSpacing := verticalSpacing;
      this.paddingLeft := paddingLeft;
      this.paddingTop := paddingTop;
      allLines := [];
      lineHeights := [];
      measuredWidth := 0;
      measuredHeight := 0;
    }

    /** The measure pass.  `measured` is what `child.measure` gave each child
        under this pass's specs; it replaces the sizes of the previous pass.
        Both buffers are cleared and rebuilt from those children alone, so
        the result does not depend on an earlier pass.  The recorded size is
        the parent's in EXACTLY mode and the content size otherwise, for
        width and height separately. */
    method OnMeasure(widthSpec: MeasureSpec, heightSpec: MeasureSpec, measured: seq<Child>)
      modifies this
      ensures Valid()
      ensures children == measured
      ensures var m := Measure(measured, widthSpec.size, horizontalSpacing, verticalSpacing);
        && allLines == m.lines
        && lineHeights == m.heights
        && measuredWidth == (if widthSpec.mode == Exactly then widthSpec.size else m.parentWidth)
        && measuredHeight == (if heightSpec.mode == Exactly then heightSpec.size else m.parentHeight)
    {
      var dispatchWidth := widthSpec.size;
      var dispatchHeight := heightSpec.size;
      children := measured;

      allLines := [];
      lineHeights := [];
      var lineViews: seq<nat> := [];
      var lineWidth: nat := 0;
      var lineHeight: nat := 0;
      var parentHeight: nat := 0;
      var parentWidth: nat := 0;

      for i := 0 to |children|
        invariant var s := Pass(allLines, lineHeights, lineViews, lineWidth, lineHeight,
                                parentWidth, parentHeight);
          && (i < |children| ==> s == Open(children, i, dispatchWidth, horizontalSpacing, verticalSpacing))
          && (i == |children| ==> s == Measure(children, dispatchWidth, horizontalSpacing, verticalSpacing))
        invariant children == measured
      {
        ghost var before := Pass(allLines, lineHeights, lineViews, lineWidth, lineHeight,
                                 parentWidth, parentHeight);
        var child := children[i];
        if child.visible {
          if child.width + lineWidth + horizontalSpacing > dispatchWidth {
            allLines := allLines + [lineViews];
            lineHeights := lineHeights + [lineHeight];
            parentWidth := Max(parentWidth, lineWidth + horizontalSpacing);
            parentHeight := parentHeight + lineHeight + verticalSpacing;
            lineViews := [];
            lineHeight := 0;
            lineWidth := 0;
          }
          lineViews := lineViews + [i];
          lineWidth := lineWidth + child.width + horizontalSpacing;
          lineHeight := Max(lineHeight, child.height);
          assert Pass(allLines, lineHeights, lineViews, lineWidth, lineHeight, parentWidth, parentHeight)
            == AddChild(before, children, i, dispatchWidth, horizontalSpacing, verticalSpacing)
            == Open(children, i + 1, dispatchWidth, horizontalSpacing, verticalSpacing);
          if i == |children| - 1 {
            allLines := allLines + [lineViews];
            lineHeights := lineHeights + [lineHeight];
            parentHeight := parentHeight + lineHeight + verticalSpacing;
            parentWidth := Max(parentWidth, lineWidth + horizontalSpacing);
          }
        }
      }

      measuredWidth := if widthSpec.mode == Exactly then dispatchWidth else parentWidth;
      measuredHeight := if heightSpec.mode == Exactly then dispatchHeight else parentHeight;
      MeasureSizes(children, dispatchWidth, horizontalSpacing, verticalSpacing);
    }

    /** The layout pass: walks the rows with a top cursor and returns the
        `layout` calls it makes, in order. */
    method OnLayout() returns (placed: seq<Placement>)
      requires Valid()
      ensures placed == Layout(children, allLines, lineHeights, paddingLeft, paddingTop,
                               horizontalSpacing, verticalSpacing)
    {
      var cursorTop := paddingTop;
      placed := [];
      for index := 0 to |allLines|
        invariant RowsInRange(children, allLines[..index])
        invariant cursorTop == paddingTop + TotalHeight(lineHeights[..index], verticalSpacing)
        invariant placed == Layout(children, allLines[..index], lineHeights[..index],
                                   paddingLeft, paddingTop, horizontalSpacing, verticalSpacing)
      {
        var lineViews := allLines[index];
        var lineHeight := lineHeights[index];
        var row := LayoutRow(lineViews, cursorTop);
        placed := placed + row;
        LayoutStep(children, allLines, lineHeights, paddingLeft, paddingTop,
                   horizontalSpacing, verticalSpacing, index);
        cursorTop := cursorTop + lineHeight + verticalSpacing;
      }
      assert allLines[..|allLines|] == allLines;
      assert lineHeights[..|lineHeights|] == lineHeights;
    }

    /** The inner loop of the layout pass: one row, from the left padding,
        with a left cursor that moves past each child and one horizontal
        spacing. */
    method LayoutRow(lineViews: seq<nat>, cursorTop: int) returns (row: seq<Placement>)
      requires InRange(children, lineViews)
      ensures row == RowPlacements(children, lineViews, paddingLeft, cursorTop, horizontalSpacing)
    {
      var cursorLeft := paddingLeft;
      row := [];
      for k := 0 to |lineViews|
        invariant InRange(children, lineViews[..k])
        invariant cursorLeft == paddingLeft + RowWidth(children, lineViews[..k], horizontalSpacing)
        invariant row == RowPlacements(children, lineViews[..k], paddingLeft, cursorTop, horizontalSpacing)
      {
        var it := lineViews[k];
        var left := cursorLeft;
        var top := cursorTop;
        var right := left + children[it].width;
        var bottom := top + children[it].height;
        row := row + [Placement(it, left, top, right, bottom)];
        cursorLeft := right + horizontalSpacing;
        RowPlacementsStep(children, lineViews, paddingLeft, top, horizontalSpacing, k);
      }
      assert lineViews[..|lineViews|] == lineViews;
    }
  }

  /** Measuring twice with the same specs, where the children measure to the
      same sizes both times: the buffers and the recorded size after the
      second pass are those after the first. */
  method MeasureTwice(f: FlowContainer, widthSpec: MeasureSpec, heightSpec: MeasureSpec,
                      measured: seq<Child>)
    returns (lines: seq<seq<nat>>, heights: seq<nat>, width: nat, height: nat)
    modifies f
    ensures lines == f.allLines && heights == f.lineHeights
    ensures width == f.measuredWidth && height == f.measuredHeight
  {
    f.OnMeasure(widthSpec, heightSpec, measured);
    lines, heights, width, height := f.allLines, f.lineHeights, f.measuredWidth, f.measuredHeight;
    f.OnMeasure(widthSpec, heightSpec, measured);
  }

  /** A measure pass followed by a layout pass, as the platform runs them:
      no GONE child is placed, and when the child at the last index is
      visible every visible child is placed exactly once, in input order. */
  method MeasureAndLayout(f: FlowContainer, widthSpec: MeasureSpec, heightSpec: MeasureSpec,
                          measured: seq<Child>)
    returns (placed: seq<Placement>)
    modifies f
    ensures forall q :: 0 <= q < |placed| ==>
      placed[q].child < |measured| && measured[placed[q].child].visible
    ensures LastVisible(measured) ==> |placed| == |Visible(measured, |measured|)|
    ensures LastVisible(measured) ==> forall q :: 0 <= q < |placed| ==>
      placed[q].child == Visible(measured, |measured|)[q]
  {
    f.OnMeasure(widthSpec, heightSpec, measured);
    placed := f.OnLayout();
    PlacedChildren(measured, widthSpec.size, f.horizontalSpacing, f.verticalSpacing,
                   f.allLines, f.lineHeights, f.paddingLeft, f.paddingTop);
  }

  /** The layout of the measured rows places only visible children, and
      when the child at the last index is visible, all of them in order. */
  lemma PlacedChildren(cs: seq<Child>, dw: nat, hs: nat, vs: nat,
                       lines: seq<seq<nat>>, heights: seq<nat>, paddingLeft: int, paddingTop: int)
    requires lines == Measure(cs, dw, hs, vs).lines && heights == Measure(cs, dw, hs, vs).heights
    ensures RowsInRange(cs, lines) && |lines| == |heights|
    ensures forall q :: 0 <= q < |Layout(cs, lines, heights, paddingLeft, paddingTop, hs, vs)| ==>
      && Layout(cs, lines, heights, paddingLeft, paddingTop, hs, vs)[q].child < |cs|
      && cs[Layout(cs, lines, heights, paddingLeft, paddingTop, hs, vs)[q].child].visible
    ensures LastVisible(cs) ==>
      |Layout(cs, lines, heights, paddingLeft, paddingTop, hs, vs)| == |Visible(cs, |cs|)|
    ensures LastVisible(cs) ==> forall q :: 0 <= q < |Visible(cs, |cs|)| ==>
      Layout(cs, lines, heights, paddingLeft, paddingTop, hs, vs)[q].child == Visible(cs, |cs|)[q]
  {
    MeasureRows(cs, dw, hs, vs);
    MeasureSizes(cs, dw, hs, vs);
    LayoutChildren(cs, lines, heights, paddingLeft, paddingTop, hs, vs);
    FlattenVisible(cs, lines);
  }

  /** Every member of rows of visible children is a visible child. */
  lemma FlattenVisible(cs: seq<Child>, rows: seq<seq<nat>>)
    requires RowsInRange(cs, rows) && OnlyVisible(cs, rows)
    ensures forall q :: 0 <= q < |Flatten(rows)| ==> Flatten(rows)[q] < |cs| && cs[Flatten(rows)[q]].visible
  {
    if rows != [] {
      var n := |rows|;
      RowsInRangePrefix(cs, rows, n - 1);
      assert forall j :: 0 <= j < n - 1 ==> rows[..n - 1][j] == rows[j];
      FlattenVisible(cs, rows[..n - 1]);
    }
  }
}
