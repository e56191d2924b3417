/** The layout pass of the flow container (FlowContainer.onLayout), as
    specification functions: the sequence of `layout(left, top, right,
    bottom)` calls it makes on its children, in order. */
module FlowPlacement {
  import opened FlowRows
  import opened GreedyRows

  /** One call `child.layout(left, top, right, bottom)`. */
  datatype Placement = Placement(child: nat, left: int, top: int, right: int, bottom: int)

  /** The child placed at (left, top) with its measured size. */
  function PlaceAt(cs: seq<Child>, i: nat, left: int, top: int): Placement
    requires i < |cs|
  {
    Placement(i, left, top, left + cs[i].width, top + cs[i].height)
  }

  /** The calls for one row: each member starts where the previous one ended
      plus one horizontal spacing. */
  function RowPlacements(cs: seq<Child>, row: seq<nat>, left: int, top: int, hs: nat): seq<Placement>
    requires InRange(cs, row)
  {
    if row == [] then []
    else
      var n := |row|;
      RowPlacements(cs, row[..n - 1], left, top, hs)
        + [PlaceAt(cs, row[n - 1], left + RowWidth(cs, row[..n - 1], hs), top)]
  }

  /** The calls for all rows: each row starts at the left padding, below the
      previous rows and one vertical spacing after each. */
  function Layout(cs: seq<Child>, lines: seq<seq<nat>>, heights: seq<nat>,
                  paddingLeft: int, paddingTop: int, hs: nat, vs: nat): seq<Placement>
    requires RowsInRange(cs, lines) && |lines| == |heights|
  {
    if lines == [] then []
    else
      var n := |lines|;
      Layout(cs, lines[..n - 1], heights[..n - 1], paddingLeft, paddingTop, hs, vs)
        + RowPlacements(cs, lines[n - 1], paddingLeft, paddingTop + TotalHeight(heights[..n - 1], vs), hs)
  }

  /** A row's width in the measure pass is the sum of its members' widths
      plus one horizontal spacing per member. */
  lemma {:induction false} RowWidthSplit(cs: seq<Child>, row: seq<nat>, hs: nat)
    requires InRange(cs, row)
    ensures RowWidth(cs, row, hs) == SumWidths(cs, row) + |row| * hs
  {
    if row != [] {
      RowWidthSplit(cs, row[..|row| - 1], hs);
    }
  }

  lemma {:induction false} RowPlacementsLength(cs: seq<Child>, row: seq<nat>, left: int, top: int, hs: nat)
    requires InRange(cs, row)
    ensures |RowPlacements(cs, row, left, top, hs)| == |row|
  {
    if row != [] {
      RowPlacementsLength(cs, row[..|row| - 1], left, top, hs);
    }
  }

  /** The k-th member of a row is placed at the row's left edge plus the
      widths of the members before it plus k horizontal spacings, with its
      own measured width and height. */
  lemma {:induction false} RowPlacementAt(cs: seq<Child>, row: seq<nat>, left: int, top: int, hs: nat, k: nat)
    requires InRange(cs, row) && k < |row|
    ensures InRange(cs, row[..k])
    ensures |RowPlacements(cs, row, left, top, hs)| == |row|
    ensures var x := left + SumWidths(cs, row[..k]) + k * hs;
      RowPlacements(cs, row, left, top, hs)[k]
        == Placement(row[k], x, top, x + cs[row[k]].width, top + cs[row[k]].height)
  {
    var n := |row|;
    var init := row[..n - 1];
    RowPlacementsLength(cs, row, left, top, hs);
    RowPlacementsLength(cs, init, left, top, hs);
    if k < n - 1 {
      RowPlacementAt(cs, init, left, top, hs, k);
      assert init[..k] == row[..k] && init[k] == row[k];
    } else {
      assert row[..k] == init;
      RowWidthSplit(cs, init, hs);
    }
  }

  lemma {:induction false} LayoutLength(cs: seq<Child>, lines: seq<seq<nat>>, heights: seq<nat>,
                                        paddingLeft: int, paddingTop: int, hs: nat, vs: nat)
    requires RowsInRange(cs, lines) && |lines| == |heights|
    ensures |Layout(cs, lines, heights, paddingLeft, paddingTop, hs, vs)| == |Flatten(lines)|
  {
    if lines != [] {
      var n := |lines|;
      LayoutSplit(cs, lines, heights, paddingLeft, paddingTop, hs, vs);
      LayoutLength(cs, lines[..n - 1], heights[..n - 1], paddingLeft, paddingTop, hs, vs);
      RowPlacementsLength(cs, lines[n - 1], paddingLeft, paddingTop + TotalHeight(heights[..n - 1], vs), hs);
    }
  }

  lemma {:induction false} LayoutChildAt(cs: seq<Child>, lines: seq<seq<nat>>, heights: seq<nat>,
                                         paddingLeft: int, paddingTop: int, hs: nat, vs: nat, q: nat)
    requires RowsInRange(cs, lines) && |lines| == |heights| && q < |Flatten(lines)|
    ensures |Layout(cs, lines, heights, paddingLeft, paddingTop, hs, vs)| == |Flatten(lines)|
    ensures Layout(cs, lines, heights, paddingLeft, paddingTop, hs, vs)[q].child == Flatten(lines)[q]
  {
    var n := |lines|;
    var top := paddingTop + TotalHeight(heights[..n - 1], vs);
    var front: seq<Placement> := Layout(cs, lines[..n - 1], heights[..n - 1], paddingLeft, paddingTop, hs, vs);
    var row: seq<Placement> := RowPlacements(cs, lines[n - 1], paddingLeft, top, hs);
    LayoutLength(cs, lines, heights, paddingLeft, paddingTop, hs, vs);
    LayoutLength(cs, lines[..n - 1], heights[..n - 1], paddingLeft, paddingTop, hs, vs);
    assert Flatten(lines) == Flatten(lines[..n - 1]) + lines[n - 1];
    if q < |front| {
      LayoutChildAt(cs, lines[..n - 1], heights[..n - 1], paddingLeft, paddingTop, hs, vs, q);
    } else {
      RowPlacementAt(cs, lines[n - 1], paddingLeft, top, hs, q - |front|);
    }
  }

  /** The layout pass places exactly the members of the rows, in row order
      and left to right within a row, one call each. */
  lemma LayoutChildren(cs: seq<Child>, lines: seq<seq<nat>>, heights: seq<nat>,
                       paddingLeft: int, paddingTop: int, hs: nat, vs: nat)
    requires RowsInRange(cs, lines) && |lines| == |heights|
    ensures |Layout(cs, lines, heights, paddingLeft, paddingTop, hs, vs)| == |Flatten(lines)|
    ensures forall q :: 0 <= q < |Flatten(lines)| ==>
      Layout(cs, lines, heights, paddingLeft, paddingTop, hs, vs)[q].child == Flatten(lines)[q]
  {
    LayoutLength(cs, lines, heights, paddingLeft, paddingTop, hs, vs);
    forall q | 0 <= q < |Flatten(lines)|
      ensures Layout(cs, lines, heights, paddingLeft, paddingTop, hs, vs)[q].child == Flatten(lines)[q]
    {
      LayoutChildAt(cs, lines, heights, paddingLeft, paddingTop, hs, vs, q);
    }
  }

  /** The layout of all rows is the layout of the rows before the last one
      followed by the last row, placed below them. */
  lemma LayoutSplit(cs: seq<Child>, lines: seq<seq<nat>>, heights: seq<nat>,
                    paddingLeft: int, paddingTop: int, hs: nat, vs: nat)
    requires RowsInRange(cs, lines) && |lines| == |heights| && lines != []
    ensures RowsInRange(cs, lines[..|lines| - 1])
    ensures var n := |lines|;
      Layout(cs, lines, heights, paddingLeft, paddingTop, hs, vs)
        == Layout(cs, lines[..n - 1], heights[..n - 1], paddingLeft, paddingTop, hs, vs)
          + RowPlacements(cs, lines[n - 1], paddingLeft, paddingTop + TotalHeight(heights[..n - 1], vs), hs)
  {
    RowsInRangePrefix(cs, lines, |lines| - 1);
  }

  /** A member of a row before the last lies before the last row in the
      joined rows. */
  lemma FlattenIndexBefore(lines: seq<seq<nat>>, j: nat, k: nat)
    requires j < |lines| - 1 && k < |lines[j]|
    ensures |Flatten(lines[..j])| + k < |Flatten(lines[..|lines| - 1])|
  {
    var before := lines[..|lines| - 1];
    assert before[..j] == lines[..j];
    assert before[..j + 1] == lines[..j] + [lines[j]];
    FlattenSnoc(lines[..j], lines[j]);
    FlattenPrefix(before, j + 1);
  }

  /** The closed form for the last row. */
  lemma LayoutAtLast(cs: seq<Child>, lines: seq<seq<nat>>, heights: seq<nat>,
                     paddingLeft: int, paddingTop: int, hs: nat, vs: nat, j: nat, k: nat)
    requires RowsInRange(cs, lines) && |lines| == |heights|
    requires j == |lines| - 1 && k < |lines[j]|
    ensures InRange(cs, lines[j][..k])
    ensures |Flatten(lines[..j])| + k < |Layout(cs, lines, heights, paddingLeft, paddingTop, hs, vs)|
    ensures var left := paddingLeft + SumWidths(cs, lines[j][..k]) + k * hs;
      var top := paddingTop + TotalHeight(heights[..j], vs);
      Layout(cs, lines, heights, paddingLeft, paddingTop, hs, vs)[|Flatten(lines[..j])| + k]
        == Placement(lines[j][k], left, top, left + cs[lines[j][k]].width, top + cs[lines[j][k]].height)
  {
    var n := |lines|;
    var top := paddingTop + TotalHeight(heights[..n - 1], vs);
    LayoutSplit(cs, lines, heights, paddingLeft, paddingTop, hs, vs);
    var front: seq<Placement> := Layout(cs, lines[..n - 1], heights[..n - 1], paddingLeft, paddingTop, hs, vs);
    var row: seq<Placement> := RowPlacements(cs, lines[n - 1], paddingLeft, top, hs);
    LayoutLength(cs, lines[..n - 1], heights[..n - 1], paddingLeft, paddingTop, hs, vs);
    RowPlacementAt(cs, lines[n - 1], paddingLeft, top, hs, k);
    assert (front + row)[|front| + k] == row[k];
  }

  /** Closed form of the layout pass: the k-th member of row j has
      left = paddingLeft + (widths of the members before it) + k * hs,
      top = paddingTop + sum over earlier rows of (height + vs),
      and right - left, bottom - top its measured width and height. */
  lemma {:induction false} LayoutAt(cs: seq<Child>, lines: seq<seq<nat>>, heights: seq<nat>,
                                    paddingLeft: int, paddingTop: int, hs: nat, vs: nat, j: nat, k: nat)
    requires RowsInRange(cs, lines) && |lines| == |heights|
    requires j < |lines| && k < |lines[j]|
    ensures InRange(cs, lines[j][..k])
    ensures |Flatten(lines[..j])| + k < |Layout(cs, lines, heights, paddingLeft, paddingTop, hs, vs)|
    ensures var left := paddingLeft + SumWidths(cs, lines[j][..k]) + k * hs;
      var top := paddingTop + TotalHeight(heights[..j], vs);
      Layout(cs, lines, heights, paddingLeft, paddingTop, hs, vs)[|Flatten(lines[..j])| + k]
        == Placement(lines[j][k], left, top, left + cs[lines[j][k]].width, top + cs[lines[j][k]].height)
  {
    var n := |lines|;
    if j == n - 1 {
      LayoutAtLast(cs, lines, heights, paddingLeft, paddingTop, hs, vs, j, k);
    } else {
      var before := lines[..n - 1];
      var top := paddingTop + TotalHeight(heights[..n - 1], vs);
      LayoutSplit(cs, lines, heights, paddingLeft, paddingTop, hs, vs);
      var front: seq<Placement> := Layout(cs, before, heights[..n - 1], paddingLeft, paddingTop, hs, vs);
      var row: seq<Placement> := RowPlacements(cs, lines[n - 1], paddingLeft, top, hs);
      var at := |Flatten(lines[..j])| + k;
      LayoutLength(cs, before, heights[..n - 1], paddingLeft, paddingTop, hs, vs);
      LayoutAt(cs, before, heights[..n - 1], paddingLeft, paddingTop, hs, vs, j, k);
      assert before[..j] == lines[..j];
      assert heights[..n - 1][..j] == heights[..j];
      assert before[j] == lines[j];
      FlattenIndexBefore(lines, j, k);
      assert (front + row)[at] == front[at];
    }
  }

  /** One more member of a row: its call follows those of the members
      before it, at the row's left edge plus their width. */
  lemma RowPlacementsStep(cs: seq<Child>, row: seq<nat>, left: int, top: int, hs: nat, k: nat)
    requires InRange(cs, row) && k < |row|
    ensures InRange(cs, row[..k]) && InRange(cs, row[..k + 1])
    ensures RowWidth(cs, row[..k + 1], hs) == RowWidth(cs, row[..k], hs) + cs[row[k]].width + hs
    ensures RowPlacements(cs, row[..k + 1], left, top, hs)
      == RowPlacements(cs, row[..k], left, top, hs)
        + [PlaceAt(cs, row[k], left + RowWidth(cs, row[..k], hs), top)]
  {
    assert row[..k + 1][..k] == row[..k];
    assert row[..k + 1] == row[..k] + [row[k]];
    RowSnoc(cs, row[..k], row[k], hs);
  }

  /** One more row: its calls follow those of the rows before it, one
      (height + vertical spacing) lower per earlier row. */
  lemma LayoutStep(cs: seq<Child>, lines: seq<seq<nat>>, heights: seq<nat>,
                   paddingLeft: int, paddingTop: int, hs: nat, vs: nat, m: nat)
    requires RowsInRange(cs, lines) && |lines| == |heights| && m < |lines|
    ensures RowsInRange(cs, lines[..m]) && RowsInRange(cs, lines[..m + 1])
    ensures TotalHeight(heights[..m + 1], vs) == TotalHeight(heights[..m], vs) + heights[m] + vs
    ensures Layout(cs, lines[..m + 1], heights[..m + 1], paddingLeft, paddingTop, hs, vs)
      == Layout(cs, lines[..m], heights[..m], paddingLeft, paddingTop, hs, vs)
        + RowPlacements(cs, lines[m], paddingLeft, paddingTop + TotalHeight(heights[..m], vs), hs)
  {
    RowsInRangePrefix(cs, lines, m);
    RowsInRangePrefix(cs, lines, m + 1);
    assert lines[..m + 1][..m] == lines[..m];
    assert heights[..m + 1][..m] == heights[..m];
    assert heights[..m + 1] == heights[..m] + [heights[m]];
    TotalHeightSnoc(heights[..m], heights[m], vs);
  }

  /** Joining a prefix of the rows gives a prefix of the joined rows. */
  lemma {:induction false} FlattenPrefix(rows: seq<seq<nat>>, m: nat)
    requires m <= |rows|
    ensures |Flatten(rows[..m])| <= |Flatten(rows)|
    ensures Flatten(rows[..m]) == Flatten(rows)[..|Flatten(rows[..m])|]
  {
    if m < |rows| {
      var n := |rows|;
      FlattenPrefix(rows[..n - 1], m);
      assert rows[..n - 1][..m] == rows[..m];
      assert rows == rows[..n - 1] + [rows[n - 1]];
      FlattenSnoc(rows[..n - 1], rows[n - 1]);
    } else {
      assert rows[..m] == rows;
    }
  }

  /** Rows that obey the wrap rule keep their children inside the width
      handed down: every child that did not open a row ends at least one
      horizontal spacing before paddingLeft + dispatchWidth. */
  lemma LayoutFits(cs: seq<Child>, lines: seq<seq<nat>>, heights: seq<nat>,
                   paddingLeft: int, paddingTop: int, dw: nat, hs: nat, vs: nat, j: nat, k: nat)
    requires RowsInRange(cs, lines) && |lines| == |heights| && Greedy(cs, lines, dw, hs)
    requires j < |lines| && k < |lines[j]| && (0 < k || j == 0)
    ensures |Flatten(lines[..j])| + k < |Layout(cs, lines, heights, paddingLeft, paddingTop, hs, vs)|
    ensures Layout(cs, lines, heights, paddingLeft, paddingTop, hs, vs)[|Flatten(lines[..j])| + k].right + hs
              <= paddingLeft + dw
  {
    LayoutAt(cs, lines, heights, paddingLeft, paddingTop, hs, vs, j, k);
    assert Joins(cs, lines[j], k, dw, hs);
    RowWidthSplit(cs, lines[j][..k], hs);
    assert |lines[j][..k]| == k;
  }
}
