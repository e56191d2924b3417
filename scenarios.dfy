/** Worked cases of the two passes on concrete children, as the code
    computes them. */
module Scenarios {
  import opened FlowRows
  import opened FlowPlacement

  /** Width 100, no spacing, three children 40 wide: the first two share a
      row (40 + 40 <= 100), the third wraps (40 + 80 > 100). */
  lemma ThreeChildrenWrapOnce()
    ensures var cs := [Child(40, 10, true), Child(40, 20, true), Child(40, 30, true)];
      var m := Measure(cs, 100, 0, 0);
      m.lines == [[0, 1], [2]] && m.heights == [20, 30]
      && m.parentWidth == 80 && m.parentHeight == 50
  {
    var cs := [Child(40, 10, true), Child(40, 20, true), Child(40, 30, true)];
    assert Open(cs, 1, 100, 0, 0) == Pass([], [], [0], 40, 10, 0, 0);
    assert Open(cs, 2, 100, 0, 0) == Pass([], [], [0, 1], 80, 20, 0, 0);
    assert Open(cs, 3, 100, 0, 0) == Pass([[0, 1]], [20], [2], 40, 30, 80, 20);
  }

  /** A first child wider than the container is not kept on the first row:
      the wrap test fires on the empty row, which is recorded with height 0. */
  lemma OversizedFirstChild()
    ensures var m := Measure([Child(150, 12, true)], 100, 0, 0);
      m.lines == [[], [0]] && m.heights == [0, 12]
      && m.parentWidth == 150 && m.parentHeight == 12
  {
    var cs := [Child(150, 12, true)];
    assert Open(cs, 1, 100, 0, 0) == Pass([[]], [0], [0], 150, 12, 0, 0);
  }

  /** When the child at the last index is GONE, the row being filled is
      never recorded: here no row at all, and a content size of 0. */
  lemma TrailingGoneChildLosesRow()
    ensures var m := Measure([Child(40, 10, true), Child(40, 10, false)], 100, 16, 8);
      m.lines == [] && m.heights == [] && m.parentWidth == 0 && m.parentHeight == 0
      && m.lineViews == [0]
  {
    var cs := [Child(40, 10, true), Child(40, 10, false)];
    assert Open(cs, 1, 100, 16, 8) == Pass([], [], [0], 56, 10, 0, 0);
  }

  /** Three children 60 wide in a container 100 wide, each on a row of its
      own, with vertical spacing 5: the content height is 45, because the
      last row's flush also adds a vertical spacing. */
  lemma TrailingVerticalSpacing()
    ensures var cs := [Child(60, 10, true), Child(60, 10, true), Child(60, 10, true)];
      var m := Measure(cs, 100, 0, 5);
      m.lines == [[0], [1], [2]] && m.heights == [10, 10, 10] && m.parentHeight == 45
  {
    var cs := [Child(60, 10, true), Child(60, 10, true), Child(60, 10, true)];
    assert Open(cs, 1, 100, 0, 5) == Pass([], [], [0], 60, 10, 0, 0);
    assert Open(cs, 2, 100, 0, 5) == Pass([[0]], [10], [1], 60, 10, 60, 15);
    assert Open(cs, 3, 100, 0, 5) == Pass([[0], [1]], [10, 10], [2], 60, 10, 60, 30);
  }

  /** Two rows of heights 20 and 30, vertical spacing 5, top padding 10:
      the first row is placed at top 10 and the second at 10 + 20 + 5. */
  lemma SecondRowTop()
    ensures var cs := [Child(30, 20, true), Child(30, 30, true)];
      var placed := Layout(cs, [[0], [1]], [20, 30], 0, 10, 0, 5);
      |placed| == 2 && placed[0] == Placement(0, 0, 10, 30, 30) && placed[1] == Placement(1, 0, 35, 30, 65)
  {
    var cs := [Child(30, 20, true), Child(30, 30, true)];
    var lines := [[0], [1]];
    assert lines[..1] == [[0]] && [20, 30][..1] == [20];
    assert [[0]][..0] == [] && [20][..0] == [];
    assert [0][..0] == [] && [1][..0] == [];
    assert TotalHeight([20], 5) == 25;
    assert RowPlacements(cs, [1], 0, 35, 0) == [Placement(1, 0, 35, 30, 65)];
    assert Layout(cs, [[0]], [20], 0, 10, 0, 5) == [Placement(0, 0, 10, 30, 30)];
    assert Layout(cs, lines, [20, 30], 0, 10, 0, 5)
      == Layout(cs, [[0]], [20], 0, 10, 0, 5) + RowPlacements(cs, [1], 0, 35, 0);
  }
}
