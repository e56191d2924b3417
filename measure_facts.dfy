/** What the measure pass computes, proved about `Measure`: the rows, their
    heights, the container's content size, and the two edge cases of the loop
    as written (an empty row 0, a pending row that is never recorded). */
module MeasureFacts {
  import opened FlowRows
  import opened GreedyRows

  /** The heights, widths and totals of a pass agree with its rows. */
  predicate Sized(cs: seq<Child>, s: Pass, hs: nat, vs: nat) {
    && RowsInRange(cs, s.lines) && InRange(cs, s.lineViews)
    && |s.lines| == |s.heights|
    && (forall j :: 0 <= j < |s.lines| ==> s.heights[j] == RowHeight(cs, s.lines[j]))
    && s.lineHeight == RowHeight(cs, s.lineViews)
    && s.lineWidth == RowWidth(cs, s.lineViews, hs)
    && s.parentHeight == TotalHeight(s.heights, vs)
    && s.parentWidth == Widest(cs, s.lines, hs)
  }

  lemma FlushSized(cs: seq<Child>, s: Pass, hs: nat, vs: nat)
    requires Sized(cs, s, hs, vs)
    ensures Sized(cs, Flush(s, hs, vs), hs, vs)
  {
    RowsSnoc(cs, s.lines, s.lineViews, hs);
    TotalHeightSnoc(s.heights, s.lineHeight, vs);
  }

  lemma {:induction false} OpenSized(cs: seq<Child>, k: nat, dw: nat, hs: nat, vs: nat)
    requires k <= |cs|
    ensures Sized(cs, Open(cs, k, dw, hs, vs), hs, vs)
  {
    if k > 0 {
      OpenSized(cs, k - 1, dw, hs, vs);
      if cs[k - 1].visible {
        AddChildSized(cs, Open(cs, k - 1, dw, hs, vs), Open(cs, k, dw, hs, vs), k - 1, dw, hs, vs);
      }
    }
  }

  /** One visible child keeps the heights, widths and totals in step with
      the rows. */
  lemma AddChildSized(cs: seq<Child>, s: Pass, t: Pass, i: nat, dw: nat, hs: nat, vs: nat)
    requires i < |cs| && Sized(cs, s, hs, vs) && t == AddChild(s, cs, i, dw, hs, vs)
    ensures Sized(cs, t, hs, vs)
  {
    var u := if NeedsWrap(cs[i].width, s.lineWidth, hs, dw)
             then Flush(s, hs, vs).(lineViews := [], lineWidth := 0, lineHeight := 0)
             else s;
    if NeedsWrap(cs[i].width, s.lineWidth, hs, dw) {
      FlushSized(cs, s, hs, vs);
    }
    assert Sized(cs, u, hs, vs);
    RowSnoc(cs, u.lineViews, i, hs);
  }

  /** The rows of the measure pass so far, the pending one included, are the
      greedy partition of the visible children seen so far. */
  lemma {:induction false} OpenRows(cs: seq<Child>, k: nat, dw: nat, hs: nat, vs: nat)
    requires k <= |cs|
    ensures var s := Open(cs, k, dw, hs, vs);
      && RowsInRange(cs, s.lines + [s.lineViews])
      && OnlyVisible(cs, s.lines + [s.lineViews])
      && Greedy(cs, s.lines + [s.lineViews], dw, hs)
      && Flatten(s.lines + [s.lineViews]) == Visible(cs, k)
  {
    if k == 0 {
      FlattenSnoc([], []);
    } else {
      var i := k - 1;
      var s := Open(cs, i, dw, hs, vs);
      var rows := s.lines + [s.lineViews];
      OpenRows(cs, i, dw, hs, vs);
      OpenSized(cs, i, dw, hs, vs);
      if cs[i].visible {
        assert Open(cs, k, dw, hs, vs) == AddChild(s, cs, i, dw, hs, vs);
        AddChildGrows(cs, s, i, dw, hs, vs);
        GreedyGrow(cs, rows, i, dw, hs);
        GrowOnlyVisible(cs, rows, i, dw, hs);
      }
    }
  }

  /** On rows, one step of the loop is `Grow`. */
  lemma AddChildGrows(cs: seq<Child>, s: Pass, i: nat, dw: nat, hs: nat, vs: nat)
    requires i < |cs| && RowsInRange(cs, s.lines + [s.lineViews])
    requires InRange(cs, s.lineViews) && s.lineWidth == RowWidth(cs, s.lineViews, hs)
    ensures var t := AddChild(s, cs, i, dw, hs, vs);
      t.lines + [t.lineViews] == Grow(cs, s.lines + [s.lineViews], i, dw, hs)
  {
    var rows := s.lines + [s.lineViews];
    var t := AddChild(s, cs, i, dw, hs, vs);
    assert rows[|rows| - 1] == s.lineViews;
    if NeedsWrap(cs[i].width, s.lineWidth, hs, dw) {
      assert t.lines == rows && t.lineViews == [i];
    } else {
      assert rows[..|rows| - 1] == s.lines;
    }
  }

  /** Nothing visible: the pass leaves everything as it started. */
  lemma {:induction false} OpenNoneVisible(cs: seq<Child>, k: nat, dw: nat, hs: nat, vs: nat)
    requires k <= |cs| && Visible(cs, k) == []
    ensures Open(cs, k, dw, hs, vs) == Start
  {
    if k > 0 {
      OpenNoneVisible(cs, k - 1, dw, hs, vs);
    }
  }

  // ---------------------------------------------------------------------
  // The measure pass as a whole.

  /** One height per recorded row, each the tallest member of its row (0 for
      an empty row); the content height is the sum of (row height + vertical
      spacing) over the recorded rows, trailing spacing included; the content
      width is the largest (row width + horizontal spacing), where a row's
      width already holds one spacing per member. */
  lemma MeasureSizes(cs: seq<Child>, dw: nat, hs: nat, vs: nat)
    ensures var m := Measure(cs, dw, hs, vs);
      && RowsInRange(cs, m.lines)
      && |m.lines| == |m.heights|
      && m.parentHeight == TotalHeight(m.heights, vs)
      && m.parentWidth == Widest(cs, m.lines, hs)
    ensures forall j :: 0 <= j < |Measure(cs, dw, hs, vs).lines| ==>
      Measure(cs, dw, hs, vs).heights[j] == RowHeight(cs, Measure(cs, dw, hs, vs).lines[j])
  {
    OpenSized(cs, |cs|, dw, hs, vs);
    if LastVisible(cs) {
      FlushSized(cs, Open(cs, |cs|, dw, hs, vs), hs, vs);
    }
  }

  /** GONE children are in no row.  When the child at the last index is
      visible, the recorded rows hold exactly the visible children in input
      order and obey the wrap rule; otherwise that holds of the recorded rows
      together with the pending one. */
  lemma MeasureRows(cs: seq<Child>, dw: nat, hs: nat, vs: nat)
    ensures var m := Measure(cs, dw, hs, vs);
      && RowsInRange(cs, m.lines) && OnlyVisible(cs, m.lines)
      && (LastVisible(cs) ==>
            Greedy(cs, m.lines, dw, hs) && Flatten(m.lines) == Visible(cs, |cs|))
      && (!LastVisible(cs) ==>
            && RowsInRange(cs, m.lines + [m.lineViews])
            && Greedy(cs, m.lines + [m.lineViews], dw, hs)
            && Flatten(m.lines) + m.lineViews == Visible(cs, |cs|))
  {
    var s := Open(cs, |cs|, dw, hs, vs);
    OpenRows(cs, |cs|, dw, hs, vs);
    FlattenSnoc(s.lines, s.lineViews);
    var rows := s.lines + [s.lineViews];
    assert forall j :: 0 <= j < |s.lines| ==> rows[j] == s.lines[j];
  }

  /** With the child at the last index visible, the recorded rows are the
      only partition of the visible children, in order, that obeys the wrap
      rule. */
  lemma MeasureIsTheGreedyPartition(cs: seq<Child>, dw: nat, hs: nat, vs: nat, rows: seq<seq<nat>>)
    requires LastVisible(cs)
    requires RowsInRange(cs, rows) && Greedy(cs, rows, dw, hs)
    requires Flatten(rows) == Visible(cs, |cs|)
    ensures rows == Measure(cs, dw, hs, vs).lines
  {
    MeasureRows(cs, dw, hs, vs);
    GreedyUnique(cs, rows, Measure(cs, dw, hs, vs).lines, dw, hs);
  }

  /** No wrap has a non-empty guard: with the last child visible, row 0 is
      recorded empty, with height 0, exactly when the first visible child
      fails the wrap test on its own; every later row has a member. */
  lemma MeasureFirstRow(cs: seq<Child>, dw: nat, hs: nat, vs: nat)
    requires LastVisible(cs)
    ensures var m := Measure(cs, dw, hs, vs); var v := Visible(cs, |cs|);
      && |v| > 0 && v[0] < |cs|
      && |m.lines| > 0 && |m.heights| == |m.lines|
      && (m.lines[0] == [] <==> NeedsWrap(cs[v[0]].width, 0, hs, dw))
      && (m.lines[0] == [] ==> m.heights[0] == 0)
    ensures forall j :: 0 < j < |Measure(cs, dw, hs, vs).lines| ==> Measure(cs, dw, hs, vs).lines[j] != []
  {
    var m := Measure(cs, dw, hs, vs);
    var n := |cs|;
    assert Visible(cs, n) == Visible(cs, n - 1) + [n - 1];
    MeasureRows(cs, dw, hs, vs);
    MeasureSizes(cs, dw, hs, vs);
    GreedyFirstRow(cs, m.lines, dw, hs);
  }

  /** When the child at the last index is GONE and some child is visible,
      the pending row is not empty and is never recorded: its children are in
      no recorded row.  (By MeasureSizes, the heights and totals are those of
      the recorded rows only, so they do not count it either.) */
  lemma MeasureDropsPendingRow(cs: seq<Child>, dw: nat, hs: nat, vs: nat)
    requires |cs| > 0 && !cs[|cs| - 1].visible && Visible(cs, |cs|) != []
    ensures var m := Measure(cs, dw, hs, vs);
      && m.lineViews != []
      && |Flatten(m.lines)| < |Visible(cs, |cs|)|
    ensures forall p :: 0 <= p < |Measure(cs, dw, hs, vs).lineViews| ==>
      Measure(cs, dw, hs, vs).lineViews[p] !in Flatten(Measure(cs, dw, hs, vs).lines)
  {
    var m := Measure(cs, dw, hs, vs);
    var v := Visible(cs, |cs|);
    var done := Flatten(m.lines);
    MeasureRows(cs, dw, hs, vs);
    if m.lineViews == [] {
      GreedyFirstRow(cs, m.lines + [m.lineViews], dw, hs);
      assert false;
    }
    VisibleIncreasing(cs, |cs|);
    forall p | 0 <= p < |m.lineViews| ensures m.lineViews[p] !in done {
      assert v[|done| + p] == m.lineViews[p];
      forall a | 0 <= a < |done| ensures done[a] != m.lineViews[p] {
        assert v[a] == done[a];
      }
    }
  }

  /** With nothing visible (in particular with no children) no row is
      recorded and both totals are 0. */
  lemma MeasureNothingVisible(cs: seq<Child>, dw: nat, hs: nat, vs: nat)
    requires Visible(cs, |cs|) == []
    ensures var m := Measure(cs, dw, hs, vs);
      m.lines == [] && m.heights == [] && m.parentWidth == 0 && m.parentHeight == 0
  {
    OpenNoneVisible(cs, |cs|, dw, hs, vs);
    if LastVisible(cs) {
      assert false;
    }
  }
}
