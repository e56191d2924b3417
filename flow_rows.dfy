/** The measure pass of the flow container (FlowContainer.onMeasure), as
    specification functions.

    A child view is identified by its index in the container's child list; a
    row is the sequence of indices of the children placed on it.  `Open` folds
    the per-child step of the measure loop over a prefix of the children,
    without the flush that the loop performs at the last index; `Measure` adds
    that flush exactly when the child at the last index is visible. */
module FlowRows {

  /** A child as the container sees it once the platform has measured it.
      `visible` means "not GONE": an INVISIBLE child is not drawn but still
      takes its place in a row, exactly like a VISIBLE one. */
  datatype Child = Child(width: nat, height: nat, visible: bool)

  /** The state of one measure pass: the two output buffers (mAllLines and
      mLineHeights), the row being filled, and the running container size. */
  datatype Pass = Pass(
    lines: seq<seq<nat>>,
    heights: seq<nat>,
    lineViews: seq<nat>,
    lineWidth: nat,
    lineHeight: nat,
    parentWidth: nat,
    parentHeight: nat)

  /** Kotlin's `a.coerceAtLeast(b)`. */
  function Max(a: nat, b: nat): nat {
    if a < b then b else a
  }

  /** Both buffers cleared, every counter at 0. */
  const Start := Pass([], [], [], 0, 0, 0, 0)

  /** The wrap test of the measure loop: the child does not fit after the
      row's current width and one more horizontal spacing. */
  predicate NeedsWrap(width: nat, lineWidth: nat, hs: nat, dw: nat) {
    width + lineWidth + hs > dw
  }

  /** Records the pending row: appends it and its height to the buffers and
      folds it into the container's width and height. */
  function Flush(s: Pass, hs: nat, vs: nat): Pass {
    s.(lines := s.lines + [s.lineViews],
       heights := s.heights + [s.lineHeight],
       parentWidth := Max(s.parentWidth, s.lineWidth + hs),
       parentHeight := s.parentHeight + s.lineHeight + vs)
  }

  /** One visible child, without the last-index flush: wrap if the test says
      so (whether or not the row is empty), then append the child. */
  function AddChild(s: Pass, cs: seq<Child>, i: nat, dw: nat, hs: nat, vs: nat): Pass
    requires i < |cs|
  {
    var t := if NeedsWrap(cs[i].width, s.lineWidth, hs, dw)
             then Flush(s, hs, vs).(lineViews := [], lineWidth := 0, lineHeight := 0)
             else s;
    t.(lineViews := t.lineViews + [i],
       lineWidth := t.lineWidth + cs[i].width + hs,
       lineHeight := Max(t.lineHeight, cs[i].height))
  }

  /** The measure loop over the first k children, GONE children skipped,
      before any last-index flush. */
  function Open(cs: seq<Child>, k: nat, dw: nat, hs: nat, vs: nat): Pass
    requires k <= |cs|
  {
    if k == 0 then Start
    else
      var s := Open(cs, k - 1, dw, hs, vs);
      if cs[k - 1].visible then AddChild(s, cs, k - 1, dw, hs, vs) else s
  }

  /** Whether the child at index childCount - 1 exists and is visible. */
  predicate LastVisible(cs: seq<Child>) {
    |cs| > 0 && cs[|cs| - 1].visible
  }

  /** The whole measure loop: the pending row is recorded only when the
      child at the last index is visible. */
  function Measure(cs: seq<Child>, dw: nat, hs: nat, vs: nat): Pass {
    var s := Open(cs, |cs|, dw, hs, vs);
    if LastVisible(cs) then Flush(s, hs, vs) else s
  }

  // ---------------------------------------------------------------------
  // Functions over rows, used to state what the measure pass computes.

  /** Indices of the visible children among the first k, in order. */
  function Visible(cs: seq<Child>, k: nat): seq<nat>
    requires k <= |cs|
  {
    if k == 0 then []
    else Visible(cs, k - 1) + (if cs[k - 1].visible then [k - 1] else [])
  }

  /** The rows joined in order. */
  function Flatten(rows: seq<seq<nat>>): seq<nat> {
    if rows == [] then [] else Flatten(rows[..|rows| - 1]) + rows[|rows| - 1]
  }

  predicate InRange(cs: seq<Child>, row: seq<nat>) {
    forall p :: 0 <= p < |row| ==> row[p] < |cs|
  }

  predicate RowsInRange(cs: seq<Child>, rows: seq<seq<nat>>) {
    forall j :: 0 <= j < |rows| ==> InRange(cs, rows[j])
  }

  /** Every member of every row is a visible child. */
  predicate OnlyVisible(cs: seq<Child>, rows: seq<seq<nat>>)
    requires RowsInRange(cs, rows)
  {
    forall j, p :: 0 <= j < |rows| && 0 <= p < |rows[j]| ==> cs[rows[j][p]].visible
  }

  /** The width a row takes in the measure pass: each member's width plus one
      trailing horizontal spacing. */
  function RowWidth(cs: seq<Child>, row: seq<nat>, hs: nat): nat
    requires InRange(cs, row)
  {
    if row == [] then 0
    else RowWidth(cs, row[..|row| - 1], hs) + cs[row[|row| - 1]].width + hs
  }

  /** The sum of the members' widths, spacing left out. */
  function SumWidths(cs: seq<Child>, row: seq<nat>): nat
    requires InRange(cs, row)
  {
    if row == [] then 0
    else SumWidths(cs, row[..|row| - 1]) + cs[row[|row| - 1]].width
  }

  /** The tallest member of a row, 0 for an empty row. */
  function RowHeight(cs: seq<Child>, row: seq<nat>): nat
    requires InRange(cs, row)
  {
    if row == [] then 0
    else Max(RowHeight(cs, row[..|row| - 1]), cs[row[|row| - 1]].height)
  }

  /** Sum over rows of (row height + vertical spacing). */
  function TotalHeight(heights: seq<nat>, vs: nat): nat {
    if heights == [] then 0
    else TotalHeight(heights[..|heights| - 1], vs) + heights[|heights| - 1] + vs
  }

  /** Maximum over rows of (row width + horizontal spacing), 0 for no rows. */
  function Widest(cs: seq<Child>, rows: seq<seq<nat>>, hs: nat): nat
    requires RowsInRange(cs, rows)
  {
    if rows == [] then 0
    else Max(Widest(cs, rows[..|rows| - 1], hs), RowWidth(cs, rows[|rows| - 1], hs) + hs)
  }

  // ---------------------------------------------------------------------
  // Appending one row or one member: the recursive definitions above peel
  // the last element off, so each of these is one unfolding.

  lemma FlattenSnoc(rows: seq<seq<nat>>, row: seq<nat>)
    ensures Flatten(rows + [row]) == Flatten(rows) + row
  {
    assert (rows + [row])[..|rows|] == rows;
  }

  lemma RowSnoc(cs: seq<Child>, row: seq<nat>, i: nat, hs: nat)
    requires InRange(cs, row) && i < |cs|
    ensures InRange(cs, row + [i])
    ensures RowWidth(cs, row + [i], hs) == RowWidth(cs, row, hs) + cs[i].width + hs
    ensures SumWidths(cs, row + [i]) == SumWidths(cs, row) + cs[i].width
    ensures RowHeight(cs, row + [i]) == Max(RowHeight(cs, row), cs[i].height)
  {
    assert (row + [i])[..|row|] == row;
  }

  lemma RowsSnoc(cs: seq<Child>, rows: seq<seq<nat>>, row: seq<nat>, hs: nat)
    requires RowsInRange(cs, rows) && InRange(cs, row)
    ensures RowsInRange(cs, rows + [row])
    ensures Widest(cs, rows + [row], hs) == Max(Widest(cs, rows, hs), RowWidth(cs, row, hs) + hs)
  {
    assert (rows + [row])[..|rows|] == rows;
  }

  lemma TotalHeightSnoc(heights: seq<nat>, h: nat, vs: nat)
    ensures TotalHeight(heights + [h], vs) == TotalHeight(heights, vs) + h + vs
  {
    assert (heights + [h])[..|heights|] == heights;
  }

  /** Flatten read from the front. */
  lemma {:induction false} FlattenCons(rows: seq<seq<nat>>)
    requires rows != []
    ensures Flatten(rows) == rows[0] + Flatten(rows[1..])
  {
    var n := |rows|;
    if n == 1 {
      assert rows[..0] == [] && rows[1..] == [];
    } else {
      var init := rows[..n - 1];
      var tail := rows[1..];
      FlattenCons(init);
      assert init[1..] == tail[..n - 2];
      assert Flatten(tail) == Flatten(tail[..n - 2]) + tail[n - 2];
      calc {
        Flatten(rows);
        Flatten(init) + rows[n - 1];
        rows[0] + Flatten(init[1..]) + rows[n - 1];
        rows[0] + (Flatten(tail[..n - 2]) + tail[n - 2]);
      }
    }
  }

  /** The visible indices come in increasing order, each below k. */
  lemma {:induction false} VisibleIncreasing(cs: seq<Child>, k: nat)
    requires k <= |cs|
    ensures forall a :: 0 <= a < |Visible(cs, k)| ==>
      Visible(cs, k)[a] < k && cs[Visible(cs, k)[a]].visible
    ensures forall a, b :: 0 <= a < b < |Visible(cs, k)| ==> Visible(cs, k)[a] < Visible(cs, k)[b]
  {
    if k > 0 {
      VisibleIncreasing(cs, k - 1);
      var u := Visible(cs, k - 1);
      var v := Visible(cs, k);
      if cs[k - 1].visible {
        assert v == u + [k - 1];
        forall a, b | 0 <= a < b < |v| ensures v[a] < v[b] {
          if b < |u| { assert v[a] == u[a] && v[b] == u[b]; }
          else { assert v[a] == u[a] && v[b] == k - 1; }
        }
        forall a | 0 <= a < |v| ensures v[a] < k && cs[v[a]].visible {
          if a < |u| { assert v[a] == u[a]; }
        }
      } else {
        assert v == u;
      }
    }
  }

  lemma RowsInRangePrefix(cs: seq<Child>, rows: seq<seq<nat>>, m: nat)
    requires RowsInRange(cs, rows) && m <= |rows|
    ensures RowsInRange(cs, rows[..m])
  {
    assert forall j :: 0 <= j < m ==> rows[..m][j] == rows[j];
  }
}
