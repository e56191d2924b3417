/** The row-breaking rule of the measure pass, stated on its own: which
    partitions of a sequence of children into rows are the ones the wrap test
    produces.  `Greedy` says, row by row, that every child that did not open a
    row passed the wrap test and every child that opened a row (after the
    first) failed it; `GreedyUnique` shows that this pins the rows down. */
module GreedyRows {
  import opened FlowRows

  /** The member at position p of a row passed the wrap test against the
      members before it. */
  predicate Joins(cs: seq<Child>, row: seq<nat>, p: nat, dw: nat, hs: nat)
    requires InRange(cs, row) && p < |row|
  {
    InRange(cs, row[..p]) && !NeedsWrap(cs[row[p]].width, RowWidth(cs, row[..p], hs), hs, dw)
  }

  /** The row is not empty and its first member failed the wrap test against
      the whole previous row. */
  predicate Opens(cs: seq<Child>, prev: seq<nat>, row: seq<nat>, dw: nat, hs: nat)
    requires InRange(cs, prev) && InRange(cs, row)
  {
    row != [] && NeedsWrap(cs[row[0]].width, RowWidth(cs, prev, hs), hs, dw)
  }

  /** The rows obey the wrap test at every child: each child that did not
      open a row passed it, each row after the first was opened by a child
      that failed it.  The test is the one of the loop, with no empty-row
      guard: a first child that fails it leaves row 0 empty, and no other row
      is ever empty. */
  predicate Greedy(cs: seq<Child>, rows: seq<seq<nat>>, dw: nat, hs: nat)
    requires RowsInRange(cs, rows)
  {
    && |rows| > 0
    && (forall j, p :: 0 <= j < |rows| && 0 <= p < |rows[j]| && (0 < p || j == 0) ==>
          Joins(cs, rows[j], p, dw, hs))
    && (forall j :: 0 < j < |rows| ==> Opens(cs, rows[j - 1], rows[j], dw, hs))
  }

  /** Rows after one more child: a new row when the wrap test fires against
      the last row, otherwise the child joins the last row. */
  function Grow(cs: seq<Child>, rows: seq<seq<nat>>, i: nat, dw: nat, hs: nat): (r: seq<seq<nat>>)
    requires RowsInRange(cs, rows) && |rows| > 0 && i < |cs|
    ensures |r| > 0 && r[|r| - 1] != [] && r[|r| - 1][|r[|r| - 1]| - 1] == i
  {
    var last := rows[|rows| - 1];
    if NeedsWrap(cs[i].width, RowWidth(cs, last, hs), hs, dw) then rows + [[i]]
    else rows[..|rows| - 1] + [last + [i]]
  }

  /** Rows with their very last member removed (and the row it was in, when
      that row held nothing else and is not row 0). */
  function Shrink(rows: seq<seq<nat>>): seq<seq<nat>>
    requires |rows| > 0 && rows[|rows| - 1] != []
  {
    var n := |rows|;
    var last := rows[n - 1];
    if |last| == 1 && n > 1 then rows[..n - 1] else rows[..n - 1] + [last[..|last| - 1]]
  }

  lemma PrefixInRange(cs: seq<Child>, row: seq<nat>, p: nat)
    requires InRange(cs, row) && p <= |row|
    ensures InRange(cs, row[..p])
  {
  }

  /** Growing greedy rows keeps them greedy and appends the child to what
      they hold. */
  lemma GreedyGrow(cs: seq<Child>, rows: seq<seq<nat>>, i: nat, dw: nat, hs: nat)
    requires RowsInRange(cs, rows) && i < |cs| && Greedy(cs, rows, dw, hs)
    ensures RowsInRange(cs, Grow(cs, rows, i, dw, hs))
    ensures Greedy(cs, Grow(cs, rows, i, dw, hs), dw, hs)
    ensures Flatten(Grow(cs, rows, i, dw, hs)) == Flatten(rows) + [i]
  {
    if NeedsWrap(cs[i].width, RowWidth(cs, rows[|rows| - 1], hs), hs, dw) {
      GrowWraps(cs, rows, i, dw, hs);
    } else {
      GrowJoins(cs, rows, i, dw, hs);
    }
  }

  /** The child that fails the wrap test opens a row of its own. */
  lemma GrowWraps(cs: seq<Child>, rows: seq<seq<nat>>, i: nat, dw: nat, hs: nat)
    requires RowsInRange(cs, rows) && i < |cs| && Greedy(cs, rows, dw, hs)
    requires NeedsWrap(cs[i].width, RowWidth(cs, rows[|rows| - 1], hs), hs, dw)
    ensures RowsInRange(cs, Grow(cs, rows, i, dw, hs))
    ensures Greedy(cs, Grow(cs, rows, i, dw, hs), dw, hs)
    ensures Flatten(Grow(cs, rows, i, dw, hs)) == Flatten(rows) + [i]
  {
    var n := |rows|;
    var r := Grow(cs, rows, i, dw, hs);
    assert r == rows + [[i]];
    FlattenSnoc(rows, [i]);
    assert forall j :: 0 <= j < n ==> r[j] == rows[j];
    assert RowsInRange(cs, r) by {
      forall j | 0 <= j <= n ensures InRange(cs, r[j]) {
        if j < n { assert r[j] == rows[j]; }
      }
    }
    forall j, p | 0 <= j <= n && 0 <= p < |r[j]| && (0 < p || j == 0)
      ensures Joins(cs, r[j], p, dw, hs)
    {
      assert r[j] == rows[j];
    }
    forall j | 0 < j <= n
      ensures Opens(cs, r[j - 1], r[j], dw, hs)
    {
      assert r[j - 1] == rows[j - 1];
      if j < n {
        assert r[j] == rows[j];
      }
    }
  }

  /** The child that passes the wrap test joins the last row. */
  lemma GrowJoins(cs: seq<Child>, rows: seq<seq<nat>>, i: nat, dw: nat, hs: nat)
    requires RowsInRange(cs, rows) && i < |cs| && Greedy(cs, rows, dw, hs)
    requires !NeedsWrap(cs[i].width, RowWidth(cs, rows[|rows| - 1], hs), hs, dw)
    ensures RowsInRange(cs, Grow(cs, rows, i, dw, hs))
    ensures Greedy(cs, Grow(cs, rows, i, dw, hs), dw, hs)
    ensures Flatten(Grow(cs, rows, i, dw, hs)) == Flatten(rows) + [i]
  {
    var n := |rows|;
    var last := rows[n - 1];
    var r := Grow(cs, rows, i, dw, hs);
    JoinShape(cs, rows, i, dw, hs);
    forall j, p | 0 <= j < n && 0 <= p < |r[j]| && (0 < p || j == 0)
      ensures Joins(cs, r[j], p, dw, hs)
    {
      if j < n - 1 {
        assert r[j] == rows[j];
      } else {
        if p < |last| {
          assert Joins(cs, rows[j], p, dw, hs);
        }
        JoinsExtended(cs, last, i, p, dw, hs);
      }
    }
    forall j | 0 < j < n
      ensures Opens(cs, r[j - 1], r[j], dw, hs)
    {
      assert r[j - 1] == rows[j - 1];
      if j == n - 1 {
        assert last != [];
        assert r[j][0] == last[0];
      } else {
        assert r[j] == rows[j];
      }
    }
  }

  /** When the child joins the last row, every other row is unchanged. */
  lemma JoinShape(cs: seq<Child>, rows: seq<seq<nat>>, i: nat, dw: nat, hs: nat)
    requires RowsInRange(cs, rows) && |rows| > 0 && i < |cs|
    requires !NeedsWrap(cs[i].width, RowWidth(cs, rows[|rows| - 1], hs), hs, dw)
    ensures var r := Grow(cs, rows, i, dw, hs);
      && |r| == |rows|
      && r[|rows| - 1] == rows[|rows| - 1] + [i]
      && RowsInRange(cs, r)
      && Flatten(r) == Flatten(rows) + [i]
    ensures forall j :: 0 <= j < |rows| - 1 ==> Grow(cs, rows, i, dw, hs)[j] == rows[j]
  {
    var n := |rows|;
    var last := rows[n - 1];
    var front := rows[..n - 1];
    var r := Grow(cs, rows, i, dw, hs);
    assert r == front + [last + [i]];
    assert rows == front + [last];
    FlattenSnoc(front, last + [i]);
    FlattenSnoc(front, last);
    RowSnoc(cs, last, i, hs);
    assert forall j :: 0 <= j < n - 1 ==> r[j] == rows[j];
    assert RowsInRange(cs, r) by {
      forall j | 0 <= j < n ensures InRange(cs, r[j]) {
        if j < n - 1 { assert r[j] == rows[j]; }
      }
    }
  }

  /** A member of a row still passes the wrap test once a child is
      appended after it, and so does the appended child when it passed the
      test against the whole row. */
  lemma JoinsExtended(cs: seq<Child>, row: seq<nat>, i: nat, p: nat, dw: nat, hs: nat)
    requires InRange(cs, row) && i < |cs| && p <= |row|
    requires p < |row| ==> Joins(cs, row, p, dw, hs)
    requires p == |row| ==> !NeedsWrap(cs[i].width, RowWidth(cs, row, hs), hs, dw)
    ensures InRange(cs, row + [i]) && Joins(cs, row + [i], p, dw, hs)
  {
    var r := row + [i];
    if p < |row| {
      assert r[..p] == row[..p] && r[p] == row[p];
    } else {
      assert r[..p] == row && r[p] == i;
    }
  }

  lemma GreedyEmpty(cs: seq<Child>, rows: seq<seq<nat>>, dw: nat, hs: nat)
    requires RowsInRange(cs, rows) && Greedy(cs, rows, dw, hs) && Flatten(rows) == []
    ensures rows == [[]]
  {
    var n := |rows|;
    assert rows == rows[..n - 1] + [rows[n - 1]];
    FlattenSnoc(rows[..n - 1], rows[n - 1]);
    if n > 1 {
      assert false;
    }
    assert rows[..0] == [];
  }

  /** Dropping the last row of greedy rows leaves greedy rows. */
  lemma GreedyDropLast(cs: seq<Child>, rows: seq<seq<nat>>, dw: nat, hs: nat)
    requires RowsInRange(cs, rows) && Greedy(cs, rows, dw, hs) && |rows| > 1
    ensures RowsInRange(cs, rows[..|rows| - 1]) && Greedy(cs, rows[..|rows| - 1], dw, hs)
  {
    var q := rows[..|rows| - 1];
    assert forall j :: 0 <= j < |q| ==> q[j] == rows[j];
    forall j, p | 0 <= j < |q| && 0 <= p < |q[j]| && (0 < p || j == 0)
      ensures Joins(cs, q[j], p, dw, hs)
    {
      assert Joins(cs, rows[j], p, dw, hs);
    }
    forall j | 0 < j < |q|
      ensures Opens(cs, q[j - 1], q[j], dw, hs)
    {
      assert Opens(cs, rows[j - 1], rows[j], dw, hs);
    }
  }

  /** Removing the last member of the last row of greedy rows leaves greedy
      rows, provided that row keeps a member or is row 0. */
  lemma GreedyShortenLast(cs: seq<Child>, rows: seq<seq<nat>>, dw: nat, hs: nat)
    requires RowsInRange(cs, rows) && Greedy(cs, rows, dw, hs)
    requires var last := rows[|rows| - 1]; |last| >= 2 || (|rows| == 1 && |last| == 1)
    ensures var n := |rows|; var q := rows[..n - 1] + [rows[n - 1][..|rows[n - 1]| - 1]];
      RowsInRange(cs, q) && Greedy(cs, q, dw, hs)
  {
    var n := |rows|;
    var last := rows[n - 1];
    var short := last[..|last| - 1];
    var q := rows[..n - 1] + [short];
    assert forall j :: 0 <= j < n - 1 ==> q[j] == rows[j];
    assert q[n - 1] == short;
    assert RowsInRange(cs, q) by {
      forall j | 0 <= j < n ensures InRange(cs, q[j]) {
        if j == n - 1 { PrefixInRange(cs, last, |short|); }
      }
    }
    forall j, p | 0 <= j < n && 0 <= p < |q[j]| && (0 < p || j == 0)
      ensures Joins(cs, q[j], p, dw, hs)
    {
      if j == n - 1 {
        assert q[j][..p] == last[..p] && q[j][p] == last[p];
        assert Joins(cs, rows[j], p, dw, hs);
      } else {
        assert Joins(cs, rows[j], p, dw, hs);
      }
    }
    forall j | 0 < j < n
      ensures Opens(cs, q[j - 1], q[j], dw, hs)
    {
      assert Opens(cs, rows[j - 1], rows[j], dw, hs);
      if j == n - 1 {
        assert q[j][0] == last[0];
      }
    }
  }

  /** `GreedyShrink` when the last row holds the last child alone and is
      not row 0: the row goes. */
  lemma ShrinkDropsRow(cs: seq<Child>, rows: seq<seq<nat>>, dw: nat, hs: nat)
    requires RowsInRange(cs, rows) && Greedy(cs, rows, dw, hs)
    requires |rows| > 1 && |rows[|rows| - 1]| == 1
    ensures RowsInRange(cs, Shrink(rows)) && Greedy(cs, Shrink(rows), dw, hs)
    ensures var x := rows[|rows| - 1][0];
      && x < |cs|
      && Flatten(rows) == Flatten(Shrink(rows)) + [x]
      && rows == Grow(cs, Shrink(rows), x, dw, hs)
  {
    var n := |rows|;
    var x := rows[n - 1][0];
    var front := rows[..n - 1];
    GreedyDropLast(cs, rows, dw, hs);
    assert rows[n - 1] == [x];
    assert rows == front + [rows[n - 1]];
    FlattenSnoc(front, [x]);
    assert Opens(cs, rows[n - 2], rows[n - 1], dw, hs);
    assert front[n - 2] == rows[n - 2];
  }

  /** `GreedyShrink` otherwise: the last row loses its last member. */
  lemma ShrinkShortensRow(cs: seq<Child>, rows: seq<seq<nat>>, dw: nat, hs: nat)
    requires RowsInRange(cs, rows) && Greedy(cs, rows, dw, hs)
    requires var last := rows[|rows| - 1]; |last| >= 2 || (|rows| == 1 && |last| == 1)
    ensures RowsInRange(cs, Shrink(rows)) && Greedy(cs, Shrink(rows), dw, hs)
    ensures var last := rows[|rows| - 1]; var x := last[|last| - 1];
      && x < |cs|
      && Flatten(rows) == Flatten(Shrink(rows)) + [x]
      && rows == Grow(cs, Shrink(rows), x, dw, hs)
  {
    var n := |rows|;
    var last := rows[n - 1];
    var x := last[|last| - 1];
    var short := last[..|last| - 1];
    var front := rows[..n - 1];
    GreedyShortenLast(cs, rows, dw, hs);
    assert Shrink(rows) == front + [short];
    assert last == short + [x];
    assert rows == front + [last];
    FlattenSnoc(front, short);
    FlattenSnoc(front, last);
    // x passed the wrap test at its place in the last row
    assert Joins(cs, rows[n - 1], |short|, dw, hs);
    assert rows[n - 1][..|short|] == short;
    assert (front + [short])[..n - 1] == front;
  }

  /** Taking the last child off greedy rows leaves greedy rows, and growing
      those by that child gives the rows back. */
  lemma GreedyShrink(cs: seq<Child>, rows: seq<seq<nat>>, dw: nat, hs: nat)
    requires RowsInRange(cs, rows) && Greedy(cs, rows, dw, hs) && Flatten(rows) != []
    ensures rows[|rows| - 1] != []
    ensures RowsInRange(cs, Shrink(rows)) && Greedy(cs, Shrink(rows), dw, hs)
    ensures var v := Flatten(rows);
      && Flatten(Shrink(rows)) == v[..|v| - 1]
      && v[|v| - 1] < |cs|
      && rows == Grow(cs, Shrink(rows), v[|v| - 1], dw, hs)
  {
    var n := |rows|;
    var last := rows[n - 1];
    var front := rows[..n - 1];
    assert rows == front + [last];
    FlattenSnoc(front, last);
    if n == 1 {
      assert front == [];
    } else {
      assert Opens(cs, rows[n - 2], rows[n - 1], dw, hs);
    }
    if |last| == 1 && n > 1 {
      ShrinkDropsRow(cs, rows, dw, hs);
    } else {
      ShrinkShortensRow(cs, rows, dw, hs);
    }
  }

  /** The wrap rule determines the rows: two greedy partitions of the same
      children in the same order are equal. */
  lemma {:induction false} GreedyUnique(cs: seq<Child>, r1: seq<seq<nat>>, r2: seq<seq<nat>>, dw: nat, hs: nat)
    requires RowsInRange(cs, r1) && Greedy(cs, r1, dw, hs)
    requires RowsInRange(cs, r2) && Greedy(cs, r2, dw, hs)
    requires Flatten(r1) == Flatten(r2)
    ensures r1 == r2
    decreases |Flatten(r1)|
  {
    if Flatten(r1) == [] {
      GreedyEmpty(cs, r1, dw, hs);
      GreedyEmpty(cs, r2, dw, hs);
    } else {
      GreedyShrink(cs, r1, dw, hs);
      GreedyShrink(cs, r2, dw, hs);
      GreedyUnique(cs, Shrink(r1), Shrink(r2), dw, hs);
    }
  }

  /** Only row 0 can be empty, and it is empty exactly when the first child
      fails the wrap test against an empty row. */
  lemma GreedyFirstRow(cs: seq<Child>, rows: seq<seq<nat>>, dw: nat, hs: nat)
    requires RowsInRange(cs, rows) && Greedy(cs, rows, dw, hs) && Flatten(rows) != []
    ensures forall j :: 0 < j < |rows| ==> rows[j] != []
    ensures var v := Flatten(rows);
      v[0] < |cs| && (rows[0] == [] <==> NeedsWrap(cs[v[0]].width, 0, hs, dw))
  {
    var v := Flatten(rows);
    forall j | 0 < j < |rows| ensures rows[j] != [] {
      assert Opens(cs, rows[j - 1], rows[j], dw, hs);
    }
    FlattenCons(rows);
    if rows[0] == [] {
      if |rows| == 1 {
        assert false;
      }
      FlattenCons(rows[1..]);
      assert rows[1..][0] == rows[1];
      assert v[0] == rows[1][0];
      assert Opens(cs, rows[0], rows[1], dw, hs);
    } else {
      assert v[0] == rows[0][0];
      assert Joins(cs, rows[0], 0, dw, hs);
      assert rows[0][..0] == [];
    }
  }

  /** Growing by a visible child keeps every member visible. */
  lemma GrowOnlyVisible(cs: seq<Child>, rows: seq<seq<nat>>, i: nat, dw: nat, hs: nat)
    requires RowsInRange(cs, rows) && |rows| > 0 && i < |cs| && cs[i].visible
    requires OnlyVisible(cs, rows)
    ensures RowsInRange(cs, Grow(cs, rows, i, dw, hs))
    ensures OnlyVisible(cs, Grow(cs, rows, i, dw, hs))
  {
    var n := |rows|;
    var r := Grow(cs, rows, i, dw, hs);
    assert forall j :: 0 <= j < n - 1 ==> r[j] == rows[j];
    assert forall j :: n <= j < |r| ==> r[j] == [i];
    assert |r| <= n + 1;
    forall j, p | 0 <= j < |r| && 0 <= p < |r[j]|
      ensures r[j][p] < |cs| && cs[r[j][p]].visible
    {
      if j < n - 1 {
        assert r[j] == rows[j];
      } else if j == n - 1 && p < |rows[n - 1]| {
        assert r[j][p] == rows[j][p];
      } else {
        assert r[j][p] == i;
      }
    }
  }
}
