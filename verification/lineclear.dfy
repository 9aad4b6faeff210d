/** The grid half of `clear_lines` in tetris4k.py: finding the full rows,
removing them, refilling the top with empty rows, and the points awarded for
the number removed.

The source removes the full rows one at a time, bottom-most first, and
inserts an empty row at the top straight after each removal. Each insertion
moves every remaining row one place down, so removal number t (counting
from 0) lands t rows higher than intended. It can leave a full row in place
and delete a row that was not full (`ClearRowsAsWritten`,
`AsWrittenLeavesFullRow`, `ShiftDeleteBottomThree`). `ClearRows` is the
evidently intended behaviour: the removals done first and the empty rows
inserted afterwards. The engine's `Update` uses `ClearRows`, and its
`UpdateAsWritten` uses `ClearRowsAsWritten`.
 */
module LineClear {
  import opened Pieces
  import opened Board

  /** Each entry is larger than the one before it, checked from the end. */
  predicate Increasing(s: seq<nat>)
    decreases |s|
  {
    |s| <= 1 || (s[|s| - 2] < s[|s| - 1] && Increasing(s[..|s| - 1]))
  }

  /** Each entry is smaller than the one before it, checked from the
      front. */
  predicate Decreasing(s: seq<nat>)
    decreases |s|
  {
    |s| <= 1 || (s[0] > s[1] && Decreasing(s[1..]))
  }

  /** `lines_to_clear`: the indices of the full rows, collected top to
      bottom. */
  function FullRows(g: Grid): (r: seq<nat>)
    ensures Increasing(r)
    ensures forall t :: 0 <= t < |r| ==> r[t] < |g|
  {
    if |g| == 0 then []
    else
      var rest := FullRows(g[..|g| - 1]);
      if IsFull(g[|g| - 1]) then
        assert (rest + [|g| - 1])[..|rest|] == rest;
        rest + [|g| - 1]
      else rest
  }

  /** The collected indices are exactly the indices of the full rows. */
  lemma {:induction false} FullRowsExact(g: Grid)
    ensures forall i: nat :: i in FullRows(g) <==> i < |g| && IsFull(g[i])
    decreases |g|
  {
    if |g| > 0 {
      var prefix := g[..|g| - 1];
      FullRowsExact(prefix);
      assert forall i :: 0 <= i < |prefix| ==> prefix[i] == g[i];
    }
  }

  /** `sorted(lines_to_clear, reverse=True)` applied to an increasing list. */
  function Reverse(s: seq<nat>): (r: seq<nat>)
    ensures |r| == |s|
    ensures forall t :: 0 <= t < |s| ==> r[t] == s[|s| - 1 - t]
    ensures Increasing(s) ==> Decreasing(r)
  {
    if |s| == 0 then []
    else
      var rest := Reverse(s[..|s| - 1]);
      assert ([s[|s| - 1]] + rest)[1..] == rest;
      [s[|s| - 1]] + rest
  }

  /** The rows that are not full, in their original top-to-bottom order. */
  function Kept(g: Grid): (r: Grid)
    ensures NoFullRow(r)
    ensures |r| <= |g|
  {
    if |g| == 0 then []
    else Kept(g[..|g| - 1]) + (if IsFull(g[|g| - 1]) then [] else [g[|g| - 1]])
  }

  /** One row is kept for each row that is not collected, and the kept
      rows have the grid's width. */
  lemma {:induction false} KeptRows(g: Grid)
    ensures |Kept(g)| + |FullRows(g)| == |g|
    ensures (forall t :: 0 <= t < |g| ==> |g[t]| == Width) ==>
      forall t :: 0 <= t < |Kept(g)| ==> |Kept(g)[t]| == Width
    decreases |g|
  {
    if |g| > 0 {
      var prefix := g[..|g| - 1];
      KeptRows(prefix);
    }
  }

  /** k rows of `grid_width` empty cells. */
  function Blanks(k: nat): (r: Grid)
    ensures |r| == k
    ensures forall t :: 0 <= t < k ==> r[t] == EmptyRow()
  {
    seq(k, _ => EmptyRow())
  }

  /** `del grid[line]` for each line of a decreasing list, with no
      insertion in between. */
  function DeleteRows(g: Grid, lines: seq<nat>): (r: Grid)
    requires Decreasing(lines)
    requires |lines| > 0 ==> lines[0] < |g|
    ensures |r| + |lines| == |g|
    decreases |lines|
  {
    if |lines| == 0 then g
    else
      var line := lines[0];
      DeleteRows(g[..line] + g[line + 1..], lines[1..])
  }

  /** `clear_lines` on the grid, as evidently intended: the full rows are
      removed and as many empty rows are put on top, so the grid keeps its
      size, no row is left full, and the other rows keep their order. */
  function ClearRows(g: Grid): (r: Grid)
    requires WellFormed(g)
    ensures WellFormed(r)
    ensures NoFullRow(r)
    ensures r == Blanks(|FullRows(g)|) + Kept(g)
    ensures |FullRows(g)| == 0 ==> r == g
  {
    var full := FullRows(g);
    DeleteFullRows(g);
    RefilledShape(g);
    Blanks(|full|) + DeleteRows(g, Reverse(full))
  }

  /** The kept rows under the empty ones form a full-size grid with no
      full row, and with nothing to remove it is the grid itself. */
  lemma RefilledShape(g: Grid)
    requires WellFormed(g)
    ensures WellFormed(Blanks(|FullRows(g)|) + Kept(g))
    ensures NoFullRow(Blanks(|FullRows(g)|) + Kept(g))
    ensures |FullRows(g)| == 0 ==> Blanks(0) + Kept(g) == g
  {
    var k := |FullRows(g)|;
    var blanks := Blanks(k);
    var kept := Kept(g);
    KeptRows(g);
    var r := blanks + kept;
    forall t | 0 <= t < |r|
      ensures |r[t]| == Width && !IsFull(r[t])
    {
      if t < k {
        assert r[t] == EmptyRow();
        assert !r[t][0];
      } else {
        assert r[t] == kept[t - k];
      }
    }
    if k == 0 {
      NoneFullAll(g);
    }
  }

  /** With nothing collected, no row is full and every row is kept. */
  lemma NoneFullAll(g: Grid)
    requires |FullRows(g)| == 0
    ensures NoFullRow(g)
    ensures Blanks(0) + Kept(g) == g
  {
    FullRowsExact(g);
    assert forall i: nat :: i < |g| ==> i !in FullRows(g);
    KeptAll(g);
  }

  /** A grid with no full row has nothing to clear. */
  lemma {:induction false} NothingFull(g: Grid)
    requires NoFullRow(g)
    ensures FullRows(g) == []
    decreases |g|
  {
    if |g| > 0 {
      var prefix := g[..|g| - 1];
      NothingFull(prefix);
    }
  }

  /** With no full row, nothing is removed. */
  lemma {:induction false} KeptAll(g: Grid)
    requires NoFullRow(g)
    ensures Kept(g) == g
    decreases |g|
  {
    if |g| > 0 {
      var prefix := g[..|g| - 1];
      var last := g[|g| - 1];
      assert !IsFull(last);
      assert Kept(g) == Kept(prefix) + [last];
      KeptAll(prefix);
      assert g == prefix + [last];
    }
  }

  /** Deleting from a list of rows leaves a row appended after them alone. */
  lemma {:induction false} DeleteRowsAppend(p: Grid, last: Row, lines: seq<nat>)
    requires Decreasing(lines)
    requires |lines| > 0 ==> lines[0] < |p|
    ensures DeleteRows(p + [last], lines) == DeleteRows(p, lines) + [last]
    decreases |lines|
  {
    if |lines| > 0 {
      var line := lines[0];
      var p' := p[..line] + p[line + 1..];
      assert (p + [last])[..line] + (p + [last])[line + 1..] == p' + [last];
      DeleteRowsAppend(p', last, lines[1..]);
    }
  }

  /** Removing the full rows bottom-most first, without insertions in
      between, leaves exactly the rows that were not full, in order. */
  lemma {:induction false} DeleteFullRows(g: Grid)
    ensures DeleteRows(g, Reverse(FullRows(g))) == Kept(g)
    decreases |g|
  {
    if |g| > 0 {
      var n := |g| - 1;
      var prefix, last := g[..n], g[n];
      assert g == prefix + [last];
      DeleteFullRows(prefix);
      if IsFull(last) {
        DeleteFullLast(prefix, last);
      } else {
        DeleteKeptLast(prefix, last);
      }
    }
  }

  /** Collecting over one more row at the bottom. */
  lemma FullRowsSnoc(p: Grid, last: Row)
    ensures FullRows(p + [last]) == FullRows(p) + (if IsFull(last) then [|p|] else [])
  {
    assert (p + [last])[..|p|] == p;
  }

  /** Keeping over one more row at the bottom. */
  lemma KeptSnoc(p: Grid, last: Row)
    ensures Kept(p + [last]) == Kept(p) + (if IsFull(last) then [] else [last])
  {
    assert (p + [last])[..|p|] == p;
  }

  /** The step of `DeleteFullRows` when the bottom row is full: it is the
      first one deleted, and the rest is the deletion in the rows above. */
  lemma DeleteFullLast(p: Grid, last: Row)
    requires IsFull(last)
    requires DeleteRows(p, Reverse(FullRows(p))) == Kept(p)
    ensures DeleteRows(p + [last], Reverse(FullRows(p + [last]))) == Kept(p + [last])
  {
    var g := p + [last];
    var n := |p|;
    var fp := FullRows(p);
    var inner := Reverse(fp);
    FullRowsSnoc(p, last);
    ReverseSnoc(fp, n);
    KeptSnoc(p, last);
    var lines := Reverse(FullRows(g));
    assert lines == [n] + inner;
    DeleteFirst(p, last, lines);
    assert lines[1..] == inner;
  }

  /** Deleting the bottom row first leaves the rows above it. */
  lemma DeleteFirst(p: Grid, last: Row, lines: seq<nat>)
    requires Decreasing(lines) && |lines| > 0 && lines[0] == |p|
    ensures DeleteRows(p + [last], lines) == DeleteRows(p, lines[1..])
  {
    var g := p + [last];
    assert g[..|p|] + g[|p| + 1..] == p;
  }

  /** The step of `DeleteFullRows` when the bottom row is kept: the
      deletions all happen above it. */
  lemma DeleteKeptLast(p: Grid, last: Row)
    requires !IsFull(last)
    requires DeleteRows(p, Reverse(FullRows(p))) == Kept(p)
    ensures DeleteRows(p + [last], Reverse(FullRows(p + [last]))) == Kept(p + [last])
  {
    FullRowsSnoc(p, last);
    assert FullRows(p + [last]) == FullRows(p) + [];
    assert FullRows(p) + [] == FullRows(p);
    KeptSnoc(p, last);
    DeleteRowsAppend(p, last, Reverse(FullRows(p)));
  }

  /** Reversing a list with one more entry at the end puts it in front. */
  lemma ReverseSnoc(s: seq<nat>, v: nat)
    ensures Reverse(s + [v]) == [v] + Reverse(s)
  {
    assert (s + [v])[..|s|] == s;
  }

  // ---------------------------------------------------------------------
  // The removal loop as the source writes it

  /** `del grid[line]` followed at once by `grid.insert(0, empty row)`, for
      each line in turn. */
  function ShiftDelete(g: Grid, lines: seq<nat>): (r: Grid)
    requires forall t :: 0 <= t < |lines| ==> lines[t] < |g|
    ensures |r| == |g|
    ensures WellFormed(g) ==> WellFormed(r)
    decreases |lines|
  {
    if |lines| == 0 then g
    else
      var line := lines[0];
      ShiftDelete([EmptyRow()] + (g[..line] + g[line + 1..]), lines[1..])
  }

  /** The grid part of `clear_lines` exactly as written. */
  function ClearRowsAsWritten(g: Grid): (r: Grid)
    requires WellFormed(g)
    ensures WellFormed(r)
  {
    var full := FullRows(g);
    ShiftDelete(g, Reverse(full))
  }

  /** With the two bottom rows full and no other, the collected list is
      [18, 19]. */
  lemma BottomTwoFull(g: Grid)
    requires WellFormed(g)
    requires IsFull(g[18]) && IsFull(g[19])
    requires forall r :: 0 <= r < 18 ==> !IsFull(g[r])
    ensures FullRows(g) == [18, 19]
  {
    var p19 := g[..19];
    var p18 := g[..18];
    assert p19[..18] == p18;
    NothingFull(p18);
    assert FullRows(p19) == FullRows(p18) + [18];
    assert FullRows(g) == FullRows(p19) + [19];
  }

  /** The source's loop on the list [19, 18]: old row 18 ends up at the
      bottom. */
  lemma ShiftDeleteBottomTwo(g: Grid)
    requires WellFormed(g)
    ensures ShiftDelete(g, [19, 18])[19] == g[18]
  {
    var h1 := [EmptyRow()] + (g[..19] + g[20..]);
    var h2 := [EmptyRow()] + (h1[..18] + h1[19..]);
    assert ShiftDelete(g, [19, 18]) == ShiftDelete(h1, [18]);
    assert ShiftDelete(h1, [18]) == ShiftDelete(h2, []);
    assert h1[19] == g[18];
    assert h2[19] == h1[19];
  }

  /** The source's loop on the list [19, 18, 17]: the removals land on old
      rows 19, 17 and 15, so old row 15 is lost and old row 18 remains. */
  lemma ShiftDeleteBottomThree(g: Grid)
    requires WellFormed(g)
    ensures ShiftDelete(g, [19, 18, 17]) ==
      [EmptyRow(), EmptyRow(), EmptyRow()] + g[..15] + [g[16], g[18]]
  {
    var e := EmptyRow();
    var h1 := [e] + (g[..19] + g[20..]);
    assert h1 == [e] + g[..19];
    var h2 := [e] + (h1[..18] + h1[19..]);
    assert h1[..18] == [e] + g[..17] && h1[19..] == [g[18]];
    assert h2 == [e, e] + g[..17] + [g[18]];
    var h3 := [e] + (h2[..17] + h2[18..]);
    assert h2[..17] == [e, e] + g[..15] && h2[18..] == [g[16], g[18]];
    assert h3 == [e, e, e] + g[..15] + [g[16], g[18]];
    assert ShiftDelete(g, [19, 18, 17]) == ShiftDelete(h1, [18, 17]);
    assert [18, 17][1..] == [17];
    assert ShiftDelete(h1, [18, 17]) == ShiftDelete(h2, [17]);
    assert ShiftDelete(h2, [17]) == ShiftDelete(h3, []);
  }

  /** With the two bottom rows full and no other, the source removes the
      bottom row and then the row two above it, so the full row 18 ends up
      as the bottom row and is still there after clearing. */
  lemma AsWrittenLeavesFullRow(g: Grid)
    requires WellFormed(g)
    requires IsFull(g[18]) && IsFull(g[19])
    requires forall r :: 0 <= r < 18 ==> !IsFull(g[r])
    ensures |FullRows(g)| == 2
    ensures ClearRowsAsWritten(g)[19] == g[18]
    ensures !NoFullRow(ClearRowsAsWritten(g))
    ensures ClearRowsAsWritten(g) != ClearRows(g)
  {
    BottomTwoFull(g);
    var desc := Reverse([18, 19]);
    assert desc == [19, 18];
    ShiftDeleteBottomTwo(g);
    var r := ClearRowsAsWritten(g);
    assert r[19] == g[18];
    assert !IsFull(ClearRows(g)[19]);
  }

  // ---------------------------------------------------------------------
  // Points

  /** Points for removing k rows in one call: nothing for 0 or for more
      than 4. */
  function ScoreFor(k: nat): (points: nat)
    ensures points <= 800
    ensures points > 0 <==> 1 <= k <= 4
  {
    if k == 1 then 100
    else if k == 2 then 300
    else if k == 3 then 500
    else if k == 4 then 800
    else 0
  }

  // ---------------------------------------------------------------------
  // How many rows one lock can complete

  /** Entry t of an increasing list is at least t above the first entry. */
  lemma {:induction false} IncreasingFloor(s: seq<nat>, t: nat)
    requires Increasing(s) && t < |s|
    ensures s[t] >= s[0] + t
    decreases |s|
  {
    if t > 0 {
      var prefix := s[..|s| - 1];
      if t == |s| - 1 {
        IncreasingFloor(prefix, t - 1);
      } else {
        IncreasingFloor(prefix, t);
      }
    }
  }

  /** An increasing list inside [lo, hi) has at most hi - lo entries. */
  lemma IncreasingWithin(s: seq<nat>, lo: int, hi: int)
    requires Increasing(s)
    requires forall t :: 0 <= t < |s| ==> lo <= s[t] < hi
    ensures |s| <= if hi >= lo then hi - lo else 0
  {
    if |s| > 0 {
      IncreasingFloor(s, |s| - 1);
    }
  }

  /** On a grid with no full row, writing a piece in completes only rows the
      piece covers, so at most as many rows as the shape is tall. */
  lemma LockCompletesAtMostShapeRows(g: Grid, shape: Mask, x: int, y: nat)
    requires WellFormed(g) && NoFullRow(g) && Fits(shape, x, y)
    ensures forall t :: 0 <= t < |FullRows(Stamp(g, shape, x, y))| ==>
      y <= FullRows(Stamp(g, shape, x, y))[t] < y + |shape|
    ensures |FullRows(Stamp(g, shape, x, y))| <= |shape|
  {
    var s := Stamp(g, shape, x, y);
    var full := FullRows(s);
    StampCells(g, shape, x, y);
    FullRowsExact(s);
    forall t | 0 <= t < |full|
      ensures y <= full[t] < y + |shape|
    {
      assert full[t] in full;
    }
    IncreasingWithin(full, y, y + |shape|);
  }
}
