/**
 * slideDown and slideRight as the program writes them, one column or one row at a time, in
 * the program's own coordinates: a column is listed from row 0 (top) to row 3, a row from
 * column 0 (left) to column 3. An access outside the grid gives `None`.
 *
 * The lemmas here show where these two functions depart from the mirror images of slideUp and
 * slideLeft; GridEngine models the move functions as those mirrors.
 */
module AsWritten {
  import opened LineRule

  datatype Option<T> = None | Some(value: T)

  /** The tile at `from` written to `to`, and `from` emptied. */
  function Relocate(s: seq<int>, from: nat, to: nat): (s1: seq<int>)
    ensures |s1| == |s|
  {
    if from < |s| && to < |s| then s[to := s[from]][from := 0] else s
  }

  // ---------------------------------------------------------------------------------------
  // slideDown

  /** slideDown's scan: p advances while the cell AT p is empty, and it starts on a tile. */
  function DownScan(s: seq<int>, p: nat): (q: nat)
    requires p < |s|
    ensures p <= q < |s|
    decreases |s| - p
  {
    if p < |s| - 1 && s[p] == 0 then DownScan(s, p + 1) else p
  }

  /**
   * slideDown's inner-loop body for the tile in row r: the slide to the scan's position, then,
   * unless that is the bottom row, the merge test against the row below, which writes the
   * doubled value into the row ABOVE and empties the tile's own cell. Writing above row 0 is
   * outside the grid.
   */
  function DownVisit(w: Sweep, r: nat): (v: Option<Sweep>)
    requires r < |w.cells| == |w.fused|
    ensures v.Some? ==> |v.value.cells| == |w.cells| && |v.value.fused| == |w.fused|
  {
    var s := w.cells;
    if s[r] == 0 then Some(w)
    else
      var p := DownScan(s, r);
      var s1 := if p != r then Relocate(s, r, p) else s;
      var moved := w.moved || p != r;
      if p == |s| - 1 then Some(Sweep(s1, w.fused, moved))
      else if !w.fused[p + 1] && s1[p] == s1[p + 1] then
        if p == 0 then None
        else Some(Sweep(s1[p - 1 := 2 * s1[p + 1]][p := 0], w.fused[p + 1 := true], moved))
      else Some(Sweep(s1, w.fused, moved))
  }

  /** slideDown's inner loop over rows n-1 down to 0. */
  function DownFrom(w: Sweep, n: nat): (v: Option<Sweep>)
    requires n <= |w.cells| == |w.fused|
    ensures v.Some? ==> |v.value.cells| == |w.cells| && |v.value.fused| == |w.fused|
    decreases n
  {
    if n == 0 then Some(w)
    else
      match DownVisit(w, n - 1)
      case None => None
      case Some(w') => DownFrom(w', n - 1)
  }

  /** slideDown on one column: rows |col|-2 down to 0 are visited, with an empty merge mask. */
  function SlideDownColumn(col: seq<int>): (v: Option<Sweep>)
    requires |col| >= 1
    ensures v.Some? ==> |v.value.cells| == |col| && |v.value.fused| == |col|
  {
    DownFrom(Sweep(col, NoneFused(|col|), false), |col| - 1)
  }

  /** The scan starts on a tile, so it never advances. */
  lemma DownScanStays(s: seq<int>, p: nat)
    requires p < |s| && s[p] != 0
    ensures DownScan(s, p) == p
  {
  }

  lemma {:induction false} DownFromNeverMoves(w: Sweep, n: nat)
    requires n <= |w.cells| == |w.fused| && !w.moved
    ensures DownFrom(w, n).Some? ==> !DownFrom(w, n).value.moved
    decreases n
  {
    if n > 0 {
      var r := n - 1;
      if w.cells[r] != 0 {
        DownScanStays(w.cells, r);
      }
      match DownVisit(w, r)
      case None =>
      case Some(w') => DownFromNeverMoves(w', r);
    }
  }

  /** As written, slideDown never moves a tile, so it never reports movement. */
  lemma SlideDownNeverMoves(col: seq<int>)
    requires |col| >= 1
    ensures SlideDownColumn(col).Some? ==> !SlideDownColumn(col).value.moved
  {
    DownFromNeverMoves(Sweep(col, NoneFused(|col|), false), |col| - 1);
  }

  /**
   * A lone tile at the top of a column stays there and no movement is reported, where the
   * mirror of slideUp takes it to the bottom row and reports movement (read from the bottom
   * wall, the column is [0, 0, 0, 2]).
   */
  lemma SlideDownLeavesTileInPlace()
    ensures SlideDownColumn([2, 0, 0, 0]) == Some(Sweep([2, 0, 0, 0], NoneFused(4), false))
    ensures Slide([0, 0, 0, 2]) == [2, 0, 0, 0] && AnyTileMoves([0, 0, 0, 2])
  {
    var w := Sweep([2, 0, 0, 0], NoneFused(4), false);
    assert DownVisit(w, 2) == Some(w);
    assert DownVisit(w, 1) == Some(w);
    DownScanStays([2, 0, 0, 0], 0);
    assert DownVisit(w, 0) == Some(w);
    assert Tiles([0, 0, 0, 2]) == [2] by {
      assert [0, 0, 0, 2][1..] == [0, 0, 2];
      assert [0, 0, 2][1..] == [0, 2];
      assert [0, 2][1..] == [2];
      assert [2][1..] == [];
    }
    assert Tiles([0, 0, 0, 2][..3]) == [] by {
      assert [0, 0, 0, 2][..3] == [0, 0, 0];
      assert [0, 0, 0][1..] == [0, 0];
      assert [0, 0][1..] == [0];
      assert [0][1..] == [];
    }
    assert Zeros(3) == [0, 0, 0] by {
      assert Zeros(1) == [0];
      assert Zeros(2) == [0, 0];
    }
  }

  /**
   * Two equal tiles in rows 1 and 2 give a doubled tile in row 0 while the tile in row 2
   * stays: the column's sum goes from 8 to 12.
   */
  lemma SlideDownCreatesValue()
    ensures SlideDownColumn([0, 4, 4, 0])
         == Some(Sweep([8, 0, 4, 0], [false, false, true, false], false))
    ensures Sum([0, 4, 4, 0]) == 8 && Sum([8, 0, 4, 0]) == 12
  {
    var w := Sweep([0, 4, 4, 0], NoneFused(4), false);
    DownScanStays([0, 4, 4, 0], 2);
    assert DownVisit(w, 2) == Some(w);
    DownScanStays([0, 4, 4, 0], 1);
    var w1 := Sweep([8, 0, 4, 0], [false, false, true, false], false);
    assert NoneFused(4)[2 := true] == [false, false, true, false];
    assert [0, 4, 4, 0][0 := 8][1 := 0] == [8, 0, 4, 0];
    assert DownVisit(w, 1) == Some(w1);
    assert DownVisit(w1, 0) == Some(w1);
    assert DownFrom(w1, 1) == Some(w1);
    assert DownFrom(w, 2) == Some(w1);
    assert [0, 4, 4, 0][1..] == [4, 4, 0] && [4, 4, 0][1..] == [4, 0] && [4, 0][1..] == [0];
    assert [8, 0, 4, 0][1..] == [0, 4, 0] && [0, 4, 0][1..] == [4, 0];
  }

  // ---------------------------------------------------------------------------------------
  // slideRight

  /**
   * slideRight's scan: p advances while the cell after it is empty. The program reads that
   * cell before testing p < GRID_SIZE - 1, so at the last column it reads one cell past the
   * row; the test then stops the scan whatever was read, and the read is not reproduced here.
   */
  function RightScan(s: seq<int>, p: nat): (q: nat)
    requires p < |s|
    ensures p <= q < |s|
    decreases |s| - p
  {
    if p < |s| - 1 && s[p + 1] == 0 then RightScan(s, p + 1) else p
  }

  /**
   * slideRight's inner-loop body for the tile in column c: the slide to the scan's position,
   * then the merge test against the next column, which has no guard for a tile that ended
   * against the wall and then reads past the row.
   */
  function RightVisit(w: Sweep, c: nat): (v: Option<Sweep>)
    requires c < |w.cells| == |w.fused|
    ensures v.Some? ==> |v.value.cells| == |w.cells| && |v.value.fused| == |w.fused|
  {
    var s := w.cells;
    if s[c] == 0 then Some(w)
    else
      var p := RightScan(s, c);
      var s1 := if p != c then Relocate(s, c, p) else s;
      var moved := w.moved || p != c;
      if p == |s| - 1 then None
      else if !w.fused[p + 1] && s1[p] == s1[p + 1] then
        Some(Sweep(s1[p + 1 := 2 * s1[p + 1]][p := 0], w.fused[p + 1 := true], moved))
      else Some(Sweep(s1, w.fused, moved))
  }

  /** slideRight's column loop over columns n-1 down to 0, for one row. */
  function RightFrom(w: Sweep, n: nat): (v: Option<Sweep>)
    requires n <= |w.cells| == |w.fused|
    ensures v.Some? ==> |v.value.cells| == |w.cells| && |v.value.fused| == |w.fused|
    decreases n
  {
    if n == 0 then Some(w)
    else
      match RightVisit(w, n - 1)
      case None => None
      case Some(w') => RightFrom(w', n - 1)
  }

  /** slideRight on one row: columns |row|-2 down to 0 are visited, with an empty merge mask. */
  function SlideRightRow(row: seq<int>): (v: Option<Sweep>)
    requires |row| >= 1
    ensures v.Some? ==> |v.value.cells| == |row| && |v.value.fused| == |row|
  {
    RightFrom(Sweep(row, NoneFused(|row|), false), |row| - 1)
  }

  lemma {:induction false} RightScanToWall(s: seq<int>, p: nat)
    requires p < |s|
    requires forall j :: p < j < |s| ==> s[j] == 0
    ensures RightScan(s, p) == |s| - 1
    decreases |s| - p
  {
    if p < |s| - 1 {
      RightScanToWall(s, p + 1);
    }
  }

  lemma {:induction false} RightFromReadsPastRow(w: Sweep, n: nat)
    requires 1 <= n < |w.cells| == |w.fused|
    requires forall j :: n <= j < |w.cells| ==> w.cells[j] == 0
    requires exists j :: 0 <= j < n && w.cells[j] != 0
    ensures RightFrom(w, n) == None
    decreases n
  {
    var c := n - 1;
    if w.cells[c] == 0 {
      assert RightVisit(w, c) == Some(w);
      RightFromReadsPastRow(w, c);
    } else {
      RightScanToWall(w.cells, c);
    }
  }

  /**
   * As written, slideRight reads past the end of a row whenever the row's last cell is empty
   * and the row holds a tile: that tile slides against the wall and the merge test then reads
   * column GRID_SIZE. The mirror of slideLeft has no such case.
   */
  lemma SlideRightReadsPastRow(row: seq<int>)
    requires |row| >= 2 && row[|row| - 1] == 0
    requires exists j :: 0 <= j < |row| && row[j] != 0
    ensures SlideRightRow(row) == None
  {
    RightFromReadsPastRow(Sweep(row, NoneFused(|row|), false), |row| - 1);
  }
}
