/**
 * The slide-and-merge rule on one line of the grid.
 *
 * A line is read from the wall outward: position 0 touches the wall the tiles are pushed
 * against, position |s| - 1 is the farthest from it. A cell holding 0 is empty; any other
 * value is a tile.
 *
 * Two descriptions of the same move live here:
 *  - `Slide` and `AnyTileMoves`, the rule stated on the sequence of tiles (the reference);
 *  - `Visit` and `SweepTo`, the cell-by-cell sweep that the game's move functions perform,
 *    with the per-move "already absorbed a merge" mask.
 * `SweepMatchesSlide` proves them equal; the other lemmas state what a slide guarantees.
 */
module LineRule {

  // ---------------------------------------------------------------------------------------
  // Helpers on sequences of integers

  /** n empty cells. */
  function Zeros(n: nat): (z: seq<int>)
    ensures |z| == n
    ensures forall i :: 0 <= i < n ==> z[i] == 0
  {
    if n == 0 then [] else [0] + Zeros(n - 1)
  }

  function Sum(s: seq<int>): int
  {
    if s == [] then 0 else s[0] + Sum(s[1..])
  }

  /** No empty cell lies between the wall and a tile. */
  predicate Packed(s: seq<int>)
  {
    forall i, j :: 0 <= i < j < |s| && s[i] == 0 ==> s[j] == 0
  }

  predicate IsPowerOfTwo(v: int)
    decreases if v < 0 then 0 else v
  {
    v == 1 || (v > 1 && v % 2 == 0 && IsPowerOfTwo(v / 2))
  }

  /** Every cell is empty or holds a power of two: the shape of every reachable grid line. */
  predicate PowersOfTwo(s: seq<int>)
  {
    forall i :: 0 <= i < |s| ==> s[i] == 0 || IsPowerOfTwo(s[i])
  }

  // ---------------------------------------------------------------------------------------
  // The reference rule

  /** The tiles of a line, in order from the wall. */
  function Tiles(s: seq<int>): (t: seq<int>)
    ensures |t| <= |s|
    ensures forall i :: 0 <= i < |t| ==> t[i] != 0
  {
    if s == [] then [] else (if s[0] != 0 then [s[0]] else []) + Tiles(s[1..])
  }

  /**
   * The merge rule on a run of tiles, from the wall outward: when the next two tiles are equal
   * they become one tile of twice the value, and that tile takes part in no further merge;
   * otherwise the first tile stays as it is.
   */
  function Merge(t: seq<int>): (m: seq<int>)
    ensures |m| <= |t|
    decreases |t|
  {
    if |t| <= 1 then t
    else if t[0] == t[1] then [2 * t[0]] + Merge(t[2..])
    else [t[0]] + Merge(t[1..])
  }

  /** The line after a move toward the wall: the merged tiles packed against it, then empty cells. */
  function Slide(s: seq<int>): seq<int>
  {
    var m := Merge(Tiles(s));
    m + Zeros(|s| - |m|)
  }

  /** Cell j of the slid line: the j-th merged tile, or empty past the last of them. */
  lemma SlideAt(s: seq<int>, j: nat)
    requires j < |s|
    ensures |Slide(s)| == |s|
    ensures var m := Merge(Tiles(s)); Slide(s)[j] == if j < |m| then m[j] else 0
  {
  }

  /**
   * Whether a move relocates some tile. The tile at position j lands at the first cell after
   * the merged tiles in front of it, so it relocates exactly when those tiles take up fewer
   * than j cells.
   */
  predicate AnyTileMoves(s: seq<int>)
  {
    exists j :: 0 <= j < |s| && s[j] != 0 && |Merge(Tiles(s[..j]))| < j
  }

  // ---------------------------------------------------------------------------------------
  // The sweep the move functions perform

  /** A line part-way through a move: its cells, the merge mask, and whether a tile has slid. */
  datatype Sweep = Sweep(cells: seq<int>, fused: seq<bool>, moved: bool)

  /**
   * The position the tile at k slides to: the scan toward the wall stops at the wall or just
   * after an occupied cell.
   */
  function Reach(s: seq<int>, k: nat): (p: nat)
    requires k < |s|
    ensures p <= k
    ensures forall j :: p <= j < k ==> s[j] == 0
    ensures p == 0 || s[p - 1] != 0
  {
    if k == 0 || s[k - 1] != 0 then k else Reach(s, k - 1)
  }

  /** The line after the tile at k is moved to position p; when p is k nothing moves. */
  function MoveTile(s: seq<int>, k: nat, p: nat): (s1: seq<int>)
    requires p <= k < |s|
    ensures |s1| == |s|
  {
    if p != k then s[p := s[k]][k := 0] else s
  }

  /**
   * The merge test for the tile at p: unless it lies against the wall, it merges into the cell
   * in front of it when that cell holds the same value and has not absorbed a merge yet. The
   * merged cell doubles and is marked, and p is emptied; `moved` is passed through.
   */
  function MergeAt(s: seq<int>, fused: seq<bool>, p: nat, moved: bool): (v: Sweep)
    requires p < |s| == |fused|
    ensures |v.cells| == |s| && |v.fused| == |s|
  {
    if p != 0 && !fused[p - 1] && s[p] == s[p - 1] then
      Sweep(s[p - 1 := 2 * s[p - 1]][p := 0], fused[p - 1 := true], moved)
    else
      Sweep(s, fused, moved)
  }

  /**
   * The loop body for the cell at position k: an empty cell is skipped; a tile slides to
   * `Reach`, then takes the merge test there. `moved` of the result says whether this tile
   * slid.
   */
  function Visit(s: seq<int>, fused: seq<bool>, k: nat): (v: Sweep)
    requires k < |s| == |fused|
    ensures |v.cells| == |s| && |v.fused| == |s|
  {
    if s[k] == 0 then Sweep(s, fused, false)
    else
      var p := Reach(s, k);
      MergeAt(MoveTile(s, k, p), fused, p, p != k)
  }

  /** The mask at the start of a move: no cell has absorbed a merge. */
  function NoneFused(n: nat): (f: seq<bool>)
    ensures |f| == n && forall i :: 0 <= i < n ==> !f[i]
  {
    seq(n, _ => false)
  }

  /**
   * The line after the sweep has visited positions 1 .. k-1 in order; position 0 lies against
   * the wall and is never visited.
   */
  function SweepTo(s: seq<int>, k: nat): (w: Sweep)
    requires k <= |s|
    ensures |w.cells| == |s| && |w.fused| == |s|
  {
    if k <= 1 then Sweep(s, NoneFused(|s|), false)
    else
      var w := SweepTo(s, k - 1);
      var v := Visit(w.cells, w.fused, k - 1);
      Sweep(v.cells, v.fused, w.moved || v.moved)
  }

  /** One more step of the sweep: position k is visited. */
  lemma SweepStep(s: seq<int>, k: nat)
    requires 1 <= k < |s|
    ensures SweepTo(s, k + 1).cells == Visit(SweepTo(s, k).cells, SweepTo(s, k).fused, k).cells
    ensures SweepTo(s, k + 1).fused == Visit(SweepTo(s, k).cells, SweepTo(s, k).fused, k).fused
    ensures SweepTo(s, k + 1).moved == (SweepTo(s, k).moved || Visit(SweepTo(s, k).cells, SweepTo(s, k).fused, k).moved)
  {
  }

  // ---------------------------------------------------------------------------------------
  // The merge rule read tile by tile, as the sweep meets the tiles

  /**
   * The tiles produced so far, and whether the last of them is a tile that has not absorbed a
   * merge (so an equal tile arriving next still merges into it).
   */
  datatype Pending = Pending(out: seq<int>, open: bool)

  function Push(a: Pending, t: int): Pending
  {
    if a.open && |a.out| > 0 && a.out[|a.out| - 1] == t then
      Pending(a.out[..|a.out| - 1] + [2 * t], false)
    else
      Pending(a.out + [t], true)
  }

  function PushAll(a: Pending, t: seq<int>): Pending
    decreases |t|
  {
    if t == [] then a else PushAll(Push(a, t[0]), t[1..])
  }

  /** The tiles a sweep has produced from the prefix s of a line. */
  function Produced(s: seq<int>): Pending
  {
    PushAll(Pending([], false), Tiles(s))
  }

  lemma {:induction false} TilesSnoc(s: seq<int>, x: int)
    ensures Tiles(s + [x]) == Tiles(s) + (if x != 0 then [x] else [])
  {
    if s != [] {
      assert (s + [x])[1..] == s[1..] + [x];
      TilesSnoc(s[1..], x);
    }
  }

  lemma {:induction false} PushAllSnoc(a: Pending, t: seq<int>, x: int)
    ensures PushAll(a, t + [x]) == Push(PushAll(a, t), x)
    decreases |t|
  {
    if t == [] {
      assert PushAll(a, [x]) == PushAll(Push(a, x), []);
    } else {
      assert (t + [x])[1..] == t[1..] + [x];
      PushAllSnoc(Push(a, t[0]), t[1..], x);
    }
  }

  /** PushAll reads its first tile, then the rest. */
  lemma PushAllCons(a: Pending, x: int, rest: seq<int>)
    ensures PushAll(a, [x] + rest) == PushAll(Push(a, x), rest)
  {
    assert ([x] + rest)[1..] == rest;
  }

  /** Reading the tiles one by one produces exactly the reference merge. */
  lemma {:induction false} PushAllMerges(o: seq<int>, t: seq<int>)
    ensures PushAll(Pending(o, false), t).out == o + Merge(t)
    decreases |t|
  {
    if |t| == 0 {
      assert o + Merge(t) == o;
    } else if |t| == 1 {
      PushAllCons(Pending(o, false), t[0], []);
      assert t == [t[0]] + [];
    } else {
      var x, y, rest := t[0], t[1], t[2..];
      assert t == [x] + ([y] + rest);
      assert t[1..] == [y] + rest;
      PushAllCons(Pending(o, false), x, [y] + rest);
      assert Push(Pending(o, false), x) == Pending(o + [x], true);
      PushAllCons(Pending(o + [x], true), y, rest);
      if x == y {
        assert (o + [x])[..|o|] == o;
        assert Push(Pending(o + [x], true), y) == Pending(o + [2 * x], false);
        PushAllMerges(o + [2 * x], rest);
        assert o + [2 * x] + Merge(rest) == o + ([2 * x] + Merge(rest));
      } else {
        PushAllCons(Pending(o + [x], false), y, rest);
        assert Push(Pending(o + [x], true), y) == Push(Pending(o + [x], false), y);
        PushAllMerges(o + [x], [y] + rest);
        assert o + [x] + Merge(t[1..]) == o + ([x] + Merge(t[1..]));
      }
    }
  }

  lemma ProducedMerges(s: seq<int>)
    ensures Produced(s).out == Merge(Tiles(s))
  {
    PushAllMerges([], Tiles(s));
  }

  lemma ProducedSnoc(s: seq<int>, x: int)
    ensures Produced(s + [x]) == if x != 0 then Push(Produced(s), x) else Produced(s)
  {
    TilesSnoc(s, x);
    PushAllSnoc(Pending([], false), Tiles(s), x);
    assert Tiles(s) + [] == Tiles(s);
  }

  // ---------------------------------------------------------------------------------------
  // What a slide guarantees

  lemma {:induction false} MergeNonZero(t: seq<int>)
    requires forall i :: 0 <= i < |t| ==> t[i] != 0
    ensures forall i :: 0 <= i < |Merge(t)| ==> Merge(t)[i] != 0
    decreases |t|
  {
    if |t| >= 2 {
      if t[0] == t[1] { MergeNonZero(t[2..]); } else { MergeNonZero(t[1..]); }
    }
  }

  /** Tiles end up packed against the wall: no empty cell lies between the wall and a tile. */
  lemma SlidePacked(s: seq<int>)
    ensures |Slide(s)| == |s|
    ensures Packed(Slide(s))
  {
    var m := Merge(Tiles(s));
    MergeNonZero(Tiles(s));
    assert forall j :: 0 <= j < |s| ==> (Slide(s)[j] == 0 <==> j >= |m|);
  }

  lemma {:induction false} SumConcat(a: seq<int>, b: seq<int>)
    ensures Sum(a + b) == Sum(a) + Sum(b)
  {
    if a == [] {
      assert a + b == b;
    } else {
      assert (a + b)[1..] == a[1..] + b;
      SumConcat(a[1..], b);
    }
  }

  lemma {:induction false} SumZeros(n: nat)
    ensures Sum(Zeros(n)) == 0
  {
    if n > 0 { SumZeros(n - 1); }
  }

  lemma {:induction false} TilesKeepSum(s: seq<int>)
    ensures Sum(Tiles(s)) == Sum(s)
  {
    if s != [] {
      TilesKeepSum(s[1..]);
      SumConcat(if s[0] != 0 then [s[0]] else [], Tiles(s[1..]));
    }
  }

  lemma {:induction false} MergeKeepsSum(t: seq<int>)
    ensures Sum(Merge(t)) == Sum(t)
    decreases |t|
  {
    if |t| >= 2 {
      assert t[1..][1..] == t[2..];
      if t[0] == t[1] {
        MergeKeepsSum(t[2..]);
        SumConcat([2 * t[0]], Merge(t[2..]));
      } else {
        MergeKeepsSum(t[1..]);
        SumConcat([t[0]], Merge(t[1..]));
      }
    }
  }

  /** A merge turns (V, V) into (2V, empty): a slide never changes the sum of a line. */
  lemma SlideKeepsSum(s: seq<int>)
    ensures Sum(Slide(s)) == Sum(s)
  {
    var m := Merge(Tiles(s));
    SumConcat(m, Zeros(|s| - |m|));
    SumZeros(|s| - |m|);
    MergeKeepsSum(Tiles(s));
    TilesKeepSum(s);
  }

  lemma {:induction false} MergeHalves(t: seq<int>)
    ensures |t| <= 2 * |Merge(t)|
    decreases |t|
  {
    if |t| >= 2 {
      if t[0] == t[1] { MergeHalves(t[2..]); } else { MergeHalves(t[1..]); }
    }
  }

  /**
   * Every cell absorbs at most one merge, so a line of n cells sees at most n / 2 merges;
   * each merge removes one tile.
   */
  lemma SlideMergeBound(s: seq<int>)
    ensures |Tiles(s)| - |Merge(Tiles(s))| <= |s| / 2
  {
    MergeHalves(Tiles(s));
  }

  lemma DoublePowerOfTwo(v: int)
    requires IsPowerOfTwo(v)
    ensures IsPowerOfTwo(2 * v)
  {
    assert (2 * v) / 2 == v;
  }

  lemma {:induction false} TilesOfPowers(s: seq<int>)
    requires PowersOfTwo(s)
    ensures forall i :: 0 <= i < |Tiles(s)| ==> IsPowerOfTwo(Tiles(s)[i])
  {
    if s != [] {
      TilesOfPowers(s[1..]);
    }
  }

  lemma {:induction false} MergeOfPowers(t: seq<int>)
    requires forall i :: 0 <= i < |t| ==> IsPowerOfTwo(t[i])
    ensures forall i :: 0 <= i < |Merge(t)| ==> IsPowerOfTwo(Merge(t)[i])
    decreases |t|
  {
    if |t| >= 2 {
      if t[0] == t[1] {
        DoublePowerOfTwo(t[0]);
        MergeOfPowers(t[2..]);
      } else {
        MergeOfPowers(t[1..]);
      }
    }
  }

  /** Values only ever double: a line of empty cells and powers of two stays one. */
  lemma SlideKeepsPowers(s: seq<int>)
    requires PowersOfTwo(s)
    ensures PowersOfTwo(Slide(s))
  {
    TilesOfPowers(s);
    MergeOfPowers(Tiles(s));
  }

  lemma {:induction false} TilesOfFull(s: seq<int>)
    requires forall i :: 0 <= i < |s| ==> s[i] != 0
    ensures Tiles(s) == s
  {
    if s != [] {
      TilesOfFull(s[1..]);
    }
  }

  lemma {:induction false} MergeOfDistinct(t: seq<int>)
    requires forall i :: 0 <= i < |t| - 1 ==> t[i] != t[i + 1]
    ensures Merge(t) == t
    decreases |t|
  {
    if |t| >= 2 {
      MergeOfDistinct(t[1..]);
      assert t == [t[0]] + t[1..];
    }
  }
}

module LineSweep {
  import opened LineRule

  lemma {:induction false} ZeroOfShortTiles(t: seq<int>)
    requires |Tiles(t)| < |t|
    ensures exists i :: 0 <= i < |t| && t[i] == 0
  {
    if t[0] != 0 {
      assert Tiles(t) == [t[0]] + Tiles(t[1..]);
      ZeroOfShortTiles(t[1..]);
      var i :| 0 <= i < |t[1..]| && t[1..][i] == 0;
      assert t[i + 1] == 0;
    }
  }

  lemma PackedPrefix(s: seq<int>, k: nat)
    requires k < |s|
    requires Packed(s[..k + 1])
    ensures Packed(s[..k])
  {
    forall i, j | 0 <= i < j < k && s[..k][i] == 0 ensures s[..k][j] == 0 {
      assert s[..k + 1][i] == 0;
    }
  }

  /**
   * The sweep after the positions below k: the tiles produced from s[..k] lie packed against
   * the wall, empty cells follow up to k, and the rest of the line is untouched. The mask marks
   * the last produced tile exactly when it absorbed a merge, and nothing beyond it. A slide so
   * far means the produced tiles are fewer than k, and that s[..k] either had a gap or merged.
   */
  ghost predicate Tracks(s: seq<int>, k: nat, w: Sweep)
    requires k <= |s|
  {
    var a := Produced(s[..k]);
    var n := |a.out|;
    |w.cells| == |s| && |w.fused| == |s| && n <= k && n <= |Tiles(s[..k])|
    && (forall j :: 0 <= j < n ==> a.out[j] != 0)
    && (forall j :: 0 <= j < |s| ==> w.cells[j] == if j < n then a.out[j] else if j < k then 0 else s[j])
    && (a.open ==> n > 0)
    && (n > 0 ==> (w.fused[n - 1] <==> !a.open))
    && (forall j :: n <= j < |s| ==> !w.fused[j])
    && (w.moved ==> n < k)
    && (w.moved ==> !Packed(s[..k]) || n < |Tiles(s[..k])|)
  }

  /** Visiting an empty cell changes nothing and the produced tiles stay the same. */
  lemma VisitSkips(s: seq<int>, k: nat, w: Sweep)
    requires k < |s| && s[k] == 0 && Tracks(s, k, w)
    ensures var v := Visit(w.cells, w.fused, k);
      !v.moved && Tracks(s, k + 1, Sweep(v.cells, v.fused, w.moved || v.moved))
  {
    var v := Visit(w.cells, w.fused, k);
    assert w.cells[k] == 0;
    assert v.cells == w.cells && v.fused == w.fused && !v.moved;
    assert s[..k + 1] == s[..k] + [s[k]];
    ProducedSnoc(s[..k], s[k]);
    TilesSnoc(s[..k], s[k]);
    assert Tiles(s[..k]) + [] == Tiles(s[..k]);
    assert Produced(s[..k + 1]) == Produced(s[..k]);
    if w.moved && Packed(s[..k + 1]) {
      PackedPrefix(s, k);
    }
  }

  /** The scan from a tile at k stops right after the produced tiles. */
  lemma ReachAfterProduced(s: seq<int>, k: nat, w: Sweep)
    requires k < |s| && Tracks(s, k, w)
    ensures Reach(w.cells, k) == |Produced(s[..k]).out|
  {
    var n := |Produced(s[..k]).out|;
    var p := Reach(w.cells, k);
    var atP := w.cells[p];
  }

  /** A slide means s[..k + 1] had a gap before its last tile, or its tiles merged. */
  lemma SlideWitness(s: seq<int>, k: nat, n: nat)
    requires k < |s| && s[k] != 0 && n < k && n <= |Tiles(s[..k])|
    ensures !Packed(s[..k + 1]) || n < |Tiles(s[..k])|
  {
    if n == |Tiles(s[..k])| {
      ZeroOfShortTiles(s[..k]);
      var i :| 0 <= i < k && s[..k][i] == 0;
      assert s[..k + 1][i] == 0 && s[..k + 1][k] != 0;
    }
  }

  /** Visiting a tile: it slides to the first cell after the produced tiles, then merges as Push says. */
  lemma VisitTile(s: seq<int>, k: nat, w: Sweep)
    requires k < |s| && s[k] != 0 && Tracks(s, k, w)
    ensures var v := Visit(w.cells, w.fused, k);
      v.moved == (|Produced(s[..k]).out| < k)
      && Tracks(s, k + 1, Sweep(v.cells, v.fused, w.moved || v.moved))
  {
    var x := s[k];
    var a := Produced(s[..k]);
    var n := |a.out|;
    assert s[..k + 1] == s[..k] + [x];
    ProducedSnoc(s[..k], x);
    TilesSnoc(s[..k], x);
    ReachAfterProduced(s, k, w);
    if n < k {
      SlideWitness(s, k, n);
    }
    if w.moved && !Packed(s[..k]) && Packed(s[..k + 1]) {
      PackedPrefix(s, k);
    }
    MoveTileCells(s, k, w);
    if a.open && n > 0 && a.out[n - 1] == x {
      VisitMerges(s, k, w);
    } else {
      VisitStays(s, k, w);
    }
  }

  /** What the sweep knows when it reaches the tile at k, before the merge test. */
  ghost predicate TileStep(s: seq<int>, k: nat, w: Sweep)
    requires k < |s|
  {
    var a := Produced(s[..k]);
    var n := |a.out|;
    s[k] != 0 && Tracks(s, k, w)
    && Produced(s[..k + 1]) == Push(a, s[k])
    && Tiles(s[..k + 1]) == Tiles(s[..k]) + [s[k]]
    && Reach(w.cells, k) == n
    && (n < k ==> !Packed(s[..k + 1]) || n < |Tiles(s[..k])|)
    && (w.moved ==> !Packed(s[..k + 1]) || n < |Tiles(s[..k])|)
    && forall j :: 0 <= j < |s| ==>
         MoveTile(w.cells, k, n)[j] == if j < n then a.out[j] else if j == n then s[k] else if j <= k then 0 else s[j]
  }

  /** The tile at k slid to just after the produced tiles, the cells between emptied. */
  lemma MoveTileCells(s: seq<int>, k: nat, w: Sweep)
    requires k < |s| && Tracks(s, k, w) && Reach(w.cells, k) == |Produced(s[..k]).out|
    ensures var a := Produced(s[..k]); var n := |a.out|;
      forall j :: 0 <= j < |s| ==>
        MoveTile(w.cells, k, n)[j] == if j < n then a.out[j] else if j == n then s[k] else if j <= k then 0 else s[j]
  {
  }

  /** The tile at k merges into the last produced tile, which becomes twice as large and marked. */
  lemma VisitMerges(s: seq<int>, k: nat, w: Sweep)
    requires k < |s| && TileStep(s, k, w)
    requires var a := Produced(s[..k]); var n := |a.out|; a.open && n > 0 && a.out[n - 1] == s[k]
    ensures var v := Visit(w.cells, w.fused, k);
      v.moved == (|Produced(s[..k]).out| < k)
      && Tracks(s, k + 1, Sweep(v.cells, v.fused, w.moved || v.moved))
  {
    var a := Produced(s[..k]);
    var n := |a.out|;
    var v := Visit(w.cells, w.fused, k);
    assert v.moved == (n != k);
    assert forall j :: 0 <= j < |s| ==>
      v.cells[j] == if j < n - 1 then a.out[j] else if j == n - 1 then 2 * s[k] else if j <= k then 0 else s[j];
    assert v.fused == w.fused[n - 1 := true];
  }


  /** The tile at k does not merge: it becomes the last produced tile, unmarked. */
  lemma VisitStays(s: seq<int>, k: nat, w: Sweep)
    requires k < |s| && TileStep(s, k, w)
    requires var a := Produced(s[..k]); var n := |a.out|; !(a.open && n > 0 && a.out[n - 1] == s[k])
    ensures var v := Visit(w.cells, w.fused, k);
      v.moved == (|Produced(s[..k]).out| < k)
      && Tracks(s, k + 1, Sweep(v.cells, v.fused, w.moved || v.moved))
  {
    var n := |Produced(s[..k]).out|;
    var v := Visit(w.cells, w.fused, k);
    assert v.cells == MoveTile(w.cells, k, n) && v.fused == w.fused && v.moved == (n != k);
  }


  lemma VisitTracks(s: seq<int>, k: nat, w: Sweep)
    requires k < |s| && Tracks(s, k, w)
    ensures var v := Visit(w.cells, w.fused, k);
      v.moved == (s[k] != 0 && |Produced(s[..k]).out| < k)
      && Tracks(s, k + 1, Sweep(v.cells, v.fused, w.moved || v.moved))
  {
    if s[k] == 0 {
      VisitSkips(s, k, w);
    } else {
      VisitTile(s, k, w);
    }
  }

  /** The sweep keeps Tracks at every step. */
  lemma {:induction false} SweepTracks(s: seq<int>, k: nat)
    requires k <= |s|
    ensures Tracks(s, k, SweepTo(s, k))
  {
    if k <= 1 {
      SweepTracksStart(s, k);
    } else {
      SweepTracks(s, k - 1);
      var w := SweepTo(s, k - 1);
      VisitTracks(s, k - 1, w);
      var v := Visit(w.cells, w.fused, k - 1);
      assert SweepTo(s, k) == Sweep(v.cells, v.fused, w.moved || v.moved);
    }
  }

  /** Before any position is visited, the sweep is the line itself with an empty mask. */
  lemma SweepTracksStart(s: seq<int>, k: nat)
    requires k <= 1 && k <= |s|
    ensures Tracks(s, k, SweepTo(s, k))
  {
    assert s[..0] == [];
    if k == 1 {
      var w := SweepTo(s, 0);
      VisitTracks(s, 0, w);
      var v := Visit(w.cells, w.fused, 0);
      assert v.cells == w.cells && v.fused == w.fused && !v.moved;
    }
  }


  /** Whether some tile at positions 1 .. k-1 lies beyond the tiles produced before it. */
  ghost function MovedBy(s: seq<int>, k: nat): bool
    requires k <= |s|
  {
    k > 1 && (MovedBy(s, k - 1) || (s[k - 1] != 0 && |Merge(Tiles(s[..k - 1]))| < k - 1))
  }

  lemma {:induction false} SweepMovedBy(s: seq<int>, k: nat)
    requires k <= |s|
    ensures SweepTo(s, k).moved == MovedBy(s, k)
  {
    if k > 1 {
      SweepMovedBy(s, k - 1);
      SweepMovedStep(s, k - 1);
    }
  }

  lemma {:induction false} MovedByWitness(s: seq<int>, k: nat)
    requires k <= |s|
    ensures MovedBy(s, k) <==> exists j :: 0 <= j < k && s[j] != 0 && |Merge(Tiles(s[..j]))| < j
  {
    if k <= 1 {
      assert forall j :: 0 <= j < k ==> |Merge(Tiles(s[..j]))| >= j;
    } else {
      MovedByWitness(s, k - 1);
    }
  }

  /** The sweep has slid a tile exactly when some visited tile lies beyond the tiles produced before it. */
  lemma SweepMoved(s: seq<int>, k: nat)
    requires k <= |s|
    ensures SweepTo(s, k).moved <==> exists j :: 0 <= j < k && s[j] != 0 && |Merge(Tiles(s[..j]))| < j
  {
    SweepMovedBy(s, k);
    MovedByWitness(s, k);
  }


  /** Visiting position k adds to the flag exactly when the tile there lies beyond the tiles produced before it. */
  lemma SweepMovedStep(s: seq<int>, k: nat)
    requires 1 <= k < |s|
    ensures SweepTo(s, k + 1).moved == (SweepTo(s, k).moved || (s[k] != 0 && |Merge(Tiles(s[..k]))| < k))
  {
    SweepTracks(s, k);
    VisitTracks(s, k, SweepTo(s, k));
    ProducedMerges(s[..k]);
  }
}

module LineMoves {
  import opened LineRule
  import opened LineSweep

  /** The sweep the move functions perform gives exactly the reference result. */
  lemma SweepMatchesSlide(s: seq<int>)
    ensures SweepTo(s, |s|).cells == Slide(s)
    ensures SweepTo(s, |s|).moved == AnyTileMoves(s)
  {
    SweepMoved(s, |s|);
    SweepCellsMatch(s);
  }

  lemma SweepCellsMatch(s: seq<int>)
    ensures SweepTo(s, |s|).cells == Slide(s)
  {
    SweepEnd(s);
    forall j | 0 <= j < |s|
      ensures SweepTo(s, |s|).cells[j] == Slide(s)[j]
    {
      SlideAt(s, j);
    }
  }

  /** At the end of the sweep the produced tiles are the reference merge of the line. */
  lemma SweepEnd(s: seq<int>)
    ensures var w := SweepTo(s, |s|); var m := Merge(Tiles(s));
      |m| <= |s| && (forall j :: 0 <= j < |s| ==> w.cells[j] == if j < |m| then m[j] else 0)
      && (w.moved ==> |m| < |s|)
      && (w.moved ==> !Packed(s) || |m| < |Tiles(s)|)
  {
    SweepTracks(s, |s|);
    assert s[..|s|] == s;
    ProducedMerges(s);
  }

  /**
   * When a tile slid, the far end of the line is empty afterwards: a move that reports
   * movement leaves room for the new tile.
   */
  lemma MovesLeaveEmpty(s: seq<int>)
    requires AnyTileMoves(s)
    ensures |s| > 0 && Slide(s)[|s| - 1] == 0
  {
    SweepMatchesSlide(s);
    SweepEnd(s);
  }

  lemma {:induction false} TilesOfPadded(m: seq<int>, n: nat)
    requires forall i :: 0 <= i < |m| ==> m[i] != 0
    ensures Tiles(m + Zeros(n)) == m
  {
    if m == [] {
      assert m + Zeros(n) == Zeros(n);
      if n > 0 {
        assert Zeros(n)[1..] == Zeros(n - 1);
        TilesOfPadded([], n - 1);
        assert [] + Zeros(n - 1) == Zeros(n - 1);
        assert Tiles(Zeros(n)) == [] + Tiles(Zeros(n - 1));
      }
    } else {
      assert (m + Zeros(n))[1..] == m[1..] + Zeros(n);
      TilesOfPadded(m[1..], n);
      assert m == [m[0]] + m[1..];
    }
  }

  /** A slide that reports movement changes the line. */
  lemma MovesChangeLine(s: seq<int>)
    requires AnyTileMoves(s)
    ensures Slide(s) != s
  {
    SweepMatchesSlide(s);
    SweepEnd(s);
    SlidePacked(s);
    var m := Merge(Tiles(s));
    if Packed(s) {
      MergeNonZero(Tiles(s));
      TilesOfPadded(m, |s| - |m|);
      assert |Tiles(Slide(s))| < |Tiles(s)|;
    }
  }

  /** A full line with no two equal neighbours is left exactly as it is, and nothing moves. */
  lemma StuckLine(s: seq<int>)
    requires forall i :: 0 <= i < |s| ==> s[i] != 0
    requires forall i :: 0 <= i < |s| - 1 ==> s[i] != s[i + 1]
    ensures Slide(s) == s
    ensures !AnyTileMoves(s)
  {
    TilesOfFull(s);
    MergeOfDistinct(s);
    forall j | 0 <= j < |s| ensures |Merge(Tiles(s[..j]))| == j {
      TilesOfFull(s[..j]);
      MergeOfDistinct(s[..j]);
    }
  }

  // ---------------------------------------------------------------------------------------
  // Worked lines

  /** The tiles a single cell contributes. */
  function Keep(x: int): (t: seq<int>)
    ensures x != 0 ==> t == [x]
    ensures x == 0 ==> t == []
  {
    if x != 0 then [x] else []
  }

  lemma TilesCons(x: int, r: seq<int>)
    ensures Tiles([x] + r) == Keep(x) + Tiles(r)
  {
    assert ([x] + r)[1..] == r;
  }

  lemma TilesOf4(a: int, b: int, c: int, d: int)
    ensures Tiles([a, b, c, d]) == Keep(a) + Keep(b) + Keep(c) + Keep(d)
  {
    TilesCons(d, []);
    assert [d] + [] == [d];
    TilesCons(c, [d]);
    assert [c] + [d] == [c, d];
    TilesCons(b, [c, d]);
    assert [b] + [c, d] == [b, c, d];
    TilesCons(a, [b, c, d]);
    assert [a] + [b, c, d] == [a, b, c, d];
    assert Tiles([]) == [];
    assert Keep(a) + (Keep(b) + (Keep(c) + (Keep(d) + []))) == Keep(a) + Keep(b) + Keep(c) + Keep(d);
  }

  /** Row [2, 2, 4, 0]: the 2s merge, the 4 slides up to the new 4 but cannot merge into it. */
  lemma MergedCellAbsorbsOnce()
    ensures Slide([2, 2, 4, 0]) == [4, 4, 0, 0]
    ensures AnyTileMoves([2, 2, 4, 0])
  {
    TilesOf4(2, 2, 4, 0);
    assert Merge([2, 2, 4]) == [4] + Merge([4]);
    assert [2, 2, 4, 0][..2] == [2, 2] && Tiles([2, 2]) == [2, 2];
    assert Merge([2, 2]) == [4] + Merge([]);
  }

  /** Column [2, 2, 2, 2]: two merges into two 4s, never one 8. */
  lemma FourEqualMergeInPairs()
    ensures Slide([2, 2, 2, 2]) == [4, 4, 0, 0]
  {
    TilesOf4(2, 2, 2, 2);
    assert Merge([2, 2, 2, 2]) == [4] + Merge([2, 2]);
    assert Merge([2, 2]) == [4] + Merge([]);
  }

  /** Three equal tiles: only the pair nearest the wall merges. */
  lemma ThreeEqualMergeOnce(v: int)
    requires v != 0
    ensures Slide([v, v, v, 0]) == [2 * v, v, 0, 0]
  {
    TilesOf4(v, v, v, 0);
    assert Tiles([v, v, v, 0]) == [v, v, v];
    assert [v, v, v][2..] == [v];
    assert Merge([v, v, v]) == [2 * v] + Merge([v]) == [2 * v, v];
  }

  /**
   * A merge in place relocates no tile, so the move reports no movement although the line
   * changed: column [2, 2, 0, 0] becomes [4, 0, 0, 0].
   */
  lemma MergeWithoutMove()
    ensures Slide([2, 2, 0, 0]) == [4, 0, 0, 0]
    ensures !AnyTileMoves([2, 2, 0, 0])
  {
    var s := [2, 2, 0, 0];
    TilesOf4(2, 2, 0, 0);
    assert Merge([2, 2]) == [4] + Merge([]);
    assert s[..0] == [];
    assert s[..1] == [2] && Tiles([2]) == [2] + Tiles([]);
  }

  /**
   * Moving twice in the same direction can move tiles twice: [2, 2, 4, 8] becomes
   * [4, 4, 8, 0], in which the 8 slides again after the 4s merge.
   */
  lemma SecondMoveCanMove()
    ensures Slide([2, 2, 4, 8]) == [4, 4, 8, 0]
    ensures AnyTileMoves([4, 4, 8, 0])
    ensures Slide([4, 4, 8, 0]) == [8, 8, 0, 0]
  {
    TilesOf4(2, 2, 4, 8);
    assert Merge([2, 2, 4, 8]) == [4] + Merge([4, 8]);
    assert Merge([4, 8]) == [4] + Merge([8]);
    TilesOf4(4, 4, 8, 0);
    assert Merge([4, 4, 8]) == [8] + Merge([8]);
    assert [4, 4, 8, 0][..2] == [4, 4] && Tiles([4, 4]) == [4, 4];
    assert Merge([4, 4]) == [8] + Merge([]);
  }
}
