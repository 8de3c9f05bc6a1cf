/**
 * The game's grid as the program holds it: a GRID_SIZE x GRID_SIZE integer array updated in
 * place by the four move functions and by the spawn step. Every method is proved against the
 * value-level model in BoardModel.
 */
module GridEngine {
  import opened LineRule
  import opened LineMoves
  import opened BoardModel

  /** instantiateGrid: a fresh GRID_SIZE x GRID_SIZE array with every cell 0. */
  method InstantiateGrid() returns (g: array2<int>)
    ensures fresh(g)
    ensures g.Length0 == N && g.Length1 == N
    ensures forall r, c :: 0 <= r < N && 0 <= c < N ==> g[r, c] == 0
  {
    g := new int[N, N];
    var i := 0;
    while i < N
      invariant 0 <= i <= N
      invariant forall r, c :: 0 <= r < i && 0 <= c < N ==> g[r, c] == 0
    {
      var j := 0;
      while j < N
        invariant 0 <= j <= N
        invariant forall r, c :: 0 <= r < i && 0 <= c < N ==> g[r, c] == 0
        invariant forall c :: 0 <= c < j ==> g[i, c] == 0
      {
        g[i, j] := 0;
        j := j + 1;
      }
      i := i + 1;
    }
  }

  /** Lines each swept to the end make up the move, and the sweeps report what the move reports. */
  lemma SweepsGiveMove(b: Board, m: Board, d: Direction)
    requires IsBoard(b) && IsBoard(m)
    requires forall j :: 0 <= j < N ==> Line(m, d, j) == SweepTo(Line(b, d, j), N).cells
    ensures m == Move(b, d)
    ensures (exists j :: 0 <= j < N && SweepTo(Line(b, d, j), N).moved) == Moved(b, d)
  {
    forall j | 0 <= j < N
      ensures Line(m, d, j) == Slide(Line(b, d, j))
      ensures SweepTo(Line(b, d, j), N).moved == AnyTileMoves(Line(b, d, j))
    {
      SweepMatchesSlide(Line(b, d, j));
    }
    MoveByLines(b, m, d);
  }

  /** Line i of array a for direction d, read from the wall outward. */
  ghost function ArrayLine(a: array2<int>, d: Direction, i: nat): (line: seq<int>)
    reads a
    requires a.Length0 == N && a.Length1 == N && i < N
    ensures |line| == N
  {
    seq(N, k requires 0 <= k < N reads a => a[RowAt(d, i, k), ColAt(d, i, k)])
  }

  /** A merge mask line as flags: a cell is marked when its entry is not 0. */
  function Marks(line: seq<int>): (m: seq<bool>)
    ensures |m| == |line|
    ensures forall k :: 0 <= k < |line| ==> (m[k] <==> line[k] != 0)
  {
    seq(|line|, k requires 0 <= k < |line| => line[k] != 0)
  }

  /** Position k of line i is the cell RowAt/ColAt name. */
  lemma ArrayLineAt(a: array2<int>, d: Direction, i: nat, k: nat)
    requires a.Length0 == N && a.Length1 == N && i < N && k < N
    ensures ArrayLine(a, d, i)[k] == a[RowAt(d, i, k), ColAt(d, i, k)]
  {
  }

  /** Writes v into position k of line i; every other cell keeps its value. */
  method WriteCell(a: array2<int>, d: Direction, i: nat, k: nat, v: int)
    requires a.Length0 == N && a.Length1 == N && i < N && k < N
    modifies a
    ensures ArrayLine(a, d, i) == old(ArrayLine(a, d, i))[k := v]
    ensures forall j :: 0 <= j < N && j != i ==> ArrayLine(a, d, j) == old(ArrayLine(a, d, j))
  {
    a[RowAt(d, i, k), ColAt(d, i, k)] := v;
    forall j, x | 0 <= j < N && 0 <= x < N && (j != i || x != k)
      ensures RowAt(d, j, x) != RowAt(d, i, k) || ColAt(d, j, x) != ColAt(d, i, k)
    {
      if RowAt(d, j, x) == RowAt(d, i, k) && ColAt(d, j, x) == ColAt(d, i, k) {
        CellsOfLinesDistinct(d, j, x, i, k);
      }
    }
    assert ArrayLine(a, d, i) == old(ArrayLine(a, d, i))[k := v];
  }

  class Grid {
    /** The tiles: cells[r, c] is row r, column c; 0 is an empty cell. */
    var cells: array2<int>

    ghost predicate Valid()
      reads this
    {
      cells.Length0 == N && cells.Length1 == N
    }

    /** The grid as a value. */
    ghost function Contents(): (b: Board)
      reads this, cells
      requires Valid()
      ensures IsBoard(b)
      ensures forall r, c :: 0 <= r < N && 0 <= c < N ==> b[r][c] == cells[r, c]
    {
      var a := cells;
      seq(N, r requires 0 <= r < N reads a =>
        seq(N, c requires 0 <= c < N reads a => a[r, c]))
    }

    /** Line i of the grid for direction d, read from the wall outward. */
    ghost function LineNow(d: Direction, i: nat): (line: seq<int>)
      reads this, cells
      requires Valid() && i < N
      ensures |line| == N
      ensures line == ArrayLine(cells, d, i)
    {
      Line(Contents(), d, i)
    }

    /** A grid with nothing on it. */
    constructor ()
      ensures Valid() && fresh(cells)
      ensures Contents() == EmptyBoard()
    {
      var g := InstantiateGrid();
      cells := g;
      new;
      assert forall r :: 0 <= r < N ==> Contents()[r] == EmptyBoard()[r];
    }

    /** The two tiles main places before the first move: a 2 in row 0 and a 4 in row 3, both in column 1. */
    method PlaceStartingTiles()
      requires Valid()
      modifies cells
      ensures Valid()
      ensures Contents() == Place(Place(old(Contents()), 0, 1, 2), 3, 1, 4)
    {
      ghost var b0 := old(Contents());
      cells[0, 1] := 2;
      cells[3, 1] := 4;
      ghost var b := Place(Place(b0, 0, 1, 2), 3, 1, 4);
      assert forall r :: 0 <= r < N ==> Contents()[r] == b[r];
    }

    /**
     * The body of the move functions' inner loop, for the cell at position k of line i: an
     * empty cell is skipped; a tile is moved to the farthest empty cell toward the wall, and
     * then doubles the cell in front of it and leaves its own cell empty when that cell holds
     * the same value and is not marked in the merge mask, which then marks it. Returns
     * whether the tile changed position.
     *
     * slideLeft and slideRight scan with the neighbour read before the bounds test; the scan
     * here tests the bound first, which changes no outcome. slideDown's scan tests the tile's
     * own cell instead of the one below it, and its merge writes the doubled value one row
     * ABOVE the tile; slideRight tests for a merge even when the tile lies against the wall.
     * Down and Right are modelled here as the exact mirrors of Up and Left.
     */
    method SlideTile(d: Direction, i: nat, k: nat, fusion: array2<int>) returns (slid: bool)
      requires Valid() && i < N && k < N
      requires fusion.Length0 == N && fusion.Length1 == N && fusion != cells
      modifies cells, fusion
      ensures Valid()
      ensures ArrayLine(cells, d, i) == Visit(old(ArrayLine(cells, d, i)), Marks(old(ArrayLine(fusion, d, i))), k).cells
      ensures Marks(ArrayLine(fusion, d, i)) == Visit(old(ArrayLine(cells, d, i)), Marks(old(ArrayLine(fusion, d, i))), k).fused
      ensures slid == Visit(old(ArrayLine(cells, d, i)), Marks(old(ArrayLine(fusion, d, i))), k).moved
      ensures forall j :: 0 <= j < N && j != i ==>
                ArrayLine(cells, d, j) == old(ArrayLine(cells, d, j))
                && ArrayLine(fusion, d, j) == old(ArrayLine(fusion, d, j))
    {
      if cells[RowAt(d, i, k), ColAt(d, i, k)] == 0 {
        slid := false;
        return;
      }
      var p := SlideToward(d, i, k);
      slid := p != k;
      if p != 0 {
        MergeBack(d, i, p, fusion);
      }
    }

    /**
     * The slide half of the loop body: the tile at position k moves to the farthest empty
     * cell toward the wall, the position it ends at being returned.
     */
    method SlideToward(d: Direction, i: nat, k: nat) returns (p: nat)
      requires Valid() && i < N && k < N
      requires ArrayLine(cells, d, i)[k] != 0
      modifies cells
      ensures Valid()
      ensures p == Reach(old(ArrayLine(cells, d, i)), k)
      ensures ArrayLine(cells, d, i) == MoveTile(old(ArrayLine(cells, d, i)), k, p)
      ensures forall j :: 0 <= j < N && j != i ==> ArrayLine(cells, d, j) == old(ArrayLine(cells, d, j))
    {
      ghost var line := ArrayLine(cells, d, i);
      p := k;
      while p > 0 && cells[RowAt(d, i, p - 1), ColAt(d, i, p - 1)] == 0
        invariant 0 <= p <= k
        invariant Reach(line, p) == Reach(line, k)
        modifies {}
      {
        ArrayLineAt(cells, d, i, p - 1);
        p := p - 1;
      }
      if p > 0 {
        ArrayLineAt(cells, d, i, p - 1);
      }
      if p != k {
        ArrayLineAt(cells, d, i, k);
        WriteCell(cells, d, i, p, cells[RowAt(d, i, k), ColAt(d, i, k)]);
        WriteCell(cells, d, i, k, 0);
      }
    }

    /**
     * The merge half of the loop body: the tile now at position p merges into the cell in
     * front of it when that cell holds the same value and is not yet marked in the mask.
     */
    method MergeBack(d: Direction, i: nat, p: nat, fusion: array2<int>)
      requires Valid() && i < N && 0 < p < N
      requires fusion.Length0 == N && fusion.Length1 == N && fusion != cells
      modifies cells, fusion
      ensures Valid()
      ensures ArrayLine(cells, d, i)
           == MergeAt(old(ArrayLine(cells, d, i)), Marks(old(ArrayLine(fusion, d, i))), p, false).cells
      ensures Marks(ArrayLine(fusion, d, i))
           == MergeAt(old(ArrayLine(cells, d, i)), Marks(old(ArrayLine(fusion, d, i))), p, false).fused
      ensures forall j :: 0 <= j < N && j != i ==>
                ArrayLine(cells, d, j) == old(ArrayLine(cells, d, j))
                && ArrayLine(fusion, d, j) == old(ArrayLine(fusion, d, j))
    {
      var fr, fc := RowAt(d, i, p - 1), ColAt(d, i, p - 1);
      var tr, tc := RowAt(d, i, p), ColAt(d, i, p);
      if fusion[fr, fc] == 0 && cells[tr, tc] == cells[fr, fc] {
        ghost var f := ArrayLine(fusion, d, i);
        WriteCell(cells, d, i, p - 1, cells[fr, fc] * 2);
        WriteCell(cells, d, i, p, 0);
        WriteCell(fusion, d, i, p - 1, 1);
        assert Marks(ArrayLine(fusion, d, i)) == Marks(f)[p - 1 := true];
      }
    }

    /**
     * The inner loop of slideUp and slideDown for column i: positions 1 .. 3 from the wall are
     * visited in order, starting from a mask with no mark on this line. Returns whether some
     * tile of the line changed position.
     */
    method SweepLine(d: Direction, i: nat, fusion: array2<int>) returns (slid: bool)
      requires Valid() && i < N
      requires fusion.Length0 == N && fusion.Length1 == N && fusion != cells
      requires Marks(ArrayLine(fusion, d, i)) == NoneFused(N)
      modifies cells, fusion
      ensures Valid()
      ensures ArrayLine(cells, d, i) == Slide(old(ArrayLine(cells, d, i)))
      ensures slid == AnyTileMoves(old(ArrayLine(cells, d, i)))
      ensures forall j :: 0 <= j < N && j != i ==>
                ArrayLine(cells, d, j) == old(ArrayLine(cells, d, j))
                && ArrayLine(fusion, d, j) == old(ArrayLine(fusion, d, j))
    {
      ghost var line := ArrayLine(cells, d, i);
      slid := false;
      var k := 1;
      while k < N
        invariant 1 <= k <= N
        invariant ArrayLine(cells, d, i) == SweepTo(line, k).cells
        invariant Marks(ArrayLine(fusion, d, i)) == SweepTo(line, k).fused
        invariant slid == SweepTo(line, k).moved
        invariant forall j :: 0 <= j < N && j != i ==>
                    ArrayLine(cells, d, j) == old(ArrayLine(cells, d, j))
                    && ArrayLine(fusion, d, j) == old(ArrayLine(fusion, d, j))
      {
        SweepStep(line, k);
        var slidNow := SlideTile(d, i, k, fusion);
        slid := slid || slidNow;
        k := k + 1;
      }
      SweepMatchesSlide(line);
    }

    /**
     * slideUp and slideDown: each column in turn is swept from the wall outward (rows 1 .. 3
     * for Up, rows 2 .. 0 for Down), with one merge mask for the whole move. Returns whether
     * some tile changed position.
     */
    method SlideColumns(d: Direction) returns (movement: bool)
      requires Valid() && (d == Up || d == Down)
      modifies cells
      ensures Valid()
      ensures Contents() == Move(old(Contents()), d)
      ensures movement == Moved(old(Contents()), d)
    {
      ghost var b0 := Contents();
      var fusion := InstantiateGrid();
      movement := false;
      var c := 0;
      while c < N
        invariant 0 <= c <= N
        invariant forall j :: 0 <= j < N ==>
                    ArrayLine(cells, d, j) == if j < c then Slide(Line(b0, d, j)) else Line(b0, d, j)
        invariant forall j :: c <= j < N ==> Marks(ArrayLine(fusion, d, j)) == NoneFused(N)
        invariant movement == exists j :: 0 <= j < c && AnyTileMoves(Line(b0, d, j))
      {
        var slid := SweepLine(d, c, fusion);
        movement := movement || slid;
        c := c + 1;
      }
      forall j | 0 <= j < N ensures Line(Contents(), d, j) == Slide(Line(b0, d, j)) {
        assert LineNow(d, j) == ArrayLine(cells, d, j);
      }
      MoveByLines(b0, Contents(), d);
    }

    /**
     * The inner loop of slideLeft and slideRight: position k of every row is visited, rows
     * 0 .. 3 in order, so the sweep of every row of the board b the move started from advances
     * by one position. The move's movement flag is passed in and set when a tile slides.
     */
    method VisitPosition(ghost b: Board, d: Direction, k: nat, fusion: array2<int>, movement: bool)
      returns (movement': bool)
      requires Valid() && IsBoard(b) && 1 <= k < N
      requires fusion.Length0 == N && fusion.Length1 == N && fusion != cells
      requires forall j :: 0 <= j < N ==> ArrayLine(cells, d, j) == SweepTo(Line(b, d, j), k).cells
      requires forall j :: 0 <= j < N ==> Marks(ArrayLine(fusion, d, j)) == SweepTo(Line(b, d, j), k).fused
      requires movement == exists j :: 0 <= j < N && SweepTo(Line(b, d, j), k).moved
      modifies cells, fusion
      ensures Valid()
      ensures forall j :: 0 <= j < N ==> ArrayLine(cells, d, j) == SweepTo(Line(b, d, j), k + 1).cells
      ensures forall j :: 0 <= j < N ==> Marks(ArrayLine(fusion, d, j)) == SweepTo(Line(b, d, j), k + 1).fused
      ensures movement' == exists j :: 0 <= j < N && SweepTo(Line(b, d, j), k + 1).moved
    {
      movement' := movement;
      var r := 0;
      while r < N
        invariant 0 <= r <= N
        invariant forall j :: 0 <= j < r ==> ArrayLine(cells, d, j) == SweepTo(Line(b, d, j), k + 1).cells
        invariant forall j :: 0 <= j < r ==> Marks(ArrayLine(fusion, d, j)) == SweepTo(Line(b, d, j), k + 1).fused
        invariant forall j :: r <= j < N ==> ArrayLine(cells, d, j) == SweepTo(Line(b, d, j), k).cells
        invariant forall j :: r <= j < N ==> Marks(ArrayLine(fusion, d, j)) == SweepTo(Line(b, d, j), k).fused
        invariant movement' == ((exists j :: 0 <= j < r && SweepTo(Line(b, d, j), k + 1).moved)
                                || (exists j :: r <= j < N && SweepTo(Line(b, d, j), k).moved))
      {
        SweepStep(Line(b, d, r), k);
        var slid := SlideTile(d, r, k, fusion);
        movement' := movement' || slid;
        r := r + 1;
      }
    }

    /**
     * slideLeft and slideRight: for each position from the wall outward (columns 1 .. 3 for
     * Left, 2 .. 0 for Right), that position of every row is visited, with one merge mask for
     * the whole move. Returns whether some tile changed position.
     */
    method SlideRows(d: Direction) returns (movement: bool)
      requires Valid() && (d == Left || d == Right)
      modifies cells
      ensures Valid()
      ensures Contents() == Move(old(Contents()), d)
      ensures movement == Moved(old(Contents()), d)
    {
      ghost var b0 := Contents();
      var fusion := InstantiateGrid();
      movement := false;
      var k := 1;
      while k < N
        invariant 1 <= k <= N
        invariant forall j :: 0 <= j < N ==> ArrayLine(cells, d, j) == SweepTo(Line(b0, d, j), k).cells
        invariant forall j :: 0 <= j < N ==> Marks(ArrayLine(fusion, d, j)) == SweepTo(Line(b0, d, j), k).fused
        invariant movement == exists j :: 0 <= j < N && SweepTo(Line(b0, d, j), k).moved
      {
        movement := VisitPosition(b0, d, k, fusion, movement);
        k := k + 1;
      }
      forall j | 0 <= j < N
        ensures Line(Contents(), d, j) == SweepTo(Line(b0, d, j), N).cells
      {
        assert LineNow(d, j) == ArrayLine(cells, d, j);
      }
      SweepsGiveMove(b0, Contents(), d);
    }

    /** slideUp: tiles go toward row 0; returns whether some tile changed position. */
    method SlideUp() returns (movement: bool)
      requires Valid()
      modifies cells
      ensures Valid()
      ensures Contents() == Move(old(Contents()), Up)
      ensures movement == Moved(old(Contents()), Up)
    {
      movement := SlideColumns(Up);
    }

    /**
     * slideDown: tiles go toward row 3; returns whether some tile changed position. Modelled as
     * the mirror of slideUp (see SlideTile for where the program's version departs from it).
     */
    method SlideDown() returns (movement: bool)
      requires Valid()
      modifies cells
      ensures Valid()
      ensures Contents() == Move(old(Contents()), Down)
      ensures movement == Moved(old(Contents()), Down)
    {
      movement := SlideColumns(Down);
    }

    /** slideLeft: tiles go toward column 0; returns whether some tile changed position. */
    method SlideLeft() returns (movement: bool)
      requires Valid()
      modifies cells
      ensures Valid()
      ensures Contents() == Move(old(Contents()), Left)
      ensures movement == Moved(old(Contents()), Left)
    {
      movement := SlideRows(Left);
    }

    /**
     * slideRight: tiles go toward column 3; returns whether some tile changed position.
     * Modelled as the mirror of slideLeft (see SlideTile).
     */
    method SlideRight() returns (movement: bool)
      requires Valid()
      modifies cells
      ensures Valid()
      ensures Contents() == Move(old(Contents()), Right)
      ensures movement == Moved(old(Contents()), Right)
    {
      movement := SlideRows(Right);
    }

    /**
     * check_for_gameOver: not over as soon as an empty cell is found, then as soon as two
     * horizontally adjacent cells are equal, then as soon as two vertically adjacent cells are
     * equal; over otherwise.
     */
    method CheckForGameOver() returns (over: bool)
      requires Valid()
      ensures over == GameOver(Contents())
    {
      ghost var b := Contents();
      var r := 0;
      while r < N
        invariant 0 <= r <= N
        invariant forall r', c :: 0 <= r' < r && 0 <= c < N ==> b[r'][c] != 0
      {
        var c := 0;
        while c < N
          invariant 0 <= c <= N
          invariant forall r', c' :: 0 <= r' < r && 0 <= c' < N ==> b[r'][c'] != 0
          invariant forall c' :: 0 <= c' < c ==> b[r][c'] != 0
        {
          if cells[r, c] == 0 {
            return false;
          }
          c := c + 1;
        }
        r := r + 1;
      }
      r := 0;
      while r < N
        invariant 0 <= r <= N
        invariant forall r', c :: 0 <= r' < r && 0 <= c < N - 1 ==> b[r'][c] != b[r'][c + 1]
      {
        var c := 0;
        while c < N - 1
          invariant 0 <= c <= N - 1
          invariant forall r', c' :: 0 <= r' < r && 0 <= c' < N - 1 ==> b[r'][c'] != b[r'][c' + 1]
          invariant forall c' :: 0 <= c' < c ==> b[r][c'] != b[r][c' + 1]
        {
          if cells[r, c] == cells[r, c + 1] {
            return false;
          }
          c := c + 1;
        }
        r := r + 1;
      }
      var c := 0;
      while c < N
        invariant 0 <= c <= N
        invariant forall r', r'', c' :: 0 <= r' && r'' == r' + 1 < N && 0 <= c' < c ==> b[r'][c'] != b[r''][c']
      {
        r := 0;
        while r < N - 1
          invariant 0 <= r <= N - 1
          invariant forall r', r'', c' :: 0 <= r' && r'' == r' + 1 < N && 0 <= c' < c ==> b[r'][c'] != b[r''][c']
          invariant forall r', r'' :: 0 <= r' < r && r'' == r' + 1 ==> b[r'][c] != b[r''][c]
        {
          if cells[r, c] == cells[r + 1, c] {
            return false;
          }
          r := r + 1;
        }
        c := c + 1;
      }
      return true;
    }

    /**
     * The spawn step of the game loop: the tile is a 4 when the coin draw is even and a 2
     * otherwise; cells are drawn until one is empty, and the tile is written there. Returns
     * whether a tile was written.
     */
    method Spawn(coin: nat, draws: seq<Draw>) returns (placed: bool)
      requires Valid()
      modifies cells
      ensures Valid()
      ensures placed == SpawnPlaces(old(Contents()), draws)
      ensures Contents() == Spawned(old(Contents()), coin, draws)
    {
      ghost var b0 := Contents();
      var twoOrFour := 2;
      if coin % 2 == 0 {
        twoOrFour := 4;
      }
      placed := false;
      var n := 0;
      while n < |draws| && !placed
        invariant 0 <= n <= |draws|
        invariant !placed ==> Contents() == b0 && Spawned(b0, coin, draws) == Spawned(b0, coin, draws[n..])
        invariant !placed ==> forall m :: 0 <= m < n ==> !HitsEmpty(b0, draws[m])
        invariant placed ==> Contents() == Spawned(b0, coin, draws) && SpawnPlaces(b0, draws)
      {
        var col, row := draws[n].col % N, draws[n].row % N;
        assert draws[n..][0] == draws[n] && draws[n..][1..] == draws[n + 1..];
        if cells[row, col] == 0 {
          cells[row, col] := twoOrFour;
          placed := true;
          assert forall r :: 0 <= r < N ==> Contents()[r] == Place(b0, row, col, twoOrFour)[r];
        }
        n := n + 1;
      }
    }

    /**
     * One pass of the game loop for the key read: 'w', 's', 'a' and 'd' make a move, and a tile
     * is spawned only when the move reports movement; 'q' and any other key change nothing. The
     * result is the loop's condition for the next pass, set from the game-over test whatever
     * the key was, so 'q' does not end a game that is not over.
     */
    method PlayTurn(key: char, coin: nat, draws: seq<Draw>) returns (running: bool)
      requires Valid()
      modifies cells
      ensures Valid()
      ensures Contents() == Turn(old(Contents()), key, coin, draws)
      ensures running == !GameOver(Contents())
    {
      var opResult := false;
      if key == 'w' {
        opResult := SlideUp();
      } else if key == 's' {
        opResult := SlideDown();
      } else if key == 'a' {
        opResult := SlideLeft();
      } else if key == 'd' {
        opResult := SlideRight();
      }
      if opResult {
        var _ := Spawn(coin, draws);
      }
      var over := CheckForGameOver();
      running := !over;
    }
  }
}
