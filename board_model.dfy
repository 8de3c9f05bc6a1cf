/**
 * The 4 x 4 grid as a value: the four moves, the end-of-game test and the spawn write.
 *
 * A move works line by line. For direction d, line i is column i (Up, Down) or row i
 * (Left, Right), read from the wall d pushes toward: Up reads a column top to bottom, Down
 * bottom to top, Left reads a row left to right, Right right to left.
 */
module BoardModel {
  import opened LineRule
  import opened LineMoves

  /** The grid is GRID_SIZE cells tall and wide. */
  const N: nat := 4

  /** Rows of cells; b[r][c] is row r (0 at the top), column c (0 at the left). */
  type Board = seq<seq<int>>

  predicate IsBoard(b: Board)
  {
    |b| == N && forall r :: 0 <= r < N ==> |b[r]| == N
  }

  /** The four moves, each named by the wall it pushes the tiles against. */
  datatype Direction = Up | Down | Left | Right

  /** The row of position k of line i. */
  function RowAt(d: Direction, i: nat, k: nat): (r: nat)
    requires i < N && k < N
    ensures r < N
  {
    match d
    case Up => k
    case Down => N - 1 - k
    case Left => i
    case Right => i
  }

  /** The column of position k of line i. */
  function ColAt(d: Direction, i: nat, k: nat): (c: nat)
    requires i < N && k < N
    ensures c < N
  {
    match d
    case Up => i
    case Down => i
    case Left => k
    case Right => N - 1 - k
  }

  /** The line that cell (r, c) belongs to. */
  function LineOf(d: Direction, r: nat, c: nat): (i: nat)
    requires r < N && c < N
    ensures i < N
    ensures RowAt(d, i, PosOf(d, r, c)) == r && ColAt(d, i, PosOf(d, r, c)) == c
  {
    match d
    case Up => c
    case Down => c
    case Left => r
    case Right => r
  }

  /** The position of cell (r, c) within its line. */
  function PosOf(d: Direction, r: nat, c: nat): (k: nat)
    requires r < N && c < N
    ensures k < N
  {
    match d
    case Up => r
    case Down => N - 1 - r
    case Left => c
    case Right => N - 1 - c
  }

  /** Distinct positions of the lines of one direction are distinct cells. */
  lemma CellsOfLinesDistinct(d: Direction, j: nat, x: nat, i: nat, k: nat)
    requires j < N && x < N && i < N && k < N
    requires RowAt(d, j, x) == RowAt(d, i, k) && ColAt(d, j, x) == ColAt(d, i, k)
    ensures j == i && x == k
  {
  }

  /** Line i of the board for direction d, read from the wall outward. */
  function Line(b: Board, d: Direction, i: nat): (line: seq<int>)
    requires IsBoard(b) && i < N
    ensures |line| == N
  {
    seq(N, k requires 0 <= k < N => b[RowAt(d, i, k)][ColAt(d, i, k)])
  }

  /** The board after a move: every line replaced by its slide toward the wall. */
  function Move(b: Board, d: Direction): (m: Board)
    requires IsBoard(b)
    ensures IsBoard(m)
  {
    seq(N, r requires 0 <= r < N =>
      seq(N, c requires 0 <= c < N => Slide(Line(b, d, LineOf(d, r, c)))[PosOf(d, r, c)]))
  }

  /** What a move reports: some tile of some line relocated. */
  predicate Moved(b: Board, d: Direction)
    requires IsBoard(b)
  {
    exists i :: 0 <= i < N && AnyTileMoves(Line(b, d, i))
  }

  predicate HasEmptyCell(b: Board)
    requires IsBoard(b)
  {
    exists r, c :: 0 <= r < N && 0 <= c < N && b[r][c] == 0
  }

  /** The game is over: the grid is full and no two horizontally or vertically adjacent cells are equal. */
  predicate GameOver(b: Board)
    requires IsBoard(b)
  {
    (forall r, c :: 0 <= r < N && 0 <= c < N ==> b[r][c] != 0)
    && (forall r, c :: 0 <= r < N && 0 <= c < N - 1 ==> b[r][c] != b[r][c + 1])
    && (forall r, r', c :: 0 <= r && r' == r + 1 < N && 0 <= c < N ==> b[r][c] != b[r'][c])
  }

  /** Every cell is empty or holds a power of two. */
  predicate AllPowersOfTwo(b: Board)
    requires IsBoard(b)
  {
    forall r, c :: 0 <= r < N && 0 <= c < N ==> b[r][c] == 0 || IsPowerOfTwo(b[r][c])
  }

  /** The sum of all cells. */
  function Total(b: Board): int
  {
    if b == [] then 0 else Sum(b[0]) + Total(b[1..])
  }

  /** The board with value v written into cell (r, c). */
  function Place(b: Board, r: nat, c: nat, v: int): (p: Board)
    requires IsBoard(b) && r < N && c < N
    ensures IsBoard(p)
  {
    b[r := b[r][c := v]]
  }

  /** The empty grid the game starts from. */
  function EmptyBoard(): (b: Board)
    ensures IsBoard(b)
  {
    seq(N, _ => seq(N, _ => 0))
  }

  // ---------------------------------------------------------------------------------------
  // What a move guarantees

  /** Each line of the moved board is the slide of the same line before the move. */
  lemma MoveSlidesEachLine(b: Board, d: Direction, i: nat)
    requires IsBoard(b) && i < N
    ensures Line(Move(b, d), d, i) == Slide(Line(b, d, i))
  {
    var m := Move(b, d);
    forall k | 0 <= k < N ensures Line(m, d, i)[k] == Slide(Line(b, d, i))[k] {
      var r, c := RowAt(d, i, k), ColAt(d, i, k);
      assert LineOf(d, r, c) == i && PosOf(d, r, c) == k;
    }
  }

  /** A board is the moved board exactly when each of its lines is the slide of the line before. */
  lemma MoveByLines(b: Board, m: Board, d: Direction)
    requires IsBoard(b) && IsBoard(m)
    ensures m == Move(b, d) <==> forall i :: 0 <= i < N ==> Line(m, d, i) == Slide(Line(b, d, i))
  {
    if forall i :: 0 <= i < N ==> Line(m, d, i) == Slide(Line(b, d, i)) {
      forall r | 0 <= r < N ensures m[r] == Move(b, d)[r] {
        forall c | 0 <= c < N ensures m[r][c] == Move(b, d)[r][c] {
          var i, k := LineOf(d, r, c), PosOf(d, r, c);
          assert Line(m, d, i)[k] == m[r][c];
        }
      }
    }
    if m == Move(b, d) {
      forall i | 0 <= i < N ensures Line(m, d, i) == Slide(Line(b, d, i)) {
        MoveSlidesEachLine(b, d, i);
      }
    }
  }

  /** On a board where the game is over, no move changes anything or reports movement. */
  lemma GameOverIsStuck(b: Board, d: Direction)
    requires IsBoard(b) && GameOver(b)
    ensures Move(b, d) == b
    ensures !Moved(b, d)
  {
    forall i | 0 <= i < N
      ensures Slide(Line(b, d, i)) == Line(b, d, i) && !AnyTileMoves(Line(b, d, i))
    {
      var line := Line(b, d, i);
      forall k | 0 <= k < N - 1 ensures line[k] != line[k + 1] {
        match d
        case Up => assert b[k][i] != b[k + 1][i];
        case Down => assert b[N - 2 - k][i] != b[N - 2 - k + 1][i];
        case Left => assert b[i][k] != b[i][k + 1];
        case Right => assert b[i][N - 2 - k] != b[i][N - 2 - k + 1];
      }
      StuckLine(line);
    }
    var m := Move(b, d);
    forall r | 0 <= r < N ensures m[r] == b[r] {
      forall c | 0 <= c < N ensures m[r][c] == b[r][c] {
        var i := LineOf(d, r, c);
        assert Slide(Line(b, d, i)) == Line(b, d, i);
      }
    }
  }

  /**
   * A move that reports movement leaves an empty cell, so the spawn step, which only writes
   * into an empty cell, has somewhere to write.
   */
  lemma MovedLeavesEmptyCell(b: Board, d: Direction)
    requires IsBoard(b) && Moved(b, d)
    ensures HasEmptyCell(Move(b, d))
  {
    var i :| 0 <= i < N && AnyTileMoves(Line(b, d, i));
    MovesLeaveEmpty(Line(b, d, i));
    MoveSlidesEachLine(b, d, i);
    var r, c := RowAt(d, i, N - 1), ColAt(d, i, N - 1);
    assert Line(Move(b, d), d, i)[N - 1] == Move(b, d)[r][c];
  }

  /** A move that reports movement changes the board. */
  lemma MovedChangesBoard(b: Board, d: Direction)
    requires IsBoard(b) && Moved(b, d)
    ensures Move(b, d) != b
  {
    var i :| 0 <= i < N && AnyTileMoves(Line(b, d, i));
    MovesChangeLine(Line(b, d, i));
    MoveSlidesEachLine(b, d, i);
  }

  /** Values only ever double: a board of empty cells and powers of two stays one after a move. */
  lemma MoveKeepsPowers(b: Board, d: Direction)
    requires IsBoard(b) && AllPowersOfTwo(b)
    ensures AllPowersOfTwo(Move(b, d))
  {
    forall r, c | 0 <= r < N && 0 <= c < N
      ensures Move(b, d)[r][c] == 0 || IsPowerOfTwo(Move(b, d)[r][c])
    {
      var i := LineOf(d, r, c);
      SlideKeepsPowers(Line(b, d, i));
    }
  }

  lemma SumOfFour(s: seq<int>)
    requires |s| == 4
    ensures Sum(s) == s[0] + s[1] + s[2] + s[3]
  {
    assert s[3..][1..] == [];
    assert Sum(s[3..]) == s[3];
    assert s[2..][1..] == s[3..];
    assert Sum(s[2..]) == s[2] + s[3];
    assert s[1..][1..] == s[2..];
    assert Sum(s[1..]) == s[1] + s[2] + s[3];
  }

  lemma TotalOfFour(b: Board)
    requires IsBoard(b)
    ensures Total(b) == Sum(b[0]) + Sum(b[1]) + Sum(b[2]) + Sum(b[3])
  {
    assert b[3..][1..] == [];
    assert Total(b[3..]) == Sum(b[3]);
    assert b[2..][1..] == b[3..];
    assert Total(b[2..]) == Sum(b[2]) + Sum(b[3]);
    assert b[1..][1..] == b[2..];
    assert Total(b[1..]) == Sum(b[1]) + Sum(b[2]) + Sum(b[3]);
  }

  /** The sum over the cells of a board is the sum over the lines of any direction. */
  lemma TotalByLines(b: Board, d: Direction)
    requires IsBoard(b)
    ensures Total(b) == Sum(Line(b, d, 0)) + Sum(Line(b, d, 1)) + Sum(Line(b, d, 2)) + Sum(Line(b, d, 3))
  {
    TotalOfFour(b);
    forall r | 0 <= r < N ensures Sum(b[r]) == b[r][0] + b[r][1] + b[r][2] + b[r][3] {
      SumOfFour(b[r]);
    }
    forall i | 0 <= i < N
      ensures Sum(Line(b, d, i)) == Line(b, d, i)[0] + Line(b, d, i)[1] + Line(b, d, i)[2] + Line(b, d, i)[3]
    {
      SumOfFour(Line(b, d, i));
    }
  }

  /** A merge turns (V, V) into (2V, empty), so a move never changes the sum of the board. */
  lemma MoveKeepsTotal(b: Board, d: Direction)
    requires IsBoard(b)
    ensures Total(Move(b, d)) == Total(b)
  {
    var m := Move(b, d);
    TotalByLines(b, d);
    TotalByLines(m, d);
    forall i | 0 <= i < N ensures Sum(Line(m, d, i)) == Sum(Line(b, d, i)) {
      MoveSlidesEachLine(b, d, i);
      SlideKeepsSum(Line(b, d, i));
    }
  }

  // ---------------------------------------------------------------------------------------
  // The spawn step

  /** The value of a spawned tile: 4 when the coin draw is even, 2 otherwise. */
  function SpawnValue(coin: nat): int
  {
    if coin % 2 == 0 then 4 else 2
  }

  /** One draw of a cell: a column draw, then a row draw, each reduced modulo GRID_SIZE. */
  datatype Draw = Draw(col: nat, row: nat)

  predicate HitsEmpty(b: Board, x: Draw)
    requires IsBoard(b)
  {
    b[x.row % N][x.col % N] == 0
  }

  /** Some draw picks an empty cell, so the spawn step writes a tile. */
  predicate SpawnPlaces(b: Board, draws: seq<Draw>)
    requires IsBoard(b)
  {
    exists n :: 0 <= n < |draws| && HitsEmpty(b, draws[n])
  }

  /**
   * The board after the spawn step: cells are drawn in order until one is empty, and the new
   * tile is written there.
   */
  function Spawned(b: Board, coin: nat, draws: seq<Draw>): (s: Board)
    requires IsBoard(b)
    ensures IsBoard(s)
    decreases |draws|
  {
    if draws == [] then b
    else if HitsEmpty(b, draws[0]) then Place(b, draws[0].row % N, draws[0].col % N, SpawnValue(coin))
    else Spawned(b, coin, draws[1..])
  }

  /**
   * The spawn step writes its tile into one cell that was empty and changes nothing else; when
   * no draw picks an empty cell, the board stays as it was.
   */
  lemma {:induction false} SpawnFillsOneEmptyCell(b: Board, coin: nat, draws: seq<Draw>)
    requires IsBoard(b)
    ensures !SpawnPlaces(b, draws) ==> Spawned(b, coin, draws) == b
    ensures SpawnPlaces(b, draws) ==>
      exists r, c :: 0 <= r < N && 0 <= c < N && b[r][c] == 0
        && Spawned(b, coin, draws) == Place(b, r, c, SpawnValue(coin))
    decreases |draws|
  {
    if draws != [] && !HitsEmpty(b, draws[0]) {
      SpawnFillsOneEmptyCell(b, coin, draws[1..]);
      if SpawnPlaces(b, draws) {
        var n :| 0 <= n < |draws| && HitsEmpty(b, draws[n]);
        assert draws[1..][n - 1] == draws[n];
      } else {
        assert forall n :: 0 <= n < |draws| - 1 ==> draws[1..][n] == draws[n + 1];
      }
    } else if draws != [] {
      var r, c := draws[0].row % N, draws[0].col % N;
      assert b[r][c] == 0 && Spawned(b, coin, draws) == Place(b, r, c, SpawnValue(coin));
    }
  }

  /** Writing v into an empty cell adds v to the sum of the board. */
  lemma PlaceAddsToTotal(b: Board, r: nat, c: nat, v: int)
    requires IsBoard(b) && r < N && c < N && b[r][c] == 0
    ensures Total(Place(b, r, c, v)) == Total(b) + v
  {
    var p := Place(b, r, c, v);
    TotalOfFour(b);
    TotalOfFour(p);
    SumOfFour(b[r]);
    SumOfFour(p[r]);
  }

  /** A spawn that finds an empty cell adds a 2 or a 4 to the sum of the board. */
  lemma SpawnAddsToTotal(b: Board, coin: nat, draws: seq<Draw>)
    requires IsBoard(b) && SpawnPlaces(b, draws)
    ensures Total(Spawned(b, coin, draws)) == Total(b) + SpawnValue(coin)
    ensures SpawnValue(coin) == 2 || SpawnValue(coin) == 4
  {
    SpawnFillsOneEmptyCell(b, coin, draws);
    var r, c :| 0 <= r < N && 0 <= c < N && b[r][c] == 0
      && Spawned(b, coin, draws) == Place(b, r, c, SpawnValue(coin));
    PlaceAddsToTotal(b, r, c, SpawnValue(coin));
  }

  /** The spawned tile is a power of two, so every cell stays empty or a power of two. */
  lemma SpawnKeepsPowers(b: Board, coin: nat, draws: seq<Draw>)
    requires IsBoard(b) && AllPowersOfTwo(b)
    ensures AllPowersOfTwo(Spawned(b, coin, draws))
  {
    SpawnFillsOneEmptyCell(b, coin, draws);
    assert IsPowerOfTwo(2) && IsPowerOfTwo(4) by {
      assert IsPowerOfTwo(1);
      assert 4 / 2 == 2 && 2 / 2 == 1;
    }
  }

  // ---------------------------------------------------------------------------------------
  // The game loop

  /** The keys that select a move: 'w' (Up), 's' (Down), 'a' (Left) and 'd' (Right). */
  predicate IsMoveKey(key: char)
  {
    key == 'w' || key == 's' || key == 'a' || key == 'd'
  }

  function KeyDirection(key: char): Direction
    requires IsMoveKey(key)
  {
    if key == 'w' then Up else if key == 's' then Down else if key == 'a' then Left else Right
  }

  /** The board after a move in direction d: the spawn step follows only a move that reports movement. */
  function MoveTurn(b: Board, d: Direction, coin: nat, draws: seq<Draw>): (t: Board)
    requires IsBoard(b)
    ensures IsBoard(t)
  {
    if Moved(b, d) then Spawned(Move(b, d), coin, draws) else Move(b, d)
  }

  /**
   * The board after one pass of the game loop for a key. 'q' and unknown keys move nothing and
   * spawn nothing ('q' also restores the terminal, but the loop's condition is then set again
   * from the game-over test, so the game goes on).
   */
  function Turn(b: Board, key: char, coin: nat, draws: seq<Draw>): (t: Board)
    requires IsBoard(b)
    ensures IsBoard(t)
  {
    if IsMoveKey(key) then MoveTurn(b, KeyDirection(key), coin, draws) else b
  }

  /** What one pass of the game loop consumes: the key read, the 2-or-4 draw and the cell draws. */
  datatype TurnInput = TurnInput(key: char, coin: nat, draws: seq<Draw>)

  /** The board after the passes of the game loop for the given inputs, in order. */
  function Game(b: Board, inputs: seq<TurnInput>): (g: Board)
    requires IsBoard(b)
    ensures IsBoard(g)
    decreases |inputs|
  {
    if inputs == [] then b
    else Game(Turn(b, inputs[0].key, inputs[0].coin, inputs[0].draws), inputs[1..])
  }

  /** The grid the game starts from: a 2 at row 0, column 1 and a 4 at row 3, column 1. */
  function StartingGrid(): (b: Board)
    ensures IsBoard(b)
  {
    Place(Place(EmptyBoard(), 0, 1, 2), 3, 1, 4)
  }

  /** The starting grid holds only empty cells and powers of two, and its tiles sum to 6. */
  lemma StartingGridInvariants()
    ensures AllPowersOfTwo(StartingGrid())
    ensures Total(StartingGrid()) == 6
  {
    var e := EmptyBoard();
    assert IsPowerOfTwo(2) && IsPowerOfTwo(4) by {
      assert IsPowerOfTwo(1);
      assert 4 / 2 == 2 && 2 / 2 == 1;
    }
    assert Total(e) == 0 by {
      TotalOfFour(e);
      SumOfFour(e[0]);
      SumOfFour(e[1]);
      SumOfFour(e[2]);
      SumOfFour(e[3]);
    }
    PlaceAddsToTotal(e, 0, 1, 2);
    PlaceAddsToTotal(Place(e, 0, 1, 2), 3, 1, 4);
  }

  /**
   * One pass of the game loop keeps every cell empty or a power of two, and grows the sum of the
   * board by the spawned value exactly when the key selects a move that reports movement and the
   * spawn finds a cell; otherwise the sum stays as it was.
   */
  lemma TurnKeepsInvariants(b: Board, key: char, coin: nat, draws: seq<Draw>)
    requires IsBoard(b) && AllPowersOfTwo(b)
    ensures AllPowersOfTwo(Turn(b, key, coin, draws))
    ensures Total(Turn(b, key, coin, draws))
         == Total(b) + if IsMoveKey(key) && Moved(b, KeyDirection(key))
                          && SpawnPlaces(Move(b, KeyDirection(key)), draws)
                       then SpawnValue(coin) else 0
  {
    if IsMoveKey(key) {
      var d := KeyDirection(key);
      MoveKeepsPowers(b, d);
      MoveKeepsTotal(b, d);
      if Moved(b, d) {
        SpawnKeepsPowers(Move(b, d), coin, draws);
        SpawnFillsOneEmptyCell(Move(b, d), coin, draws);
        if SpawnPlaces(Move(b, d), draws) {
          SpawnAddsToTotal(Move(b, d), coin, draws);
        }
      }
    }
  }

  /** 'q' leaves the board as it is, so on a board that is not over the game goes on. */
  lemma QuitKeepsGameRunning(b: Board, coin: nat, draws: seq<Draw>)
    requires IsBoard(b) && !GameOver(b)
    ensures Turn(b, 'q', coin, draws) == b
    ensures !GameOver(Turn(b, 'q', coin, draws))
  {
  }

  /** Every board a game reaches from the starting grid holds only empty cells and powers of two. */
  lemma {:induction false} GameKeepsPowers(b: Board, inputs: seq<TurnInput>)
    requires IsBoard(b) && AllPowersOfTwo(b)
    ensures AllPowersOfTwo(Game(b, inputs))
    decreases |inputs|
  {
    if inputs != [] {
      var i := inputs[0];
      TurnKeepsInvariants(b, i.key, i.coin, i.draws);
      GameKeepsPowers(Turn(b, i.key, i.coin, i.draws), inputs[1..]);
    }
  }

  /** The invariant holds from the start of every game. */
  lemma GameFromStartKeepsPowers(inputs: seq<TurnInput>)
    ensures AllPowersOfTwo(Game(StartingGrid(), inputs))
  {
    StartingGridInvariants();
    GameKeepsPowers(StartingGrid(), inputs);
  }
}
