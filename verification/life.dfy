/**
 * The Game of Life engine (`GameOfLife`): an N by N board of 0/1 cells on a
 * bounded, non-wrapping grid, a generation counter, the starting snapshot
 * taken after every deliberate edit, and whether a listener is registered.
 * Every mutator of the class is a pure function from state to state.
 */
module Life {

  import opened Wrappers
  import opened Grid
  import ArrayCopy

  /** `new Array(size)` throws a RangeError for a length that is not an array length. */
  datatype Error = InvalidArrayLength

  /** The largest length `new Array` accepts: 2^32 - 1. */
  const MaxArrayLength: int := 0xFFFF_FFFF

  /** A length `new Array` accepts without throwing. */
  predicate IsArrayLength(n: int) {
    0 <= n <= MaxArrayLength
  }

  /** The four private fields of the class, plus whether a listener is set. */
  datatype Game = Game(size: nat, board: Board, generations: nat, starting: Board, listening: bool)

  /** The class invariant: the size is an array length, and board and snapshot are both `size` by `size` grids of 0/1 cells. */
  predicate Valid(g: Game) {
    IsArrayLength(g.size) && WellFormed(g.board, g.size) && WellFormed(g.starting, g.size)
  }

  // ---------------------------------------------------------------------------
  // Construction and listeners

  /** createEmptyBoard: an all-zero square board, or the RangeError of `new Array`. */
  function CreateEmptyBoard(size: int): (r: Result<Board, Error>)
    ensures r.Failure? <==> size < 0 || size > MaxArrayLength
    ensures r.Success? ==> WellFormed(r.value, size) && AllDead(r.value)
  {
    if !IsArrayLength(size) then Failure(InvalidArrayLength) else Success(EmptyBoard(size))
  }

  /** The constructor: an empty board of the given size, generation 0, snapshot equal to the board. */
  function New(size: int): (r: Result<Game, Error>)
    ensures r.Failure? <==> size < 0 || size > MaxArrayLength
    ensures r.Success? ==> && Valid(r.value) && r.value.size == size
                           && r.value.generations == 0 && !r.value.listening
                           && IsEmpty(r.value) && IsStartingBoard(r.value)
  {
    var b :- CreateEmptyBoard(size);
    Success(Game(size, b, 0, b, false))
  }

  /** Registering a listener touches no board state. */
  function AddBoardUpdateListener(g: Game): (r: Game)
    ensures r.listening
    ensures r.size == g.size && r.board == g.board && r.generations == g.generations && r.starting == g.starting
  {
    g.(listening := true)
  }

  /** Removing the listener touches no board state. */
  function RemoveListeners(g: Game): (r: Game)
    ensures !r.listening
    ensures r.size == g.size && r.board == g.board && r.generations == g.generations && r.starting == g.starting
  {
    g.(listening := false)
  }

  // ---------------------------------------------------------------------------
  // Queries

  /** isEmpty: every cell is 0. */
  predicate IsEmpty(g: Game) {
    AllDead(g.board)
  }

  /** isStartingBoard: every cell equals the snapshot cell at the same coordinates. */
  predicate IsStartingBoard(g: Game) {
    forall x, y :: 0 <= x < |g.board| && 0 <= y < |g.board[x]| ==>
      x < |g.starting| && y < |g.starting[x]| && g.board[x][y] == g.starting[x][y]
  }

  /** isEmpty holds exactly of the all-zero board of the engine's size. */
  lemma IsEmptyIff(g: Game)
    requires Valid(g)
    ensures IsEmpty(g) <==> g.board == EmptyBoard(g.size)
  {
    AllDeadIsEmptyBoard(g.board, g.size);
  }

  /** isStartingBoard holds exactly when the board equals the snapshot. */
  lemma IsStartingBoardIff(g: Game)
    requires Valid(g)
    ensures IsStartingBoard(g) <==> g.board == g.starting
  {
    if IsStartingBoard(g) {
      forall x | 0 <= x < g.size
        ensures g.board[x] == g.starting[x]
      {
        assert forall y :: 0 <= y < g.size ==> g.board[x][y] == g.starting[x][y];
      }
    }
  }

  /** isValidIndex: both coordinates lie in [0, board.length), which is the engine's size. */
  function IsValidIndex(g: Game, x: int, y: int): (r: bool)
    requires Valid(g)
    ensures r <==> 0 <= x < g.size && 0 <= y < g.size
  {
    0 <= x < |g.board| && 0 <= y < |g.board|
  }

  // ---------------------------------------------------------------------------
  // Deliberate edits: each resets the generation counter and re-captures the snapshot

  /** resetGenerations: the counter is 0 and nothing else changes. */
  function ResetGenerations(g: Game): (r: Game)
    ensures r.generations == 0
    ensures r.size == g.size && r.board == g.board && r.starting == g.starting && r.listening == g.listening
  {
    g.(generations := 0)
  }

  /** setStartingBoard: the board becomes the starting board; the board itself is kept. */
  function SetStartingBoard(g: Game): (r: Game)
    ensures IsStartingBoard(r)
    ensures IsArrayLength(g.size) && WellFormed(g.board, g.size) ==> Valid(r)
    ensures r.size == g.size && r.board == g.board && r.generations == g.generations && r.listening == g.listening
  {
    g.(starting := g.board)
  }

  /** The board after writing `v` at (x, y) when that is a valid index, and unchanged otherwise. */
  function WriteIfValid(g: Game, x: int, y: int, v: int): Game
    requires Valid(g)
  {
    if IsValidIndex(g, x, y) then g.(board := SetCell(g.board, x, y, v)) else g
  }

  /**
   * What a single-cell edit at (x, y) promises: a valid state of the same
   * size at generation 0 whose snapshot is its board, in which no cell other
   * than (x, y) differs from `g`, and nothing at all differs when (x, y) is
   * out of range.
   */
  predicate EditedAt(g: Game, r: Game, x: int, y: int)
    requires Valid(g)
  {
    && Valid(r) && r.size == g.size && r.generations == 0 && r.starting == r.board
    && r.listening == g.listening
    && (forall i, j :: 0 <= i < g.size && 0 <= j < g.size && (i != x || j != y) ==> r.board[i][j] == g.board[i][j])
    && (!IsValidIndex(g, x, y) ==> r.board == g.board)
  }

  /** setCellAlive */
  function SetCellAlive(g: Game, x: int, y: int): (r: Game)
    requires Valid(g)
    ensures EditedAt(g, r, x, y)
    ensures IsValidIndex(g, x, y) ==> r.board[x][y] == Alive
  {
    SetStartingBoard(WriteIfValid(ResetGenerations(g), x, y, Alive))
  }

  /** setCellDead */
  function SetCellDead(g: Game, x: int, y: int): (r: Game)
    requires Valid(g)
    ensures EditedAt(g, r, x, y)
    ensures IsValidIndex(g, x, y) ==> r.board[x][y] == Dead
  {
    SetStartingBoard(WriteIfValid(ResetGenerations(g), x, y, Dead))
  }

  /** toggleCell: a truthy cell becomes 0, a falsy one becomes 1. */
  function ToggleCell(g: Game, x: int, y: int): (r: Game)
    requires Valid(g)
    ensures EditedAt(g, r, x, y)
    ensures IsValidIndex(g, x, y) ==> r.board[x][y] == 1 - g.board[x][y]
  {
    var v := if IsValidIndex(g, x, y) && g.board[x][y] != 0 then Dead else Alive;
    SetStartingBoard(WriteIfValid(ResetGenerations(g), x, y, v))
  }

  /** Toggling the same cell twice gives back the original board. */
  lemma ToggleTwice(g: Game, x: int, y: int)
    requires Valid(g)
    ensures ToggleCell(ToggleCell(g, x, y), x, y).board == g.board
  {
    var r := ToggleCell(ToggleCell(g, x, y), x, y);
    forall i | 0 <= i < g.size
      ensures r.board[i] == g.board[i]
    {
    }
  }

  /**
   * fillRandom, with the per-cell draw `Math.random() < density` supplied as
   * `alive`: the cell (x, y) is 1 exactly when the draw for it succeeded.
   */
  function FillRandom(g: Game, alive: (int, int) -> bool): (r: Game)
    requires Valid(g)
    ensures Valid(r) && r.size == g.size && r.generations == 0 && r.starting == r.board
    ensures r.listening == g.listening
    ensures forall x, y :: 0 <= x < g.size && 0 <= y < g.size ==> (r.board[x][y] == Alive <==> alive(x, y))
  {
    var g1 := ResetGenerations(g);
    var b := seq(g.size, x => seq(g.size, y => if alive(x, y) then Alive else Dead));
    SetStartingBoard(g1.(board := b))
  }

  /** Every 0/1 board of the engine's size is an outcome of some draw, whatever the board before. */
  lemma FillRandomReachesEveryBoard(g: Game, b: Board)
    requires Valid(g)
    requires WellFormed(b, g.size)
    ensures FillRandom(g, (x, y) => 0 <= x < |b| && 0 <= y < |b[x]| && b[x][y] == Alive).board == b
  {
    var r := FillRandom(g, (x, y) => 0 <= x < |b| && 0 <= y < |b[x]| && b[x][y] == Alive);
    forall x | 0 <= x < g.size
      ensures r.board[x] == b[x]
    {
    }
  }

  /** clear */
  function Clear(g: Game): (r: Game)
    requires Valid(g)
    ensures Valid(r) && r.size == g.size && r.listening == g.listening
    ensures IsEmpty(r) && r.generations == 0 && IsStartingBoard(r)
  {
    SetStartingBoard(ResetGenerations(g).(board := EmptyBoard(g.size)))
  }

  /**
   * updateBoardSize: a fresh all-zero board of the new size into which the
   * old board is copied. The overlap keeps its values, the rest is 0, and
   * the generation counter is left as it was.
   */
  function UpdateBoardSize(g: Game, size: int): (r: Result<Game, Error>)
    requires Valid(g)
    ensures r.Failure? <==> size < 0 || size > MaxArrayLength
    ensures r.Success? ==> && Valid(r.value) && r.value.size == size
                           && r.value.generations == g.generations
                           && r.value.listening == g.listening
                           && IsStartingBoard(r.value)
    ensures r.Success? ==> forall x, y :: 0 <= x < size && 0 <= y < size ==>
      r.value.board[x][y] == if x < g.size && y < g.size then g.board[x][y] else Dead
  {
    var empty :- CreateEmptyBoard(size);
    var b := ArrayCopy.Copy2DArrayElements(g.board, empty);
    Success(SetStartingBoard(g.(size := size, board := b)))
  }

  // ---------------------------------------------------------------------------
  // One generation

  /** The eight (dx, dy) offsets in the order the nested neighbour loops visit them. */
  const Offsets: seq<(int, int)> := [(-1, -1), (-1, 0), (-1, 1), (0, -1), (0, 1), (1, -1), (1, 0), (1, 1)]

  /** The Moore neighbourhood offsets, defined independently of any visiting order. */
  const MooreOffsets: set<(int, int)> := set i, j | -1 <= i <= 1 && -1 <= j <= 1 && (i != 0 || j != 0) :: (i, j)

  /** A neighbour counts when it is a valid index and holds exactly 1. */
  predicate LiveAt(b: Board, x: int, y: int)
    requires IsSquare(b, |b|)
  {
    0 <= x < |b| && 0 <= y < |b| && b[x][y] == Alive
  }

  /** How many of the offsets `offs` point from (x, y) at a live cell. */
  function CountLive(b: Board, x: int, y: int, offs: seq<(int, int)>): nat
    requires IsSquare(b, |b|)
    decreases |offs|
  {
    if |offs| == 0 then 0
    else
      var o := offs[|offs| - 1];
      CountLive(b, x, y, offs[..|offs| - 1]) + if LiveAt(b, x + o.0, y + o.1) then 1 else 0
  }

  /** The neighbour count of cell (x, y). */
  function AliveNeighbors(b: Board, x: int, y: int): nat
    requires IsSquare(b, |b|)
  {
    CountLive(b, x, y, Offsets)
  }

  /** Offsets visited by the nested loops before they reach (i, j). */
  function Visited(i: int, j: int): int {
    3 * (i + 1) + (j + 1) - if i > 0 || (i == 0 && j > 0) then 1 else 0
  }

  /** getAliveNeighbors, as the two nested loops over -1..1 that skip (0, 0). */
  method GetAliveNeighbors(b: Board, x: int, y: int) returns (n: nat)
    requires IsSquare(b, |b|)
    ensures n == AliveNeighbors(b, x, y)
  {
    n := 0;
    var i := -1;
    while i <= 1
      invariant -1 <= i <= 2
      invariant n == CountLive(b, x, y, Offsets[..Visited(i, -1)])
    {
      var j := -1;
      while j <= 1
        invariant -1 <= j <= 2
        invariant n == CountLive(b, x, y, Offsets[..Visited(i, j)])
      {
        if i == 0 && j == 0 {
          j := j + 1;
          continue;
        }
        var k := Visited(i, j);
        assert Offsets[k] == (i, j);
        assert Offsets[..k + 1][..k] == Offsets[..k];
        if LiveAt(b, x + i, y + j) {
          n := n + 1;
        }
        j := j + 1;
      }
      i := i + 1;
    }
    assert Offsets[..Visited(2, -1)] == Offsets;
  }

  /** The successor of one cell with `n` live neighbours: survival on 2 or 3, birth on 3. */
  function NextCell(cell: int, n: nat): (r: int)
    ensures r == Dead || r == Alive
    ensures r == Alive <==> (cell == Alive && (n == 2 || n == 3)) || (cell != Alive && n == 3)
  {
    if cell == Alive then
      if n < 2 || n > 3 then Dead else Alive
    else
      if n == 3 then Alive else Dead
  }

  /** The successor board, computed entirely from the current one. */
  function NextBoard(b: Board, size: nat): (r: Board)
    requires IsSquare(b, size)
    ensures WellFormed(r, size)
    ensures forall x, y :: 0 <= x < size && 0 <= y < size ==>
      (r[x][y] == Alive <==>
         || (b[x][y] == Alive && (AliveNeighbors(b, x, y) == 2 || AliveNeighbors(b, x, y) == 3))
         || (b[x][y] != Alive && AliveNeighbors(b, x, y) == 3))
  {
    seq(size, x requires 0 <= x < size => seq(size, y requires 0 <= y < size => NextCell(b[x][y], AliveNeighbors(b, x, y))))
  }

  /**
   * nextGeneration: the rule B3/S23 applied to every cell on the bounded
   * grid, one more generation, the snapshot untouched.
   */
  function NextGeneration(g: Game): (r: Game)
    requires Valid(g)
    ensures Valid(r) && r.size == g.size && r.listening == g.listening
    ensures r.generations == g.generations + 1
    ensures r.starting == g.starting
    ensures forall x, y :: 0 <= x < g.size && 0 <= y < g.size ==>
      (r.board[x][y] == Alive <==>
         || (g.board[x][y] == Alive && (AliveNeighbors(g.board, x, y) == 2 || AliveNeighbors(g.board, x, y) == 3))
         || (g.board[x][y] == Dead && AliveNeighbors(g.board, x, y) == 3))
  {
    g.(generations := g.generations + 1, board := NextBoard(g.board, g.size))
  }

  /** resetBoard: the board becomes the snapshot and the counter 0; the snapshot stays. */
  function ResetBoard(g: Game): (r: Game)
    requires Valid(g)
    ensures Valid(r) && r.size == g.size && r.listening == g.listening
    ensures r.board == g.starting && r.starting == g.starting && r.generations == 0
    ensures IsStartingBoard(r)
  {
    g.(generations := 0, board := g.starting)
  }

  /** Resetting twice leaves the same state as resetting once. */
  lemma ResetBoardIdempotent(g: Game)
    requires Valid(g)
    ensures ResetBoard(ResetBoard(g)) == ResetBoard(g)
  {
  }
}
