/** Boards: square grids of cell values, indexed `board[x][y]` with the row first. */
module Grid {

  type Board = seq<seq<int>>

  const Dead: int := 0
  const Alive: int := 1

  /** `b` has `n` rows of `n` cells each. */
  predicate IsSquare(b: Board, n: int) {
    |b| == n && forall x :: 0 <= x < |b| ==> |b[x]| == n
  }

  /** Every cell holds 0 or 1. */
  predicate IsBinary(b: Board) {
    forall x, y :: 0 <= x < |b| && 0 <= y < |b[x]| ==> b[x][y] == Dead || b[x][y] == Alive
  }

  /** The shape every board of an engine of size `n` has. */
  predicate WellFormed(b: Board, n: int) {
    IsSquare(b, n) && IsBinary(b)
  }

  /** Every cell is 0. */
  predicate AllDead(b: Board) {
    forall x, y :: 0 <= x < |b| && 0 <= y < |b[x]| ==> b[x][y] == Dead
  }

  /** An `n` by `n` board of dead cells, for a length `new Array` accepts. */
  function EmptyBoard(n: nat): (b: Board)
    ensures WellFormed(b, n)
    ensures AllDead(b)
  {
    seq(n, _ => seq(n, _ => Dead))
  }

  /** The empty board is the only all-dead board of its size. */
  lemma AllDeadIsEmptyBoard(b: Board, n: nat)
    requires IsSquare(b, n)
    ensures AllDead(b) <==> b == EmptyBoard(n)
  {
    if AllDead(b) {
      forall x | 0 <= x < n
        ensures b[x] == EmptyBoard(n)[x]
      {
      }
    }
  }

  /** The board with cell (x, y) replaced by `v` and every other cell kept. */
  function SetCell(b: Board, x: int, y: int, v: int): (r: Board)
    requires 0 <= x < |b| && 0 <= y < |b[x]|
    ensures |r| == |b|
    ensures forall i :: 0 <= i < |b| ==> |r[i]| == |b[i]|
    ensures r[x][y] == v
    ensures forall i, j :: 0 <= i < |b| && 0 <= j < |b[i]| && (i != x || j != y) ==> r[i][j] == b[i][j]
  {
    b[x := b[x][y := v]]
  }
}
