/** Properties of one generation: the neighbour count, and the rule on known patterns. */
module LifeRules {

  import opened Grid
  import opened Life

  /** No offset occurs twice. */
  predicate Distinct(offs: seq<(int, int)>) {
    forall i, j :: 0 <= i < j < |offs| ==> offs[i] != offs[j]
  }

  /** The offsets among `offs` that point from (x, y) at a live cell. */
  function LiveOffsets(b: Board, x: int, y: int, offs: set<(int, int)>): set<(int, int)>
    requires IsSquare(b, |b|)
  {
    set o | o in offs && LiveAt(b, x + o.0, y + o.1)
  }

  /** Adding one offset adds it to the live set exactly when it points at a live cell. */
  lemma LiveOffsetsAdd(b: Board, x: int, y: int, s: set<(int, int)>, o: (int, int))
    requires IsSquare(b, |b|)
    ensures LiveAt(b, x + o.0, y + o.1) ==> LiveOffsets(b, x, y, s + {o}) == LiveOffsets(b, x, y, s) + {o}
    ensures !LiveAt(b, x + o.0, y + o.1) ==> LiveOffsets(b, x, y, s + {o}) == LiveOffsets(b, x, y, s)
  {
  }

  /** The offsets listed in `offs`. */
  function Elems(offs: seq<(int, int)>): set<(int, int)> {
    set o | o in offs
  }

  /** Splitting off the last offset of a distinct list splits its set of offsets disjointly. */
  lemma ElemsSnoc(offs: seq<(int, int)>)
    requires Distinct(offs)
    requires |offs| > 0
    ensures Elems(offs) == Elems(offs[..|offs| - 1]) + {offs[|offs| - 1]}
    ensures offs[|offs| - 1] !in Elems(offs[..|offs| - 1])
  {
    var p := offs[..|offs| - 1];
    assert offs == p + [offs[|offs| - 1]];
    forall k | 0 <= k < |p|
      ensures p[k] != offs[|offs| - 1]
    {
      assert offs[k] != offs[|offs| - 1];
    }
  }

  /** The count over `offs` grows with its last offset exactly as the live set does. */
  lemma CountLiveStep(b: Board, x: int, y: int, offs: seq<(int, int)>)
    requires IsSquare(b, |b|)
    requires Distinct(offs)
    requires |offs| > 0
    requires CountLive(b, x, y, offs[..|offs| - 1]) == |LiveOffsets(b, x, y, Elems(offs[..|offs| - 1]))|
    ensures CountLive(b, x, y, offs) == |LiveOffsets(b, x, y, Elems(offs))|
  {
    var o := offs[|offs| - 1];
    var s := Elems(offs[..|offs| - 1]);
    ElemsSnoc(offs);
    LiveOffsetsAdd(b, x, y, s, o);
    assert o !in LiveOffsets(b, x, y, s);
  }

  /** Over distinct offsets, the count is the size of the set of live offsets. */
  lemma {:induction false} CountLiveIsCardinality(b: Board, x: int, y: int, offs: seq<(int, int)>)
    requires IsSquare(b, |b|)
    requires Distinct(offs)
    ensures CountLive(b, x, y, offs) == |LiveOffsets(b, x, y, Elems(offs))|
  {
    if |offs| > 0 {
      var p := offs[..|offs| - 1];
      assert Distinct(p);
      CountLiveIsCardinality(b, x, y, p);
      CountLiveStep(b, x, y, offs);
    }
  }

  /** The loops visit each Moore offset exactly once. */
  lemma OffsetsAreMoore()
    ensures Distinct(Offsets)
    ensures Elems(Offsets) == MooreOffsets
  {
    forall o | o in MooreOffsets
      ensures o in Offsets
    {
      var i, j :| -1 <= i <= 1 && -1 <= j <= 1 && (i != 0 || j != 0) && o == (i, j);
    }
    forall o | o in Offsets
      ensures o in MooreOffsets
    {
      assert o.0 == (o.0, o.1).0;
    }
  }

  /** getAliveNeighbors counts exactly the live cells of the bounded Moore neighbourhood. */
  lemma AliveNeighborsIsMooreCount(b: Board, x: int, y: int)
    requires IsSquare(b, |b|)
    ensures AliveNeighbors(b, x, y) == |LiveOffsets(b, x, y, MooreOffsets)|
    ensures AliveNeighbors(b, x, y) <= 8
  {
    OffsetsAreMoore();
    CountLiveIsCardinality(b, x, y, Offsets);
    assert LiveOffsets(b, x, y, MooreOffsets) <= MooreOffsets;
    SubsetCard(LiveOffsets(b, x, y, MooreOffsets), MooreOffsets);
    assert |MooreOffsets| == |Elems(Offsets)| == |Offsets| by {
      DistinctCard(Offsets);
    }
  }

  /** A subset is no larger than its superset. */
  lemma SubsetCard<T>(a: set<T>, b: set<T>)
    requires a <= b
    ensures |a| <= |b|
  {
    assert b == a + (b - a);
  }

  /** A list without repeats has as many distinct elements as entries. */
  lemma {:induction false} DistinctCard(s: seq<(int, int)>)
    requires Distinct(s)
    ensures |Elems(s)| == |s|
  {
    if |s| > 0 {
      var p := s[..|s| - 1];
      assert Distinct(p);
      DistinctCard(p);
      assert s == p + [s[|s| - 1]];
      assert Elems(s) == Elems(p) + {s[|s| - 1]};
    }
  }

  /** No offset pointing at a live cell means a count of 0. */
  lemma {:induction false} CountLiveNone(b: Board, x: int, y: int, offs: seq<(int, int)>)
    requires IsSquare(b, |b|)
    requires forall k :: 0 <= k < |offs| ==> !LiveAt(b, x + offs[k].0, y + offs[k].1)
    ensures CountLive(b, x, y, offs) == 0
  {
    if |offs| > 0 {
      CountLiveNone(b, x, y, offs[..|offs| - 1]);
    }
  }

  /** With a single live cell on the board, distinct offsets count at most one neighbour. */
  lemma {:induction false} CountLiveAtMostOne(b: Board, x: int, y: int, offs: seq<(int, int)>, a: int, c: int)
    requires IsSquare(b, |b|)
    requires Distinct(offs)
    requires forall p, q :: LiveAt(b, p, q) ==> p == a && q == c
    ensures CountLive(b, x, y, offs) <= 1
  {
    if |offs| > 0 {
      var p := offs[..|offs| - 1];
      var o := offs[|offs| - 1];
      if LiveAt(b, x + o.0, y + o.1) {
        forall k | 0 <= k < |p|
          ensures !LiveAt(b, x + p[k].0, y + p[k].1)
        {
          assert p[k] == offs[k] != o;
        }
        CountLiveNone(b, x, y, p);
      } else {
        CountLiveAtMostOne(b, x, y, p, a, c);
      }
    }
  }

  /** On an all-zero board every neighbour count is 0. */
  lemma EmptyStaysEmpty(g: Game)
    requires Valid(g)
    requires IsEmpty(g)
    ensures IsEmpty(NextGeneration(g))
    ensures NextGeneration(g).board == g.board
  {
    var r := NextGeneration(g);
    forall x, y | 0 <= x < g.size && 0 <= y < g.size
      ensures r.board[x][y] == Dead
    {
      CountLiveNone(g.board, x, y, Offsets);
    }
    AllDeadIsEmptyBoard(r.board, g.size);
    AllDeadIsEmptyBoard(g.board, g.size);
  }

  /** A board whose only live cell is (a, c) dies out in one generation: that cell has no live neighbour. */
  lemma IsolatedCellDies(g: Game, a: int, c: int)
    requires Valid(g)
    requires 0 <= a < g.size && 0 <= c < g.size
    requires g.board == SetCell(EmptyBoard(g.size), a, c, Alive)
    ensures IsEmpty(NextGeneration(g))
  {
    var r := NextGeneration(g);
    OffsetsAreMoore();
    forall x, y | 0 <= x < g.size && 0 <= y < g.size
      ensures r.board[x][y] == Dead
    {
      CountLiveAtMostOne(g.board, x, y, Offsets, a, c);
    }
  }

  /** After a step from the starting board, the flag stays set exactly when the pattern is stable. */
  lemma StepKeepsStartingBoardIffStable(g: Game)
    requires Valid(g)
    requires IsStartingBoard(g)
    ensures IsStartingBoard(NextGeneration(g)) <==> NextBoard(g.board, g.size) == g.board
  {
    IsStartingBoardIff(g);
    IsStartingBoardIff(NextGeneration(g));
  }

  /** 1 when (x, y) is a live neighbour, 0 otherwise. */
  function Ind(b: Board, x: int, y: int): nat
    requires IsSquare(b, |b|)
  {
    if LiveAt(b, x, y) then 1 else 0
  }

  /** The eight neighbour terms of (x, y), written out. */
  function NeighborTerms(b: Board, x: int, y: int): nat
    requires IsSquare(b, |b|)
  {
    Ind(b, x - 1, y - 1) + Ind(b, x - 1, y) + Ind(b, x - 1, y + 1) + Ind(b, x, y - 1)
    + Ind(b, x, y + 1) + Ind(b, x + 1, y - 1) + Ind(b, x + 1, y) + Ind(b, x + 1, y + 1)
  }

  /** The loop order's count is the sum of the eight terms. */
  lemma AliveNeighborsUnfolded(b: Board, x: int, y: int)
    requires IsSquare(b, |b|)
    ensures AliveNeighbors(b, x, y) == NeighborTerms(b, x, y)
  {
    assert Offsets[..1][..0] == [];
    assert CountLive(b, x, y, Offsets[..1]) == Ind(b, x - 1, y - 1);
    assert Offsets[..2][..1] == Offsets[..1];
    assert CountLive(b, x, y, Offsets[..2]) == CountLive(b, x, y, Offsets[..1]) + Ind(b, x - 1, y);
    assert Offsets[..3][..2] == Offsets[..2];
    assert CountLive(b, x, y, Offsets[..3]) == CountLive(b, x, y, Offsets[..2]) + Ind(b, x - 1, y + 1);
    assert Offsets[..4][..3] == Offsets[..3];
    assert CountLive(b, x, y, Offsets[..4]) == CountLive(b, x, y, Offsets[..3]) + Ind(b, x, y - 1);
    assert Offsets[..5][..4] == Offsets[..4];
    assert CountLive(b, x, y, Offsets[..5]) == CountLive(b, x, y, Offsets[..4]) + Ind(b, x, y + 1);
    assert Offsets[..6][..5] == Offsets[..5];
    assert CountLive(b, x, y, Offsets[..6]) == CountLive(b, x, y, Offsets[..5]) + Ind(b, x + 1, y - 1);
    assert Offsets[..7][..6] == Offsets[..6];
    assert CountLive(b, x, y, Offsets[..7]) == CountLive(b, x, y, Offsets[..6]) + Ind(b, x + 1, y);
    assert Offsets[..8][..7] == Offsets[..7];
    assert CountLive(b, x, y, Offsets[..8]) == CountLive(b, x, y, Offsets[..7]) + Ind(b, x + 1, y + 1);
    assert Offsets[..8] == Offsets;
  }

  /** `n` is the successor of the 3 by 3 board `b`, checked cell by cell. */
  lemma NextBoard3(b: Board, n: Board)
    requires IsSquare(b, 3) && IsSquare(n, 3)
    requires forall x, y :: 0 <= x < 3 && 0 <= y < 3 ==>
      n[x][y] == NextCell(b[x][y], NeighborTerms(b, x, y))
    ensures NextBoard(b, 3) == n
  {
    var r := NextBoard(b, 3);
    forall x | 0 <= x < 3
      ensures r[x] == n[x]
    {
      forall y | 0 <= y < 3
        ensures r[x][y] == n[x][y]
      {
        AliveNeighborsUnfolded(b, x, y);
      }
    }
  }

  /** A horizontal blinker in row 1 of a 3 by 3 board: cells (1,0), (1,1), (1,2). */
  const Horizontal: Board := [[0, 0, 0], [1, 1, 1], [0, 0, 0]]

  /** The vertical blinker in column 1: cells (0,1), (1,1), (2,1). */
  const Vertical: Board := [[0, 1, 0], [0, 1, 0], [0, 1, 0]]

  /** The horizontal blinker steps to the vertical one. */
  lemma HorizontalTurns()
    ensures NextBoard(Horizontal, 3) == Vertical
  {
    forall x | 0 <= x < 3
      ensures forall y :: 0 <= y < 3 ==> Vertical[x][y] == NextCell(Horizontal[x][y], NeighborTerms(Horizontal, x, y))
    {
      HorizontalRowSteps(x);
    }
    NextBoard3(Horizontal, Vertical);
  }

  /** Row `x` of the horizontal blinker's successor, cell by cell. */
  lemma HorizontalRowSteps(x: int)
    requires 0 <= x < 3
    ensures forall y :: 0 <= y < 3 ==> Vertical[x][y] == NextCell(Horizontal[x][y], NeighborTerms(Horizontal, x, y))
  {
    forall y | 0 <= y < 3
      ensures Vertical[x][y] == NextCell(Horizontal[x][y], NeighborTerms(Horizontal, x, y))
    {
      assert y == 0 || y == 1 || y == 2;
    }
  }

  /** The vertical blinker steps to the horizontal one. */
  lemma VerticalTurns()
    ensures NextBoard(Vertical, 3) == Horizontal
  {
    forall x | 0 <= x < 3
      ensures forall y :: 0 <= y < 3 ==> Horizontal[x][y] == NextCell(Vertical[x][y], NeighborTerms(Vertical, x, y))
    {
      VerticalRowSteps(x);
    }
    NextBoard3(Vertical, Horizontal);
  }

  /** Row `x` of the vertical blinker's successor, cell by cell. */
  lemma VerticalRowSteps(x: int)
    requires 0 <= x < 3
    ensures forall y :: 0 <= y < 3 ==> Horizontal[x][y] == NextCell(Vertical[x][y], NeighborTerms(Vertical, x, y))
  {
    forall y | 0 <= y < 3
      ensures Horizontal[x][y] == NextCell(Vertical[x][y], NeighborTerms(Vertical, x, y))
    {
      assert y == 0 || y == 1 || y == 2;
    }
  }

  /** The blinker turns by a quarter each generation, so it has period two. */
  lemma Blinker(g: Game)
    requires Valid(g)
    requires g.board == Horizontal
    ensures NextGeneration(g).board == Vertical
    ensures NextGeneration(NextGeneration(g)).board == Horizontal
    ensures IsStartingBoard(g) ==> !IsStartingBoard(NextGeneration(g))
  {
    HorizontalTurns();
    VerticalTurns();
    if IsStartingBoard(g) {
      StepKeepsStartingBoardIffStable(g);
    }
  }

  /** A 2 by 2 block is a still life: every cell has three live neighbours. */
  lemma BlockIsStill(g: Game)
    requires Valid(g)
    requires g.board == [[1, 1], [1, 1]]
    ensures NextGeneration(g).board == g.board
    ensures IsStartingBoard(g) ==> IsStartingBoard(NextGeneration(g))
  {
    var n := NextBoard(g.board, 2);
    forall x, y | 0 <= x < 2 && 0 <= y < 2
      ensures n[x][y] == Alive
    {
      AliveNeighborsUnfolded(g.board, x, y);
    }
    assert n[0] == g.board[0];
    assert n[1] == g.board[1];
    if IsStartingBoard(g) {
      StepKeepsStartingBoardIffStable(g);
    }
  }
}
