/**
 * Sequences of calls on the engine's public surface, for the invariants that
 * hold across calls: the class invariant, what moves the generation counter
 * and what re-captures the starting snapshot.
 */
module Trace {

  import opened Wrappers
  import opened Life

  /** One public call on the engine. `Fill` carries the outcome of the per-cell draws. */
  datatype Op =
    | CellAlive(x: int, y: int)
    | CellDead(x: int, y: int)
    | Toggle(x: int, y: int)
    | Fill(alive: (int, int) -> bool)
    | ClearAll
    | Resize(size: int)
    | Step
    | Reset
    | Listen
    | Unlisten

  /** The calls that set the generation counter to 0. */
  predicate ResetsCounter(op: Op) {
    op.CellAlive? || op.CellDead? || op.Toggle? || op.Fill? || op.ClearAll? || op.Reset?
  }

  /** The calls that re-capture the starting snapshot. */
  predicate Recaptures(op: Op) {
    op.CellAlive? || op.CellDead? || op.Toggle? || op.Fill? || op.ClearAll? || op.Resize?
  }

  /** One call; only a resize to a length `new Array` rejects throws. */
  function Apply(g: Game, op: Op): (r: Result<Game, Error>)
    requires Valid(g)
    ensures r.Failure? <==> op.Resize? && (op.size < 0 || op.size > MaxArrayLength)
    ensures r.Success? ==> Valid(r.value)
  {
    match op
    case CellAlive(x, y) => Success(SetCellAlive(g, x, y))
    case CellDead(x, y) => Success(SetCellDead(g, x, y))
    case Toggle(x, y) => Success(ToggleCell(g, x, y))
    case Fill(alive) => Success(FillRandom(g, alive))
    case ClearAll => Success(Clear(g))
    case Resize(size) => UpdateBoardSize(g, size)
    case Step => Success(NextGeneration(g))
    case Reset => Success(ResetBoard(g))
    case Listen => Success(AddBoardUpdateListener(g))
    case Unlisten => Success(RemoveListeners(g))
  }

  /** The calls in order; a thrown error ends the run. Every state reached keeps the class invariant. */
  function Run(g: Game, ops: seq<Op>): (r: Result<Game, Error>)
    requires Valid(g)
    decreases |ops|
    ensures r.Success? ==> Valid(r.value)
  {
    if |ops| == 0 then Success(g)
    else
      var g' :- Apply(g, ops[0]);
      Run(g', ops[1..])
  }

  /** How many of the calls are generation steps. */
  function Steps(ops: seq<Op>): nat
    decreases |ops|
  {
    if |ops| == 0 then 0 else (if ops[0].Step? then 1 else 0) + Steps(ops[1..])
  }

  /** Without a call that resets it, the counter moves by exactly one per step and by nothing else. */
  lemma {:induction false} GenerationsCountSteps(g: Game, ops: seq<Op>)
    requires Valid(g)
    decreases |ops|
    requires forall i :: 0 <= i < |ops| ==> !ResetsCounter(ops[i])
    ensures Run(g, ops).Success? ==> Run(g, ops).value.generations == g.generations + Steps(ops)
  {
    if |ops| > 0 {
      var a := Apply(g, ops[0]);
      if a.Success? {
        GenerationsCountSteps(a.value, ops[1..]);
      }
    }
  }

  /** Without a deliberate edit, the starting snapshot never changes. */
  lemma {:induction false} SnapshotOnlyOnEdits(g: Game, ops: seq<Op>)
    requires Valid(g)
    decreases |ops|
    requires forall i :: 0 <= i < |ops| ==> !Recaptures(ops[i])
    ensures Run(g, ops).Success? ==> Run(g, ops).value.starting == g.starting
  {
    if |ops| > 0 {
      SnapshotOnlyOnEdits(Apply(g, ops[0]).value, ops[1..]);
    }
  }

  /** Running a sequence and then one more call is running the longer sequence. */
  lemma {:induction false} RunSnoc(g: Game, ops: seq<Op>, op: Op)
    requires Valid(g)
    decreases |ops|
    ensures Run(g, ops + [op]) == if Run(g, ops).Success? then Apply(Run(g, ops).value, op) else Run(g, ops)
  {
    if |ops| == 0 {
      assert ops + [op] == [op];
    } else {
      assert (ops + [op])[0] == ops[0];
      assert (ops + [op])[1..] == ops[1..] + [op];
      var a := Apply(g, ops[0]);
      if a.Success? {
        RunSnoc(a.value, ops[1..], op);
      }
    }
  }

  /** Right after a deliberate edit, random fill, clear or resize, the board is the starting board. */
  lemma StartingBoardAfterEdit(g: Game, ops: seq<Op>, op: Op)
    requires Valid(g)
    requires Recaptures(op)
    ensures Run(g, ops + [op]).Success? ==> IsStartingBoard(Run(g, ops + [op]).value)
  {
    RunSnoc(g, ops, op);
    var r := Run(g, ops + [op]);
    if r.Success? {
      IsStartingBoardIff(r.value);
    }
  }
}
