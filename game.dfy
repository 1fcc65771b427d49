/**
 * The `Game` component of tic-tac-toe/src/index.js: its state, the three
 * handlers that change it, and the values `render` derives from it.
 * Each `setState` call is one atomic update of the fields.
 */
module GameState {
  import opened Wrappers
  import opened Evaluator
  import opened Play
  import opened MoveList

  /** The status line: "Draw", "Winner is ..." or "Next player: ...". */
  datatype Status = Draw | Won(team: Cell) | Next(player: Cell)

  /** What `render` shows: the current board, the winning trace, the status and the move list. */
  datatype View = View(board: seq<Cell>, trace: seq<CellIndex>, status: Status, moves: seq<MoveEntry>)

  /** The status choice of `render`: the draw test comes before the winner test. */
  function StatusOf(isDraw: bool, winner: Option<WinResult>, xIsNext: bool): Status {
    if isDraw then Draw
    else if winner.Some? then Won(winner.value.team)
    else Next(if xIsNext then X else O)
  }

  /**
   * The guard of `handleClick`: a click on square `i` is taken unless the
   * board has a winner, the step count says draw, or the square is marked.
   */
  predicate Accepts(squares: seq<Cell>, stepNumber: int, i: CellIndex)
    requires |squares| == CellCount
  {
    !(Winner(squares).Some? || CalculateDraw(stepNumber, BorderSize) || squares[i] != Empty)
  }

  /** `winner?.trace ?? []`. */
  function TraceOf(winner: Option<WinResult>): seq<CellIndex> {
    if winner.Some? then TraceIndices(winner.value.trace) else []
  }

  /**
   * On a played history the status is Draw exactly at step 9, which is
   * exactly when the board is full, whether or not it also has a winner;
   * a winner shown is the player who moved last; and otherwise the next
   * player is X on even steps and O on odd ones.
   */
  lemma StatusOfPlayed(h: seq<Snapshot>, k: nat, xIsNext: bool)
    requires Played(h) && k < |h| && xIsNext == (k % 2 == 0)
    ensures StatusOf(CalculateDraw(k, BorderSize), Winner(h[k].squares), xIsNext) == Draw <==> k == 9
    ensures StatusOf(CalculateDraw(k, BorderSize), Winner(h[k].squares), xIsNext) == Draw <==>
              forall i :: 0 <= i < CellCount ==> h[k].squares[i] != Empty
    ensures StatusOf(CalculateDraw(k, BorderSize), Winner(h[k].squares), xIsNext).Won? ==>
              k > 0 && StatusOf(CalculateDraw(k, BorderSize), Winner(h[k].squares), xIsNext).team == MarkFor(k - 1)
    ensures StatusOf(CalculateDraw(k, BorderSize), Winner(h[k].squares), xIsNext).Next? ==>
              StatusOf(CalculateDraw(k, BorderSize), Winner(h[k].squares), xIsNext).player == MarkFor(k)
  {
    PlayedCounts(h, k);
    DrawIffFull(h[k].squares, k);
    WinnerIsLastMover(h, k);
  }

  /**
   * On a played history the status says "Next player" exactly when some
   * click would be accepted: there is an empty square and every empty
   * square can be taken.
   */
  lemma NextIffMovePossible(h: seq<Snapshot>, k: nat, xIsNext: bool)
    requires Played(h) && k < |h|
    ensures StatusOf(CalculateDraw(k, BorderSize), Winner(h[k].squares), xIsNext).Next? <==>
              exists i: CellIndex :: Accepts(h[k].squares, k, i)
    ensures StatusOf(CalculateDraw(k, BorderSize), Winner(h[k].squares), xIsNext).Next? ==>
              forall i: CellIndex :: h[k].squares[i] == Empty ==> Accepts(h[k].squares, k, i)
  {
    var squares := h[k].squares;
    PlayedCounts(h, k);
    DrawIffFull(squares, k);
    if StatusOf(CalculateDraw(k, BorderSize), Winner(squares), xIsNext).Next? {
      var j :| 0 <= j < CellCount && squares[j] == Empty;
      var i: CellIndex := j;
      assert Accepts(squares, k, i);
    }
  }

  class Game {
    var history: seq<Snapshot>
    var stepNumber: nat
    var xIsNext: bool
    var isSortOrderAsc: bool
    var selectedStepNumber: Option<nat>

    /**
     * The state the handlers keep: the history is one the clicks can have
     * produced, the pointer is inside it, the turn matches the parity of
     * the pointer, and a highlighted step is the current one.
     */
    ghost predicate Valid()
      reads this
    {
      Played(history) && stepNumber < |history| &&
      xIsNext == (stepNumber % 2 == 0) &&
      (selectedStepNumber.Some? ==> selectedStepNumber.value == stepNumber)
    }

    /** The initial state: one empty snapshot, X to move, ascending, nothing selected. */
    constructor ()
      ensures Valid()
      ensures history == [Start()] && stepNumber == 0 && xIsNext
      ensures isSortOrderAsc && selectedStepNumber == None
    {
      history := [Start()];
      stepNumber := 0;
      xIsNext := true;
      isSortOrderAsc := true;
      selectedStepNumber := None;
    }

    /**
     * `handleClick(i)`: a rejected click changes nothing; an accepted one
     * drops the snapshots after the current one, appends the current board
     * with square `i` marked for the player to move and the square's
     * coordinates, points at it, passes the turn and clears the selection.
     */
    method HandleClick(i: CellIndex)
      requires Valid()
      modifies this
      ensures Valid()
      ensures !Accepts(old(history[stepNumber].squares), old(stepNumber), i) ==> unchanged(this)
      ensures Accepts(old(history[stepNumber].squares), old(stepNumber), i) ==>
                && history == old(history[..stepNumber + 1]) +
                     [Snapshot(old(history[stepNumber].squares)[i := if old(xIsNext) then X else O],
                               CoordsOf(i))]
                && stepNumber == old(stepNumber) + 1 == |history| - 1
                && xIsNext == !old(xIsNext)
                && selectedStepNumber == None
                && isSortOrderAsc == old(isSortOrderAsc)
    {
      var step := stepNumber;
      var kept := history[..step + 1];
      var current := kept[step];
      var squares := current.squares;
      var isDraw := CalculateDraw(step, BorderSize);
      var winner := CalculateWinner(squares);
      if winner.Some? || isDraw || squares[i] != Empty {
        return;
      }
      var coords := CoordsOf(i);
      squares := squares[i := if xIsNext then X else O];
      ClickKeepsPlayed(history, step, i);
      history := kept + [Snapshot(squares, coords)];
      stepNumber := |kept|;
      xIsNext := !xIsNext;
      selectedStepNumber := None;
    }

    /** `handleChangeSortOrderClick(isSortOrderAsc)`: the flag becomes the negation of the argument. */
    method HandleChangeSortOrderClick(isSortOrderAsc: bool)
      requires Valid()
      modifies this
      ensures Valid()
      ensures this.isSortOrderAsc == !isSortOrderAsc
      ensures history == old(history) && stepNumber == old(stepNumber) && xIsNext == old(xIsNext)
      ensures selectedStepNumber == old(selectedStepNumber)
    {
      this.isSortOrderAsc := !isSortOrderAsc;
    }

    /**
     * `jumpToMove(step)`: point at snapshot `step` without cutting the
     * history, give the turn to X on even steps, and select the step.
     */
    method JumpToMove(step: nat)
      requires Valid() && step < |history|
      modifies this
      ensures Valid()
      ensures stepNumber == step && xIsNext == (step % 2 == 0) && selectedStepNumber == Some(step)
      ensures history == old(history) && isSortOrderAsc == old(isSortOrderAsc)
    {
      stepNumber := step;
      xIsNext := step % 2 == 0;
      selectedStepNumber := Some(step);
    }

    /**
     * The values `render` computes: the current board, the winning trace,
     * the status (draw first, then winner, then next player) and the move
     * list in the chosen order.
     */
    method Render() returns (view: View)
      requires Valid()
      ensures view.board == history[stepNumber].squares
      ensures view.trace == TraceOf(Winner(history[stepNumber].squares))
      ensures view.status == StatusOf(CalculateDraw(stepNumber, BorderSize), Winner(history[stepNumber].squares), xIsNext)
      ensures view.moves == Ordered(Entries(history, selectedStepNumber), isSortOrderAsc)
      ensures view.status == Draw <==> stepNumber == 9
      ensures view.status == Draw <==> forall i :: 0 <= i < CellCount ==> view.board[i] != Empty
      ensures view.status.Won? ==> stepNumber > 0 && view.status.team == MarkFor(stepNumber - 1)
      ensures view.status.Next? ==> view.status.player == MarkFor(stepNumber)
      ensures |view.moves| == |history| && view.moves[0].move == 0
      ensures forall k :: 0 <= k < |view.moves| ==> (view.moves[k].isSelected <==> selectedStepNumber == Some(view.moves[k].move))
    {
      var current := history[stepNumber];
      var winner := CalculateWinner(current.squares);
      var isDraw := CalculateDraw(stepNumber, BorderSize);
      var moves := Entries(history, selectedStepNumber);
      OrderedShape(moves, isSortOrderAsc);
      OrderedEntriesSelected(history, selectedStepNumber, isSortOrderAsc);
      StatusOfPlayed(history, stepNumber, xIsNext);
      var trace := TraceOf(winner);
      view := View(current.squares, trace, StatusOf(isDraw, winner, xIsNext), Ordered(moves, isSortOrderAsc));
    }
  }
}
