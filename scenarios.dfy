/**
 * Concrete games: the first clicks played through the `Game` handlers,
 * and what `render` derives from the boards of two finished games.
 */
module Scenarios {
  import opened Wrappers
  import opened Evaluator
  import opened Play
  import opened MoveList
  import opened GameState

  /**
   * From the initial state X takes the centre; a second click on the
   * centre is ignored, O is to move, and the list shows two entries.
   */
  method CentreThenRepeat() returns (board: seq<Cell>, status: Status, entries: nat, ignored: bool)
    ensures board == [Empty, Empty, Empty, Empty, X, Empty, Empty, Empty, Empty]
    ensures status == Next(O) && entries == 2 && ignored
  {
    var g := new Game();
    WinnerNone(EmptyBoard());
    g.HandleClick(4);
    var before, step := g.history, g.stepNumber;
    g.HandleClick(4);
    ignored := g.history == before && g.stepNumber == step;
    var view := g.Render();
    board, status, entries := view.board, view.status, |view.moves|;
  }

  /**
   * X takes square 0, the player jumps back to the start, and X takes
   * square 4 instead: the later snapshot is dropped, the history holds
   * two snapshots, and no step is selected any more.
   */
  method JumpBackThenClick() returns (board: seq<Cell>, entries: nat, selected: Option<nat>)
    ensures board == [Empty, Empty, Empty, Empty, X, Empty, Empty, Empty, Empty]
    ensures entries == 2 && selected == None
  {
    var g := new Game();
    WinnerNone(EmptyBoard());
    g.HandleClick(0);
    g.JumpToMove(0);
    g.HandleClick(4);
    entries, selected := |g.history|, g.selectedStepNumber;
    board := g.history[g.stepNumber].squares;
  }

  /**
   * A click on square `i` at step `step` passes the guard of `handleClick`
   * and turns `board` into `next`, the square marked for that step's player.
   */
  predicate Takes(board: seq<Cell>, step: nat, i: CellIndex, next: seq<Cell>)
    requires |board| == CellCount
  {
    Accepts(board, step, i) && next == board[i := MarkFor(step)]
  }

  /**
   * Clicks 0, 4, 1, 5, 2 are all taken and give X the top row: the status
   * names X, the row is highlighted, and a click on the empty square 3 is
   * refused.
   */
  lemma TopRowWin()
    ensures EmptyBoard() == [Empty, Empty, Empty, Empty, Empty, Empty, Empty, Empty, Empty]
    ensures Takes([Empty, Empty, Empty, Empty, Empty, Empty, Empty, Empty, Empty], 0, 0, [X, Empty, Empty, Empty, Empty, Empty, Empty, Empty, Empty])
    ensures Takes([X, Empty, Empty, Empty, Empty, Empty, Empty, Empty, Empty], 1, 4, [X, Empty, Empty, Empty, O, Empty, Empty, Empty, Empty])
    ensures Takes([X, Empty, Empty, Empty, O, Empty, Empty, Empty, Empty], 2, 1, [X, X, Empty, Empty, O, Empty, Empty, Empty, Empty])
    ensures Takes([X, X, Empty, Empty, O, Empty, Empty, Empty, Empty], 3, 5, [X, X, Empty, Empty, O, O, Empty, Empty, Empty])
    ensures Takes([X, X, Empty, Empty, O, O, Empty, Empty, Empty], 4, 2, [X, X, X, Empty, O, O, Empty, Empty, Empty])
    ensures Winner([X, X, X, Empty, O, O, Empty, Empty, Empty]) == Some(WinResult(X, Line(0, 1, 2)))
    ensures StatusOf(CalculateDraw(5, BorderSize), Winner([X, X, X, Empty, O, O, Empty, Empty, Empty]), false) == Won(X)
    ensures TraceOf(Winner([X, X, X, Empty, O, O, Empty, Empty, Empty])) == [0, 1, 2]
    ensures !Accepts([X, X, X, Empty, O, O, Empty, Empty, Empty], 5, 3)
  {
    var b := [X, X, X, Empty, O, O, Empty, Empty, Empty];
    assert IsFirstWin(b, 0);
    WinnerIsFirstWinningLine(b, 0);
  }

  /**
   * Clicks 0, 1, 2, 3, 4, 6, 7, 5, 8 are all taken, since none of the
   * first eight boards has a winner; the ninth mark completes X's diagonal
   * 0-4-8, yet the draw test comes first, so the status is "Draw" while the
   * diagonal is highlighted.
   */
  lemma LastClickWinShowsDraw()
    ensures EmptyBoard() == [Empty, Empty, Empty, Empty, Empty, Empty, Empty, Empty, Empty]
    ensures Takes([Empty, Empty, Empty, Empty, Empty, Empty, Empty, Empty, Empty], 0, 0, [X, Empty, Empty, Empty, Empty, Empty, Empty, Empty, Empty])
    ensures Takes([X, Empty, Empty, Empty, Empty, Empty, Empty, Empty, Empty], 1, 1, [X, O, Empty, Empty, Empty, Empty, Empty, Empty, Empty])
    ensures Takes([X, O, Empty, Empty, Empty, Empty, Empty, Empty, Empty], 2, 2, [X, O, X, Empty, Empty, Empty, Empty, Empty, Empty])
    ensures Takes([X, O, X, Empty, Empty, Empty, Empty, Empty, Empty], 3, 3, [X, O, X, O, Empty, Empty, Empty, Empty, Empty])
    ensures Takes([X, O, X, O, Empty, Empty, Empty, Empty, Empty], 4, 4, [X, O, X, O, X, Empty, Empty, Empty, Empty])
    ensures Takes([X, O, X, O, X, Empty, Empty, Empty, Empty], 5, 6, [X, O, X, O, X, Empty, O, Empty, Empty])
    ensures Takes([X, O, X, O, X, Empty, O, Empty, Empty], 6, 7, [X, O, X, O, X, Empty, O, X, Empty])
    ensures Takes([X, O, X, O, X, Empty, O, X, Empty], 7, 5, [X, O, X, O, X, O, O, X, Empty])
    ensures Takes([X, O, X, O, X, O, O, X, Empty], 8, 8, [X, O, X, O, X, O, O, X, X])
    ensures Winner([X, O, X, O, X, O, O, X, X]) == Some(WinResult(X, Line(0, 4, 8)))
    ensures StatusOf(CalculateDraw(9, BorderSize), Winner([X, O, X, O, X, O, O, X, X]), false) == Draw
    ensures TraceOf(Winner([X, O, X, O, X, O, O, X, X])) == [0, 4, 8]
  {
    var b := [X, O, X, O, X, O, O, X, X];
    assert IsFirstWin(b, 6);
    WinnerIsFirstWinningLine(b, 6);
  }
}
