/**
 * The evaluator of the game: the 3x3 board, the eight winning lines and
 * the two tests `calculateWinner` and `calculateDraw` of
 * tic-tac-toe/src/index.js.
 */
module Evaluator {
  import opened Wrappers

  /** A square; JavaScript's `null` is `Empty`, the strings "X" and "O" are the marks. */
  datatype Cell = Empty | X | O

  /** The board is BorderSize by BorderSize squares, `BORDER_SIZE ** 2` in all. */
  const BorderSize: nat := 3
  const CellCount: nat := BorderSize * BorderSize

  /** An index into the board, 0..8, read row by row. */
  type CellIndex = n: int | 0 <= n < CellCount

  /** One of the eight triples of `calculateWinner`; it is also the reported trace. */
  datatype Line = Line(a: CellIndex, b: CellIndex, c: CellIndex)

  /** `{team, trace}` of `calculateWinner`. */
  datatype WinResult = WinResult(team: Cell, trace: Line)

  /** Rows top to bottom, columns left to right, then the two diagonals. */
  const Lines: seq<Line> := [
    Line(0, 1, 2), Line(3, 4, 5), Line(6, 7, 8),
    Line(0, 3, 6), Line(1, 4, 7), Line(2, 5, 8),
    Line(0, 4, 8), Line(2, 4, 6)
  ]

  /** The trace as the list of indices the board highlights. */
  function TraceIndices(l: Line): seq<CellIndex> {
    [l.a, l.b, l.c]
  }

  /** The three squares of `l` hold the same mark, and it is not `Empty`. */
  predicate LineWins(squares: seq<Cell>, l: Line)
    requires |squares| == CellCount
  {
    squares[l.a] != Empty && squares[l.a] == squares[l.b] && squares[l.a] == squares[l.c]
  }

  /** The result the scan reports when it stops at line `i`. */
  function ResultAt(squares: seq<Cell>, i: nat): WinResult
    requires |squares| == CellCount && i < |Lines|
  {
    WinResult(squares[Lines[i].a], Lines[i])
  }

  /** The scan of `calculateWinner` from line `i` on. */
  function WinnerFrom(squares: seq<Cell>, i: nat): Option<WinResult>
    requires |squares| == CellCount && i <= |Lines|
    decreases |Lines| - i
  {
    if i == |Lines| then None
    else if LineWins(squares, Lines[i]) then Some(ResultAt(squares, i))
    else WinnerFrom(squares, i + 1)
  }

  /** What `calculateWinner(squares)` returns. */
  function Winner(squares: seq<Cell>): Option<WinResult>
    requires |squares| == CellCount
  {
    WinnerFrom(squares, 0)
  }

  /** Line `i` wins and no line before it in the fixed order does. */
  ghost predicate IsFirstWin(squares: seq<Cell>, i: nat)
    requires |squares| == CellCount
  {
    i < |Lines| && LineWins(squares, Lines[i]) &&
    forall j :: 0 <= j < i ==> !LineWins(squares, Lines[j])
  }

  /**
   * The scan from `i` reports the first winning line at or after `i`,
   * and nothing when none of them wins.
   */
  lemma {:induction false} WinnerFromFirst(squares: seq<Cell>, i: nat)
    requires |squares| == CellCount && i <= |Lines|
    ensures WinnerFrom(squares, i).None? <==>
              forall j :: i <= j < |Lines| ==> !LineWins(squares, Lines[j])
    ensures WinnerFrom(squares, i).Some? ==>
              exists j :: i <= j < |Lines| && LineWins(squares, Lines[j]) &&
                (forall k :: i <= k < j ==> !LineWins(squares, Lines[k])) &&
                WinnerFrom(squares, i) == Some(ResultAt(squares, j))
    decreases |Lines| - i
  {
    if i < |Lines| && !LineWins(squares, Lines[i]) {
      WinnerFromFirst(squares, i + 1);
      if WinnerFrom(squares, i).Some? {
        var j :| i + 1 <= j < |Lines| && LineWins(squares, Lines[j]) &&
                 (forall k :: i + 1 <= k < j ==> !LineWins(squares, Lines[k])) &&
                 WinnerFrom(squares, i + 1) == Some(ResultAt(squares, j));
        assert forall k :: i <= k < j ==> !LineWins(squares, Lines[k]);
      }
    }
  }

  /**
   * `calculateWinner` returns `{team, trace}` of the first line, in the
   * fixed order, whose three squares hold the same mark: `team` is that
   * mark and `trace` that line.
   */
  lemma WinnerIsFirstWinningLine(squares: seq<Cell>, i: nat)
    requires |squares| == CellCount
    requires IsFirstWin(squares, i)
    ensures Winner(squares) == Some(WinResult(squares[Lines[i].a], Lines[i]))
    ensures Winner(squares).value.team != Empty
  {
    WinnerFromFirst(squares, 0);
  }

  /** `calculateWinner` returns `null` exactly when no line is held by one mark. */
  lemma WinnerNone(squares: seq<Cell>)
    requires |squares| == CellCount
    ensures Winner(squares).None? <==> forall j :: 0 <= j < |Lines| ==> !LineWins(squares, Lines[j])
  {
    WinnerFromFirst(squares, 0);
  }

  /** Whatever `calculateWinner` returns, its trace wins and its team is that line's mark. */
  lemma WinnerSound(squares: seq<Cell>)
    requires |squares| == CellCount
    requires Winner(squares).Some?
    ensures Winner(squares).value.trace in Lines
    ensures LineWins(squares, Winner(squares).value.trace)
    ensures Winner(squares).value.team == squares[Winner(squares).value.trace.a]
    ensures Winner(squares).value.team != Empty
  {
    WinnerFromFirst(squares, 0);
  }

  /**
   * The `for` loop of `calculateWinner`: scan the lines in order and
   * return at the first one held by a single mark.
   */
  method CalculateWinner(squares: seq<Cell>) returns (r: Option<WinResult>)
    requires |squares| == CellCount
    ensures r == Winner(squares)
    ensures r.None? <==> forall j :: 0 <= j < |Lines| ==> !LineWins(squares, Lines[j])
  {
    WinnerNone(squares);
    var i := 0;
    while i < |Lines|
      invariant 0 <= i <= |Lines|
      invariant WinnerFrom(squares, i) == Winner(squares)
    {
      var line := Lines[i];
      if squares[line.a] != Empty && squares[line.a] == squares[line.b] && squares[line.a] == squares[line.c] {
        return Some(WinResult(squares[line.a], line));
      }
      i := i + 1;
    }
    return None;
  }

  /** `calculateDraw`: the game is drawn once the step count reaches borderSize squared. */
  function CalculateDraw(stepNumber: int, borderSize: int): bool {
    stepNumber == borderSize * borderSize
  }

  /** The number of marked squares. */
  function CountMarks(squares: seq<Cell>): nat {
    if |squares| == 0 then 0
    else (if squares[0] == Empty then 0 else 1) + CountMarks(squares[1..])
  }

  lemma {:induction false} CountMarksBound(squares: seq<Cell>)
    ensures CountMarks(squares) <= |squares|
    ensures CountMarks(squares) == |squares| <==> forall i :: 0 <= i < |squares| ==> squares[i] != Empty
  {
    if |squares| > 0 {
      var rest := squares[1..];
      CountMarksBound(rest);
      assert forall i :: 0 < i < |squares| ==> squares[i] == rest[i - 1];
    }
  }

  /** Marking an empty square adds exactly one mark. */
  lemma {:induction false} CountMarksPlace(squares: seq<Cell>, i: nat, mark: Cell)
    requires i < |squares| && squares[i] == Empty && mark != Empty
    ensures CountMarks(squares[i := mark]) == CountMarks(squares) + 1
  {
    if i > 0 {
      assert squares[i := mark][1..] == squares[1..][i - 1 := mark];
      CountMarksPlace(squares[1..], i - 1, mark);
    } else {
      assert squares[i := mark][1..] == squares[1..];
    }
  }

  /** The empty board. */
  function EmptyBoard(): (b: seq<Cell>)
    ensures |b| == CellCount && CountMarks(b) == 0
  {
    var b := [Empty, Empty, Empty, Empty, Empty, Empty, Empty, Empty, Empty];
    CountMarksEmpty(b);
    b
  }

  lemma {:induction false} CountMarksEmpty(squares: seq<Cell>)
    requires forall i :: 0 <= i < |squares| ==> squares[i] == Empty
    ensures CountMarks(squares) == 0
  {
    if |squares| > 0 {
      assert forall i :: 0 <= i < |squares| - 1 ==> squares[1..][i] == squares[i + 1];
      CountMarksEmpty(squares[1..]);
    }
  }

  /**
   * On the 3x3 board `calculateDraw` is true for step 9 and for no other
   * step; on a board with as many marks as steps this is exactly the
   * board being full, although the test never looks at the board.
   */
  lemma DrawIffFull(squares: seq<Cell>, stepNumber: nat)
    requires |squares| == CellCount && CountMarks(squares) == stepNumber
    ensures CalculateDraw(stepNumber, BorderSize) <==> stepNumber == 9
    ensures CalculateDraw(stepNumber, BorderSize) <==> forall i :: 0 <= i < |squares| ==> squares[i] != Empty
  {
    CountMarksBound(squares);
  }
}
