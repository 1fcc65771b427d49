/**
 * The snapshots a game keeps in its history, and what it means for a
 * history to have been produced by clicks: each snapshot after the first
 * marks one empty square of the one before it, alternating X and O, on a
 * board that was neither won nor drawn.
 */
module Play {
  import opened Evaluator

  /** `{col, row}` of the move that produced a snapshot; the start snapshot has `{-1, -1}`. */
  datatype Coords = Coords(col: int, row: int)

  /** `{squares, coords}` of one history entry. */
  datatype Snapshot = Snapshot(squares: seq<Cell>, coords: Coords)

  /** The single entry of the history a game starts with: nine empty squares. */
  function Start(): (s: Snapshot)
    ensures |s.squares| == CellCount && CountMarks(s.squares) == 0
    ensures forall i :: 0 <= i < CellCount ==> s.squares[i] == Empty
  {
    Snapshot(EmptyBoard(), Coords(-1, -1))
  }

  /** The coordinates `handleClick` records for a click on square `i`. */
  function CoordsOf(i: CellIndex): (c: Coords)
    ensures 0 <= c.col < BorderSize && 0 <= c.row < BorderSize
    ensures c.row * BorderSize + c.col == i
  {
    Coords(i % BorderSize, i / BorderSize)
  }

  /** The mark placed by the move made from step `step`: X moves on even steps. */
  function MarkFor(step: nat): Cell {
    if step % 2 == 0 then X else O
  }

  /** The square a recorded move marked. */
  function MovedSquare(c: Coords): int {
    c.row * BorderSize + c.col
  }

  /** `next` is what a click accepted at step `step` makes of `prev`. */
  ghost predicate Follows(prev: Snapshot, next: Snapshot, step: nat) {
    |prev.squares| == CellCount &&
    0 <= next.coords.col < BorderSize && 0 <= next.coords.row < BorderSize &&
    Winner(prev.squares).None? && !CalculateDraw(step, BorderSize) &&
    prev.squares[MovedSquare(next.coords)] == Empty &&
    next.squares == prev.squares[MovedSquare(next.coords) := MarkFor(step)]
  }

  /** A history that the game's clicks can have produced. */
  ghost predicate Played(h: seq<Snapshot>) {
    |h| > 0 && h[0] == Start() &&
    (forall k :: 0 <= k < |h| ==> |h[k].squares| == CellCount) &&
    forall k :: 0 < k < |h| ==> Follows(h[k - 1], h[k], k - 1)
  }

  /** The snapshot a click on square `i` makes when it writes `mark` there. */
  function Place(s: Snapshot, i: CellIndex, mark: Cell): Snapshot
    requires |s.squares| == CellCount
  {
    Snapshot(s.squares[i := mark], CoordsOf(i))
  }

  /** Snapshot `k` of a played history holds a full board with exactly `k` marks. */
  lemma {:induction false} PlayedCounts(h: seq<Snapshot>, k: nat)
    requires Played(h) && k < |h|
    ensures |h[k].squares| == CellCount
    ensures CountMarks(h[k].squares) == k
  {
    if k > 0 {
      PlayedCounts(h, k - 1);
      assert Follows(h[k - 1], h[k], k - 1);
      CountMarksPlace(h[k - 1].squares, MovedSquare(h[k].coords), MarkFor(k - 1));
    }
  }

  /** A played history never grows past ten snapshots: the game stops at the full board. */
  lemma PlayedLength(h: seq<Snapshot>)
    requires Played(h)
    ensures |h| <= CellCount + 1
  {
    PlayedCounts(h, |h| - 1);
    CountMarksBound(h[|h| - 1].squares);
  }

  /**
   * The click handler's move keeps a history played: cutting it after
   * step `k` and appending the snapshot of an accepted click.
   */
  lemma ClickKeepsPlayed(h: seq<Snapshot>, k: nat, i: CellIndex)
    requires Played(h) && k < |h|
    requires |h[k].squares| == CellCount
    requires Winner(h[k].squares).None? && !CalculateDraw(k, BorderSize) && h[k].squares[i] == Empty
    ensures Played(h[..k + 1] + [Place(h[k], i, MarkFor(k))])
  {
    var h' := h[..k + 1] + [Place(h[k], i, MarkFor(k))];
    forall j | 0 < j < |h'| ensures Follows(h'[j - 1], h'[j], j - 1) {
      if j <= k {
        assert h'[j - 1] == h[j - 1] && h'[j] == h[j];
      }
    }
  }

  /**
   * In a played history a board can only be won by the move that made
   * it: the winner of snapshot `k` is the player of the move from step
   * `k - 1`, and the start board has no winner.
   */
  lemma WinnerIsLastMover(h: seq<Snapshot>, k: nat)
    requires Played(h) && k < |h|
    ensures Winner(h[k].squares).Some? ==> k > 0 && Winner(h[k].squares).value.team == MarkFor(k - 1)
  {
    var squares := h[k].squares;
    if k == 0 {
      WinnerNone(squares);
    } else if Winner(squares).Some? {
      var prev := h[k - 1].squares;
      var i := MovedSquare(h[k].coords);
      var line := Winner(squares).value.trace;
      assert Follows(h[k - 1], h[k], k - 1);
      WinnerSound(squares);
      WinnerNone(prev);
      assert !LineWins(prev, line);
      if i != line.a && i != line.b && i != line.c {
        assert false;
      }
    }
  }
}
