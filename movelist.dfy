/**
 * The move list `Game.render` builds from the history: one entry per
 * snapshot, in history order when ascending; when descending, the "game
 * start" entry stays first and the remaining entries are reversed.
 */
module MoveList {
  import opened Wrappers
  import opened Play

  /** What one `<li>` of the list shows: its move number, the move's coordinates, and the highlight. */
  datatype MoveEntry = MoveEntry(move: nat, coords: Coords, isSelected: bool)

  /** `history.map((step, move) => ...)`: entry `move` is highlighted when it is the selected step. */
  function Entries(history: seq<Snapshot>, selected: Option<nat>): seq<MoveEntry> {
    seq(|history|, move requires 0 <= move < |history| =>
      MoveEntry(move, history[move].coords, selected == Some(move)))
  }

  /** JavaScript's `Array.prototype.reverse`, on values. */
  function Reversed<T>(s: seq<T>): (r: seq<T>)
    ensures |r| == |s|
  {
    if |s| == 0 then [] else [s[|s| - 1]] + Reversed(s[..|s| - 1])
  }

  /** The list as rendered: ascending as built, or `[].concat(moves[0], moves.slice(1).reverse())`. */
  function Ordered<T>(moves: seq<T>, isSortOrderAsc: bool): seq<T>
    requires |moves| > 0
  {
    if isSortOrderAsc then moves else [moves[0]] + Reversed(moves[1..])
  }

  lemma {:induction false} ReversedAt<T>(s: seq<T>, k: nat)
    requires k < |s|
    ensures |Reversed(s)| == |s|
    ensures Reversed(s)[k] == s[|s| - 1 - k]
  {
    if k > 0 {
      ReversedAt(s[..|s| - 1], k - 1);
    } else if |s| > 1 {
      ReversedAt(s[..|s| - 1], 0);
    }
  }

  lemma {:induction false} ReversedMultiset<T>(s: seq<T>)
    ensures multiset(Reversed(s)) == multiset(s)
  {
    if |s| > 0 {
      ReversedMultiset(s[..|s| - 1]);
      assert s == s[..|s| - 1] + [s[|s| - 1]];
    }
  }

  lemma ReversedTwice<T>(s: seq<T>)
    ensures Reversed(Reversed(s)) == s
  {
    if |s| > 0 {
      ReversedAt(s, 0);
      forall k | 0 <= k < |s| ensures Reversed(Reversed(s))[k] == s[k] {
        ReversedAt(s, |s| - 1 - k);
        ReversedAt(Reversed(s), k);
      }
    }
  }

  /**
   * The rendered list keeps every entry exactly once with "game start"
   * first; descending, position `k >= 1` holds entry `|moves| - k`.
   */
  lemma OrderedShape<T>(moves: seq<T>, isSortOrderAsc: bool)
    requires |moves| > 0
    ensures |Ordered(moves, isSortOrderAsc)| == |moves|
    ensures Ordered(moves, isSortOrderAsc)[0] == moves[0]
    ensures multiset(Ordered(moves, isSortOrderAsc)) == multiset(moves)
    ensures isSortOrderAsc ==> Ordered(moves, isSortOrderAsc) == moves
    ensures !isSortOrderAsc ==>
              forall k :: 1 <= k < |moves| ==> Ordered(moves, isSortOrderAsc)[k] == moves[|moves| - k]
  {
    var tail := moves[1..];
    ReversedMultiset(tail);
    assert moves == [moves[0]] + tail;
    if |tail| > 0 {
      ReversedAt(tail, 0);
    } else {
      assert Reversed(tail) == [];
    }
    forall k | 1 <= k < |moves| ensures Ordered(moves, false)[k] == moves[|moves| - k] {
      ReversedAt(tail, k - 1);
    }
  }

  /** Descending order applied to a descending list gives back the ascending list. */
  lemma OrderedDescendingTwice<T>(moves: seq<T>)
    requires |moves| > 0
    ensures Ordered(Ordered(moves, false), false) == moves
  {
    var d := Ordered(moves, false);
    OrderedShape(moves, false);
    assert d[1..] == Reversed(moves[1..]);
    ReversedTwice(moves[1..]);
    assert moves == [moves[0]] + moves[1..];
  }

  /** Descending, the list shows move 0 and then the moves from the last one down to 1. */
  lemma DescendingMoveNumbers(history: seq<Snapshot>, selected: Option<nat>, k: nat)
    requires 0 < |history| && k < |history|
    ensures |Ordered(Entries(history, selected), false)| == |history|
    ensures Ordered(Entries(history, selected), false)[k].move == if k == 0 then 0 else |history| - k
  {
    OrderedShape(Entries(history, selected), false);
  }

  /** In either order, an entry is highlighted exactly when its move number is the selected step. */
  lemma OrderedEntriesSelected(history: seq<Snapshot>, selected: Option<nat>, isSortOrderAsc: bool)
    requires |history| > 0
    ensures |Ordered(Entries(history, selected), isSortOrderAsc)| == |history|
    ensures forall k :: 0 <= k < |history| ==>
              (Ordered(Entries(history, selected), isSortOrderAsc)[k].isSelected <==>
               selected == Some(Ordered(Entries(history, selected), isSortOrderAsc)[k].move))
  {
    var moves := Entries(history, selected);
    var shown := Ordered(moves, isSortOrderAsc);
    OrderedShape(moves, isSortOrderAsc);
    forall k | 0 <= k < |history|
      ensures shown[k].isSelected <==> selected == Some(shown[k].move)
    {
      assert shown[k] in multiset(shown);
      assert shown[k] in moves;
    }
  }
}
