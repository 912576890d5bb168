/**
 The bookkeeping both components do when a move is accepted, besides marking
 the square: the recorded location of the move and the per-square tags.
 */
module Moves {
  import opened GameUtils
  import Rules

  /** `[Math.floor(i/3), i%3]`: the row and column of square `i`. */
  function Location(i: int): (loc: (int, int))
    requires 0 <= i < 9
    ensures 0 <= loc.0 < 3 && 0 <= loc.1 < 3
    ensures 3 * loc.0 + loc.1 == i
  {
    (i / 3, i % 3)
  }

  /** The new tags: a copy of the previous ones in which the winning line
      becomes Win, or, without a winner, square `i` becomes Selected. No
      earlier tag is reset. */
  function Retag(tags: Tags, winner: Option<Line>, i: int): (r: Tags)
    requires 0 <= i < 9
    ensures winner.Some? ==>
      forall c :: 0 <= c < 9 ==> r[c] == (if OnLine(winner.value, c) then Win else tags[c])
    ensures winner.None? ==>
      forall c :: 0 <= c < 9 ==> r[c] == (if c == i then Selected else tags[c])
  {
    match winner
    case Some(l) => tags[l.a := Win][l.b := Win][l.c := Win]
    case None => tags[i := Selected]
  }

  predicate OnWinningLine(squares: Board, c: int) {
    var w := CalculateWinner(squares);
    w.Some? && OnLine(w.value, c)
  }

  /** What the tags of a board the game produced say: Unselected exactly on
      the empty squares, Win exactly on the winning line, so Selected on every
      other marked square (earlier moves included, since tags accumulate). */
  ghost predicate TagsAgree(squares: Board, tags: Tags) {
    forall c :: 0 <= c < 9 ==>
      && (tags[c] == Unselected <==> squares[c] == Empty)
      && (tags[c] == Win <==> OnWinningLine(squares, c))
  }

  /** The tags of a board determine each other: two tag sequences that agree
      with the same board are equal. */
  lemma TagsDetermined(squares: Board, t1: Tags, t2: Tags)
    requires TagsAgree(squares, t1) && TagsAgree(squares, t2)
    ensures t1 == t2
  {
    forall c | 0 <= c < 9 ensures t1[c] == t2[c] {
      assert t1[c] == Unselected <==> t2[c] == Unselected;
      assert t1[c] == Win <==> t2[c] == Win;
    }
  }

  lemma InitialTagsAgree()
    ensures TagsAgree(EmptyBoard, AllUnselected)
  {
  }

  /** Retagging after a move on a board without a winner keeps the tags in
      agreement with the board. */
  lemma RetagAgrees(before: Board, tags: Tags, i: int, m: Cell)
    requires TagsAgree(before, tags)
    requires CalculateWinner(before).None?
    requires 0 <= i < 9 && before[i] == Empty && m != Empty
    ensures TagsAgree(before[i := m], Retag(tags, CalculateWinner(before[i := m]), i))
  {
    var after := before[i := m];
    var w := CalculateWinner(after);
    var r := Retag(tags, w, i);
    Rules.WinGoesThroughMove(before, i, m);
    CalculateWinnerSpec(after);
    forall c | 0 <= c < 9
      ensures (r[c] == Unselected <==> after[c] == Empty)
      ensures (r[c] == Win <==> OnWinningLine(after, c))
    {
      assert !OnWinningLine(before, c);
      if c != i {
        assert after[c] == before[c];
      }
      if w.Some? && OnLine(w.value, c) {
        assert Completes(after, w.value);
        assert r[c] == Win && after[c] != Empty;
      } else {
        assert r[c] == (if c == i then Selected else tags[c]);
      }
    }
  }

  /** The recorded location names the square that the move marked. */
  predicate Locates(before: Board, after: Board, loc: (int, int)) {
    && 0 <= loc.0 < 3 && 0 <= loc.1 < 3
    && before[3 * loc.0 + loc.1] == Empty
    && after[3 * loc.0 + loc.1] != Empty
  }

  /** After a single move, only one location fits. */
  lemma LocationDetermined(before: Board, after: Board, m: Cell, l1: (int, int), l2: (int, int))
    requires Rules.OneMove(before, after, m)
    requires Locates(before, after, l1) && Locates(before, after, l2)
    ensures l1 == l2
  {
    var i :| Rules.IsMove(before, after, i, m);
    var j1 := 3 * l1.0 + l1.1;
    var j2 := 3 * l2.0 + l2.1;
    assert j1 == i;
    assert j2 == i;
  }
}
