/**
 The abstract game both components implement: a history of boards and a
 cursor into it. A move is accepted only on an unfinished board and an empty
 square; it truncates the history after the cursor and appends the new board.
 The outcome of a board is a function of its squares alone: a completed line,
 otherwise a full board, otherwise a game still in progress.
 */
module Rules {
  import opened GameUtils

  datatype Outcome = InProgress | Won(winner: Cell) | Draw

  predicate Full(b: Board) {
    forall k :: 0 <= k < 9 ==> b[k] != Empty
  }

  /** The outcome of a board: the mark on the first completed line, a draw on
      a full board without one, otherwise still in progress. */
  function Classify(b: Board): (r: Outcome)
    ensures r.Won? ==> r.winner != Empty && exists l :: l in Lines && Completes(b, l) && b[l.a] == r.winner
    ensures r == InProgress ==> !Full(b) && forall l :: l in Lines ==> !Completes(b, l)
  {
    CalculateWinnerSpec(b);
    match CalculateWinner(b)
    case Some(l) => Won(b[l.a])
    case None => if Full(b) then Draw else InProgress
  }

  /** A win beats a tie: the outcome is a win exactly when the scan finds a
      line, with the mark of that line's first square, and a draw exactly on
      a full board without a complete line. */
  lemma ClassifySpec(b: Board)
    ensures Classify(b).Won? <==> CalculateWinner(b).Some?
    ensures Classify(b).Won? ==> Classify(b).winner == b[CalculateWinner(b).value.a]
    ensures Classify(b) == Draw <==> Full(b) && forall l :: l in Lines ==> !Completes(b, l)
  {
    CalculateWinnerSpec(b);
  }

  /** The player who makes move number `k + 1`: X after an even number of moves. */
  function NextMark(k: int): Cell {
    MarkFor(k % 2 == 0)
  }

  /** Consecutive moves alternate between the players. */
  lemma ParityAlternates(k: int)
    ensures (k + 1) % 2 == 0 <==> k % 2 != 0
  {
  }

  /** Number of marked squares. */
  function Marks(s: seq<Cell>): (n: nat)
    ensures n <= |s|
  {
    if |s| == 0 then 0 else (if s[0] == Empty then 0 else 1) + Marks(s[1..])
  }

  /** `after` is `before` with the empty square `i` given mark `m`. */
  predicate IsMove(before: Board, after: Board, i: int, m: Cell) {
    0 <= i < 9 && before[i] == Empty && after == before[i := m]
  }

  ghost predicate OneMove(before: Board, after: Board, m: Cell) {
    exists i :: IsMove(before, after, i, m)
  }

  /** A history the game can produce: it starts from the empty board, every
      step marks one empty square for the player whose turn it is, and only
      the last board may be finished. */
  ghost predicate ValidHistory(boards: seq<Board>) {
    && |boards| >= 1
    && boards[0] == EmptyBoard
    && (forall k :: 0 < k < |boards| ==> OneMove(boards[k - 1], boards[k], NextMark(k - 1)))
    && (forall k :: 0 <= k < |boards| - 1 ==> Classify(boards[k]) == InProgress)
  }

  datatype Machine = Machine(boards: seq<Board>, cursor: int)

  predicate InRange(m: Machine) {
    0 <= m.cursor < |m.boards|
  }

  ghost predicate Valid(m: Machine) {
    ValidHistory(m.boards) && InRange(m)
  }

  const Start: Machine := Machine([EmptyBoard], 0)

  /** A move on square `i` is accepted from the board under the cursor. */
  predicate Playable(m: Machine, i: int)
    requires InRange(m) && 0 <= i < 9
  {
    Classify(m.boards[m.cursor]) == InProgress && m.boards[m.cursor][i] == Empty
  }

  function Move(m: Machine, i: int): (r: Machine)
    requires InRange(m) && 0 <= i < 9
    ensures InRange(r)
    ensures !Playable(m, i) ==> r == m
    ensures Playable(m, i) ==>
      && |r.boards| == m.cursor + 2
      && r.boards[..m.cursor + 1] == m.boards[..m.cursor + 1]
      && r.cursor == m.cursor + 1
      && IsMove(m.boards[m.cursor], r.boards[r.cursor], i, NextMark(m.cursor))
  {
    if !Playable(m, i) then m
    else
      var b := m.boards[m.cursor];
      Machine(m.boards[..m.cursor + 1] + [b[i := NextMark(m.cursor)]], m.cursor + 1)
  }

  function Jump(m: Machine, k: int): (r: Machine)
    requires 0 <= k < |m.boards|
    ensures InRange(r) && r.boards == m.boards && r.cursor == k
  {
    Machine(m.boards, k)
  }

  /** A user intent: click square `cell`, or press the history button `step`. */
  datatype Action = Select(cell: int) | JumpTo(step: int)

  /** The view only produces squares 0..8 and steps inside the history; an
      action outside those ranges is dropped from a trace. */
  function Apply(m: Machine, a: Action): (r: Machine)
    requires InRange(m)
    ensures InRange(r)
  {
    match a
    case Select(i) => if 0 <= i < 9 then Move(m, i) else m
    case JumpTo(k) => if 0 <= k < |m.boards| then Jump(m, k) else m
  }

  /** The machine after a sequence of actions from the start. */
  function Run(actions: seq<Action>): (r: Machine)
    ensures InRange(r)
  {
    if |actions| == 0 then Start
    else Apply(Run(actions[..|actions| - 1]), actions[|actions| - 1])
  }

  // ---------------------------------------------------------------------
  // Counting marks

  lemma {:induction false} MarksAfterMove(s: seq<Cell>, i: int, m: Cell)
    requires 0 <= i < |s| && s[i] == Empty && m != Empty
    ensures Marks(s[i := m]) == Marks(s) + 1
  {
    if i == 0 {
      assert s[i := m][1..] == s[1..];
    } else {
      assert s[i := m][1..] == s[1..][i - 1 := m];
      MarksAfterMove(s[1..], i - 1, m);
    }
  }

  lemma {:induction false} AllMarkedIffMarksIsLength(s: seq<Cell>)
    ensures Marks(s) == |s| <==> forall k :: 0 <= k < |s| ==> s[k] != Empty
  {
    if |s| > 0 {
      AllMarkedIffMarksIsLength(s[1..]);
      assert forall k :: 1 <= k < |s| ==> s[k] == s[1..][k - 1];
    }
  }

  lemma {:induction false} NoMarksIffAllEmpty(s: seq<Cell>)
    ensures Marks(s) == 0 <==> forall k :: 0 <= k < |s| ==> s[k] == Empty
  {
    if |s| > 0 {
      NoMarksIffAllEmpty(s[1..]);
      assert forall k :: 1 <= k < |s| ==> s[k] == s[1..][k - 1];
    }
  }

  lemma FullIffNineMarks(b: Board)
    ensures Full(b) <==> Marks(b) == 9
  {
    AllMarkedIffMarksIsLength(b);
  }

  // ---------------------------------------------------------------------
  // Facts about valid histories

  /** Board number `k` of a valid history holds exactly `k` marks. */
  lemma {:induction false} MarksCountSteps(boards: seq<Board>, k: int)
    requires ValidHistory(boards) && 0 <= k < |boards|
    ensures Marks(boards[k]) == k
  {
    if k == 0 {
      NoMarksIffAllEmpty(EmptyBoard);
    } else {
      MarksCountSteps(boards, k - 1);
      assert OneMove(boards[k - 1], boards[k], NextMark(k - 1));
      var i :| IsMove(boards[k - 1], boards[k], i, NextMark(k - 1));
      MarksAfterMove(boards[k - 1], i, NextMark(k - 1));
    }
  }

  /** A valid history has at most ten boards. */
  lemma HistoryAtMostTen(boards: seq<Board>)
    requires ValidHistory(boards)
    ensures |boards| <= 10
  {
    MarksCountSteps(boards, |boards| - 1);
  }

  /** The step-count tie test: in a valid history, board `k` is full exactly
      when `k` is 9. */
  lemma FullExactlyAtStepNine(boards: seq<Board>, k: int)
    requires ValidHistory(boards) && 0 <= k < |boards|
    ensures Full(boards[k]) <==> k == 9
  {
    MarksCountSteps(boards, k);
    FullIffNineMarks(boards[k]);
  }

  /** A line completed by a move on a board without one runs through the
      square just marked, so the winner is the player who moved. */
  lemma WinGoesThroughMove(before: Board, i: int, m: Cell)
    requires 0 <= i < 9 && before[i] == Empty && m != Empty
    requires CalculateWinner(before).None?
    ensures CalculateWinner(before[i := m]).Some? ==>
      var l := CalculateWinner(before[i := m]).value;
      OnLine(l, i) && before[i := m][l.a] == m
  {
    var after := before[i := m];
    var w := CalculateWinner(after);
    CalculateWinnerSpec(before);
    CalculateWinnerSpec(after);
    if w.Some? {
      var l := w.value;
      assert !OnLine(l, i) ==> Completes(before, l);
      assert !Completes(before, l);
    }
  }

  /** Truncating a valid history after an unfinished board and appending a
      legal move for the player to move gives a valid history. */
  lemma ExtendValid(boards: seq<Board>, c: int, next: Board, i: int)
    requires ValidHistory(boards) && 0 <= c < |boards|
    requires Classify(boards[c]) == InProgress
    requires IsMove(boards[c], next, i, NextMark(c))
    ensures ValidHistory(boards[..c + 1] + [next])
  {
    var nb := boards[..c + 1] + [next];
    assert forall k :: 0 <= k <= c ==> nb[k] == boards[k];
    ExtendSteps(boards, c, next, i, nb);
    ExtendUnfinished(boards, c, nb);
  }

  lemma ExtendSteps(boards: seq<Board>, c: int, next: Board, i: int, nb: seq<Board>)
    requires ValidHistory(boards) && 0 <= c < |boards|
    requires IsMove(boards[c], next, i, NextMark(c))
    requires |nb| == c + 2 && nb[c + 1] == next
    requires forall k :: 0 <= k <= c ==> nb[k] == boards[k]
    ensures forall k :: 0 < k < |nb| ==> OneMove(nb[k - 1], nb[k], NextMark(k - 1))
  {
    forall k | 0 < k < |nb|
      ensures OneMove(nb[k - 1], nb[k], NextMark(k - 1))
    {
      if k <= c {
        assert OneMove(boards[k - 1], boards[k], NextMark(k - 1));
      } else {
        assert IsMove(nb[k - 1], nb[k], i, NextMark(k - 1));
      }
    }
  }

  lemma ExtendUnfinished(boards: seq<Board>, c: int, nb: seq<Board>)
    requires ValidHistory(boards) && 0 <= c < |boards|
    requires Classify(boards[c]) == InProgress
    requires |nb| == c + 2
    requires forall k :: 0 <= k <= c ==> nb[k] == boards[k]
    ensures forall k :: 0 <= k < |nb| - 1 ==> Classify(nb[k]) == InProgress
  {
  }

  lemma MovePreservesValid(m: Machine, i: int)
    requires Valid(m) && 0 <= i < 9
    ensures Valid(Move(m, i))
  {
    if Playable(m, i) {
      var c := m.cursor;
      var next := m.boards[c][i := NextMark(c)];
      assert Move(m, i) == Machine(m.boards[..c + 1] + [next], c + 1);
      ExtendValid(m.boards, c, next, i);
    }
  }

  /** Every machine reachable from the start holds a valid history. */
  lemma {:induction false} RunValid(actions: seq<Action>)
    ensures Valid(Run(actions))
  {
    if |actions| == 0 {
      assert Start.boards[0] == EmptyBoard;
    } else {
      var prev := Run(actions[..|actions| - 1]);
      RunValid(actions[..|actions| - 1]);
      match actions[|actions| - 1]
      case Select(i) =>
        if 0 <= i < 9 {
          MovePreservesValid(prev, i);
        }
      case JumpTo(k) =>
    }
  }

  /** Once a board is finished, no move changes the machine. */
  lemma FinishedBoardIsFinal(m: Machine, i: int)
    requires InRange(m) && 0 <= i < 9
    requires Classify(m.boards[m.cursor]) != InProgress
    ensures Move(m, i) == m
  {
  }
}
