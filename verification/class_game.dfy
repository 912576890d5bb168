/**
 The class component `Game` of src/index.js: the history, the step number,
 a component-level `xIsNext` and `currentGameStatus`. Here a status is the
 string '' (still playing), 'X' or 'O' (that player won) or 'T' (tie), and
 each entry records the mark just played in `playerTurn`.
 */
module ClassGame {
  import opened GameUtils
  import opened Moves
  import Rules

  datatype Entry = Entry(
    squares: Board,
    squareSelected: (int, int),
    playerTurn: string,
    squareType: Tags,
    gameStatus: string)

  datatype State = State(
    history: seq<Entry>,
    stepNumber: int,
    xIsNext: bool,
    currentGameStatus: string)

  const InitialEntry: Entry := Entry(EmptyBoard, (-1, -1), "X", AllUnselected, "")

  /** The constructor's state (the display flag `ascendingOrder` aside). */
  const Initial: State := State([InitialEntry], 0, true, "")

  predicate Ready(s: State) {
    0 <= s.stepNumber < |s.history|
  }

  /** The text the component stores for a mark. */
  function MarkText(m: Cell): (t: string)
    requires m != Empty
    ensures |t| == 1 && (t[0] == 'X' <==> m == X)
  {
    if m == X then "X" else "O"
  }

  /** `getNextPlayer`: the mark of the component-level `xIsNext`. */
  function GetNextPlayer(s: State): (m: Cell)
    ensures m != Empty
    ensures m == X <==> s.xIsNext
  {
    MarkFor(s.xIsNext)
  }

  /** The guard of `handleClick`: the current status is '' and square `i` is empty. */
  predicate Accepts(s: State, i: int)
    requires Ready(s) && 0 <= i < 9
  {
    var current := s.history[s.stepNumber];
    current.gameStatus == "" && current.squares[i] == Empty
  }

  function HandleClick(s: State, i: int): (r: State)
    requires Ready(s) && 0 <= i < 9
    ensures Ready(r)
    ensures !Accepts(s, i) ==> r == s
    ensures Accepts(s, i) ==>
      && |r.history| == s.stepNumber + 2
      && r.history[..s.stepNumber + 1] == s.history[..s.stepNumber + 1]
      && r.stepNumber == |s.history[..s.stepNumber + 1]|
      && r.xIsNext == !s.xIsNext
    ensures Accepts(s, i) ==>
      var current := s.history[s.stepNumber];
      var e := r.history[r.stepNumber];
      && (forall c :: 0 <= c < 9 && c != i ==> e.squares[c] == current.squares[c])
      && e.squares[i] == GetNextPlayer(s)
      && e.playerTurn == MarkText(e.squares[i])
      && e.squareSelected == Location(i)
      && e.squareType == Retag(current.squareType, CalculateWinner(e.squares), i)
    ensures Accepts(s, i) ==>
      var e := r.history[r.stepNumber];
      && r.currentGameStatus == e.gameStatus
      && (CalculateWinner(e.squares).Some? ==> e.gameStatus == MarkText(GetNextPlayer(s)))
      && (CalculateWinner(e.squares).None? ==>
            e.gameStatus == (if s.stepNumber + 1 == 9 then "T" else ""))
  {
    var history := s.history[..s.stepNumber + 1];
    var current := history[|history| - 1];
    if current.gameStatus != "" || current.squares[i] != Empty then s
    else
      var squares := current.squares[i := GetNextPlayer(s)];
      var winner := CalculateWinner(squares);
      var gameStatus :=
        if winner.Some? then MarkText(squares[i])
        else if |history| == 9 then "T"
        else "";
      var squareType := Retag(current.squareType, winner, i);
      State(history + [Entry(squares, Location(i), MarkText(squares[i]), squareType, gameStatus)],
        |history|, !s.xIsNext, gameStatus)
  }

  /** `jumpTo`: the step number moves, `xIsNext` is reset from its parity and
      the displayed status is read from the entry. */
  function JumpTo(s: State, step: int): (r: State)
    requires 0 <= step < |s.history|
    ensures Ready(r) && r.history == s.history && r.stepNumber == step
    ensures r.xIsNext <==> step % 2 == 0
    ensures r.currentGameStatus == s.history[step].gameStatus
  {
    s.(stepNumber := step, xIsNext := step % 2 == 0, currentGameStatus := s.history[step].gameStatus)
  }

  /** The duplicate `calculateWinner` of index.js, as its `for` loop. Its
      local table `lines` lists the same eight lines in the same order as
      LINES, so the loop runs over Lines; it answers as the scan of
      GameUtils does. */
  method CalculateWinnerLoop(squares: Board) returns (r: Option<Line>)
    ensures r == GameUtils.CalculateWinner(squares)
    ensures r.Some? ==> r.value in Lines && Completes(squares, r.value)
    ensures r.None? <==> forall l :: l in Lines ==> !Completes(squares, l)
  {
    var lines := Lines;
    var i := 0;
    while i < |lines|
      invariant 0 <= i <= |lines|
      invariant ScanFrom(squares, i) == ScanFrom(squares, 0)
    {
      var l := lines[i];
      if squares[l.a] != Empty && squares[l.a] == squares[l.b] && squares[l.a] == squares[l.c] {
        return Some(l);
      }
      i := i + 1;
    }
    return None;
  }

  function Apply(s: State, a: Rules.Action): (r: State)
    requires Ready(s)
    ensures Ready(r)
  {
    match a
    case Select(i) => if 0 <= i < 9 then HandleClick(s, i) else s
    case JumpTo(k) => if 0 <= k < |s.history| then JumpTo(s, k) else s
  }

  /** The component after a sequence of user actions from its initial state. */
  function Run(actions: seq<Rules.Action>): (r: State)
    ensures Ready(r)
  {
    if |actions| == 0 then Initial
    else Apply(Run(actions[..|actions| - 1]), actions[|actions| - 1])
  }

  // ---------------------------------------------------------------------
  // Refinement of the abstract game

  function Boards(h: seq<Entry>): (bs: seq<Board>)
    ensures |bs| == |h| && forall k :: 0 <= k < |h| ==> bs[k] == h[k].squares
  {
    seq(|h|, k requires 0 <= k < |h| => h[k].squares)
  }

  function Abs(s: State): Rules.Machine {
    Rules.Machine(Boards(s.history), s.stepNumber)
  }

  function StatusText(o: Rules.Outcome): string {
    match o
    case InProgress => ""
    case Won(p) => if p == X then "X" else "O"
    case Draw => "T"
  }

  /** What an entry at position `k` of a produced history says about itself. */
  ghost predicate EntryShape(e: Entry, k: int) {
    && e.gameStatus == StatusText(Rules.Classify(e.squares))
    && TagsAgree(e.squares, e.squareType)
  }

  /** Entry `k` of a produced history: its shape, and either the initial entry
      or the mark of the player whose turn it was with the location it marked. */
  ghost predicate EntryOk(h: seq<Entry>, k: int)
    requires 0 <= k < |h|
  {
    && EntryShape(h[k], k)
    && (k == 0 ==> h[k] == InitialEntry)
    && (k > 0 ==> h[k].playerTurn == MarkText(Rules.NextMark(k - 1)))
    && (k > 0 ==> Locates(h[k - 1].squares, h[k].squares, h[k].squareSelected))
  }

  /** The invariant of reachable states: besides the entries, `xIsNext`
      follows the parity of the step number and the displayed status is the
      status of the current entry. */
  ghost predicate Inv(s: State) {
    && Ready(s)
    && s.xIsNext == (s.stepNumber % 2 == 0)
    && s.currentGameStatus == s.history[s.stepNumber].gameStatus
    && Rules.ValidHistory(Boards(s.history))
    && forall k :: 0 <= k < |s.history| ==> EntryOk(s.history, k)
  }

  lemma InitialRefines()
    ensures Inv(Initial) && Abs(Initial) == Rules.Start
  {
    InitialTagsAgree();
    assert Boards(Initial.history) == [EmptyBoard];
  }

  /** Under the invariant the mark `getNextPlayer` returns is X exactly after
      an even number of moves. */
  lemma NextPlayerFollowsParity(s: State)
    requires Inv(s)
    ensures GetNextPlayer(s) == Rules.NextMark(s.stepNumber)
    ensures GetNextPlayer(s) == X <==> s.stepNumber % 2 == 0
  {
  }

  lemma BoardsOfPush(h: seq<Entry>, n: int, e: Entry)
    requires 0 <= n <= |h|
    ensures Boards(h[..n] + [e]) == Boards(h)[..n] + [e.squares]
  {
  }

  lemma AcceptsIffPlayable(s: State, i: int)
    requires Inv(s) && 0 <= i < 9
    ensures Accepts(s, i) <==> Rules.Playable(Abs(s), i)
  {
    assert EntryOk(s.history, s.stepNumber);
  }

  /** `handleClick` performs the abstract move on the boards. */
  lemma ClickRefines(s: State, i: int)
    requires Inv(s) && 0 <= i < 9
    ensures Abs(HandleClick(s, i)) == Rules.Move(Abs(s), i)
  {
    AcceptsIffPlayable(s, i);
    PushRefines(s, i);
  }

  lemma PushRefines(s: State, i: int)
    requires Ready(s) && 0 <= i < 9
    requires Accepts(s, i) <==> Rules.Playable(Abs(s), i)
    requires s.xIsNext == (s.stepNumber % 2 == 0)
    ensures Abs(HandleClick(s, i)) == Rules.Move(Abs(s), i)
  {
    if Accepts(s, i) {
      var c := s.stepNumber;
      var current := s.history[c];
      var squares := current.squares[i := GetNextPlayer(s)];
      var r := HandleClick(s, i);
      var e := r.history[c + 1];
      assert r.history == s.history[..c + 1] + [e];
      assert e.squares == squares;
      BoardsOfPush(s.history, c + 1, e);
      assert Boards(r.history) == Boards(s.history)[..c + 1] + [squares];
    }
  }

  lemma ValidAfterClick(s: State, i: int)
    requires Inv(s) && 0 <= i < 9
    ensures Rules.ValidHistory(Boards(HandleClick(s, i).history))
  {
    ClickRefines(s, i);
    Rules.MovePreservesValid(Abs(s), i);
  }

  /** The entry pushed by an accepted click, from the facts about the entry it
      follows. */
  lemma PushedEntryShape(current: Entry, c: int, i: int, m: Cell, e: Entry)
    requires 0 <= c && 0 <= i < 9 && m != Empty
    requires EntryShape(current, c) && current.gameStatus == "" && current.squares[i] == Empty
    requires e.squares == current.squares[i := m]
    requires e.squareSelected == Location(i)
    requires e.squareType == Retag(current.squareType, CalculateWinner(e.squares), i)
    requires CalculateWinner(e.squares).Some? ==> e.gameStatus == MarkText(m)
    requires CalculateWinner(e.squares).None? ==> e.gameStatus == (if c + 1 == 9 then "T" else "")
    requires Rules.Full(e.squares) <==> c + 1 == 9
    ensures EntryShape(e, c + 1)
    ensures Locates(current.squares, e.squares, e.squareSelected)
  {
    assert Rules.Classify(current.squares) == Rules.InProgress;
    assert GameUtils.CalculateWinner(current.squares).None?;
    Rules.WinGoesThroughMove(current.squares, i, m);
    RetagAgrees(current.squares, current.squareType, i, m);
  }

  lemma NewEntryOk(s: State, i: int)
    requires Inv(s) && 0 <= i < 9 && Accepts(s, i)
    ensures EntryOk(HandleClick(s, i).history, s.stepNumber + 1)
  {
    var c := s.stepNumber;
    var r := HandleClick(s, i);
    var current := s.history[c];
    assert EntryOk(s.history, c);
    assert r.history[c] == r.history[..c + 1][c] == current;
    ValidAfterClick(s, i);
    Rules.FullExactlyAtStepNine(Boards(r.history), c + 1);
    PushedEntryShape(current, c, i, GetNextPlayer(s), r.history[c + 1]);
  }

  /** Cutting a history after entry `c` and pushing a good entry keeps every
      entry good. */
  lemma EntriesOfPush(h: seq<Entry>, c: int, nh: seq<Entry>)
    requires 0 <= c < |h| && |nh| == c + 2 && nh[..c + 1] == h[..c + 1]
    requires forall k :: 0 <= k < |h| ==> EntryOk(h, k)
    requires EntryOk(nh, c + 1)
    ensures forall k :: 0 <= k < |nh| ==> EntryOk(nh, k)
  {
    forall k | 0 <= k <= c ensures EntryOk(nh, k) {
      assert nh[k] == nh[..c + 1][k] == h[k];
      if k > 0 {
        assert nh[k - 1] == nh[..c + 1][k - 1] == h[k - 1];
      }
      assert EntryOk(h, k);
    }
  }

  lemma ClickPreservesInv(s: State, i: int)
    requires Inv(s) && 0 <= i < 9
    ensures Inv(HandleClick(s, i))
  {
    if Accepts(s, i) {
      var c := s.stepNumber;
      var r := HandleClick(s, i);
      NewEntryOk(s, i);
      EntriesOfPush(s.history, c, r.history);
      ValidAfterClick(s, i);
      assert r.stepNumber == c + 1;
      Rules.ParityAlternates(c);
      assert r.currentGameStatus == r.history[c + 1].gameStatus;
    }
  }

  /** `jumpTo` keeps the invariant: the parity reset restores the turn and the
      displayed status is read from the entry jumped to. */
  lemma JumpRefines(s: State, k: int)
    requires Inv(s) && 0 <= k < |s.history|
    ensures Inv(JumpTo(s, k)) && Abs(JumpTo(s, k)) == Rules.Jump(Abs(s), k)
  {
  }

  /** Every reachable state of the component keeps the invariant and is the
      abstract game after the same actions. */
  lemma {:induction false} RunRefines(actions: seq<Rules.Action>)
    ensures Inv(Run(actions)) && Abs(Run(actions)) == Rules.Run(actions)
  {
    if |actions| == 0 {
      InitialRefines();
    } else {
      var prefix := actions[..|actions| - 1];
      RunRefines(prefix);
      var s := Run(prefix);
      match actions[|actions| - 1]
      case Select(i) =>
        if 0 <= i < 9 {
          ClickRefines(s, i);
          ClickPreservesInv(s, i);
        }
      case JumpTo(k) =>
        if 0 <= k < |s.history| {
          JumpRefines(s, k);
        }
    }
  }

  /** In a reachable state the mark played at step `k` (recorded in entry
      `k + 1`) is X exactly when `k` is even, and 'T' is recorded exactly on a
      full board without a winner, which is entry 9. */
  lemma ReachableFacts(actions: seq<Rules.Action>, k: int)
    requires 0 < k < |Run(actions).history|
    ensures Run(actions).history[k].playerTurn == "X" <==> (k - 1) % 2 == 0
    ensures var e := Run(actions).history[k];
      e.gameStatus == "T" <==> GameUtils.CalculateWinner(e.squares).None? && Rules.Full(e.squares)
    ensures Run(actions).history[k].gameStatus == "T" ==> k == 9
  {
    var s := Run(actions);
    RunRefines(actions);
    assert EntryOk(s.history, k);
    Rules.FullExactlyAtStepNine(Boards(s.history), k);
  }
}
