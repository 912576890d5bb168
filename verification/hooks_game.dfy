/**
 The hooks component of src/Game.js: the history of game states and the step
 number, updated by `handleSquareSelection` and `jumpTo`. Each history entry
 carries its own `xIsNext` and a CurrStatus.
 */
module HooksGame {
  import opened GameUtils
  import opened Moves
  import Rules

  datatype Entry = Entry(
    squares: Board,
    squareType: Tags,
    squareSelected: (int, int),
    xIsNext: bool,
    gameStatus: CurrStatus)

  datatype Game = Game(history: seq<Entry>, stepNumber: int)

  const InitialEntry: Entry := Entry(EmptyBoard, AllUnselected, (-1, -1), true, Pending)

  /** `useState(0)` and the one-entry history. */
  const Initial: Game := Game([InitialEntry], 0)

  /** The step number names an entry of the history. */
  predicate Ready(g: Game) {
    0 <= g.stepNumber < |g.history|
  }

  /** The guard of `handleSquareSelection`: the current game is pending and
      square `i` is empty. */
  predicate Accepts(g: Game, i: int)
    requires Ready(g) && 0 <= i < 9
  {
    var current := g.history[g.stepNumber];
    current.gameStatus == Pending && current.squares[i] == Empty
  }

  function HandleSquareSelection(g: Game, i: int): (r: Game)
    requires Ready(g) && 0 <= i < 9
    ensures Ready(r)
    ensures !Accepts(g, i) ==> r == g
    ensures Accepts(g, i) ==>
      && |r.history| == g.stepNumber + 2
      && r.history[..g.stepNumber + 1] == g.history[..g.stepNumber + 1]
      && r.stepNumber == g.stepNumber + 1
    ensures Accepts(g, i) ==>
      var current := g.history[g.stepNumber];
      var e := r.history[r.stepNumber];
      && (forall c :: 0 <= c < 9 && c != i ==> e.squares[c] == current.squares[c])
      && e.squares[i] == (if current.xIsNext then X else O)
      && e.xIsNext == !current.xIsNext
      && e.squareSelected == Location(i)
      && e.squareType == Retag(current.squareType, CalculateWinner(e.squares), i)
    ensures Accepts(g, i) ==>
      var current := g.history[g.stepNumber];
      var e := r.history[r.stepNumber];
      && (CalculateWinner(e.squares).Some? ==> e.gameStatus == (if current.xIsNext then XWon else OWon))
      && (CalculateWinner(e.squares).None? ==>
            (e.gameStatus == Tie <==> g.stepNumber == 8) && (e.gameStatus == Tie || e.gameStatus == Pending))
  {
    var newHistory := g.history[..g.stepNumber + 1];
    var current := newHistory[|newHistory| - 1];
    if current.gameStatus != Pending || current.squares[i] != Empty then g
    else
      var squares := current.squares[i := MarkFor(current.xIsNext)];
      var winningSquares := CalculateWinner(squares);
      var gameStatus :=
        if winningSquares.Some? then (if squares[i] == X then XWon else OWon)
        else if g.stepNumber == 8 then Tie
        else Pending;
      var squareType := Retag(current.squareType, winningSquares, i);
      var pushed := newHistory + [Entry(squares, squareType, Location(i), !current.xIsNext, gameStatus)];
      Game(pushed, |pushed| - 1)
  }

  /** `jumpTo`: only the step number moves. */
  function JumpTo(g: Game, stepNum: int): (r: Game)
    requires 0 <= stepNum < |g.history|
    ensures Ready(r) && r.history == g.history && r.stepNumber == stepNum
  {
    g.(stepNumber := stepNum)
  }

  function Apply(g: Game, a: Rules.Action): (r: Game)
    requires Ready(g)
    ensures Ready(r)
  {
    match a
    case Select(i) => if 0 <= i < 9 then HandleSquareSelection(g, i) else g
    case JumpTo(k) => if 0 <= k < |g.history| then JumpTo(g, k) else g
  }

  /** The component after a sequence of user actions from its initial state. */
  function Run(actions: seq<Rules.Action>): (r: Game)
    ensures Ready(r)
  {
    if |actions| == 0 then Initial
    else Apply(Run(actions[..|actions| - 1]), actions[|actions| - 1])
  }

  // ---------------------------------------------------------------------
  // Refinement of the abstract game

  function Boards(h: seq<Entry>): (bs: seq<Board>)
    ensures |bs| == |h| && forall k :: 0 <= k < |h| ==> bs[k] == h[k].squares
  {
    seq(|h|, k requires 0 <= k < |h| => h[k].squares)
  }

  function Abs(g: Game): Rules.Machine {
    Rules.Machine(Boards(g.history), g.stepNumber)
  }

  function StatusOf(o: Rules.Outcome): CurrStatus {
    match o
    case InProgress => Pending
    case Won(p) => if p == X then XWon else OWon
    case Draw => Tie
  }

  /** What an entry at position `k` of a produced history says about itself:
      whose turn it is, a status that classifies its board, tags that agree
      with its board. */
  ghost predicate EntryShape(e: Entry, k: int) {
    && e.xIsNext == (k % 2 == 0)
    && e.gameStatus == StatusOf(Rules.Classify(e.squares))
    && TagsAgree(e.squares, e.squareType)
  }

  /** Entry `k` of a produced history: its shape, and either the initial
      entry or a recorded location naming the square its move marked. */
  ghost predicate EntryOk(h: seq<Entry>, k: int)
    requires 0 <= k < |h|
  {
    && EntryShape(h[k], k)
    && (k == 0 ==> h[k] == InitialEntry)
    && (k > 0 ==> Locates(h[k - 1].squares, h[k].squares, h[k].squareSelected))
  }

  ghost predicate Inv(g: Game) {
    && Ready(g)
    && Rules.ValidHistory(Boards(g.history))
    && forall k :: 0 <= k < |g.history| ==> EntryOk(g.history, k)
  }

  lemma InitialRefines()
    ensures Inv(Initial) && Abs(Initial) == Rules.Start
  {
    InitialTagsAgree();
    assert Boards(Initial.history) == [EmptyBoard];
  }

  lemma BoardsOfPush(h: seq<Entry>, n: int, e: Entry)
    requires 0 <= n <= |h|
    ensures Boards(h[..n] + [e]) == Boards(h)[..n] + [e.squares]
  {
  }

  /** The pending status of the current entry is the abstract "in progress". */
  lemma AcceptsIffPlayable(g: Game, i: int)
    requires Inv(g) && 0 <= i < 9
    ensures Accepts(g, i) <==> Rules.Playable(Abs(g), i)
  {
    assert EntryOk(g.history, g.stepNumber);
  }

  /** `handleSquareSelection` performs the abstract move on the boards. */
  lemma SelectRefines(g: Game, i: int)
    requires Inv(g) && 0 <= i < 9
    ensures Abs(HandleSquareSelection(g, i)) == Rules.Move(Abs(g), i)
  {
    AcceptsIffPlayable(g, i);
    assert EntryOk(g.history, g.stepNumber);
    PushRefines(g, i);
  }

  lemma PushRefines(g: Game, i: int)
    requires Ready(g) && 0 <= i < 9
    requires Accepts(g, i) <==> Rules.Playable(Abs(g), i)
    requires g.history[g.stepNumber].xIsNext == (g.stepNumber % 2 == 0)
    ensures Abs(HandleSquareSelection(g, i)) == Rules.Move(Abs(g), i)
  {
    if Accepts(g, i) {
      var c := g.stepNumber;
      var current := g.history[c];
      var squares := current.squares[i := MarkFor(current.xIsNext)];
      var r := HandleSquareSelection(g, i);
      var e := r.history[c + 1];
      assert r.history == g.history[..c + 1] + [e];
      assert e.squares == squares;
      BoardsOfPush(g.history, c + 1, e);
      assert Boards(r.history) == Boards(g.history)[..c + 1] + [squares];
    }
  }

  lemma ValidAfterSelect(g: Game, i: int)
    requires Inv(g) && 0 <= i < 9
    ensures Rules.ValidHistory(Boards(HandleSquareSelection(g, i).history))
  {
    SelectRefines(g, i);
    Rules.MovePreservesValid(Abs(g), i);
  }

  /** The entry pushed by an accepted move, from the facts about the entry it
      follows. */
  lemma PushedEntryShape(current: Entry, c: int, i: int, e: Entry)
    requires 0 <= c && 0 <= i < 9
    requires EntryShape(current, c) && current.gameStatus == Pending && current.squares[i] == Empty
    requires e.squares == current.squares[i := MarkFor(current.xIsNext)]
    requires e.xIsNext == !current.xIsNext
    requires e.squareSelected == Location(i)
    requires e.squareType == Retag(current.squareType, CalculateWinner(e.squares), i)
    requires CalculateWinner(e.squares).Some? ==> e.gameStatus == (if current.xIsNext then XWon else OWon)
    requires CalculateWinner(e.squares).None? ==> e.gameStatus == (if c == 8 then Tie else Pending)
    requires Rules.Full(e.squares) <==> c + 1 == 9
    ensures EntryShape(e, c + 1)
    ensures Locates(current.squares, e.squares, e.squareSelected)
  {
    var m := MarkFor(current.xIsNext);
    Rules.ParityAlternates(c);
    assert CalculateWinner(current.squares).None?;
    Rules.WinGoesThroughMove(current.squares, i, m);
    RetagAgrees(current.squares, current.squareType, i, m);
  }

  /** The new entry of an accepted move satisfies the entry invariant. */
  lemma NewEntryOk(g: Game, i: int)
    requires Inv(g) && 0 <= i < 9 && Accepts(g, i)
    ensures EntryOk(HandleSquareSelection(g, i).history, g.stepNumber + 1)
  {
    var c := g.stepNumber;
    var r := HandleSquareSelection(g, i);
    var current := g.history[c];
    assert EntryOk(g.history, c);
    assert r.history[c] == r.history[..c + 1][c] == current;
    ValidAfterSelect(g, i);
    Rules.FullExactlyAtStepNine(Boards(r.history), c + 1);
    PushedEntryShape(current, c, i, r.history[c + 1]);
  }

  /** Cutting a history after entry `c` and pushing a good entry keeps every
      entry good. */
  lemma EntriesOfPush(h: seq<Entry>, c: int, nh: seq<Entry>)
    requires 0 <= c < |h| && |nh| == c + 2 && nh[..c + 1] == h[..c + 1]
    requires forall k :: 0 <= k < |h| ==> EntryOk(h, k)
    requires EntryOk(nh, c + 1)
    ensures forall k :: 0 <= k < |nh| ==> EntryOk(nh, k)
  {
    forall k | 0 <= k <= c ensures EntryOk(nh, k) {
      assert nh[k] == nh[..c + 1][k] == h[k];
      if k > 0 {
        assert nh[k - 1] == nh[..c + 1][k - 1] == h[k - 1];
      }
      assert EntryOk(h, k);
    }
  }

  lemma SelectPreservesInv(g: Game, i: int)
    requires Inv(g) && 0 <= i < 9
    ensures Inv(HandleSquareSelection(g, i))
  {
    if Accepts(g, i) {
      var c := g.stepNumber;
      var r := HandleSquareSelection(g, i);
      NewEntryOk(g, i);
      EntriesOfPush(g.history, c, r.history);
      ValidAfterSelect(g, i);
    }
  }

  lemma JumpRefines(g: Game, k: int)
    requires Inv(g) && 0 <= k < |g.history|
    ensures Inv(JumpTo(g, k)) && Abs(JumpTo(g, k)) == Rules.Jump(Abs(g), k)
  {
  }

  /** Every reachable state of the component keeps the invariant and is the
      abstract game after the same actions. */
  lemma {:induction false} RunRefines(actions: seq<Rules.Action>)
    ensures Inv(Run(actions)) && Abs(Run(actions)) == Rules.Run(actions)
  {
    if |actions| == 0 {
      InitialRefines();
    } else {
      var prefix := actions[..|actions| - 1];
      RunRefines(prefix);
      var g := Run(prefix);
      match actions[|actions| - 1]
      case Select(i) =>
        if 0 <= i < 9 {
          SelectRefines(g, i);
          SelectPreservesInv(g, i);
        }
      case JumpTo(k) =>
        if 0 <= k < |g.history| {
          JumpRefines(g, k);
        }
    }
  }

  /** In a reachable state entry `k` holds `k` marks, there are at most ten
      entries, and TIE is recorded exactly on a full board without a winner,
      which is entry 9. */
  lemma ReachableFacts(actions: seq<Rules.Action>, k: int)
    requires 0 <= k < |Run(actions).history|
    ensures |Run(actions).history| <= 10
    ensures Rules.Marks(Run(actions).history[k].squares) == k
    ensures var e := Run(actions).history[k];
      e.gameStatus == Tie <==> CalculateWinner(e.squares).None? && Rules.Full(e.squares)
    ensures Run(actions).history[k].gameStatus == Tie ==> k == 9
  {
    var g := Run(actions);
    RunRefines(actions);
    assert EntryOk(g.history, k);
    Rules.HistoryAtMostTen(Boards(g.history));
    Rules.MarksCountSteps(Boards(g.history), k);
    Rules.FullExactlyAtStepNine(Boards(g.history), k);
  }
}
