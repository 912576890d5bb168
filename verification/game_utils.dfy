/**
 The board vocabulary shared by both game components, and the winner scan
 `calculateWinner` with its table of eight lines.
 */
module GameUtils {

  /** The result of the winner scan: `null` in the source is None. */
  datatype Option<+T> = None | Some(value: T)

  /** One square. Game.js stores '' for an empty square and index.js stores
      null; both are falsy in the scan and both are Empty here. */
  datatype Cell = Empty | X | O

  /** An index into the nine squares; square `i` is row `i / 3`, column `i % 3`. */
  type CellIndex = i: int | 0 <= i < 9

  const EmptyBoard: seq<Cell> := [Empty, Empty, Empty, Empty, Empty, Empty, Empty, Empty, Empty]

  /** A board is always nine squares long. */
  type Board = s: seq<Cell> | |s| == 9 witness EmptyBoard

  /** The CSS class each square is drawn with (SquareType in GameUtils.mjs). */
  datatype SquareType = Selected | Unselected | Win

  const AllUnselected: seq<SquareType> :=
    [Unselected, Unselected, Unselected, Unselected, Unselected, Unselected, Unselected, Unselected, Unselected]

  /** One tag per square. */
  type Tags = s: seq<SquareType> | |s| == 9 witness AllUnselected

  /** CurrStatus in GameUtils.mjs: PENDING 0, X_WON 1, O_WON 2, TIE 3. */
  datatype CurrStatus = Pending | XWon | OWon | Tie

  /** A row, column or diagonal, as three square indices. */
  datatype Line = Line(a: CellIndex, b: CellIndex, c: CellIndex)

  /** LINES: three rows, three columns, two diagonals, in scan order. */
  const Lines: seq<Line> := [
    Line(0, 1, 2), Line(3, 4, 5), Line(6, 7, 8),
    Line(0, 3, 6), Line(1, 4, 7), Line(2, 5, 8),
    Line(0, 4, 8), Line(2, 4, 6)
  ]

  predicate OnLine(l: Line, i: int) {
    i == l.a || i == l.b || i == l.c
  }

  /** The scan's test: square `a` is marked and `b` and `c` hold the same mark. */
  predicate Completes(squares: Board, l: Line) {
    squares[l.a] != Empty && squares[l.a] == squares[l.b] && squares[l.a] == squares[l.c]
  }

  /** The loop of `calculateWinner` from position `k` of LINES on. */
  function ScanFrom(squares: Board, k: nat): Option<Line>
    requires k <= |Lines|
    decreases |Lines| - k
  {
    if k == |Lines| then None
    else if Completes(squares, Lines[k]) then Some(Lines[k])
    else ScanFrom(squares, k + 1)
  }

  /** The scan from position `k` finds nothing exactly when no line from `k`
      on is complete, and otherwise the first complete line from `k` on. */
  lemma {:induction false} ScanFromSpec(squares: Board, k: nat)
    requires k <= |Lines|
    ensures ScanFrom(squares, k).None? <==> forall j :: k <= j < |Lines| ==> !Completes(squares, Lines[j])
    ensures ScanFrom(squares, k).Some? ==>
      exists j :: k <= j < |Lines| && Lines[j] == ScanFrom(squares, k).value && Completes(squares, Lines[j])
        && forall j' :: k <= j' < j ==> !Completes(squares, Lines[j'])
    decreases |Lines| - k
  {
    if k < |Lines| && !Completes(squares, Lines[k]) {
      ScanFromSpec(squares, k + 1);
    }
  }

  /** `calculateWinner`: the first line of LINES whose three squares hold the
      same mark, or None. Being a function of the board, it cannot alter it. */
  function CalculateWinner(squares: Board): Option<Line> {
    ScanFrom(squares, 0)
  }

  lemma CalculateWinnerSpec(squares: Board)
    ensures CalculateWinner(squares).Some? ==>
      CalculateWinner(squares).value in Lines && Completes(squares, CalculateWinner(squares).value)
    ensures CalculateWinner(squares).None? <==> forall l :: l in Lines ==> !Completes(squares, l)
    ensures CalculateWinner(squares).Some? ==>
      exists j :: 0 <= j < |Lines| && Lines[j] == CalculateWinner(squares).value
        && forall j' :: 0 <= j' < j ==> !Completes(squares, Lines[j'])
    ensures squares == EmptyBoard ==> CalculateWinner(squares) == None
  {
    ScanFromSpec(squares, 0);
    assert forall l :: l in Lines ==> exists j :: 0 <= j < |Lines| && Lines[j] == l;
  }

  /** The mark of the player to move: `xIsNext ? 'X' : 'O'`. */
  function MarkFor(xIsNext: bool): (m: Cell)
    ensures m != Empty
    ensures m == X <==> xIsNext
  {
    if xIsNext then X else O
  }
}
