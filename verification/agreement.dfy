/**
 The two components of the repository, src/Game.js and src/index.js, are two
 encodings of one game: after the same user actions they hold the same
 boards, the same step number, the same tags and locations, and statuses
 that name the same outcome.
 */
module Agreement {
  import opened GameUtils
  import Rules
  import Moves
  import HooksGame
  import ClassGame

  /** The string index.js stores for each CurrStatus of Game.js. */
  function Encode(st: CurrStatus): (t: string)
    ensures |t| <= 1
  {
    match st
    case Pending => ""
    case XWon => "X"
    case OWon => "O"
    case Tie => "T"
  }

  lemma EncodeMatchesOutcome(o: Rules.Outcome)
    ensures Encode(HooksGame.StatusOf(o)) == ClassGame.StatusText(o)
  {
  }

  /** Entry `k` of both components carries the same information. */
  lemma EntriesAgree(h: HooksGame.Game, c: ClassGame.State, k: int)
    requires HooksGame.Inv(h) && ClassGame.Inv(c)
    requires HooksGame.Boards(h.history) == ClassGame.Boards(c.history)
    requires 0 <= k < |h.history|
    ensures Encode(h.history[k].gameStatus) == c.history[k].gameStatus
    ensures h.history[k].squareType == c.history[k].squareType
    ensures h.history[k].squareSelected == c.history[k].squareSelected
  {
    var bs := HooksGame.Boards(h.history);
    assert |c.history| == |bs|;
    assert HooksGame.EntryOk(h.history, k) && ClassGame.EntryOk(c.history, k);
    assert h.history[k].squares == bs[k] == c.history[k].squares;
    EncodeMatchesOutcome(Rules.Classify(bs[k]));
    Moves.TagsDetermined(bs[k], h.history[k].squareType, c.history[k].squareType);
    if k > 0 {
      assert h.history[k - 1].squares == bs[k - 1] == c.history[k - 1].squares;
      assert Rules.OneMove(bs[k - 1], bs[k], Rules.NextMark(k - 1));
      Moves.LocationDetermined(bs[k - 1], bs[k], Rules.NextMark(k - 1),
        h.history[k].squareSelected, c.history[k].squareSelected);
    }
  }

  /** After any sequence of user actions both components are the same
      abstract game, entry by entry, and the class component's `xIsNext`
      is the one stored in the hooks component's current entry. */
  lemma BothComponentsAgree(actions: seq<Rules.Action>)
    ensures HooksGame.Abs(HooksGame.Run(actions)) == ClassGame.Abs(ClassGame.Run(actions))
    ensures var h := HooksGame.Run(actions); var c := ClassGame.Run(actions);
      && |h.history| == |c.history|
      && (forall k :: 0 <= k < |h.history| ==>
            && Encode(h.history[k].gameStatus) == c.history[k].gameStatus
            && h.history[k].squareType == c.history[k].squareType
            && h.history[k].squareSelected == c.history[k].squareSelected)
      && c.xIsNext == h.history[h.stepNumber].xIsNext
  {
    var h := HooksGame.Run(actions);
    var c := ClassGame.Run(actions);
    HooksGame.RunRefines(actions);
    ClassGame.RunRefines(actions);
    assert |h.history| == |HooksGame.Boards(h.history)| == |ClassGame.Boards(c.history)| == |c.history|;
    forall k | 0 <= k < |h.history|
      ensures Encode(h.history[k].gameStatus) == c.history[k].gameStatus
      ensures h.history[k].squareType == c.history[k].squareType
      ensures h.history[k].squareSelected == c.history[k].squareSelected
    {
      EntriesAgree(h, c, k);
    }
    assert HooksGame.EntryOk(h.history, h.stepNumber);
  }
}
