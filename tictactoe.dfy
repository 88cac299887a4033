/**
 The hook itself: an object owning the board, the player to move, the
 history stack and the scores, whose commands update those fields in
 place. Each command is proved to take the object from its old state to
 the state the matching GameState function describes, and to keep the
 GameState invariant.
 */
module TicTacToe {
  import opened Rules
  import opened GameState

  class Game {
    var board: Board
    var currentPlayer: Player
    var history: seq<Snapshot>
    var scores: Scores

    /** The object's fields as a GameState value. */
    function Model(): State
      reads this
    {
      State(board, currentPlayer, history, scores)
    }

    ghost predicate Valid()
      reads this
    {
      Inv(Model())
    }

    /** A new session: empty board, X to move, no history, all scores zero. */
    constructor ()
      ensures Valid()
      ensures Model() == Initial()
    {
      board := EmptyBoard;
      currentPlayer := X;
      history := [];
      scores := Scores(0, 0, 0);
      new;
      InitialInv();
    }

    /** The status derived from the current board; never stored. */
    function Status(): (st: Status)
      reads this
      ensures st.InProgress? ==> st.currentPlayer == currentPlayer
      ensures st.Draw? ==> IsFull(board)
    {
      Evaluate(board, currentPlayer)
    }

    /** Play at `index`; ignored unless the game is in progress and `index` is an empty cell. */
    method Play(index: int)
      requires Valid()
      modifies this
      ensures Valid()
      ensures Model() == GameState.Play(old(Model()), index)
    {
      PlayPreservesInv(Model(), index);
      if !CanPlay(board, currentPlayer) || !(0 <= index < 9) || board[index] != Empty {
        return;
      }
      var next := board[index := Mark(currentPlayer)];
      history := history + [Snapshot(board, currentPlayer)];
      board := next;
      currentPlayer := Other(currentPlayer);
      // the move's own score update: a point for the status it produced, if terminal
      scores := Tally(scores, Evaluate(board, currentPlayer));
    }

    /** New game: board cleared, history emptied, turn flipped, scores kept. */
    method Reset()
      requires Valid()
      modifies this
      ensures Valid()
      ensures Model() == GameState.Reset(old(Model()))
    {
      ResetPreservesInv(Model());
      board := EmptyBoard;
      currentPlayer := Other(currentPlayer);
      history := [];
    }

    /** Take back the last move, if there is one. */
    method Undo()
      requires Valid()
      modifies this
      ensures Valid()
      ensures Model() == GameState.Undo(old(Model()))
      ensures old(|history|) > 0 ==> Status().InProgress?
    {
      UndoPreservesInv(Model());
      if |history| > 0 {
        UndoResumesPlay(Model());
      }
      if |history| == 0 {
        return;
      }
      var prev := history[|history| - 1];
      board := prev.board;
      currentPlayer := prev.player;
      history := history[..|history| - 1];
    }
  }
}
