/**
 The game state owned by the hook (board, player to move, history stack of
 snapshots, scores) as a value, and its three commands as functions from
 state to state. The class in TicTacToe is proved against these functions;
 the lemmas here state what the commands promise.
 */
module GameState {
  import opened Rules

  /** What the history stack keeps before each accepted move. */
  datatype Snapshot = Snapshot(board: Board, player: Player)

  /** Wins of X, wins of O, and draws. */
  datatype Scores = Scores(x: nat, o: nat, draws: nat)

  datatype State = State(board: Board, current: Player, history: seq<Snapshot>, scores: Scores)

  function Wins(sc: Scores, p: Player): nat {
    if p == X then sc.x else sc.o
  }

  /** Every counter of `a` is at most the matching counter of `b`. */
  predicate ScoresLe(a: Scores, b: Scores) {
    a.x <= b.x && a.o <= b.o && a.draws <= b.draws
  }

  /** A fresh session: empty board, X to move, no history, no points. */
  function Initial(): State {
    State(EmptyBoard, X, [], Scores(0, 0, 0))
  }

  /** The score update for a status: a terminal status earns its counter one point. */
  function Tally(sc: Scores, st: Status): (r: Scores)
    ensures ScoresLe(sc, r)
    ensures st.Win? ==> Wins(r, st.winner) == Wins(sc, st.winner) + 1 &&
                        Wins(r, Other(st.winner)) == Wins(sc, Other(st.winner)) &&
                        r.draws == sc.draws
    ensures st.Draw? ==> r.draws == sc.draws + 1 && r.x == sc.x && r.o == sc.o
    ensures st.InProgress? ==> r == sc
  {
    match st
    case Win(w, _) => if w == X then sc.(x := sc.x + 1) else sc.(o := sc.o + 1)
    case Draw => sc.(draws := sc.draws + 1)
    case InProgress(_) => sc
  }

  /** A move at `index` is taken: the game is in progress and `index` names an empty cell. */
  predicate Accepted(s: State, index: int) {
    CanPlay(s.board, s.current) && 0 <= index < 9 && s.board[index] == Empty
  }

  /**
   Play a move. Rejected moves change nothing; an accepted one pushes the
   pre-move snapshot, marks exactly the chosen cell, hands the turn over
   and scores the status the move produced.
   */
  function Play(s: State, index: int): (r: State)
    ensures !CanPlay(s.board, s.current) ==> r == s
    ensures !(0 <= index < 9) ==> r == s
    ensures 0 <= index < 9 && s.board[index] != Empty ==> r == s
    ensures Accepted(s, index) ==>
              && r.history == s.history + [Snapshot(s.board, s.current)]
              && r.board[index] == Mark(s.current)
              && (forall j :: 0 <= j < 9 && j != index ==> r.board[j] == s.board[j])
              && r.current == Other(s.current)
              && r.scores == Tally(s.scores, Evaluate(r.board, r.current))
  {
    if !CanPlay(s.board, s.current) || !(0 <= index < 9) || s.board[index] != Empty then s
    else
      var next := s.board[index := Mark(s.current)];
      var player := Other(s.current);
      State(next, player, s.history + [Snapshot(s.board, s.current)],
            Tally(s.scores, Evaluate(next, player)))
  }

  /** Start a new game: clear board and history, flip the player to move, keep the scores. */
  function Reset(s: State): (r: State)
    ensures r.board == EmptyBoard && r.history == []
    ensures r.current == Other(s.current)
    ensures r.scores == s.scores
  {
    State(EmptyBoard, Other(s.current), [], s.scores)
  }

  /** Take back the last move: pop the history and restore its snapshot; nothing to pop, nothing done. */
  function Undo(s: State): (r: State)
    ensures s.history == [] ==> r == s
    ensures s.history != [] ==>
              && r.board == s.history[|s.history| - 1].board
              && r.current == s.history[|s.history| - 1].player
              && r.history + [s.history[|s.history| - 1]] == s.history
              && r.scores == s.scores
  {
    if |s.history| == 0 then s
    else
      var prev := s.history[|s.history| - 1];
      State(prev.board, prev.player, s.history[..|s.history| - 1], s.scores)
  }

  // The invariant

  /** The snapshots of the current game, oldest first, ending with the live position. */
  function Trace(s: State): (t: seq<Snapshot>)
    ensures |t| == |s.history| + 1
    ensures t[|s.history|] == Snapshot(s.board, s.current)
    ensures forall k :: 0 <= k < |s.history| ==> t[k] == s.history[k]
  {
    s.history + [Snapshot(s.board, s.current)]
  }

  /**
   A position `n` moves into a game: `n` cells are filled, both players
   have placed equally many marks when `n` is even, and the player to
   move has one mark fewer than the other when `n` is odd.
   */
  ghost predicate WellFormed(t: Snapshot, n: nat) {
    Filled(t.board) == n &&
    if n % 2 == 0 then CountOf(t.board, Mark(X)) == CountOf(t.board, Mark(O))
    else CountOf(t.board, Mark(t.player)) + 1 == CountOf(t.board, Mark(Other(t.player)))
  }

  /** `u` arises from `t` by one move of the player to move in `t`, made while `t` was in progress. */
  ghost predicate MoveBetween(t: Snapshot, u: Snapshot) {
    NoLine(t.board) && !IsFull(t.board) &&
    u.player == Other(t.player) &&
    forall j :: 0 <= j < 9 ==>
      u.board[j] == t.board[j] || (t.board[j] == Empty && u.board[j] == Mark(t.player))
  }

  ghost predicate StepAt(tr: seq<Snapshot>, k: nat)
    requires k + 1 < |tr|
  {
    MoveBetween(tr[k], tr[k + 1])
  }

  ghost predicate ValidTrace(tr: seq<Snapshot>) {
    |tr| > 0 &&
    (forall k :: 0 <= k < |tr| ==> WellFormed(tr[k], k)) &&
    (forall k :: 0 <= k < |tr| - 1 ==> StepAt(tr, k))
  }

  /** The history is the chain of positions of one game, each one move after the last. */
  ghost predicate Inv(s: State) {
    ValidTrace(Trace(s))
  }

  lemma InitialInv()
    ensures Inv(Initial())
  {
  }

  /** What the invariant says about the live position. */
  lemma InvFacts(s: State)
    requires Inv(s)
    ensures |s.history| == Filled(s.board)
    ensures -1 <= CountOf(s.board, Mark(X)) - CountOf(s.board, Mark(O)) <= 1
  {
  }

  /** A drawn game has all nine moves on the history stack. */
  lemma DrawAfterNineMoves(s: State)
    requires Inv(s) && Evaluate(s.board, s.current).Draw?
    ensures |s.history| == 9
  {
    InvFacts(s);
    FullIffNineFilled(s.board);
  }

  /** A valid trace stays valid when extended by one well-formed move. */
  lemma ExtendTrace(t: seq<Snapshot>, u: Snapshot)
    requires ValidTrace(t)
    requires WellFormed(u, |t|) && MoveBetween(t[|t| - 1], u)
    ensures ValidTrace(t + [u])
  {
    var t' := t + [u];
    forall k | 0 <= k < |t'|
      ensures WellFormed(t'[k], k)
    {
      if k < |t| {
        assert t'[k] == t[k];
      } else {
        assert t'[k] == u;
      }
    }
    forall k | 0 <= k < |t'| - 1
      ensures StepAt(t', k)
    {
      assert t'[k] == t[k];
      if k < |t| - 1 {
        assert t'[k + 1] == t[k + 1] && StepAt(t, k);
      } else {
        assert t'[k + 1] == u;
      }
    }
  }

  /** A non-empty prefix of a valid trace is valid. */
  lemma TrimTrace(t: seq<Snapshot>, m: nat)
    requires ValidTrace(t) && 0 < m <= |t|
    ensures ValidTrace(t[..m])
  {
    var t' := t[..m];
    forall k | 0 <= k < |t'|
      ensures WellFormed(t'[k], k)
    {
      assert t'[k] == t[k];
    }
    forall k | 0 <= k < |t'| - 1
      ensures StepAt(t', k)
    {
      assert StepAt(t, k);
    }
  }

  /** Marking an empty cell for the player to move turns a position n moves in into one n + 1 moves in. */
  lemma MoveKeepsWellFormed(t: Snapshot, i: Index, n: nat)
    requires WellFormed(t, n) && t.board[i] == Empty
    ensures WellFormed(Snapshot(t.board[i := Mark(t.player)], Other(t.player)), n + 1)
  {
    MarkEmptyCell(t.board, i, t.player);
  }

  lemma PlayPreservesInv(s: State, index: int)
    requires Inv(s)
    ensures Inv(Play(s, index))
  {
    if Accepted(s, index) {
      var r := Play(s, index);
      var t := Trace(s);
      var n := |s.history|;
      var u := Snapshot(r.board, r.current);
      assert Trace(r) == t + [u];
      assert WellFormed(t[n], n);
      MoveKeepsWellFormed(t[n], index, n);
      ExtendTrace(t, u);
    }
  }

  lemma UndoPreservesInv(s: State)
    requires Inv(s)
    ensures Inv(Undo(s))
  {
    if s.history != [] {
      var t := Trace(s);
      assert Trace(Undo(s)) == t[..|t| - 1];
      TrimTrace(t, |t| - 1);
    }
  }

  lemma ResetPreservesInv(s: State)
    requires Inv(s)
    ensures Inv(Reset(s))
  {
  }

  /** Undo always leads back to a position in which moves are accepted, also from a won or drawn game. */
  lemma UndoResumesPlay(s: State)
    requires Inv(s) && s.history != []
    ensures CanPlay(Undo(s).board, Undo(s).current)
  {
    var t := Trace(s);
    assert StepAt(t, |s.history| - 1);
  }

  /** Undo right after an accepted move gives back the board, player and history from before it. */
  lemma PlayThenUndo(s: State, index: int)
    requires Accepted(s, index)
    ensures Undo(Play(s, index)).board == s.board
    ensures Undo(Play(s, index)).current == s.current
    ensures Undo(Play(s, index)).history == s.history
    ensures Undo(Play(s, index)).scores == Play(s, index).scores
  {
  }

  /** The player to move in entry `k` of `tr` is the other one than in entry `k - 1`. */
  ghost predicate TurnPassed(tr: seq<Snapshot>, k: nat)
    requires 0 < k < |tr|
  {
    tr[k].player == Other(tr[k - 1].player)
  }

  /** The invariant hands the turn over at every step of the trace. */
  lemma TurnPassesAlongTrace(s: State)
    requires Inv(s)
    ensures forall k :: 0 < k < |Trace(s)| ==> TurnPassed(Trace(s), k)
  {
    var t := Trace(s);
    forall k | 0 < k < |t|
      ensures TurnPassed(t, k)
    {
      assert StepAt(t, k - 1);
    }
  }

  /** Along a trace that hands the turn over at each step, the player to move alternates from the first entry. */
  lemma {:induction false} Alternation(tr: seq<Snapshot>, k: nat)
    requires k < |tr|
    requires forall j :: 0 < j < |tr| ==> TurnPassed(tr, j)
    ensures tr[k].player == if k % 2 == 0 then tr[0].player else Other(tr[0].player)
  {
    if k > 0 {
      Alternation(tr, k - 1);
      assert TurnPassed(tr, k);
      assert (k - 1) % 2 == 0 <==> k % 2 == 1;
    }
  }

  /**
   Reset hands the first move of the next game to the player NOT on move
   at reset time. The first snapshot of the history is the position before
   the game's first move, so after an odd number of moves the player who
   opened the game just played opens the next one as well.
   */
  lemma ResetStarter(s: State)
    requires Inv(s) && s.history != []
    ensures Filled(s.history[0].board) == 0
    ensures |s.history| % 2 == 1 ==> Reset(s).current == s.history[0].player
    ensures |s.history| % 2 == 0 ==> Reset(s).current == Other(s.history[0].player)
  {
    var t := Trace(s);
    assert WellFormed(t[0], 0);
    TurnPassesAlongTrace(s);
    Alternation(t, |s.history|);
  }

  // Commands and runs

  /** The hook's three commands. */
  datatype Command = PlayAt(index: int) | ResetGame | UndoMove

  function Apply(s: State, c: Command): State {
    match c
    case PlayAt(i) => Play(s, i)
    case ResetGame => Reset(s)
    case UndoMove => Undo(s)
  }

  function Run(s: State, cs: seq<Command>): State
    decreases |cs|
  {
    if cs == [] then s else Run(Apply(s, cs[0]), cs[1..])
  }

  /** Every command keeps the invariant, so every run from a fresh session does. */
  lemma {:induction false} RunPreservesInv(s: State, cs: seq<Command>)
    requires Inv(s)
    ensures Inv(Run(s, cs))
    decreases |cs|
  {
    if cs != [] {
      match cs[0] {
        case PlayAt(i) => PlayPreservesInv(s, i);
        case ResetGame => ResetPreservesInv(s);
        case UndoMove => UndoPreservesInv(s);
      }
      RunPreservesInv(Apply(s, cs[0]), cs[1..]);
    }
  }

  /** Scores never go down, whatever the commands. */
  lemma {:induction false} RunScoresMonotone(s: State, cs: seq<Command>)
    ensures ScoresLe(s.scores, Run(s, cs).scores)
    decreases |cs|
  {
    if cs != [] {
      RunScoresMonotone(Apply(s, cs[0]), cs[1..]);
    }
  }

  function Total(sc: Scores): nat {
    sc.x + sc.o + sc.draws
  }

  /**
   A command changes the scores exactly when it is an accepted move that
   ends the game, and then by one point in all.
   */
  lemma ScoreChangesOnlyOnEndingMove(s: State, c: Command)
    ensures var r := Apply(s, c);
            r.scores != s.scores <==>
              c.PlayAt? && Accepted(s, c.index) && !CanPlay(r.board, r.current)
    ensures Total(Apply(s, c).scores) <= Total(s.scores) + 1
  {
  }

  /** Once a game is over, further moves score nothing; only Undo or Reset leaves the end state. */
  lemma TerminalNotRecounted(s: State, index: int)
    requires !CanPlay(s.board, s.current)
    ensures Play(s, index).scores == s.scores
  {
  }
}
