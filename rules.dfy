/**
 The rules of the game: players, cells, the 3x3 board, the eight winning
 lines and the classifier that derives the game status from a board.
 Everything here is pure; the owned, changing state lives in GameState
 and TicTacToe.
 */
module Rules {

  datatype Option<T> = None | Some(value: T)

  /** The two marks; "X" and "O" in the hook. */
  datatype Player = X | O

  function Other(p: Player): (q: Player)
    ensures q != p
  {
    if p == X then O else X
  }

  /** A cell holds a player's mark or nothing (`null` in the hook). */
  datatype Cell = Empty | Mark(player: Player)

  /** Cell indices 0..8 in row-major order. */
  type Index = i: int | 0 <= i < 9

  /** The board always has exactly nine cells. */
  type Board = b: seq<Cell> | |b| == 9
    witness [Empty, Empty, Empty, Empty, Empty, Empty, Empty, Empty, Empty]

  const EmptyBoard: Board := [Empty, Empty, Empty, Empty, Empty, Empty, Empty, Empty, Empty]

  /** A winning line: three cell indices. */
  datatype Line = Line(a: Index, b: Index, c: Index)

  /** The lines in the order the classifier scans them: rows, columns, diagonals. */
  const WinLines: seq<Line> := [
    Line(0, 1, 2), Line(3, 4, 5), Line(6, 7, 8),
    Line(0, 3, 6), Line(1, 4, 7), Line(2, 5, 8),
    Line(0, 4, 8), Line(2, 4, 6)
  ]

  datatype Status =
    | InProgress(currentPlayer: Player)
    | Win(winner: Player, line: Line)
    | Draw

  /** The three cells of `l` are non-empty and hold the same mark. */
  predicate LineComplete(b: Board, l: Line) {
    b[l.a] != Empty && b[l.a] == b[l.b] && b[l.a] == b[l.c]
  }

  /** No line of WinLines is complete. */
  predicate NoLine(b: Board) {
    forall k :: 0 <= k < |WinLines| ==> !LineComplete(b, WinLines[k])
  }

  /** Every cell holds a mark. */
  predicate IsFull(b: Board) {
    forall i :: 0 <= i < |b| ==> b[i] != Empty
  }

  /** The position in WinLines, at or after `k`, of the first complete line. */
  function FirstComplete(b: Board, k: nat): (r: Option<nat>)
    requires k <= |WinLines|
    ensures r.Some? ==> k <= r.value < |WinLines| && LineComplete(b, WinLines[r.value])
    ensures r.Some? ==> forall j :: k <= j < r.value ==> !LineComplete(b, WinLines[j])
    ensures r.None? <==> forall j :: k <= j < |WinLines| ==> !LineComplete(b, WinLines[j])
    decreases |WinLines| - k
  {
    if k == |WinLines| then None
    else if LineComplete(b, WinLines[k]) then Some(k)
    else FirstComplete(b, k + 1)
  }

  /**
   The status of board `b` when `current` is to move: a win for the first
   complete line in scan order, else a draw when the board is full, else
   the game goes on with `current` to move.
   */
  function Evaluate(b: Board, current: Player): (r: Status)
    ensures r.Win? <==> !NoLine(b)
    ensures r.Win? ==> LineComplete(b, r.line) && b[r.line.a] == Mark(r.winner)
    ensures r.Win? ==> exists k :: 0 <= k < |WinLines| && WinLines[k] == r.line &&
                                   forall j :: 0 <= j < k ==> !LineComplete(b, WinLines[j])
    ensures r.Draw? <==> NoLine(b) && IsFull(b)
    ensures r.InProgress? <==> NoLine(b) && !IsFull(b)
    ensures r.InProgress? ==> r.currentPlayer == current
  {
    match FirstComplete(b, 0)
    case Some(k) =>
      var l := WinLines[k];
      Win(b[l.a].player, l)
    case None =>
      if forall i :: 0 <= i < |b| ==> b[i] != Empty then Draw
      else InProgress(current)
  }

  /** Moves are accepted only while the game is in progress. */
  function CanPlay(b: Board, current: Player): (r: bool)
    ensures r <==> NoLine(b) && !IsFull(b)
  {
    Evaluate(b, current).InProgress?
  }

  /** Conversely, the first complete line in scan order is the one reported. */
  lemma EvaluateFirstWin(b: Board, current: Player, k: nat)
    requires k < |WinLines| && LineComplete(b, WinLines[k])
    requires forall j :: 0 <= j < k ==> !LineComplete(b, WinLines[j])
    ensures Evaluate(b, current) == Win(b[WinLines[k].a].player, WinLines[k])
  {
  }

  /** Whose turn it is never changes which status a board has, except for the player carried. */
  lemma EvaluateIgnoresTurnUnlessInProgress(b: Board, p: Player, q: Player)
    ensures Evaluate(b, p).InProgress? == Evaluate(b, q).InProgress?
    ensures !Evaluate(b, p).InProgress? ==> Evaluate(b, p) == Evaluate(b, q)
  {
  }

  /** X X X / O O _ / _ _ _ : the top row wins for X, whoever is to move. */
  lemma TopRowFixture(current: Player)
    ensures Evaluate([Mark(X), Mark(X), Mark(X), Mark(O), Mark(O), Empty, Empty, Empty, Empty], current)
            == Win(X, Line(0, 1, 2))
  {
  }

  /** X O X / X O O / O X X : full, no line, a draw. */
  lemma DrawFixture(current: Player)
    ensures Evaluate([Mark(X), Mark(O), Mark(X), Mark(X), Mark(O), Mark(O), Mark(O), Mark(X), Mark(X)], current)
            == Draw
  {
  }

  /** X O X / _ _ _ / _ _ _ : no line and an empty cell, so play goes on. */
  lemma OpenRowFixture(current: Player)
    ensures Evaluate([Mark(X), Mark(O), Mark(X), Empty, Empty, Empty, Empty, Empty, Empty], current)
            == InProgress(current)
  {
  }

  // Counting marks

  function CountOf(s: seq<Cell>, c: Cell): (n: nat)
    ensures n <= |s|
  {
    if s == [] then 0 else (if s[0] == c then 1 else 0) + CountOf(s[1..], c)
  }

  /** The number of non-empty cells. */
  function Filled(s: seq<Cell>): nat {
    CountOf(s, Mark(X)) + CountOf(s, Mark(O))
  }

  lemma {:induction false} CountOfUpdate(s: seq<Cell>, i: nat, v: Cell, c: Cell)
    requires i < |s|
    ensures CountOf(s[i := v], c) ==
            CountOf(s, c) - (if s[i] == c then 1 else 0) + (if v == c then 1 else 0)
  {
    if i == 0 {
      assert s[i := v][1..] == s[1..];
    } else {
      assert s[i := v][1..] == s[1..][i - 1 := v];
      CountOfUpdate(s[1..], i - 1, v, c);
    }
  }

  /** Empty and marked cells together make up the whole sequence. */
  lemma {:induction false} CountPartition(s: seq<Cell>)
    ensures CountOf(s, Empty) + Filled(s) == |s|
  {
    if s != [] {
      CountPartition(s[1..]);
      match s[0]
      case Empty =>
      case Mark(p) => assert p == X || p == O;
    }
  }

  lemma {:induction false} NoEmptyIffCountZero(s: seq<Cell>)
    ensures (forall i :: 0 <= i < |s| ==> s[i] != Empty) <==> CountOf(s, Empty) == 0
  {
    if s != [] {
      NoEmptyIffCountZero(s[1..]);
      assert forall i :: 1 <= i < |s| ==> s[i] == s[1..][i - 1];
    }
  }

  /** A board is full exactly when all nine cells are marked. */
  lemma FullIffNineFilled(b: Board)
    ensures IsFull(b) <==> Filled(b) == 9
  {
    CountPartition(b);
    NoEmptyIffCountZero(b);
  }

  /** Marking an empty cell adds one mark of that player and no other. */
  lemma MarkEmptyCell(b: Board, i: Index, p: Player)
    requires b[i] == Empty
    ensures CountOf(b[i := Mark(p)], Mark(p)) == CountOf(b, Mark(p)) + 1
    ensures CountOf(b[i := Mark(p)], Mark(Other(p))) == CountOf(b, Mark(Other(p)))
    ensures Filled(b[i := Mark(p)]) == Filled(b) + 1
  {
    CountOfUpdate(b, i, Mark(p), Mark(p));
    CountOfUpdate(b, i, Mark(p), Mark(Other(p)));
    CountOfUpdate(b, i, Mark(p), Mark(X));
    CountOfUpdate(b, i, Mark(p), Mark(O));
  }
}
