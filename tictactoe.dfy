/** The tic-tac-toe rules of the game-enabled server: the `Game` record,
    `initializeGame`, `checkWinner`, `checkIsPositionUsed`, and what one
    move does to a game once the server has found it. */
module TicTacToe {
  import opened Bytes

  const Blank: byte := 0x20 // ' '
  const Cross: byte := 0x58 // 'X'
  const Nought: byte := 0x4F // 'O'

  const NotYourTurn: Bytes := Ascii("Not your turn")
  const InvalidPosition: Bytes := Ascii("Invalid position")
  const PositionOccupied: Bytes := Ascii("Position already occupied")

  /** `struct Game`. The board is the 9 cells, row by row. */
  datatype Game = Game(player1: Bytes, player2: Bytes, board: Bytes, currentPlayer: Bytes, active: bool)

  const BlankBoard: Bytes := [Blank, Blank, Blank, Blank, Blank, Blank, Blank, Blank, Blank]

  /** `initializeGame(game, p1, p2)`: an empty board, `p1` to move. */
  function InitializeGame(p1: Bytes, p2: Bytes): Game {
    Game(p1, p2, BlankBoard, p1, true)
  }

  /** The eight winning lines: three rows, three columns, two diagonals. */
  const Lines: seq<seq<nat>> := [[0, 1, 2], [3, 4, 5], [6, 7, 8],
                                 [0, 3, 6], [1, 4, 7], [2, 5, 8],
                                 [0, 4, 8], [2, 4, 6]]

  /** Line `k` holds `p` in all three cells. */
  predicate Complete(board: Bytes, p: byte, k: nat)
    requires |board| == 9 && k < 8
  {
    board[Lines[k][0]] == p && board[Lines[k][1]] == p && board[Lines[k][2]] == p
  }

  /** Some line is all `p`. */
  predicate HasLine(board: Bytes, p: byte)
    requires |board| == 9
  {
    exists k | 0 <= k < 8 :: Complete(board, p, k)
  }

  /** No cell is free. */
  predicate IsFull(board: Bytes) {
    Blank !in board
  }

  /** `checkWinner(board, player)`: the rows, then the columns, then the two
      diagonals. True exactly when one of the eight lines is all `player`. */
  method CheckWinner(board: Bytes, player: byte) returns (won: bool)
    requires |board| == 9
    ensures won <==> HasLine(board, player)
  {
    var i := 0;
    while i < 3
      invariant 0 <= i <= 3
      invariant forall k | 0 <= k < i :: !Complete(board, player, k)
    {
      if board[i * 3] == player && board[i * 3 + 1] == player && board[i * 3 + 2] == player {
        assert Complete(board, player, i);
        return true;
      }
      i := i + 1;
    }
    i := 0;
    while i < 3
      invariant 0 <= i <= 3
      invariant forall k | 0 <= k < 3 + i :: !Complete(board, player, k)
    {
      if board[i] == player && board[i + 3] == player && board[i + 6] == player {
        assert Complete(board, player, 3 + i);
        return true;
      }
      i := i + 1;
    }
    if board[0] == player && board[4] == player && board[8] == player {
      assert Complete(board, player, 6);
      return true;
    }
    if board[2] == player && board[4] == player && board[6] == player {
      assert Complete(board, player, 7);
      return true;
    }
    return false;
  }

  /** `checkIsPositionUsed(board)`: true exactly when no cell is free. */
  method CheckIsPositionUsed(board: Bytes) returns (full: bool)
    ensures full <==> IsFull(board)
  {
    var i := 0;
    while i < |board|
      invariant 0 <= i <= |board|
      invariant Blank !in board[..i]
    {
      if board[i] == Blank {
        return false;
      }
      assert board[..i + 1] == board[..i] + [board[i]];
      i := i + 1;
    }
    assert board[..|board|] == board;
    return true;
  }

  /** The mark a player writes: 'X' for `player1`, 'O' otherwise. */
  function MarkOf(g: Game, mover: Bytes): byte {
    if mover == g.player1 then Cross else Nought
  }

  /** The other player of the game. */
  function Opponent(g: Game, mover: Bytes): Bytes {
    if g.player1 == mover then g.player2 else g.player1
  }

  /** What a move does to a game the server found for the mover. */
  datatype Outcome =
    | Rejected(reason: Bytes)   // an error frame to the mover; the game is unchanged
    | Won(board: Bytes)         // the mover completed a line; the game is erased
    | Drawn(board: Bytes)       // the board filled up; the game is erased
    | Continued(next: Game)     // the game goes on with the turn passed

  /** The checks and the update of the 'P' handler once the game is found:
      turn, then range, then a free cell; then the mark, then a win, then a
      full board. */
  function Play(g: Game, mover: Bytes, position: nat): Outcome
    requires |g.board| == 9
  {
    if g.currentPlayer != mover then Rejected(NotYourTurn)
    else if position >= 9 then Rejected(InvalidPosition)
    else if g.board[position] != Blank then Rejected(PositionOccupied)
    else
      var mark := MarkOf(g, mover);
      var board := g.board[position := mark];
      if HasLine(board, mark) then Won(board)
      else if IsFull(board) then Drawn(board)
      else Continued(g.(board := board, currentPlayer := Opponent(g, mover)))
  }

  /** The board a move leaves behind, whatever became of the game. */
  function BoardAfter(o: Outcome): Bytes
    requires !o.Rejected?
  {
    match o
    case Won(b) => b
    case Drawn(b) => b
    case Continued(g) => g.board
  }

  /** How many cells hold `c`. */
  function Count(board: Bytes, c: byte): nat {
    multiset(board)[c]
  }

  /** The marks on the board match whose turn it is: with two different
      players, 'X' (player1, who moves first) has made as many moves as 'O'
      when it is player1's turn and one more otherwise; a game against
      oneself only ever writes 'X'. */
  predicate Balanced(g: Game) {
    if g.player1 == g.player2 then Count(g.board, Nought) == 0
    else
      && (g.currentPlayer == g.player1 ==> Count(g.board, Cross) == Count(g.board, Nought))
      && (g.currentPlayer == g.player2 ==> Count(g.board, Cross) == Count(g.board, Nought) + 1)
  }

  /** A stored game: a 9-cell board of ' ', 'X' and 'O' with no completed
      line, a free cell, one of the two players to move, marks that match
      the turn, and the active flag set. */
  predicate InProgress(g: Game) {
    && |g.board| == 9
    && (forall i | 0 <= i < 9 :: g.board[i] in {Blank, Cross, Nought})
    && !HasLine(g.board, Cross) && !HasLine(g.board, Nought)
    && !IsFull(g.board)
    && (g.currentPlayer == g.player1 || g.currentPlayer == g.player2)
    && Balanced(g)
    && g.active
  }

  /** A fresh game is in progress, with the first player to move. */
  lemma InitializeGameInProgress(p1: Bytes, p2: Bytes)
    ensures InProgress(InitializeGame(p1, p2))
    ensures InitializeGame(p1, p2).currentPlayer == p1
    ensures forall i | 0 <= i < 9 :: InitializeGame(p1, p2).board[i] == Blank
  {
    var g := InitializeGame(p1, p2);
    BlankBoardIsEmpty();
    assert g.board[0] == Blank;
    forall k | 0 <= k < 8 ensures !Complete(g.board, Cross, k) && !Complete(g.board, Nought, k) {
      assert g.board[Lines[k][0]] == Blank;
    }
  }

  /** Every cell of the fresh board is ' ', so it holds no mark. */
  lemma BlankBoardIsEmpty()
    ensures forall i | 0 <= i < 9 :: BlankBoard[i] == Blank
    ensures Count(BlankBoard, Cross) == 0 && Count(BlankBoard, Nought) == 0
  {
    assert Cross !in BlankBoard && Nought !in BlankBoard;
  }

  /** The rejections come in the handler's order, and each leaves the
      game as it was. */
  lemma PlayRejections(g: Game, mover: Bytes, position: nat)
    requires |g.board| == 9
    ensures Play(g, mover, position) == Rejected(NotYourTurn) <==> g.currentPlayer != mover
    ensures Play(g, mover, position) == Rejected(InvalidPosition)
        <==> g.currentPlayer == mover && position >= 9
    ensures Play(g, mover, position) == Rejected(PositionOccupied)
        <==> g.currentPlayer == mover && position < 9 && g.board[position] != Blank
    ensures Play(g, mover, position).Rejected?
        <==> g.currentPlayer != mover || position >= 9 || g.board[position] != Blank
  {
    assert |NotYourTurn| == 13 && |InvalidPosition| == 16 && |PositionOccupied| == 25;
  }

  /** An accepted move writes the mover's mark into one cell that was free,
      and into no other cell: one free cell fewer. */
  lemma PlayWritesOneCell(g: Game, mover: Bytes, position: nat)
    requires |g.board| == 9
    requires !Play(g, mover, position).Rejected?
    ensures g.currentPlayer == mover && position < 9 && g.board[position] == Blank
    ensures |BoardAfter(Play(g, mover, position))| == 9
    ensures BoardAfter(Play(g, mover, position))[position] == MarkOf(g, mover)
    ensures forall j | 0 <= j < 9 && j != position :: BoardAfter(Play(g, mover, position))[j] == g.board[j]
    ensures Count(BoardAfter(Play(g, mover, position)), Blank) + 1 == Count(g.board, Blank)
  {
    var b := g.board[position := MarkOf(g, mover)];
    assert BoardAfter(Play(g, mover, position)) == b;
    assert multiset(b) == multiset(g.board) - multiset{Blank} + multiset{MarkOf(g, mover)};
    assert Blank in multiset(g.board) by { assert g.board[position] == Blank; }
  }

  /** Writing `mark` into a free cell cannot complete a line of any other
      mark. */
  lemma NoNewLineForOther(board: Bytes, position: nat, mark: byte, other: byte)
    requires |board| == 9 && position < 9 && mark != other
    requires !HasLine(board, other)
    ensures !HasLine(board[position := mark], other)
  {
    var b := board[position := mark];
    forall k | 0 <= k < 8 ensures !Complete(b, other, k) {
      assert !Complete(board, other, k);
    }
  }

  /** A move that completes no line and leaves a free cell keeps the game in
      progress and passes the turn to the other player. */
  lemma PlayPreservesInProgress(g: Game, mover: Bytes, position: nat)
    requires InProgress(g)
    requires Play(g, mover, position).Continued?
    ensures InProgress(Play(g, mover, position).next)
    ensures Play(g, mover, position).next.currentPlayer == Opponent(g, mover)
    ensures Play(g, mover, position).next.player1 == g.player1
    ensures Play(g, mover, position).next.player2 == g.player2
  {
    var mark := MarkOf(g, mover);
    var other := if mark == Cross then Nought else Cross;
    var b := g.board[position := mark];
    var g' := Play(g, mover, position).next;
    assert g' == g.(board := b, currentPlayer := Opponent(g, mover));
    NoNewLineForOther(g.board, position, mark, other);
    assert !HasLine(b, Cross) && !HasLine(b, Nought);
    MarkKeepsBalance(g, mover, position);
    MarkKeepsCells(g.board, position, mark, b);
  }

  /** Marking a free cell and passing the turn keeps the marks matched to
      the turn. */
  lemma MarkKeepsBalance(g: Game, mover: Bytes, position: nat)
    requires InProgress(g) && g.currentPlayer == mover && position < 9 && g.board[position] == Blank
    ensures Balanced(g.(board := g.board[position := MarkOf(g, mover)], currentPlayer := Opponent(g, mover)))
  {
    var mark := MarkOf(g, mover);
    assert multiset(g.board[position := mark]) == multiset(g.board) - multiset{Blank} + multiset{mark};
  }

  /** Writing a mark keeps every cell one of ' ', 'X' and 'O'. */
  lemma MarkKeepsCells(board: Bytes, position: nat, mark: byte, b: Bytes)
    requires |board| == 9 && position < 9 && (mark == Cross || mark == Nought)
    requires forall i | 0 <= i < 9 :: board[i] in {Blank, Cross, Nought}
    requires b == board[position := mark]
    ensures forall i | 0 <= i < 9 :: b[i] in {Blank, Cross, Nought}
  {
    forall i | 0 <= i < 9 ensures b[i] in {Blank, Cross, Nought} {
      if i != position {
        assert b[i] == board[i];
      }
    }
  }

  /** A winning move completes a line of the mover's mark, and only of it. */
  lemma WinIsTheMoversLine(g: Game, mover: Bytes, position: nat)
    requires InProgress(g)
    requires Play(g, mover, position).Won?
    ensures HasLine(Play(g, mover, position).board, MarkOf(g, mover))
    ensures !HasLine(Play(g, mover, position).board, if MarkOf(g, mover) == Cross then Nought else Cross)
  {
    var mark := MarkOf(g, mover);
    var other := if mark == Cross then Nought else Cross;
    NoNewLineForOther(g.board, position, mark, other);
  }

  /** A draw is a full board with no completed line. */
  lemma DrawIsFullWithoutLine(g: Game, mover: Bytes, position: nat)
    requires InProgress(g)
    requires Play(g, mover, position).Drawn?
    ensures IsFull(Play(g, mover, position).board)
    ensures !HasLine(Play(g, mover, position).board, Cross)
    ensures !HasLine(Play(g, mover, position).board, Nought)
  {
    var mark := MarkOf(g, mover);
    var other := if mark == Cross then Nought else Cross;
    NoNewLineForOther(g.board, position, mark, other);
  }
}
