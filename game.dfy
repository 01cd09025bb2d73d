/** The server's `Game` class: one match between two connections.  The
    board is a 6 x 7 array updated in place; the ghost field `Cells`
    mirrors it as a value so that every method can be proved against the
    functions of module GameRules. */
module GameLogic {
  import opened Board
  import opened Protocol
  import opened GameRules

  class Game {
    const player1: Conn
    const player2: Conn
    const player1Name: string
    const player2Name: string
    const gameId: string
    const board: array2<Cell>
    var movesCount: nat

    ghost var Cells: Grid

    /** The whole state of this game as a value. */
    ghost function View(): GameView
      reads this
    {
      GameView(player1, player2, player1Name, player2Name, gameId, Cells, movesCount)
    }

    /** The array holds exactly the cells of the ghost board. */
    ghost predicate Mirrors()
      reads this, board
    {
      board.Length0 == Rows && board.Length1 == Cols &&
      IsGrid(Cells) &&
      forall r, c :: InRange(r, c) ==> board[r, c] == Cells[r][c]
    }

    /** The class invariant: the mirror, and the counter bounds of `Consistent`. */
    ghost predicate Valid()
      reads this, board
    {
      Mirrors() && Consistent(View())
    }

    /** A new match: empty board, counter 0, Player1 told it plays red and
        Player2 that it plays black.  The id, a random number in the
        source, is supplied by the caller. */
    constructor(net: Outbox, player1: Conn, player2: Conn, player1Name: string, player2Name: string, gameId: string)
      modifies net
      ensures Valid() && fresh(board)
      ensures View() == GameView(player1, player2, player1Name, player2Name, gameId, EmptyGrid(), 0)
      ensures net.log == old(net.log) + [Outgoing(player1, InitGame(Red, gameId)), Outgoing(player2, InitGame(Black, gameId))]
    {
      this.player1 := player1;
      this.player2 := player2;
      this.player1Name := player1Name;
      this.player2Name := player2Name;
      this.gameId := gameId;
      board := new Cell[Rows, Cols]((_, _) => Empty);
      Cells := EmptyGrid();
      movesCount := 0;
      new;
      net.Send(player1, InitGame(Red, gameId));
      net.Send(player2, InitGame(Black, gameId));
    }

    /** One `while` loop of `checkDirection`: starting at (r, c), push
        each cell that is on the board and holds `color`, stepping by
        (dr, dc); the negative loop is this one with (-dx, -dy). */
    method Extend(connectedCells: seq<Pos>, r0: int, c0: int, color: Cell, dr: int, dc: int) returns (cells: seq<Pos>)
      requires Mirrors() && IsDir(dr, dc)
      ensures cells == connectedCells + Walk(Cells, r0, c0, color, dr, dc)
    {
      cells := connectedCells;
      var r, c := r0, c0;
      while 0 <= r < Rows && 0 <= c < Cols && board[r, c] == color
        invariant cells + Walk(Cells, r, c, color, dr, dc) == connectedCells + Walk(Cells, r0, c0, color, dr, dc)
        decreases |Walk(Cells, r, c, color, dr, dc)|
      {
        WalkUnfold(Cells, r, c, color, dr, dc);
        assert (cells + [Pos(r, c)]) + Walk(Cells, r + dr, c + dc, color, dr, dc) ==
               cells + ([Pos(r, c)] + Walk(Cells, r + dr, c + dc, color, dr, dc));
        cells := cells + [Pos(r, c)];
        r := r + dr;
        c := c + dc;
      }
      WalkUnfold(Cells, r, c, color, dr, dc);
    }

    /** `checkDirection`: the origin, then the `color` cells reached by
        stepping along +(dx, dy), then those along -(dx, dy). */
    method CheckDirection(row: int, column: int, color: Cell, dx: int, dy: int) returns (connectedCells: seq<Pos>)
      requires Mirrors() && IsAxis(dx, dy)
      ensures connectedCells == DirectionRun(Cells, row, column, color, dx, dy)
    {
      connectedCells := [Pos(row, column)];
      connectedCells := Extend(connectedCells, row + dx, column + dy, color, dx, dy);
      connectedCells := Extend(connectedCells, row - dx, column - dy, color, -dx, -dy);
    }

    /** `checkWin`: the run of the first of the four directions whose run
        has at least four cells, or [] when none has. */
    method CheckWin(row: int, column: int, color: Cell) returns (winningCells: seq<Pos>)
      requires Mirrors()
      ensures winningCells == WinningRun(Cells, row, column, color)
    {
      var directions := [(0, 1), (1, 0), (1, 1), (1, -1)];
      for k := 0 to 4
        invariant WinningRun(Cells, row, column, color) == FirstWinFrom(Cells, row, column, color, k)
      {
        assert directions[k] == Direction(k);
        var (dx, dy) := directions[k];
        winningCells := CheckDirection(row, column, color, dx, dy);
        if |winningCells| >= 4 {
          return;
        }
      }
      return [];
    }

    /** `checkGameResult`: a win for the colour on (row, column) when
        `checkWin` finds a run, else a draw when the counter (not yet
        advanced for this move) is 41, else play goes on. */
    method CheckGameResult(row: int, column: int) returns (result: Outcome)
      requires Mirrors() && InRange(row, column)
      ensures result == Classify(Cells, movesCount, row, column)
    {
      var currentPlayer := board[row, column];
      var winningCells := CheckWin(row, column, currentPlayer);
      if |winningCells| > 0 {
        return Win(currentPlayer, winningCells);
      }
      if movesCount == 41 {
        return Draw;
      }
      return Continue;
    }

    /** The second half of `makeMove`, once the move is written and
        classified: tell the players about a win or a draw, or pass the
        move on to the opponent and advance the counter. */
    method Report(net: Outbox, sender: Conn, row: int, column: int, result: Outcome)
      modifies this, net
      ensures net.log == old(net.log) + Notices(old(View()), sender, row, column, result)
      ensures View() == old(View()).(movesCount := if result.Continue? then old(movesCount) + 1 else old(movesCount))
    {
      ghost var log0 := net.log;
      match result
      case Win(winnerColor, _) =>
        var loserSocket := if winnerColor == Red then player2 else player1;
        net.Send(loserSocket, MoveMsg(row, column, winnerColor));
        net.Send(loserSocket, GameOver(winnerColor, gameId));
        assert (log0 + [Outgoing(loserSocket, MoveMsg(row, column, winnerColor))]) + [Outgoing(loserSocket, GameOver(winnerColor, gameId))] ==
               log0 + [Outgoing(loserSocket, MoveMsg(row, column, winnerColor)), Outgoing(loserSocket, GameOver(winnerColor, gameId))];
        net.Send(sender, GameOver(winnerColor, gameId));
        assert (log0 + [Outgoing(loserSocket, MoveMsg(row, column, winnerColor)), Outgoing(loserSocket, GameOver(winnerColor, gameId))]) +
               [Outgoing(sender, GameOver(winnerColor, gameId))] ==
               log0 + [Outgoing(loserSocket, MoveMsg(row, column, winnerColor)), Outgoing(loserSocket, GameOver(winnerColor, gameId)),
                       Outgoing(sender, GameOver(winnerColor, gameId))];
      case Draw =>
        net.Send(player1, GameDraw(gameId));
        net.Send(player2, GameDraw(gameId));
        assert (log0 + [Outgoing(player1, GameDraw(gameId))]) + [Outgoing(player2, GameDraw(gameId))] ==
               log0 + [Outgoing(player1, GameDraw(gameId)), Outgoing(player2, GameDraw(gameId))];
      case Continue =>
        if movesCount % 2 == 0 {
          net.Send(player2, MoveMsg(row, column, Red));
        } else {
          net.Send(player1, MoveMsg(row, column, Black));
        }
        movesCount := movesCount + 1;
    }

    /** `makeMove`: drop the move unless it is the sender's turn and the
        target cell is on the board and empty; otherwise write the sender's
        colour, classify the board and report the result. */
    method MakeMove(net: Outbox, sender: Conn, row: int, column: int)
      requires Valid()
      modifies this, board, net
      ensures Valid()
      ensures View() == Step(old(View()), sender, row, column).0
      ensures net.log == old(net.log) + Step(old(View()), sender, row, column).1
    {
      ghost var v := View();
      StepKeepsConsistent(v, sender, row, column);
      if (movesCount % 2 == 0 && sender != player1) || (movesCount % 2 == 1 && sender != player2) {
        return;
      }
      // Off the board, `this.game[row]` is undefined: either indexing it
      // throws (caught, the move is dropped) or the cell is not "".
      if !InRange(row, column) || board[row, column] != Empty {
        return;
      }

      var mark := if sender == player1 then Red else Black;
      board[row, column] := mark;
      Cells := Place(Cells, row, column, mark);

      var result := CheckGameResult(row, column);
      Report(net, sender, row, column, result);
    }
  }
}
