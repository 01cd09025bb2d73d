/** The client's `App` component, reduced to what decides a move: the click
    handler, which is the only place where stones "fall" to the lowest
    empty row of a column, and the MOVE case of the message handler, which
    copies the opponent's move onto the local board.  React state is a
    `ClientState` value; a handler returns the state after its setters
    have run and the frame it sent, if any. */
module ClientApp {
  import opened Board
  import opened Protocol
  import opened GameRules

  /** The component state the two handlers read and write.  `myColor` and
      `winner` are null or a colour string in the source. */
  datatype ClientState = ClientState(
    game: Grid,
    movesCount: nat,
    myColor: Option<Cell>,
    winner: Option<Cell>,
    isDraw: bool)

  /** JavaScript truthiness of `winner`: set, and not the empty string. */
  predicate HasWinner(st: ClientState) {
    st.winner.Some? && st.winner.value != Empty
  }

  /** A click is ignored once someone has won, on a draw, or after 42 moves. */
  predicate Ended(st: ClientState) {
    HasWinner(st) || st.isDraw || st.movesCount == 42
  }

  /** Red moves on an even count, black on an odd one. */
  predicate MyTurn(st: ClientState) {
    (st.movesCount % 2 == 0 && st.myColor == Some(Red)) ||
    (st.movesCount % 2 == 1 && st.myColor == Some(Black))
  }

  /** `game[r][column] === ""`; a column off the board reads `undefined`. */
  predicate EmptyAt(g: Grid, r: int, column: int)
    requires IsGrid(g) && 0 <= r < Rows
  {
    0 <= column < Cols && g[r][column] == Empty
  }

  /** The largest row at or above `r` whose cell in `column` is empty, or -1. */
  function LowestEmptyFrom(g: Grid, column: int, r: int): (t: int)
    requires IsGrid(g) && -1 <= r < Rows
    ensures -1 <= t <= r
    ensures t == -1 <==> forall i :: 0 <= i <= r ==> !EmptyAt(g, i, column)
    ensures t != -1 ==> EmptyAt(g, t, column) && forall i :: t < i <= r ==> !EmptyAt(g, i, column)
    decreases r + 1
  {
    if r == -1 then -1
    else if EmptyAt(g, r, column) then r
    else LowestEmptyFrom(g, column, r - 1)
  }

  /** Where a stone dropped into `column` comes to rest: the lowest empty
      row, or -1 when the column is full or off the board. */
  function TargetRow(g: Grid, column: int): int
    requires IsGrid(g)
  {
    LowestEmptyFrom(g, column, Rows - 1)
  }

  /** What one click on `column` does: the new state and the MOVE frame
      sent, if any. */
  function Click(st: ClientState, column: int): (ClientState, Option<Request>)
    requires IsGrid(st.game)
  {
    if Ended(st) || !MyTurn(st) then (st, None)
    else
      var targetRow := TargetRow(st.game, column);
      if targetRow == -1 then (st, None)
      else
        (st.(game := Place(st.game, targetRow, column, st.myColor.value), movesCount := st.movesCount + 1),
         Some(MoveRequest(targetRow, column)))
  }

  /** A click sends a move exactly when the game is on, it is this
      player's turn and the column has an empty cell; otherwise nothing
      changes. */
  lemma ClickGate(st: ClientState, column: int)
    requires IsGrid(st.game)
    ensures Click(st, column).1.None? <==>
      Ended(st) || !MyTurn(st) || forall r :: 0 <= r < Rows ==> !EmptyAt(st.game, r, column)
    ensures Click(st, column).1.None? ==> Click(st, column).0 == st
  {
  }

  /** A sent move names the clicked column and its lowest empty row; the
      local board gains exactly that stone in this player's colour and the
      counter goes up by one. */
  lemma ClickDrops(st: ClientState, column: int)
    requires IsGrid(st.game) && Click(st, column).1.Some?
    ensures Click(st, column).1.value.MoveRequest?
    ensures Click(st, column).1.value.column == column
    ensures var r := Click(st, column).1.value.row;
      InRange(r, column) && st.game[r][column] == Empty &&
      (forall i :: r < i < Rows ==> st.game[i][column] != Empty) &&
      Click(st, column).0 == st.(game := Place(st.game, r, column, st.myColor.value), movesCount := st.movesCount + 1)
    ensures st.myColor.value != Empty
  {
    var r := TargetRow(st.game, column);
    assert Click(st, column).1.value.row == r && EmptyAt(st.game, r, column);
    forall i | r < i < Rows
      ensures st.game[i][column] != Empty
    {
      assert !EmptyAt(st.game, i, column);
    }
  }

  /** `handleClick({ column })`: the gates, then the downward search for
      the target row, then the local update and the MOVE frame. */
  method HandleClick(st: ClientState, column: int) returns (next: ClientState, sent: Option<Request>)
    requires IsGrid(st.game)
    ensures (next, sent) == Click(st, column)
  {
    if HasWinner(st) || st.isDraw || st.movesCount == 42 {
      return st, None;
    }
    if (st.movesCount % 2 == 0 && st.myColor != Some(Red)) || (st.movesCount % 2 == 1 && st.myColor != Some(Black)) {
      return st, None;
    }
    var targetRow := -1;
    var r := |st.game| - 1;
    while r >= 0
      invariant -1 <= r < Rows
      invariant TargetRow(st.game, column) == LowestEmptyFrom(st.game, column, r)
      decreases r
    {
      if 0 <= column < Cols && st.game[r][column] == Empty {
        targetRow := r;
        break;
      }
      r := r - 1;
    }
    if targetRow == -1 {
      return st, None;
    }
    next := st.(game := Place(st.game, targetRow, column, st.myColor.value), movesCount := st.movesCount + 1);
    sent := Some(MoveRequest(targetRow, column));
  }

  /** The MOVE case of `onmessage`: a copy of the board with the one cell
      of the move set to its colour, and the counter advanced. */
  function ApplyMove(st: ClientState, row: int, column: int, color: Cell): (next: ClientState)
    requires IsGrid(st.game) && InRange(row, column)
    ensures IsGrid(next.game) && next.game[row][column] == color
    ensures forall r, c :: InRange(r, c) && (r != row || c != column) ==> next.game[r][c] == st.game[r][c]
    ensures next.movesCount == st.movesCount + 1
    ensures next.myColor == st.myColor && next.winner == st.winner && next.isDraw == st.isDraw
  {
    st.(game := Place(st.game, row, column, color), movesCount := st.movesCount + 1)
  }

  /** A player whose board and counter agree with the server's game, and
      whose colour is the one the server gives it, only ever sends moves
      the server accepts, and its local update is the server's board
      after the move. */
  lemma ClickAccepted(v: GameView, me: Conn, st: ClientState, column: int)
    requires IsGrid(v.cells) && v.player1 != v.player2 && (me == v.player1 || me == v.player2)
    requires st.game == v.cells && st.movesCount == v.movesCount && st.myColor == Some(Mark(v, me))
    requires Click(st, column).1.Some?
    ensures Accepts(v, me, Click(st, column).1.value.row, column)
    ensures Step(v, me, Click(st, column).1.value.row, column).0.cells == Click(st, column).0.game
  {
    ClickDrops(st, column);
  }

  /** When an accepted move does not end the game, the one frame the
      server sends is a MOVE that brings the opponent's board and counter,
      if they agreed with the server before, to the server's new ones. */
  lemma EchoSyncs(v: GameView, sender: Conn, row: int, column: int, opp: ClientState)
    requires IsGrid(v.cells) && v.player1 != v.player2 && Accepts(v, sender, row, column)
    requires Classify(Place(v.cells, row, column, Mark(v, sender)), v.movesCount, row, column).Continue?
    requires opp.game == v.cells && opp.movesCount == v.movesCount
    ensures |Step(v, sender, row, column).1| == 1
    ensures Step(v, sender, row, column).1[0].msg.MoveMsg?
    ensures var m := Step(v, sender, row, column).1[0].msg;
      m.row == row && m.column == column &&
      ApplyMove(opp, row, column, m.color).game == Step(v, sender, row, column).0.cells &&
      ApplyMove(opp, row, column, m.color).movesCount == Step(v, sender, row, column).0.movesCount
  {
  }
}
