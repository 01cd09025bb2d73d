/** The rules that the server's `Game` class applies, stated on values:
    the direction walks of `checkDirection`, the first-direction-wins scan
    of `checkWin`, the classification of `checkGameResult`, and the whole
    effect of one `makeMove` call on a game's state (`Step`).  The class in
    module GameLogic is proved to do exactly what these functions say. */
module GameRules {
  import opened Board
  import opened Protocol

  /** A unit step (dr, dc) other than (0, 0); `checkDirection` loops forever on (0, 0). */
  predicate IsDir(dr: int, dc: int) {
    -1 <= dr <= 1 && -1 <= dc <= 1 && (dr != 0 || dc != 0)
  }

  /** One of the four directions `checkWin` passes to `checkDirection`. */
  predicate IsAxis(dr: int, dc: int) {
    (dr == 0 && dc == 1) || (dr == 1 && dc == 0) || (dr == 1 && dc == 1) || (dr == 1 && dc == -1)
  }

  /** The four directions of `checkWin`, in its order: horizontal,
      vertical, diagonal down-right, diagonal down-left. */
  function Direction(k: int): (d: (int, int))
    requires 0 <= k < 4
    ensures IsAxis(d.0, d.1) && IsDir(d.0, d.1)
  {
    if k == 0 then (0, 1) else if k == 1 then (1, 0) else if k == 2 then (1, 1) else (1, -1)
  }

  /** `x + k * d` for a unit step `d`, written without multiplication. */
  function Shift(x: int, k: int, d: int): int {
    if d == 0 then x else if d > 0 then x + k else x - k
  }

  lemma ShiftNext(x: int, k: int, d: int)
    requires -1 <= d <= 1
    ensures Shift(x + d, k, d) == Shift(x, k + 1, d)
  {
  }

  /** The cell (r, c) is on the board and holds `color`. */
  predicate Stone(g: Grid, r: int, c: int, color: Cell)
    requires IsGrid(g)
  {
    InRange(r, c) && g[r][c] == color
  }

  /** How many more steps along (dr, dc) can stay on the board. */
  function Headroom(r: int, c: int, dr: int, dc: int): int {
    (if dr > 0 then Rows - r else if dr < 0 then r + 1 else 0) +
    (if dc > 0 then Cols - c else if dc < 0 then c + 1 else 0)
  }

  /** The cells one `while` loop of `checkDirection` pushes: from (r, c),
      step by (dr, dc) for as long as the cell is on the board and holds `color`. */
  function Walk(g: Grid, r: int, c: int, color: Cell, dr: int, dc: int): seq<Pos>
    requires IsGrid(g) && IsDir(dr, dc)
    decreases Headroom(r, c, dr, dc)
  {
    if Stone(g, r, c, color) then [Pos(r, c)] + Walk(g, r + dr, c + dc, color, dr, dc) else []
  }

  /** One iteration of a `checkDirection` loop: a `color` cell is pushed
      and the walk goes on from the next cell; any other cell ends it. */
  lemma WalkUnfold(g: Grid, r: int, c: int, color: Cell, dr: int, dc: int)
    requires IsGrid(g) && IsDir(dr, dc)
    ensures Stone(g, r, c, color) ==> Walk(g, r, c, color, dr, dc) == [Pos(r, c)] + Walk(g, r + dr, c + dc, color, dr, dc)
    ensures !Stone(g, r, c, color) ==> Walk(g, r, c, color, dr, dc) == []
  {
  }

  /** Every cell of a walk is on the board and holds `color`. */
  lemma {:induction false} WalkStones(g: Grid, r: int, c: int, color: Cell, dr: int, dc: int)
    requires IsGrid(g) && IsDir(dr, dc)
    decreases Headroom(r, c, dr, dc)
    ensures forall i :: 0 <= i < |Walk(g, r, c, color, dr, dc)| ==>
      Stone(g, Walk(g, r, c, color, dr, dc)[i].row, Walk(g, r, c, color, dr, dc)[i].column, color)
  {
    if Stone(g, r, c, color) {
      WalkStones(g, r + dr, c + dc, color, dr, dc);
      var w := Walk(g, r, c, color, dr, dc);
      var rest := Walk(g, r + dr, c + dc, color, dr, dc);
      assert w == [Pos(r, c)] + rest;
      forall i | 1 <= i < |w|
        ensures Stone(g, w[i].row, w[i].column, color)
      {
        assert w[i] == rest[i - 1];
      }
    }
  }

  /** The i-th cell of a walk is i steps from (r, c). */
  lemma {:induction false} WalkCells(g: Grid, r: int, c: int, color: Cell, dr: int, dc: int)
    requires IsGrid(g) && IsDir(dr, dc)
    decreases Headroom(r, c, dr, dc)
    ensures forall i :: 0 <= i < |Walk(g, r, c, color, dr, dc)| ==>
      Walk(g, r, c, color, dr, dc)[i] == Pos(Shift(r, i, dr), Shift(c, i, dc))
  {
    if Stone(g, r, c, color) {
      WalkCells(g, r + dr, c + dc, color, dr, dc);
      var w := Walk(g, r, c, color, dr, dc);
      var rest := Walk(g, r + dr, c + dc, color, dr, dc);
      assert w == [Pos(r, c)] + rest;
      forall i | 1 <= i < |w|
        ensures w[i] == Pos(Shift(r, i, dr), Shift(c, i, dc))
      {
        ShiftNext(r, i - 1, dr);
        ShiftNext(c, i - 1, dc);
        assert w[i] == rest[i - 1];
      }
    }
  }

  /** A walk is maximal: the cell one step past its end is off the board or
      does not hold `color`. */
  lemma {:induction false} WalkEnd(g: Grid, r: int, c: int, color: Cell, dr: int, dc: int)
    requires IsGrid(g) && IsDir(dr, dc)
    decreases Headroom(r, c, dr, dc)
    ensures !Stone(g, Shift(r, |Walk(g, r, c, color, dr, dc)|, dr),
                      Shift(c, |Walk(g, r, c, color, dr, dc)|, dc), color)
  {
    if Stone(g, r, c, color) {
      WalkEnd(g, r + dr, c + dc, color, dr, dc);
      var n := |Walk(g, r + dr, c + dc, color, dr, dc)|;
      assert |Walk(g, r, c, color, dr, dc)| == n + 1;
      ShiftNext(r, n, dr);
      ShiftNext(c, n, dc);
    }
  }

  /** The positive-direction loop of `checkDirection`. */
  function Forward(g: Grid, row: int, column: int, color: Cell, dr: int, dc: int): seq<Pos>
    requires IsGrid(g) && IsDir(dr, dc)
  {
    Walk(g, row + dr, column + dc, color, dr, dc)
  }

  /** The negative-direction loop of `checkDirection`. */
  function Backward(g: Grid, row: int, column: int, color: Cell, dr: int, dc: int): seq<Pos>
    requires IsGrid(g) && IsDir(dr, dc)
  {
    Walk(g, row - dr, column - dc, color, -dr, -dc)
  }

  /** `checkDirection(row, column, color, dr, dc)`: the origin, then the
      positive walk, then the negative walk. */
  function DirectionRun(g: Grid, row: int, column: int, color: Cell, dr: int, dc: int): seq<Pos>
    requires IsGrid(g) && IsAxis(dr, dc)
  {
    [Pos(row, column)] + Forward(g, row, column, color, dr, dc) + Backward(g, row, column, color, dr, dc)
  }

  /** The run of `checkDirection` starts at the origin, and the next cells,
      as many as the positive walk has, are 1, 2, ... steps along +(dr, dc). */
  lemma DirectionRunForward(g: Grid, row: int, column: int, color: Cell, dr: int, dc: int)
    requires IsGrid(g) && IsAxis(dr, dc)
    ensures DirectionRun(g, row, column, color, dr, dc)[0] == Pos(row, column)
    ensures forall i :: 1 <= i <= |Forward(g, row, column, color, dr, dc)| ==>
      DirectionRun(g, row, column, color, dr, dc)[i] == Pos(Shift(row, i, dr), Shift(column, i, dc))
  {
    var fwd := Forward(g, row, column, color, dr, dc);
    WalkCells(g, row + dr, column + dc, color, dr, dc);
    var run := DirectionRun(g, row, column, color, dr, dc);
    forall i | 1 <= i <= |fwd|
      ensures run[i] == Pos(Shift(row, i, dr), Shift(column, i, dc))
    {
      ShiftNext(row, i - 1, dr);
      ShiftNext(column, i - 1, dc);
      assert run[i] == fwd[i - 1];
    }
  }

  /** After the positive walk, the remaining cells of the run are 1, 2, ...
      steps along -(dr, dc): positive-direction cells come first and each
      side is contiguous from the origin. */
  lemma DirectionRunBackward(g: Grid, row: int, column: int, color: Cell, dr: int, dc: int)
    requires IsGrid(g) && IsAxis(dr, dc)
    ensures forall i :: |Forward(g, row, column, color, dr, dc)| < i < |DirectionRun(g, row, column, color, dr, dc)| ==>
      DirectionRun(g, row, column, color, dr, dc)[i] ==
        Pos(Shift(row, i - |Forward(g, row, column, color, dr, dc)|, -dr),
            Shift(column, i - |Forward(g, row, column, color, dr, dc)|, -dc))
  {
    var n := |Forward(g, row, column, color, dr, dc)|;
    var bwd := Backward(g, row, column, color, dr, dc);
    WalkCells(g, row - dr, column - dc, color, -dr, -dc);
    var run := DirectionRun(g, row, column, color, dr, dc);
    forall i | n < i < |run|
      ensures run[i] == Pos(Shift(row, i - n, -dr), Shift(column, i - n, -dc))
    {
      var j := i - n - 1;
      ShiftNext(row, j, -dr);
      ShiftNext(column, j, -dc);
      assert run[i] == bwd[j];
    }
  }

  /** Every cell of the run after the origin is on the board and holds `color`. */
  lemma DirectionRunCells(g: Grid, row: int, column: int, color: Cell, dr: int, dc: int)
    requires IsGrid(g) && IsAxis(dr, dc)
    ensures forall i :: 1 <= i < |DirectionRun(g, row, column, color, dr, dc)| ==>
      Stone(g, DirectionRun(g, row, column, color, dr, dc)[i].row,
               DirectionRun(g, row, column, color, dr, dc)[i].column, color)
  {
    var fwd := Forward(g, row, column, color, dr, dc);
    var bwd := Backward(g, row, column, color, dr, dc);
    WalkStones(g, row + dr, column + dc, color, dr, dc);
    WalkStones(g, row - dr, column - dc, color, -dr, -dc);
    var run := DirectionRun(g, row, column, color, dr, dc);
    forall i | 1 <= i < |run|
      ensures Stone(g, run[i].row, run[i].column, color)
    {
      if i <= |fwd| {
        assert run[i] == fwd[i - 1];
      } else {
        assert run[i] == bwd[i - |fwd| - 1];
      }
    }
  }

  /** Neither side of the run can be extended by one more step: the cell
      just past the positive end is off the board or does not hold `color`... */
  lemma ForwardEnd(g: Grid, row: int, column: int, color: Cell, dr: int, dc: int)
    requires IsGrid(g) && IsAxis(dr, dc)
    ensures !Stone(g, Shift(row, |Forward(g, row, column, color, dr, dc)| + 1, dr),
                      Shift(column, |Forward(g, row, column, color, dr, dc)| + 1, dc), color)
  {
    var n := |Forward(g, row, column, color, dr, dc)|;
    WalkEnd(g, row + dr, column + dc, color, dr, dc);
    ShiftNext(row, n, dr);
    ShiftNext(column, n, dc);
  }

  /** ... and so is the cell just past the negative end. */
  lemma BackwardEnd(g: Grid, row: int, column: int, color: Cell, dr: int, dc: int)
    requires IsGrid(g) && IsAxis(dr, dc)
    ensures !Stone(g, Shift(row, |Backward(g, row, column, color, dr, dc)| + 1, -dr),
                      Shift(column, |Backward(g, row, column, color, dr, dc)| + 1, -dc), color)
  {
    var m := |Backward(g, row, column, color, dr, dc)|;
    WalkEnd(g, row - dr, column - dc, color, -dr, -dc);
    ShiftNext(row, m, -dr);
    ShiftNext(column, m, -dc);
  }

  /** The run `checkDirection` returns for the k-th direction of `checkWin`. */
  function RunAlong(g: Grid, row: int, column: int, color: Cell, k: int): seq<Pos>
    requires IsGrid(g) && 0 <= k < 4
  {
    DirectionRun(g, row, column, color, Direction(k).0, Direction(k).1)
  }

  /** The loop of `checkWin` from direction k on: the run of the first
      direction whose run has at least four cells, or [] if there is none. */
  function FirstWinFrom(g: Grid, row: int, column: int, color: Cell, k: int): (cells: seq<Pos>)
    requires IsGrid(g) && 0 <= k <= 4
    decreases 4 - k
    ensures cells == [] <==> forall j :: k <= j < 4 ==> |RunAlong(g, row, column, color, j)| < 4
    ensures cells != [] ==>
      exists j :: k <= j < 4 && cells == RunAlong(g, row, column, color, j) && |cells| >= 4 &&
        forall i :: k <= i < j ==> |RunAlong(g, row, column, color, i)| < 4
  {
    if k == 4 then []
    else
      var run := RunAlong(g, row, column, color, k);
      if |run| >= 4 then run else FirstWinFrom(g, row, column, color, k + 1)
  }

  /** `checkWin(row, column, color)`. */
  function WinningRun(g: Grid, row: int, column: int, color: Cell): seq<Pos>
    requires IsGrid(g)
  {
    FirstWinFrom(g, row, column, color, 0)
  }

  /** If four consecutive cells t = lo .. lo+3 along (dr, dc) hold `color`,
      t = 0 being the origin, the two walks of `checkDirection` cover them. */
  lemma RunCoversLine(g: Grid, row: int, column: int, color: Cell, dr: int, dc: int, lo: int)
    requires IsGrid(g) && IsAxis(dr, dc) && -3 <= lo <= 0
    requires forall t :: lo <= t < lo + 4 ==> Stone(g, Shift(row, t, dr), Shift(column, t, dc), color)
    ensures |Forward(g, row, column, color, dr, dc)| >= lo + 3
    ensures |Backward(g, row, column, color, dr, dc)| >= -lo
  {
    var m := |Backward(g, row, column, color, dr, dc)|;
    ForwardEnd(g, row, column, color, dr, dc);
    BackwardEnd(g, row, column, color, dr, dc);
    assert Shift(row, m + 1, -dr) == Shift(row, -(m + 1), dr);
    assert Shift(column, m + 1, -dc) == Shift(column, -(m + 1), dc);
  }

  /** Four consecutive `color` cells along one of the four directions,
      among them the origin, always make `checkWin` report a win. */
  lemma FourInLineWins(g: Grid, row: int, column: int, color: Cell, k: int, lo: int)
    requires IsGrid(g) && 0 <= k < 4 && -3 <= lo <= 0
    requires forall t :: lo <= t < lo + 4 ==>
      Stone(g, Shift(row, t, Direction(k).0), Shift(column, t, Direction(k).1), color)
    ensures |WinningRun(g, row, column, color)| >= 4
  {
    RunCoversLine(g, row, column, color, Direction(k).0, Direction(k).1, lo);
    assert |RunAlong(g, row, column, color, k)| >= 4;
  }

  /** The directions `checkWin` scans are exactly the four axes. */
  lemma ScannedAxes(dr: int, dc: int)
    ensures IsAxis(dr, dc) <==> exists k :: 0 <= k < 4 && Direction(k) == (dr, dc)
  {
    if IsAxis(dr, dc) {
      var k := if dr == 0 then 0 else if dc == 0 then 1 else if dc == 1 then 2 else 3;
      assert Direction(k) == (dr, dc);
    }
  }

  /** Four consecutive `color` cells through the origin along any axis make
      `checkWin` report a win. */
  lemma FourOnAxisWins(g: Grid, row: int, column: int, color: Cell, dr: int, dc: int, lo: int)
    requires IsGrid(g) && IsAxis(dr, dc) && -3 <= lo <= 0
    requires forall t :: lo <= t < lo + 4 ==> Stone(g, Shift(row, t, dr), Shift(column, t, dc), color)
    ensures |WinningRun(g, row, column, color)| >= 4
  {
    ScannedAxes(dr, dc);
    var k :| 0 <= k < 4 && Direction(k) == (dr, dc);
    FourInLineWins(g, row, column, color, k, lo);
  }

  /** Conversely, a run `checkWin` reports has at least four cells, starts
      at the origin and every one of its cells holds the origin's colour. */
  lemma WinningRunSound(g: Grid, row: int, column: int)
    requires IsGrid(g) && InRange(row, column)
    ensures WinningRun(g, row, column, g[row][column]) != [] ==>
      |WinningRun(g, row, column, g[row][column])| >= 4 &&
      WinningRun(g, row, column, g[row][column])[0] == Pos(row, column) &&
      forall i :: 0 <= i < |WinningRun(g, row, column, g[row][column])| ==>
        Stone(g, WinningRun(g, row, column, g[row][column])[i].row,
                 WinningRun(g, row, column, g[row][column])[i].column, g[row][column])
  {
    var color := g[row][column];
    var w := WinningRun(g, row, column, color);
    if w != [] {
      var j :| 0 <= j < 4 && w == RunAlong(g, row, column, color, j);
      DirectionRunForward(g, row, column, color, Direction(j).0, Direction(j).1);
      DirectionRunCells(g, row, column, color, Direction(j).0, Direction(j).1);
    }
  }

  /** Result of `checkGameResult`. */
  datatype Outcome = Win(winner: Cell, winningCells: seq<Pos>) | Draw | Continue

  /** `checkGameResult(row, column)` on board `g` (the move already written)
      while the counter is `movesCount` (not yet incremented). */
  function Classify(g: Grid, movesCount: int, row: int, column: int): Outcome
    requires IsGrid(g) && InRange(row, column)
  {
    var currentPlayer := g[row][column];
    var winningCells := WinningRun(g, row, column, currentPlayer);
    if |winningCells| > 0 then Win(currentPlayer, winningCells)
    else if movesCount == 41 then Draw
    else Continue
  }

  /** The state of one `Game` object, as a value. */
  datatype GameView = GameView(
    player1: Conn, player2: Conn,
    player1Name: string, player2Name: string,
    gameId: string,
    cells: Grid,
    movesCount: nat)

  /** The sender may move: Player1 on an even count, Player2 on an odd one. */
  predicate IsTurn(movesCount: nat, player1: Conn, player2: Conn, sender: Conn) {
    !((movesCount % 2 == 0 && sender != player1) || (movesCount % 2 == 1 && sender != player2))
  }

  /** `makeMove` gets past its guards: right turn, target on the board and empty. */
  predicate Accepts(v: GameView, sender: Conn, row: int, column: int)
    requires IsGrid(v.cells)
  {
    IsTurn(v.movesCount, v.player1, v.player2, sender) && InRange(row, column) && v.cells[row][column] == Empty
  }

  /** The colour `makeMove` writes for the sender. */
  function Mark(v: GameView, sender: Conn): Cell {
    if sender == v.player1 then Red else Black
  }

  /** The messages `makeMove` sends once the move is written and classified:
      on a win, the move and GAME_OVER to the loser's socket and GAME_OVER to
      the sender; on a draw, GAME_DRAW to both players; otherwise the move,
      in the colour of the player whose turn the counter says it was, to the
      other player. */
  function Notices(v: GameView, sender: Conn, row: int, column: int, outcome: Outcome): seq<Outgoing> {
    match outcome
    case Win(winnerColor, _) =>
      var loser := if winnerColor == Red then v.player2 else v.player1;
      [Outgoing(loser, MoveMsg(row, column, winnerColor)),
       Outgoing(loser, GameOver(winnerColor, v.gameId)),
       Outgoing(sender, GameOver(winnerColor, v.gameId))]
    case Draw =>
      [Outgoing(v.player1, GameDraw(v.gameId)), Outgoing(v.player2, GameDraw(v.gameId))]
    case Continue =>
      if v.movesCount % 2 == 0 then [Outgoing(v.player2, MoveMsg(row, column, Red))]
      else [Outgoing(v.player1, MoveMsg(row, column, Black))]
  }

  /** One `makeMove(sender, {row, column})`: the new state and the
      messages sent, in order.  Only a move that neither wins nor draws
      advances the counter. */
  function Step(v: GameView, sender: Conn, row: int, column: int): (result: (GameView, seq<Outgoing>))
    requires IsGrid(v.cells)
    ensures IsGrid(result.0.cells)
    ensures result.0 == v.(cells := result.0.cells, movesCount := result.0.movesCount)
  {
    if !Accepts(v, sender, row, column) then (v, [])
    else
      var placed := v.(cells := Place(v.cells, row, column, Mark(v, sender)));
      var outcome := Classify(placed.cells, v.movesCount, row, column);
      (placed.(movesCount := if outcome.Continue? then v.movesCount + 1 else v.movesCount),
       Notices(placed, sender, row, column, outcome))
  }

  /** A move that fails a guard changes nothing and sends nothing. */
  lemma StepIgnoresIllegal(v: GameView, sender: Conn, row: int, column: int)
    requires IsGrid(v.cells) && !Accepts(v, sender, row, column)
    ensures Step(v, sender, row, column) == (v, [])
  {
  }

  /** An accepted move writes exactly one previously empty cell, red iff the
      sender is Player1, and adds exactly one stone to the board. */
  lemma StepPlacesOneStone(v: GameView, sender: Conn, row: int, column: int)
    requires IsGrid(v.cells) && Accepts(v, sender, row, column)
    ensures var w := Step(v, sender, row, column).0;
      v.cells[row][column] == Empty &&
      w.cells[row][column] == (if sender == v.player1 then Red else Black) &&
      (forall r, c :: InRange(r, c) && (r != row || c != column) ==> w.cells[r][c] == v.cells[r][c]) &&
      Filled(w.cells) == Filled(v.cells) + 1
  {
    FilledWrite(v.cells, row, column, Mark(v, sender));
  }

  /** What one accepted move sends, when the two players are distinct
      connections: the winner is always the mover; on a win the opponent gets
      the move then GAME_OVER and the mover GAME_OVER; on a draw both get
      GAME_DRAW; otherwise only the opponent gets the move, in the mover's
      colour.  Only a non-terminal move advances the counter. */
  lemma StepOutcomes(v: GameView, sender: Conn, row: int, column: int)
    requires IsGrid(v.cells) && Accepts(v, sender, row, column) && v.player1 != v.player2
    ensures var (w, out) := Step(v, sender, row, column);
      var mover := Mark(v, sender);
      var opponent := if sender == v.player1 then v.player2 else v.player1;
      match Classify(w.cells, v.movesCount, row, column)
      case Win(winner, _) =>
        winner == mover && w.movesCount == v.movesCount &&
        out == [Outgoing(opponent, MoveMsg(row, column, mover)),
                Outgoing(opponent, GameOver(mover, v.gameId)),
                Outgoing(sender, GameOver(mover, v.gameId))]
      case Draw =>
        w.movesCount == v.movesCount &&
        out == [Outgoing(v.player1, GameDraw(v.gameId)), Outgoing(v.player2, GameDraw(v.gameId))]
      case Continue =>
        w.movesCount == v.movesCount + 1 &&
        out == [Outgoing(opponent, MoveMsg(row, column, mover))]
  {
  }

  /** Between two distinct connections, colours alternate with the
      counter: an accepted move is red exactly on an even count. */
  lemma TurnColour(v: GameView, sender: Conn, row: int, column: int)
    requires IsGrid(v.cells) && v.player1 != v.player2 && Accepts(v, sender, row, column)
    ensures Mark(v, sender) == Red <==> v.movesCount % 2 == 0
  {
  }

  /** A winning move leaves the counter where it was, so the turn does not
      pass: the winner may go on dropping stones into any empty cell, and
      every such move is accepted. */
  lemma WinnerMovesAgain(v: GameView, sender: Conn, row: int, column: int)
    requires IsGrid(v.cells) && Accepts(v, sender, row, column)
    requires Classify(Place(v.cells, row, column, Mark(v, sender)), v.movesCount, row, column).Win?
    ensures var w := Step(v, sender, row, column).0;
      w.movesCount == v.movesCount && IsTurn(w.movesCount, w.player1, w.player2, sender) &&
      forall r, c :: InRange(r, c) && w.cells[r][c] == Empty ==> Accepts(w, sender, r, c)
  {
  }

  /** The invariant every `Game` keeps: the counter never passes 41 and
      never exceeds the number of stones on the board. */
  predicate Consistent(v: GameView) {
    IsGrid(v.cells) && v.movesCount <= 41 && v.movesCount <= Filled(v.cells)
  }

  lemma StepKeepsConsistent(v: GameView, sender: Conn, row: int, column: int)
    requires Consistent(v)
    ensures Consistent(Step(v, sender, row, column).0)
  {
    if Accepts(v, sender, row, column) {
      StepPlacesOneStone(v, sender, row, column);
    }
  }

  /** A draw is reported only on a full board: once it is, no sender's move
      onto any cell is accepted again. */
  lemma DrawEndsPlay(v: GameView, sender: Conn, row: int, column: int)
    requires Consistent(v) && Accepts(v, sender, row, column)
    requires Classify(Place(v.cells, row, column, Mark(v, sender)), v.movesCount, row, column).Draw?
    ensures var w := Step(v, sender, row, column).0;
      Full(w.cells) && forall s, r, c :: !Accepts(w, s, r, c)
  {
    var w := Step(v, sender, row, column).0;
    StepPlacesOneStone(v, sender, row, column);
    FullIffFilled(w.cells);
  }

  /** Until a win or draw is reported the counter equals the number of
      stones, and then the draw is reported exactly when the move filled the
      last empty cell without making a line of four. */
  lemma StepInPlay(v: GameView, sender: Conn, row: int, column: int)
    requires IsGrid(v.cells) && Filled(v.cells) == v.movesCount && Accepts(v, sender, row, column)
    ensures var w := Step(v, sender, row, column).0;
      var outcome := Classify(w.cells, v.movesCount, row, column);
      (outcome.Continue? ==> Filled(w.cells) == w.movesCount) &&
      (outcome.Draw? <==> WinningRun(w.cells, row, column, Mark(v, sender)) == [] && Full(w.cells))
  {
    var w := Step(v, sender, row, column).0;
    StepPlacesOneStone(v, sender, row, column);
    FullIffFilled(w.cells);
  }

  /** A move attempt as the server receives it. */
  datatype Attempt = Attempt(sender: Conn, row: int, column: int)

  /** A game after a sequence of `makeMove` calls. */
  function Replay(v: GameView, moves: seq<Attempt>): (w: GameView)
    requires IsGrid(v.cells)
    ensures IsGrid(w.cells)
    decreases |moves|
  {
    if moves == [] then v
    else Replay(Step(v, moves[0].sender, moves[0].row, moves[0].column).0, moves[1..])
  }

  /** Write-once: no sequence of moves ever changes an occupied cell. */
  lemma {:induction false} WriteOnce(v: GameView, moves: seq<Attempt>, row: int, column: int)
    requires IsGrid(v.cells) && InRange(row, column) && v.cells[row][column] != Empty
    ensures Replay(v, moves).cells[row][column] == v.cells[row][column]
    decreases |moves|
  {
    if moves != [] {
      var m := moves[0];
      var next := Step(v, m.sender, m.row, m.column).0;
      if Accepts(v, m.sender, m.row, m.column) {
        StepPlacesOneStone(v, m.sender, m.row, m.column);
      }
      assert next.cells[row][column] == v.cells[row][column];
      WriteOnce(next, moves[1..], row, column);
    }
  }

  /** The counter invariant holds after any sequence of moves. */
  lemma {:induction false} ReplayKeepsConsistent(v: GameView, moves: seq<Attempt>)
    requires Consistent(v)
    ensures Consistent(Replay(v, moves))
    decreases |moves|
  {
    if moves != [] {
      StepKeepsConsistent(v, moves[0].sender, moves[0].row, moves[0].column);
      ReplayKeepsConsistent(Step(v, moves[0].sender, moves[0].row, moves[0].column).0, moves[1..]);
    }
  }
}
