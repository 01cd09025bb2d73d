# Connect Four: server game logic and client move selection

This project models, in Dafny, the part of a two-player Connect Four service
that decides what a move does:

- the server's `Game` class (`backend/src/utils/game.ts`): a 6 x 7 board
  of `""`/`"red"`/`"black"` cells, the move counter, the turn and cell guards
  of `makeMove`, and the win scan `checkGameResult` / `checkWin` /
  `checkDirection`;
- the server's `GameManager` (`backend/src/utils/gameManager.ts`): the
  single pending-player slot, the list of games and the set of connected
  sockets, and what INIT_GAME, MOVE, any other message type and a closed
  connection do to them;
- the client's `handleClick` (`client/src/App.tsx`), the only place where
  a stone "falls" to the lowest empty row of a column, and the MOVE case of
  its message handler, which copies an opponent's move onto the local board.

Modules, one file each:

- `Board` (`board.dfy`): cells, positions, the 6 x 7 grid as a value, one-cell
  updates, and the count of occupied cells.
- `Protocol` (`protocol.dfy`): connection ids, the frames the server sends and
  receives, the match records, and the `Outbox` whose log stands for every
  `socket.send`.
- `GameRules` (`game_rules.dfy`): the win scan and the whole effect of one
  `makeMove` call, stated on values (`DirectionRun`, `WinningRun`, `Classify`,
  `Step`), with the properties of each.
- `GameLogic` (`game.dfy`): class `Game`. The board is an `array2` written in
  place, mirrored by a ghost grid. Every method is proved to do exactly what
  the `GameRules` function for it says.
- `Manager` (`game_manager.dfy`): class `GameManager`, its event handlers as
  methods, with `games` a sequence of `Game` objects.
- `ClientApp` (`client.dfy`): the click handler as a method with the source's
  downward search loop, proved against the function `Click`. It also holds
  lemmas that tie a click and an echoed move to the server's `Step`.

The model follows the code as written:

- A game has no terminal status. After a win or a draw, `movesCount` is not
  advanced. After a win, a later move by the winner onto an empty cell is
  still accepted. After a draw the board is full, so no later move is.
- The server does not enforce gravity. `makeMove` accepts any empty cell.
- Off-board coordinates change nothing. A column off the board reads
  `undefined`, which is not `""`. A row off the board throws, and the
  `catch` swallows the error.
- A win or a draw writes no record.
- A finished game stays in `games`. The close handler removes only the first
  game the closing socket plays in, and only when the record write
  succeeds. A socket that sends INIT_GAME again after being paired, and
  is then matched with a third socket, plays in two games. When it closes, the later game keeps the closed socket, and that game's other
  player is never told.
- The comment at `backend/src/utils/gameManager.ts:97` promises that only
  unfinished games get a record. The `gameIndex !== -1` test below it cannot
  give that: the game was just found in `games`, so its index is never -1
  (`FoundGameIsIndexed`). Every game a closing socket is found in is
  therefore recorded and removed, finished or not.

## Model

| member | source | states |
|---|---|---|
| `Board.EmptyGrid` | backend/src/utils/game.ts:29-36 | the starting board is 6 x 7 and every cell is empty |
| `Board.Place` | backend/src/utils/game.ts:74 | writing one cell changes that cell and no other |
| `Board.FilledWrite` | backend/src/utils/game.ts:70-74 | writing a stone into an empty cell raises the number of stones by exactly one |
| `Board.FullIffFilled` | backend/src/utils/game.ts:156-161 | the board holds at most 42 stones, and it is full exactly when it holds 42 |
| `GameRules.Direction` | backend/src/utils/game.ts:170-175 | the four directions of the win scan are the axes (0,1), (1,0), (1,1), (1,-1), none of them (0,0) |
| `GameRules.WalkStones` | backend/src/utils/game.ts:199-203 | every cell a direction loop pushes is on the board and holds the colour |
| `GameRules.WalkCells` | backend/src/utils/game.ts:197-202 | the i-th cell a direction loop pushes is i steps from its start, so the cells are contiguous |
| `GameRules.WalkEnd` | backend/src/utils/game.ts:199 | a direction loop stops only at a cell that is off the board or of another colour |
| `GameRules.DirectionRunForward` | backend/src/utils/game.ts:194-203 | the run of `checkDirection` starts at the origin, and then has the positive cells 1, 2, ... steps along +(dx, dy) |
| `GameRules.DirectionRunBackward` | backend/src/utils/game.ts:206-212 | the negative cells follow all the positive ones, 1, 2, ... steps along -(dx, dy) |
| `GameRules.DirectionRunCells` | backend/src/utils/game.ts:194-214 | every cell of the run after the origin is on the board and holds the colour |
| `GameRules.ForwardEnd` | backend/src/utils/game.ts:199-203 | the run cannot be extended at its positive end |
| `GameRules.BackwardEnd` | backend/src/utils/game.ts:208-212 | the run cannot be extended at its negative end |
| `GameRules.FirstWinFrom` | backend/src/utils/game.ts:177-184 | the scan returns [] iff no direction's run reaches 4; otherwise it returns the run of the first such direction, in the fixed order |
| `GameRules.RunCoversLine` | backend/src/utils/game.ts:194-214 | four consecutive stones of the colour through the origin on an axis lie inside the two walks |
| `GameRules.FourInLineWins` | backend/src/utils/game.ts:169-185 | any four in a line through the origin, along one of the four directions, makes `checkWin` non-empty |
| `GameRules.ScannedAxes` | backend/src/utils/game.ts:170-175 | the four directions `checkWin` scans are exactly the four axes: horizontal, vertical and the two diagonals |
| `GameRules.FourOnAxisWins` | backend/src/utils/game.ts:169-184 | four consecutive stones of one colour through the origin along any axis make `checkWin` report a win |
| `GameRules.WinningRunSound` | backend/src/utils/game.ts:169-185 | a non-empty `checkWin` result has at least 4 cells, starts at the origin, and every cell holds the origin's colour |
| `GameRules.Step` | backend/src/utils/game.ts:54-142 | a move changes only the board and the counter of a game, and the board stays 6 x 7 |
| `GameRules.StepIgnoresIllegal` | backend/src/utils/game.ts:62-72 | a move out of turn, off the board or onto an occupied cell changes nothing and sends nothing |
| `GameRules.StepPlacesOneStone` | backend/src/utils/game.ts:69-74 | an accepted move fills one empty cell, red iff the sender is Player1, and leaves every other cell unchanged |
| `GameRules.TurnColour` | backend/src/utils/game.ts:62-74 | between two distinct connections an accepted move is red exactly when the counter is even, so the colours alternate with the counter |
| `GameRules.WinnerMovesAgain` | backend/src/utils/game.ts:76-100 | a winning move leaves the counter unchanged, so the turn stays with the winner and every further move of theirs into an empty cell is accepted |
| `GameRules.StepOutcomes` | backend/src/utils/game.ts:76-137 | the messages of an accepted move: win (the loser gets MOVE then GAME_OVER, the mover gets GAME_OVER, the counter stays); draw (GAME_DRAW to both, the counter stays); otherwise MOVE in the mover's colour to the opponent only, and the counter goes up by 1 |
| `GameRules.StepKeepsConsistent` | backend/src/utils/game.ts:54-142 | the counter never exceeds 41 nor the number of stones on the board |
| `GameRules.DrawEndsPlay` | backend/src/utils/game.ts:156-161 | a draw is reported only once the move fills the board, after which no move by anyone is accepted |
| `GameRules.StepInPlay` | backend/src/utils/game.ts:144-167 | while play goes on, the counter equals the number of stones; a draw is reported exactly when a move that makes no four fills the board |
| `GameRules.WriteOnce` | backend/src/utils/game.ts:69-74 | no sequence of moves ever changes an occupied cell |
| `GameRules.ReplayKeepsConsistent` | backend/src/utils/game.ts:54-142 | the counter bounds hold after any sequence of moves |
| `Board.EmptyGridFilled` | backend/src/utils/game.ts:29-36 | the new game's board holds no stone, so the counter's starting value 0 equals the stone count, the equality `GameRules.StepInPlay` then carries forward |
| `GameLogic.Game.constructor` | backend/src/utils/game.ts:13-52 | a new game has an empty board and counter 0; Player1 is told red and Player2 black, with the same game id |
| `GameLogic.Game.Extend` | backend/src/utils/game.ts:197-203 | one `while` loop of `checkDirection` appends exactly the walk from its start |
| `GameLogic.Game.CheckDirection` | backend/src/utils/game.ts:187-215 | the method returns `DirectionRun` of the current board |
| `GameLogic.Game.CheckWin` | backend/src/utils/game.ts:169-185 | the loop with early return yields `WinningRun`, the first run of length >= 4 or [] |
| `GameLogic.Game.CheckGameResult` | backend/src/utils/game.ts:144-167 | a win when `checkWin` finds a run, even on the last cell; else a draw iff the counter is 41; else play goes on |
| `GameLogic.Game.Report` | backend/src/utils/game.ts:77-137 | the messages sent for a classified move, and the counter advanced only when play goes on |
| `GameLogic.Game.MakeMove` | backend/src/utils/game.ts:54-142 | the array, the counter and the message log change exactly as `Step` says, and the game invariant is kept |
| `Manager.FindGame` | backend/src/utils/gameManager.ts:64-66 | the index of the first game the socket plays in, or -1 exactly when it plays in none |
| `Manager.IndexOf` | backend/src/utils/gameManager.ts:98 | the first index holding the game, or -1 exactly when it is absent |
| `Manager.FoundGameIsIndexed` | backend/src/utils/gameManager.ts:97-99 | the game just found is at the index `indexOf` returns, so the -1 test never fails |
| `Manager.RemoveAt` | backend/src/utils/gameManager.ts:111 | `splice(k, 1)` removes exactly element k, and the others keep their order |
| `Manager.RecordCreditsNotified` | backend/src/utils/gameManager.ts:87-107 | between two distinct connections, the player told OPPONENT_LEFT is not the leaver, and the record names both players and credits that notified player's name |
| `Manager.RemoveKeepsValid` | backend/src/utils/gameManager.ts:111 | the games left after a splice are still valid and do not share boards |
| `Manager.GameManager.constructor` | backend/src/utils/gameManager.ts:12-16 | no games, no players, no pending player |
| `Manager.GameManager.AddUser` | backend/src/utils/gameManager.ts:25-32 | the socket joins `allPlayers` and nothing else changes |
| `Manager.GameManager.OnInitGame` | backend/src/utils/gameManager.ts:39-62 | with no one pending, the sender becomes pending and is told to wait, and no game is made; otherwise one game with a new board is appended, with the earlier arrival as Player1 (red), both players get INIT_GAME then "Game started", and the slot empties |
| `Manager.GameManager.Announce` | backend/src/utils/gameManager.ts:48-53 | both players are told the game started, Player1 first |
| `Manager.GameManager.OnMove` | backend/src/utils/gameManager.ts:63-69 | the move goes to the first game holding the sender, which changes as `Step` says while all other games stay the same; with no such game nothing changes |
| `Manager.GameManager.OnClose` | backend/src/utils/gameManager.ts:74-114 | the socket leaves `allPlayers`; the pending slot is cleared iff it held this socket; the open opponent in a game the socket plays in is told, and that game is removed and its record written iff the database write succeeds; with no game, games, records and log stay the same |
| `Manager.GameManager.LeaveGame` | backend/src/utils/gameManager.ts:82-113 | OPPONENT_LEFT is sent only if the opponent is open; when the record write succeeds the first game holding the socket is spliced out (the rest in order) and one record credits the opponent, and when it fails games and records stay as they were |
| `Manager.GameManager.Notify` | backend/src/utils/gameManager.ts:87-95 | OPPONENT_LEFT goes to the opponent exactly when its connection is open |
| `Manager.GameManager.OnMessage` | backend/src/utils/gameManager.ts:36-73 | INIT_GAME does what `OnInitGame` states (pending, or a new game and four frames) and leaves every existing game's board and counter unchanged; MOVE leaves the manager's fields alone and changes the first game holding the sender as `Step` says; a message of any other type changes no state and sends nothing |
| `ClientApp.LowestEmptyFrom` | client/src/App.tsx:80-86 | the largest row whose cell in the column is empty, or -1 exactly when there is none |
| `ClientApp.ClickGate` | client/src/App.tsx:76-90 | a click sends nothing iff there is a winner or a draw, or the counter is 42, or it is not this player's turn, or the column has no empty cell; then the state is unchanged |
| `ClientApp.ClickDrops` | client/src/App.tsx:80-105 | a sent move carries the clicked column and its lowest empty row; the local board gains exactly that stone in the player's colour, and the counter goes up by 1 |
| `ClientApp.HandleClick` | client/src/App.tsx:74-111 | the handler, with its downward search loop, returns the state and the frame given by `Click` |
| `ClientApp.ApplyMove` | client/src/App.tsx:38-46 | an incoming MOVE sets its one cell to its colour, leaves every other cell alone, and advances the counter by 1 |
| `ClientApp.ClickAccepted` | client/src/App.tsx:93-105 | a player in step with the server sends only moves the server accepts, and its local board equals the server's after the move |
| `ClientApp.EchoSyncs` | client/src/App.tsx:38-46 | when play goes on, the server's one MOVE brings an opponent in step to the server's new board and counter |

## Left out

- `backend/src/index.ts` (HTTP and WebSocket server bootstrap, logging), `client/src/hooks/useSocket.ts` (the connection lifecycle), `client/src/components/slot.tsx` and the JSX rendering: wiring and UI, with no game logic.
- JSON encoding and decoding: frames are abstract values. A frame that fails `JSON.parse`, or a MOVE without a `move` field, is not modelled. Coordinates are integers, so non-integer or non-numeric ones are not modelled.
- Sockets are natural-number ids compared for equality. `socket.send` appends to one shared `Outbox` log. `readyState === OPEN` is the `isOpen` parameter of the close handler. The closing socket itself is never in `isOpen`, since a socket's `close` event fires once it is CLOSED.
- The game id (`Math.random().toString()`) is a parameter of the constructor and of the INIT_GAME handler.
- `Manager.GameManager.OnClose`: the close handler is one atomic step. In the source it pauses at `await prisma.record.create`, and the game stays in `games` until the `splice` runs. Events handled during that pause are not modelled. A MOVE the opponent sent before OPPONENT_LEFT reached them is still applied to the game, and it can end in GAME_OVER after OPPONENT_LEFT. A second close handler can make the index computed before the `await` stale by the time `splice` runs.
- `Manager.GameManager.LeaveGame`: `recordOk` says whether `prisma.record.create` resolved. When it did, one record is appended. When it did not, the model leaves `games` and `records` unchanged, and that is all it models. In the source the rejection escapes the `async` listener as an unhandled promise rejection. With Node's default behaviour since version 15, that ends the server process. The model does not capture this.
- `GameManager.getInstance` (the singleton), `localStorage` and `console` calls.
- The client's other message cases (INIT_GAME, OPPONENT_LEFT, GAME_OVER, GAME_DRAW) and `startGameHandler` are not part of this model.
- `ClientApp.HandleClick`: React state is one value at the click. The `setGame(prevGame => ...)` updater is applied to that value, and a `socket!.send` that throws after the local update is not modelled.
- `ClientApp.ApplyMove`: requires the move's cell to be on the board. The server only echoes moves it accepted, and those are on the board. An off-board cell would throw or grow a row in JavaScript.
- `GameRules.StepOutcomes`: stated for two distinct connections. A socket that sends INIT_GAME again while it is itself the pending player is paired with itself. Every move it makes is then written red, but on odd counts the echoed MOVE says black.
- `ClientApp.ClickAccepted` and `ClientApp.EchoSyncs`: stated for two distinct connections, for the same reason.
- `checkDirection` loops forever on the direction (0, 0). `checkWin` never passes that direction, and the model only covers the four it passes.
- `Extend`, `Report`, `LeaveGame`, `Notify` and `Announce` are not separate functions in the source. They are parts of `checkDirection`, `makeMove` and the two handlers, factored out so that each proof stays small.
