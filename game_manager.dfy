/** The server's `GameManager`: the single pending-player slot, the list of
    games and the set of connected sockets, driven by the INIT_GAME, MOVE
    and close events of each socket.  Sockets are connection ids; what the
    source writes to the database through `prisma.record.create` is appended
    to `records`. */
module Manager {
  import opened Board
  import opened Protocol
  import opened GameRules
  import opened GameLogic

  /** The `{ socket, name }` pair of a player waiting for an opponent. */
  datatype Pending = Pending(socket: Conn, name: string)

  /** The socket plays in the game, as Player1 or Player2. */
  predicate InGame(g: Game, s: Conn) {
    g.player1 == s || g.player2 == s
  }

  /** `games.find(game => game.Player1 === socket || game.Player2 === socket)`,
      as an index: the first game the socket plays in, or -1. */
  function FindGame(games: seq<Game>, s: Conn): (k: int)
    ensures -1 <= k < |games|
    ensures k == -1 <==> forall i :: 0 <= i < |games| ==> !InGame(games[i], s)
    ensures k != -1 ==> InGame(games[k], s) && forall i :: 0 <= i < k ==> !InGame(games[i], s)
  {
    if games == [] then -1
    else if InGame(games[0], s) then 0
    else
      var k := FindGame(games[1..], s);
      if k == -1 then -1 else k + 1
  }

  /** `games.indexOf(game)`: the first index holding `game`, or -1. */
  function IndexOf(games: seq<Game>, game: Game): (k: int)
    ensures -1 <= k < |games|
    ensures k == -1 <==> game !in games
    ensures k != -1 ==> games[k] == game && forall i :: 0 <= i < k ==> games[i] != game
  {
    if games == [] then -1
    else if games[0] == game then 0
    else
      var k := IndexOf(games[1..], game);
      if k == -1 then -1 else k + 1
  }

  /** The game that was just found is always at the index `indexOf` gives,
      so the `gameIndex !== -1` test of the close handler never fails: a
      record is written for every game a closing socket is found in,
      finished or not. */
  lemma FoundGameIsIndexed(games: seq<Game>, s: Conn)
    requires FindGame(games, s) != -1
    ensures IndexOf(games, games[FindGame(games, s)]) == FindGame(games, s)
  {
    var k := FindGame(games, s);
    assert forall i :: 0 <= i < k ==> games[i] != games[k];
  }

  /** `array.splice(k, 1)`: remove the element at k, keep the rest in order. */
  function RemoveAt(games: seq<Game>, k: int): (rest: seq<Game>)
    requires 0 <= k < |games|
    ensures |rest| == |games| - 1
    ensures forall i :: 0 <= i < k ==> rest[i] == games[i]
    ensures forall i :: k <= i < |rest| ==> rest[i] == games[i + 1]
  {
    games[..k] + games[k + 1..]
  }

  /** The other player of a game the socket plays in. */
  function Opponent(g: Game, s: Conn): Conn {
    if g.player1 == s then g.player2 else g.player1
  }

  /** The record written when `s` leaves game `g`. */
  function LeaveRecord(g: Game, s: Conn): Record {
    Record(g.player1Name, g.player2Name, if g.player1 == s then g.player2Name else g.player1Name)
  }

  /** In a game between two different connections, the player who is told
      that the other one left is someone else than the leaver, and the
      record credits the win to that player's name. */
  lemma RecordCreditsNotified(g: Game, s: Conn)
    requires InGame(g, s) && g.player1 != g.player2
    ensures Opponent(g, s) != s && InGame(g, Opponent(g, s))
    ensures LeaveRecord(g, s).winner == (if Opponent(g, s) == g.player1 then g.player1Name else g.player2Name)
    ensures LeaveRecord(g, s).player1 == g.player1Name && LeaveRecord(g, s).player2 == g.player2Name
  {
  }

  /** The objects games are made of: each game and its board. */
  ghost function Parts(games: seq<Game>): set<object> {
    (set i | 0 <= i < |games| :: games[i] as object) + (set i | 0 <= i < |games| :: games[i].board as object)
  }

  /** No two games share a board, and every game keeps its own invariant. */
  ghost predicate AllValid(games: seq<Game>)
    reads Parts(games)
  {
    (forall i, j :: 0 <= i < |games| && 0 <= j < |games| && i != j ==> games[i] != games[j] && games[i].board != games[j].board) &&
    (forall i :: 0 <= i < |games| ==> games[i].Valid())
  }

  /** Splicing a game out keeps the others valid and their boards distinct. */
  lemma RemoveKeepsValid(games: seq<Game>, k: int)
    requires 0 <= k < |games| && AllValid(games)
    ensures AllValid(RemoveAt(games, k))
  {
    var rest := RemoveAt(games, k);
    assert forall i :: 0 <= i < |rest| ==> rest[i] == games[if i < k then i else i + 1];
  }

  /** Games whose objects did not change keep their invariant. */
  twostate lemma AllValidKept(games: seq<Game>)
    requires old(AllValid(games))
    requires forall i :: 0 <= i < |games| ==> unchanged(games[i], games[i].board)
    ensures AllValid(games)
  {
  }

  /** A new game with a board of its own keeps the list valid. */
  twostate lemma AppendKeepsValid(games: seq<Game>, new g: Game)
    requires old(AllValid(games)) && g.Valid() && fresh(g.board)
    requires forall i :: 0 <= i < |games| ==> unchanged(games[i], games[i].board)
    ensures AllValid(games + [g])
  {
  }

  class GameManager {
    var games: seq<Game>
    var allPlayers: set<Conn>
    var pendingPlayer: Option<Pending>
    var records: seq<Record>
    const net: Outbox

    ghost function Repr(): set<object>
      reads this
    {
      Parts(games)
    }

    ghost predicate Valid()
      reads this, Repr()
    {
      AllValid(games)
    }

    constructor(net: Outbox)
      ensures Valid()
      ensures games == [] && allPlayers == {} && pendingPlayer == None && records == []
      ensures this.net == net
    {
      games := [];
      allPlayers := {};
      pendingPlayer := None;
      records := [];
      this.net := net;
    }

    /** `addUser`: remember the socket (its event handlers are the methods below). */
    method AddUser(socket: Conn)
      modifies this
      ensures allPlayers == old(allPlayers) + {socket}
      ensures games == old(games) && pendingPlayer == old(pendingPlayer) && records == old(records)
    {
      allPlayers := allPlayers + {socket};
    }

    /** INIT_GAME from `socket` with display name `name`.  Without a pending
        player the sender becomes the pending one and is told to wait; with
        one, a new game pairs the earlier arrival (Player1, red) with the
        sender (Player2, black), is appended to `games`, both are told the
        game started, and the slot is emptied.  `gameId` stands for the
        random id the new `Game` draws. */
    method OnInitGame(socket: Conn, name: string, gameId: string)
      requires Valid()
      modifies this, net
      ensures Valid()
      ensures allPlayers == old(allPlayers) && records == old(records)
      ensures old(pendingPlayer).None? ==>
        pendingPlayer == Some(Pending(socket, name)) && games == old(games) &&
        net.log == old(net.log) + [Outgoing(socket, WaitingForOpponent)]
      ensures old(pendingPlayer).Some? ==>
        var p := old(pendingPlayer).value;
        pendingPlayer == None &&
        |games| == |old(games)| + 1 && games[..|old(games)|] == old(games) &&
        fresh(games[|old(games)|]) && fresh(games[|old(games)|].board) &&
        games[|old(games)|].View() == GameView(p.socket, socket, p.name, name, gameId, EmptyGrid(), 0) &&
        net.log == old(net.log) + [Outgoing(p.socket, InitGame(Red, gameId)), Outgoing(socket, InitGame(Black, gameId)),
                                   Outgoing(p.socket, GameStarted(gameId)), Outgoing(socket, GameStarted(gameId))]
    {
      if pendingPlayer.Some? {
        var game := new Game(net, pendingPlayer.value.socket, socket, pendingPlayer.value.name, name, gameId);
        AppendKeepsValid(games, game);
        games := games + [game];
        Announce(pendingPlayer.value.socket, socket, game.gameId);
        pendingPlayer := None;
      } else {
        pendingPlayer := Some(Pending(socket, name));
        net.Send(socket, WaitingForOpponent);
      }
    }

    /** Tell both players of a new game that it started. */
    method Announce(player1: Conn, player2: Conn, gameId: string)
      modifies net
      ensures net.log == old(net.log) + [Outgoing(player1, GameStarted(gameId)), Outgoing(player2, GameStarted(gameId))]
    {
      net.Send(player1, GameStarted(gameId));
      net.Send(player2, GameStarted(gameId));
    }

    /** MOVE from `socket`: handed to the first game the socket plays in;
        without one nothing happens. */
    method OnMove(socket: Conn, row: int, column: int)
      requires Valid()
      modifies Repr(), net
      ensures Valid()
      ensures FindGame(games, socket) == -1 ==>
        net.log == old(net.log) &&
        forall i :: 0 <= i < |games| ==> games[i].View() == old(games[i].View())
      ensures FindGame(games, socket) != -1 ==>
        var k := FindGame(games, socket);
        games[k].View() == Step(old(games[k].View()), socket, row, column).0 &&
        net.log == old(net.log) + Step(old(games[k].View()), socket, row, column).1 &&
        forall i :: 0 <= i < |games| && i != k ==> games[i].View() == old(games[i].View())
    {
      var k := FindGame(games, socket);
      if k != -1 {
        games[k].MakeMove(net, socket, row, column);
      }
    }

    /** close of `socket`: forget it, cancel its pending entry, and if it
        plays in a game, tell the opponent (when its connection is still in
        `isOpen`), record the opponent as winner and drop that game. */
    method OnClose(socket: Conn, isOpen: set<Conn>, recordOk: bool)
      requires Valid() && socket !in isOpen
      modifies this, net
      ensures Valid()
      ensures allPlayers == old(allPlayers) - {socket}
      ensures pendingPlayer ==
        if old(pendingPlayer).Some? && old(pendingPlayer).value.socket == socket then None else old(pendingPlayer)
      ensures FindGame(old(games), socket) == -1 ==>
        games == old(games) && records == old(records) && net.log == old(net.log)
      ensures FindGame(old(games), socket) != -1 ==>
        var k := FindGame(old(games), socket);
        var opponent := Opponent(old(games)[k], socket);
        net.log == old(net.log) + (if opponent in isOpen then [Outgoing(opponent, OpponentLeft)] else []) &&
        (recordOk ==>
           games == RemoveAt(old(games), k) && records == old(records) + [LeaveRecord(old(games)[k], socket)]) &&
        (!recordOk ==> games == old(games) && records == old(records))
    {
      allPlayers := allPlayers - {socket};
      if pendingPlayer.Some? && pendingPlayer.value.socket == socket {
        pendingPlayer := None;
      }
      LeaveGame(socket, isOpen, recordOk);
    }

    /** The game part of the close handler. */
    method LeaveGame(socket: Conn, isOpen: set<Conn>, recordOk: bool)
      requires Valid() && socket !in isOpen
      modifies this, net
      ensures Valid()
      ensures allPlayers == old(allPlayers) && pendingPlayer == old(pendingPlayer)
      ensures FindGame(old(games), socket) == -1 ==>
        games == old(games) && records == old(records) && net.log == old(net.log)
      ensures FindGame(old(games), socket) != -1 ==>
        var k := FindGame(old(games), socket);
        var opponent := Opponent(old(games)[k], socket);
        net.log == old(net.log) + (if opponent in isOpen then [Outgoing(opponent, OpponentLeft)] else []) &&
        (recordOk ==>
           games == RemoveAt(old(games), k) && records == old(records) + [LeaveRecord(old(games)[k], socket)]) &&
        (!recordOk ==> games == old(games) && records == old(records))
    {
      var k := FindGame(games, socket);
      if k != -1 {
        FoundGameIsIndexed(games, socket);
        RemoveKeepsValid(games, k);
        ghost var rest := RemoveAt(games, k);
        var game := games[k];
        var opponent := Opponent(game, socket);
        Notify(opponent, isOpen);

        // `recordOk`: whether `prisma.record.create` resolved; on a
        // rejection the handler stops before the splice.
        if recordOk {
          var gameIndex := IndexOf(games, game);
          if gameIndex != -1 {
            records := records + [LeaveRecord(game, socket)];
            games := RemoveAt(games, gameIndex);
          }
        }
        AllValidKept(if recordOk then rest else old(games));
      }
    }

    /** Tell `opponent` that its opponent left, if its connection is open. */
    method Notify(opponent: Conn, isOpen: set<Conn>)
      modifies net
      ensures net.log == old(net.log) + (if opponent in isOpen then [Outgoing(opponent, OpponentLeft)] else [])
    {
      if opponent in isOpen {
        net.Send(opponent, OpponentLeft);
      }
    }

    /** The `message` handler: dispatch on the request type; any other
        type changes nothing. */
    method OnMessage(socket: Conn, request: Request, gameId: string)
      requires Valid()
      modifies this, net, Repr()
      ensures Valid()
      ensures request.InitGameRequest? ==>
        allPlayers == old(allPlayers) && records == old(records) &&
        (old(pendingPlayer).None? ==>
           pendingPlayer == Some(Pending(socket, request.name)) && games == old(games) &&
           net.log == old(net.log) + [Outgoing(socket, WaitingForOpponent)]) &&
        (old(pendingPlayer).Some? ==>
           var p := old(pendingPlayer).value;
           pendingPlayer == None &&
           |games| == |old(games)| + 1 && games[..|old(games)|] == old(games) &&
           fresh(games[|old(games)|]) && fresh(games[|old(games)|].board) &&
           games[|old(games)|].View() == GameView(p.socket, socket, p.name, request.name, gameId, EmptyGrid(), 0) &&
           net.log == old(net.log) + [Outgoing(p.socket, InitGame(Red, gameId)), Outgoing(socket, InitGame(Black, gameId)),
                                      Outgoing(p.socket, GameStarted(gameId)), Outgoing(socket, GameStarted(gameId))]) &&
        forall i :: 0 <= i < |old(games)| ==> games[i].View() == old(games[i].View())
      ensures request.MoveRequest? ==>
        games == old(games) && allPlayers == old(allPlayers) && pendingPlayer == old(pendingPlayer) &&
        records == old(records) &&
        (FindGame(games, socket) == -1 ==>
           net.log == old(net.log) &&
           forall i :: 0 <= i < |games| ==> games[i].View() == old(games[i].View())) &&
        (FindGame(games, socket) != -1 ==>
           var k := FindGame(games, socket);
           games[k].View() == Step(old(games[k].View()), socket, request.row, request.column).0 &&
           net.log == old(net.log) + Step(old(games[k].View()), socket, request.row, request.column).1 &&
           forall i :: 0 <= i < |games| && i != k ==> games[i].View() == old(games[i].View()))
      ensures request.UnknownRequest? ==>
        games == old(games) && allPlayers == old(allPlayers) && pendingPlayer == old(pendingPlayer) &&
        records == old(records) && net.log == old(net.log) &&
        forall i :: 0 <= i < |games| ==> games[i].View() == old(games[i].View())
    {
      match request
      case InitGameRequest(name) => OnInitGame(socket, name, gameId);
      case MoveRequest(row, column) => OnMove(socket, row, column);
      case UnknownRequest =>
    }
  }
}
