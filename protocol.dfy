/** What crosses the wire between the server and the clients, and the
    match records the server stores.  Frames are abstract values (their
    JSON encoding is not modelled); every `socket.send` of the server is an
    append to one shared `Outbox` log, addressed to a connection id. */
module Protocol {
  import opened Board

  datatype Option<T> = None | Some(value: T)

  /** An opaque connection id, compared only for equality. */
  type Conn = nat

  /** Server-to-client messages. */
  datatype Msg =
    | InitGame(color: Cell, gameId: string)          // { type: INIT_GAME, color, gameId }
    | MoveMsg(row: int, column: int, color: Cell)    // { type: MOVE, move: { row, column, color } }
    | GameOver(winner: Cell, gameId: string)         // { type: GAME_OVER, winner, gameId }
    | GameDraw(gameId: string)                       // { type: GAME_DRAW, winner: null, gameId }
    | GameStarted(gameId: string)                    // { message: "Game started", gameId }
    | WaitingForOpponent                             // { message: "Waiting for the other player to join" }
    | OpponentLeft                                   // { type: OPPONENT_LEFT }

  datatype Outgoing = Outgoing(to: Conn, msg: Msg)

  /** Client-to-server messages, by their `type` field. */
  datatype Request =
    | InitGameRequest(name: string)
    | MoveRequest(row: int, column: int)
    | UnknownRequest

  /** A stored match result: both display names and the winner's name. */
  datatype Record = Record(player1: string, player2: string, winner: string)

  /** Every message sent by the server, in sending order. */
  class Outbox {
    var log: seq<Outgoing>

    constructor()
      ensures log == []
    {
      log := [];
    }

    method Send(to: Conn, msg: Msg)
      modifies this
      ensures log == old(log) + [Outgoing(to, msg)]
    {
      log := log + [Outgoing(to, msg)];
    }
  }
}
