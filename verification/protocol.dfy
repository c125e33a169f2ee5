/**
  The messages exchanged over a room's WebSocket connections, as records.
  Their JSON text form, and the sending itself, are not modelled: an
  outgoing message is a `Delivery` naming the sockets it goes to.
 */
module Protocol {
  import opened Wrappers
  import opened Board
  import opened WinDetector

  /** Identity of one open WebSocket connection. */
  type SocketId = nat

  /** The `lastMove` field of a state message. */
  datatype LastMove = LastMove(r: int, c: int, color: int)

  /**
    Messages the server sends. A state message carries the fields the
    server sets; `None` stands for a field that is absent or null. No
    message the server sends has a `ready` field.
   */
  datatype ServerMsg =
    | ErrorMsg(message: string)
    | InfoMsg(message: string)
    | StateMsg(
        board: Board,
        current: int,
        gameOver: bool,
        winLine: Option<seq<Pos>>,
        winner: Option<int>,
        youAre: Option<int>,
        lastMove: Option<LastMove>)

  /** One message sent to a set of sockets. */
  datatype Delivery = Delivery(to: set<SocketId>, msg: ServerMsg)

  /**
    Messages a client sends, after JSON parsing. `Hello.token` is `None`
    when the field is missing or null; `Ignored` is any message that
    is not JSON, or parses to a value other than `null` whose `type` is
    none of the three.
   */
  datatype ClientMsg =
    | Hello(token: Option<string>)
    | MoveMsg(r: int, c: int)
    | RestartMsg
    | Ignored
}
