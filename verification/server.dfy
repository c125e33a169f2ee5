/**
  The room server: seat assignment over HTTP (`GET /token`) and the
  `hello`, `move`, `restart` and close handlers of the WebSocket server, as
  pure transitions on the map of rooms and the per-socket seat bindings.

  A transition returns the new state and the messages it sends. The
  randomness in a token (the `Math.random` suffix) is a parameter.
 */
module Server {
  import opened Wrappers
  import opened Board
  import opened WinDetector
  import opened JsString
  import opened Protocol

  /** A claimed seat: the player id (the token's last piece) and the full token. */
  datatype Seat = Seat(id: string, token: string)

  datatype Room = Room(
    board: Board,
    current: int,
    gameOver: bool,
    winLine: Option<seq<Pos>>,
    black: Option<Seat>,
    white: Option<Seat>,
    sockets: set<SocketId>)

  /** `ws.meta`: the room and colour an authenticated socket plays. */
  datatype SeatRef = SeatRef(roomId: string, color: int)

  datatype State = State(rooms: map<string, Room>, meta: map<SocketId, SeatRef>)

  /** The state after a transition, and the messages it sends. */
  datatype Outcome = Outcome(st: State, out: seq<Delivery>)

  /** The room `GET /token` creates on first use of a room id. */
  function NewRoom(): (room: Room)
    ensures WellFormed(room.board) && StoneCount(room.board) == 0
    ensures room.current == 1 && !room.gameOver && room.winLine.None?
    ensures room.black.None? && room.white.None? && room.sockets == {}
  {
    EmptyBoardStoneCount();
    Room(EmptyBoard(), 1, false, None, None, None, {})
  }

  /** The server at start-up: no rooms, no authenticated sockets. */
  const Init: State := State(map[], map[])

  /** The seat of a colour: black for 1, white for any other value. */
  function SeatOf(room: Room, color: int): Option<Seat>
  {
    if color == 1 then room.black else room.white
  }

  // ---------------------------------------------------------------------
  // Tokens

  /** Characters of `Math.random().toString(36).slice(2)`: base-36 digits. */
  predicate IsRandomSuffix(s: string)
  {
    forall i :: 0 <= i < |s| ==> '0' <= s[i] <= '9' || 'a' <= s[i] <= 'z'
  }

  /** The token `${roomId}.${color}.${suffix}`. */
  function MakeToken(roomId: string, color: nat, suffix: string): string
  {
    roomId + "." + DecimalString(color) + "." + suffix
  }

  function Last(parts: seq<string>): string
    requires |parts| >= 1
  {
    parts[|parts| - 1]
  }

  /** The pieces of a token are the room id's pieces, the colour and the suffix. */
  lemma TokenPieces(roomId: string, color: nat, suffix: string)
    requires '.' !in suffix
    ensures Split(MakeToken(roomId, color, suffix)) == Split(roomId) + [DecimalString(color), suffix]
  {
    var d := DecimalString(color);
    DecimalPlain(color);
    SplitAppend(roomId + "." + d, suffix);
    SplitAppend(roomId, d);
    SplitJoin([d]);
    SplitJoin([suffix]);
  }

  /** The player id recorded for a token is its suffix. */
  lemma SeatIdIsSuffix(roomId: string, color: nat, suffix: string)
    requires '.' !in suffix
    ensures Last(Split(MakeToken(roomId, color, suffix))) == suffix
  {
    TokenPieces(roomId, color, suffix);
  }

  lemma RandomSuffixDotFree(s: string)
    requires IsRandomSuffix(s)
    ensures '.' !in s
  {
  }

  /** The reply of `GET /token`: status 400, status 409, or the granted seat. */
  datatype TokenReply = RoomRequired | RoomFull | Granted(room: string, token: string, color: nat)

  datatype Issued = Issued(st: State, reply: TokenReply)

  /**
    `GET /token?room=roomParam`: trim the room id; reject an empty one;
    create the room if it is new; give out black if free, else white if
    free, else report the room full.
   */
  function IssueToken(st: State, roomParam: string, suffix: string): (res: Issued)
    ensures res.reply.Granted? ==> res.reply.room == Trim(roomParam) && res.reply.room in res.st.rooms
    ensures res.reply.Granted? ==> res.reply.token == MakeToken(res.reply.room, res.reply.color, suffix)
    ensures res.st.meta == st.meta
  {
    var roomId := Trim(roomParam);
    if roomId == [] then Issued(st, RoomRequired)
    else
      var room := if roomId in st.rooms then st.rooms[roomId] else NewRoom();
      var st1 := st.(rooms := st.rooms[roomId := room]);
      if room.black.None? then
        var token := MakeToken(roomId, 1, suffix);
        var seat := Seat(Last(Split(token)), token);
        Issued(st1.(rooms := st1.rooms[roomId := room.(black := Some(seat))]), Granted(roomId, token, 1))
      else if room.white.None? then
        var token := MakeToken(roomId, 2, suffix);
        var seat := Seat(Last(Split(token)), token);
        Issued(st1.(rooms := st1.rooms[roomId := room.(white := Some(seat))]), Granted(roomId, token, 2))
      else
        Issued(st1, RoomFull)
  }

  /** The room id and colour a well-formed token names. */
  datatype TokenClaim = TokenClaim(roomId: string, color: int)

  /**
    `parseToken`: the first piece of the token is the room id and the
    second, converted with `Number`, the colour; null for a missing or
    empty token, an empty room id, or a colour other than 1 or 2. The
    comparison is on the double `Number` returns, so a piece whose exact
    value rounds to 1 or 2 counts as that colour.
   */
  function ParseToken(token: Option<string>): (res: Option<TokenClaim>)
    ensures res.Some? ==> token.Some? && token.value != []
    ensures res.Some? ==> res.value.roomId != [] && '.' !in res.value.roomId
    ensures res.Some? ==> res.value.color == 1 || res.value.color == 2
    ensures res.Some? ==>
      && |Split(token.value)| >= 2 && Split(token.value)[0] == res.value.roomId
      && RoundsTo(ToNumber(Split(token.value)[1]), res.value.color)
  {
    if token.None? || token.value == [] then None
    else
      var parts := Split(token.value);
      var roomId := parts[0];
      var color := if |parts| >= 2 then ToNumber(parts[1]) else NaN;
      if roomId == [] then None
      else if RoundsTo(color, 1) then Some(TokenClaim(roomId, 1))
      else if RoundsTo(color, 2) then Some(TokenClaim(roomId, 2))
      else None
  }

  /** A token issued for a dot-free room id parses back to that room and colour. */
  lemma ParseMadeToken(roomId: string, color: nat, suffix: string)
    requires roomId != [] && '.' !in roomId
    requires color == 1 || color == 2
    requires '.' !in suffix
    ensures ParseToken(Some(MakeToken(roomId, color, suffix))) == Some(TokenClaim(roomId, color))
  {
    TokenPieces(roomId, color, suffix);
    SplitJoin([roomId]);
    NumberOfDecimal(color);
    RoundsToIntegers(color, 1);
    RoundsToIntegers(color, 2);
  }

  /** A token whose first piece is empty, or whose second piece is missing or does not round to 1 or 2, is refused. */
  lemma ParseTokenRefuses(token: string)
    requires Split(token)[0] == [] || |Split(token)| < 2
      || (!RoundsTo(ToNumber(Split(token)[1]), 1) && !RoundsTo(ToNumber(Split(token)[1]), 2))
    ensures ParseToken(Some(token)) == None
  {
  }

  /** A token of three or more pieces parses by its first piece and the `Number` value of its second. */
  lemma ParsePieces(roomId: string, colour: string, rest: string)
    requires '.' !in roomId && '.' !in colour
    ensures var claim := ParseToken(Some(roomId + "." + colour + "." + rest));
      && (roomId == [] ==> claim == None)
      && (roomId != [] && RoundsTo(ToNumber(colour), 1) ==> claim == Some(TokenClaim(roomId, 1)))
      && (roomId != [] && RoundsTo(ToNumber(colour), 2) ==> claim == Some(TokenClaim(roomId, 2)))
      && (!RoundsTo(ToNumber(colour), 1) && !RoundsTo(ToNumber(colour), 2) ==> claim == None)
  {
    var token := roomId + "." + colour + "." + rest;
    SplitPieces(roomId, colour, rest);
    assert token != [];
    var c := ToNumber(colour);
    if roomId != [] && RoundsTo(c, 1) {
      assert ParseToken(Some(token)) == Some(TokenClaim(roomId, 1));
    } else if roomId != [] && RoundsTo(c, 2) {
      assert !RoundsTo(c, 1) by {
        RoundsToOneOrTwo(c);
      }
    }
  }

  /** A token of exactly two pieces parses the same way: nothing after the colour is needed. */
  lemma ParseTwoPieces(roomId: string, colour: string)
    requires '.' !in roomId && '.' !in colour
    ensures var claim := ParseToken(Some(roomId + "." + colour));
      && (roomId == [] ==> claim == None)
      && (roomId != [] && RoundsTo(ToNumber(colour), 1) ==> claim == Some(TokenClaim(roomId, 1)))
      && (roomId != [] && RoundsTo(ToNumber(colour), 2) ==> claim == Some(TokenClaim(roomId, 2)))
      && (!RoundsTo(ToNumber(colour), 1) && !RoundsTo(ToNumber(colour), 2) ==> claim == None)
  {
    var token := roomId + "." + colour;
    SplitCons(roomId, colour);
    assert Split(token) == [roomId, colour];
    assert token != [];
    var c := ToNumber(colour);
    if roomId != [] && RoundsTo(c, 2) {
      RoundsToOneOrTwo(c);
    }
  }

  /** The first two pieces of "<roomId>.<colour>.<rest>" are roomId and colour. */
  lemma SplitPieces(roomId: string, colour: string, rest: string)
    requires '.' !in roomId && '.' !in colour
    ensures var parts := Split(roomId + "." + colour + "." + rest);
      |parts| >= 2 && parts[0] == roomId && parts[1] == colour
  {
    SplitAppend(roomId + "." + colour, rest);
    SplitAppend(roomId, colour);
    SplitJoin([roomId]);
    SplitJoin([colour]);
  }

  /**
    The colour piece is read with `Number`, so spellings other than "1"
    and "2" pass: here hexadecimal.
   */
  lemma ParseHexColour()
    ensures ParseToken(Some("r.0x2.s")) == Some(TokenClaim("r", 2))
  {
    assert "r.0x2.s" == "r" + "." + "0x2" + "." + "s";
    ParsePieces("r", "0x2", "s");
    HexSpellingOfTwo();
  }

  /**
    A colour piece whose exact value is not 1 but rounds to 1, such as
    "10000000000000001e-16", passes as colour 1.
   */
  lemma ParseRoundedColour(e: nat, colour: string)
    requires e >= 16 && colour == DecimalString(Pow10(e) + 1) + "e-" + DecimalString(e)
    ensures '.' !in colour && ToNumber(colour) != Finite(1.0)
    ensures ParseToken(Some("r." + colour + ".s")) == Some(TokenClaim("r", 1))
  {
    JustAboveOneRounds(e);
    assert "r." + colour + ".s" == "r" + "." + colour + "." + "s";
    ParsePieces("r", colour, "s");
  }

  /** A colour piece with surrounding whitespace passes too. */
  lemma ParsePaddedColour()
    ensures ParseToken(Some("r. 1\n.s")) == Some(TokenClaim("r", 1))
  {
    assert "r. 1\n.s" == "r" + "." + " 1\n" + "." + "s";
    ParsePieces("r", " 1\n", "s");
    NumberOfPaddedOne();
  }

  /** An empty colour piece reads as 0 and is refused. */
  lemma ParseEmptyColour()
    ensures ParseToken(Some("r..s")) == None
  {
    assert "r..s" == "r" + "." + "" + "." + "s";
    ParsePieces("r", "", "s");
    NonColourSpellings();
  }

  /** "r.1", with no suffix, is accepted as Black. */
  lemma ParseShortToken()
    ensures ParseToken(Some("r.1")) == Some(TokenClaim("r", 1))
  {
    assert "r.1" == "r" + "." + DecimalString(1);
    NumberOfDecimal(1);
    ParseTwoPieces("r", DecimalString(1));
    RoundsToIntegers(1, 1);
  }

  /** A colour piece with a plus sign passes: "+1" is Black. */
  lemma ParsePlusColour()
    ensures ParseToken(Some("r.+1.s")) == Some(TokenClaim("r", 1))
  {
    PlusDecimal(1);
    assert "r.+1.s" == "r" + "." + ("+" + DecimalString(1)) + "." + "s";
    ParsePieces("r", "+" + DecimalString(1), "s");
  }

  /** A negative colour piece is refused: "-2" is not White. */
  lemma ParseMinusColour()
    ensures ParseToken(Some("r.-2.s")) == None
  {
    MinusDecimal(2);
    assert "r.-2.s" == "r" + "." + ("-" + DecimalString(2)) + "." + "s";
    ParsePieces("r", "-" + DecimalString(2), "s");
  }

  /** A colour piece with an exponent passes: "2e0" is White. */
  lemma ParseExponentColour()
    ensures ParseToken(Some("r.2e0.s")) == Some(TokenClaim("r", 2))
  {
    assert "r.2e0.s" == "r" + "." + "2e0" + "." + "s";
    ParsePieces("r", "2e0", "s");
    ExponentSpellingOfTwo();
  }

  // ---------------------------------------------------------------------
  // hello

  /** The presented token parses, its room exists, and the seat it names holds exactly this token. */
  predicate Authenticates(st: State, token: Option<string>)
  {
    match ParseToken(token)
    case None => false
    case Some(claim) =>
      claim.roomId in st.rooms
      && SeatOf(st.rooms[claim.roomId], claim.color).Some?
      && Some(SeatOf(st.rooms[claim.roomId], claim.color).value.token) == token
  }

  /**
    `hello`: on a valid token, bind the socket to its room and colour, add it
    to the room's sockets, send it the room state and tell the others who
    joined; otherwise send it one error.
   */
  function HelloStep(st: State, ws: SocketId, token: Option<string>): Outcome
  {
    match ParseToken(token)
    case None => Outcome(st, [Delivery({ws}, ErrorMsg("invalid token"))])
    case Some(claim) =>
      if claim.roomId !in st.rooms then
        Outcome(st, [Delivery({ws}, ErrorMsg("room not found"))])
      else
        var room := st.rooms[claim.roomId];
        var held := SeatOf(room, claim.color);
        if held.None? || Some(held.value.token) != token then
          Outcome(st, [Delivery({ws}, ErrorMsg("auth failed"))])
        else
          var room' := room.(sockets := room.sockets + {ws});
          var st' := State(st.rooms[claim.roomId := room'], st.meta[ws := SeatRef(claim.roomId, claim.color)]);
          var hello := StateMsg(room.board, room.current, room.gameOver, room.winLine, None, Some(claim.color), None);
          var joined := InfoMsg(if claim.color == 1 then "Black joined" else "White joined");
          Outcome(st', [Delivery({ws}, hello), Delivery(room'.sockets - {ws}, joined)])
  }

  /** The error `hello` sends for a token that does not authenticate. */
  function HelloError(st: State, token: Option<string>): string
  {
    match ParseToken(token)
    case None => "invalid token"
    case Some(claim) => if claim.roomId !in st.rooms then "room not found" else "auth failed"
  }

  /**
    `hello` binds the socket exactly when the token authenticates: then the
    socket plays the token's room and colour, joins the room's sockets, and
    nothing else changes; otherwise the state is unchanged and the socket
    gets one error.
   */
  lemma HelloIffAuthenticates(st: State, ws: SocketId, token: Option<string>)
    ensures Authenticates(st, token) ==>
      var claim := ParseToken(token).value;
      var o := HelloStep(st, ws, token);
      && o.st.meta == st.meta[ws := SeatRef(claim.roomId, claim.color)]
      && o.st.rooms == st.rooms[claim.roomId := st.rooms[claim.roomId].(sockets := st.rooms[claim.roomId].sockets + {ws})]
      && |o.out| == 2 && o.out[0].to == {ws} && o.out[0].msg.StateMsg? && o.out[0].msg.youAre == Some(claim.color)
    ensures !Authenticates(st, token) ==>
      HelloStep(st, ws, token) == Outcome(st, [Delivery({ws}, ErrorMsg(HelloError(st, token)))])
  {
  }

  /**
    An authenticated `hello` sends the socket the room's board, turn, result
    and line with its colour, and tells the room's other sockets which
    colour joined.
   */
  lemma HelloMessages(st: State, ws: SocketId, token: Option<string>)
    requires Authenticates(st, token)
    ensures var claim := ParseToken(token).value;
      var room := st.rooms[claim.roomId];
      HelloStep(st, ws, token).out == [
        Delivery({ws}, StateMsg(room.board, room.current, room.gameOver, room.winLine, None, Some(claim.color), None)),
        Delivery(room.sockets - {ws}, InfoMsg(if claim.color == 1 then "Black joined" else "White joined"))]
  {
    var room := st.rooms[ParseToken(token).value.roomId];
    assert (room.sockets + {ws}) - {ws} == room.sockets - {ws};
  }

  // ---------------------------------------------------------------------
  // move

  /** The first failing check of a move, in the order the server tests them; `None` when the move is legal. */
  function MoveCheck(room: Room, r: int, c: int, color: int): Option<string>
    requires WellFormed(room.board)
  {
    if room.gameOver then Some("game already over")
    else if !InRange(r, c) then Some("out of range")
    else if room.board[r][c] != 0 then Some("occupied")
    else if color != room.current then Some("not your turn")
    else None
  }

  function Flip(color: int): int
  {
    if color == 1 then 2 else 1
  }

  /** Place a stone and either end the game on a win or pass the turn. */
  function Play(room: Room, r: int, c: int, color: int): Room
    requires WellFormed(room.board) && InRange(r, c)
  {
    var board := Place(room.board, r, c, color);
    match WinOf(board, r, c)
    case Win(line) => room.(board := board, gameOver := true, winLine := Some(line))
    case NoWin => room.(board := board, current := Flip(room.current))
  }

  /** The state broadcast after a move. */
  function PlayedMsg(room: Room, r: int, c: int, color: int): ServerMsg
  {
    if room.gameOver then
      StateMsg(room.board, room.current, true, room.winLine, Some(color), None, Some(LastMove(r, c, color)))
    else
      StateMsg(room.board, room.current, false, None, None, None, Some(LastMove(r, c, color)))
  }

  predicate BoardsWellFormed(st: State)
  {
    forall id :: id in st.rooms ==> WellFormed(st.rooms[id].board)
  }

  /**
    `move`: ignored from a socket without a seat or whose room is gone;
    otherwise rejected with one error, or played and broadcast to the
    room's sockets.
   */
  function MoveStep(st: State, ws: SocketId, r: int, c: int): Outcome
    requires BoardsWellFormed(st)
  {
    if ws !in st.meta then Outcome(st, [])
    else
      var m := st.meta[ws];
      if m.roomId !in st.rooms then Outcome(st, [])
      else
        var room := st.rooms[m.roomId];
        match MoveCheck(room, r, c, m.color)
        case Some(err) => Outcome(st, [Delivery({ws}, ErrorMsg(err))])
        case None =>
          var room' := Play(room, r, c, m.color);
          Outcome(st.(rooms := st.rooms[m.roomId := room']), [Delivery(room.sockets, PlayedMsg(room', r, c, m.color))])
  }

  /** A move from a socket without a seat, or whose room is gone, changes nothing and sends nothing. */
  lemma MoveFromNowhere(st: State, ws: SocketId, r: int, c: int)
    requires BoardsWellFormed(st)
    requires ws !in st.meta || st.meta[ws].roomId !in st.rooms
    ensures MoveStep(st, ws, r, c) == Outcome(st, [])
  {
  }

  /**
    A move is rejected by the first failing check, in the order game over,
    out of range, occupied, not your turn; a rejected move changes nothing
    and sends the mover one error.
   */
  lemma MoveRejected(st: State, ws: SocketId, r: int, c: int)
    requires BoardsWellFormed(st)
    requires ws in st.meta && st.meta[ws].roomId in st.rooms
    requires var room := st.rooms[st.meta[ws].roomId];
      room.gameOver || !InRange(r, c) || room.board[r][c] != 0 || st.meta[ws].color != room.current
    ensures var room := st.rooms[st.meta[ws].roomId];
      var err :=
        if room.gameOver then "game already over"
        else if !InRange(r, c) then "out of range"
        else if room.board[r][c] != 0 then "occupied"
        else "not your turn";
      MoveStep(st, ws, r, c) == Outcome(st, [Delivery({ws}, ErrorMsg(err))])
  {
  }

  /** Once a room's game is over, no move changes the state. */
  lemma NoMoveAfterGameOver(st: State, ws: SocketId, r: int, c: int)
    requires BoardsWellFormed(st)
    requires ws in st.meta && st.meta[ws].roomId in st.rooms && st.rooms[st.meta[ws].roomId].gameOver
    ensures MoveStep(st, ws, r, c).st == st
  {
  }

  /**
    An accepted move sets exactly the target cell to the mover's colour,
    which is the colour to move; the stone count rises by one. A win ends
    the game with the mover still current and the line recorded; otherwise
    the turn passes to the other colour. Seats, sockets, bindings and other
    rooms are untouched, and the room's sockets get the new state.
   */
  lemma MoveAccepted(st: State, ws: SocketId, r: int, c: int)
    requires BoardsWellFormed(st)
    requires ws in st.meta && st.meta[ws].roomId in st.rooms
    requires st.meta[ws].color == 1 || st.meta[ws].color == 2
    requires var room := st.rooms[st.meta[ws].roomId];
      !room.gameOver && InRange(r, c) && room.board[r][c] == 0 && st.meta[ws].color == room.current
    ensures var id := st.meta[ws].roomId;
      var room := st.rooms[id];
      var o := MoveStep(st, ws, r, c);
      && o.st.meta == st.meta
      && o.st.rooms.Keys == st.rooms.Keys
      && (forall id' :: id' in st.rooms && id' != id ==> o.st.rooms[id'] == st.rooms[id'])
      && var room' := o.st.rooms[id];
      && WellFormed(room'.board)
      && room'.board[r][c] == room.current
      && (forall r', c' :: InRange(r', c') && (r', c') != (r, c) ==> room'.board[r'][c'] == room.board[r'][c'])
      && StoneCount(room'.board) == StoneCount(room.board) + 1
      && room'.black == room.black && room'.white == room.white && room'.sockets == room.sockets
      && (room'.gameOver <==> WinOf(room'.board, r, c).Win?)
      && (room'.gameOver ==> room'.current == room.current && room'.winLine == Some(WinOf(room'.board, r, c).line))
      && (!room'.gameOver ==> room'.current == Flip(room.current) && room'.winLine == room.winLine)
      && o.out == [Delivery(room.sockets, PlayedMsg(room', r, c, room.current))]
  {
    var room := st.rooms[st.meta[ws].roomId];
    PlaceAddsOneStone(room.board, r, c, room.current);
  }

  // ---------------------------------------------------------------------
  // restart and close

  /** A new game: empty board, Black to move, no result; seats and sockets stay. */
  function Reset(room: Room): Room
  {
    room.(board := EmptyBoard(), current := 1, gameOver := false, winLine := None)
  }

  /** `restart`: any seated socket resets its room and the new state is broadcast. */
  function RestartStep(st: State, ws: SocketId): Outcome
  {
    if ws !in st.meta || st.meta[ws].roomId !in st.rooms then Outcome(st, [])
    else
      var id := st.meta[ws].roomId;
      var room' := Reset(st.rooms[id]);
      Outcome(st.(rooms := st.rooms[id := room']),
        [Delivery(st.rooms[id].sockets, StateMsg(room'.board, room'.current, false, None, None, None, None))])
  }

  /**
    A restart from a seated socket leaves its room with no stones, Black to
    move, the game open and no line, with seats and sockets as they were,
    whatever state the room was in; the cleared state goes to every socket
    of the room, and bindings and other rooms stay. A restart from a socket
    that is unbound, or whose room is gone, changes nothing and sends
    nothing.
   */
  lemma RestartResets(st: State, ws: SocketId)
    ensures ws !in st.meta || st.meta[ws].roomId !in st.rooms ==> RestartStep(st, ws) == Outcome(st, [])
    ensures ws in st.meta && st.meta[ws].roomId in st.rooms ==>
      var id := st.meta[ws].roomId;
      var room := st.rooms[id];
      var o := RestartStep(st, ws);
      var room' := o.st.rooms[id];
      && room'.board == EmptyBoard() && StoneCount(room'.board) == 0
      && room'.current == 1 && !room'.gameOver && room'.winLine.None?
      && room'.black == room.black && room'.white == room.white && room'.sockets == room.sockets
      && o.st.meta == st.meta
      && o.st.rooms == st.rooms[id := room']
      && o.out == [Delivery(room.sockets, StateMsg(EmptyBoard(), 1, false, None, None, None, None))]
  {
    EmptyBoardStoneCount();
  }

  /** A socket closing leaves its room's sockets; its seat and binding are kept. */
  function CloseStep(st: State, ws: SocketId): State
  {
    if ws !in st.meta || st.meta[ws].roomId !in st.rooms then st
    else
      var id := st.meta[ws].roomId;
      st.(rooms := st.rooms[id := st.rooms[id].(sockets := st.rooms[id].sockets - {ws})])
  }

  /**
    Closing a socket never changes which tokens authenticate, so a player
    can reconnect with the same token. The socket leaves its room's sockets
    and nothing else changes: the binding map, the set of rooms, every
    room's seats, board, turn and result, and the other sockets all stay.
    A socket that is not bound to an existing room changes nothing.
   */
  lemma CloseKeepsSeats(st: State, ws: SocketId, token: Option<string>)
    ensures Authenticates(CloseStep(st, ws), token) == Authenticates(st, token)
    ensures CloseStep(st, ws).meta == st.meta
    ensures CloseStep(st, ws).rooms.Keys == st.rooms.Keys
    ensures forall id :: id in st.rooms ==>
      && CloseStep(st, ws).rooms[id].(sockets := {}) == st.rooms[id].(sockets := {})
      && CloseStep(st, ws).rooms[id].sockets
        == if ws in st.meta && st.meta[ws].roomId == id then st.rooms[id].sockets - {ws}
           else st.rooms[id].sockets
    ensures ws !in st.meta || st.meta[ws].roomId !in st.rooms ==> CloseStep(st, ws) == st
  {
  }

  // ---------------------------------------------------------------------
  // Events

  datatype Event =
    | Message(ws: SocketId, msg: ClientMsg)
    | Closed(ws: SocketId)
    | TokenRequest(room: string, suffix: string)

  /** One event handled by the server. */
  function Step(st: State, ev: Event): Outcome
    requires BoardsWellFormed(st)
  {
    match ev
    case Message(ws, Hello(token)) => HelloStep(st, ws, token)
    case Message(ws, MoveMsg(r, c)) => MoveStep(st, ws, r, c)
    case Message(ws, RestartMsg) => RestartStep(st, ws)
    case Message(_, Ignored) => Outcome(st, [])
    case Closed(ws) => Outcome(CloseStep(st, ws), [])
    case TokenRequest(room, suffix) => Outcome(IssueToken(st, room, suffix).st, [])
  }

  // ---------------------------------------------------------------------
  // The state invariant

  /** Some cell of `color` has `line` as the line `computeWin` reports for it. */
  ghost predicate WinningLine(bd: Board, color: int, line: seq<Pos>)
    requires WellFormed(bd)
  {
    exists r, c :: InRange(r, c) && bd[r][c] == color && WinOf(bd, r, c) == Win(line)
  }

  /** A held seat's token is `${roomId}.${color}.${id}` with a dot-free id. */
  predicate SeatValid(roomId: string, seat: Option<Seat>, color: nat)
  {
    seat.Some? ==> '.' !in seat.value.id && seat.value.token == MakeToken(roomId, color, seat.value.id)
  }

  ghost predicate RoomValid(id: string, room: Room)
  {
    && WellFormed(room.board) && ValidCells(room.board)
    && (room.current == 1 || room.current == 2)
    && (room.gameOver <==> room.winLine.Some?)
    && (room.winLine.Some? ==> WinningLine(room.board, room.current, room.winLine.value))
    && SeatValid(id, room.black, 1) && SeatValid(id, room.white, 2)
  }

  /**
    Every room has a 19x19 board of 0, 1 and 2, a colour to move, a
    recorded line exactly when the game is over (a winning line of the
    colour to move), and seat tokens of the issued form; every bound
    socket plays colour 1 or 2.
   */
  ghost predicate Valid(st: State)
  {
    && (forall id :: id in st.rooms ==> RoomValid(id, st.rooms[id]))
    && (forall ws :: ws in st.meta ==> st.meta[ws].color == 1 || st.meta[ws].color == 2)
  }

  lemma ValidBoards(st: State)
    requires Valid(st)
    ensures BoardsWellFormed(st)
  {
  }

  lemma InitValid()
    ensures Valid(Init)
  {
  }

  lemma IssueValid(st: State, roomParam: string, suffix: string)
    requires Valid(st) && IsRandomSuffix(suffix)
    ensures Valid(IssueToken(st, roomParam, suffix).st)
  {
    var roomId := Trim(roomParam);
    if roomId != [] {
      var room := if roomId in st.rooms then st.rooms[roomId] else NewRoom();
      EmptyBoardValid();
      assert RoomValid(roomId, room);
      RandomSuffixDotFree(suffix);
      var res := IssueToken(st, roomParam, suffix);
      if room.black.None? {
        SeatIdIsSuffix(roomId, 1, suffix);
        assert RoomValid(roomId, res.st.rooms[roomId]);
      } else if room.white.None? {
        SeatIdIsSuffix(roomId, 2, suffix);
        assert RoomValid(roomId, res.st.rooms[roomId]);
      }
    }
  }

  lemma EmptyBoardValid()
    ensures RoomValid([], NewRoom())
    ensures WellFormed(EmptyBoard()) && ValidCells(EmptyBoard())
  {
  }

  lemma HelloValid(st: State, ws: SocketId, token: Option<string>)
    requires Valid(st)
    ensures Valid(HelloStep(st, ws, token).st)
  {
    if Authenticates(st, token) {
      var claim := ParseToken(token).value;
      assert RoomValid(claim.roomId, st.rooms[claim.roomId]);
    }
  }

  lemma MoveValid(st: State, ws: SocketId, r: int, c: int)
    requires Valid(st)
    ensures BoardsWellFormed(st)
    ensures Valid(MoveStep(st, ws, r, c).st)
  {
    if ws in st.meta && st.meta[ws].roomId in st.rooms {
      var id := st.meta[ws].roomId;
      var room := st.rooms[id];
      assert RoomValid(id, room);
      if MoveCheck(room, r, c, st.meta[ws].color).None? {
        PlayValid(id, room, r, c);
      }
    }
  }

  /** A legal move keeps its room valid. */
  lemma PlayValid(id: string, room: Room, r: int, c: int)
    requires RoomValid(id, room)
    requires MoveCheck(room, r, c, room.current).None?
    ensures RoomValid(id, Play(room, r, c, room.current))
  {
    var color := room.current;
    var board := Place(room.board, r, c, color);
    var room' := Play(room, r, c, color);
    assert ValidCells(board);
    match WinOf(board, r, c)
    case Win(line) =>
      assert room'.current == color;
      assert WinningLine(board, color, line);
    case NoWin =>
  }

  lemma RestartValid(st: State, ws: SocketId)
    requires Valid(st)
    ensures Valid(RestartStep(st, ws).st)
  {
    if ws in st.meta && st.meta[ws].roomId in st.rooms {
      var id := st.meta[ws].roomId;
      assert RoomValid(id, st.rooms[id]);
      EmptyBoardValid();
    }
  }

  lemma CloseValid(st: State, ws: SocketId)
    requires Valid(st)
    ensures Valid(CloseStep(st, ws))
  {
    if ws in st.meta && st.meta[ws].roomId in st.rooms {
      var id := st.meta[ws].roomId;
      assert RoomValid(id, st.rooms[id]);
    }
  }

  /** An event a server can receive: token suffixes come from `Math.random().toString(36)`. */
  predicate Possible(ev: Event)
  {
    ev.TokenRequest? ==> IsRandomSuffix(ev.suffix)
  }

  /** Every event keeps the state valid. */
  lemma StepValid(st: State, ev: Event)
    requires Valid(st) && Possible(ev)
    ensures BoardsWellFormed(st)
    ensures Valid(Step(st, ev).st)
  {
    ValidBoards(st);
    match ev
    case Message(ws, Hello(token)) => HelloValid(st, ws, token);
    case Message(ws, MoveMsg(r, c)) => MoveValid(st, ws, r, c);
    case Message(ws, RestartMsg) => RestartValid(st, ws);
    case Message(_, Ignored) =>
    case Closed(ws) => CloseValid(st, ws);
    case TokenRequest(room, suffix) => IssueValid(st, room, suffix);
  }

  /** The state after a run of events from a valid state; it is valid again. */
  ghost function Run(st: State, evs: seq<Event>): (st': State)
    requires Valid(st)
    requires forall i :: 0 <= i < |evs| ==> Possible(evs[i])
    ensures Valid(st')
    decreases |evs|
  {
    if evs == [] then st
    else
      StepValid(st, evs[0]);
      Run(Step(st, evs[0]).st, evs[1..])
  }

  /** Every state the server reaches from start-up is valid. */
  lemma ReachableValid(evs: seq<Event>)
    requires forall i :: 0 <= i < |evs| ==> Possible(evs[i])
    ensures Valid(Run(Init, evs))
  {
    InitValid();
  }

  // ---------------------------------------------------------------------
  // Seat assignment and authentication

  /** An empty or all-whitespace room id gets status 400 and changes nothing. */
  lemma IssueNeedsRoom(st: State, roomParam: string, suffix: string)
    requires AllSpace(roomParam)
    ensures IssueToken(st, roomParam, suffix) == Issued(st, RoomRequired)
  {
  }

  /**
    Black is given out while it is free, then white; with both taken the
    reply is 409 and nothing changes. Only the chosen seat is filled, with
    the token's last piece as its id and the returned token; every other
    field of the room, and every other room, stays as it was.
   */
  lemma IssueSeatOrder(st: State, roomParam: string, suffix: string)
    requires Trim(roomParam) != []
    ensures var id := Trim(roomParam);
      var res := IssueToken(st, roomParam, suffix);
      var room := if id in st.rooms then st.rooms[id] else NewRoom();
      && (room.black.None? ==>
            && res.reply.Granted? && res.reply.color == 1
            && res.st.rooms[id] == room.(black := Some(Seat(Last(Split(res.reply.token)), res.reply.token))))
      && (room.black.Some? && room.white.None? ==>
            && res.reply.Granted? && res.reply.color == 2
            && res.st.rooms[id] == room.(white := Some(Seat(Last(Split(res.reply.token)), res.reply.token))))
      && (room.black.Some? && room.white.Some? ==> res == Issued(st, RoomFull))
      && (res.reply.Granted? ==> res.st.rooms == st.rooms[id := res.st.rooms[id]])
  {
    var id := Trim(roomParam);
    if id in st.rooms && st.rooms[id].black.Some? && st.rooms[id].white.Some? {
      assert st.rooms[id := st.rooms[id]] == st.rooms;
    }
  }

  /** A new room's first token gets black, the second white, and the third is refused with nothing changed. */
  lemma FreshRoomSeats(st: State, roomParam: string, s1: string, s2: string, s3: string)
    requires Trim(roomParam) != [] && Trim(roomParam) !in st.rooms
    ensures var i1 := IssueToken(st, roomParam, s1);
      var i2 := IssueToken(i1.st, roomParam, s2);
      var i3 := IssueToken(i2.st, roomParam, s3);
      && i1.reply.Granted? && i1.reply.color == 1
      && i2.reply.Granted? && i2.reply.color == 2
      && i3 == Issued(i2.st, RoomFull)
  {
    var id := Trim(roomParam);
    var i1 := IssueToken(st, roomParam, s1);
    IssueSeatOrder(st, roomParam, s1);
    IssueSeatOrder(i1.st, roomParam, s2);
    var i2 := IssueToken(i1.st, roomParam, s2);
    IssueSeatOrder(i2.st, roomParam, s3);
  }

  /** A token issued for a dot-free room id authenticates its holder for that room and colour. */
  lemma IssuedTokenAuthenticates(st: State, roomParam: string, suffix: string)
    requires IsRandomSuffix(suffix)
    requires '.' !in Trim(roomParam)
    requires IssueToken(st, roomParam, suffix).reply.Granted?
    ensures var res := IssueToken(st, roomParam, suffix);
      && Authenticates(res.st, Some(res.reply.token))
      && ParseToken(Some(res.reply.token)) == Some(TokenClaim(res.reply.room, res.reply.color))
  {
    var res := IssueToken(st, roomParam, suffix);
    RandomSuffixDotFree(suffix);
    IssueSeatOrder(st, roomParam, suffix);
    ParseMadeToken(res.reply.room, res.reply.color, suffix);
  }

  /**
    A room id containing '.' can be issued seats, but no token ever
    authenticates a socket for it: the room id a token names is its first
    piece, which has no dot. In a valid state the token issued for such a
    room authenticates for no room at all.
   */
  lemma DottedRoomNeverJoins(st: State, ws: SocketId, token: Option<string>, roomParam: string, suffix: string)
    requires Valid(st) && IsRandomSuffix(suffix)
    requires '.' in Trim(roomParam)
    ensures Authenticates(st, token) ==> '.' !in ParseToken(token).value.roomId
    ensures var res := IssueToken(st, roomParam, suffix);
      res.reply.Granted? ==> !Authenticates(res.st, Some(res.reply.token))
  {
    var res := IssueToken(st, roomParam, suffix);
    IssueValid(st, roomParam, suffix);
    if res.reply.Granted? {
      RandomSuffixDotFree(suffix);
      DottedTokenFailsEverywhere(res.st, res.reply.room, res.reply.color, suffix);
    }
  }

  /**
    In every valid state, and so in every state the server reaches, a token
    made for a room id containing '.' authenticates for no room.
   */
  lemma DottedTokenFailsEverywhere(st: State, id: string, color: nat, suffix: string)
    requires Valid(st) && '.' in id && '.' !in suffix
    ensures !Authenticates(st, Some(MakeToken(id, color, suffix)))
  {
    var tok := MakeToken(id, color, suffix);
    if Authenticates(st, Some(tok)) {
      var claim := ParseToken(Some(tok)).value;
      var seat := SeatOf(st.rooms[claim.roomId], claim.color).value;
      assert RoomValid(claim.roomId, st.rooms[claim.roomId]);
      assert seat.token == MakeToken(claim.roomId, claim.color, seat.id);
      TokenPieces(claim.roomId, claim.color, seat.id);
      SplitJoin([claim.roomId]);
      TokenPieces(id, color, suffix);
      DottedSplits(id);
      assert false;
    }
  }

  /** A string with a dot splits into at least two pieces. */
  lemma DottedSplits(s: string)
    requires '.' in s
    ensures |Split(s)| >= 2
  {
    var i := DotIndex(s);
    assert s == s[..i] + "." + s[i + 1..];
    SplitAppend(s[..i], s[i + 1..]);
  }

  /** Two sockets presenting the same token both get the seat: nothing limits a seat to one connection. */
  lemma SharedSeat(st: State, ws1: SocketId, ws2: SocketId, token: Option<string>)
    requires Authenticates(st, token)
    ensures var st1 := HelloStep(st, ws1, token).st;
      && Authenticates(st1, token)
      && var st2 := HelloStep(st1, ws2, token).st;
      && st2.meta[ws1] == st2.meta[ws2]
      && var id := ParseToken(token).value.roomId;
      && {ws1, ws2} <= st2.rooms[id].sockets
  {
  }
}
