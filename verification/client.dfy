/**
  The browser client's game logic: the local two-player engine (`L`), the
  online view (`O`) with its "your turn" gate, and room-code generation.
  Clicks arrive as board cells; drawing, status text and the pixel-to-cell
  mapping are not modelled.
 */
module Client {
  import opened Wrappers
  import opened Board
  import opened WinDetector
  import opened JsString
  import opened Protocol
  import opened Server

  // ---------------------------------------------------------------------
  // Local game

  /** The local game `L`: the board, the colour to move, the result, and who starts the next game. */
  datatype LocalGame = LocalGame(
    board: Board,
    current: int,
    gameOver: bool,
    winLine: Option<seq<Pos>>,
    nextFirst: int)

  /** `L` when the page loads. */
  function LocalInit(): LocalGame
  {
    LocalGame(EmptyBoard(), 1, false, None, 1)
  }

  /** `localReset(first)`: a new game with `first` to move. */
  function LocalReset(g: LocalGame, first: int): (g': LocalGame)
    ensures WellFormed(g'.board) && StoneCount(g'.board) == 0
    ensures g'.current == first && !g'.gameOver && g'.winLine.None?
    ensures g'.nextFirst == g.nextFirst
  {
    EmptyBoardStoneCount();
    g.(board := EmptyBoard(), current := first, gameOver := false, winLine := None)
  }

  /**
    The board logic of `onLocalClick`: ignored when the game is over, the
    cell is off the board or taken; otherwise the stone is placed and the
    game either ends, remembering the winner as next game's first mover,
    or passes the turn.
   */
  function LocalClick(g: LocalGame, r: int, c: int): LocalGame
    requires WellFormed(g.board)
  {
    if g.gameOver || !InRange(r, c) || g.board[r][c] != 0 then g
    else
      var board := Place(g.board, r, c, g.current);
      match WinOf(board, r, c)
      case Win(line) =>
        g.(board := board, gameOver := true, winLine := Some(line), nextFirst := if g.current == 2 then 2 else 1)
      case NoWin =>
        g.(board := board, current := if g.current == 1 then 2 else 1)
  }

  /** The Restart button in local mode. */
  function LocalRestart(g: LocalGame): LocalGame
  {
    LocalReset(g, g.nextFirst)
  }

  /** A click after the game ended, off the board, or on a stone changes nothing. */
  lemma LocalClickIgnored(g: LocalGame, r: int, c: int)
    requires WellFormed(g.board)
    requires g.gameOver || !InRange(r, c) || g.board[r][c] != 0
    ensures LocalClick(g, r, c) == g
  {
  }

  /** The room the server would hold for the same game. */
  function AsRoom(g: LocalGame): Room
  {
    Room(g.board, g.current, g.gameOver, g.winLine, None, None, {})
  }

  /**
    A local move plays exactly as the server plays a move of the colour to
    move: same board, same result, same winning line, same next colour.
   */
  lemma LocalAgreesWithServer(g: LocalGame, r: int, c: int)
    requires WellFormed(g.board)
    requires !g.gameOver && InRange(r, c) && g.board[r][c] == 0
    ensures var g' := LocalClick(g, r, c);
      var room' := Play(AsRoom(g), r, c, g.current);
      && g'.board == room'.board && g'.current == room'.current
      && g'.gameOver == room'.gameOver && g'.winLine == room'.winLine
  {
  }

  /**
    A local move sets exactly the clicked cell to the mover's colour and adds
    one stone; a winning move ends the game with the mover still current,
    otherwise the other colour moves next.
   */
  lemma LocalMove(g: LocalGame, r: int, c: int)
    requires WellFormed(g.board) && (g.current == 1 || g.current == 2)
    requires !g.gameOver && InRange(r, c) && g.board[r][c] == 0
    ensures var g' := LocalClick(g, r, c);
      && WellFormed(g'.board) && g'.board[r][c] == g.current
      && (forall r', c' :: InRange(r', c') && (r', c') != (r, c) ==> g'.board[r'][c'] == g.board[r'][c'])
      && StoneCount(g'.board) == StoneCount(g.board) + 1
      && (g'.gameOver <==> RunOfFive(g'.board, r, c))
      && (g'.gameOver ==> g'.current == g.current && g'.winLine.Some?)
      && (!g'.gameOver ==> g'.current == 3 - g.current && g'.nextFirst == g.nextFirst)
  {
    PlaceAddsOneStone(g.board, r, c, g.current);
    WinIffRunOfFive(Place(g.board, r, c, g.current), r, c);
  }

  /**
    After a local win, Restart starts an empty game with the winner to move,
    unlike the server's restart, which always gives Black the first move.
   */
  lemma WinnerMovesFirst(g: LocalGame, r: int, c: int)
    requires WellFormed(g.board) && (g.current == 1 || g.current == 2)
    requires !g.gameOver && InRange(r, c) && g.board[r][c] == 0
    requires LocalClick(g, r, c).gameOver
    ensures var g' := LocalRestart(LocalClick(g, r, c));
      && g'.current == g.current
      && StoneCount(g'.board) == 0 && !g'.gameOver && g'.winLine.None?
  {
  }

  /** The local invariant: the room invariant of the same game, and a first mover of 1 or 2. */
  ghost predicate LocalValid(g: LocalGame)
  {
    && RoomValid([], AsRoom(g))
    && (g.nextFirst == 1 || g.nextFirst == 2)
  }

  lemma LocalInitValid()
    ensures LocalValid(LocalInit())
  {
    EmptyBoardValid();
  }

  /** Every click keeps the local game valid. */
  lemma LocalClickValid(g: LocalGame, r: int, c: int)
    requires LocalValid(g)
    ensures WellFormed(g.board)
    ensures LocalValid(LocalClick(g, r, c))
  {
    if !g.gameOver && InRange(r, c) && g.board[r][c] == 0 {
      LocalAgreesWithServer(g, r, c);
      PlayValid([], AsRoom(g), r, c);
      assert AsRoom(LocalClick(g, r, c)) == Play(AsRoom(g), r, c, g.current);
    }
  }

  /** Restart keeps the local game valid. */
  lemma LocalRestartValid(g: LocalGame)
    requires LocalValid(g)
    ensures LocalValid(LocalRestart(g))
  {
    EmptyBoardValid();
  }

  // ---------------------------------------------------------------------
  // Online view

  /**
    The online state `O` as the game logic sees it, with `connected` for an
    open WebSocket and `interactive` for the canvas accepting clicks
    (`pointerEvents` not `"none"`).
   */
  datatype OnlineView = OnlineView(
    board: Board,
    current: int,
    gameOver: bool,
    winLine: Option<seq<Pos>>,
    youAre: int,
    token: Option<string>,
    connected: bool,
    interactive: bool)

  /** `O` after a granted token, before the WebSocket opens. */
  function Joined(token: string, color: int): OnlineView
  {
    OnlineView(EmptyBoard(), 1, false, None, color, Some(token), false, false)
  }

  /** `yourTurn`: the board takes clicks when the room is ready, the game is on, and it is this player's colour. */
  predicate YourTurn(ready: bool, gameOver: bool, youAre: int, current: int)
  {
    ready && !gameOver && youAre == current
  }

  /** A state message carrying the given `ready` flag. */
  function ReceiveState(v: OnlineView, msg: ServerMsg, ready: bool): (v': OnlineView)
    requires msg.StateMsg?
    ensures v'.board == msg.board && v'.current == msg.current
    ensures v'.gameOver == msg.gameOver && v'.winLine == msg.winLine
    ensures v'.youAre == v.youAre && v'.connected == v.connected
  {
    v.(board := msg.board, current := msg.current, gameOver := msg.gameOver, winLine := msg.winLine,
       interactive := YourTurn(ready, msg.gameOver, v.youAre, msg.current))
  }

  /**
    A message from the server: errors and infos change only the status
    line; a state message replaces the view. No message the server sends
    carries `ready`, so the flag reads false.
   */
  function Receive(v: OnlineView, msg: ServerMsg): OnlineView
  {
    if msg.StateMsg? then ReceiveState(v, msg, false) else v
  }

  datatype ClickResult = ClickResult(view: OnlineView, sent: Option<ClientMsg>)

  /**
    `onOnlineClick`: nothing is sent without an open socket, after the game
    ended, off the board, on a stone, or while the canvas is disabled;
    otherwise the move is sent and the canvas disabled.
   */
  function OnlineClick(v: OnlineView, r: int, c: int): ClickResult
    requires WellFormed(v.board)
  {
    if !v.connected || v.gameOver || !InRange(r, c) || v.board[r][c] != 0 || !v.interactive then ClickResult(v, None)
    else ClickResult(v.(interactive := false), Some(MoveMsg(r, c)))
  }

  /** A click sends a move exactly when the socket is open, the game is on, the cell is a free board cell and the canvas takes clicks. */
  lemma OnlineClickSends(v: OnlineView, r: int, c: int)
    requires WellFormed(v.board)
    ensures var res := OnlineClick(v, r, c);
      && (res.sent.Some? <==> v.connected && !v.gameOver && InRange(r, c) && v.board[r][c] == 0 && v.interactive)
      && (res.sent.Some? ==> res.sent == Some(MoveMsg(r, c)) && !res.view.interactive)
      && (res.sent.None? ==> res.view == v)
  {
  }

  /** What happens to the online view. */
  datatype ClientEvent =
    | Opened
    | Received(msg: ServerMsg)
    | Clicked(r: int, c: int)
    | RestartPressed
    | Disconnected

  /** Boards from the server are 19x19, as every room's board is. */
  predicate FromServer(ev: ClientEvent)
  {
    ev.Received? && ev.msg.StateMsg? ==> WellFormed(ev.msg.board)
  }

  /**
    One event: on open the client sends `hello` and disables the canvas; on
    Restart it sends `restart` if connected and disables the canvas; on
    close it disables the canvas.
   */
  function OnlineStep(v: OnlineView, ev: ClientEvent): (res: ClickResult)
    requires WellFormed(v.board)
    ensures res.view.board == if ev.Received? && ev.msg.StateMsg? then ev.msg.board else v.board
    ensures res.view.youAre == v.youAre
  {
    match ev
    case Opened => ClickResult(v.(connected := true, interactive := false), Some(Hello(v.token)))
    case Received(msg) => ClickResult(Receive(v, msg), None)
    case Clicked(r, c) => OnlineClick(v, r, c)
    case RestartPressed =>
      ClickResult(v.(interactive := false), if v.connected then Some(RestartMsg) else None)
    case Disconnected => ClickResult(v.(connected := false, interactive := false), None)
  }

  /** The messages the client sends over a run of events. */
  function OnlineRun(v: OnlineView, evs: seq<ClientEvent>): (sent: seq<ClientMsg>)
    requires WellFormed(v.board)
    requires forall i :: 0 <= i < |evs| ==> FromServer(evs[i])
    decreases |evs|
  {
    if evs == [] then []
    else
      assert FromServer(evs[0]);
      var res := OnlineStep(v, evs[0]);
      var rest := OnlineRun(res.view, evs[1..]);
      match res.sent
      case Some(m) => [m] + rest
      case None => rest
  }

  /** No event makes a disabled canvas take clicks, since no state message carries `ready`. */
  lemma OnlineStepKeepsDisabled(v: OnlineView, ev: ClientEvent)
    requires WellFormed(v.board) && !v.interactive && FromServer(ev)
    ensures var res := OnlineStep(v, ev);
      && WellFormed(res.view.board) && !res.view.interactive
      && (res.sent.Some? ==> !res.sent.value.MoveMsg?)
  {
  }

  /**
    Starting from a joined view, the client never sends a move, whatever
    the server sends and wherever the player clicks.
   */
  lemma {:induction false} OnlineNeverMoves(v: OnlineView, evs: seq<ClientEvent>)
    requires WellFormed(v.board) && !v.interactive
    requires forall i :: 0 <= i < |evs| ==> FromServer(evs[i])
    ensures forall i :: 0 <= i < |OnlineRun(v, evs)| ==> !OnlineRun(v, evs)[i].MoveMsg?
    decreases |evs|
  {
    if evs != [] {
      OnlineStepKeepsDisabled(v, evs[0]);
      var res := OnlineStep(v, evs[0]);
      OnlineNeverMoves(res.view, evs[1..]);
    }
  }

  /** The joined view starts disabled, so a joined player never sends a move. */
  lemma JoinedNeverMoves(token: string, color: int, evs: seq<ClientEvent>)
    requires forall i :: 0 <= i < |evs| ==> FromServer(evs[i])
    ensures forall i :: 0 <= i < |OnlineRun(Joined(token, color), evs)| ==> !OnlineRun(Joined(token, color), evs)[i].MoveMsg?
  {
    OnlineNeverMoves(Joined(token, color), evs);
  }

  /** A room is ready once both seats are taken. */
  predicate ReadyOf(room: Room)
  {
    room.black.Some? && room.white.Some?
  }

  /**
    With `ready` sent as "both seats taken", the player to move in a ready
    room gets an enabled board and a click on a free cell sends the move;
    as sent today the same message leaves the board disabled and the click
    sends nothing.
   */
  lemma ReadyGateOpens(v: OnlineView, room: Room, r: int, c: int)
    requires v.connected && WellFormed(room.board) && ReadyOf(room) && !room.gameOver
    requires v.youAre == room.current && InRange(r, c) && room.board[r][c] == 0
    ensures var msg := StateMsg(room.board, room.current, room.gameOver, room.winLine, None, None, None);
      && OnlineClick(ReceiveState(v, msg, ReadyOf(room)), r, c).sent == Some(MoveMsg(r, c))
      && OnlineClick(Receive(v, msg), r, c).sent == None
  {
  }

  // ---------------------------------------------------------------------
  // Room codes

  /** The room-code alphabet: capitals and digits without I, O, 0 and 1. */
  const RoomAlphabet: string := "ABCDEFGHJKLMNPQRSTUVWXYZ23456789"

  /** The position of a character in the alphabet, or -1. */
  function CodeIndex(ch: char): int
  {
    if 'A' <= ch <= 'H' then ch as int - 'A' as int
    else if 'J' <= ch <= 'N' then ch as int - 'J' as int + 8
    else if 'P' <= ch <= 'Z' then ch as int - 'P' as int + 13
    else if '2' <= ch <= '9' then ch as int - '2' as int + 24
    else -1
  }

  /** The alphabet has 32 distinct characters, none of them I, O, 0 or 1. */
  lemma AlphabetFacts()
    ensures |RoomAlphabet| == 32
    ensures forall i :: 0 <= i < |RoomAlphabet| ==> CodeIndex(RoomAlphabet[i]) == i
    ensures 'I' !in RoomAlphabet && 'O' !in RoomAlphabet && '0' !in RoomAlphabet && '1' !in RoomAlphabet
  {
  }

  predicate ValidDraws(draws: seq<nat>)
  {
    forall i :: 0 <= i < |draws| ==> draws[i] < |RoomAlphabet|
  }

  /** The code spelled by a sequence of draws `Math.floor(Math.random() * 32)`. */
  function RoomCode(draws: seq<nat>): (code: string)
    requires ValidDraws(draws)
    ensures |code| == |draws|
  {
    seq(|draws|, i requires 0 <= i < |draws| => RoomAlphabet[draws[i]])
  }

  /** The draws a code was spelled from. */
  function CodeDraws(code: string): seq<int>
  {
    seq(|code|, i requires 0 <= i < |code| => CodeIndex(code[i]))
  }

  /** A room code determines its draws: different draws give different codes. */
  lemma RoomCodeRoundTrip(draws: seq<nat>)
    requires ValidDraws(draws)
    ensures CodeDraws(RoomCode(draws)) == draws
  {
    AlphabetFacts();
  }

  /**
    `genRoomId(len)`: `len` characters from the alphabet, the i-th picked
    by the i-th draw.
   */
  method GenRoomId(len: nat, draws: seq<nat>) returns (s: string)
    requires |draws| >= len && ValidDraws(draws)
    ensures |s| == len
    ensures forall i :: 0 <= i < len ==> s[i] == RoomAlphabet[draws[i]]
    ensures s == RoomCode(draws[..len])
  {
    s := "";
    var i := 0;
    while i < len
      invariant 0 <= i <= len
      invariant |s| == i
      invariant forall k :: 0 <= k < i ==> s[k] == RoomAlphabet[draws[k]]
    {
      s := s + [RoomAlphabet[draws[i]]];
      i := i + 1;
    }
  }

  /**
    A room code survives the join form's trim and the server's trim, and
    has no '.', so the token the server issues for it authenticates.
   */
  lemma RoomCodeJoins(st: State, draws: seq<nat>, suffix: string)
    requires ValidDraws(draws) && |draws| >= 1 && IsRandomSuffix(suffix)
    ensures Trim(RoomCode(draws)) == RoomCode(draws)
    ensures '.' !in RoomCode(draws)
    ensures var res := IssueToken(st, RoomCode(draws), suffix);
      && res.reply != RoomRequired
      && (res.reply.Granted? ==> Authenticates(res.st, Some(res.reply.token)))
  {
    var code := RoomCode(draws);
    RoomCodeTrimmed(draws);
    if IssueToken(st, code, suffix).reply.Granted? {
      IssuedTokenAuthenticates(st, code, suffix);
    }
  }

  /** A room code is its own trim and has no '.'. */
  lemma RoomCodeTrimmed(draws: seq<nat>)
    requires ValidDraws(draws)
    ensures Trim(RoomCode(draws)) == RoomCode(draws)
    ensures '.' !in RoomCode(draws)
  {
    var code := RoomCode(draws);
    AlphabetFacts();
    assert forall i :: 0 <= i < |code| ==> code[i] == RoomAlphabet[draws[i]];
    NoSpaceInCode(code);
    TrimPadded([], code, []);
    assert [] + code + [] == code;
  }

  /** Characters of the alphabet are neither whitespace nor '.'. */
  lemma NoSpaceInCode(code: string)
    requires forall i :: 0 <= i < |code| ==> CodeIndex(code[i]) >= 0
    ensures forall i :: 0 <= i < |code| ==> !IsJsSpace(code[i]) && code[i] != '.'
  {
    forall i | 0 <= i < |code|
      ensures !IsJsSpace(code[i])
    {
      if IsJsSpace(code[i]) {
        SpaceRange(code[i]);
      }
    }
  }
}
