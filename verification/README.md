# Gomoku rooms: a verified model of the game logic

The system is a five-in-a-row (Gomoku) game played on a 19x19 board in the browser. It works in two modes:

- **Local:** two players share one screen.
- **Online:** a Node room server hands out seats by token, authenticates WebSocket connections with those tokens, and judges moves.

This project models that game logic in Dafny and proves properties of the model.

| file | module | models |
|---|---|---|
| `wrappers.dfy` | `Wrappers` | `Option`, used for JavaScript's `null` |
| `board.dfy` | `Board` | `emptyBoard` / `makeBoard`, `inRange`, setting one cell, stone counting |
| `win.dfy` | `WinDetector` | `computeWin` (and its client copy `localComputeWin`) |
| `jsstring.dfy` | `JsString` | the three JavaScript built-ins the server's decisions depend on: `String.prototype.trim`, `split(".")` and `Number(string)` |
| `protocol.dfy` | `Protocol` | the WebSocket messages, as records |
| `server.dfy` | `Server` | `GET /token`, `parseToken`, and the `hello`, `move`, `restart` and close handlers, as pure transitions on the map of rooms and the per-socket seat bindings |
| `client.dfy` | `Client` | the local game engine, the online view's "your turn" gate, and `genRoomId` |

More on `WinDetector`:

- `WinOf` is a functional definition of `computeWin`.
- The method `ComputeWin` has the same two while-loops per direction as the source, and is proved equal to `WinOf`.
- `RunOfFive` states "five in a row through the played cell" independently of both, and is proved equivalent to `WinOf`.

The server keeps an invariant, `Server.Valid`:

- every board is 19x19 with cells 0, 1 or 2;
- the colour to move is 1 or 2;
- a winning line is recorded exactly when the game is over, and it is a winning line of the colour to move;
- every seat token has the issued form `room.colour.suffix`;
- every bound socket plays colour 1 or 2.

It holds initially and after every event.

Randomness is passed in as parameters:

- the `Math.random().toString(36).slice(2)` token suffix is a string of base-36 digits;
- the room-code draws are indices into the alphabet.

## Behaviour of note

The model keeps these behaviours of the code as they are:

- **Restart:** the server always gives Black the first move (`server.js:137`). The local client gives the last winner the first move (`public/app.js:280`, `public/app.js:511`).
- **No `ready` field:** no state message the server sends has one (`server.js:108-127`, `server.js:140-145`, `server.js:201-211`). The client's gate `ready && !gameOver && youAre === current` (`public/app.js:340-342`) is therefore always false. See Findings.
- **Colour by rounding:** `parseToken` compares the double that `Number` returns (`server.js:174-175`). A colour piece such as `10000000000000001e-16` is therefore read as 1. A `hello` with such a token gets "room not found" or "auth failed", not "invalid token".
- **No "not ready" move rejection:** the server checks four things in this order: game over, out of range, occupied, not your turn.
- **No AI opponent, reconnect grace timer or idle cleanup.** There is also no `POST /rooms` route; the client falls back to `genRoomId`.
- **Seats and sockets:**
  - A seat is never vacated.
  - Nothing limits a seat to one connection.
  - A `hello` on a socket that is already bound rebinds it, without removing it from its former room's sockets.

## Model

| member | source | states |
|---|---|---|
| Board.EmptyBoard | server.js:13-15 | a new board is 19 rows of 19 cells, every cell empty |
| Board.EmptyBoardStoneCount | public/app.js:79-81 | a board from `makeBoard` holds no stones |
| Board.Place | server.js:102 | placing a stone sets exactly the cell (r, c) and leaves all other cells as they were |
| Board.PlaceAddsOneStone | public/app.js:270 | placing a stone on an empty cell raises the stone count by exactly one |
| WinDetector.WalkForward | server.js:228-233 | the forward loop collects exactly the maximal run of the colour starting at the first cell past the played one |
| WinDetector.WalkBack | server.js:234-240 | the backward loop prepends cells until the run's backward end, giving the whole run ordered from that end |
| WinDetector.ComputeWin | server.js:217-244 | the loop implementation returns exactly the functional result, and reports a win iff five in a row pass through the cell |
| WinDetector.WinIffRunOfFive | server.js:217-244 | a win is reported iff, in one of the four directions, five consecutive cells through (r, c) all hold the played colour; longer runs count |
| WinDetector.LineLongIffSolid | server.js:225-242 | a direction's run reaches length five iff five consecutive same-colour cells through the cell exist along it |
| WinDetector.LineIsRun | server.js:226-241 | a direction's line contains the played cell, holds only on-board cells of its colour, has consecutive entries one step apart, and cannot be extended at either end |
| WinDetector.WinLineIsFirstLong | server.js:225-242 | the reported line is the run of the first direction, in scan order, whose run has five or more cells |
| WinDetector.WinLineShape | server.js:226-243 | a reported line has at least five cells, contains the played cell, and is a maximal run of the played colour along one direction |
| JsString.Trim | server.js:19 | the trimmed id has no whitespace at either end, and is empty iff the input is all whitespace |
| JsString.TrimSplits | server.js:19 | every string is leading whitespace, then its trim, then trailing whitespace |
| JsString.TrimIdempotent | public/app.js:444 | trimming an already trimmed room id changes nothing |
| JsString.Split | server.js:173 | `split(".")` yields at least one piece and no piece contains a dot |
| JsString.SplitAppend | server.js:42 | splitting `x + "." + y` yields the pieces of x followed by the pieces of y |
| JsString.JoinSplit | server.js:173 | joining the pieces of a string with dots gives the string back |
| JsString.SplitJoin | server.js:41 | splitting dot-free pieces joined with dots gives the pieces back |
| JsString.NumberOfDecimal | server.js:174 | the exact value (the mathematical value before rounding to a double) of the decimal spelling of n is n |
| JsString.NumberIgnoresPadding | server.js:174 | `Number` ignores whitespace around the numeral |
| JsString.NonColourSpellings | server.js:174-175 | `Number("")` is 0 and `Number("1x")` is NaN, neither of them a colour |
| JsString.PlusDecimal | server.js:174 | a plus sign before a decimal numeral keeps its exact value |
| JsString.MinusDecimal | server.js:174 | a minus sign before a decimal numeral negates its exact value |
| JsString.ExponentSpellingOfTwo | server.js:174 | `Number("2e0")` is 2 |
| JsString.RoundsToIntegers | server.js:175 | an integer rounds to 1 or 2 exactly when it is 1 or 2, and no value rounds to both |
| JsString.NumberOfScientific | server.js:174 | the exact value of digits m, `e-`, digits e is m / 10^e |
| JsString.JustAboveOneRounds | server.js:174-175 | for e >= 16, `Number` of `1`, e - 1 zeros, `1e-`, e has an exact value above 1 that rounds to the double 1 |
| Server.NewRoom | server.js:22-33 | a new room has an empty board, Black to move, no result, no seats and no sockets |
| Server.IssueToken | server.js:18-47 | a granted seat names the trimmed room, which then exists, with a token of the form `room.colour.suffix`; socket bindings are untouched |
| Server.IssueNeedsRoom | server.js:19-20 | an empty or all-whitespace room id gets status 400 and changes nothing |
| Server.IssueSeatOrder | server.js:22-44 | Black is granted while free, then White; with both seats taken the reply is 409 and nothing changes. The granted room equals the old room (or a new one) with only the granted seat filled, holding the token's last piece as id and the returned token; other rooms are unchanged |
| Server.FreshRoomSeats | server.js:36-39 | in a new room the first request gets Black, the second White, and the third is refused with no change |
| Server.SeatIdIsSuffix | server.js:42 | the player id recorded for a seat is the token's random suffix |
| Server.ParseToken | server.js:171-177 | an accepted token is non-empty, and its first piece is the non-empty, dot-free room id; the colour is 1 or 2 and is the double that `Number` gives for the second piece, its exact value rounded to nearest |
| Server.ParseMadeToken | server.js:171-177 | a token `room.colour.suffix` with a dot-free room and suffix parses back to that room and colour |
| Server.ParseTokenRefuses | server.js:175 | a token with an empty first piece, a missing second piece, or a second piece whose value does not round to 1 or 2 is refused |
| Server.ParsePieces | server.js:172-176 | a token's claim depends only on its first piece and the `Number` value of its second: colour 1 or 2 when that value rounds to 1 or 2, refused otherwise |
| Server.ParseHexColour | server.js:174-175 | a colour piece spelled `0x2` is accepted as White |
| Server.ParsePaddedColour | server.js:174-175 | a colour piece with surrounding whitespace is accepted |
| Server.ParseEmptyColour | server.js:174-175 | an empty colour piece reads as 0 and the token is refused |
| Server.ParseTwoPieces | server.js:171-177 | a token of exactly two pieces is judged like a longer one: by the room piece and whether the colour piece rounds to 1 or 2 |
| Server.ParseShortToken | server.js:171-177 | `r.1`, with no suffix, is accepted as Black |
| Server.ParsePlusColour | server.js:174-175 | a colour piece `+1` is accepted as Black |
| Server.ParseMinusColour | server.js:174-175 | a colour piece `-2` reads as -2 and the token is refused |
| Server.ParseExponentColour | server.js:174-175 | a colour piece `2e0` is accepted as White |
| Server.ParseRoundedColour | server.js:174-175 | a colour piece such as `10000000000000001e-16`, whose exact value is above 1 but rounds to 1, is accepted as Black |
| Server.HelloIffAuthenticates | server.js:64-88 | `hello` binds the socket iff the token parses, its room exists, and the seat holds exactly that token. Then the socket plays that room and colour, joins the room's sockets and receives the room state. Otherwise nothing changes and the socket gets one error: invalid token, room not found, or auth failed |
| Server.HelloMessages | server.js:79-86 | an accepted `hello` sends the socket the room's board, turn, result and line with its colour, and sends "Black joined" or "White joined" to the room's other sockets |
| Server.IssuedTokenAuthenticates | server.js:41-44 | a token issued for a dot-free room id authenticates for that room and colour |
| Server.DottedRoomNeverJoins | server.js:41 | a room id containing '.' can be issued seats, but no authenticating token names such a room, and the issued token does not authenticate right after issuance |
| Server.DottedTokenFailsEverywhere | server.js:41 | in every valid state, and so with `Server.ReachableValid` in every reachable state, a token made for a room id containing '.' authenticates for no room |
| Server.SharedSeat | server.js:74-80 | two sockets presenting the same token are both bound to the seat |
| Server.MoveFromNowhere | server.js:91-94 | a move from an unbound socket, or one whose room is gone, changes nothing and sends nothing |
| Server.MoveRejected | server.js:97-100 | a move fails on the first check in the order game over, out of range, occupied, not your turn; state is unchanged and the mover gets that one error |
| Server.NoMoveAfterGameOver | server.js:97 | once a game is over no move changes the state |
| Server.MoveAccepted | server.js:102-127 | an accepted move sets exactly the target cell to the mover's colour, and the stone count rises by one. A win ends the game with the line recorded and the mover still current; otherwise the turn passes. Seats, sockets, bindings and other rooms are unchanged, and the room's sockets get the new state |
| Server.PlayValid | server.js:102-127 | a legal move keeps the room invariant, including a recorded line being a winning line of the colour to move |
| Server.RestartResets | server.js:131-147 | restart from an unbound socket, or one whose room is gone, changes nothing and sends nothing. Otherwise the room gets an empty board, Black to move, the game open and no line, with seats and sockets unchanged; bindings and other rooms stay; the cleared state goes to every socket of the room |
| Server.CloseKeepsSeats | server.js:150-155 | closing a socket removes it from its room's sockets and changes no token's authentication. The bindings, the set of rooms, and each room's seats, board, turn, result and other sockets stay as they were; a socket bound to no existing room changes nothing |
| Server.StepValid | server.js:18-155 | every event (token request, hello, move, restart, ignored message, close) preserves the server invariant |
| Server.ReachableValid | server.js:11 | every state reached from start-up by any sequence of events satisfies the invariant |
| Client.LocalReset | public/app.js:218-225 | a new local game has an empty board, `first` to move, the game open and no line |
| Client.LocalClickIgnored | public/app.js:257-268 | a local click after the game ended, off the board, or on a stone changes nothing |
| Client.LocalAgreesWithServer | public/app.js:270-287 | a local move gives the same board, result, line and next colour as the server's move for the colour to move |
| Client.LocalMove | public/app.js:270-285 | a local move sets exactly the clicked cell to the mover's colour and adds one stone. The game ends iff five in a row now pass through the cell, with the mover still current; otherwise the turn flips |
| Client.WinnerMovesFirst | public/app.js:280 | after a local win, Restart starts an empty game with the winner to move |
| Client.LocalClickValid | public/app.js:256-288 | local clicks keep the local game's invariant |
| Client.LocalRestartValid | public/app.js:509-512 | local Restart keeps the local game's invariant |
| Client.OnlineClickSends | public/app.js:528-554 | a click sends a move iff all of these hold: the socket is open, the game is on, the cell is free and on the board, and the canvas takes clicks. A sent move disables the canvas; otherwise nothing changes |
| Client.OnlineStepKeepsDisabled | public/app.js:317-367 | no event re-enables a disabled canvas, because no server state message carries `ready` |
| Client.OnlineNeverMoves | public/app.js:334-342 | from a disabled canvas, no sequence of server messages and clicks ever sends a move |
| Client.JoinedNeverMoves | public/app.js:451-474 | a player who joined a room never sends a move |
| Client.ReadyGateOpens | public/app.js:340-342 | with `ready` sent as "both seats taken", the player to move can play a free cell. With the messages as sent, the same click sends nothing |
| Client.GenRoomId | public/app.js:373-379 | the code has `len` characters, the i-th being the alphabet character picked by the i-th draw |
| Client.AlphabetFacts | public/app.js:374 | the alphabet has 32 distinct characters, none of them I, O, 0 or 1 |
| Client.RoomCodeRoundTrip | public/app.js:373-379 | the draws are recovered from the code, so different draws give different codes |
| Client.RoomCodeJoins | public/app.js:298-307 | a generated code is its own trim and has no dot, so the server grants or refuses a seat (never 400), and a granted token authenticates |

## Left out

- Canvas drawing, HiDPI setup, overlays, status text and resize handling are user interface, not game logic.
- The pixel-to-cell mapping is floating-point arithmetic on click coordinates. Clicks enter the model as integer cells.
- Transport and I/O are not modelled as behaviour, only as results:
  - not modelled: express routing, CORS and static files; `fetch`; WebSocket sending and closing; JSON encoding and decoding; `sessionStorage`;
  - modelled: outgoing server messages are a list of deliveries (a message and the sockets it goes to), and client sends are the messages returned by a step.
- The heartbeat ping and terminate (`server.js:158-164`) depend on timers and liveness.
- `Math.random` is not modelled. Token suffixes and room-code draws are parameters.
- JavaScript coercion of non-integer or non-numeric `r` and `c` in move messages is not modelled; coordinates are integers.
- A `room` query parameter given as an array, and a `hello` token that is not a string, are not modelled. The room parameter and the token are strings or absent.
- A message whose JSON text is `null` parses, and reading `msg.type` on it (`server.js:64`) then throws a TypeError that nothing in `server.js` catches. The model has no transition for this message: `Protocol.ClientMsg` has no case for it, and what the exception does to the process is outside the model.
- The room's `createdAt` timestamp (`server.js:31`) is read by nothing.
- `JsString.ToNumber`: three simplifications.
  - It is defined only for strings without '.'. The colour piece of a token is produced by `split(".")`, so it never has one.
  - It computes exact decimal values. `JsString.RoundsTo` states when the double nearest to that value is 1 or 2, which is all the server compares. Other roundings, and overflow of huge exponents to Infinity, are not modelled.
  - For numerals with more than 20 significant digits, the RoundMVResult operation of ECMA-262 lets an engine round an approximation of the value. The model rounds the exact value, as V8 does.
- The client copy `localComputeWin` (`public/app.js:227-254`) has the same text as `computeWin`, so `WinDetector.ComputeWin` models both. `Client.LocalClick` uses the same `WinOf`, so the two agree on every board and cell.
- The client's wording of statuses and its connection bookkeeping (`O.ws`, `O.room`, the Back button) are not modelled.

## Findings

| source | as written | input that shows it | evidently intended | confidence | as-written member | corrected member |
|---|---|---|---|---|---|---|
| public/app.js:340-342 | the board is enabled only when the state message's `ready` is true, but no state message from the server (`server.js:108-127`, `server.js:140-145`, `server.js:201-211`) has a `ready` field | both seats taken, Black to move, Black clicks a free cell after any state message: no move is sent | the server sends `ready` as "both seats taken", and the player to move can play | not executed | Client.OnlineNeverMoves | Client.ReadyGateOpens |
