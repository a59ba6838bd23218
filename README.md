# Connect4Socket.io: server game logic and client helpers, modelled in Dafny

Connect4Socket.io is a two-player Connect Four game played in the browser.
The Node.js server keeps one mutable record per room in a `games` map. It
handles the socket events `join-room`, `preview-move`, `confirm-move`,
`cancel-move`, the practice events, `request-rematch` and `disconnect`. It
writes through to an SQLite store of rooms, room snapshots and finished games.
A move is played in two steps. First the player on turn previews a column,
and the server answers with the cell the piece would land on. Then the player
confirms, and the server writes the piece, checks for four in a row along the
four axes through it, checks for a full board, and either ends the game or
passes the turn. The browser page repeats some of this logic: the drop-row
scan for hover highlighting, the win check for highlighting the winning cells,
a two-step click, and a short list of recently visited rooms.

The project has six files:

- `common.dfy` (module `Common`) has `Option` (JavaScript's `null`-or-value),
  `Distinct`, and the array operations the server relies on. `IndexOf` is
  `indexOf`. `Without` is the result of `splice(indexOf(x), 1)`, proved equal
  to the splice on duplicate-free lists.
- `board.dfy` (module `Board`) is the board engine.
  - The board is a `seq<seq<int>>` of 6 rows by 7 columns. Row 0 is the top,
    and pieces fall toward row 5.
  - `ValidBoard` holds on every board a room ever has. It requires the shape,
    cell values 0/1/2, and gravity (no piece above an empty cell).
  - The three loops of the server are methods proved against specification
    functions:
    - `DropRow` against `FreeRow`;
    - `CheckWinner` against `Wins`, which is built from `Run`, `HalfRun` and
      `AxisCount`;
    - `CalculateMoves` against `CountBoard`.
  - The lemmas state what those functions mean.
- `protocol.dfy` (module `Protocol`) defines the values that cross the socket:
  the winner (`null`, a player, or `'draw'`), moves, the room as an event
  carries it (every field but the score), each server event with its audience, and each client request.
- `session.dfy` (module `Session`) holds the `Room` class.
  - It has the fields of the server's room record, with the invariant `Valid`.
  - Each socket handler that works on one room is one method. What a handler
    emits is returned as a sequence of `Emit` values. What it hands to the
    store is returned to the caller: a flag to save the room, or the finished
    game to record.
- `registry.dfy` (module `Registry`) holds `RoomRegistry`.
  - Its fields are the `games` map and the three store tables: registered
    rooms, saved snapshots, and game history.
  - Each handler looks up its room there.
  - Joining a room that is not in memory hydrates it from its saved snapshot.
  - Disconnect is the loop over all rooms in memory.
- `client.dfy` (module `Client`) holds the `GamePage` class.
  - Its fields are the page-wide variables of `public/js/game.js`.
  - It has the hover, click, confirm and cancel logic, the winning-cell
    highlight, the recent-rooms list, and one method per socket event that
    changes those variables.
  - The client's `checkWinningPiece` is proved to compute the same `Wins`
    predicate as the server's `checkWinner`.

As-written behaviours the model keeps:

- The practice handlers share `currentPlayer` with the real game.
  `practice-move` flips it, and `end-practice` sets it to 1. `end-practice`
  and `cancel-move` check neither the socket nor the game state.
- A pending move's `player` is the current player at preview time. After a
  practice move it can differ from the current player.
- A pending move left behind by a finished game is kept, because the win and
  draw branches do not clear it.
- `request-rematch` resets a game that has not finished, and it accepts votes
  from sockets that are not players of the room.
- `disconnect` removes the socket from every room's players but saves
  nothing, so a room hydrated later still lists the socket.
- A join into a full room still broadcasts `game-start`.
- `/api/create-room` puts the room into memory before registering the id in
  the store, so the room is in memory even when registration fails.
- On the client, `game-draw` and `game-reset` leave `pendingMove` as it was.
  `game-state` can turn play on but never off.
- A column outside 0..6 is a no-op in `preview-move` and `practice-move`. In
  JavaScript, `board[row][7]` is `undefined`, which is never `=== 0`.

## Model

| member | source | states |
|---|---|---|
| Common.IndexOf | server/index.js:111 | `indexOf`: -1 exactly when the element is absent; otherwise an index holding it with no earlier occurrence |
| Common.Without | server/index.js:262-268 | the players left after a socket leaves: exactly the other elements, never longer |
| Common.SpliceIsWithout | server/index.js:263-265 | on a duplicate-free list, `splice(indexOf(x), 1)` removes exactly `x` and keeps the rest in order |
| Common.WithoutDistinct | server/index.js:265 | removing a player keeps the players free of duplicates |
| Common.WithoutAbsent | server/index.js:264 | removing a socket that is not a player changes nothing |
| Board.EmptyBoard | server/index.js:31 | the initial board is 6 x 7, all empty, and satisfies the board invariant |
| Board.SetCell | server/index.js:137 | writing one cell changes that cell only and keeps the shape |
| Board.FreeRow | server/index.js:116-122 | the row found is empty with every cell below it occupied; none is found exactly when the column is full or not a column |
| Board.ScanUp | server/index.js:116-122 | the upward scan from a row finds the first empty cell at or above it, every cell it passed being occupied, and finds none exactly when every cell from there to the top is occupied |
| Board.DropRow | server/index.js:116-122 | the bottom-up scan returns `FreeRow` of the column |
| Board.DropRowIsLowestEmpty | server/index.js:116-122 | under gravity the drop row is the lowest empty cell: every cell above it is empty, every cell below it is occupied |
| Board.ColumnFullIffTopOccupied | server/index.js:116-122 | under gravity a column is full exactly when its top cell is occupied |
| Board.DropKeepsValid | server/index.js:137 | writing a player's piece on the drop row keeps shape, cell values and gravity |
| Board.IsFull | server/index.js:300-302 | under gravity, the top-row test holds exactly when every column is full |
| Board.FullIffNoFreeRow | server/index.js:300-302 | on a valid board, the full test holds exactly when no column has a drop row left |
| Board.CalculateMoves | server/index.js:304-312 | the nested loop returns `CountBoard`, the number of non-empty cells |
| Board.CountRowAll | server/index.js:306-309 | a row's count equals its length exactly when no cell of it is empty |
| Board.CountBoardAll | server/index.js:304-312 | rows of seven cells hold at most seven pieces each, and exactly that many when no cell is empty |
| Board.MovesAtMost42 | server/index.js:304-312 | the move count is between 0 and 42 |
| Board.FullIffFortyTwo | server/index.js:300-302 | under gravity, a full top row is the same as 42 pieces on the board |
| Board.CountAfterFill | server/index.js:137 | filling an empty cell raises the move count by exactly one |
| Board.Step | server/index.js:273-278 | each of the four axes has a unit step, and its second direction is the first one negated |
| Board.CheckWinner | server/index.js:272-298 | the loop over axes and directions returns exactly `Wins`: some axis counts the cell plus the runs on both sides at 4 or more |
| Board.RunIgnoresCellBehind | server/index.js:284-291 | a run that starts ahead of a cell never reads that cell |
| Board.PlacedCellIgnored | server/index.js:281 | the win check counts the placed cell as 1 whatever it holds: changing that cell never changes the answer |
| Board.RunCellsCount | server/index.js:287-291 | the run length equals the number of distinct cells the walk visits |
| Board.WinNeedsFourPieces | server/index.js:272-298 | a win needs at least three pieces of the player besides the placed cell |
| Board.AxisCountAtMostPieces | server/index.js:280-294 | an axis count is at most one plus the player's pieces other than the placed cell |
| Board.AxisOtherPieces | server/index.js:283-292 | the two runs of an axis together cover at most the player's pieces other than the placed cell |
| Board.AcrossLandsOnBottom | server/index.js:116-122 | in the scenario, a piece dropped into an empty column lands on the bottom row |
| Board.ThreeAcrossNoWin | server/index.js:272-298 | three pieces in a row on the bottom row are not a win |
| Board.FourAcrossWins | server/index.js:272-298 | four pieces in a row on the bottom row are a win for the last one placed |
| Session.Other | server/index.js:162 | the turn passes to the other player |
| Session.OnTurn | server/index.js:111-112 | the turn check (also the one of `confirm-move`) passes exactly when the current player's slot holds the socket and no earlier slot does |
| Session.OnTurnIsSlot | server/index.js:111-114 | with distinct players, a socket passes the turn check exactly when it holds the current player's slot |
| Session.ResolveOutcome | server/index.js:145-166 | on a valid board, a committed move draws exactly when it does not win and all 42 cells are taken, and a draw leaves no column to drop into; a win goes to the mover, who then has at least three more pieces on the board |
| Session.Room.Create | server/index.js:29-41 | a new room is `Initial`: empty board, player 1 to move, no winner, no players, no pending move, no practice, no rematch votes |
| Session.Room.Hydrate | server/index.js:72-76 | a room loaded from a snapshot has the snapshot's board, current player, players and winner, and no pending move, practice state or rematch votes |
| Session.Room.Snap | server/database.js:50-58 | the saved row holds the room's board, players and id, and a valid room always gives a snapshot that hydrates again |
| Session.Room.Join | server/index.js:85-103 | a socket takes a slot exactly when it is new and a slot is free; it learns its number, the room starts when both slots are taken, the socket gets the room's state; nothing but the players changes |
| Session.Room.Preview | server/index.js:106-123 | a preview happens exactly when the game is running, the socket is on turn and the column has room; it becomes the pending move on the drop row for the current player, and otherwise nothing changes |
| Session.Room.Confirm | server/index.js:125-167 | without a pending move or after the game nothing happens; a socket off turn is refused and nothing changes; otherwise the move commits: the pending cell is written, the move count rises by one, the winner is `Resolve` of the move, turn, pending move, event and record are as `Settled` says, and players, practice state and votes are kept; it commits exactly when the board changed |
| Session.Room.Commit | server/index.js:136-166 | a committed move changes exactly the pending cell, raises the count by one, sets the winner to `Resolve` and settles the turn; the record is the finished game with its winner, count and board |
| Session.Room.Place | server/index.js:136-137 | writing the pending move's player on its cell changes the board, adds exactly one piece and keeps the board invariant |
| Session.Room.Settle | server/index.js:145-166 | after the write: a win or a draw keeps the turn and the pending move and records the game; otherwise the turn passes and the pending move is cleared; the event matches the outcome |
| Session.Room.Cancel | server/index.js:169-175 | the pending move is dropped unconditionally, `move-cancelled` goes back, and nothing else changes |
| Session.Room.StartPractice | server/index.js:177-184 | practice starts only with at most one player, on a copy of the main board; otherwise nothing changes |
| Session.Room.PracticeMove | server/index.js:186-212 | in practice with at most one player, the piece goes to the drop row of the practice board; the turn passes only when the move neither wins nor fills that board; the event names the outcome; the main board and every other field are kept, and otherwise nothing changes |
| Session.Room.ResetPractice | server/index.js:214-221 | in practice, the practice board is emptied and player 1 moves; nothing else changes |
| Session.Room.EndPractice | server/index.js:223-231 | unconditionally, practice is off, the practice board is cleared and player 1 moves; nothing else changes |
| Session.Room.RequestRematch | server/index.js:233-258 | a socket votes at most once and the others hear of a new vote; a second distinct vote resets the board, winner, pending move and votes, with the store's starting player to move, and the room hears `game-reset`; players and practice state are kept |
| Session.Room.RemovePlayer | server/index.js:262-268 | the socket leaves the players, the others keep their order, and when the first player leaves the second takes slot 1; the room hears of it exactly when the socket was a player; nothing else changes |
| Registry.RoomRegistry.constructor | server/index.js:14 | the server starts with no room in memory and the store as it was left |
| Registry.RoomRegistry.CreateRoom | server/index.js:27-51 | the new room, `Initial`, is in memory in any case and no other room changes; it is registered and its snapshot saved exactly when the id was not registered yet |
| Registry.RoomRegistry.JoinRoom | server/index.js:66-104 | a room in memory is joined as `Room.Join` says; otherwise a registered room with a snapshot is hydrated from exactly that snapshot and then joined; otherwise the socket is told the room does not exist and nothing changes; the room is saved exactly when the socket took a slot; no other room changes |
| Registry.RoomRegistry.Load | server/index.js:72-75 | `getGameState` then `games.set`: a new room, hydrated from exactly the stored snapshot, is filed under its id, and no other room changes |
| Registry.RoomRegistry.Save | server/database.js:50-58 | `saveGameState`: the store's row for the room becomes the room's snapshot, the other rows are kept, and every stored snapshot stays valid |
| Registry.RoomRegistry.PreviewMove | server/index.js:106-123 | on the room in memory the preview is as `Room.Preview` says; a room not in memory does nothing |
| Registry.RoomRegistry.ConfirmMove | server/index.js:125-167 | on the room in memory the move is as `Room.Confirm` says: new board, winner, turn and pending move; the room is saved exactly when the move committed, and the history grows by the finished game exactly when the move ended the game; a room not in memory does nothing |
| Registry.RoomRegistry.CancelMove | server/index.js:169-175 | on a room in memory the pending move is gone, `move-cancelled` goes back and nothing else changes |
| Registry.RoomRegistry.StartPractice | server/index.js:177-184 | on the room in memory practice opens as `Room.StartPractice` says; a room not in memory does nothing |
| Registry.RoomRegistry.PracticeMove | server/index.js:186-212 | on the room in memory the practice move is as `Room.PracticeMove` says, and the main board is never changed |
| Registry.RoomRegistry.ResetPractice | server/index.js:214-221 | on the room in memory the practice board restarts as `Room.ResetPractice` says; a room not in memory does nothing |
| Registry.RoomRegistry.EndPractice | server/index.js:223-231 | on a room in memory practice is off, the practice board is cleared and player 1 moves, and nothing else changes |
| Registry.RoomRegistry.RequestRematch | server/index.js:233-258 | on the room in memory the vote, and the reset a second vote brings, are as `Room.RequestRematch` says; the room is saved exactly when the vote reset it |
| Registry.RoomRegistry.Disconnect | server/index.js:260-269 | every room in memory loses the socket from its players and nothing else in it changes; exactly one `player-disconnected` goes to each room in memory that held the socket, and nothing else is sent |
| Registry.RoomRegistry.LeaveRoom | server/index.js:263-267 | one room loses the socket and nothing else of it changes; the events become the earlier ones followed by this room's event exactly when the socket was a player there; every other room, and the `games` map, is unchanged |
| Registry.ReportedStep | server/index.js:263-267 | dealing with one more room adds its event exactly when the socket was in it, so every room that held the socket hears of it once, and no other event is ever sent |
| Client.Remembered | public/js/game.js:256-264 | once remembered, the room is in the list; a known room leaves the list unchanged; a new one is appended and drops only the oldest entry once the list passes 10 |
| Client.RememberedDistinct | public/js/game.js:257 | remembering never adds a duplicate |
| Client.RememberedIdempotent | public/js/game.js:257 | remembering the same room twice is the same as once |
| Client.RememberedDropsOldest | public/js/game.js:259-261 | a new room added to a full list pushes out exactly the first entry |
| Client.CheckWinningPiece | public/js/game.js:206-232 | the client's check returns exactly the server's `Wins` for the same board, cell and player |
| Client.Collect | public/js/game.js:218-225 | the walk keeps the cells already collected and adds exactly as many as the run is long, each holding the player's piece |
| Client.GamePage.constructor | public/js/game.js:15-20 | the page starts with no player number, no state, play off and no pending move |
| Client.GamePage.HandleCellHover | public/js/game.js:56-69 | nothing is highlighted exactly when play is off, there is no state, the game is over, it is not this player's turn, or the column is full; otherwise the drop row is highlighted |
| Client.GamePage.HandleCellClick | public/js/game.js:133-149 | a click is ignored while idle, refused off turn, confirms when it is on the pending column, and otherwise requests a preview of that column |
| Client.GamePage.ConfirmMove | public/js/game.js:156-160 | a confirm request goes out exactly when a move is pending |
| Client.GamePage.CancelMove | public/js/game.js:162-168 | without a pending move nothing happens; otherwise it is cleared and a cancel request goes out |
| Client.GamePage.SaveRoomToLocalStorage | public/js/game.js:256-264 | the saved list becomes `Remembered` of the old list and the page's room |
| Client.GamePage.HighlightWinningPieces | public/js/game.js:184-204 | nothing without a winner or on a draw; otherwise exactly the winner's cells from which the win check succeeds |
| Client.GamePage.OnPlayerNumber | public/js/game.js:293-296 | the player number is set |
| Client.GamePage.OnGameStart | public/js/game.js:302-309 | play is on and the room is remembered |
| Client.GamePage.OnGameState | public/js/game.js:311-321 | play is switched on for an undecided game with two players and otherwise left as it was |
| Client.GamePage.OnMovePreview | public/js/game.js:323-327 | the previewed move becomes the pending move |
| Client.GamePage.OnMoveCancelled | public/js/game.js:329-333 | the pending move is cleared |
| Client.GamePage.OnMoveMade | public/js/game.js:335-352 | the new state is kept and the pending move is cleared |
| Client.GamePage.OnGameWon | public/js/game.js:354-378 | play stops, the pending move is cleared, and exactly the winning cells are highlighted |
| Client.GamePage.OnGameDraw | public/js/game.js:380-397 | play stops |
| Client.GamePage.OnGameReset | public/js/game.js:399-407 | play is on again |
| Client.GamePage.OnPlayerDisconnected | public/js/game.js:413-416 | play stops |

## Left out

- The score calls `db.getScore`, `db.updateScore` and `db.toggleStartingPlayer` (server/index.js:94, 147, 150, 155, 158, 247-248) are not in the exports of server/database.js:107-116. As written, each of these calls throws a TypeError, so the handler stops at that line. `join-room` stops at line 94, after it has saved the room, and sends neither `game-start` nor `game-state`. The win and draw branches of `confirm-move` stop at lines 147 and 155: `winner` is already set, but no history, snapshot or event follows. The second rematch vote stops at line 247 with both votes recorded and no reset. The model does not follow the code here. It treats the calls as store operations that succeed, as the rest of each handler intends.
- The score itself is not modelled, and `GameView` has no score field. The starting player after the toggle is a parameter of `RequestRematch` and must be 1 or 2.
- Fields that a JavaScript room may lack are modelled with their empty value. A hydrated room has rematch votes `[]`, practice off and no practice board, where the source leaves them `undefined`. The result is the same, since `request-rematch` starts from `[]` when the field is missing, and an `undefined` practice flag is falsy.
- Asynchrony: every handler is modelled as running to completion. Interleavings at the `await`s inside one handler are not modelled.
- socket.io membership of rooms (`socket.join`) and delivery of events: an event is a value with its audience. `disconnect` emits per room in the iteration order of a JavaScript `Map`, but the model fixes no order.
- The room id comes from `uuidv4()`; here it is a parameter of `CreateRoom`.
- `db.updateRoomActivity` timestamps, `updated_at`, `played_at`, and the `/api/game-history` route with its sorting are not modelled.
- SQLite storage is not modelled. The stored winner comes back as TEXT (the player number becomes the string "1"); in the model it comes back as the same `Winner` value.
- A `column` that arrives as a string or a fraction is not modelled. Columns are integers, and out-of-range ones are handled.
- Client DOM work is not modelled. This covers `createBoard`, `updateBoard`, `placePiece`, the piece previews and buttons, status texts, score and history rendering, `alert`, navigation, notifications, and the service worker. So are touch events, which forward to the click handler, and the rematch button, which only sends `request-rematch`.
- Reading and writing local storage is not modelled. The saved list is a field, and its initial value is a constructor parameter.
- The `waiting-for-player`, `rematch-requested` and `error` client handlers are not modelled, because they only change text on the page.
- Durable client identity, accepting or declining a rematch, and a time window for a quick rematch are not modelled. None of them is in the code.
- Client.GamePage.HandleCellHover: its result is the highlighted row. The CSS classes it sets are not modelled.
- Client handlers that take a server state require it to be a 6 x 7 board whose winner, if any, is player 1 or 2. Every state the server sends has that form, because rooms keep `Valid`.
