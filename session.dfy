/**
 * One game room of the server and the socket handlers that change it. Each
 * handler runs to completion before the next one starts, so each is one method
 * of `Room`; what it emits is returned as a sequence of `Emit` values, and
 * what it hands to the store (a snapshot to save, a finished match to record)
 * is returned to the registry, which owns the store.
 */
module Session {
  import opened Common
  import opened Board
  import opened Protocol

  /** A player number: slot `players[p - 1]`. */
  predicate IsPlayer(p: int) {
    p == 1 || p == 2
  }

  /** `currentPlayer === 1 ? 2 : 1`. */
  function Other(p: int): (q: int)
    requires IsPlayer(p)
    ensures IsPlayer(q) && q != p
  {
    if p == 1 then 2 else 1
  }

  predicate ValidWinner(w: Winner) {
    w.Won? ==> IsPlayer(w.player)
  }

  /**
   * The turn check of the move handlers: `playerIndex !== -1 && playerIndex + 1 === currentPlayer`.
   * It passes exactly when the socket's first slot is the one of the current player.
   */
  predicate OnTurn(players: seq<SocketId>, socket: SocketId, currentPlayer: int): (t: bool)
    ensures t <==> 1 <= currentPlayer <= |players| && players[currentPlayer - 1] == socket &&
                   socket !in players[..currentPlayer - 1]
  {
    IndexOf(players, socket) != -1 && IndexOf(players, socket) + 1 == currentPlayer
  }

  /** With distinct players, a socket is on turn exactly when it holds the slot of the current player. */
  lemma OnTurnIsSlot(players: seq<SocketId>, socket: SocketId, currentPlayer: int)
    requires Distinct(players)
    ensures OnTurn(players, socket, currentPlayer) <==>
            1 <= currentPlayer <= |players| && players[currentPlayer - 1] == socket
  {
    if 1 <= currentPlayer <= |players| && players[currentPlayer - 1] == socket {
      forall j | 0 <= j < currentPlayer - 1 ensures players[j] != socket {
        assert players[j] != players[currentPlayer - 1];
      }
    }
  }

  /**
   * A pending move names a player and a cell of the board, and while the game
   * is running that cell is the lowest empty cell of its column.
   */
  predicate PendingOk(b: Grid, w: Winner, pm: Option<Move>)
    requires WellFormed(b)
  {
    pm.Some? ==>
      IsPlayer(pm.value.player) && InBounds(pm.value.row, pm.value.column) &&
      (w == NoWinner ==> IsDropRow(b, pm.value.column, pm.value.row))
  }

  /**
   * How a committed move `m` ends the turn on the board `b` it was written to:
   * a win for its player, a draw when the board is full, or the game goes on.
   */
  function Resolve(b: Grid, m: Move): Winner
    requires WellFormed(b)
  {
    if Wins(b, m.row, m.column, m.player) then Won(m.player)
    else if IsFull(b) then Draw
    else NoWinner
  }

  /**
   * Under the board invariant, a committed move draws exactly when it does not
   * win and all 42 cells are taken, which leaves no column to drop into, and a
   * win goes to the mover and needs three more of the mover's pieces besides
   * the placed one.
   */
  lemma ResolveOutcome(b: Grid, m: Move)
    requires ValidBoard(b)
    ensures Resolve(b, m) == Draw <==> !Wins(b, m.row, m.column, m.player) && CountBoard(b) == Rows * Cols
    ensures Resolve(b, m) == Draw ==> forall c :: 0 <= c < Cols ==> FreeRow(b, c).None?
    ensures Resolve(b, m).Won? ==>
              Resolve(b, m).player == m.player && |Pieces(b, m.player) - {(m.row, m.column)}| >= 3
  {
    FullIffFortyTwo(b);
    FullIffNoFreeRow(b);
    if Wins(b, m.row, m.column, m.player) {
      WinNeedsFourPieces(b, m.row, m.column, m.player);
    }
  }

  /** The row the store keeps per room: board, current player, players and winner. */
  datatype Snapshot = Snapshot(
    roomId: RoomId,
    board: Grid,
    currentPlayer: int,
    players: seq<SocketId>,
    winner: Winner)

  predicate ValidSnapshot(s: Snapshot) {
    ValidBoard(s.board) && IsPlayer(s.currentPlayer) && ValidWinner(s.winner) &&
    |s.players| <= 2 && Distinct(s.players)
  }

  /** A finished game as the history table records it. */
  datatype MatchRecord = MatchRecord(roomId: RoomId, winner: Winner, moves: nat, board: Grid)

  /** The fields of a room that the handlers change, taken together. */
  datatype RoomState = RoomState(
    board: Grid,
    currentPlayer: int,
    winner: Winner,
    players: seq<SocketId>,
    pendingMove: Option<Move>,
    practiceMode: bool,
    practiceBoard: Option<Grid>,
    rematchRequests: seq<SocketId>)

  /** A room as `/api/create-room` makes it: empty board, player 1 to move, nobody in it. */
  function Initial(): RoomState {
    RoomState(EmptyBoard(), 1, NoWinner, [], None, false, None, [])
  }

  /**
   * A room brought back from a stored snapshot: the four stored fields, and
   * every field the store does not keep absent.
   */
  function Hydrated(s: Snapshot): RoomState {
    RoomState(s.board, s.currentPlayer, s.winner, s.players, None, false, None, [])
  }

  /** `join-room` gives the socket a slot: it is not a player yet and a slot is free. */
  predicate Seats(players: seq<SocketId>, socket: SocketId) {
    |players| < 2 && socket !in players
  }

  /** `confirm-move` from the socket commits: the game runs, a move is pending and the socket is on turn. */
  predicate Commits(s: RoomState, socket: SocketId) {
    s.winner == NoWinner && s.pendingMove.Some? && OnTurn(s.players, socket, s.currentPlayer)
  }

  /** The mutable record the server keeps per room. */
  class Room {
    const roomId: RoomId
    var board: Grid
    var currentPlayer: int
    var winner: Winner
    var players: seq<SocketId>
    var pendingMove: Option<Move>
    var practiceMode: bool
    var practiceBoard: Option<Grid>
    var rematchRequests: seq<SocketId>

    /** What holds between any two handlers. */
    predicate Valid()
      reads this
    {
      ValidBoard(board) && IsPlayer(currentPlayer) && ValidWinner(winner) &&
      |players| <= 2 && Distinct(players) &&
      PendingOk(board, winner, pendingMove) &&
      (practiceMode <==> practiceBoard.Some?) &&
      (practiceBoard.Some? ==> ValidBoard(practiceBoard.value)) &&
      |rematchRequests| <= 1
    }

    /** The mutable fields as one value. */
    function State(): RoomState
      reads this
    {
      RoomState(board, currentPlayer, winner, players, pendingMove, practiceMode, practiceBoard, rematchRequests)
    }

    /** The initial state of `/api/create-room`. */
    constructor Create(id: RoomId)
      ensures Valid() && roomId == id
      ensures State() == Initial()
    {
      roomId := id;
      board := EmptyBoard();
      currentPlayer := 1;
      winner := NoWinner;
      players := [];
      pendingMove := None;
      practiceMode := false;
      practiceBoard := None;
      rematchRequests := [];
    }

    /** A room brought back from a stored snapshot. */
    constructor Hydrate(s: Snapshot)
      requires ValidSnapshot(s)
      ensures Valid() && roomId == s.roomId
      ensures State() == Hydrated(s)
    {
      roomId := s.roomId;
      board := s.board;
      currentPlayer := s.currentPlayer;
      winner := s.winner;
      players := s.players;
      pendingMove := None;
      practiceMode := false;
      practiceBoard := None;
      rematchRequests := [];
    }

    /** What `saveGameState` writes; a valid room always gives a snapshot that hydrates again. */
    function Snap(): (s: Snapshot)
      reads this
      ensures Valid() ==> ValidSnapshot(s)
      ensures s.roomId == roomId && s.board == board && s.players == players
    {
      Snapshot(roomId, board, currentPlayer, players, winner)
    }

    /** The room object as an event carries it. */
    function View(lastMove: Option<Move>): GameView
      reads this
    {
      GameView(roomId, board, currentPlayer, winner, players, pendingMove, practiceMode, practiceBoard,
               rematchRequests, lastMove)
    }

    /**
     * What `join-room` leaves in a room whose state was `s0`: a new socket
     * takes the next free slot while there is one and learns its number, the
     * room starts once both slots are taken, and the socket always gets the
     * room's state. Nothing but the players changes.
     */
    predicate Joined(s0: RoomState, socket: SocketId, out: seq<Emit>)
      reads this
    {
      State() == s0.(players := if Seats(s0.players, socket) then s0.players + [socket] else s0.players) &&
      out == (if Seats(s0.players, socket) then [Emit(ToSender, PlayerNumber(|players|))] else []) +
             (if |players| == 2 then [Emit(ToRoom(roomId), GameStart(View(None)))]
              else [Emit(ToSender, WaitingForPlayer)]) +
             [Emit(ToSender, GameState(View(None)))]
    }

    /** `join-room` on a room that exists. `added` tells the registry to save the room. */
    method Join(socket: SocketId) returns (out: seq<Emit>, added: bool)
      requires Valid()
      modifies this`players
      ensures Valid()
      ensures added <==> Seats(old(players), socket)
      ensures Joined(old(State()), socket, out)
      ensures socket in players || |players| == 2
    {
      out := [];
      added := false;
      if |players| < 2 && socket !in players {
        players := players + [socket];
        added := true;
        out := out + [Emit(ToSender, PlayerNumber(|players|))];
      }
      if |players| == 2 {
        out := out + [Emit(ToRoom(roomId), GameStart(View(None)))];
      } else {
        out := out + [Emit(ToSender, WaitingForPlayer)];
      }
      out := out + [Emit(ToSender, GameState(View(None)))];
    }

    /**
     * What `preview-move` of `column` leaves in a room whose state was `s0`:
     * when the game runs, the socket is on turn and the column has a free row,
     * the move of the current player onto that row becomes the pending move,
     * replacing any earlier one, and goes back to the socket. Anything else (a
     * finished game, a socket not on turn, a full or missing column) changes
     * nothing and sends nothing.
     */
    predicate Previewed(s0: RoomState, socket: SocketId, column: int, out: seq<Emit>)
      reads this
      requires WellFormed(s0.board)
    {
      if s0.winner == NoWinner && OnTurn(s0.players, socket, s0.currentPlayer) && FreeRow(s0.board, column).Some? then
        var m := Move(FreeRow(s0.board, column).value, column, s0.currentPlayer);
        State() == s0.(pendingMove := Some(m)) && out == [Emit(ToSender, MovePreview(m))]
      else
        State() == s0 && out == []
    }

    /** `preview-move`. */
    method Preview(socket: SocketId, column: int) returns (out: seq<Emit>)
      requires Valid()
      modifies this`pendingMove
      ensures Valid()
      ensures Previewed(old(State()), socket, column, out)
    {
      out := [];
      if winner != NoWinner {
        return;
      }
      var playerIndex := IndexOf(players, socket);
      if playerIndex == -1 || playerIndex + 1 != currentPlayer {
        return;
      }
      var row := DropRow(board, column);
      if row.Some? {
        pendingMove := Some(Move(row.value, column, currentPlayer));
        out := [Emit(ToSender, MovePreview(pendingMove.value))];
      }
    }

    /**
     * What `confirm-move` leaves in a room whose state was `s0`. Without a
     * running game and a pending move nothing happens; a socket off turn is
     * told so and nothing changes. Otherwise the pending move's cell is written
     * with the pending move's player, which adds one piece, the winner becomes
     * `Resolve` of the move, `Settled` says what becomes of the turn, the
     * pending move, the event and the record, and the players, the practice
     * state and the rematch votes are kept.
     */
    predicate Confirmed(s0: RoomState, socket: SocketId, out: seq<Emit>, record: Option<MatchRecord>)
      reads this
      requires WellFormed(s0.board) && IsPlayer(s0.currentPlayer) && PendingOk(s0.board, s0.winner, s0.pendingMove)
    {
      if !(s0.winner == NoWinner && s0.pendingMove.Some?) then
        State() == s0 && out == [] && record == None
      else if !Commits(s0, socket) then
        State() == s0 && out == [Emit(ToSender, InvalidMove)] && record == None
      else
        var m := s0.pendingMove.value;
        board == SetCell(s0.board, m.row, m.column, m.player) &&
        CountBoard(board) == CountBoard(s0.board) + 1 &&
        winner == Resolve(board, m) &&
        players == s0.players && practiceMode == s0.practiceMode && practiceBoard == s0.practiceBoard &&
        rematchRequests == s0.rematchRequests &&
        Settled(s0.currentPlayer, s0.pendingMove, m, out, record)
    }

    /**
     * `confirm-move`. `committed` tells the registry to save the room; `record`
     * is the finished game for the history table.
     */
    method Confirm(socket: SocketId) returns (out: seq<Emit>, record: Option<MatchRecord>, committed: bool)
      requires Valid()
      modifies this`board, this`winner, this`currentPlayer, this`pendingMove
      ensures Valid()
      ensures Confirmed(old(State()), socket, out, record)
      ensures committed <==> Commits(old(State()), socket)
      ensures committed <==> board != old(board)
      ensures record == if committed && winner != NoWinner
                        then Some(MatchRecord(roomId, winner, CountBoard(board), board)) else None
    {
      out, record, committed := [], None, false;
      if winner != NoWinner || pendingMove.None? {
        return;
      }
      var playerIndex := IndexOf(players, socket);
      if playerIndex == -1 || playerIndex + 1 != currentPlayer {
        out := [Emit(ToSender, InvalidMove)];
        return;
      }
      committed := true;
      out, record := Commit(pendingMove.value);
    }

    /** The committing branch of `confirm-move`: the cell of the pending move `m` is written, then the turn is settled. */
    method Commit(m: Move) returns (out: seq<Emit>, record: Option<MatchRecord>)
      requires Valid() && winner == NoWinner && pendingMove == Some(m)
      modifies this`board, this`winner, this`currentPlayer, this`pendingMove
      ensures Valid()
      ensures board == SetCell(old(board), m.row, m.column, m.player) && board != old(board)
      ensures CountBoard(board) == CountBoard(old(board)) + 1
      ensures winner == Resolve(board, m)
      ensures Settled(old(currentPlayer), old(pendingMove), m, out, record)
      ensures record == if winner != NoWinner
                        then Some(MatchRecord(roomId, winner, CountBoard(board), board)) else None
    {
      Place(m);
      out, record := Settle(m);
    }

    /** `game.board[row][column] = player` for the pending move `m`, which lands on its column's free row. */
    method Place(m: Move)
      requires Valid() && winner == NoWinner && pendingMove == Some(m)
      modifies this`board
      ensures ValidBoard(board) && InBounds(m.row, m.column) && IsPlayer(m.player)
      ensures board == SetCell(old(board), m.row, m.column, m.player) && board != old(board)
      ensures CountBoard(board) == CountBoard(old(board)) + 1
    {
      DropKeepsValid(board, m.column, m.row, m.player);
      CountAfterFill(board, m.row, m.column, m.player);
      ghost var b0 := board;
      board := SetCell(board, m.row, m.column, m.player);
      assert board[m.row][m.column] != b0[m.row][m.column];
    }

    /**
     * What a commit leaves behind besides the board: once the game has ended,
     * the turn and the pending move are kept, the finished game is recorded
     * and `game-won` or `game-draw` goes to the room; while it goes on, the
     * turn passes, the pending move is cleared and `move-made` goes out.
     */
    predicate Settled(oldPlayer: int, oldPending: Option<Move>, m: Move, out: seq<Emit>, record: Option<MatchRecord>)
      reads this
      requires IsPlayer(oldPlayer)
    {
      (winner == NoWinner ==>
         currentPlayer == Other(oldPlayer) && pendingMove == None && record == None &&
         out == [Emit(ToRoom(roomId), MoveMade(View(Some(m))))]) &&
      (winner != NoWinner ==>
         currentPlayer == oldPlayer && pendingMove == oldPending &&
         record == Some(MatchRecord(roomId, winner, CountBoard(board), board)) &&
         out == [Emit(ToRoom(roomId), if winner == Draw then GameDraw(View(Some(m))) else GameWon(View(Some(m))))])
    }

    /** The resolution step of `confirm-move`, after the cell of `m` has been written. */
    method Settle(m: Move) returns (out: seq<Emit>, record: Option<MatchRecord>)
      requires ValidBoard(board) && IsPlayer(currentPlayer) && winner == NoWinner
      requires pendingMove == Some(m) && IsPlayer(m.player) && InBounds(m.row, m.column)
      modifies this`winner, this`currentPlayer, this`pendingMove
      ensures winner == Resolve(board, m) && ValidWinner(winner) && IsPlayer(currentPlayer)
      ensures PendingOk(board, winner, pendingMove)
      ensures Settled(old(currentPlayer), old(pendingMove), m, out, record)
    {
      var won := CheckWinner(board, m.row, m.column, m.player);
      if won {
        winner := Won(m.player);
        var moves := CalculateMoves(board);
        record := Some(MatchRecord(roomId, winner, moves, board));
        out := [Emit(ToRoom(roomId), GameWon(View(Some(m))))];
      } else if IsFull(board) {
        winner := Draw;
        var moves := CalculateMoves(board);
        record := Some(MatchRecord(roomId, Draw, moves, board));
        out := [Emit(ToRoom(roomId), GameDraw(View(Some(m))))];
      } else {
        currentPlayer := Other(currentPlayer);
        pendingMove := None;
        record := None;
        out := [Emit(ToRoom(roomId), MoveMade(View(Some(m))))];
      }
    }

    /** What `cancel-move` leaves: no pending move, whoever asks and whatever the state; nothing else changes. */
    predicate Cancelled(s0: RoomState, out: seq<Emit>)
      reads this
    {
      State() == s0.(pendingMove := None) && out == [Emit(ToSender, MoveCancelled)]
    }

    /** `cancel-move`. */
    method Cancel() returns (out: seq<Emit>)
      requires Valid()
      modifies this`pendingMove
      ensures Valid()
      ensures Cancelled(old(State()), out)
    {
      pendingMove := None;
      out := [Emit(ToSender, MoveCancelled)];
    }

    /** What `start-practice` leaves: with at most one player, practice on a copy of the main board. */
    predicate PracticeOpened(s0: RoomState, out: seq<Emit>)
      reads this
    {
      if |s0.players| > 1 then State() == s0 && out == []
      else State() == s0.(practiceMode := true, practiceBoard := Some(s0.board)) && out == [Emit(ToSender, PracticeStarted)]
    }

    /** `start-practice`. */
    method StartPractice() returns (out: seq<Emit>)
      requires Valid()
      modifies this`practiceMode, this`practiceBoard
      ensures Valid()
      ensures PracticeOpened(old(State()), out)
    {
      out := [];
      if |players| > 1 {
        return;
      }
      practiceMode := true;
      practiceBoard := Some(board);
      out := [Emit(ToSender, PracticeStarted)];
    }

    /**
     * What `practice-move` of `column` leaves: in practice mode with at most
     * one player, a piece of the current player goes to the free row of the
     * practice board; the shared current player passes only when the move
     * neither wins nor fills the practice board. The main board, and every
     * other field, stays as it was.
     */
    predicate PracticePlayed(s0: RoomState, column: int, out: seq<Emit>)
      reads this
      requires IsPlayer(s0.currentPlayer)
      requires s0.practiceMode ==> s0.practiceBoard.Some? && WellFormed(s0.practiceBoard.value)
    {
      if s0.practiceMode && |s0.players| <= 1 && FreeRow(s0.practiceBoard.value, column).Some? then
        var p := s0.currentPlayer;
        var row := FreeRow(s0.practiceBoard.value, column).value;
        var pb := SetCell(s0.practiceBoard.value, row, column, p);
        var data := PracticeMoveData(row, column, p, pb);
        var won := Wins(pb, row, column, p);
        State() == s0.(practiceBoard := Some(pb), currentPlayer := if won || IsFull(pb) then p else Other(p)) &&
        out == [Emit(ToSender, if won then PracticeWon(data) else if IsFull(pb) then PracticeDraw(data)
                               else PracticeMoveMade(data))]
      else
        State() == s0 && out == []
    }

    /** `practice-move`. */
    method PracticeMove(column: int) returns (out: seq<Emit>)
      requires Valid()
      modifies this`practiceBoard, this`currentPlayer
      ensures Valid()
      ensures PracticePlayed(old(State()), column, out)
    {
      out := [];
      if !practiceMode || |players| > 1 {
        return;
      }
      var b := practiceBoard.value;
      var row := DropRow(b, column);
      if row.None? {
        return;
      }
      DropKeepsValid(b, column, row.value, currentPlayer);
      var pb := SetCell(b, row.value, column, currentPlayer);
      practiceBoard := Some(pb);
      var data := PracticeMoveData(row.value, column, currentPlayer, pb);
      var won := CheckWinner(pb, row.value, column, currentPlayer);
      if won {
        out := [Emit(ToSender, PracticeWon(data))];
      } else if IsFull(pb) {
        out := [Emit(ToSender, PracticeDraw(data))];
      } else {
        currentPlayer := Other(currentPlayer);
        out := [Emit(ToSender, PracticeMoveMade(data))];
      }
    }

    /** What `reset-practice` leaves: in practice mode, an empty practice board and player 1 to move. */
    predicate PracticeRestarted(s0: RoomState, out: seq<Emit>)
      reads this
    {
      if !s0.practiceMode then State() == s0 && out == []
      else State() == s0.(practiceBoard := Some(EmptyBoard()), currentPlayer := 1) && out == [Emit(ToSender, PracticeReset)]
    }

    /** `reset-practice`. */
    method ResetPractice() returns (out: seq<Emit>)
      requires Valid()
      modifies this`practiceBoard, this`currentPlayer
      ensures Valid()
      ensures PracticeRestarted(old(State()), out)
    {
      out := [];
      if !practiceMode {
        return;
      }
      practiceBoard := Some(EmptyBoard());
      currentPlayer := 1;
      out := [Emit(ToSender, PracticeReset)];
    }

    /** What `end-practice` leaves, in any state: no practice, and player 1 to move. */
    predicate PracticeClosed(s0: RoomState, out: seq<Emit>)
      reads this
    {
      State() == s0.(practiceMode := false, practiceBoard := None, currentPlayer := 1) &&
      out == [Emit(ToSender, PracticeEnded)]
    }

    /** `end-practice`. */
    method EndPractice() returns (out: seq<Emit>)
      requires Valid()
      modifies this`practiceMode, this`practiceBoard, this`currentPlayer
      ensures Valid()
      ensures PracticeClosed(old(State()), out)
    {
      practiceMode := false;
      practiceBoard := None;
      currentPlayer := 1;
      out := [Emit(ToSender, PracticeEnded)];
    }

    /**
     * What `request-rematch` leaves: the socket's vote is recorded once; when
     * that makes two votes, the game is reset, whether or not it has finished,
     * with `startingPlayer` (the store's `starting_player`) to move, and the
     * votes are cleared. Practice state and players are kept.
     */
    predicate RematchVoted(s0: RoomState, socket: SocketId, startingPlayer: int, out: seq<Emit>)
      reads this
    {
      var votes := if socket in s0.rematchRequests then s0.rematchRequests else s0.rematchRequests + [socket];
      (if |votes| == 2
       then State() == s0.(board := EmptyBoard(), currentPlayer := startingPlayer, winner := NoWinner,
                           pendingMove := None, rematchRequests := [])
       else State() == s0.(rematchRequests := votes)) &&
      out == (if socket !in s0.rematchRequests then [Emit(ToOthers(roomId), RematchRequested)] else []) +
             (if |votes| == 2 then [Emit(ToRoom(roomId), GameReset(View(None)))] else [])
    }

    /** `request-rematch`. `reset` tells the registry to save the room. */
    method RequestRematch(socket: SocketId, startingPlayer: int) returns (out: seq<Emit>, reset: bool)
      requires Valid() && IsPlayer(startingPlayer)
      modifies this`rematchRequests, this`board, this`currentPlayer, this`winner, this`pendingMove
      ensures Valid()
      ensures reset <==> |old(rematchRequests)| == 1 && socket !in old(rematchRequests)
      ensures RematchVoted(old(State()), socket, startingPlayer, out)
    {
      out := [];
      reset := false;
      if socket !in rematchRequests {
        rematchRequests := rematchRequests + [socket];
        out := out + [Emit(ToOthers(roomId), RematchRequested)];
      }
      if |rematchRequests| == 2 {
        board := EmptyBoard();
        currentPlayer := startingPlayer;
        winner := NoWinner;
        pendingMove := None;
        rematchRequests := [];
        reset := true;
        out := out + [Emit(ToRoom(roomId), GameReset(View(None)))];
      }
    }

    /**
     * What `disconnect` leaves in this room: the socket is no longer a player,
     * the others keep their order, the room hears about it exactly when the
     * socket was a player, and nothing else changes.
     */
    predicate PlayerRemoved(s0: RoomState, socket: SocketId, out: seq<Emit>)
      reads this
    {
      State() == s0.(players := Without(s0.players, socket)) &&
      out == if socket in s0.players then [Emit(ToRoom(roomId), PlayerDisconnected)] else []
    }

    /**
     * The part of `disconnect` that concerns this room. When the first player
     * leaves, the second one now holds slot 1.
     */
    method RemovePlayer(socket: SocketId) returns (out: seq<Emit>, removed: bool)
      requires Valid()
      modifies this`players
      ensures Valid()
      ensures removed <==> socket in old(players)
      ensures PlayerRemoved(old(State()), socket, out)
      ensures |old(players)| == 2 && old(players)[0] == socket ==> players == [old(players)[1]]
    {
      out := [];
      removed := false;
      var playerIndex := IndexOf(players, socket);
      if playerIndex != -1 {
        SpliceIsWithout(players, socket);
        WithoutDistinct(players, socket);
        var rest := players[..playerIndex] + players[playerIndex + 1..];
        assert |players| == 2 && playerIndex == 0 ==> rest == [players[1]];
        players := rest;
        removed := true;
        out := [Emit(ToRoom(roomId), PlayerDisconnected)];
      } else {
        WithoutAbsent(players, socket);
      }
    }
  }
}
