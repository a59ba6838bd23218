/**
 * What server and browser say to each other over the socket: the events the
 * server emits (with the audience socket.io delivers them to) and the requests
 * the page sends. Both the room model and the page model use these values.
 */
module Protocol {
  import opened Common
  import opened Board

  /** A socket.io connection id; the server identifies players by it. */
  type SocketId = string

  /** A room id (a UUID string in the original program); also the socket.io room name. */
  type RoomId = string

  /** `game.winner`: `null`, the number of the winning player, or `'draw'`. */
  datatype Winner = NoWinner | Won(player: int) | Draw

  /** `{ row, column, player }`: a previewed (pending) or a committed move. */
  datatype Move = Move(row: int, column: int, player: int)

  /**
   * The room object as it travels in `game-start`, `game-state`, `game-reset`,
   * `move-made`, `game-won` and `game-draw`, without its score. The last
   * three add `lastMove`.
   */
  datatype GameView = GameView(
    roomId: RoomId,
    board: Grid,
    currentPlayer: int,
    winner: Winner,
    players: seq<SocketId>,
    pendingMove: Option<Move>,
    practiceMode: bool,
    practiceBoard: Option<Grid>,
    rematchRequests: seq<SocketId>,
    lastMove: Option<Move>)

  /** The payload of the three practice events: the move and the practice board after it. */
  datatype PracticeMoveData = PracticeMoveData(row: int, column: int, player: int, board: Grid)

  /** The events the server emits. */
  datatype Message =
    | RoomNotFound                      // 'error', 'Game room not found'
    | PlayerNumber(number: int)
    | GameStart(state: GameView)
    | WaitingForPlayer
    | GameState(state: GameView)
    | MovePreview(move: Move)
    | InvalidMove                       // 'invalid-move', 'Not your turn'
    | GameWon(state: GameView)
    | GameDraw(state: GameView)
    | MoveMade(state: GameView)
    | MoveCancelled
    | PracticeStarted
    | PracticeWon(data: PracticeMoveData)
    | PracticeDraw(data: PracticeMoveData)
    | PracticeMoveMade(data: PracticeMoveData)
    | PracticeReset
    | PracticeEnded
    | RematchRequested
    | GameReset(state: GameView)
    | PlayerDisconnected

  /**
   * Who receives an event: the requesting socket (`socket.emit`), every socket
   * in the room (`io.to(roomId).emit`), or every socket in the room but the
   * requester (`socket.to(roomId).emit`).
   */
  datatype Audience = ToSender | ToRoom(room: RoomId) | ToOthers(room: RoomId)

  /** One emitted event. */
  datatype Emit = Emit(to: Audience, msg: Message)

  /** The requests the page sends to the server. */
  datatype Request =
    | PreviewMoveRequest(room: RoomId, column: int)
    | ConfirmMoveRequest(room: RoomId)
    | CancelMoveRequest(room: RoomId)
}
