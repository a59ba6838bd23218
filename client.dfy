/**
 * The browser page of one room (`public/js/game.js`): the page-wide variables
 * `playerNumber`, `gameState`, `canPlay`, `pendingMove` and `savedRooms`, the
 * handlers that decide what a hover or a click does, the win check it repeats
 * for highlighting, and the socket events that update those variables.
 * Drawing on the page is not modelled; a handler's effect on the page is the
 * value it returns.
 */
module Client {
  import opened Common
  import opened Board
  import opened Protocol

  /** At most this many recent rooms are remembered. */
  const MaxSavedRooms: int := 10

  /** What a click on a cell does. */
  datatype ClickOutcome =
    | Ignored          // play is disabled or the game is over
    | WaitForTurn      // "Wait for your turn!"
    | Sent(request: Request)

  /** A state the server sends: a 6 x 7 board and a winner that is a player, a draw or nobody. */
  predicate ValidView(state: GameView) {
    WellFormed(state.board) &&
    (state.winner.Won? ==> state.winner.player == 1 || state.winner.player == 2)
  }

  /**
   * `saveRoomToLocalStorage` on the list `rooms`: an id already present leaves
   * it alone; otherwise the id goes to the end and, once the list has grown
   * past the limit, the oldest entry is dropped.
   */
  function Remembered(rooms: seq<RoomId>, id: RoomId): (r: seq<RoomId>)
    ensures id in r
    ensures id in rooms ==> r == rooms
    ensures id !in rooms ==> |r| == (if |rooms| < MaxSavedRooms then |rooms| + 1 else |rooms|)
    ensures id !in rooms ==> r[|r| - 1] == id && r[..|r| - 1] == rooms[|rooms| + 1 - |r|..]
  {
    if id in rooms then rooms
    else
      var pushed := rooms + [id];
      assert pushed[|pushed| - 1] == id;
      if |pushed| > MaxSavedRooms then pushed[1..] else pushed
  }

  /** Remembering never puts a duplicate into a list that has none. */
  lemma RememberedDistinct(rooms: seq<RoomId>, id: RoomId)
    requires Distinct(rooms)
    ensures Distinct(Remembered(rooms, id))
  {
    var r := Remembered(rooms, id);
    if id !in rooms {
      var k := |rooms| + 1 - |r|;
      forall i, j | 0 <= i < j < |r| ensures r[i] != r[j] {
        if j < |r| - 1 {
          assert r[i] == rooms[k + i] && r[j] == rooms[k + j];
        } else {
          assert r[i] == rooms[k + i];
        }
      }
    }
  }

  /** Remembering the same room twice is remembering it once. */
  lemma RememberedIdempotent(rooms: seq<RoomId>, id: RoomId)
    ensures Remembered(Remembered(rooms, id), id) == Remembered(rooms, id)
  {
  }

  /** A new room on a full list pushes out exactly the oldest entry. */
  lemma RememberedDropsOldest(rooms: seq<RoomId>, id: RoomId)
    requires |rooms| == MaxSavedRooms && id !in rooms
    ensures Remembered(rooms, id) == rooms[1..] + [id]
  {
    var r := Remembered(rooms, id);
    assert r == r[..|r| - 1] + [r[|r| - 1]];
  }

  /** A cell `highlightWinningPieces` marks for the winner `w`: it holds `w` and `checkWinningPiece` succeeds on it. */
  predicate WinningCell(b: Grid, w: int, q: (int, int))
    requires WellFormed(b)
  {
    InBounds(q.0, q.1) && b[q.0][q.1] == w && Wins(b, q.0, q.1, w)
  }

  /**
   * `checkWinningPiece(board, row, col, player)`: for each axis, collect
   * (row, col) and the cells of `player` that follow it on both sides; four
   * collected cells on one axis is a win. The client's answer is the
   * server's `Wins`, the predicate `checkWinner` computes.
   */
  method CheckWinningPiece(b: Grid, row: int, col: int, player: int) returns (won: bool)
    requires WellFormed(b)
    ensures won == Wins(b, row, col, player)
  {
    for axis := 0 to 4
      invariant forall a :: 0 <= a < axis ==> AxisCount(b, row, col, a, player) < 4
    {
      var pieces := [(row, col)];
      var d0 := Step(axis, 0);
      pieces := Collect(b, row + d0.0, col + d0.1, d0.0, d0.1, player, pieces);
      assert |pieces| == 1 + HalfRun(b, row, col, axis, 0, player);
      var d1 := Step(axis, 1);
      pieces := Collect(b, row + d1.0, col + d1.1, d1.0, d1.1, player, pieces);
      assert |pieces| == AxisCount(b, row, col, axis, player);
      if |pieces| >= 4 {
        return true;
      }
    }
    return false;
  }

  /** The inner `while` of `checkWinningPiece`: walking from (r, c) pushes one cell per step of the run of `player`. */
  method Collect(b: Grid, r0: int, c0: int, dr: int, dc: int, player: int, pieces: seq<(int, int)>)
      returns (collected: seq<(int, int)>)
    requires WellFormed(b) && IsStep(dr, dc)
    ensures |collected| == |pieces| + Run(b, r0, c0, dr, dc, player)
    ensures collected[..|pieces|] == pieces
    ensures forall i :: |pieces| <= i < |collected| ==>
              InBounds(collected[i].0, collected[i].1) && b[collected[i].0][collected[i].1] == player
  {
    collected := pieces;
    var r, c := r0, c0;
    while InBounds(r, c) && b[r][c] == player
      invariant |collected| + Run(b, r, c, dr, dc, player) == |pieces| + Run(b, r0, c0, dr, dc, player)
      invariant |pieces| <= |collected| && collected[..|pieces|] == pieces
      invariant forall i :: |pieces| <= i < |collected| ==>
                  InBounds(collected[i].0, collected[i].1) && b[collected[i].0][collected[i].1] == player
      decreases Remaining(r, c, dr, dc)
    {
      collected := collected + [(r, c)];
      r, c := r + dr, c + dc;
    }
  }

  class GamePage {
    /** The room id taken from the page's path. */
    const roomId: RoomId
    /** `playerNumber`, `null` until the server assigns one. */
    var playerNumber: Option<int>
    /** `gameState`, the last state the server sent. */
    var gameState: Option<GameView>
    /** `canPlay`. */
    var canPlay: bool
    /** `pendingMove`, the previewed move awaiting confirmation. */
    var pendingMove: Option<Move>
    /** `savedRooms`, the recent rooms as read from local storage. */
    var savedRooms: seq<RoomId>

    /** The last state received is one the server can send. */
    predicate Valid()
      reads this`gameState
    {
      gameState.Some? ==> ValidView(gameState.value)
    }

    /** The page as loaded: nothing known yet, the recent rooms read from local storage. */
    constructor (id: RoomId, saved: seq<RoomId>)
      ensures Valid()
      ensures roomId == id && savedRooms == saved
      ensures playerNumber == None && gameState == None && !canPlay && pendingMove == None
    {
      roomId := id;
      playerNumber := None;
      gameState := None;
      canPlay := false;
      pendingMove := None;
      savedRooms := saved;
    }

    /** Hover and click do nothing: play is off, no state yet, or the game is over. */
    predicate Idle()
      reads this
    {
      !canPlay || gameState.None? || gameState.value.winner != NoWinner
    }

    /** The state's current player is not this page's player (`!==` against a possibly `null` number). */
    predicate NotMyTurn()
      reads this
      requires gameState.Some?
    {
      playerNumber != Some(gameState.value.currentPlayer)
    }

    /**
     * `handleCellHover`: the highlighted cell is the drop row of the column —
     * the row the server picks for the same board — and nothing is
     * highlighted when play is off, the game is over, it is not this
     * player's turn, or the column is full.
     */
    method HandleCellHover(column: int) returns (preview: Option<int>)
      requires Valid()
      ensures preview.None? <==>
                Idle() || NotMyTurn() || !(0 <= column < Cols) || ColumnFull(gameState.value.board, column)
      ensures preview.Some? ==> IsDropRow(gameState.value.board, column, preview.value)
    {
      if Idle() || NotMyTurn() {
        return None;
      }
      preview := DropRow(gameState.value.board, column);
    }

    /**
     * `handleCellClick`: ignored while idle; refused when it is not this
     * player's turn; a click on the column of the pending move confirms it;
     * any other click asks the server to preview that column.
     */
    method HandleCellClick(column: int) returns (outcome: ClickOutcome)
      requires Valid()
      ensures outcome == Ignored <==> Idle()
      ensures outcome == WaitForTurn <==> !Idle() && NotMyTurn()
      ensures outcome == Sent(ConfirmMoveRequest(roomId)) <==>
                !Idle() && !NotMyTurn() && pendingMove.Some? && pendingMove.value.column == column
      ensures outcome == Sent(PreviewMoveRequest(roomId, column)) <==>
                !Idle() && !NotMyTurn() && !(pendingMove.Some? && pendingMove.value.column == column)
    {
      if Idle() {
        return Ignored;
      }
      if NotMyTurn() {
        return WaitForTurn;
      }
      if pendingMove.Some? && pendingMove.value.column == column {
        var sent := ConfirmMove();
        return Sent(sent.value);
      }
      return Sent(PreviewMoveRequest(roomId, column));
    }

    /** `confirmMove`: a request goes out exactly when a move is pending. */
    method ConfirmMove() returns (sent: Option<Request>)
      ensures sent.Some? <==> pendingMove.Some?
      ensures sent.Some? ==> sent.value == ConfirmMoveRequest(roomId)
    {
      if pendingMove.None? {
        return None;
      }
      return Some(ConfirmMoveRequest(roomId));
    }

    /** `cancelMove`: without a pending move nothing happens; otherwise it is dropped and the server told. */
    method CancelMove() returns (sent: Option<Request>)
      modifies this`pendingMove
      ensures old(pendingMove).None? ==> sent == None && pendingMove == None
      ensures old(pendingMove).Some? ==> sent == Some(CancelMoveRequest(roomId)) && pendingMove == None
    {
      if pendingMove.None? {
        return None;
      }
      pendingMove := None;
      return Some(CancelMoveRequest(roomId));
    }

    /** `saveRoomToLocalStorage`. */
    method SaveRoomToLocalStorage()
      modifies this`savedRooms
      ensures savedRooms == Remembered(old(savedRooms), roomId)
    {
      if roomId !in savedRooms {
        savedRooms := savedRooms + [roomId];
        if |savedRooms| > MaxSavedRooms {
          savedRooms := savedRooms[1..];
        }
      }
    }

    /**
     * `highlightWinningPieces`: nothing for no winner or a draw; otherwise
     * exactly the cells of the winner from which `checkWinningPiece` finds
     * four in a row.
     */
    method HighlightWinningPieces() returns (cells: set<(int, int)>)
      requires Valid()
      ensures gameState.None? || !gameState.value.winner.Won? ==> cells == {}
      ensures gameState.Some? && gameState.value.winner.Won? ==>
                var b, w := gameState.value.board, gameState.value.winner.player;
                forall q :: q in cells <==> WinningCell(b, w, q)
    {
      cells := {};
      if gameState.None? || !gameState.value.winner.Won? {
        return;
      }
      var b, w := gameState.value.board, gameState.value.winner.player;
      for row := 0 to Rows
        invariant forall q :: q in cells <==> q.0 < row && WinningCell(b, w, q)
      {
        for col := 0 to Cols
          invariant forall q :: q in cells <==>
                      (q.0 < row || (q.0 == row && q.1 < col)) && WinningCell(b, w, q)
        {
          if b[row][col] == w {
            var won := CheckWinningPiece(b, row, col, w);
            if won {
              cells := cells + {(row, col)};
            }
          }
        }
      }
    }

    /** `player-number`. */
    method OnPlayerNumber(number: int)
      modifies this`playerNumber
      ensures playerNumber == Some(number)
    {
      playerNumber := Some(number);
    }

    /** `game-start`: play is on and the room is remembered. */
    method OnGameStart(state: GameView)
      requires ValidView(state)
      modifies this`gameState, this`canPlay, this`savedRooms
      ensures Valid()
      ensures gameState == Some(state) && canPlay
      ensures savedRooms == Remembered(old(savedRooms), roomId)
    {
      gameState := Some(state);
      canPlay := true;
      SaveRoomToLocalStorage();
    }

    /** `game-state`: play is switched on only for an undecided game with two players, never off. */
    method OnGameState(state: GameView)
      requires ValidView(state)
      modifies this`gameState, this`canPlay
      ensures Valid()
      ensures gameState == Some(state)
      ensures canPlay == (old(canPlay) || (state.winner == NoWinner && |state.players| == 2))
    {
      gameState := Some(state);
      if state.winner == NoWinner && |state.players| == 2 {
        canPlay := true;
      }
    }

    /** `move-preview`. */
    method OnMovePreview(move: Move)
      modifies this`pendingMove
      ensures pendingMove == Some(move)
    {
      pendingMove := Some(move);
    }

    /** `move-cancelled`. */
    method OnMoveCancelled()
      modifies this`pendingMove
      ensures pendingMove == None
    {
      pendingMove := None;
    }

    /** `move-made`: the pending move is gone. */
    method OnMoveMade(state: GameView)
      requires ValidView(state)
      modifies this`gameState, this`pendingMove
      ensures Valid()
      ensures gameState == Some(state) && pendingMove == None
    {
      gameState := Some(state);
      pendingMove := None;
    }

    /** `game-won`: play stops, the pending move is gone, and the winning cells are highlighted. */
    method OnGameWon(state: GameView) returns (highlighted: set<(int, int)>)
      requires ValidView(state)
      modifies this`gameState, this`canPlay, this`pendingMove
      ensures Valid()
      ensures gameState == Some(state) && !canPlay && pendingMove == None
      ensures state.winner.Won? ==>
                forall q :: q in highlighted <==> WinningCell(state.board, state.winner.player, q)
      ensures !state.winner.Won? ==> highlighted == {}
    {
      gameState := Some(state);
      canPlay := false;
      pendingMove := None;
      highlighted := HighlightWinningPieces();
    }

    /** `game-draw`: play stops; the pending move is left as it was. */
    method OnGameDraw(state: GameView)
      requires ValidView(state)
      modifies this`gameState, this`canPlay
      ensures Valid()
      ensures gameState == Some(state) && !canPlay
    {
      gameState := Some(state);
      canPlay := false;
    }

    /** `game-reset`: play is on again; the pending move is left as it was. */
    method OnGameReset(state: GameView)
      requires ValidView(state)
      modifies this`gameState, this`canPlay
      ensures Valid()
      ensures gameState == Some(state) && canPlay
    {
      gameState := Some(state);
      canPlay := true;
    }

    /** `player-disconnected`: play stops. */
    method OnPlayerDisconnected()
      modifies this`canPlay
      ensures !canPlay
    {
      canPlay := false;
    }
  }
}
