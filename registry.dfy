/**
 * The server's `games` map from room id to room, together with the three
 * tables of the store it writes through: the registered rooms, the last saved
 * snapshot of each room, and the history of finished games. Each socket
 * handler looks its room up here; a room that is not in memory is hydrated
 * from its saved snapshot when it is joined.
 */
module Registry {
  import opened Common
  import opened Board
  import opened Protocol
  import opened Session

  /**
   * The events of a `disconnect` that has dealt with every room of `before`
   * outside `todo`: one `player-disconnected` to each such room the socket was
   * in, and nothing else.
   */
  ghost predicate Reported(socket: SocketId, todo: set<RoomId>, before: map<RoomId, RoomState>, out: seq<Emit>) {
    (forall e :: e in out ==>
       e.msg == PlayerDisconnected && e.to.ToRoom? && e.to.room in before && e.to.room !in todo &&
       socket in before[e.to.room].players) &&
    Distinct(out) &&
    (forall id :: id in before && id !in todo && socket in before[id].players ==>
       Emit(ToRoom(id), PlayerDisconnected) in out)
  }

  /** Dealing with one more room appends its event exactly when the socket was in it. */
  lemma ReportedStep(socket: SocketId, todo: set<RoomId>, before: map<RoomId, RoomState>, out: seq<Emit>, id: RoomId)
    requires Reported(socket, todo, before, out) && id in todo && id in before
    ensures Reported(socket, todo - {id}, before,
                     out + if socket in before[id].players then [Emit(ToRoom(id), PlayerDisconnected)] else [])
  {
    if socket in before[id].players {
      DistinctAppend(out, Emit(ToRoom(id), PlayerDisconnected));
    }
  }

  class RoomRegistry {
    /** The in-memory `games` map. */
    var games: map<RoomId, Room>
    /** The `game_rooms` table. */
    var rooms: set<RoomId>
    /** The `game_states` table. */
    var states: map<RoomId, Snapshot>
    /** The `game_history` table, oldest first. */
    var history: seq<MatchRecord>

    /** Every room in memory is valid and filed under its own id; every saved snapshot is valid and filed under its own id. */
    predicate Valid()
      reads this`games, this`states, games.Values
    {
      (forall id :: id in games ==> games[id].roomId == id) &&
      (forall r :: r in games.Values ==> r.Valid()) &&
      (forall id :: id in states ==> states[id].roomId == id && ValidSnapshot(states[id]))
    }

    /** A server that has just started: no room in memory, the store as it was left. */
    constructor (savedRooms: set<RoomId>, savedStates: map<RoomId, Snapshot>, savedHistory: seq<MatchRecord>)
      requires forall id :: id in savedStates ==> savedStates[id].roomId == id && ValidSnapshot(savedStates[id])
      ensures Valid()
      ensures games == map[] && rooms == savedRooms && states == savedStates && history == savedHistory
    {
      games := map[];
      rooms := savedRooms;
      states := savedStates;
      history := savedHistory;
    }

    /**
     * `/api/create-room` with the fresh id `roomId`: the new room goes into
     * memory first; registering the id fails when the store already has it,
     * and then no snapshot is saved.
     */
    method CreateRoom(roomId: RoomId) returns (ok: bool)
      requires Valid()
      modifies this`games, this`rooms, this`states
      ensures Valid()
      ensures roomId in games && fresh(games[roomId]) && games == old(games)[roomId := games[roomId]]
      ensures games[roomId].State() == Initial()
      ensures ok <==> roomId !in old(rooms)
      ensures ok ==> rooms == old(rooms) + {roomId} && states == old(states)[roomId := games[roomId].Snap()]
      ensures !ok ==> rooms == old(rooms) && states == old(states)
      ensures history == old(history)
    {
      var room := new Room.Create(roomId);
      games := games[roomId := room];
      if roomId in rooms {
        return false;
      }
      rooms := rooms + {roomId};
      Save(roomId);
      ok := true;
    }

    /**
     * `join-room`: a room in memory is used as it is; otherwise a registered
     * room with a saved snapshot is hydrated from that snapshot and kept in
     * memory; otherwise the socket is told the room does not exist. Either way
     * the join itself is `Joined`, and the room is saved again exactly when
     * the socket took a slot. No other room changes.
     */
    method JoinRoom(socket: SocketId, roomId: RoomId) returns (out: seq<Emit>)
      requires Valid()
      modifies this`games, this`states, if roomId in games then {games[roomId]} else {}
      ensures Valid()
      ensures rooms == old(rooms) && history == old(history)
      ensures roomId !in old(games) && !(roomId in rooms && roomId in old(states)) ==>
                games == old(games) && states == old(states) && out == [Emit(ToSender, RoomNotFound)]
      ensures roomId in old(games) ==>
                games == old(games) &&
                games[roomId].Joined(old(games[roomId].State()), socket, out) &&
                states == if Seats(old(games[roomId].players), socket)
                          then old(states)[roomId := games[roomId].Snap()] else old(states)
      ensures roomId !in old(games) && roomId in rooms && roomId in old(states) ==>
                roomId in games && fresh(games[roomId]) && games == old(games)[roomId := games[roomId]] &&
                games[roomId].Joined(Hydrated(old(states[roomId])), socket, out) &&
                states == if Seats(old(states[roomId].players), socket)
                          then old(states)[roomId := games[roomId].Snap()] else old(states)
    {
      if roomId !in games {
        if !(roomId in rooms && roomId in states) {
          out := [Emit(ToSender, RoomNotFound)];
          return;
        }
        Load(roomId);
      }
      var added;
      out, added := JoinIn(roomId, socket);
      if added {
        Save(roomId);
      }
    }

    /** `db.getGameState` followed by `games.set`: the room under `roomId` is hydrated from its snapshot. */
    method Load(roomId: RoomId)
      requires Valid() && roomId !in games && roomId in states
      modifies this`games
      ensures Valid()
      ensures roomId in games && fresh(games[roomId]) && games == old(games)[roomId := games[roomId]]
      ensures games[roomId].State() == Hydrated(states[roomId])
    {
      var room := new Room.Hydrate(states[roomId]);
      games := games[roomId := room];
    }

    /** `room.Join` on the room in memory under `roomId`, which keeps every room and snapshot valid. */
    method JoinIn(roomId: RoomId, socket: SocketId) returns (out: seq<Emit>, added: bool)
      requires Valid() && roomId in games
      modifies games[roomId]
      ensures Valid()
      ensures games[roomId].Joined(old(games[roomId].State()), socket, out)
      ensures added <==> Seats(old(games[roomId].players), socket)
    {
      out, added := games[roomId].Join(socket);
    }

    /** `preview-move` on the room in memory; nothing happens for a room that is not in memory. */
    method PreviewMove(socket: SocketId, roomId: RoomId, column: int) returns (out: seq<Emit>)
      requires Valid()
      modifies if roomId in games then {games[roomId]} else {}
      ensures Valid()
      ensures roomId !in games ==> out == []
      ensures roomId in games ==> old(games[roomId].Valid())
      ensures roomId in games ==> games[roomId].Previewed(old(games[roomId].State()), socket, column, out)
    {
      out := [];
      if roomId in games {
        out := games[roomId].Preview(socket, column);
      }
    }

    /** `saveGameState` for the room in memory under `roomId`. */
    method Save(roomId: RoomId)
      requires Valid() && roomId in games
      modifies this`states
      ensures Valid() && states == old(states)[roomId := games[roomId].Snap()]
    {
      states := states[roomId := games[roomId].Snap()];
    }

    /** `room.Confirm` on the room in memory under `roomId`, which keeps every room and snapshot valid. */
    method ConfirmIn(roomId: RoomId, socket: SocketId) returns (out: seq<Emit>, record: Option<MatchRecord>, committed: bool)
      requires Valid() && roomId in games
      modifies games[roomId]
      ensures Valid() && old(games[roomId].Valid())
      ensures games[roomId].Confirmed(old(games[roomId].State()), socket, out, record)
      ensures committed <==> Commits(old(games[roomId].State()), socket)
      ensures record == if committed && games[roomId].winner != NoWinner
                        then Some(MatchRecord(roomId, games[roomId].winner, CountBoard(games[roomId].board),
                                              games[roomId].board)) else None
    {
      out, record, committed := games[roomId].Confirm(socket);
    }

    /**
     * `confirm-move` on the room in memory: the room changes as `Confirmed`
     * says, it is saved exactly when the move was committed, and a game that
     * the move ended is appended to the history with its winner, piece count
     * and board.
     */
    method ConfirmMove(socket: SocketId, roomId: RoomId) returns (out: seq<Emit>)
      requires Valid()
      modifies this`states, this`history, if roomId in games then {games[roomId]} else {}
      ensures Valid()
      ensures games == old(games) && rooms == old(rooms)
      ensures roomId !in games ==> out == [] && states == old(states) && history == old(history)
      ensures roomId in games ==> old(games[roomId].Valid())
      ensures roomId in games ==>
                var room := games[roomId];
                var committed := Commits(old(room.State()), socket);
                var record := if committed && room.winner != NoWinner
                              then Some(MatchRecord(roomId, room.winner, CountBoard(room.board), room.board)) else None;
                room.Confirmed(old(room.State()), socket, out, record) &&
                states == (if committed then old(states)[roomId := room.Snap()] else old(states)) &&
                history == old(history) + (if record.Some? then [record.value] else [])
    {
      out := [];
      if roomId !in games {
        return;
      }
      var record, committed;
      out, record, committed := ConfirmIn(roomId, socket);
      if record.Some? {
        history := history + [record.value];
      }
      if committed {
        Save(roomId);
      }
    }

    /** `cancel-move` on the room in memory; nothing happens for a room that is not in memory. */
    method CancelMove(roomId: RoomId) returns (out: seq<Emit>)
      requires Valid()
      modifies if roomId in games then {games[roomId]} else {}
      ensures Valid()
      ensures roomId !in games ==> out == []
      ensures roomId in games ==> games[roomId].Cancelled(old(games[roomId].State()), out)
    {
      out := [];
      if roomId in games {
        out := games[roomId].Cancel();
      }
    }

    /** `start-practice` on the room in memory; nothing happens for a room that is not in memory. */
    method StartPractice(roomId: RoomId) returns (out: seq<Emit>)
      requires Valid()
      modifies if roomId in games then {games[roomId]} else {}
      ensures Valid()
      ensures roomId !in games ==> out == []
      ensures roomId in games ==> games[roomId].PracticeOpened(old(games[roomId].State()), out)
    {
      out := [];
      if roomId in games {
        out := games[roomId].StartPractice();
      }
    }

    /** `practice-move` on the room in memory; nothing happens for a room that is not in memory. */
    method PracticeMove(roomId: RoomId, column: int) returns (out: seq<Emit>)
      requires Valid()
      modifies if roomId in games then {games[roomId]} else {}
      ensures Valid()
      ensures roomId !in games ==> out == []
      ensures roomId in games ==> old(games[roomId].Valid())
      ensures roomId in games ==> games[roomId].PracticePlayed(old(games[roomId].State()), column, out)
      ensures roomId in games ==> games[roomId].board == old(games[roomId].board)
    {
      out := [];
      if roomId in games {
        out := games[roomId].PracticeMove(column);
      }
    }

    /** `reset-practice` on the room in memory; nothing happens for a room that is not in memory. */
    method ResetPractice(roomId: RoomId) returns (out: seq<Emit>)
      requires Valid()
      modifies if roomId in games then {games[roomId]} else {}
      ensures Valid()
      ensures roomId !in games ==> out == []
      ensures roomId in games ==> games[roomId].PracticeRestarted(old(games[roomId].State()), out)
    {
      out := [];
      if roomId in games {
        out := games[roomId].ResetPractice();
      }
    }

    /** `end-practice` on the room in memory; nothing happens for a room that is not in memory. */
    method EndPractice(roomId: RoomId) returns (out: seq<Emit>)
      requires Valid()
      modifies if roomId in games then {games[roomId]} else {}
      ensures Valid()
      ensures roomId !in games ==> out == []
      ensures roomId in games ==> games[roomId].PracticeClosed(old(games[roomId].State()), out)
    {
      out := [];
      if roomId in games {
        out := games[roomId].EndPractice();
      }
    }

    /**
     * `request-rematch` on the room in memory: `startingPlayer` is the store's
     * `starting_player` after its toggle. The room changes as `RematchVoted`
     * says, and it is saved exactly when the vote reset it.
     */
    method RequestRematch(socket: SocketId, roomId: RoomId, startingPlayer: int) returns (out: seq<Emit>)
      requires Valid() && IsPlayer(startingPlayer)
      modifies this`states, if roomId in games then {games[roomId]} else {}
      ensures Valid()
      ensures games == old(games) && rooms == old(rooms) && history == old(history)
      ensures roomId !in games ==> out == [] && states == old(states)
      ensures roomId in games ==>
                var room := games[roomId];
                var reset := |old(room.rematchRequests)| == 1 && socket !in old(room.rematchRequests);
                room.RematchVoted(old(room.State()), socket, startingPlayer, out) &&
                states == (if reset then old(states)[roomId := room.Snap()] else old(states))
    {
      out := [];
      if roomId !in games {
        return;
      }
      var reset;
      out, reset := games[roomId].RequestRematch(socket, startingPlayer);
      if reset {
        Save(roomId);
      }
    }

    /**
     * `disconnect`: the socket leaves the players of every room in memory,
     * nothing else in any room changes, and each room it was in hears about
     * it. Nothing is saved.
     */
    method Disconnect(socket: SocketId) returns (out: seq<Emit>)
      requires Valid()
      modifies games.Values
      ensures Valid()
      ensures forall id :: id in games ==>
                games[id].State() == old(games[id].State()).(players := Without(old(games[id].players), socket))
      ensures forall id :: id in games ==>
                (Emit(ToRoom(id), PlayerDisconnected) in out <==> socket in old(games[id].players))
      ensures forall e :: e in out ==>
                e.msg == PlayerDisconnected && e.to.ToRoom? && e.to.room in games && socket in old(games[e.to.room].players)
      ensures Distinct(out)
    {
      out := [];
      var gs := games;
      ghost var before := map id | id in gs :: gs[id].State();
      var todo := gs.Keys;
      while todo != {}
        invariant gs == games
        invariant forall id :: id in gs ==> before[id] == old(gs[id].State())
        invariant Valid() && Progress(socket, todo, before, out)
        decreases todo
      {
        var id :| id in todo;
        out := LeaveRoom(id, socket, todo, before, out);
        todo := todo - {id};
      }
    }

    /**
     * How far `disconnect` has got: the rooms still in `todo` are as they were
     * (`before`), the others have lost the socket from their players and are
     * otherwise as they were, and `out` is `Reported`.
     */
    ghost predicate Progress(socket: SocketId, todo: set<RoomId>, before: map<RoomId, RoomState>, out: seq<Emit>)
      reads this, games.Values
    {
      todo <= games.Keys && games.Keys == before.Keys &&
      (forall id :: id in games ==>
         games[id].State() == if id in todo then before[id]
                              else before[id].(players := Without(before[id].players, socket))) &&
      Reported(socket, todo, before, out)
    }

    /** One step of `disconnect`: the socket leaves room `id`, whose event is appended to `out`. */
    method LeaveRoom(id: RoomId, socket: SocketId, ghost todo: set<RoomId>, ghost before: map<RoomId, RoomState>,
                     out0: seq<Emit>) returns (out: seq<Emit>)
      requires Valid() && id in todo && Progress(socket, todo, before, out0)
      modifies games[id]
      ensures games == old(games)
      ensures out == out0 + if socket in before[id].players then [Emit(ToRoom(id), PlayerDisconnected)] else []
      ensures Valid() && Progress(socket, todo - {id}, before, out)
    {
      var room := games[id];
      var o, removed := room.RemovePlayer(socket);
      out := out0 + o;
      forall j | j in games && j != id
        ensures games[j].State() == old(games[j].State())
      {
        assert games[j].roomId == j != room.roomId;
      }
      assert o == if socket in before[id].players then [Emit(ToRoom(id), PlayerDisconnected)] else [];
      ReportedStep(socket, todo, before, out0, id);
    }
  }
}
