// Protected rooms over whole runs: nobody is in a protected room without having sent its hash.

module RoomSafety {
  import opened Bytes
  import opened Protocol
  import opened Chat
  import opened Sockets
  import opened ServerSpec
  import opened Invariants

  /** The packet of a JOIN request. */
  function JoinPacket(roomID: uint8, hash: Bytes): (packet: Packet)
    requires |hash| == 32
  {
    Op(CMSG_JOIN_ROOM) + [roomID] + hash
  }

  /** In the k-th step of the run the holder of the handle `ssl` submits a JOIN with this room and hash. */
  ghost predicate SubmitsAt(s: State, events: seq<Event>, k: nat, ssl: nat, roomID: uint8, hash: Bytes)
    requires k < |events| && |hash| == 32
  {
    var now, e := Execute(s, events[..k]), events[k];
    Enabled(now, e) && e.Receiving? && now.clients[e.i].ssl == ssl && e.data == JoinPacket(roomID, hash)
  }

  ghost predicate Submitted(s: State, events: seq<Event>, ssl: nat, roomID: uint8, hash: Bytes)
    requires |hash| == 32
  {
    exists k :: 0 <= k < |events| && SubmitsAt(s, events, k, ssl, roomID, hash)
  }

  lemma SubmittedEarlier(s: State, events: seq<Event>, ssl: nat, roomID: uint8, hash: Bytes)
    requires |events| > 0 && |hash| == 32 && Submitted(s, events[..|events| - 1], ssl, roomID, hash)
    ensures Submitted(s, events, ssl, roomID, hash)
  {
    var before := events[..|events| - 1];
    var k :| 0 <= k < |before| && SubmitsAt(s, before, k, ssl, roomID, hash);
    assert before[..k] == events[..k];
    assert SubmitsAt(s, events, k, ssl, roomID, hash);
  }

  /** A client with the handle `ssl` is in the room. */
  ghost predicate IsMember(s: State, ssl: nat, roomID: uint8) {
    exists k :: 0 <= k < |s.clients| && IsMemberAt(s.clients[k], ssl, roomID)
  }

  predicate IsMemberAt(c: ClientSocket, ssl: nat, roomID: uint8) {
    c.ssl == ssl && c.chatRoomJoined && c.joinedChatRoomID == roomID
  }

  lemma StepRooms(s: State, e: Event, r: uint8)
    requires r in s.rooms
    ensures r in Step(s, e).rooms && Step(s, e).rooms[r] == s.rooms[r]
  {
    if Enabled(s, e) && e.Receiving? {
      ReceiveFrame(s, e.i, e.data, e.texts);
    }
  }

  /** Rooms that were loaded are never altered, although lookups may add new ones. */
  lemma {:induction false} RoomsKept(s: State, events: seq<Event>, r: uint8)
    requires r in s.rooms
    ensures r in Execute(s, events).rooms && Execute(s, events).rooms[r] == s.rooms[r]
  {
    if |events| > 0 {
      RoomsKept(s, events[..|events| - 1], r);
      StepRooms(Execute(s, events[..|events| - 1]), events[|events| - 1], r);
    }
  }

  /** The step dispatches a JOIN that names the room. */
  predicate NamesRoom(s: State, e: Event, r: uint8) {
    Enabled(s, e) && e.Receiving? && |e.data| == 35 && OpOf(e.data) == CMSG_JOIN_ROOM && e.data[2] == r
  }

  ghost predicate Named(s: State, events: seq<Event>, r: uint8) {
    exists k :: 0 <= k < |events| && NamesRoom(Execute(s, events[..k]), events[k], r)
  }

  lemma NamedStep(s: State, events: seq<Event>, r: uint8)
    requires |events| > 0
    ensures var before, last := events[..|events| - 1], events[|events| - 1];
            Named(s, events, r) <==> Named(s, before, r) || NamesRoom(Execute(s, before), last, r)
  {
    var before := events[..|events| - 1];
    assert forall k :: 0 <= k < |before| ==> before[..k] == events[..k];
    if Named(s, before, r) {
      var k :| 0 <= k < |before| && NamesRoom(Execute(s, before[..k]), before[k], r);
      assert NamesRoom(Execute(s, events[..k]), events[k], r);
    }
    if NamesRoom(Execute(s, before), events[|before|], r) {
      assert Named(s, events, r);
    }
    if Named(s, events, r) {
      var k :| 0 <= k < |events| && NamesRoom(Execute(s, events[..k]), events[k], r);
      if k < |before| { assert NamesRoom(Execute(s, before[..k]), before[k], r); }
    }
  }

  lemma DispatchRooms(s: State, i: nat, size: nat, texts: Texts)
    requires i < |s.clients| && 2 <= size <= BUFFER_SIZE
    ensures Dispatch(s, i, size, texts).rooms
         == if OpOf(s.memory[..2]) == CMSG_JOIN_ROOM && size == 35 then Touched(s.rooms, s.memory[2]) else s.rooms
  {
    var opcode := OpOf(s.memory[..2]);
    if opcode != CMSG_INCREMENT_COUNTER && !(opcode == CMSG_JOIN_ROOM && size == 35) {
      DispatchOnlySends(s, i, size, texts);
    }
  }

  lemma StepAddsRoom(s: State, e: Event)
    ensures Step(s, e).rooms
         == if e.Receiving? && |e.data| > 2 && NamesRoom(s, e, e.data[2]) then Touched(s.rooms, e.data[2]) else s.rooms
  {
    if Enabled(s, e) && e.Receiving? && |e.data| >= 2 {
      OverwriteOp(s.memory, e.data);
      DispatchRooms(s.(memory := Overwrite(s.memory, e.data)), e.i, |e.data|, e.texts);
    }
  }

  /** What a run adds to the table: a room that was not there is there afterwards if and only if a JOIN has named it,
      and then it is empty and open. */
  lemma {:induction false} RoomsAdded(s: State, events: seq<Event>, r: uint8)
    requires r !in s.rooms
    ensures r in Execute(s, events).rooms <==> Named(s, events, r)
    ensures r in Execute(s, events).rooms ==> Execute(s, events).rooms[r] == NO_ROOM
  {
    if |events| > 0 {
      var before, e := events[..|events| - 1], events[|events| - 1];
      RoomsAdded(s, before, r);
      NamedStep(s, events, r);
      StepAddsRoom(Execute(s, before), e);
    }
  }

  /** A room that was not loaded is refused to the first JOIN that names it and open to every later one. */
  lemma SecondJoinAdmitted(s: State, events: seq<Event>, r: uint8, hash: Bytes)
    requires r !in s.rooms
    ensures Admits(Execute(s, events).rooms, r, hash) <==> Named(s, events, r)
  {
    RoomsAdded(s, events, r);
  }

  lemma JoinData(memory: Memory, data: Packet)
    requires |data| == 35
    ensures var m := Overwrite(memory, data);
            && m[2] == data[2] && m[3..35] == data[3..]
            && (OpOf(data) == CMSG_JOIN_ROOM ==> data == JoinPacket(data[2], data[3..]))
  {
    if OpOf(data) == CMSG_JOIN_ROOM {
      assert data == data[..2] + [data[2]] + data[3..];
    }
  }

  /** Who is in a room after a step was there before, or has just been admitted by a JOIN of its own. */
  lemma StepMembership(s: State, e: Event, ssl: nat, roomID: uint8)
    requires IsMember(Step(s, e), ssl, roomID)
    ensures IsMember(s, ssl, roomID)
            || (Enabled(s, e) && e.Receiving? && s.clients[e.i].ssl == ssl && |e.data| == 35
                && e.data == JoinPacket(roomID, e.data[3..]) && Admits(s.rooms, roomID, e.data[3..]))
  {
    if Enabled(s, e) {
      match e
      case Connecting(arrival) => ConnectMembership(s, arrival, ssl, roomID);
      case Receiving(i, data, texts) => ReceiveMembership(s, i, data, texts, ssl, roomID);
      case Dropping(i, address) => DropMembership(s, i, address, ssl, roomID);
      case _ =>
    }
  }

  lemma ConnectMembership(s: State, a: Arrival, ssl: nat, roomID: uint8)
    requires IsMember(Connect(s, a), ssl, roomID)
    ensures IsMember(s, ssl, roomID)
  {
    var s' := Connect(s, a);
    var k :| 0 <= k < |s'.clients| && IsMemberAt(s'.clients[k], ssl, roomID);
    assert k < |s.clients| && s'.clients[k] == s.clients[k];
  }

  lemma DropMembership(s: State, i: nat, address: Option<Address>, ssl: nat, roomID: uint8)
    requires i < |s.clients| && IsMember(Drop(s, i, address), ssl, roomID)
    ensures IsMember(s, ssl, roomID)
  {
    var s' := Drop(s, i, address);
    var k :| 0 <= k < |s'.clients| && IsMemberAt(s'.clients[k], ssl, roomID);
    assert s'.clients[k] == s.clients[if k < i then k else k + 1];
  }

  lemma ReceiveMembership(s: State, i: nat, data: Packet, texts: Texts, ssl: nat, roomID: uint8)
    requires i < |s.clients| && IsMember(Receive(s, i, data, texts), ssl, roomID)
    ensures IsMember(s, ssl, roomID)
            || (s.clients[i].ssl == ssl && |data| == 35 && data == JoinPacket(roomID, data[3..])
                && Admits(s.rooms, roomID, data[3..]))
  {
    var s' := Receive(s, i, data, texts);
    var k :| 0 <= k < |s'.clients| && IsMemberAt(s'.clients[k], ssl, roomID);
    ReceiveFrame(s, i, data, texts);
    if s'.clients[k] == s.clients[k] {
    } else {
      assert k == i;
      JoinData(s.memory, data);
      OverwriteOp(s.memory, data);
    }
  }

  /** Safety: in every reachable state, a client that is in a loaded protected room has submitted, in an earlier JOIN
      of its own, exactly the hash stored for that room. */
  lemma {:induction false} ProtectedRoomSafety(s: State, events: seq<Event>, ssl: nat, roomID: uint8)
    requires s.clients == [] && roomID in s.rooms && s.rooms[roomID].Protected()
    requires IsMember(Execute(s, events), ssl, roomID)
    ensures Submitted(s, events, ssl, roomID, s.rooms[roomID].passwordHash)
  {
    if |events| > 0 {
      var before, e := events[..|events| - 1], events[|events| - 1];
      StepMembership(Execute(s, before), e, ssl, roomID);
      if IsMember(Execute(s, before), ssl, roomID) {
        ProtectedRoomSafety(s, before, ssl, roomID);
        SubmittedEarlier(s, events, ssl, roomID, s.rooms[roomID].passwordHash);
      } else {
        RoomsKept(s, before, roomID);
        assert SubmitsAt(s, events, |before|, ssl, roomID, s.rooms[roomID].passwordHash);
      }
    }
  }

  /** A JOIN changes the caller's membership if and only if the room is in the table and is open or has this hash; a
      refused one leaves every client as it was, and still leaves an unknown room behind as an empty open one.  The
      reply names the room, or the reason. */
  lemma JoinOutcome(s: State, i: nat, roomID: uint8, hash: Bytes, texts: Texts)
    requires i < |s.clients| && |hash| == 32
    ensures JoinPacket(roomID, hash) == [0x00, 0x0C, roomID] + hash
    ensures var s' := Receive(s, i, JoinPacket(roomID, hash), texts);
            var known := roomID in s.rooms;
            var admitted := known && (s.rooms[roomID].passwordHash == [] || s.rooms[roomID].passwordHash == hash);
            && s'.clients == (if admitted
                              then s.clients[i := s.clients[i].(joinedChatRoomID := roomID, chatRoomJoined := true)]
                              else s.clients)
            && s'.rooms == (if known then s.rooms else s.rooms[roomID := ChatRoom([], [])])
            && s'.sent == s.sent + [Sent(s.clients[i].ssl,
                 if admitted then [0x10, 0x0A, roomID] else if known then [0x10, 0x0B, 2] else [0x10, 0x0B, 1])]
  {
    var data := JoinPacket(roomID, hash);
    OverwriteOp(s.memory, data);
    JoinData(s.memory, data);
    assert data[..2] == Op(CMSG_JOIN_ROOM) && data[3..] == hash;
    assert Op(SMSG_JOIN_CHAT_ROOM_OK) + [roomID] == [0x10, 0x0A, roomID];
    assert Op(SMSG_JOIN_CHAT_ROOM_ERR) + [ERR_INVALID_ROOM_PASSWORD] == [0x10, 0x0B, 2];
    assert Op(SMSG_JOIN_CHAT_ROOM_ERR) + [ERR_INVALID_ROOM] == [0x10, 0x0B, 1];
  }
}
