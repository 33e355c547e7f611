// Who is sent what: room isolation, private messages, and error replies that never occur.

module Messaging {
  import opened Bytes
  import opened Binary64
  import opened Protocol
  import opened Chat
  import opened ClientList
  import opened Addition
  import opened Sockets
  import opened ServerSpec
  import opened Invariants
  import opened RoomSafety

  // ------------------------------------------------ delivery to many

  /** `sent` consists of one copy of the packet to each client that hears the room, in the order of the vector: its k-th
      entry goes to the client at position at[k]. */
  ghost predicate IsDelivery(
    clients: seq<ClientSocket>, room: Option<uint8>, packet: Bytes, sent: seq<Sent>, at: seq<nat>)
  {
    && |at| == |sent|
    && (forall j :: 0 <= j < |at| ==> IsCopy(clients, room, packet, sent[j], at[j]))
    && (forall j, k :: 0 <= j < k < |at| ==> at[j] < at[k])
    && (forall k :: 0 <= k < |clients| && Hears(clients[k], room) ==> k in at)
  }

  predicate IsCopy(clients: seq<ClientSocket>, room: Option<uint8>, packet: Bytes, entry: Sent, k: nat) {
    k < |clients| && Hears(clients[k], room) && entry == Sent(clients[k].ssl, packet)
  }

  lemma InDelivery(
    clients: seq<ClientSocket>, room: Option<uint8>, packet: Bytes, sent: seq<Sent>, at: seq<nat>, k: nat)
    requires IsDelivery(clients, room, packet, sent, at) && k < |clients|
    ensures k in at <==> Hears(clients[k], room)
  {
    if k in at {
      var j :| 0 <= j < |at| && at[j] == k;
      assert IsCopy(clients, room, packet, sent[j], at[j]);
    }
  }

  /** One more client. */
  lemma ExtendDelivery(
    clients: seq<ClientSocket>, c: ClientSocket, room: Option<uint8>, packet: Bytes, sent: seq<Sent>, at: seq<nat>)
    requires IsDelivery(clients, room, packet, sent, at)
    ensures if Hears(c, room)
            then IsDelivery(clients + [c], room, packet, sent + [Sent(c.ssl, packet)], at + [|clients|])
            else IsDelivery(clients + [c], room, packet, sent, at)
  {
    var all := clients + [c];
    forall j | 0 <= j < |at| ensures IsCopy(all, room, packet, sent[j], at[j]) {
      assert IsCopy(clients, room, packet, sent[j], at[j]);
    }
    forall k | 0 <= k < |all| && Hears(all[k], room) ensures k in at + if Hears(c, room) then [|clients|] else [] {
      if k < |clients| { assert all[k] == clients[k]; }
    }
  }

  lemma {:induction false} CopiesAreDelivery(clients: seq<ClientSocket>, room: Option<uint8>, packet: Bytes)
    returns (at: seq<nat>)
    ensures IsDelivery(clients, room, packet, Copies(clients, room, packet), at)
  {
    if |clients| == 0 {
      at := [];
    } else {
      var last: nat := |clients| - 1;
      at := CopiesAreDelivery(clients[..last], room, packet);
      ExtendDelivery(clients[..last], clients[last], room, packet, Copies(clients[..last], room, packet), at);
      assert clients == clients[..last] + [clients[last]];
      if Hears(clients[last], room) { at := at + [last]; }
    }
  }

  // ------------------------------------------------ room isolation

  /** A client that is a member of a room reaches, in vector order and once each, precisely the members of its room,
      itself included, with exactly the text it sent, after having been acknowledged. */
  lemma SayReachesRoom(s: State, i: nat, size: nat) returns (at: seq<nat>)
    requires Inv(s) && i < |s.clients| && 2 <= size <= BUFFER_SIZE && s.clients[i].chatRoomJoined
    ensures var room, packet := s.clients[i].joinedChatRoomID, Op(SMSG_SAY) + s.memory[2..size];
            && Say(s, i, size).sent
                 == s.sent + [Sent(s.clients[i].ssl, Op(SMSG_SAY_OK))] + Copies(s.clients, Some(room), packet)
            && IsDelivery(s.clients, Some(room), packet, Copies(s.clients, Some(room), packet), at)
            && i in at
            && forall k :: 0 <= k < |s.clients| ==>
                 (k in at <==> s.clients[k].chatRoomJoined && s.clients[k].joinedChatRoomID == room)
  {
    var room, packet := Some(s.clients[i].joinedChatRoomID), Op(SMSG_SAY) + s.memory[2..size];
    at := CopiesAreDelivery(s.clients, room, packet);
    forall k | 0 <= k < |s.clients| ensures k in at <==> Hears(s.clients[k], room) {
      InDelivery(s.clients, room, packet, Copies(s.clients, room, packet), at, k);
    }
  }

  /** The same of a received packet; a client that is in no room is told so, and nobody else hears of it. */
  lemma SayIsDelivered(s: State, i: nat, data: Packet, texts: Texts) returns (at: seq<nat>)
    requires Inv(s) && i < |s.clients| && |data| >= 2 && OpOf(data) == CMSG_SAY
    ensures var me, sent := s.clients[i], Receive(s, i, data, texts).sent;
            if me.chatRoomJoined then
              var copies := sent[|s.sent| + 1..];
              && sent == s.sent + [Sent(me.ssl, Op(SMSG_SAY_OK))] + copies
              && IsDelivery(s.clients, Some(me.joinedChatRoomID), Op(SMSG_SAY) + data[2..], copies, at)
              && i in at
              && forall k :: 0 <= k < |s.clients| ==>
                   (k in at <==> s.clients[k].chatRoomJoined && s.clients[k].joinedChatRoomID == me.joinedChatRoomID)
            else sent == s.sent + [Sent(me.ssl, Op(SMSG_SAY_ERR) + [ERR_NO_ROOM_JOINED])]
  {
    var s1 := s.(memory := Overwrite(s.memory, data));
    OverwriteOp(s.memory, data);
    assert s1.memory[2..|data|] == data[2..];
    assert Receive(s, i, data, texts) == Say(s1, i, |data|);
    if s.clients[i].chatRoomJoined {
      at := SayReachesRoom(s1, i, |data|);
    } else {
      at := [];
    }
  }

  /** What a step adds to the log. */
  function NewlySent(s: State, e: Event): seq<Sent> {
    var sent := Step(s, e).sent;
    if |s.sent| <= |sent| then sent[|s.sent|..] else []
  }

  predicate HasOp(packet: Bytes, code: uint16) {
    |packet| >= 2 && packet[..2] == Op(code)
  }

  /** Replies of the server, other than to SAY. */
  predicate OtherOps(sent: seq<Sent>) {
    forall n <- sent :: !HasOp(n.packet, SMSG_SAY) && !HasOp(n.packet, SMSG_SAY_ERR)
  }

  lemma SendOther(s: State, i: nat, code: uint16, rest: Bytes)
    requires i < |s.clients| && code != SMSG_SAY && code != SMSG_SAY_ERR
    ensures Send(s, i, Op(code) + rest).sent == s.sent + [Sent(s.clients[i].ssl, Op(code) + rest)]
    ensures OtherOps([Sent(s.clients[i].ssl, Op(code) + rest)])
  {
    assert (Op(code) + rest)[..2] == Op(code);
  }

  lemma {:induction false} CopiesOps(clients: seq<ClientSocket>, room: Option<uint8>, packet: Bytes)
    ensures forall n <- Copies(clients, room, packet) :: n.packet == packet
  {
    if |clients| > 0 { CopiesOps(clients[..|clients| - 1], room, packet); }
  }

  /** What `f` adds to the log of `s` is no reply to SAY. */
  ghost predicate AddsOther(s: State, s': State) {
    s.sent <= s'.sent && OtherOps(s'.sent[|s.sent|..])
  }

  lemma MsgAddsOther(s: State, i: nat, size: nat)
    requires i < |s.clients| && 10 <= size <= BUFFER_SIZE
    ensures AddsOther(s, MsgToClient(s, i, size))
  {
    var error := MsgError(s, i);
    var s1 := Send(s, i, Op(SMSG_PRIVATE_MSG_ERR) + [error]);
    SendOther(s, i, SMSG_PRIVATE_MSG_ERR, [error]);
    if error == ERR_OK {
      FindCorrect(s.clients, MsgTarget(s.memory));
      var rest := LittleEndian(s.clients[i].clientID, 8) + s.memory[10..10 + size];
      SendOther(s1, Find(s.clients, MsgTarget(s.memory)).value, SMSG_PRIVATE_MESSAGE, rest);
      Associative(Op(SMSG_PRIVATE_MESSAGE), LittleEndian(s.clients[i].clientID, 8), s.memory[10..10 + size]);
    }
  }

  lemma BroadcastAddsOther(s: State, size: nat)
    requires 2 <= size <= BUFFER_SIZE
    ensures AddsOther(s, Broadcast(s, size))
  {
    var packet := Op(SMSG_BROADCAST) + s.memory[2..size];
    CopiesOps(s.clients, None, packet);
    assert packet[..2] == Op(SMSG_BROADCAST);
  }

  lemma SendAddsOther(s: State, i: nat, code: uint16, rest: Bytes)
    requires i < |s.clients| && code != SMSG_SAY && code != SMSG_SAY_ERR
    ensures AddsOther(s, Send(s, i, Op(code) + rest))
  {
    SendOther(s, i, code, rest);
  }

  lemma JoinAddsOther(s: State, i: nat)
    requires i < |s.clients|
    ensures AddsOther(s, JoinRoom(s, i))
  {
    var roomID, hash := s.memory[2], s.memory[3..35];
    var error := JoinError(s.rooms, roomID, hash);
    var s1 := s.(rooms := Touched(s.rooms, roomID));
    var s2 := s1.(clients := s.clients[i := s.clients[i].(joinedChatRoomID := roomID, chatRoomJoined := true)]);
    SendOther(s2, i, SMSG_JOIN_CHAT_ROOM_OK, [roomID]);
    SendOther(s1, i, SMSG_JOIN_CHAT_ROOM_ERR, [error]);
  }

  lemma ListAddsOther(s: State, i: nat)
    requires i < |s.clients|
    ensures AddsOther(s, GetClientList(s, i))
  {
    var packet := ListPacket(Entries(s.clients, s.clients[i].clientID));
    assert packet == Op(SMSG_CLIENT_LIST) + packet[2..];
    SendOther(s, i, SMSG_CLIENT_LIST, packet[2..]);
  }

  lemma AddAddsOther(s: State, i: nat, size: nat)
    requires i < |s.clients| && 2 <= size <= BUFFER_SIZE
    ensures AddsOther(s, AddNumbers(s, i, size))
  {
    match AddLoop(s.memory, 2, size, Finite(0))
    case None =>
    case Some(sum) =>
      var packet := SumPacket(sum);
      assert packet == Op(SMSG_ADDITION_REQUEST) + packet[2..];
      SendOther(s, i, SMSG_ADDITION_REQUEST, packet[2..]);
  }

  /** Only SAY is answered with SMSG_SAY or SMSG_SAY_ERR. */
  lemma DispatchAddsOther(s: State, i: nat, size: nat, texts: Texts)
    requires i < |s.clients| && 2 <= size <= BUFFER_SIZE && OpOf(s.memory[..2]) != CMSG_SAY
    ensures AddsOther(s, Dispatch(s, i, size, texts))
  {
    var opcode := OpOf(s.memory[..2]);
    if opcode == CMSG_ECHO_REQUEST { SendAddsOther(s, i, SMSG_ECHO_REQUEST, s.memory[2..size]); }
    else if opcode == CMSG_ADDITION_REQUEST { AddAddsOther(s, i, size); }
    else if opcode == CMSG_BROADCAST_MESSAGE { BroadcastAddsOther(s, size); }
    else if opcode == CMSG_GET_CLIENT_LIST { ListAddsOther(s, i); }
    else if opcode == CMSG_SEND_MSG_TO_CLIENT { if 10 <= size { MsgAddsOther(s, i, size); } }
    else if opcode == CMSG_PING { SendAddsOther(s, i, SMSG_PONG, []); assert Op(SMSG_PONG) + [] == Op(SMSG_PONG); }
    else if opcode == CMSG_UPTIME { SendAddsOther(s, i, SMSG_UPTIME, texts.uptime); }
    else if opcode == CMSG_INCREMENT_COUNTER { }
    else if opcode == CMSG_GET_COUNTER { SendAddsOther(s, i, SMSG_COUNTER, LittleEndian(s.counter, 8)); }
    else if opcode == CMSG_GET_CHAT_ROOMS { SendAddsOther(s, i, SMSG_MESSAGE, CString(texts.roomList)); }
    else if opcode == CMSG_GET_ROOM_INFO { InfoAddsOther(s, i); }
    else if opcode == CMSG_JOIN_ROOM { if size == 35 { JoinAddsOther(s, i); } }
    else { SendAddsOther(s, i, SMSG_MESSAGE, CString(Ascii("Unknown or unhandled opcode."))); }
  }

  lemma InfoAddsOther(s: State, i: nat)
    requires i < |s.clients|
    ensures AddsOther(s, GetRoomInfo(s, i))
  {
    SendAddsOther(s, i, SMSG_MESSAGE, CString(InfoText(s.rooms, s.clients[i])));
  }

  lemma ReceiveAddsOther(s: State, i: nat, data: Packet, texts: Texts)
    requires i < |s.clients| && !(|data| >= 2 && OpOf(data) == CMSG_SAY)
    ensures AddsOther(s, Receive(s, i, data, texts))
  {
    if |data| >= 2 {
      OverwriteOp(s.memory, data);
      DispatchAddsOther(s.(memory := Overwrite(s.memory, data)), i, |data|, texts);
    } else {
      assert Ascii("Invalid packet.")[0] == 'I' as int;
    }
  }

  /** Every reply to SAY that a step sends answers a SAY request. */
  lemma StepAddsOther(s: State, e: Event)
    requires !(Enabled(s, e) && e.Receiving? && |e.data| >= 2 && OpOf(e.data) == CMSG_SAY)
    ensures AddsOther(s, Step(s, e))
  {
    if Enabled(s, e) {
      match e
      case Receiving(i, data, texts) =>
        ReceiveAddsOther(s, i, data, texts);
      case Connecting(arrival) =>
        var n := Emitted(arrival.writes, |Motd()|);
        assert n >= 2 ==> Motd()[..n][..2] == Op(SMSG_MOTD);
      case _ =>
    }
  }

  /** Room isolation over any run: whenever the next step sends SMSG_SAY, it goes to the handle of exactly one stored
      client, the step is a SAY request of a member of some room, the text is the one it sent, and the client to which
      it goes is a member of the same room. */
  lemma RoomIsolation(rooms: Rooms, memory: Memory, sendHello: bool, events: seq<Event>, e: Event, n: Sent)
    returns (k: nat)
    requires var s := Execute(Initial(rooms, memory, sendHello), events);
             n in NewlySent(s, e) && HasOp(n.packet, SMSG_SAY)
    ensures var s := Execute(Initial(rooms, memory, sendHello), events);
            && k < |s.clients| && (forall j :: 0 <= j < |s.clients| ==> (s.clients[j].ssl == n.ssl <==> j == k))
            && Enabled(s, e) && e.Receiving? && |e.data| >= 2 && OpOf(e.data) == CMSG_SAY
            && n.packet == Op(SMSG_SAY) + e.data[2..]
            && s.clients[e.i].chatRoomJoined && s.clients[k].chatRoomJoined
            && s.clients[e.i].joinedChatRoomID == s.clients[k].joinedChatRoomID
  {
    RunOwnership(rooms, memory, sendHello, events);
    k := StepIsolation(Execute(Initial(rooms, memory, sendHello), events), e, n);
  }

  lemma StepIsolation(s: State, e: Event, n: Sent) returns (k: nat)
    requires OwnedOnce(s.ledger, s.clients)
    requires n in NewlySent(s, e) && HasOp(n.packet, SMSG_SAY)
    ensures k < |s.clients| && (forall j :: 0 <= j < |s.clients| ==> (s.clients[j].ssl == n.ssl <==> j == k))
    ensures Enabled(s, e) && e.Receiving? && |e.data| >= 2 && OpOf(e.data) == CMSG_SAY
    ensures n.packet == Op(SMSG_SAY) + e.data[2..]
    ensures var sender, receiver := s.clients[e.i], s.clients[k];
            sender.chatRoomJoined && receiver.chatRoomJoined && sender.joinedChatRoomID == receiver.joinedChatRoomID
  {
    if !(Enabled(s, e) && e.Receiving? && |e.data| >= 2 && OpOf(e.data) == CMSG_SAY) {
      StepAddsOther(s, e);
    } else {
      var s1 := s.(memory := Overwrite(s.memory, e.data));
      OverwriteOp(s.memory, e.data);
      assert s1.memory[2..|e.data|] == e.data[2..];
      k := SayIsolation(s1, e.i, |e.data|, n);
    }
  }

  lemma SayIsolation(s: State, i: nat, size: nat, n: Sent) returns (k: nat)
    requires OwnedOnce(s.ledger, s.clients) && i < |s.clients| && 2 <= size <= BUFFER_SIZE
    requires n in Say(s, i, size).sent[|s.sent|..] && HasOp(n.packet, SMSG_SAY)
    ensures k < |s.clients| && (forall j :: 0 <= j < |s.clients| ==> (s.clients[j].ssl == n.ssl <==> j == k))
    ensures n.packet == Op(SMSG_SAY) + s.memory[2..size]
    ensures s.clients[i].chatRoomJoined && s.clients[k].chatRoomJoined
    ensures s.clients[i].joinedChatRoomID == s.clients[k].joinedChatRoomID
  {
    var room, packet := Some(s.clients[i].joinedChatRoomID), Op(SMSG_SAY) + s.memory[2..size];
    SaidIsCopy(s, i, size, n);
    k := CopyIsHeard(s, room, packet, n);
  }

  /** Only the copies carry SMSG_SAY, and there are none unless the sender is in a room. */
  lemma SaidIsCopy(s: State, i: nat, size: nat, n: Sent)
    requires i < |s.clients| && 2 <= size <= BUFFER_SIZE
    requires n in Say(s, i, size).sent[|s.sent|..] && HasOp(n.packet, SMSG_SAY)
    ensures s.clients[i].chatRoomJoined
    ensures n in Copies(s.clients, Some(s.clients[i].joinedChatRoomID), Op(SMSG_SAY) + s.memory[2..size])
  {
    var c, packet := s.clients[i], Op(SMSG_SAY) + s.memory[2..size];
    var copies := Copies(s.clients, Some(c.joinedChatRoomID), packet);
    assert forall error: uint8 :: (Op(SMSG_SAY_ERR) + [error])[..2] == Op(SMSG_SAY_ERR);
    assert Op(SMSG_SAY_OK)[..2] == Op(SMSG_SAY_OK);
    if c.joinedChatRoomID in s.rooms && c.chatRoomJoined {
      assert Say(s, i, size).sent[|s.sent|..] == [Sent(c.ssl, Op(SMSG_SAY_OK))] + copies;
    }
  }

  /** The handle to which a copy is sent belongs to exactly one client, and this client hears the room. */
  lemma CopyIsHeard(s: State, room: Option<uint8>, packet: Bytes, n: Sent) returns (k: nat)
    requires OwnedOnce(s.ledger, s.clients) && n in Copies(s.clients, room, packet)
    ensures k < |s.clients| && (forall j :: 0 <= j < |s.clients| ==> (s.clients[j].ssl == n.ssl <==> j == k))
    ensures n.packet == packet && Hears(s.clients[k], room)
  {
    var copies := Copies(s.clients, room, packet);
    var at := CopiesAreDelivery(s.clients, room, packet);
    var j :| 0 <= j < |copies| && copies[j] == n;
    assert IsCopy(s.clients, room, packet, copies[j], at[j]);
    k := at[j];
    forall i | 0 <= i < |s.clients| ensures s.clients[i].ssl == n.ssl <==> i == k {
      HeldHandles(s.ledger, s.clients, k, i);
    }
  }

  // ------------------------------------------------ replies that never occur

  /** In a state that satisfies the invariant no step answers SAY with ERR_INVALID_ROOM. */
  lemma StepNeverInvalidRoom(s: State, e: Event)
    requires Inv(s)
    ensures forall n <- NewlySent(s, e) :: n.packet != Op(SMSG_SAY_ERR) + [ERR_INVALID_ROOM]
  {
    var bad := Op(SMSG_SAY_ERR) + [ERR_INVALID_ROOM];
    assert bad[..2] == Op(SMSG_SAY_ERR) && bad[2] == ERR_INVALID_ROOM;
    if Enabled(s, e) && e.Receiving? && |e.data| >= 2 && OpOf(e.data) == CMSG_SAY {
      var s1 := s.(memory := Overwrite(s.memory, e.data));
      var packet := Op(SMSG_SAY) + s1.memory[2..|e.data|];
      OverwriteOp(s.memory, e.data);
      CopiesOps(s.clients, Some(s.clients[e.i].joinedChatRoomID), packet);
      assert packet[..2] == Op(SMSG_SAY);
    } else {
      StepAddsOther(s, e);
    }
  }

  /** Over any run with fewer than 2^64 accepted connections, ERR_INVALID_ROOM is never the answer to SAY. */
  lemma {:induction false} NeverInvalidRoom(rooms: Rooms, memory: Memory, sendHello: bool, events: seq<Event>)
    requires Accepts(events) < TWO_64
    ensures forall n <- Execute(Initial(rooms, memory, sendHello), events).sent ::
              n.packet != Op(SMSG_SAY_ERR) + [ERR_INVALID_ROOM]
  {
    if |events| > 0 {
      var before, e := events[..|events| - 1], events[|events| - 1];
      var s := Execute(Initial(rooms, memory, sendHello), before);
      NeverInvalidRoom(rooms, memory, sendHello, before);
      RunInv(rooms, memory, sendHello, before);
      StepNeverInvalidRoom(s, e);
      LogGrows(s, e);
      assert Step(s, e).sent == s.sent + NewlySent(s, e);
    }
  }

  lemma LogGrows(s: State, e: Event)
    ensures s.sent <= Step(s, e).sent
  {
    if Enabled(s, e) && e.Receiving? {
      ReceiveFrame(s, e.i, e.data, e.texts);
    }
  }

  /** Room info never reports an invalid room, and the name it looks up is always there. */
  lemma InfoNeverInvalid(s: State, i: nat)
    requires Inv(s) && i < |s.clients|
    ensures var c := s.clients[i];
            if c.chatRoomJoined
            then c.joinedChatRoomID in s.rooms
                 && GetRoomInfo(s, i) == SendMessage(s, i, Ascii("Joined: ") + s.rooms[c.joinedChatRoomID].name)
            else GetRoomInfo(s, i) == SendMessage(s, i, Ascii("No joined room"))
  {
  }

  lemma InfoDispatched(s: State, i: nat, data: Packet, texts: Texts)
    requires i < |s.clients| && |data| >= 2 && OpOf(data) == CMSG_GET_ROOM_INFO
    ensures Receive(s, i, data, texts) == GetRoomInfo(s.(memory := Overwrite(s.memory, data)), i)
  {
    OverwriteOp(s.memory, data);
  }

  /** After any run, the answer to a request for room info names the room that a client is in as it was loaded. */
  lemma LoadedNameReported(
    rooms: Rooms, memory: Memory, sendHello: bool, events: seq<Event>, i: nat, data: Packet, texts: Texts)
    requires Accepts(events) < TWO_64 && i < |Execute(Initial(rooms, memory, sendHello), events).clients|
    requires |data| >= 2 && OpOf(data) == CMSG_GET_ROOM_INFO
    requires var c := Execute(Initial(rooms, memory, sendHello), events).clients[i];
             c.chatRoomJoined && c.joinedChatRoomID in rooms
    ensures var s := Execute(Initial(rooms, memory, sendHello), events);
            var text := Ascii("Joined: ") + rooms[s.clients[i].joinedChatRoomID].name;
            Receive(s, i, data, texts).sent == s.sent + [Sent(s.clients[i].ssl, Op(SMSG_MESSAGE) + CString(text))]
  {
    var s := Execute(Initial(rooms, memory, sendHello), events);
    RunInv(rooms, memory, sendHello, events);
    InfoDispatched(s, i, data, texts);
    InfoNeverInvalid(s.(memory := Overwrite(s.memory, data)), i);
    RoomsKept(Initial(rooms, memory, sendHello), events, s.clients[i].joinedChatRoomID);
  }

  // ------------------------------------------------ private messages

  /** If the id is that of another connected client, the status is ERR_OK and this client, which is unique, and nobody
      else is sent the sender's id and the text, followed by the ten bytes that lie behind the payload in memory.  The
      sender's own id and an id that no client has are refused, and then only the sender hears of it. */
  lemma PrivateMessage(s: State, i: nat, size: nat)
    requires Inv(s) && i < |s.clients| && 10 <= size <= BUFFER_SIZE
    ensures var id, me, sent := MsgTarget(s.memory), s.clients[i], MsgToClient(s, i, size).sent;
            var status := error => Sent(me.ssl, Op(SMSG_PRIVATE_MSG_ERR) + [error]);
            && (forall k :: 0 <= k < |s.clients| && k != i && s.clients[k].clientID == id ==>
                  sent == s.sent + [status(ERR_OK),
                                    Sent(s.clients[k].ssl, ForwardedPacket(me.clientID, s.memory, size))])
            && (id == me.clientID ==> sent == s.sent + [status(ERR_MSG_TO_SELF)])
            && ((forall k :: 0 <= k < |s.clients| ==> s.clients[k].clientID != id) ==>
                  sent == s.sent + [status(ERR_NO_CLIENT_FOUND)])
  {
    var id := MsgTarget(s.memory);
    FindCorrect(s.clients, id);
    SplitSlice(s.memory, 10, size, 10 + size);
    forall j, k | 0 <= j < |s.clients| && 0 <= k < |s.clients| && s.clients[j].clientID == s.clients[k].clientID
      ensures j == k
    {
    }
  }

  function ForwardedPacket(sender: uint64, memory: Memory, size: nat): Bytes
    requires 10 <= size <= BUFFER_SIZE
  {
    Op(SMSG_PRIVATE_MESSAGE) + LittleEndian(sender, 8) + (memory[10..size] + memory[size..size + 10])
  }
}
