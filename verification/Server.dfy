// The Server class of src/server/Server.h and Server.cpp.  The environment (accept, TLS, select, the clock) enters
// through method parameters; SSL_write appends to the ghost log `sent`.

module ServerClass {
  import opened Bytes
  import opened Binary64
  import opened Numbers
  import opened Protocol
  import opened Addition
  import opened ClientList
  import opened Chat
  import opened Sockets
  import opened ServerSpec

  class Server {
    const buffer: array<byte>
    const clients: ClientVector
    const chat: ChatTable
    const universe: Universe

    var uniqueCounter: uint64
    var status: Status
    var sendHello: bool
    var terminated: bool
    ghost var sent: seq<Sent>

    ghost predicate Valid()
      reads this, clients
    {
      buffer.Length == MEMORY_SIZE && clients.Valid()
    }

    /** The state of the server as a value. */
    ghost function Abs(): (s: State)
      reads this, buffer, clients, clients.slots, chat, universe
      requires Valid()
    {
      State(clients.Contents(), uniqueCounter, chat.rooms, universe.counter, buffer[..], status, sendHello,
            sent, clients.ledger, terminated)
    }

    constructor ()
      ensures Valid() && fresh(buffer) && fresh(clients) && fresh(clients.slots) && fresh(chat) && fresh(universe)
      ensures Abs() == Created(buffer[..])
    {
      buffer := new byte[MEMORY_SIZE];
      clients := new ClientVector();
      chat := new ChatTable();
      universe := new Universe();
      uniqueCounter, status, terminated := 0, NotStarted, false;
      sendHello := false;
      sent := [];
    }

    method SetSendHelloMessagesToNewClients(send: bool)
      requires Valid()
      modifies this`sendHello
      ensures Abs() == old(Abs()).(sendHello := send)
    {
      sendHello := send;
    }

    /** The listening socket is ready; m_MasterSocket holds its descriptor. */
    method InitSocket(masterSocket: Bytes)
      requires Valid() && |masterSocket| == ADDRESS_START - BUFFER_SIZE
      modifies this`status, buffer
      ensures Abs() == old(Abs()).(status := Started, memory := WithMasterSocket(old(Abs()).memory, masterSocket))
    {
      for k := 0 to |masterSocket|
        invariant forall j :: 0 <= j < BUFFER_SIZE ==> buffer[j] == old(buffer[j])
        invariant forall j :: BUFFER_SIZE + k <= j < buffer.Length ==> buffer[j] == old(buffer[j])
        invariant forall j :: BUFFER_SIZE <= j < BUFFER_SIZE + k ==> buffer[j] == masterSocket[j - BUFFER_SIZE]
      {
        buffer[BUFFER_SIZE + k] := masterSocket[k];
      }
      status := Started;
    }

    method InitEntities(rows: Rooms)
      requires Valid()
      modifies chat
      ensures Abs() == old(Abs()).(rooms := rows + old(Abs()).rooms)
    {
      chat.LoadChatRooms(rows);
    }

    // ---------------------------------------------- sending

    method SendPacket(i: nat, packet: Bytes)
      requires Valid() && i < clients.size
      modifies this`sent
      ensures Abs() == Send(old(Abs()), i, packet)
    {
      sent := sent + [Sent(clients.slots[i].ssl, packet)];
    }

    method SendMsgToSocket(i: nat, text: Bytes)
      requires Valid() && i < clients.size
      modifies this`sent
      ensures Abs() == SendMessage(old(Abs()), i, text)
    {
      SendPacket(i, Op(SMSG_MESSAGE) + CString(text));
    }

    /** The greeting is written until it is out or SSL_write fails: what goes out is always a prefix, and it is the
        whole greeting if and only if nothing remains. */
    method SendMOTD(i: nat, writes: seq<int>) returns (remaining: nat)
      requires Valid() && i < clients.size
      modifies this`sent
      ensures Abs() == Send(old(Abs()), i, Motd()[..Emitted(writes, |Motd()|)])
      ensures remaining == 0 <==> Abs().sent[|old(sent)|].packet == Motd()
    {
      var reply := Motd();
      var offset := 0;
      remaining := |reply|;
      var k := 0;
      while remaining > 0 && k < |writes|
        invariant k <= |writes| && offset + remaining == |reply|
        invariant offset + Emitted(writes[k..], remaining) == Emitted(writes, |reply|)
      {
        var written := if writes[k] <= remaining then writes[k] else remaining;
        if written <= 0 { break; }
        assert writes[k..][1..] == writes[k + 1..];
        offset := offset + written;
        remaining := remaining - written;
        k := k + 1;
      }
      SendPacket(i, reply[..offset]);
    }

    /** The loop of a broadcast, or of what is said in a room. */
    method SendToAll(room: Option<uint8>, packet: Bytes)
      requires Valid()
      modifies this`sent
      ensures sent == old(sent) + Copies(clients.Contents(), room, packet)
    {
      for k := 0 to clients.size
        invariant sent == old(sent) + Copies(clients.Contents()[..k], room, packet)
      {
        assert clients.Contents()[..k + 1][..k] == clients.Contents()[..k];
        var c := clients.slots[k];
        if !c.sslEnabled { continue; }
        if room.Some? && (c.joinedChatRoomID != room.value || !c.chatRoomJoined) { continue; }
        SendPacket(k, packet);
      }
      assert clients.Contents()[..clients.size] == clients.Contents();
    }

    // ---------------------------------------------- the handlers

    method CallHandlerEcho(i: nat, reply: Bytes)
      requires Valid() && i < clients.size
      modifies this`sent
      ensures Abs() == Send(old(Abs()), i, Op(SMSG_ECHO_REQUEST) + reply)
    {
      SendPacket(i, Op(SMSG_ECHO_REQUEST) + reply);
    }

    method CallHandlerAdd(i: nat, start: nat, payloadSize: nat)
      requires Valid() && i < clients.size && start == 2 <= payloadSize <= BUFFER_SIZE
      modifies this`sent, this`terminated
      ensures Abs() == AddNumbers(old(Abs()), i, payloadSize)
    {
      var sum: Double := Finite(0);
      var offset := start;
      while offset < payloadSize
        invariant AddLoop(buffer[..], offset, payloadSize, sum) == AddLoop(buffer[..], start, payloadSize, Finite(0))
        invariant sent == old(sent) && terminated == old(terminated)
        decreases payloadSize + 9 - offset
      {
        var t := buffer[offset];
        var num, next := ReadNumber(buffer[..], offset + 1, t);
        if num.None? {
          terminated := true;
          return;
        }
        ghost var here := offset;
        AddLoopStep(buffer[..], here, payloadSize, sum, num.value);
        sum := Add(BINARY64, sum, ToDouble(BINARY64, num.value));
        offset := next;
      }
      SendPacket(i, SumPacket(sum));
    }

    method CallHandlerBroadcast(stream: Bytes)
      requires Valid()
      modifies this`sent
      ensures sent == old(sent) + Copies(clients.Contents(), None, Op(SMSG_BROADCAST) + stream)
    {
      SendToAll(None, Op(SMSG_BROADCAST) + stream);
    }

    method BuildClientList(you: uint64) returns (clientList: Bytes)
      requires Valid()
      ensures clientList == ListBytes(Entries(clients.Contents(), you))
    {
      clientList := [];
      ghost var entries := Entries(clients.Contents(), you);
      for k := 0 to clients.size
        invariant clientList == ListBytes(entries[..k])
      {
        var c := clients.slots[k];
        var username := c.clientUsername;
        if c.clientID == you { username := username + Ascii(" (you)"); }
        assert entries[k].name == username;
        ListBytesNext(entries, k);
        var record := BigEndian(c.clientID, 8);
        record := record + BigEndian(|username| % 0x1_0000, 2);
        record := record + username;
        clientList := clientList + record;
      }
      assert entries[..clients.size] == entries;
    }

    method CallHandlerGetClientList(i: nat)
      requires Valid() && i < clients.size
      modifies this`sent
      ensures Abs() == GetClientList(old(Abs()), i)
    {
      var packet, clientList: Bytes := Op(SMSG_CLIENT_LIST), [];
      var error := ERR_OK;
      if clients.size > 0 {
        clientList := BuildClientList(clients.slots[i].clientID);
      } else {
        error := ERR_NO_CLIENT_FOUND;
      }
      if 2 + 1 + |clientList| <= BUFFER_SIZE {
        packet := packet + [error];
        packet := packet + clientList;
      } else {
        packet := packet + [ERR_TOO_MUCH_CLIENTS];
      }
      SendPacket(i, packet);
    }

    method CallHandlerMsgToClient(i: nat, start: nat, payloadSize: nat)
      requires Valid() && i < clients.size && start == 2 && 10 <= payloadSize <= BUFFER_SIZE
      modifies this`sent
      ensures Abs() == MsgToClient(old(Abs()), i, payloadSize)
    {
      Ranges();
      var error := ERR_OK;
      var message: Bytes := [];
      var offset := start;
      var clientID: uint64 := FromLittleEndian(buffer[offset..offset + 8]);
      offset := offset + 8;
      var found := clients.size;
      if clientID == clients.slots[i].clientID {
        error := ERR_MSG_TO_SELF;
      } else {
        found := 0;
        while found < clients.size && clients.slots[found].clientID != clientID
          invariant found <= clients.size
          invariant forall k :: 0 <= k < found ==> clients.slots[k].clientID != clientID
        {
          found := found + 1;
        }
        if found == clients.size { error := ERR_NO_CLIENT_FOUND; }
      }
      FindCorrect(clients.Contents(), clientID);
      if error == ERR_OK {
        message := buffer[offset..offset + payloadSize];
        if |message| == 0 { error := ERR_EMPTY_MESSAGE; }
      }
      SendPacket(i, Op(SMSG_PRIVATE_MSG_ERR) + [error]);
      if error == ERR_OK {
        SendPacket(found, Op(SMSG_PRIVATE_MESSAGE) + LittleEndian(clients.slots[i].clientID, 8) + message);
      }
    }

    method CallHandlerGetRoominfo(i: nat)
      requires Valid() && i < clients.size
      modifies this`sent
      ensures Abs() == GetRoomInfo(old(Abs()), i)
    {
      var roomID := clients.slots[i].joinedChatRoomID;
      var found := chat.CheckRoomID(roomID);
      if !clients.slots[i].chatRoomJoined {
        SendMsgToSocket(i, Ascii("No joined room"));
      } else if !found {
        SendMsgToSocket(i, Ascii("Invalid room"));
      } else {
        var name := chat.GetRoomName(roomID);
        SendMsgToSocket(i, Ascii("Joined: ") + name);
      }
    }

    method CallHandlerJoinRoom(i: nat, start: nat, payloadSize: nat)
      requires Valid() && i < clients.size && start == 2 && payloadSize == 35
      modifies this`sent, chat, clients.slots
      ensures Abs() == JoinRoom(old(Abs()), i)
    {
      var error := ERR_OK;
      var roomID := buffer[start];
      var hash := buffer[start + 1..start + 1 + SHA256_DIGEST_LENGTH];
      var found := chat.CheckRoomID(roomID);
      if !found { error := ERR_INVALID_ROOM; }
      var isProtected := chat.IsRoomProtected(roomID);
      if isProtected {
        // The stored hash has 32 bytes, so what lies behind it does not matter.
        var valid := chat.CheckPasswordHash(roomID, hash, seq(32, _ => 0));
        if !valid { error := ERR_INVALID_ROOM_PASSWORD; }
      }
      if error == ERR_OK {
        clients.slots[i] := clients.slots[i].(joinedChatRoomID := roomID, chatRoomJoined := true);
        SendPacket(i, Op(SMSG_JOIN_CHAT_ROOM_OK) + [roomID]);
      } else {
        SendPacket(i, Op(SMSG_JOIN_CHAT_ROOM_ERR) + [error]);
      }
    }

    method CallHandlerSay(i: nat, message: Bytes, ghost payloadSize: nat)
      requires Valid() && i < clients.size && 2 <= payloadSize <= BUFFER_SIZE && message == buffer[2..payloadSize]
      modifies this`sent
      ensures Abs() == Say(old(Abs()), i, payloadSize)
    {
      var roomID, joined := clients.slots[i].joinedChatRoomID, clients.slots[i].chatRoomJoined;
      var found := chat.CheckRoomID(roomID);
      if found && joined {
        SendPacket(i, Op(SMSG_SAY_OK));
        SendToAll(Some(roomID), Op(SMSG_SAY) + message);
      } else {
        var error := ERR_INVALID_ROOM;
        if !joined { error := ERR_NO_ROOM_JOINED; }
        SendPacket(i, Op(SMSG_SAY_ERR) + [error]);
      }
    }

    // ---------------------------------------------- CallHandler

    method CallHandler(i: nat, payloadSize: nat, texts: Texts)
      requires Valid() && i < clients.size && 2 <= payloadSize <= BUFFER_SIZE
      modifies this`sent, this`terminated, chat, universe, clients.slots
      ensures Abs() == Dispatch(old(Abs()), i, payloadSize, texts)
    {
      assert buffer[..][..2] == buffer[..2] && buffer[..][2..payloadSize] == buffer[2..payloadSize];
      var opcode := OpOf(buffer[..2]);
      if opcode == CMSG_ECHO_REQUEST {
        CallHandlerEcho(i, buffer[2..payloadSize]);
      } else if opcode == CMSG_ADDITION_REQUEST {
        if 2 + 2 + 2 <= payloadSize { CallHandlerAdd(i, 2, payloadSize); }
      } else if opcode == CMSG_BROADCAST_MESSAGE {
        CallHandlerBroadcast(buffer[2..payloadSize]);
      } else if opcode == CMSG_GET_CLIENT_LIST {
        CallHandlerGetClientList(i);
      } else if opcode == CMSG_SEND_MSG_TO_CLIENT {
        if 2 + 8 <= payloadSize { CallHandlerMsgToClient(i, 2, payloadSize); }
      } else if opcode == CMSG_PING {
        SendPacket(i, Op(SMSG_PONG));
      } else if opcode == CMSG_UPTIME {
        SendPacket(i, Op(SMSG_UPTIME) + texts.uptime);
      } else if opcode == CMSG_INCREMENT_COUNTER {
        universe.IncrementCounter();
      } else if opcode == CMSG_GET_COUNTER {
        SendPacket(i, Op(SMSG_COUNTER) + LittleEndian(universe.counter, 8));
      } else if opcode == CMSG_GET_CHAT_ROOMS {
        SendMsgToSocket(i, texts.roomList);
      } else if opcode == CMSG_GET_ROOM_INFO {
        CallHandlerGetRoominfo(i);
      } else if opcode == CMSG_JOIN_ROOM {
        if 2 + 1 + SHA256_DIGEST_LENGTH == payloadSize { CallHandlerJoinRoom(i, 2, payloadSize); }
      } else if opcode == CMSG_SAY {
        CallHandlerSay(i, buffer[2..payloadSize], payloadSize);
      } else {
        SendMsgToSocket(i, Ascii("Unknown or unhandled opcode."));
      }
    }

    // ---------------------------------------------- the main loop's three calls

    /** accept and getpeername store the address of the other side. */
    method StoreAddress(address: Option<Address>)
      requires Valid()
      modifies buffer
      ensures buffer[..] == Addressed(old(buffer[..]), address)
    {
      if address.None? { return; }
      for k := 0 to |address.value|
        invariant forall j :: 0 <= j < ADDRESS_START ==> buffer[j] == old(buffer[j])
        invariant forall j :: 0 <= j < k ==> buffer[ADDRESS_START + j] == address.value[j]
      {
        buffer[ADDRESS_START + k] := address.value[k];
      }
      assert forall j :: ADDRESS_START <= j < MEMORY_SIZE ==> buffer[j] == address.value[j - ADDRESS_START] by {
        forall j | ADDRESS_START <= j < MEMORY_SIZE ensures buffer[j] == address.value[j - ADDRESS_START] {
          assert buffer[ADDRESS_START + (j - ADDRESS_START)] == address.value[j - ADDRESS_START];
        }
      }
    }

    /** `None`: nobody connects, or accept fails. */
    method HandleNewConnections(arrival: Option<Arrival>)
      requires Valid()
      modifies this`sent, this`uniqueCounter, buffer, clients, clients.slots
      ensures Valid() && (clients.slots == old(clients.slots) || fresh(clients.slots))
      ensures Abs() == match arrival case None => old(Abs()) case Some(a) => Connect(old(Abs()), a)
    {
      if arrival.None? { return; }
      StoreAddress(arrival.value.address);
      var client := NewClient(arrival.value.fd, uniqueCounter);
      uniqueCounter := if uniqueCounter == TWO_64 - 1 then 0 else uniqueCounter + 1;
      Welcome(client, arrival.value.handshake, arrival.value.writes);
    }

    /** The handshake, and what becomes of the client. */
    method Welcome(client: ClientSocket, handshake: Handshake, writes: seq<int>)
      requires Valid()
      modifies this`sent, clients, clients.slots
      ensures Valid() && (clients.slots == old(clients.slots) || fresh(clients.slots))
      ensures Abs() == AfterHandshake(old(Abs()), client, handshake, writes)
    {
      var (client', ledger) := InitSSL(client, clients.ledger, handshake);
      clients.ledger := ledger;
      if handshake.Accepted? {
        AddClient(client', writes);
      } else {
        clients.ledger := clients.ledger.Close(client.socket);
      }
    }

    /** The client moves into the vector, which leaves no handle behind, and is greeted. */
    method AddClient(client: ClientSocket, writes: seq<int>)
      requires Valid()
      modifies this`sent, clients, clients.slots
      ensures Valid() && (clients.slots == old(clients.slots) || fresh(clients.slots))
      ensures Abs() == Greeted(old(Abs()), client, writes)
    {
      var rest := clients.PushBack(client);
      assert rest.ssl == NULL_SSL;
      if sendHello {
        var _ := SendMOTD(clients.size - 1, writes);
      }
    }

    /** SSL_read puts the data at the start of the buffer. */
    method ReadInto(data: Packet)
      requires Valid()
      modifies buffer
      ensures buffer[..] == Overwrite(old(buffer[..]), data)
    {
      for k := 0 to |data|
        invariant forall j :: 0 <= j < k ==> buffer[j] == data[j]
        invariant forall j :: k <= j < buffer.Length ==> buffer[j] == old(buffer[j])
      {
        buffer[k] := data[k];
      }
    }

    method CloseAndErase(i: nat, address: Option<Address>)
      requires Valid() && i < clients.size
      modifies buffer, clients`size, clients`ledger, clients.slots
      ensures Valid() && clients.size == old(clients.size) - 1
      ensures Abs() == Drop(old(Abs()), i, address)
    {
      StoreAddress(address);
      clients.ledger := clients.ledger.Close(clients.slots[i].socket);
      clients.Erase(i);
    }

    method HandlePacket(i: nat, data: Packet, texts: Texts)
      requires Valid() && i < clients.size
      modifies this`sent, this`terminated, buffer, chat, universe, clients.slots
      ensures Abs() == Receive(old(Abs()), i, data, texts)
    {
      ReadInto(data);
      if |data| >= 2 {
        CallHandler(i, |data|, texts);
      } else {
        SendPacket(i, Ascii("Invalid packet."));
      }
    }

    /** The body of the loop over the clients: visits the i-th client and returns the next position. */
    method Visit(i: nat, input: Input) returns (next: nat)
      requires Valid() && !terminated && i < clients.size
      modifies this`sent, this`terminated, buffer, chat, universe, clients`size, clients`ledger, clients.slots
      ensures Valid() && next == Next(status == Closing, i, input) && next <= clients.size
      ensures clients.size - next == old(clients.size) - i - 1
      ensures Abs() == AfterTurn(old(Abs()), Turn(status == Closing, i, input))
    {
      if status == Closing || input.ReadFailed? {
        CloseAndErase(i, if status == Closing then None else input.address);
        return i;
      }
      if input.Ready? {
        HandlePacket(i, input.data, input.texts);
      }
      return i + 1;
    }

    /** One pass over the clients, erasing while iterating; an uncaught exception leaves the loop. */
    method ProcessRequests(inputs: seq<Input>)
      requires Valid() && !terminated && |inputs| == clients.size
      modifies this`sent, this`terminated, buffer, chat, universe, clients`size, clients`ledger, clients.slots
      ensures Valid() && Abs() == Pass(old(Abs()), inputs)
    {
      var i: nat, visited: nat := 0, 0;
      ghost var closing := status == Closing;
      assert inputs[0..] == inputs;
      while i < clients.size && !terminated
        invariant Valid() && i <= clients.size && visited <= |inputs| && clients.size - i == |inputs| - visited
        invariant Execute(Abs(), PassEvents(closing, i, inputs[visited..])) == Pass(old(Abs()), inputs)
        decreases |inputs| - visited
      {
        PassStep(Abs(), closing, i, inputs[visited..]);
        assert inputs[visited..][1..] == inputs[visited + 1..];
        i := Visit(i, inputs[visited]);
        visited := visited + 1;
      }
      if terminated {
        ExecuteTerminated(Abs(), PassEvents(closing, i, inputs[visited..]));
      }
    }

    method ClosingRequested()
      requires Valid()
      modifies this`status, clients`ledger
      ensures Valid() && Abs() == CloseAll(old(Abs()))
    {
      status := Closing;
      for k := 0 to clients.size
        invariant status == Closing
        invariant var closed := old(clients.ledger.closed) + Descriptors(clients.Contents()[..k]);
                  clients.ledger == old(clients.ledger).(closed := closed)
      {
        assert Descriptors(clients.Contents()[..k + 1])
            == Descriptors(clients.Contents()[..k]) + [clients.slots[k].socket];
        clients.ledger := clients.ledger.Close(clients.slots[k].socket);
      }
      assert clients.Contents()[..clients.size] == clients.Contents();
    }

    method CloseServer()
      requires Valid()
      modifies this`status
      ensures Abs() == old(Abs()).(status := Closed)
    {
      status := Closed;
    }

    /** One round of the main loop.  The loop catches no exception but the program's own, so one from a handler ends
        the process. */
    method Iterate(round: Round)
      requires Valid() && !terminated
      modifies this, buffer, chat, universe, clients, clients.slots
      ensures Valid() && (clients.slots == old(clients.slots) || fresh(clients.slots))
      ensures Abs() == Execute(old(Abs()), RoundEvents(old(Abs()), round))
    {
      ghost var before := Abs();
      HandleNewConnections(round.arrival);
      ghost var arrived := Abs();
      assert arrived == AfterArrival(before, round.arrival);
      var inputs := seq(clients.size, round.inputs);
      assert inputs == PassInputs(arrived, round.inputs);
      ProcessRequests(inputs);
      FinishRound(round.closingRequested);
      RoundSteps(before, round);
    }

    /** The end of a round: what a signal has requested, and what it leads to.  Nothing happens in a dead process. */
    method FinishRound(closingRequested: bool)
      requires Valid()
      modifies this`status, clients`ledger
      ensures Valid() && Abs() == AfterClosing(old(Abs()), closingRequested)
    {
      if terminated { return; }
      if closingRequested {
        ClosingRequested();
      }
      if status == Closing {
        CloseServer();
      }
    }

    /** The main loop. */
    method Serve(rounds: seq<Round>)
      requires Valid() && !terminated
      modifies this, buffer, chat, universe, clients, clients.slots
      ensures Valid() && (clients.slots == old(clients.slots) || fresh(clients.slots))
      ensures Abs() == Execute(old(Abs()), ServeEvents(old(Abs()), rounds))
    {
      var k := 0;
      assert rounds[0..] == rounds;
      while k < |rounds| && status != Closed && !terminated
        invariant k <= |rounds| && Valid() && (clients.slots == old(clients.slots) || fresh(clients.slots))
        invariant Execute(Abs(), ServeEvents(Abs(), rounds[k..]))
               == Execute(old(Abs()), ServeEvents(old(Abs()), rounds))
      {
        ghost var before := Abs();
        assert rounds[k..][1..] == rounds[k + 1..];
        Iterate(rounds[k]);
        ExecuteConcat(before, RoundEvents(before, rounds[k]), ServeEvents(Abs(), rounds[k + 1..]));
        k := k + 1;
      }
    }

    method Destroy()
      requires Valid()
      modifies clients
      ensures Valid() && Abs() == Shutdown(old(Abs()))
    {
      clients.Destroy();
    }
  }

  lemma AddLoopStep(memory: Bytes, offset: nat, size: nat, sum: Double, n: Number)
    requires offset < size && size + 8 <= |memory| && memory[offset] < N_UNK
    requires var next := offset + 1 + SizeOf(memory[offset]);
             GetNumberType(n) == memory[offset] && memory[offset + 1..next] == NumberBytes(n)
    ensures AddLoop(memory, offset, size, sum)
         == AddLoop(memory, offset + 1 + SizeOf(memory[offset]), size, Add(BINARY64, sum, ToDouble(BINARY64, n)))
  {
    var next := offset + 1 + SizeOf(memory[offset]);
    NumberRoundTrip(n);
    if ReadAll(memory, next, size).Some? {
      var (rest, _) := ReadAll(memory, next, size).value;
      assert ([n] + rest)[1..] == rest;
    }
  }
}
