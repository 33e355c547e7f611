// What every run of the server keeps: the frame of the handlers, the order of the clients, the ownership of SSL
// handles, and the meaning of the shared counter.

module Invariants {
  import opened Bytes
  import opened Protocol
  import opened Chat
  import opened ClientList
  import opened Sockets
  import opened ServerSpec

  // ------------------------------------------------ the frame of a handler

  /** Nothing but the log and the terminated flag may differ, and the log only grows. */
  predicate OnlySends(s: State, s': State) {
    s' == s.(sent := s'.sent, terminated := s'.terminated) && s.sent <= s'.sent
  }

  lemma AddOnlySends(s: State, i: nat, size: nat)
    requires i < |s.clients| && 2 <= size <= BUFFER_SIZE
    ensures OnlySends(s, AddNumbers(s, i, size))
  {
  }

  lemma MsgOnlySends(s: State, i: nat, size: nat)
    requires i < |s.clients| && 10 <= size <= BUFFER_SIZE
    ensures OnlySends(s, MsgToClient(s, i, size))
  {
  }

  lemma SayOnlySends(s: State, i: nat, size: nat)
    requires i < |s.clients| && 2 <= size <= BUFFER_SIZE
    ensures OnlySends(s, Say(s, i, size))
  {
  }

  /** Every request but JOIN and INCREMENT only sends. */
  lemma DispatchOnlySends(s: State, i: nat, size: nat, texts: Texts)
    requires i < |s.clients| && 2 <= size <= BUFFER_SIZE
    requires OpOf(s.memory[..2]) != CMSG_INCREMENT_COUNTER
    requires !(OpOf(s.memory[..2]) == CMSG_JOIN_ROOM && size == 35)
    ensures OnlySends(s, Dispatch(s, i, size, texts))
  {
    var opcode := OpOf(s.memory[..2]);
    if opcode == CMSG_ADDITION_REQUEST {
      AddOnlySends(s, i, size);
    } else if opcode == CMSG_SEND_MSG_TO_CLIENT {
      if size >= 10 { MsgOnlySends(s, i, size); }
    } else if opcode == CMSG_SAY {
      SayOnlySends(s, i, size);
    } else if opcode == CMSG_GET_CLIENT_LIST {
      SendOnlySends(s, i, ListPacket(Entries(s.clients, s.clients[i].clientID)));
    } else if opcode == CMSG_GET_ROOM_INFO {
      InfoOnlySends(s, i);
    }
  }

  lemma SendOnlySends(s: State, i: nat, packet: Bytes)
    requires i < |s.clients|
    ensures OnlySends(s, Send(s, i, packet))
  {
  }

  lemma InfoOnlySends(s: State, i: nat)
    requires i < |s.clients|
    ensures OnlySends(s, GetRoomInfo(s, i))
  {
  }

  /** The same client up to its room membership. */
  predicate SameClient(a: ClientSocket, b: ClientSocket) {
    a == b.(chatRoomJoined := a.chatRoomJoined, joinedChatRoomID := a.joinedChatRoomID)
  }

  /** The frame of a request by the i-th client: no change of the length, order or identity of the clients, only the
      caller's membership may differ, no room that exists is altered, and the log only grows. */
  ghost predicate Frame(s: State, i: nat, s': State)
    requires i < |s.clients|
  {
    && |s'.clients| == |s.clients| && s'.clients == s.clients[i := s'.clients[i]]
    && SameClient(s'.clients[i], s.clients[i])
    && s' == s.(clients := s'.clients, rooms := s'.rooms, counter := s'.counter, sent := s'.sent,
                terminated := s'.terminated)
    && s.sent <= s'.sent
    && (forall r <- s.rooms :: r in s'.rooms && s'.rooms[r] == s.rooms[r])
  }

  /** The requests in memory that may change the caller's membership, and to what. */
  predicate JoinsRoom(s: State, size: nat, c: ClientSocket) {
    && OpOf(s.memory[..2]) == CMSG_JOIN_ROOM && size == 35
    && c.chatRoomJoined && c.joinedChatRoomID == s.memory[2] && Admits(s.rooms, s.memory[2], s.memory[3..35])
  }

  lemma JoinFrame(s: State, i: nat)
    requires i < |s.clients|
    ensures Frame(s, i, JoinRoom(s, i)) && JoinRoom(s, i).counter == s.counter
    ensures var c := JoinRoom(s, i).clients[i];
            if Admits(s.rooms, s.memory[2], s.memory[3..35])
            then c.chatRoomJoined && c.joinedChatRoomID == s.memory[2]
            else JoinRoom(s, i).clients == s.clients
  {
  }

  /** The dispatcher keeps the frame; membership changes only by an admitted JOIN, the counter only by INCREMENT. */
  lemma DispatchFrame(s: State, i: nat, size: nat, texts: Texts)
    requires i < |s.clients| && 2 <= size <= BUFFER_SIZE
    ensures var s' := Dispatch(s, i, size, texts);
            && Frame(s, i, s')
            && (s'.clients[i] == s.clients[i] || JoinsRoom(s, size, s'.clients[i]))
            && s'.counter
                 == if OpOf(s.memory[..2]) == CMSG_INCREMENT_COUNTER then (s.counter + 1) % TWO_64 else s.counter
  {
    var opcode := OpOf(s.memory[..2]);
    if opcode == CMSG_INCREMENT_COUNTER {
    } else if opcode == CMSG_JOIN_ROOM && size == 35 {
      JoinFrame(s, i);
    } else {
      DispatchOnlySends(s, i, size, texts);
    }
  }

  /** The same for a whole turn. */
  lemma ReceiveFrame(s: State, i: nat, data: Packet, texts: Texts)
    requires i < |s.clients|
    ensures var s1, s' := s.(memory := Overwrite(s.memory, data)), Receive(s, i, data, texts);
            && Frame(s1, i, s')
            && (s'.clients[i] == s.clients[i] || (|data| == 35 && JoinsRoom(s1, 35, s'.clients[i])))
            && s'.counter
                 == if |data| >= 2 && OpOf(data) == CMSG_INCREMENT_COUNTER then (s.counter + 1) % TWO_64 else s.counter
  {
    var s1 := s.(memory := Overwrite(s.memory, data));
    if |data| >= 2 {
      OverwriteOp(s.memory, data);
      DispatchFrame(s1, i, |data|, texts);
    }
  }

  /** A packet replaces as many bytes as it has, and leaves the rest of the memory as it was. */
  lemma OverwriteWhole(memory: Memory, data: Packet)
    ensures Overwrite(memory, data)[..|data|] == data && Overwrite(memory, data)[|data|..] == memory[|data|..]
  {
  }

  lemma OverwriteOp(memory: Memory, data: Packet)
    requires |data| >= 2
    ensures OpOf(Overwrite(memory, data)[..2]) == OpOf(data) && Overwrite(memory, data)[..|data|] == data
  {
  }

  // ------------------------------------------------ ids and rooms

  /** Ids are strictly increasing along the vector and below the counter, every client has finished its handshake,
      and every joined room is in the table. */
  ghost predicate Inv(s: State) {
    && (forall j, k :: 0 <= j < k < |s.clients| ==> s.clients[j].clientID < s.clients[k].clientID)
    && (forall k :: 0 <= k < |s.clients| ==> s.clients[k].clientID < s.uniqueCounter)
    && (forall k :: 0 <= k < |s.clients| ==> s.clients[k].sslEnabled)
    && (forall k :: 0 <= k < |s.clients| && s.clients[k].chatRoomJoined ==> s.clients[k].joinedChatRoomID in s.rooms)
  }

  lemma DropInv(s: State, i: nat, address: Option<Address>)
    requires Inv(s) && i < |s.clients|
    ensures Inv(Drop(s, i, address))
  {
    RemovedInv(s, Drop(s, i, address), i);
  }

  lemma RemovedInv(s: State, s': State, i: nat)
    requires Inv(s) && i < |s.clients| && s'.clients == RemoveAt(s.clients, i)
    requires s'.rooms == s.rooms && s'.uniqueCounter == s.uniqueCounter
    ensures Inv(s')
  {
    assert forall k :: 0 <= k < |s'.clients| ==> s'.clients[k] == s.clients[if k < i then k else k + 1];
  }

  lemma ReceiveInv(s: State, i: nat, data: Packet, texts: Texts)
    requires Inv(s) && i < |s.clients|
    ensures Inv(Receive(s, i, data, texts)) && Receive(s, i, data, texts).uniqueCounter == s.uniqueCounter
  {
    ReceiveFrame(s, i, data, texts);
    var s' := Receive(s, i, data, texts);
    assert forall k :: 0 <= k < |s'.clients| && k != i ==> s'.clients[k] == s.clients[k];
  }

  /** Only a client that has finished its handshake is stored, under the id that the counter had. */
  lemma ConnectClients(s: State, a: Arrival)
    requires s.uniqueCounter + 1 < TWO_64
    ensures var s' := Connect(s, a);
            var c := NewClient(a.fd, s.uniqueCounter).(ssl := s.ledger.created + 1, sslEnabled := true);
            && s'.clients == (if a.handshake.Accepted? then s.clients + [c] else s.clients)
            && s'.rooms == s.rooms && s'.uniqueCounter == s.uniqueCounter + 1
  {
  }

  lemma ConnectInv(s: State, a: Arrival)
    requires Inv(s) && s.uniqueCounter + 1 < TWO_64
    ensures Inv(Connect(s, a)) && Connect(s, a).uniqueCounter == s.uniqueCounter + 1
  {
    var c := NewClient(a.fd, s.uniqueCounter).(ssl := s.ledger.created + 1, sslEnabled := true);
    ConnectClients(s, a);
    AppendInv(s, Connect(s, a), if a.handshake.Accepted? then [c] else []);
  }

  lemma AppendInv(s: State, s': State, more: seq<ClientSocket>)
    requires Inv(s) && s'.clients == s.clients + more && |more| <= 1
    requires s'.rooms == s.rooms && s'.uniqueCounter == s.uniqueCounter + 1
    requires |more| == 1 ==> more[0].clientID == s.uniqueCounter && more[0].sslEnabled && !more[0].chatRoomJoined
    ensures Inv(s')
  {
  }

  lemma StepInv(s: State, e: Event)
    requires Inv(s) && (e.Connecting? ==> s.uniqueCounter + 1 < TWO_64)
    ensures Inv(Step(s, e))
    ensures Step(s, e).uniqueCounter <= s.uniqueCounter + if e.Connecting? then 1 else 0
  {
    if Enabled(s, e) {
      match e
      case Connecting(arrival) => ConnectInv(s, arrival);
      case Receiving(i, data, texts) => ReceiveInv(s, i, data, texts);
      case Dropping(i, address) => DropInv(s, i, address);
      case _ =>
    }
  }

  /** The number of connections accepted during a run. */
  function Accepts(events: seq<Event>): nat {
    if |events| == 0 then 0
    else Accepts(events[..|events| - 1]) + if events[|events| - 1].Connecting? then 1 else 0
  }

  /** The invariant holds after every run with fewer than 2^64 accepted connections. */
  lemma {:induction false} RunInv(rooms: Rooms, memory: Memory, sendHello: bool, events: seq<Event>)
    requires Accepts(events) < TWO_64
    ensures var s := Execute(Initial(rooms, memory, sendHello), events);
            Inv(s) && s.uniqueCounter <= Accepts(events)
  {
    if |events| > 0 {
      RunInv(rooms, memory, sendHello, events[..|events| - 1]);
      StepInv(Execute(Initial(rooms, memory, sendHello), events[..|events| - 1]), events[|events| - 1]);
    }
  }

  // ------------------------------------------------ ownership of SSL handles

  function Handles(clients: seq<ClientSocket>): (h: seq<nat>)
    ensures |h| == |clients|
  {
    seq(|clients|, k requires 0 <= k < |clients| => clients[k].ssl)
  }

  /** How often a handle has been freed, plus how often it is held. */
  function Owned(l: Ledger, clients: seq<ClientSocket>, h: nat): nat {
    multiset(l.freed)[h] + multiset(Handles(clients))[h]
  }

  /** Every handle created so far has either been freed once or is held by exactly one client. */
  ghost predicate OwnedOnce(l: Ledger, clients: seq<ClientSocket>) {
    forall h: nat :: Owned(l, clients, h) == if 1 <= h <= l.created then 1 else 0
  }

  lemma HandlesRemoved(clients: seq<ClientSocket>, i: nat)
    requires i < |clients|
    ensures multiset(Handles(clients)) == multiset(Handles(RemoveAt(clients, i))) + multiset{clients[i].ssl}
  {
    var hs := Handles(clients);
    assert Handles(RemoveAt(clients, i)) == hs[..i] + hs[i + 1..];
    assert hs == hs[..i] + [hs[i]] + hs[i + 1..];
  }

  lemma HandlesAppended(clients: seq<ClientSocket>, c: ClientSocket)
    ensures multiset(Handles(clients + [c])) == multiset(Handles(clients)) + multiset{c.ssl}
  {
    assert Handles(clients + [c]) == Handles(clients) + [c.ssl];
  }

  lemma TwiceInMultiset(hs: seq<nat>, j: nat, k: nat)
    requires j < k < |hs|
    ensures multiset(hs)[hs[j]] >= if hs[j] == hs[k] then 2 else 1
  {
    assert hs == hs[..j] + [hs[j]] + hs[j + 1..];
    assert hs[k] in hs[j + 1..];
  }

  /** Held handles are not null and pairwise different. */
  lemma HeldHandles(l: Ledger, clients: seq<ClientSocket>, j: nat, k: nat)
    requires OwnedOnce(l, clients) && j < |clients| && k < |clients|
    ensures 1 <= clients[j].ssl <= l.created
    ensures clients[j].ssl == clients[k].ssl ==> j == k
  {
    var hs := Handles(clients);
    assert hs[j] in multiset(hs);
    assert 1 <= multiset(hs)[hs[j]] <= Owned(l, clients, hs[j]) <= 1;
    if j < k { TwiceInMultiset(hs, j, k); }
    if k < j { TwiceInMultiset(hs, k, j); }
  }

  lemma StepOwnership(s: State, e: Event)
    requires OwnedOnce(s.ledger, s.clients)
    ensures OwnedOnce(Step(s, e).ledger, Step(s, e).clients)
  {
    if Enabled(s, e) {
      match e
      case Connecting(arrival) => ConnectOwnership(s, arrival);
      case Receiving(i, data, texts) =>
        ReceiveFrame(s, i, data, texts);
        SameOwnership(s.ledger, s.clients, Receive(s, i, data, texts).ledger, Receive(s, i, data, texts).clients);
      case Dropping(i, address) => DropOwnership(s, i, address);
      case RequestClosing => SameOwnership(s.ledger, s.clients, CloseAll(s).ledger, s.clients);
      case CloseServer =>
    }
  }

  lemma SameOwnership(l: Ledger, clients: seq<ClientSocket>, l': Ledger, clients': seq<ClientSocket>)
    requires OwnedOnce(l, clients) && l'.created == l.created && l'.freed == l.freed
    requires |clients'| == |clients| && forall k :: 0 <= k < |clients| ==> clients'[k].ssl == clients[k].ssl
    ensures OwnedOnce(l', clients')
  {
    assert Handles(clients') == Handles(clients);
    forall h: nat ensures Owned(l', clients', h) == Owned(l, clients, h) {
    }
  }

  /** A new handle has one owner: the client that keeps it, or the ledger of those already freed. */
  lemma OneMore(l: Ledger, clients: seq<ClientSocket>, l': Ledger, clients': seq<ClientSocket>)
    requires OwnedOnce(l, clients) && l'.created == l.created + 1
    requires multiset(l'.freed) + multiset(Handles(clients'))
          == multiset(l.freed) + multiset(Handles(clients)) + multiset{l'.created}
    ensures OwnedOnce(l', clients')
  {
    forall h: nat ensures Owned(l', clients', h) == if 1 <= h <= l'.created then 1 else 0 {
      assert Owned(l', clients', h) == (multiset(l'.freed) + multiset(Handles(clients')))[h];
      assert Owned(l, clients, h) == if 1 <= h <= l.created then 1 else 0;
    }
  }

  /** The handle of a successful handshake belongs to the new client; that of a failed one has been freed. */
  lemma HandshakeOwnership(l: Ledger, clients: seq<ClientSocket>, c: ClientSocket, handshake: Handshake)
    requires OwnedOnce(l, clients)
    ensures var (c', l') := InitSSL(c, l, handshake);
            OwnedOnce(l', if handshake.Accepted? then clients + [c'] else clients)
  {
    var (c', l') := InitSSL(c, l, handshake);
    match handshake
    case NewFailed => SameOwnership(l, clients, l', clients);
    case Accepted =>
      HandlesAppended(clients, c');
      OneMore(l, clients, l', clients + [c']);
    case _ =>
      assert l'.freed == l.freed + [l'.created];
      OneMore(l, clients, l', clients);
  }

  /** A failed handshake leaves nothing behind: no client, no handle that is not freed, no open descriptor (it is closed
      twice, or once if SSL_accept failed).  A successful one frees and closes nothing, and adds at the end a client
      with the new descriptor and handle and with the next id, which is in no room.  Either way the id is used up. */
  lemma ConnectOutcome(s: State, a: Arrival)
    requires s.uniqueCounter + 1 < TWO_64
    ensures var s' := Connect(s, a);
            var closed, freed := s'.ledger.closed[|s.ledger.closed|..], s'.ledger.freed[|s.ledger.freed|..];
            && s.ledger.closed <= s'.ledger.closed && s.ledger.freed <= s'.ledger.freed
            && s'.uniqueCounter == s.uniqueCounter + 1
            && s'.ledger.created == s.ledger.created + (if a.handshake.NewFailed? then 0 else 1)
            && (if a.handshake.Accepted? then
                  var c := s'.clients[|s'.clients| - 1];
                  && closed == [] && freed == [] && |s'.clients| == |s.clients| + 1 && s.clients <= s'.clients
                  && c.socket == a.fd && c.ssl == s'.ledger.created && c.clientID == s.uniqueCounter
                  && c.sslEnabled && !c.chatRoomJoined && c.clientUsername == Ascii("<unk>")
                else
                  && s'.clients == s.clients
                  && closed == (if a.handshake.AcceptFailed? then [a.fd] else [a.fd, a.fd])
                  && freed == if a.handshake.NewFailed? then [] else [s'.ledger.created])
  {
    assert s.ledger.closed + [a.fd] + [a.fd] == s.ledger.closed + [a.fd, a.fd];
    assert Ascii("<unk>") == UNKNOWN_NAME;
    ConnectClients(s, a);
  }

  lemma ConnectOwnership(s: State, a: Arrival)
    requires OwnedOnce(s.ledger, s.clients)
    ensures var s' := Connect(s, a); OwnedOnce(s'.ledger, s'.clients)
  {
    var c := NewClient(a.fd, s.uniqueCounter);
    HandshakeOwnership(s.ledger, s.clients, c, a.handshake);
    if !a.handshake.Accepted? {
      var l := InitSSL(c, s.ledger, a.handshake).1;
      SameOwnership(l, s.clients, l.Close(a.fd), s.clients);
    }
  }

  /** Removing a client frees its own handle and no other, and closes its own descriptor and no other: once, or twice
      when other clients follow it in the vector. */
  lemma DropReleasesOnlyItself(s: State, i: nat, address: Option<Address>)
    requires OwnedOnce(s.ledger, s.clients) && i < |s.clients|
    ensures var c, l := s.clients[i], Drop(s, i, address).ledger;
            && l.created == s.ledger.created
            && l.freed == s.ledger.freed + [c.ssl]
            && l.closed == s.ledger.closed
                 + if i == |s.clients| - 1 || c.socket == INVALID_SOCKET then [c.socket] else [c.socket, c.socket]
  {
    HeldHandles(s.ledger, s.clients, i, i);
    assert s.ledger.closed + [s.clients[i].socket] + [s.clients[i].socket]
        == s.ledger.closed + [s.clients[i].socket, s.clients[i].socket];
  }

  lemma DropOwnership(s: State, i: nat, address: Option<Address>)
    requires OwnedOnce(s.ledger, s.clients) && i < |s.clients|
    ensures OwnedOnce(Drop(s, i, address).ledger, Drop(s, i, address).clients)
  {
    var c, s' := s.clients[i], Drop(s, i, address);
    DropReleasesOnlyItself(s, i, address);
    HandlesRemoved(s.clients, i);
    assert multiset(s'.ledger.freed) == multiset(s.ledger.freed) + multiset{c.ssl};
    forall g: nat ensures Owned(s'.ledger, s'.clients, g) == Owned(s.ledger, s.clients, g) {
    }
  }

  lemma {:induction false} RunOwnership(rooms: Rooms, memory: Memory, sendHello: bool, events: seq<Event>)
    ensures var s := Execute(Initial(rooms, memory, sendHello), events); OwnedOnce(s.ledger, s.clients)
  {
    if |events| > 0 {
      RunOwnership(rooms, memory, sendHello, events[..|events| - 1]);
      StepOwnership(Execute(Initial(rooms, memory, sendHello), events[..|events| - 1]), events[|events| - 1]);
    }
  }

  lemma {:induction false} FreeAllOwnership(l: Ledger, clients: seq<ClientSocket>)
    requires OwnedOnce(l, clients)
    ensures OwnedOnce(l.FreeAll(clients), []) && l.FreeAll(clients).created == l.created
    decreases |clients|
  {
    if |clients| > 0 {
      var c, l' := clients[0], l.Free(clients[0].ssl);
      HeldHandles(l, clients, 0, 0);
      HandlesRemoved(clients, 0);
      assert RemoveAt(clients, 0) == clients[1..];
      assert multiset(l'.freed) == multiset(l.freed) + multiset{c.ssl};
      forall g: nat ensures Owned(l', clients[1..], g) == Owned(l, clients, g) {
      }
      FreeAllOwnership(l', clients[1..]);
    }
  }

  /** The handle has been freed exactly once if it was ever created, and never otherwise. */
  predicate FreedOnce(l: Ledger, h: nat) {
    multiset(l.freed)[h] == if 1 <= h <= l.created then 1 else 0
  }

  /** Over any run that ends with the destruction of the server, every handle that was ever created is freed exactly
      once, and nothing else is freed. */
  lemma EveryHandleFreedOnce(rooms: Rooms, memory: Memory, sendHello: bool, events: seq<Event>, h: nat)
    ensures FreedOnce(Shutdown(Execute(Initial(rooms, memory, sendHello), events)).ledger, h)
  {
    var s := Execute(Initial(rooms, memory, sendHello), events);
    RunOwnership(rooms, memory, sendHello, events);
    FreeAllOwnership(s.ledger, s.clients);
    assert Owned(Shutdown(s).ledger, [], h) == multiset(Shutdown(s).ledger.freed)[h];
  }

  // ------------------------------------------------ descriptors

  /** No two stored clients have the same descriptor. */
  ghost predicate DistinctSockets(clients: seq<ClientSocket>) {
    forall j, k :: 0 <= j < k < |clients| ==> clients[j].socket != clients[k].socket
  }

  ghost predicate InUse(clients: seq<ClientSocket>, socket: int) {
    exists k :: 0 <= k < |clients| && clients[k].socket == socket
  }

  /** accept returns a descriptor that is not in use. */
  ghost predicate FreshSocket(s: State, e: Event) {
    e.Connecting? ==> !InUse(s.clients, e.arrival.fd)
  }

  ghost predicate FreshSockets(s: State, events: seq<Event>) {
    forall k :: 0 <= k < |events| ==> FreshSocket(Execute(s, events[..k]), events[k])
  }

  /** Where the clients of the next state come from: a stored client keeps its descriptor. */
  lemma StepSockets(s: State, e: Event)
    ensures var s' := Step(s, e);
            Descriptors(s'.clients) ==
              if Enabled(s, e) && e.Connecting? && e.arrival.handshake.Accepted?
              then Descriptors(s.clients) + [e.arrival.fd]
              else if Enabled(s, e) && e.Dropping? then RemoveAt(Descriptors(s.clients), e.i)
              else Descriptors(s.clients)
  {
    if Enabled(s, e) && e.Receiving? {
      ReceiveSockets(s, e.i, e.data, e.texts);
    }
  }

  lemma ReceiveSockets(s: State, i: nat, data: Packet, texts: Texts)
    requires i < |s.clients|
    ensures Descriptors(Receive(s, i, data, texts).clients) == Descriptors(s.clients)
  {
    ReceiveFrame(s, i, data, texts);
    var after := Receive(s, i, data, texts).clients;
    assert forall k :: 0 <= k < |s.clients| ==> after[k].socket == s.clients[k].socket;
  }

  lemma StepDistinct(s: State, e: Event)
    requires DistinctSockets(s.clients) && FreshSocket(s, e)
    ensures DistinctSockets(Step(s, e).clients)
  {
    StepSockets(s, e);
    DistinctByDescriptors(s, e, Step(s, e).clients);
  }

  lemma DistinctByDescriptors(s: State, e: Event, after: seq<ClientSocket>)
    requires DistinctSockets(s.clients) && FreshSocket(s, e)
    requires var d := Descriptors(s.clients);
             || Descriptors(after) == d
             || (e.Connecting? && Descriptors(after) == d + [e.arrival.fd])
             || (e.Dropping? && e.i < |d| && Descriptors(after) == RemoveAt(d, e.i))
    ensures DistinctSockets(after)
  {
    var d := Descriptors(s.clients);
    assert forall k :: 0 <= k < |after| ==> after[k].socket == Descriptors(after)[k];
    assert forall k :: 0 <= k < |d| ==> d[k] == s.clients[k].socket;
  }

  lemma {:induction false} RunDistinct(s: State, events: seq<Event>)
    requires DistinctSockets(s.clients) && FreshSockets(s, events)
    ensures DistinctSockets(Execute(s, events).clients)
  {
    if |events| > 0 {
      var before := events[..|events| - 1];
      assert forall k :: 0 <= k < |before| ==> before[..k] == events[..k];
      RunDistinct(s, before);
      StepDistinct(Execute(s, before), events[|events| - 1]);
    }
  }

  /** A request to close the server closes the descriptor of every client, in order, and removes nobody. */
  lemma ClosingCloses(s: State)
    requires !s.terminated
    ensures var s' := Step(s, RequestClosing);
            var closed := s'.ledger.closed[|s.ledger.closed|..];
            && s'.status == Closing && s'.clients == s.clients && s.ledger.closed <= s'.ledger.closed
            && |closed| == |s.clients| && forall k :: 0 <= k < |s.clients| ==> closed[k] == s.clients[k].socket
  {
  }

  /** The descriptors a step closes: those of all clients when closing is requested, otherwise at most one, that of a
      client which is removed or of a connection whose handshake failed. */
  lemma StepCloses(s: State, e: Event)
    ensures var closed := Step(s, e).ledger.closed;
            && s.ledger.closed <= closed
            && forall d <- closed[|s.ledger.closed|..] ::
                 && Enabled(s, e)
                 && (e.RequestClosing?
                     || (e.Dropping? && d == s.clients[e.i].socket)
                     || (e.Connecting? && !e.arrival.handshake.Accepted? && d == e.arrival.fd))
  {
    if Enabled(s, e) && e.Receiving? {
      ReceiveFrame(s, e.i, e.data, e.texts);
    }
  }

  /** Over any run in which accept returns unused descriptors, no step but a request to close the server closes a
      descriptor that a client holds after the step: removing one client, or failing to accept one, never closes the
      descriptor of another. */
  lemma ClosesNoOther(rooms: Rooms, memory: Memory, sendHello: bool, events: seq<Event>, e: Event, d: int)
    requires var s := Execute(Initial(rooms, memory, sendHello), events);
             && FreshSockets(Initial(rooms, memory, sendHello), events) && FreshSocket(s, e) && !e.RequestClosing?
             && |s.ledger.closed| <= |Step(s, e).ledger.closed| && d in Step(s, e).ledger.closed[|s.ledger.closed|..]
    ensures !InUse(Step(Execute(Initial(rooms, memory, sendHello), events), e).clients, d)
  {
    RunDistinct(Initial(rooms, memory, sendHello), events);
    StepClosesNoOther(Execute(Initial(rooms, memory, sendHello), events), e, d);
  }

  lemma StepClosesNoOther(s: State, e: Event, d: int)
    requires DistinctSockets(s.clients) && FreshSocket(s, e) && !e.RequestClosing?
    requires |s.ledger.closed| <= |Step(s, e).ledger.closed| && d in Step(s, e).ledger.closed[|s.ledger.closed|..]
    ensures !InUse(Step(s, e).clients, d)
  {
    StepCloses(s, e);
    StepSockets(s, e);
    if e.Dropping? {
      RemovedNotInUse(s.clients, Step(s, e).clients, e.i);
    } else {
      SameInUse(s.clients, Step(s, e).clients, d);
    }
  }

  lemma RemovedNotInUse(before: seq<ClientSocket>, after: seq<ClientSocket>, i: nat)
    requires DistinctSockets(before) && i < |before| && Descriptors(after) == RemoveAt(Descriptors(before), i)
    ensures !InUse(after, before[i].socket)
  {
    forall k | 0 <= k < |after| ensures after[k].socket != before[i].socket {
      assert after[k].socket == Descriptors(after)[k] == Descriptors(before)[if k < i then k else k + 1];
    }
  }

  lemma SameInUse(before: seq<ClientSocket>, after: seq<ClientSocket>, d: int)
    requires Descriptors(after) == Descriptors(before) && !InUse(before, d)
    ensures !InUse(after, d)
  {
    forall k | 0 <= k < |after| ensures after[k].socket != d {
      assert after[k].socket == Descriptors(after)[k] == Descriptors(before)[k] == before[k].socket;
    }
  }

  // ------------------------------------------------ the universe counter

  predicate IsIncrement(s: State, e: Event) {
    Enabled(s, e) && e.Receiving? && |e.data| >= 2 && OpOf(e.data) == CMSG_INCREMENT_COUNTER
  }

  /** The number of INCREMENT requests dispatched during a run. */
  function Increments(s: State, events: seq<Event>): nat {
    if |events| == 0 then 0
    else
      var before := events[..|events| - 1];
      Increments(s, before) + if IsIncrement(Execute(s, before), events[|events| - 1]) then 1 else 0
  }

  lemma StepCounter(s: State, e: Event)
    ensures Step(s, e).counter == (s.counter + if IsIncrement(s, e) then 1 else 0) % TWO_64
  {
    if Enabled(s, e) && e.Receiving? {
      ReceiveFrame(s, e.i, e.data, e.texts);
    }
  }

  /** How often the counter wraps around in a step. */
  lemma StepWraps(s: State, e: Event) returns (wraps: nat)
    ensures Step(s, e).counter + TWO_64 * wraps == s.counter + if IsIncrement(s, e) then 1 else 0
  {
    var one := if IsIncrement(s, e) then 1 else 0;
    StepCounter(s, e);
    wraps := if s.counter + one == TWO_64 then 1 else 0;
  }

  /** How often the counter wraps around in a run. */
  lemma {:induction false} RunWraps(s: State, events: seq<Event>) returns (wraps: nat)
    ensures Execute(s, events).counter + TWO_64 * wraps == s.counter + Increments(s, events)
  {
    if |events| == 0 {
      wraps := 0;
    } else {
      var before := events[..|events| - 1];
      var w := RunWraps(s, before);
      var v := StepWraps(Execute(s, before), events[|events| - 1]);
      wraps := w + v;
    }
  }

  /** The counter is the number of INCREMENT requests dispatched so far, modulo 2^64. */
  lemma {:induction false} CounterRefinement(s: State, events: seq<Event>)
    ensures Execute(s, events).counter == (s.counter + Increments(s, events)) % TWO_64
  {
    var wraps := RunWraps(s, events);
    Remainder(Execute(s, events).counter, wraps, s.counter + Increments(s, events));
  }

  lemma Remainder(n: uint64, wraps: nat, total: nat)
    requires n + TWO_64 * wraps == total
    ensures n == total % TWO_64
  {
  }
}
