// The server as a state machine (src/server/Server.cpp): what each handler, each request and each pass over the
// clients does to the state.  The Server class is proved against these functions.

module ServerSpec {
  import opened Bytes
  import opened Binary64
  import opened Numbers
  import opened Protocol
  import opened Addition
  import opened ClientList
  import opened Chat
  import opened Sockets

  /** char buffer[4096] and the 20 bytes behind it in the Server object (m_MasterSocket and m_Adress), which the
      handlers may read past the end of a payload.  SSL_read never writes them; accept and getpeername write the
      16 bytes of the address. */
  const MEMORY_SIZE := 4116
  const ADDRESS_START := 4100

  type Memory = m: Bytes | |m| == MEMORY_SIZE witness seq(MEMORY_SIZE, _ => 0)

  type Address = a: Bytes | |a| == MEMORY_SIZE - ADDRESS_START witness seq(MEMORY_SIZE - ADDRESS_START, _ => 0)

  /** What one SSL_read can deliver. */
  type Packet = p: Bytes | 1 <= |p| <= BUFFER_SIZE witness [0]

  datatype Status = NotStarted | Started | Closing | Closed

  /** One packet written to a client's SSL handle. */
  datatype Sent = Sent(ssl: nat, packet: Bytes)

  /** Texts that depend on the clock and on the iteration order of an unordered map. */
  datatype Texts = Texts(uptime: Bytes, roomList: Bytes)

  /** `terminated`: an uncaught exception has ended the process. */
  datatype State = State(
    clients: seq<ClientSocket>, uniqueCounter: uint64, rooms: Rooms, counter: uint64,
    memory: Memory, status: Status, sendHello: bool,
    sent: seq<Sent>, ledger: Ledger, terminated: bool)

  /** The part of a text before its first NUL: it passes through a C string. */
  function CString(b: Bytes): (c: Bytes)
    ensures c <= b && 0 !in c && (c == b || b[|c|] == 0)
  {
    if |b| == 0 || b[0] == 0 then [] else [b[0]] + CString(b[1..])
  }

  // ------------------------------------------------ sending

  function Send(s: State, i: nat, packet: Bytes): State
    requires i < |s.clients|
  {
    s.(sent := s.sent + [Sent(s.clients[i].ssl, packet)])
  }

  function SendMessage(s: State, i: nat, text: Bytes): State
    requires i < |s.clients|
  {
    Send(s, i, Op(SMSG_MESSAGE) + CString(text))
  }

  /** Who receives a broadcast, or what is said in a room. */
  predicate Hears(c: ClientSocket, room: Option<uint8>) {
    c.sslEnabled && (room.Some? ==> c.chatRoomJoined && c.joinedChatRoomID == room.value)
  }

  function Copies(clients: seq<ClientSocket>, room: Option<uint8>, packet: Bytes): seq<Sent> {
    if |clients| == 0 then []
    else
      var c := clients[|clients| - 1];
      Copies(clients[..|clients| - 1], room, packet) + if Hears(c, room) then [Sent(c.ssl, packet)] else []
  }

  // ------------------------------------------------ the handlers

  function Echo(s: State, i: nat, size: nat): State
    requires i < |s.clients| && 2 <= size <= BUFFER_SIZE
  {
    Send(s, i, Op(SMSG_ECHO_REQUEST) + s.memory[2..size])
  }

  function SumPacket(sum: Double): Bytes {
    Op(SMSG_ADDITION_REQUEST) + LittleEndian(ToBits64(sum), 8)
  }

  /** An unknown number type makes read_number throw, and nobody catches the exception. */
  function AddNumbers(s: State, i: nat, size: nat): State
    requires i < |s.clients| && 2 <= size <= BUFFER_SIZE
  {
    match AddLoop(s.memory, 2, size, Finite(0))
    case None => s.(terminated := true)
    case Some(sum) => Send(s, i, SumPacket(sum))
  }

  function Broadcast(s: State, size: nat): State
    requires 2 <= size <= BUFFER_SIZE
  {
    s.(sent := s.sent + Copies(s.clients, None, Op(SMSG_BROADCAST) + s.memory[2..size]))
  }

  /** The entries of the client list as shown to the client with the given id. */
  function EntryFor(c: ClientSocket, you: uint64): Entry {
    Entry(c.clientID, c.clientUsername + if c.clientID == you then Ascii(" (you)") else [])
  }

  function Entries(clients: seq<ClientSocket>, you: uint64): seq<Entry> {
    seq(|clients|, k requires 0 <= k < |clients| => EntryFor(clients[k], you))
  }

  function GetClientList(s: State, i: nat): State
    requires i < |s.clients|
  {
    Send(s, i, ListPacket(Entries(s.clients, s.clients[i].clientID)))
  }

  /** The position of the first client with the given id. */
  function Find(clients: seq<ClientSocket>, id: uint64): Option<nat> {
    if |clients| == 0 then None
    else if clients[0].clientID == id then Some(0)
    else match Find(clients[1..], id) case None => None case Some(k) => Some(k + 1)
  }

  lemma {:induction false} FindCorrect(clients: seq<ClientSocket>, id: uint64)
    ensures match Find(clients, id)
            case None => forall k :: 0 <= k < |clients| ==> clients[k].clientID != id
            case Some(k) => k < |clients| && clients[k].clientID == id
                            && forall j :: 0 <= j < k ==> clients[j].clientID != id
  {
    if |clients| > 0 {
      FindCorrect(clients[1..], id);
      assert forall j :: 0 < j < |clients| ==> clients[j] == clients[1..][j - 1];
    }
  }

  function MsgTarget(memory: Memory): uint64 {
    Ranges();
    FromLittleEndian(memory[2..10])
  }

  function MsgError(s: State, i: nat): uint8
    requires i < |s.clients|
  {
    var id := MsgTarget(s.memory);
    if id == s.clients[i].clientID then ERR_MSG_TO_SELF
    else if Find(s.clients, id).None? then ERR_NO_CLIENT_FOUND
    else ERR_OK
  }

  /** The forwarded text starts behind the id but is as long as the whole payload. */
  function MsgToClient(s: State, i: nat, size: nat): State
    requires i < |s.clients| && 10 <= size <= BUFFER_SIZE
  {
    var error := MsgError(s, i);
    var s1 := Send(s, i, Op(SMSG_PRIVATE_MSG_ERR) + [error]);
    if error != ERR_OK then s1
    else
      var id := MsgTarget(s.memory);
      FindCorrect(s.clients, id);
      Send(s1, Find(s.clients, id).value,
           Op(SMSG_PRIVATE_MESSAGE) + LittleEndian(s.clients[i].clientID, 8) + s.memory[10..10 + size])
  }

  function InfoText(rooms: Rooms, c: ClientSocket): Bytes {
    if !c.chatRoomJoined then Ascii("No joined room")
    else if c.joinedChatRoomID !in rooms then Ascii("Invalid room")
    else Ascii("Joined: ") + rooms[c.joinedChatRoomID].name
  }

  function GetRoomInfo(s: State, i: nat): State
    requires i < |s.clients|
  {
    SendMessage(s, i, InfoText(s.rooms, s.clients[i]))
  }

  function JoinError(rooms: Rooms, roomID: uint8, hash: Bytes): uint8 {
    if roomID !in rooms then ERR_INVALID_ROOM
    else if !Admits(rooms, roomID, hash) then ERR_INVALID_ROOM_PASSWORD
    else ERR_OK
  }

  /** The lookup inserts an unknown room id even though the request is then refused. */
  function JoinRoom(s: State, i: nat): State
    requires i < |s.clients|
  {
    var roomID, hash := s.memory[2], s.memory[3..35];
    var error := JoinError(s.rooms, roomID, hash);
    var s1 := s.(rooms := Touched(s.rooms, roomID));
    if error == ERR_OK then
      Send(s1.(clients := s.clients[i := s.clients[i].(joinedChatRoomID := roomID, chatRoomJoined := true)]), i,
           Op(SMSG_JOIN_CHAT_ROOM_OK) + [roomID])
    else Send(s1, i, Op(SMSG_JOIN_CHAT_ROOM_ERR) + [error])
  }

  function Say(s: State, i: nat, size: nat): State
    requires i < |s.clients| && 2 <= size <= BUFFER_SIZE
  {
    var c := s.clients[i];
    if c.joinedChatRoomID in s.rooms && c.chatRoomJoined then
      var s1 := Send(s, i, Op(SMSG_SAY_OK));
      s1.(sent := s1.sent + Copies(s.clients, Some(c.joinedChatRoomID), Op(SMSG_SAY) + s.memory[2..size]))
    else
      Send(s, i, Op(SMSG_SAY_ERR) + [if c.chatRoomJoined then ERR_INVALID_ROOM else ERR_NO_ROOM_JOINED])
  }

  /** CallHandler on a payload of `size` bytes in the buffer. */
  function Dispatch(s: State, i: nat, size: nat, texts: Texts): State
    requires i < |s.clients| && 2 <= size <= BUFFER_SIZE
  {
    var opcode := OpOf(s.memory[..2]);
    if opcode == CMSG_ECHO_REQUEST then Echo(s, i, size)
    else if opcode == CMSG_ADDITION_REQUEST then (if 6 <= size then AddNumbers(s, i, size) else s)
    else if opcode == CMSG_BROADCAST_MESSAGE then Broadcast(s, size)
    else if opcode == CMSG_GET_CLIENT_LIST then GetClientList(s, i)
    else if opcode == CMSG_SEND_MSG_TO_CLIENT then (if 10 <= size then MsgToClient(s, i, size) else s)
    else if opcode == CMSG_PING then Send(s, i, Op(SMSG_PONG))
    else if opcode == CMSG_UPTIME then Send(s, i, Op(SMSG_UPTIME) + texts.uptime)
    else if opcode == CMSG_INCREMENT_COUNTER then s.(counter := (s.counter + 1) % TWO_64)
    else if opcode == CMSG_GET_COUNTER then Send(s, i, Op(SMSG_COUNTER) + LittleEndian(s.counter, 8))
    else if opcode == CMSG_GET_CHAT_ROOMS then SendMessage(s, i, texts.roomList)
    else if opcode == CMSG_GET_ROOM_INFO then GetRoomInfo(s, i)
    else if opcode == CMSG_JOIN_ROOM then (if size == 35 then JoinRoom(s, i) else s)
    else if opcode == CMSG_SAY then Say(s, i, size)
    else SendMessage(s, i, Ascii("Unknown or unhandled opcode."))
  }

  // ------------------------------------------------ one client's turn

  function Overwrite(memory: Memory, data: Packet): Memory {
    data + memory[|data|..]
  }

  function Receive(s: State, i: nat, data: Packet, texts: Texts): State
    requires i < |s.clients|
  {
    var s1 := s.(memory := Overwrite(s.memory, data));
    if |data| >= 2 then Dispatch(s1, i, |data|, texts) else Send(s1, i, Ascii("Invalid packet."))
  }

  /** m_MasterSocket after the listening socket has been created. */
  function WithMasterSocket(memory: Memory, socket: Bytes): Memory
    requires |socket| == ADDRESS_START - BUFFER_SIZE
  {
    memory[..BUFFER_SIZE] + socket + memory[ADDRESS_START..]
  }

  /** m_Adress after a call that may store an address there. */
  function Addressed(memory: Memory, address: Option<Address>): (m: Memory)
    ensures m[..4100] == memory[..4100] && m[4100..4116] == if address.None? then memory[4100..4116] else address.value
  {
    match address case None => memory case Some(a) => memory[..ADDRESS_START] + a
  }

  /** The client is closed and erased from the vector. */
  function Drop(s: State, i: nat, address: Option<Address>): State
    requires i < |s.clients|
  {
    var c := s.clients[i];
    s.(clients := RemoveAt(s.clients, i), ledger := s.ledger.Close(c.socket).Erase(c, i == |s.clients| - 1),
       memory := Addressed(s.memory, address))
  }

  // ------------------------------------------------ new connections

  function Motd(): Bytes {
    Op(SMSG_MOTD) + Ascii("Server v1.0 on duty! waiting for commands.")
  }

  /** How many of `remaining` bytes a loop over SSL_write gets out, given what the calls return. */
  function Emitted(writes: seq<int>, remaining: nat): (n: nat)
    ensures n <= remaining
    decreases |writes|
  {
    if remaining == 0 || |writes| == 0 || writes[0] <= 0 then 0
    else
      var written := if writes[0] <= remaining then writes[0] else remaining;
      written + Emitted(writes[1..], remaining - written)
  }

  function NewClient(fd: nat, id: uint64): ClientSocket {
    ClientSocket(fd, NULL_SSL, false, false, 0, id, UNKNOWN_NAME)
  }

  /** An accepted connection: its descriptor and address, how the handshake ends, and the results of SSL_write while
      the greeting goes out. */
  datatype Arrival = Arrival(fd: nat, address: Option<Address>, handshake: Handshake, writes: seq<int>)

  function Connect(s: State, a: Arrival): State {
    var s1 := s.(uniqueCounter := (s.uniqueCounter + 1) % TWO_64, memory := Addressed(s.memory, a.address));
    AfterHandshake(s1, NewClient(a.fd, s.uniqueCounter), a.handshake, a.writes)
  }

  function AfterHandshake(s: State, client: ClientSocket, handshake: Handshake, writes: seq<int>): State {
    var (client', ledger) := InitSSL(client, s.ledger, handshake);
    if handshake.Accepted? then Greeted(s.(ledger := ledger), client', writes)
    else s.(ledger := ledger.Close(client.socket))
  }

  /** The client is stored and greeted, if greetings are on. */
  function Greeted(s: State, client: ClientSocket, writes: seq<int>): State {
    var s1 := s.(clients := s.clients + [client]);
    if s.sendHello then Send(s1, |s.clients|, Motd()[..Emitted(writes, |Motd()|)]) else s1
  }

  // ------------------------------------------------ events and runs

  datatype Event =
    | Connecting(arrival: Arrival)
    | Receiving(i: nat, data: Packet, texts: Texts)
    | Dropping(i: nat, address: Option<Address>)
    | RequestClosing
    | CloseServer

  predicate Enabled(s: State, e: Event) {
    !s.terminated
    && (e.Receiving? ==> e.i < |s.clients| && s.status != Closing)
    && (e.Dropping? ==> e.i < |s.clients|)
  }

  /** ClosingRequested closes every client's descriptor. */
  function CloseAll(s: State): State {
    s.(status := Closing, ledger := s.ledger.(closed := s.ledger.closed + Descriptors(s.clients)))
  }

  function Descriptors(clients: seq<ClientSocket>): seq<int> {
    seq(|clients|, k requires 0 <= k < |clients| => clients[k].socket)
  }

  /** One step; an event that is not enabled changes nothing. */
  function Step(s: State, e: Event): State {
    if !Enabled(s, e) then s
    else
      match e
      case Connecting(arrival) => Connect(s, arrival)
      case Receiving(i, data, texts) => Receive(s, i, data, texts)
      case Dropping(i, address) => Drop(s, i, address)
      case RequestClosing => CloseAll(s)
      case CloseServer => s.(status := Closed)
  }

  /** The state after a run. */
  function Execute(s: State, events: seq<Event>): State {
    if |events| == 0 then s else Step(Execute(s, events[..|events| - 1]), events[|events| - 1])
  }

  /** A new server. */
  function Created(memory: Memory): State {
    State([], 0, map[], 0, memory, NotStarted, false, [], Ledger(0, [], []), false)
  }

  /** A server that has been started: no clients, and the rooms that were loaded. */
  function Initial(rooms: Rooms, memory: Memory, sendHello: bool): State {
    State([], 0, rooms, 0, memory, Started, sendHello, [], Ledger(0, [], []), false)
  }

  /** The destructor: the vector of clients goes away. */
  function Shutdown(s: State): State {
    s.(clients := [], ledger := s.ledger.FreeAll(s.clients))
  }

  // ------------------------------------------------ ProcessRequests

  /** What select and SSL_read report about one client during a pass. */
  datatype Input = NotReady | ReadFailed(address: Option<Address>) | Ready(data: Packet, texts: Texts)

  /** What happens at the visit of one client, and where the iteration goes on. */
  function Turn(closing: bool, i: nat, input: Input): Option<Event> {
    if closing then Some(Dropping(i, None))
    else
      match input
      case NotReady => None
      case ReadFailed(address) => Some(Dropping(i, address))
      case Ready(data, texts) => Some(Receiving(i, data, texts))
  }

  function Next(closing: bool, i: nat, input: Input): nat {
    if closing || input.ReadFailed? then i else i + 1
  }

  function AfterTurn(s: State, turn: Option<Event>): State {
    match turn case None => s case Some(e) => Step(s, e)
  }

  /** The events of a pass that has reached position `i`, with the remaining clients' inputs. */
  function PassEvents(closing: bool, i: nat, inputs: seq<Input>): seq<Event>
    decreases |inputs|
  {
    if |inputs| == 0 then []
    else
      var turn := Turn(closing, i, inputs[0]);
      (if turn.Some? then [turn.value] else []) + PassEvents(closing, Next(closing, i, inputs[0]), inputs[1..])
  }

  function Pass(s: State, inputs: seq<Input>): State {
    Execute(s, PassEvents(s.status == Closing, 0, inputs))
  }

  lemma {:induction false} ExecuteConcat(s: State, a: seq<Event>, b: seq<Event>)
    ensures Execute(s, a + b) == Execute(Execute(s, a), b)
  {
    var all := a + b;
    if |b| == 0 {
      assert all == a;
    } else {
      ExecuteConcat(s, a, b[..|b| - 1]);
      ConcatLast(a, b);
    }
  }

  lemma ConcatLast(a: seq<Event>, b: seq<Event>)
    requires |b| > 0
    ensures (a + b)[..|a + b| - 1] == a + b[..|b| - 1] && (a + b)[|a + b| - 1] == b[|b| - 1]
  {
  }

  lemma ExecuteOne(s: State, e: Event)
    ensures Execute(s, [e]) == Step(s, e)
  {
    assert [e][..0] == [];
  }

  lemma {:induction false} ExecuteTerminated(s: State, events: seq<Event>)
    requires s.terminated
    ensures Execute(s, events) == s
  {
    if |events| > 0 {
      ExecuteTerminated(s, events[..|events| - 1]);
    }
  }

  lemma PassStep(s: State, closing: bool, i: nat, inputs: seq<Input>)
    requires |inputs| > 0
    ensures var next := Next(closing, i, inputs[0]);
            Execute(s, PassEvents(closing, i, inputs))
              == Execute(AfterTurn(s, Turn(closing, i, inputs[0])), PassEvents(closing, next, inputs[1..]))
  {
    var turn, rest := Turn(closing, i, inputs[0]), PassEvents(closing, Next(closing, i, inputs[0]), inputs[1..]);
    if turn.Some? {
      ExecuteOne(s, turn.value);
      ExecuteConcat(s, [turn.value], rest);
    } else {
      assert [] + rest == rest;
    }
  }

  // ------------------------------------------------ the main loop

  /** What the environment does in one round of the main loop: who connects, what a pass finds at each place it visits,
      and whether a signal has asked the server to close. */
  datatype Round = Round(arrival: Option<Arrival>, inputs: nat -> Input, closingRequested: bool)

  function ArrivalEvents(arrival: Option<Arrival>): seq<Event> {
    match arrival case None => [] case Some(a) => [Connecting(a)]
  }

  function PassInputs(s: State, inputs: nat -> Input): seq<Input> {
    seq(|s.clients|, inputs)
  }

  /** The events after the pass: closing is requested and carried out within the round. */
  function ClosingEvents(s: State, requested: bool): seq<Event> {
    (if requested then [RequestClosing] else []) + (if requested || s.status == Closing then [CloseServer] else [])
  }

  function RoundEvents(s: State, round: Round): seq<Event> {
    var arrived := Execute(s, ArrivalEvents(round.arrival));
    var pass := PassEvents(arrived.status == Closing, 0, PassInputs(arrived, round.inputs));
    ArrivalEvents(round.arrival) + pass + ClosingEvents(Execute(arrived, pass), round.closingRequested)
  }

  /** The events of the main loop, which ends when the server is closed or the process has died. */
  function ServeEvents(s: State, rounds: seq<Round>): seq<Event>
    decreases |rounds|
  {
    if |rounds| == 0 || s.status == Closed || s.terminated then []
    else RoundEvents(s, rounds[0]) + ServeEvents(Execute(s, RoundEvents(s, rounds[0])), rounds[1..])
  }

  lemma RoundSteps(s: State, round: Round)
    ensures var arrived := AfterArrival(s, round.arrival);
            var passed := Pass(arrived, PassInputs(arrived, round.inputs));
            Execute(s, RoundEvents(s, round)) == AfterClosing(passed, round.closingRequested)
  {
    var arrived := Execute(s, ArrivalEvents(round.arrival));
    if round.arrival.Some? { ExecuteOne(s, Connecting(round.arrival.value)); }
    var pass := PassEvents(arrived.status == Closing, 0, PassInputs(arrived, round.inputs));
    var passed := Execute(arrived, pass);
    ExecuteConcat(s, ArrivalEvents(round.arrival), pass);
    ExecuteConcat(s, ArrivalEvents(round.arrival) + pass, ClosingEvents(passed, round.closingRequested));
    ClosingSteps(passed, round.closingRequested);
  }

  function AfterArrival(s: State, arrival: Option<Arrival>): State {
    match arrival case None => s case Some(a) => Step(s, Connecting(a))
  }

  function AfterClosing(s: State, requested: bool): State {
    var s1 := if requested then Step(s, RequestClosing) else s;
    if requested || s.status == Closing then Step(s1, Event.CloseServer) else s1
  }

  lemma ClosingSteps(s: State, requested: bool)
    ensures Execute(s, ClosingEvents(s, requested)) == AfterClosing(s, requested)
  {
    var first: seq<Event> := if requested then [RequestClosing] else [];
    var second: seq<Event> := if requested || s.status == Closing then [Event.CloseServer] else [];
    ExecuteConcat(s, first, second);
    if requested { ExecuteOne(s, RequestClosing); }
    ExecuteOne(Execute(s, first), Event.CloseServer);
  }
}
