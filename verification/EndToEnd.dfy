// The client's packets through the server's handlers and back into the client's decoders.

module EndToEnd {
  import opened Bytes
  import opened Binary64
  import opened Numbers
  import opened NumParser
  import opened Protocol
  import opened Addition
  import opened ClientList
  import opened Chat
  import opened Sockets
  import opened ServerSpec
  import opened Invariants
  import opened Messaging
  import opened RoomSafety
  import opened Cli

  // ------------------------------------------------ the addition request

  /** The double that the client copies out of the reply. */
  function ReadSum(reply: Bytes): Double
    requires |reply| == 10
  {
    Ranges();
    FromBits64(FromLittleEndian(reply[2..10]))
  }

  lemma SumPacketReads(ns: seq<Number>)
    ensures var reply := SumPacket(Sum(ns));
            && |reply| == 10 && reply[..2] == [0x10, 0x02] && FromLittleEndian(reply[2..10]) == ToBits64(Sum(ns))
            && ReadSum(reply) == Sum(ns)
  {
    SumSurvivesReply(ns);
    BitsRead(ToBits64(Sum(ns)));
  }

  lemma BitsRead(bits: uint64)
    ensures var reply := Op(SMSG_ADDITION_REQUEST) + LittleEndian(bits, 8);
            FromLittleEndian(reply[2..10]) == bits && reply[..2] == [0x10, 0x02]
  {
    Ranges();
    LittleEndianRoundTrip(bits, 8);
    assert (Op(SMSG_ADDITION_REQUEST) + LittleEndian(bits, 8))[2..10] == LittleEndian(bits, 8);
  }

  /** Every packet the client sends for `add` fits the buffer, is answered, and does not make the server throw: the
      caller, and nobody else, is sent the sum of the numbers, floats and doubles included. */
  lemma AddIsAnswered(s: State, i: nat, ns: seq<Number>, data: Packet, texts: Texts) returns (reply: Bytes)
    requires i < |s.clients| && AdditionPacket(ns) == Some(data)
    ensures var s' := Receive(s, i, data, texts);
            s'.terminated == s.terminated && s'.sent == s.sent + [Sent(s.clients[i].ssl, reply)]
    ensures |reply| == 10 && reply[..2] == [0x10, 0x02]
    ensures FromLittleEndian(reply[2..10]) == ToBits64(Sum(ns)) && ReadSum(reply) == Sum(ns)
  {
    var s1 := s.(memory := Overwrite(s.memory, data));
    OverwriteOp(s.memory, data);
    assert data[..2] == Op(CMSG_ADDITION_REQUEST);
    PacketIsRead(ns, s1.memory, Finite(0));
    SumPacketReads(ns);
    reply := SumPacket(Sum(ns));
  }

  /** The string is a numeral, in either base, with or without sign and suffix, of value `v`. */
  ghost predicate SpellsValue(s: string, v: int) {
    exists t: Text :: t.Valid() && t.Spelled() == s && t.Value() == v
  }

  ghost predicate Spells(args: seq<string>, vs: seq<int>) {
    |args| == |vs| && forall k :: 0 <= k < |vs| ==> SpellsValue(args[k], vs[k])
  }

  function Total(vs: seq<int>): int {
    if |vs| == 0 then 0 else vs[0] + Total(vs[1..])
  }

  function AbsoluteTotal(vs: seq<int>): nat {
    if |vs| == 0 then 0 else Abs(vs[0]) + AbsoluteTotal(vs[1..])
  }

  /** The numbers are integers with these values. */
  ghost predicate AllMean(vs: seq<int>, ns: seq<Number>) {
    |vs| == |ns| && forall k :: 0 <= k < |ns| ==> ns[k].IsInteger() && ns[k].Value() == vs[k]
  }

  lemma {:induction false} MeantSum(vs: seq<int>, ns: seq<Number>)
    requires AllMean(vs, ns)
    ensures AllIntegers(ns) && ExactSum(ns) == Total(vs) && AbsoluteSum(ns) == AbsoluteTotal(vs)
  {
    if |ns| > 0 { MeantSum(vs[1..], ns[1..]); }
  }

  lemma SpelledMeans(libc: Libc, s: string, v: int, n: Number)
    requires SpellsValue(s, v) && ParseNumber(libc, s) == Ok(n)
    ensures n.IsInteger() && n.Value() == v
  {
    var t: Text :| t.Valid() && t.Spelled() == s && t.Value() == v;
    UnsignedTexts(libc, t);
  }

  lemma ParsedMean(libc: Libc, args: seq<string>, vs: seq<int>, ns: seq<Number>)
    requires Spells(args, vs) && ParseAll(libc, args) == Some(ns)
    ensures AllMean(vs, ns)
  {
    AllParsed(libc, args);
    forall k | 0 <= k < |vs| ensures ns[k].IsInteger() && ns[k].Value() == vs[k] {
      SpelledMeans(libc, args[k], vs[k], ns[k]);
    }
  }

  lemma IntegerIsSpelled(libc: Libc, s: string, n: Number)
    requires ParseNumber(libc, s) == Ok(n) && n.IsInteger()
    ensures SpellsValue(s, n.Value())
  {
    var t := IntegerIsText(libc, s);
    UnsignedTexts(libc, t);
  }

  /** Whatever parses to integers is spelled in this way, so the theorem below is about every such request. */
  lemma IntegersAreSpelled(libc: Libc, args: seq<string>, vs: seq<int>, ns: seq<Number>)
    requires ParseAll(libc, args) == Some(ns) && AllMean(vs, ns)
    ensures Spells(args, vs)
  {
    AllParsed(libc, args);
    forall k | 0 <= k < |vs| ensures SpellsValue(args[k], vs[k]) {
      IntegerIsSpelled(libc, args[k], ns[k]);
    }
  }

  lemma MeantResult(vs: seq<int>, ns: seq<Number>) returns (x: int)
    requires AllMean(vs, ns) && AdditionPacket(ns).Some?
    ensures Denotes(ToBits64(Sum(ns)), x)
    ensures Abs(x - Total(vs)) <= |vs| * (TWO_21 + TWO_10)
    ensures AbsoluteTotal(vs) <= P53 || (forall n <- ns :: IsNarrow(n)) ==> x == Total(vs)
  {
    MeantSum(vs, ns);
    x := AdditionResult(ns);
  }

  /** From the text of the numbers, in either base, with or without sign and suffix, to the bits the client reads.  The
      request is sent whenever all numbers are accepted and fit.  The reply has the bits of an integer: when the
      absolute values sum to at most 2^53, or all parse to 8, 16 or 32-bit integers, exactly of the mathematical sum; in
      general of an integer within 2^21 + 2^10 of it for every number. */
  lemma AdditionEndToEnd(libc: Libc, args: seq<string>, vs: seq<int>, s: State, i: nat, texts: Texts)
    returns (data: Packet, x: int, reply: Bytes)
    requires |args| >= 2 && Spells(args, vs) && AllParse(libc, args) && 2 + RecordsSize(NumbersOf(libc, args)) <= 4096
    requires i < |s.clients|
    ensures AddPacket(libc, args) == Some(data)
    ensures var s' := Receive(s, i, data, texts);
            s'.terminated == s.terminated && s'.sent == s.sent + [Sent(s.clients[i].ssl, reply)]
    ensures |reply| == 10 && reply[..2] == [0x10, 0x02] && Denotes(FromLittleEndian(reply[2..10]), x)
    ensures Abs(x - Total(vs)) <= |args| * (TWO_21 + TWO_10)
    ensures AbsoluteTotal(vs) <= P53 || (forall n <- NumbersOf(libc, args) :: IsNarrow(n)) ==> x == Total(vs)
  {
    var ns := ParsedNumbers(libc, args);
    ParsedMean(libc, args, vs, ns);
    data := AdditionPacket(ns).value;
    x := MeantResult(vs, ns);
    reply := AddIsAnswered(s, i, ns, data, texts);
  }

  lemma ParsedNumbers(libc: Libc, args: seq<string>) returns (ns: seq<Number>)
    requires |args| >= 2 && AllParse(libc, args) && 2 + RecordsSize(NumbersOf(libc, args)) <= 4096
    ensures ParseAll(libc, args) == Some(ns) && ns == NumbersOf(libc, args)
    ensures AdditionPacket(ns).Some? && 1 <= |AdditionPacket(ns).value| <= BUFFER_SIZE
    ensures AddPacket(libc, args) == AdditionPacket(ns)
  {
    AllParsed(libc, args);
    NoneRefused(libc, args);
    ns := ParseAll(libc, args).value;
    assert ns == NumbersOf(libc, args);
    SentIff(ns);
  }

  // ------------------------------------------------ echo and broadcast

  /** A text comes back to its sender alone, or goes once to every client, the sender included, in vector order. */
  lemma TextsComeBack(s: State, i: nat, data: Packet, texts: Texts) returns (at: seq<nat>)
    requires Inv(s) && i < |s.clients| && |data| >= 2
    ensures OpOf(data) == CMSG_ECHO_REQUEST ==>
              Receive(s, i, data, texts).sent == s.sent + [Sent(s.clients[i].ssl, Op(SMSG_ECHO_REQUEST) + data[2..])]
    ensures OpOf(data) == CMSG_BROADCAST_MESSAGE ==>
              var sent := Receive(s, i, data, texts).sent;
              s.sent <= sent && IsDelivery(s.clients, None, Op(SMSG_BROADCAST) + data[2..], sent[|s.sent|..], at)
              && forall k :: 0 <= k < |s.clients| ==> k in at
  {
    OverwriteOp(s.memory, data);
    assert Overwrite(s.memory, data)[2..|data|] == data[2..];
    at := CopiesAreDelivery(s.clients, None, Op(SMSG_BROADCAST) + data[2..]);
  }

  // ------------------------------------------------ the client list

  /** What is appended to the name of the client that asks. */
  const YOU: Bytes := [0x20, 0x28, 0x79, 0x6F, 0x75, 0x29]

  /** Ten bytes and the name for each client. */
  function NamesSize(clients: seq<ClientSocket>): nat {
    if |clients| == 0 then 0 else 10 + |clients[0].clientUsername| + NamesSize(clients[1..])
  }

  function HowOften(clients: seq<ClientSocket>, id: uint64): nat {
    if |clients| == 0 then 0 else (if clients[0].clientID == id then 1 else 0) + HowOften(clients[1..], id)
  }

  lemma {:induction false} EntriesSize(clients: seq<ClientSocket>, you: uint64)
    ensures |ListBytes(Entries(clients, you))| == NamesSize(clients) + 6 * HowOften(clients, you)
  {
    var entries := Entries(clients, you);
    if |clients| > 0 {
      EntriesSize(clients[1..], you);
      assert entries[1..] == Entries(clients[1..], you);
      assert |EntryBytes(entries[0])| == 10 + |entries[0].name|;
    }
  }

  lemma {:induction false} NotThere(clients: seq<ClientSocket>, id: uint64)
    requires forall k :: 0 <= k < |clients| ==> clients[k].clientID != id
    ensures HowOften(clients, id) == 0
  {
    if |clients| > 0 { NotThere(clients[1..], id); }
  }

  lemma {:induction false} ThereOnce(clients: seq<ClientSocket>, i: nat)
    requires i < |clients| && forall k :: 0 <= k < |clients| && k != i ==> clients[k].clientID != clients[i].clientID
    ensures HowOften(clients, clients[i].clientID) == 1
    decreases i
  {
    if i == 0 {
      NotThere(clients[1..], clients[0].clientID);
    } else {
      ThereOnce(clients[1..], i - 1);
    }
  }

  /** The client that asks reads back the id and the name of every connected client, in order, its own name marked; or,
      if that would take more than 4096 bytes, a refusal without records. */
  lemma ClientListEndToEnd(s: State, i: nat, texts: Texts) returns (packet: Bytes)
    requires Inv(s) && i < |s.clients|
    ensures Receive(s, i, [0x00, 0x04], texts).sent == s.sent + [Sent(s.clients[i].ssl, packet)]
    ensures 3 <= |packet| <= 4096 && packet[..2] == [0x10, 0x04]
    ensures if 3 + NamesSize(s.clients) + |YOU| <= 4096 then
              var list := Decoded(packet[2..]);
              && packet[2] == 0 && |list| == |s.clients|
              && forall k :: 0 <= k < |s.clients| ==>
                   && list[k].id == s.clients[k].clientID
                   && list[k].name == if k == i then s.clients[k].clientUsername + YOU else s.clients[k].clientUsername
            else packet[2..] == [7] && Decoded(packet[2..]) == []
  {
    var data: Packet := [0x00, 0x04];
    var you := s.clients[i].clientID;
    var entries := Entries(s.clients, you);
    OverwriteOp(s.memory, data);
    assert data[..2] == Op(CMSG_GET_CLIENT_LIST);
    packet := ListPacket(entries);
    ListOfAll(s, i);
  }

  lemma ListOfAll(s: State, i: nat)
    requires Inv(s) && i < |s.clients|
    ensures var packet := ListPacket(Entries(s.clients, s.clients[i].clientID));
            && 3 <= |packet| <= 4096 && packet[..2] == [0x10, 0x04]
            && if 3 + NamesSize(s.clients) + |YOU| <= 4096 then
                 var list := Decoded(packet[2..]);
                 && packet[2] == 0 && |list| == |s.clients|
                 && forall k :: 0 <= k < |s.clients| ==>
                      && list[k].id == s.clients[k].clientID
                      && list[k].name
                           == if k == i then s.clients[k].clientUsername + YOU else s.clients[k].clientUsername
               else packet[2..] == [7] && Decoded(packet[2..]) == []
  {
    var entries := Entries(s.clients, s.clients[i].clientID);
    ThereOnce(s.clients, i);
    EntriesSize(s.clients, s.clients[i].clientID);
    ListRoundTrip(entries);
    forall k | 0 <= k < |s.clients|
      ensures entries[k].id == s.clients[k].clientID
      ensures entries[k].name == if k == i then s.clients[k].clientUsername + YOU else s.clients[k].clientUsername
    {
      ShownAs(s, i, k);
    }
  }

  lemma ShownAs(s: State, i: nat, k: nat)
    requires Inv(s) && i < |s.clients| && k < |s.clients|
    ensures var entry := EntryFor(s.clients[k], s.clients[i].clientID);
            && entry.id == s.clients[k].clientID
            && entry.name == if k == i then s.clients[k].clientUsername + YOU else s.clients[k].clientUsername
  {
    assert Ascii(" (you)") == YOU;
    assert s.clients[k].clientUsername + [] == s.clients[k].clientUsername;
    assert k < i ==> s.clients[k].clientID < s.clients[i].clientID;
    assert i < k ==> s.clients[i].clientID < s.clients[k].clientID;
  }

  // ------------------------------------------------ private messages

  /** What the client shows of a private message: the sender and the text. */
  function ReadPrivate(payload: Bytes): (uint64, Bytes)
    requires |payload| >= 8
  {
    Ranges();
    (FromLittleEndian(payload[..8]), payload[8..])
  }

  /** One SSL_read of the client takes at most the size of its buffer from a packet; the rest is left for the next. */
  function FirstRead(packet: Bytes): (read: Bytes) {
    if |packet| <= BUFFER_SIZE then packet else packet[..BUFFER_SIZE]
  }

  function LeftForNextRead(packet: Bytes): Bytes {
    packet[|FirstRead(packet)|..]
  }

  /** What lies behind a packet in the server's buffer, up to ten bytes of it. */
  function Behind(memory: Memory, size: nat): Bytes
    requires size <= BUFFER_SIZE
  {
    memory[size..if size + 10 <= BUFFER_SIZE then size + 10 else BUFFER_SIZE]
  }

  /** A message to another connected client goes to exactly that client.  The forwarded packet is ten bytes longer than
      the message packet, and the client's buffer has 4096 bytes, so what the client reads is the sender's id, the full
      text, and those of the ten bytes behind the message packet that lie in the server's buffer: ten of them if and
      only if the packet has at most 4086 bytes.  The others are left for the client's next read. */
  lemma PrivateMessageEndToEnd(s: State, i: nat, k: nat, msg: Bytes, data: Packet, texts: Texts) returns (packet: Bytes)
    requires Inv(s) && i < |s.clients| && k < |s.clients| && k != i
    requires data == ClientMessage(s.clients[k].clientID, msg)
    ensures Receive(s, i, data, texts).sent
         == s.sent + [Sent(s.clients[i].ssl, Op(SMSG_PRIVATE_MSG_ERR) + [ERR_OK]), Sent(s.clients[k].ssl, packet)]
    ensures |packet| == |data| + 10 && |FirstRead(packet)| >= 10 && OpOf(FirstRead(packet)) == SMSG_PRIVATE_MESSAGE
    ensures ReadPrivate(FirstRead(packet)[2..]) == (s.clients[i].clientID, msg + Behind(s.memory, |data|))
    ensures |Behind(s.memory, |data|)| == 10 <==> |data| <= 4086
    ensures LeftForNextRead(packet) == if |data| <= 4086 then [] else s.memory[BUFFER_SIZE..|data| + 10]
  {
    var id, me, size := s.clients[k].clientID, s.clients[i], |data|;
    var s1 := s.(memory := Overwrite(s.memory, data));
    MessageInMemory(s.memory, id, msg, data);
    MessageDispatched(s, i, data, texts);
    PrivateMessage(s1, i, size);
    packet := ForwardedPacket(me.clientID, s1.memory, size);
    ForwardedReads(me.clientID, msg, s.memory, size);
  }

  lemma ForwardedReads(sender: uint64, msg: Bytes, memory: Memory, size: nat)
    requires 10 <= size <= BUFFER_SIZE && |msg| == size - 10
    ensures var packet := Op(SMSG_PRIVATE_MESSAGE) + LittleEndian(sender, 8) + (msg + memory[size..size + 10]);
            && |packet| == size + 10 && OpOf(FirstRead(packet)) == SMSG_PRIVATE_MESSAGE
            && ReadPrivate(FirstRead(packet)[2..]) == (sender, msg + Behind(memory, size))
            && LeftForNextRead(packet) == if size <= 4086 then [] else memory[BUFFER_SIZE..size + 10]
  {
    var header := Op(SMSG_PRIVATE_MESSAGE) + LittleEndian(sender, 8);
    var packet := header + (msg + memory[size..size + 10]);
    PacketCut(header, msg, memory, size);
    PrivateReads(sender, msg + Behind(memory, size));
    assert OpOf(FirstRead(packet)) == SMSG_PRIVATE_MESSAGE by {
      assert FirstRead(packet)[..2] == Op(SMSG_PRIVATE_MESSAGE);
    }
  }

  /** Where the client's buffer cuts the forwarded packet. */
  lemma PacketCut(header: Bytes, msg: Bytes, memory: Memory, size: nat)
    requires |header| == 10 && 10 <= size <= BUFFER_SIZE && |msg| == size - 10
    ensures var packet := header + (msg + memory[size..size + 10]);
            && FirstRead(packet) == header + (msg + Behind(memory, size))
            && LeftForNextRead(packet) == if size <= 4086 then [] else memory[BUFFER_SIZE..size + 10]
  {
    var packet := header + (msg + memory[size..size + 10]);
    if size > 4086 {
      SplitSlice(memory, size, BUFFER_SIZE, size + 10);
      var read, left := memory[size..BUFFER_SIZE], memory[BUFFER_SIZE..size + 10];
      assert packet == (header + (msg + read)) + left;
    }
  }

  /** The longest message packet: nothing follows the text, and the client's next read begins with the ten bytes behind
      the server's buffer, of which it takes the first two for an opcode. */
  lemma LongestMessage(s: State, i: nat, k: nat, texts: Texts) returns (msg: Bytes, data: Packet, packet: Bytes)
    requires Inv(s) && i < |s.clients| && k < |s.clients| && k != i
    ensures data == ClientMessage(s.clients[k].clientID, msg) && |data| == BUFFER_SIZE
    ensures Receive(s, i, data, texts).sent
         == s.sent + [Sent(s.clients[i].ssl, Op(SMSG_PRIVATE_MSG_ERR) + [ERR_OK]), Sent(s.clients[k].ssl, packet)]
    ensures |FirstRead(packet)| >= 10 && ReadPrivate(FirstRead(packet)[2..]) == (s.clients[i].clientID, msg)
    ensures LeftForNextRead(packet) == s.memory[4096..4106]
    ensures OpOf(LeftForNextRead(packet)) == OpOf(s.memory[4096..4098])
  {
    msg := seq(4086, _ => 0x41);
    data := ClientMessage(s.clients[k].clientID, msg);
    packet := PrivateMessageEndToEnd(s, i, k, msg, data, texts);
    assert msg + Behind(s.memory, 4096) == msg;
  }

  lemma MessageInMemory(memory: Memory, id: uint64, msg: Bytes, data: Packet)
    requires data == ClientMessage(id, msg)
    ensures var m, size := Overwrite(memory, data), |data|;
            && OpOf(data) == CMSG_SEND_MSG_TO_CLIENT && size >= 10 && MsgTarget(m) == id
            && m[10..size] == msg && m[size..size + 10] == memory[size..size + 10]
  {
    var m, size := Overwrite(memory, data), |data|;
    MessageFields(id, msg);
    assert m[2..10] == data[2..10] && m[10..size] == data[10..size];
  }

  lemma MessageDispatched(s: State, i: nat, data: Packet, texts: Texts)
    requires i < |s.clients| && |data| >= 10 && OpOf(data) == CMSG_SEND_MSG_TO_CLIENT
    ensures Receive(s, i, data, texts) == MsgToClient(s.(memory := Overwrite(s.memory, data)), i, |data|)
  {
    OverwriteOp(s.memory, data);
  }

  lemma MessageFields(id: uint64, msg: Bytes)
    ensures var data := ClientMessage(id, msg);
            |data| == 10 + |msg| && data[..2] == Op(CMSG_SEND_MSG_TO_CLIENT)
            && FromLittleEndian(data[2..10]) == id && data[10..] == msg
  {
    Ranges();
    LittleEndianRoundTrip(id, 8);
    ThreeParts(Op(CMSG_SEND_MSG_TO_CLIENT), LittleEndian(id, 8), msg);
  }

  lemma PrivateReads(id: uint64, text: Bytes)
    ensures ReadPrivate((Op(SMSG_PRIVATE_MESSAGE) + LittleEndian(id, 8) + text)[2..]) == (id, text)
  {
    Ranges();
    LittleEndianRoundTrip(id, 8);
    var packet := Op(SMSG_PRIVATE_MESSAGE) + LittleEndian(id, 8) + text;
    assert packet[2..][..8] == LittleEndian(id, 8) && packet[2..][8..] == text;
  }

  // ------------------------------------------------ joining with a password

  /** Whoever asks for a protected room gets in if and only if the digest of the password is the stored hash. */
  lemma JoinEndToEnd(libc: Libc, sha256: string -> Digest, args: seq<string>, t: Text, s: State, i: nat, texts: Texts)
    requires i < |s.clients| && 1 <= |args| <= 2 && t.Valid() && args[0] == t.Spelled() && t.NamesByte()
    requires t.Value() in s.rooms && s.rooms[t.Value()].Protected()
    ensures JoinCommand(libc, sha256, args).Some?
    ensures var packet := JoinCommand(libc, sha256, args).value;
            1 <= |packet| <= BUFFER_SIZE &&
            var digest := if |args| == 2 then sha256(args[1]) else sha256("");
            Receive(s, i, packet, texts).clients
              == if digest == s.rooms[t.Value()].passwordHash
                 then s.clients[i := s.clients[i].(joinedChatRoomID := t.Value(), chatRoomJoined := true)]
                 else s.clients
  {
    JoinAccepts(libc, sha256, args, t);
    JoinOutcome(s, i, t.Value(), sha256(Password(args)), texts);
  }

  // ------------------------------------------------ the counter

  lemma CounterReply(s: State, i: nat, texts: Texts) returns (reply: Bytes)
    requires i < |s.clients|
    ensures Receive(s, i, Op(CMSG_GET_COUNTER), texts).sent == s.sent + [Sent(s.clients[i].ssl, reply)]
    ensures |reply| == 10 && reply[..2] == [0x10, 0x09] && FromLittleEndian(reply[2..10]) == s.counter
  {
    var data: Packet := Op(CMSG_GET_COUNTER);
    OverwriteOp(s.memory, data);
    assert data[..2] == Op(CMSG_GET_COUNTER);
    Ranges();
    LittleEndianRoundTrip(s.counter, 8);
    reply := Op(SMSG_COUNTER) + LittleEndian(s.counter, 8);
    assert reply[2..10] == LittleEndian(s.counter, 8) && reply[..2] == Op(SMSG_COUNTER);
  }

  /** GET_COUNTER reports the number of INCREMENT requests dispatched so far, modulo 2^64. */
  lemma CounterReported(s0: State, events: seq<Event>, i: nat, texts: Texts) returns (reply: Bytes)
    requires s0.counter == 0 && i < |Execute(s0, events).clients|
    ensures var s := Execute(s0, events);
            Receive(s, i, Op(CMSG_GET_COUNTER), texts).sent == s.sent + [Sent(s.clients[i].ssl, reply)]
    ensures |reply| == 10 && reply[..2] == [0x10, 0x09]
    ensures FromLittleEndian(reply[2..10]) == Increments(s0, events) % TWO_64
  {
    CounterRefinement(s0, events);
    reply := CounterReply(Execute(s0, events), i, texts);
  }
}
