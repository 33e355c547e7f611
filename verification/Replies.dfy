// What is sent in answer to a received packet, in bytes on the wire, and to a new connection.

module Replies {
  import opened Bytes
  import opened Protocol
  import opened Chat
  import opened Sockets
  import opened ServerSpec
  import opened Invariants

  /** The packet is sent to the i-th client, and nothing else to anybody. */
  predicate Answered(s: State, i: nat, s': State, packet: Bytes)
    requires i < |s.clients|
  {
    s'.sent == s.sent + [Sent(s.clients[i].ssl, packet)]
  }

  lemma TextWhole(text: Bytes)
    requires forall k :: 0 <= k < |text| ==> text[k] != 0
    ensures CString(text) == text
  {
  }

  lemma AsciiWhole(text: string)
    requires forall k :: 0 <= k < |text| ==> 0 < text[k] as int < 0x100
    ensures CString(Ascii(text)) == Ascii(text)
  {
    TextWhole(Ascii(text));
  }

  // ------------------------------------------------ requests without parameters

  /** PING, UPTIME and the list of rooms; INCREMENT is not answered. */
  lemma PlainReplies(s: State, i: nat, data: Packet, texts: Texts)
    requires i < |s.clients| && |data| >= 2
    ensures var s' := Receive(s, i, data, texts);
            && (data[..2] == [0x00, 0x07] ==> Answered(s, i, s', [0x10, 0x08]))
            && (data[..2] == [0x00, 0x06] ==> Answered(s, i, s', [0x10, 0x07] + texts.uptime))
            && (data[..2] == [0x00, 0x0A] ==> Answered(s, i, s', [0x10, 0x00] + CString(texts.roomList)))
            && (data[..2] == [0x00, 0x08] ==> s'.sent == s.sent)
  {
    OverwriteOp(s.memory, data);
    OpFromBytes(data);
  }

  lemma OpFromBytes(data: Bytes)
    requires |data| >= 2
    ensures forall code: uint16 :: data[..2] == Op(code) ==> OpOf(data) == code
  {
  }

  /** Room info: the three possible answers. */
  lemma InfoReply(s: State, i: nat, data: Packet, texts: Texts)
    requires i < |s.clients| && |data| >= 2 && data[..2] == [0x00, 0x0B]
    ensures var s', c := Receive(s, i, data, texts), s.clients[i];
            if !c.chatRoomJoined then Answered(s, i, s', [0x10, 0x00] + Ascii("No joined room"))
            else if c.joinedChatRoomID in s.rooms then
              Answered(s, i, s', [0x10, 0x00] + CString(Ascii("Joined: ") + s.rooms[c.joinedChatRoomID].name))
            else Answered(s, i, s', [0x10, 0x00] + Ascii("Invalid room"))
  {
    OverwriteOp(s.memory, data);
    OpFromBytes(data);
    AsciiWhole("No joined room");
    AsciiWhole("Invalid room");
  }

  // ------------------------------------------------ packets that are not understood

  /** An unknown opcode is reported. */
  lemma UnknownReply(s: State, i: nat, data: Packet, texts: Texts)
    requires i < |s.clients| && |data| >= 2 && !(data[0] == 0 && 1 <= data[1] <= 0x0D)
    ensures Answered(s, i, Receive(s, i, data, texts), [0x10, 0x00] + Ascii("Unknown or unhandled opcode."))
  {
    OverwriteOp(s.memory, data);
    assert data[..2] == [data[0], data[1]];
    AsciiWhole("Unknown or unhandled opcode.");
  }

  /** A packet of one byte is reported, without an opcode. */
  lemma InvalidReply(s: State, i: nat, data: Packet, texts: Texts)
    requires i < |s.clients| && |data| == 1
    ensures Answered(s, i, Receive(s, i, data, texts), Ascii("Invalid packet."))
  {
  }

  /** A request of the wrong size is read and ignored: an addition of less than six bytes, a private message without a
      whole id, a JOIN of any size but 35. */
  lemma WrongSizeIgnored(s: State, i: nat, data: Packet, texts: Texts)
    requires i < |s.clients| && |data| >= 2
    requires || (data[..2] == [0x00, 0x02] && |data| < 6)
             || (data[..2] == [0x00, 0x05] && |data| < 10)
             || (data[..2] == [0x00, 0x0C] && |data| != 35)
    ensures Receive(s, i, data, texts) == s.(memory := Overwrite(s.memory, data))
  {
    OverwriteOp(s.memory, data);
    OpFromBytes(data);
  }

  // ------------------------------------------------ refused messages

  /** A message to oneself is refused with 6, one to an id that no client has with 5; nobody else is sent anything. */
  lemma MessageRefused(s: State, i: nat, data: Packet, texts: Texts)
    requires i < |s.clients| && |data| >= 10 && data[..2] == [0x00, 0x05]
    ensures var s', id := Receive(s, i, data, texts), FromLittleEndian(data[2..10]);
            && (id == s.clients[i].clientID ==> Answered(s, i, s', [0x10, 0x05, 6]))
            && (id != s.clients[i].clientID && (forall k :: 0 <= k < |s.clients| ==> s.clients[k].clientID != id) ==>
                  Answered(s, i, s', [0x10, 0x05, 5]))
  {
    OverwriteOp(s.memory, data);
    OpFromBytes(data);
    assert Overwrite(s.memory, data)[2..10] == data[2..10];
    FindCorrect(s.clients, MsgTarget(Overwrite(s.memory, data)));
    assert Op(SMSG_PRIVATE_MSG_ERR) + [ERR_MSG_TO_SELF] == [0x10, 0x05, 6];
    assert Op(SMSG_PRIVATE_MSG_ERR) + [ERR_NO_CLIENT_FOUND] == [0x10, 0x05, 5];
  }

  // ------------------------------------------------ the greeting

  /** The sum of the positive results of SSL_write before the first that is not positive. */
  function Granted(writes: seq<int>): nat {
    if |writes| == 0 || writes[0] <= 0 then 0 else writes[0] + Granted(writes[1..])
  }

  /** The loop gets out what is granted, up to the whole. */
  lemma {:induction false} EmittedIsGranted(writes: seq<int>, remaining: nat)
    ensures Emitted(writes, remaining) == if Granted(writes) <= remaining then Granted(writes) else remaining
    decreases |writes|
  {
    if remaining > 0 && |writes| > 0 && writes[0] > 0 {
      EmittedIsGranted(writes[1..], if writes[0] <= remaining then remaining - writes[0] else 0);
    }
  }

  /** An accepted client, and nobody else, is greeted if greetings are on: with the whole text if and only if so much is
      granted.  A connection whose handshake fails is sent nothing. */
  lemma ClientGreeted(s: State, a: Arrival)
    ensures var greeting := [0x0F, 0xFF] + Ascii("Server v1.0 on duty! waiting for commands.");
            var n := if Granted(a.writes) <= |greeting| then Granted(a.writes) else |greeting|;
            && Connect(s, a).sent
                 == s.sent + (if a.handshake.Accepted? && s.sendHello
                              then [Sent(s.ledger.created + 1, greeting[..n])] else [])
            && (greeting[..n] == greeting <==> Granted(a.writes) >= |greeting|)
  {
    EmittedIsGranted(a.writes, |Motd()|);
  }
}
