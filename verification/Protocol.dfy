// src/common/OpCodes.h and SharedDefinitions.h: opcodes, error codes and packet sizes.

module Protocol {
  import opened Bytes

  const CMSG_ECHO_REQUEST: uint16 := 0x0001
  const CMSG_ADDITION_REQUEST: uint16 := 0x0002
  const CMSG_BROADCAST_MESSAGE: uint16 := 0x0003
  const CMSG_GET_CLIENT_LIST: uint16 := 0x0004
  const CMSG_SEND_MSG_TO_CLIENT: uint16 := 0x0005
  const CMSG_UPTIME: uint16 := 0x0006
  const CMSG_PING: uint16 := 0x0007
  const CMSG_INCREMENT_COUNTER: uint16 := 0x0008
  const CMSG_GET_COUNTER: uint16 := 0x0009
  const CMSG_GET_CHAT_ROOMS: uint16 := 0x000A
  const CMSG_GET_ROOM_INFO: uint16 := 0x000B
  const CMSG_JOIN_ROOM: uint16 := 0x000C
  const CMSG_SAY: uint16 := 0x000D

  const SMSG_MOTD: uint16 := 0x0FFF
  const SMSG_MESSAGE: uint16 := 0x1000
  const SMSG_ECHO_REQUEST: uint16 := 0x1001
  const SMSG_ADDITION_REQUEST: uint16 := 0x1002
  const SMSG_BROADCAST: uint16 := 0x1003
  const SMSG_CLIENT_LIST: uint16 := 0x1004
  const SMSG_PRIVATE_MSG_ERR: uint16 := 0x1005
  const SMSG_PRIVATE_MESSAGE: uint16 := 0x1006
  const SMSG_UPTIME: uint16 := 0x1007
  const SMSG_PONG: uint16 := 0x1008
  const SMSG_COUNTER: uint16 := 0x1009
  const SMSG_JOIN_CHAT_ROOM_OK: uint16 := 0x100A
  const SMSG_JOIN_CHAT_ROOM_ERR: uint16 := 0x100B
  const SMSG_SAY_OK: uint16 := 0x100C
  const SMSG_SAY_ERR: uint16 := 0x100D
  const SMSG_SAY: uint16 := 0x100E

  const ERR_OK: uint8 := 0
  const ERR_INVALID_ROOM: uint8 := 1
  const ERR_INVALID_ROOM_PASSWORD: uint8 := 2
  const ERR_NO_ROOM_JOINED: uint8 := 4
  const ERR_NO_CLIENT_FOUND: uint8 := 5
  const ERR_MSG_TO_SELF: uint8 := 6
  const ERR_TOO_MUCH_CLIENTS: uint8 := 7
  const ERR_EMPTY_MESSAGE: uint8 := 8

  /** Size of the receive buffer, and the cap on a packet. */
  const BUFFER_SIZE := 4096
  const SHA256_DIGEST_LENGTH := 32

  /** An opcode in network byte order. */
  function Op(code: uint16): (b: Bytes)
    ensures |b| == 2
  {
    [code / 0x100, code % 0x100]
  }

  /** The opcodes as they appear on the wire. */
  lemma WireOpcodes()
    ensures Op(CMSG_ECHO_REQUEST) == [0x00, 0x01] && Op(CMSG_ADDITION_REQUEST) == [0x00, 0x02]
    ensures Op(CMSG_BROADCAST_MESSAGE) == [0x00, 0x03] && Op(CMSG_GET_CLIENT_LIST) == [0x00, 0x04]
    ensures Op(CMSG_SEND_MSG_TO_CLIENT) == [0x00, 0x05] && Op(CMSG_UPTIME) == [0x00, 0x06]
    ensures Op(CMSG_PING) == [0x00, 0x07] && Op(CMSG_INCREMENT_COUNTER) == [0x00, 0x08]
    ensures Op(CMSG_GET_COUNTER) == [0x00, 0x09] && Op(CMSG_GET_CHAT_ROOMS) == [0x00, 0x0A]
    ensures Op(CMSG_GET_ROOM_INFO) == [0x00, 0x0B] && Op(CMSG_JOIN_ROOM) == [0x00, 0x0C]
    ensures Op(CMSG_SAY) == [0x00, 0x0D] && Op(SMSG_MOTD) == [0x0F, 0xFF] && Op(SMSG_MESSAGE) == [0x10, 0x00]
    ensures Op(SMSG_ECHO_REQUEST) == [0x10, 0x01] && Op(SMSG_ADDITION_REQUEST) == [0x10, 0x02]
    ensures Op(SMSG_BROADCAST) == [0x10, 0x03] && Op(SMSG_CLIENT_LIST) == [0x10, 0x04]
    ensures Op(SMSG_PRIVATE_MSG_ERR) == [0x10, 0x05] && Op(SMSG_PRIVATE_MESSAGE) == [0x10, 0x06]
    ensures Op(SMSG_UPTIME) == [0x10, 0x07] && Op(SMSG_PONG) == [0x10, 0x08] && Op(SMSG_COUNTER) == [0x10, 0x09]
    ensures Op(SMSG_JOIN_CHAT_ROOM_OK) == [0x10, 0x0A] && Op(SMSG_JOIN_CHAT_ROOM_ERR) == [0x10, 0x0B]
    ensures Op(SMSG_SAY_OK) == [0x10, 0x0C] && Op(SMSG_SAY_ERR) == [0x10, 0x0D] && Op(SMSG_SAY) == [0x10, 0x0E]
  {
  }

  function OpOf(packet: Bytes): (code: uint16)
    requires |packet| >= 2
    ensures Op(code) == packet[..2]
  {
    var high: int := packet[0];
    0x100 * high + packet[1]
  }
}
