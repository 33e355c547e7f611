// src/server/Chat.h, Chat.cpp and Universe.h: the room table and the shared counter.

module Chat {
  import opened Bytes

  /** Stored hashes are empty (open room) or 32 bytes long, as the database schema demands. */
  type PasswordHash = h: Bytes | |h| == 0 || |h| == 32

  datatype ChatRoom = ChatRoom(name: Bytes, passwordHash: PasswordHash) {
    predicate Protected() { passwordHash != [] }
  }

  type Rooms = map<uint8, ChatRoom>

  const NO_ROOM := ChatRoom([], [])

  /** std::unordered_map::operator[] inserts an empty, open room for an unknown id. */
  function Touched(rooms: Rooms, roomID: uint8): Rooms {
    if roomID in rooms then rooms else rooms[roomID := NO_ROOM]
  }

  /** Whether a JOIN with this hash is accepted. */
  predicate Admits(rooms: Rooms, roomID: uint8, hash: Bytes) {
    roomID in rooms && (rooms[roomID].Protected() ==> rooms[roomID].passwordHash == hash)
  }

  class ChatTable {
    var rooms: Rooms

    constructor ()
      ensures rooms == map[]
    {
      rooms := map[];
    }

    /** Fills the table with the rows of the database; a room that is already there is kept. */
    method LoadChatRooms(rows: Rooms)
      modifies this
      ensures rooms == rows + old(rooms)
    {
      rooms := rows + rooms;
    }

    /** A room is found if and only if there is a hash with which a JOIN of it is admitted. */
    method CheckRoomID(roomID: uint8) returns (found: bool)
      ensures found <==> roomID in rooms
      ensures found <==> exists hash: Bytes :: |hash| == 32 && Admits(rooms, roomID, hash)
    {
      found := roomID in rooms;
      if found {
        ghost var stored := rooms[roomID].passwordHash;
        ghost var key: Bytes := if stored == [] then seq(32, _ => 0) else stored;
        assert |key| == 32 && Admits(rooms, roomID, key);
      }
    }

    method IsRoomProtected(roomID: uint8) returns (isProtected: bool)
      modifies this
      ensures rooms == Touched(old(rooms), roomID)
      ensures isProtected <==> roomID in old(rooms) && old(rooms)[roomID].Protected()
    {
      if roomID !in rooms { rooms := rooms[roomID := NO_ROOM]; }
      isProtected := |rooms[roomID].passwordHash| > 0;
    }

    /** memcpy and memcmp of 32 bytes.  For an unknown room, which the lookup inserts, and for an open one the bytes
        come from `behind`, which is what lies in memory behind the stored string; for a protected room, the only kind
        that the server asks about, the answer is whether a JOIN with the hash is admitted. */
    method CheckPasswordHash(roomID: uint8, hash: Bytes, behind: Bytes) returns (valid: bool)
      requires |hash| == 32 && |behind| == 32
      modifies this
      ensures rooms == Touched(old(rooms), roomID)
      ensures valid <==> (rooms[roomID].passwordHash + behind)[..32] == hash
      ensures roomID in old(rooms) && old(rooms)[roomID].Protected() ==> (valid <==> Admits(rooms, roomID, hash))
    {
      if roomID !in rooms { rooms := rooms[roomID := NO_ROOM]; }
      var roomHash := (rooms[roomID].passwordHash + behind)[..32];
      valid := true;
      for k := 0 to 32
        invariant valid <==> roomHash[..k] == hash[..k]
      {
        assert roomHash[..k + 1] == roomHash[..k] + [roomHash[k]] && hash[..k + 1] == hash[..k] + [hash[k]];
        if roomHash[k] != hash[k] { valid := false; }
      }
      assert roomHash[..32] == roomHash && hash[..32] == hash;
      assert rooms[roomID].Protected() ==> roomHash == rooms[roomID].passwordHash;
    }

    method GetRoomName(roomID: uint8) returns (name: Bytes)
      requires roomID in rooms
      ensures name == rooms[roomID].name
    {
      name := rooms[roomID].name;
    }
  }

  class Universe {
    var counter: uint64

    constructor ()
      ensures counter == 0
    {
      counter := 0;
    }

    method IncrementCounter()
      modifies this
      ensures counter == (old(counter) + 1) % TWO_64
    {
      counter := if counter == TWO_64 - 1 then 0 else counter + 1;
    }
  }
}
