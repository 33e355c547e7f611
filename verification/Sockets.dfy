// ClientSocket and the vector that holds the connected clients (src/server/Server.h, src/server/Server.cpp).
//
// SSL handles are numbered in the order of their creation and 0 is the null pointer, so "freed exactly once" is a
// statement about handles and not about addresses, which an allocator may use again.

module Sockets {
  import opened Bytes

  const INVALID_SOCKET := -1
  const NULL_SSL: nat := 0

  const UNKNOWN_NAME: Bytes := [0x3C, 0x75, 0x6E, 0x6B, 0x3E]

  datatype ClientSocket = ClientSocket(
    socket: int, ssl: nat, sslEnabled: bool,
    chatRoomJoined: bool, joinedChatRoomID: uint8,
    clientID: uint64, clientUsername: Bytes)

  /** What a move leaves behind. */
  const MOVED := ClientSocket(INVALID_SOCKET, NULL_SSL, false, false, 0, 0, UNKNOWN_NAME)

  /** SSL_new calls that succeeded, SSL_free calls and ::close calls so far. */
  datatype Ledger = Ledger(created: nat, freed: seq<nat>, closed: seq<int>) {
    function Free(ssl: nat): Ledger {
      if ssl == NULL_SSL then this else this.(freed := freed + [ssl])
    }

    function Close(socket: int): Ledger {
      this.(closed := closed + [socket])
    }

    /** operator= releases what the target owned. */
    function Release(target: ClientSocket): Ledger {
      var l := Free(target.ssl);
      if target.socket == INVALID_SOCKET then l else l.Close(target.socket)
    }

    /** Erasing an element from a vector: a target of move-assignments is released; the last element is destroyed. */
    function Erase(target: ClientSocket, last: bool): Ledger {
      if last then Free(target.ssl) else Release(target)
    }

    /** The vector's destructor. */
    function FreeAll(clients: seq<ClientSocket>): Ledger
      decreases |clients|
    {
      if |clients| == 0 then this else Free(clients[0].ssl).FreeAll(clients[1..])
    }
  }

  // ------------------------------------------------ ClientSocket::InitSSL

  /** How the TLS handshake ended: SSL_new failed, SSL_set_fd failed, SSL_accept failed or timed out, or success. */
  datatype Handshake = NewFailed | SetFdFailed | AcceptFailed | Accepted

  function InitSSL(client: ClientSocket, ledger: Ledger, handshake: Handshake): (ClientSocket, Ledger) {
    var ssl := ledger.created + 1;
    var created := ledger.(created := ssl);
    match handshake
    case NewFailed => (client.(ssl := NULL_SSL), ledger.Close(client.socket))
    case SetFdFailed => (client.(ssl := NULL_SSL), created.Free(ssl).Close(client.socket))
    case AcceptFailed => (client.(ssl := NULL_SSL, sslEnabled := false), created.Free(ssl))
    case Accepted => (client.(ssl := ssl, sslEnabled := true), created)
  }

  // ------------------------------------------------ std::vector<ClientSocket>

  class ClientVector {
    var slots: array<ClientSocket>
    var size: nat
    var ledger: Ledger

    ghost predicate Valid()
      reads this
    {
      size <= slots.Length
    }

    ghost function Contents(): (s: seq<ClientSocket>)
      reads this, slots
      requires Valid()
    {
      slots[..size]
    }

    constructor ()
      ensures Valid() && fresh(slots) && Contents() == [] && ledger == Ledger(0, [], [])
    {
      slots := new ClientSocket[0];
      size := 0;
      ledger := Ledger(0, [], []);
    }

    method DestroySlot(k: nat)
      requires k < slots.Length
      modifies this`ledger
      ensures ledger == old(ledger).Free(slots[k].ssl)
    {
      if slots[k].ssl != NULL_SSL { ledger := ledger.(freed := ledger.freed + [slots[k].ssl]); }
    }

    /** ClientSocket::operator=(ClientSocket &&) */
    method MoveAssign(dst: nat, src: nat)
      requires dst < slots.Length && src < slots.Length
      modifies this`ledger, slots
      ensures dst == src ==> ledger == old(ledger) && slots[dst] == old(slots[dst])
      ensures dst != src ==> ledger == old(ledger).Release(old(slots[dst]))
                             && slots[dst] == old(slots[src]) && slots[src] == MOVED
      ensures forall k :: 0 <= k < slots.Length && k != dst && k != src ==> slots[k] == old(slots[k])
    {
      if dst != src {
        if slots[dst].ssl != NULL_SSL { ledger := ledger.(freed := ledger.freed + [slots[dst].ssl]); }
        if slots[dst].socket != INVALID_SOCKET { ledger := ledger.(closed := ledger.closed + [slots[dst].socket]); }
        slots[dst] := slots[src];
        slots[src] := MOVED;
      }
    }

    /** push_back(std::move(client)), growing by move construction; `rest` is what remains of `client`. */
    method PushBack(client: ClientSocket) returns (rest: ClientSocket)
      requires Valid()
      modifies this, slots
      ensures Valid() && (slots == old(slots) || fresh(slots))
      ensures Contents() == old(Contents()) + [client] && rest == MOVED
      ensures ledger == old(ledger)
    {
      if size == slots.Length {
        var grown := new ClientSocket[if size == 0 then 1 else 2 * size];
        for k := 0 to size
          invariant fresh(grown) && size == old(size) < grown.Length && size <= slots.Length && slots == old(slots)
          invariant forall j :: 0 <= j < k ==> grown[j] == old(slots[j])
          invariant forall j :: k <= j < size ==> slots[j] == old(slots[j])
          invariant ledger == old(ledger)
        {
          grown[k] := slots[k];
          slots[k] := MOVED;
          DestroySlot(k);
        }
        slots := grown;
      }
      slots[size] := client;
      size := size + 1;
      rest := MOVED;
    }

    /** The move-assignments of an erase: every element behind the i-th moves one place down. */
    method ShiftDown(i: nat)
      requires Valid() && i < size
      modifies this`ledger, slots
      ensures forall k :: 0 <= k < i ==> slots[k] == old(slots[k])
      ensures forall k :: i <= k < size - 1 ==> slots[k] == old(slots[k + 1])
      ensures slots[size - 1] == if i == size - 1 then old(slots[i]) else MOVED
      ensures ledger == if i == size - 1 then old(ledger) else old(ledger).Release(old(slots[i]))
    {
      for j := i to size - 1
        invariant forall k :: 0 <= k < i ==> slots[k] == old(slots[k])
        invariant forall k :: i <= k < j ==> slots[k] == old(slots[k + 1])
        invariant slots[j] == if j == i then old(slots[i]) else MOVED
        invariant forall k :: j < k < size ==> slots[k] == old(slots[k])
        invariant ledger == if j == i then old(ledger) else old(ledger).Release(old(slots[i]))
      {
        MoveAssign(j, j + 1);
      }
    }

    /** erase: the elements behind the erased one are move-assigned one place down and the last one is destroyed. */
    method Erase(i: nat)
      requires Valid() && i < size
      modifies this`size, this`ledger, slots
      ensures Valid() && Contents() == RemoveAt(old(Contents()), i)
      ensures ledger == old(ledger).Erase(old(slots[i]), i == old(size) - 1)
    {
      ShiftDown(i);
      DestroySlot(size - 1);
      size := size - 1;
    }

    /** The destructor frees every handle still held. */
    method Destroy()
      requires Valid()
      modifies this
      ensures Valid() && Contents() == [] && ledger == old(ledger).FreeAll(old(Contents()))
    {
      for k := 0 to size
        invariant slots == old(slots) && size == old(size)
        invariant ledger.FreeAll(slots[k..size]) == old(ledger).FreeAll(old(Contents()))
      {
        assert slots[k..size][1..] == slots[k + 1..size];
        DestroySlot(k);
      }
      size := 0;
    }
  }
}
