// The client list: records written by the server and read back by the client.

module ClientList {
  import opened Bytes
  import opened Protocol

  datatype Entry = Entry(id: uint64, name: Bytes)

  // ------------------------------------------------ the server's side

  /** One record; the length field is a cast to uint16. */
  function EntryBytes(e: Entry): (b: Bytes)
    ensures |b| == 10 + |e.name|
  {
    BigEndian(e.id, 8) + BigEndian(|e.name| % 0x1_0000, 2) + e.name
  }

  function ListBytes(es: seq<Entry>): (b: Bytes)
    ensures |b| >= 10 * |es|
  {
    if |es| == 0 then [] else EntryBytes(es[0]) + ListBytes(es[1..])
  }

  lemma {:induction false} ListBytesConcat(a: seq<Entry>, b: seq<Entry>)
    ensures ListBytes(a + b) == ListBytes(a) + ListBytes(b)
  {
    if |a| == 0 {
      assert a + b == b;
    } else {
      ListBytesConcat(a[1..], b);
      assert (a + b)[1..] == a[1..] + b && (a + b)[0] == a[0];
      Associative(EntryBytes(a[0]), ListBytes(a[1..]), ListBytes(b));
    }
  }

  lemma ListBytesNext(es: seq<Entry>, k: nat)
    requires k < |es|
    ensures ListBytes(es[..k + 1]) == ListBytes(es[..k]) + EntryBytes(es[k])
  {
    assert es[..k + 1] == es[..k] + [es[k]];
    ListBytesConcat(es[..k], [es[k]]);
    assert ListBytes([es[k]]) == EntryBytes(es[k]);
  }

  /** The packet for a list of clients, or the refusal when it would be too long. */
  function ListPacket(es: seq<Entry>): (packet: Bytes)
    ensures |packet| <= BUFFER_SIZE
  {
    var error := if |es| > 0 then ERR_OK else ERR_NO_CLIENT_FOUND;
    if 3 + |ListBytes(es)| <= BUFFER_SIZE then Op(SMSG_CLIENT_LIST) + [error] + ListBytes(es)
    else Op(SMSG_CLIENT_LIST) + [ERR_TOO_MUCH_CLIENTS]
  }

  // ------------------------------------------------ the client's side

  /** The records from `offset` on, up to the first that is not complete. */
  function DecodeEntries(payload: Bytes, offset: nat): seq<Entry>
    decreases |payload| + 1 - offset
  {
    if offset >= |payload| || offset + 10 > |payload| then []
    else
      Ranges();
      var next := offset + 10 + FromBigEndian(payload[offset + 8..offset + 10]);
      if next > |payload| then []
      else
        [Entry(FromBigEndian(payload[offset..offset + 8]), payload[offset + 10..next])] + DecodeEntries(payload, next)
  }

  /** The error byte; memcpy from an empty std::string reads its terminating NUL. */
  function ErrorByte(payload: Bytes): uint8 {
    if |payload| == 0 then 0 else payload[0]
  }

  /** An empty payload is taken for a valid list of nobody. */
  lemma EmptyPayload()
    ensures ErrorByte([]) == ERR_OK && Decoded([]) == []
  {
  }

  function Decoded(payload: Bytes): seq<Entry> {
    if ErrorByte(payload) == ERR_OK then DecodeEntries(payload, 1) else []
  }

  /** The length of the name of the record at `offset`. */
  function NameLength(payload: Bytes, offset: nat): (n: nat)
    requires offset + 10 <= |payload|
  {
    FromBigEndian(payload[offset + 8..offset + 10])
  }

  /** Whether there is a complete record at `offset`. */
  predicate HasEntry(payload: Bytes, offset: nat) {
    offset + 10 <= |payload| && offset + 10 + NameLength(payload, offset) <= |payload|
  }

  /** At the end of the loop nothing more is read. */
  lemma NothingRead(payload: Bytes, offset: nat, before: seq<Entry>, all: seq<Entry>)
    requires !HasEntry(payload, offset) && before + DecodeEntries(payload, offset) == all
    ensures before == all
  {
  }

  /** One iteration of the loop reads the record at `offset`. */
  lemma EntryRead(payload: Bytes, offset: nat, next: nat, before: seq<Entry>, e: Entry, all: seq<Entry>)
    requires HasEntry(payload, offset) && next == offset + 10 + NameLength(payload, offset)
    requires e.id == FromBigEndian(payload[offset..offset + 8]) && e.name == payload[offset + 10..next]
    requires before + DecodeEntries(payload, offset) == all
    ensures (before + [e]) + DecodeEntries(payload, next) == all
  {
    Associative(before, [e], DecodeEntries(payload, next));
  }

  lemma IdBelow(b: Bytes)
    requires |b| == 8
    ensures FromBigEndian(b) < TWO_64
  {
    Ranges();
  }

  method DecodeClientList(payload: Bytes) returns (error: uint8, clientList: seq<Entry>)
    ensures error == ErrorByte(payload) && clientList == Decoded(payload)
  {
    error := if |payload| == 0 then 0 else payload[0];
    clientList := [];
    if error != ERR_OK { return; }
    var offset := 1;
    ghost var all := DecodeEntries(payload, 1);
    while offset < |payload|
      invariant clientList + DecodeEntries(payload, offset) == all
      decreases |payload| - offset
    {
      if offset + 8 + 2 > |payload| { break; }
      IdBelow(payload[offset..offset + 8]);
      var clientID: uint64 := FromBigEndian(payload[offset..offset + 8]);
      var usernameSize := FromBigEndian(payload[offset + 8..offset + 10]);
      var next := offset + 10 + usernameSize;
      if next > |payload| { break; }
      var entry := Entry(clientID, payload[offset + 10..next]);
      EntryRead(payload, offset, next, clientList, entry, all);
      clientList := clientList + [entry];
      offset := next;
    }
    NothingRead(payload, offset, clientList, all);
  }

  // ------------------------------------------------ round trip and truncation

  /** The records of `es` that lie wholly within the first `n` bytes. */
  function WhollyWithin(es: seq<Entry>, n: nat): seq<Entry>
    decreases |es|
  {
    if |es| == 0 || |EntryBytes(es[0])| > n then [] else [es[0]] + WhollyWithin(es[1..], n - |EntryBytes(es[0])|)
  }

  /** WhollyWithin is the longest prefix that fits. */
  lemma {:induction false} WhollyWithinIsLongest(es: seq<Entry>, n: nat, k: nat)
    requires k <= |es|
    ensures WhollyWithin(es, n) <= es && |ListBytes(WhollyWithin(es, n))| <= n
    ensures |ListBytes(es[..k])| <= n <==> k <= |WhollyWithin(es, n)|
    decreases |es|
  {
    if |es| > 0 {
      var first := |EntryBytes(es[0])|;
      if k > 0 {
        assert es[..k][1..] == es[1..][..k - 1] && es[..k][0] == es[0];
      }
      if first <= n {
        WhollyWithinIsLongest(es[1..], n - first, if k > 0 then k - 1 else 0);
        assert WhollyWithin(es, n)[1..] == WhollyWithin(es[1..], n - first);
        assert es == [es[0]] + es[1..];
      }
    }
  }

  predicate Lossless(es: seq<Entry>) {
    forall k :: 0 <= k < |es| ==> |es[k].name| < 0x1_0000
  }

  lemma EntryFields(e: Entry)
    requires |e.name| < 0x1_0000
    ensures var b := EntryBytes(e);
            b[0..8] == BigEndian(e.id, 8) && b[8..10] == BigEndian(|e.name|, 2) && b[10..|b|] == e.name
  {
    var id, length := BigEndian(e.id, 8), BigEndian(|e.name|, 2);
    assert EntryBytes(e) == id + length + e.name;
    ThreeParts(id, length, e.name);
  }

  lemma IdRead(id: uint64)
    ensures FromBigEndian(BigEndian(id, 8)) == id
  {
    Ranges();
    BigEndianRoundTrip(id, 8);
  }

  lemma LengthRead(n: uint16)
    ensures FromBigEndian(BigEndian(n, 2)) == n
  {
    Ranges();
    BigEndianRoundTrip(n, 2);
  }

  /** The fields of a record in the payload are slices of the record. */
  lemma FieldsInPayload(payload: Bytes, offset: nat, b: Bytes)
    requires 10 <= |b| && offset + |b| <= |payload| && payload[offset..offset + |b|] == b
    ensures payload[offset..offset + 8] == b[0..8]
    ensures payload[offset + 8..offset + 10] == b[8..10]
    ensures payload[offset + 10..offset + |b|] == b[10..|b|]
  {
    Subslice(payload, offset, offset + |b|, 0, 8);
    Subslice(payload, offset, offset + |b|, 8, 10);
    Subslice(payload, offset, offset + |b|, 10, |b|);
  }

  /** Reading one complete record. */
  lemma ReadEntry(payload: Bytes, offset: nat, e: Entry)
    requires |e.name| < 0x1_0000 && offset + |EntryBytes(e)| <= |payload|
    requires payload[offset..offset + |EntryBytes(e)|] == EntryBytes(e)
    ensures FromBigEndian(payload[offset..offset + 8]) == e.id
    ensures FromBigEndian(payload[offset + 8..offset + 10]) == |e.name|
    ensures payload[offset + 10..offset + |EntryBytes(e)|] == e.name
  {
    EntryFields(e);
    FieldsInPayload(payload, offset, EntryBytes(e));
    IdRead(e.id);
    LengthRead(|e.name|);
  }

  /** The length field of a record of which at least ten bytes are there. */
  lemma PartialLength(e: Entry, n: nat)
    requires |e.name| < 0x1_0000 && 10 <= n <= |EntryBytes(e)|
    ensures FromBigEndian(EntryBytes(e)[..n][8..10]) == |e.name|
  {
    EntryFields(e);
    Subslice(EntryBytes(e), 0, n, 8, 10);
    assert EntryBytes(e)[0..n] == EntryBytes(e)[..n];
    LengthRead(|e.name|);
  }

  /** An incomplete record is not read. */
  lemma PartialEntry(payload: Bytes, offset: nat, e: Entry)
    requires |e.name| < 0x1_0000 && offset <= |payload| < offset + |EntryBytes(e)|
    requires payload[offset..] == EntryBytes(e)[..|payload| - offset]
    ensures DecodeEntries(payload, offset) == []
  {
    if offset + 10 <= |payload| {
      PartialLength(e, |payload| - offset);
      assert payload[offset..][8..10] == payload[offset + 8..offset + 10];
    }
  }

  /** A complete record is read, and then the rest. */
  lemma CompleteEntry(payload: Bytes, offset: nat, next: nat, e: Entry)
    requires |e.name| < 0x1_0000 && next == offset + |EntryBytes(e)| <= |payload|
    requires payload[offset..next] == EntryBytes(e)
    ensures DecodeEntries(payload, offset) == [e] + DecodeEntries(payload, next)
  {
    ReadEntry(payload, offset, e);
  }

  lemma SliceOfCut(payload: Bytes, offset: nat, a: Bytes, b: Bytes, all: Bytes)
    requires offset <= |payload| && payload[offset..] <= all && a + b <= all && offset + |a| <= |payload|
    ensures if offset + |a| + |b| <= |payload| then payload[offset + |a|..offset + |a| + |b|] == b
            else payload[offset + |a|..] == b[..|payload| - offset - |a|]
  {
    var end := if offset + |a| + |b| <= |payload| then offset + |a| + |b| else |payload|;
    forall j | offset + |a| <= j < end ensures payload[j] == b[j - offset - |a|] {
      assert payload[j] == payload[offset..][j - offset] == all[j - offset] == (a + b)[j - offset];
    }
  }

  lemma ListPrefix(es: seq<Entry>, k: nat)
    requires k <= |es|
    ensures ListBytes(es[..k]) <= ListBytes(es)
  {
    assert es == es[..k] + es[k..];
    ListBytesConcat(es[..k], es[k..]);
  }

  /** Where the j-th record of a list begins in a payload. */
  function Start(offset: nat, es: seq<Entry>, j: nat): nat
    requires j <= |es|
  {
    offset + |ListBytes(es[..j])|
  }

  /** The bytes of the k-th record of a list that is cut somewhere. */
  lemma BytesOfCut(payload: Bytes, offset: nat, es: seq<Entry>, k: nat)
    requires k < |es| && offset <= |payload| && payload[offset..] <= ListBytes(es) && Start(offset, es, k) <= |payload|
    ensures var at, next := Start(offset, es, k), Start(offset, es, k + 1);
            && next == at + |EntryBytes(es[k])|
            && if next <= |payload| then payload[at..next] == EntryBytes(es[k])
               else payload[at..] == EntryBytes(es[k])[..|payload| - at]
  {
    ListBytesNext(es, k);
    ListPrefix(es, k + 1);
    SliceOfCut(payload, offset, ListBytes(es[..k]), EntryBytes(es[k]), ListBytes(es));
  }

  /** It is read if it is complete, and reading ends there if not. */
  lemma RecordOfCut(payload: Bytes, offset: nat, es: seq<Entry>, k: nat)
    requires Lossless(es) && k < |es| && offset <= |payload| && payload[offset..] <= ListBytes(es)
    requires Start(offset, es, k) <= |payload|
    ensures var at, next := Start(offset, es, k), Start(offset, es, k + 1);
            DecodeEntries(payload, at) == if next <= |payload| then [es[k]] + DecodeEntries(payload, next) else []
  {
    var at, next := Start(offset, es, k), Start(offset, es, k + 1);
    BytesOfCut(payload, offset, es, k);
    if next <= |payload| {
      CompleteEntry(payload, at, next, es[k]);
    } else {
      PartialEntry(payload, at, es[k]);
    }
  }

  lemma StartsOrdered(offset: nat, es: seq<Entry>, j: nat, k: nat)
    requires j <= k <= |es|
    ensures Start(offset, es, j) <= Start(offset, es, k)
  {
    ListPrefix(es[..k], j);
    assert es[..k][..j] == es[..j];
  }

  /** The j-th record begins at starts[j], and all but what follows the last of them are read. */
  ghost predicate Chain(payload: Bytes, starts: seq<nat>, es: seq<Entry>) {
    && |starts| == |es| + 1
    && (forall j :: 0 <= j < |es| ==>
          DecodeEntries(payload, starts[j]) == [es[j]] + DecodeEntries(payload, starts[j + 1]))
    && DecodeEntries(payload, starts[|es|]) == []
  }

  lemma {:induction false} ChainIsRead(payload: Bytes, starts: seq<nat>, es: seq<Entry>)
    requires Chain(payload, starts, es)
    ensures DecodeEntries(payload, starts[0]) == es
    decreases |es|
  {
    if |es| > 0 {
      assert Chain(payload, starts[1..], es[1..]);
      ChainIsRead(payload, starts[1..], es[1..]);
      assert es == [es[0]] + es[1..];
    }
  }

  lemma StepOfCut(payload: Bytes, offset: nat, es: seq<Entry>, k: nat, j: nat)
    requires Lossless(es) && j < k <= |es| && Start(offset, es, k) <= |payload| && payload[offset..] <= ListBytes(es)
    ensures DecodeEntries(payload, Start(offset, es, j)) == [es[j]] + DecodeEntries(payload, Start(offset, es, j + 1))
  {
    StartsOrdered(offset, es, j, k);
    StartsOrdered(offset, es, j + 1, k);
    RecordOfCut(payload, offset, es, j);
  }

  lemma EndOfCut(payload: Bytes, offset: nat, es: seq<Entry>, k: nat)
    requires Lossless(es) && k <= |es| && Start(offset, es, k) <= |payload| && payload[offset..] <= ListBytes(es)
    requires k < |es| ==> Start(offset, es, k + 1) > |payload|
    ensures DecodeEntries(payload, Start(offset, es, k)) == []
  {
    if k < |es| {
      RecordOfCut(payload, offset, es, k);
    } else {
      assert es[..k] == es;
    }
  }

  function Starts(offset: nat, es: seq<Entry>, k: nat): (starts: seq<nat>)
    requires k <= |es|
    ensures |starts| == k + 1 && forall j :: 0 <= j <= k ==> starts[j] == Start(offset, es, j)
  {
    seq(k + 1, j requires 0 <= j <= k => Start(offset, es, j))
  }

  /** What is read when the list is cut behind the k-th record. */
  lemma ReadUntilCut(payload: Bytes, offset: nat, es: seq<Entry>, k: nat)
    requires Lossless(es) && k <= |es| && Start(offset, es, k) <= |payload| && payload[offset..] <= ListBytes(es)
    requires k < |es| ==> Start(offset, es, k + 1) > |payload|
    ensures DecodeEntries(payload, offset) == es[..k]
  {
    var starts := Starts(offset, es, k);
    forall j | 0 <= j < k
      ensures DecodeEntries(payload, starts[j]) == [es[..k][j]] + DecodeEntries(payload, starts[j + 1])
    {
      StepOfCut(payload, offset, es, k, j);
    }
    EndOfCut(payload, offset, es, k);
    ChainIsRead(payload, starts, es[..k]);
    assert es[..0] == [];
  }

  /** How many records lie wholly within the first `n` bytes. */
  lemma CutPosition(es: seq<Entry>, n: nat) returns (k: nat)
    ensures k <= |es| && WhollyWithin(es, n) == es[..k] && |ListBytes(es[..k])| <= n
    ensures k < |es| ==> |ListBytes(es[..k + 1])| > n
  {
    k := |WhollyWithin(es, n)|;
    WhollyWithinIsLongest(es, n, 0);
    if k < |es| { WhollyWithinIsLongest(es, n, k + 1); }
  }

  lemma DecodeTruncated(payload: Bytes, offset: nat, es: seq<Entry>)
    requires Lossless(es) && offset <= |payload| && payload[offset..] <= ListBytes(es)
    ensures DecodeEntries(payload, offset) == WhollyWithin(es, |payload| - offset)
  {
    var k := CutPosition(es, |payload| - offset);
    ReadUntilCut(payload, offset, es, k);
  }

  /** Truncation tolerance: of a list packet cut anywhere behind its error byte, the client reads exactly the
      records that are complete. */
  lemma TruncationTolerance(es: seq<Entry>, n: nat)
    requires Lossless(es) && |es| > 0 && 3 + |ListBytes(es)| <= BUFFER_SIZE && 3 <= n <= |ListPacket(es)|
    ensures Decoded(ListPacket(es)[..n][2..]) == WhollyWithin(es, n - 3)
  {
    var payload := ListPacket(es)[..n][2..];
    assert payload[1..] == ListBytes(es)[..n - 3];
    DecodeTruncated(payload, 1, es);
  }

  lemma {:induction false} CapIsLossless(es: seq<Entry>)
    requires |ListBytes(es)| < 0x1_0000
    ensures Lossless(es)
  {
    if |es| > 0 {
      CapIsLossless(es[1..]);
      assert forall k :: 0 < k < |es| ==> es[k] == es[1..][k - 1];
    }
  }

  lemma {:induction false} WholeListWithin(es: seq<Entry>)
    ensures WhollyWithin(es, |ListBytes(es)|) == es
  {
    if |es| > 0 {
      WholeListWithin(es[1..]);
      assert es == [es[0]] + es[1..];
    }
  }

  /** Round trip: within the cap the client recovers exactly the server's list, and the length cast loses nothing;
      above the cap the packet is just the refusal, which the client reads as an error without records. */
  lemma ListRoundTrip(es: seq<Entry>)
    ensures |es| > 0 && 3 + |ListBytes(es)| <= BUFFER_SIZE ==>
              Lossless(es) && ErrorByte(ListPacket(es)[2..]) == ERR_OK && Decoded(ListPacket(es)[2..]) == es
    ensures 3 + |ListBytes(es)| > BUFFER_SIZE ==>
              ListPacket(es)[2..] == [ERR_TOO_MUCH_CLIENTS] && Decoded(ListPacket(es)[2..]) == []
  {
    if |es| > 0 && 3 + |ListBytes(es)| <= BUFFER_SIZE {
      CapIsLossless(es);
      TruncationTolerance(es, |ListPacket(es)|);
      WholeListWithin(es);
      assert ListPacket(es)[..|ListPacket(es)|] == ListPacket(es);
    }
  }

  /** On arbitrary bytes: what the client shows, encoded again, is a prefix of what it received. */
  lemma {:induction false} DecodedIsPrefix(payload: Bytes, offset: nat)
    requires offset <= |payload|
    ensures ListBytes(DecodeEntries(payload, offset)) <= payload[offset..]
    decreases |payload| - offset
  {
    var es := DecodeEntries(payload, offset);
    if es != [] {
      Ranges();
      var next := offset + 10 + FromBigEndian(payload[offset + 8..offset + 10]);
      DecodedIsPrefix(payload, next);
      EntryIsSlice(payload, offset, next, es[0]);
      assert es[1..] == DecodeEntries(payload, next);
      assert payload[offset..] == payload[offset..next] + payload[next..];
    }
  }

  lemma EntryIsSlice(payload: Bytes, offset: nat, next: nat, e: Entry)
    requires offset + 10 <= next <= |payload|
    requires e.id == FromBigEndian(payload[offset..offset + 8]) && e.name == payload[offset + 10..next]
    requires |e.name| == FromBigEndian(payload[offset + 8..offset + 10])
    ensures EntryBytes(e) == payload[offset..next]
  {
    var id, length := payload[offset..offset + 8], payload[offset + 8..offset + 10];
    EntryWritten(id, length, e);
    SplitSlice(payload, offset, offset + 8, offset + 10);
    SplitSlice(payload, offset, offset + 10, next);
  }

  /** A record whose fields were read from bytes is written as these bytes. */
  lemma EntryWritten(id: Bytes, length: Bytes, e: Entry)
    requires |id| == 8 && |length| == 2 && e.id == FromBigEndian(id) && |e.name| == FromBigEndian(length)
    ensures EntryBytes(e) == id + length + e.name
  {
    IdWritten(id, e.id);
    LengthWritten(length, |e.name|);
  }

  lemma IdWritten(b: Bytes, id: uint64)
    requires |b| == 8 && id == FromBigEndian(b)
    ensures BigEndian(id, 8) == b
  {
    FromBigEndianRoundTrip(b);
  }

  lemma LengthWritten(b: Bytes, n: nat)
    requires |b| == 2 && n == FromBigEndian(b)
    ensures BigEndian(n % 0x1_0000, 2) == b
  {
    Ranges();
    FromBigEndianRoundTrip(b);
  }
}
