// src/common/NumParser: the ten-way Number variant and its tagged little-endian codec.

module Numbers {
  import opened Bytes
  import opened Binary64

  /** std::variant of NumParser.h; a float or double is carried as its bits. */
  datatype Number =
    | Int8(i8: int8) | UInt8(u8: uint8)
    | Int16(i16: int16) | UInt16(u16: uint16)
    | Int32(i32: int32) | UInt32(u32: uint32)
    | Int64(i64: int64) | UInt64(u64: uint64)
    | Float(bits32: uint32) | Double(bits64: uint64)
  {
    predicate IsInteger() { !Float? && !Double? }

    predicate IsUnsignedInteger() { UInt8? || UInt16? || UInt32? || UInt64? }

    /** The mathematical value of an integer number. */
    function Value(): int
      requires IsInteger()
    {
      match this
      case Int8(v) => v case UInt8(v) => v
      case Int16(v) => v case UInt16(v) => v
      case Int32(v) => v case UInt32(v) => v
      case Int64(v) => v case UInt64(v) => v
    }
  }

  const N_UNK: uint8 := 10

  function GetNumberType(n: Number): (t: uint8)
    ensures t < N_UNK
  {
    match n
    case Int8(_) => 0 case UInt8(_) => 1
    case Int16(_) => 2 case UInt16(_) => 3
    case Int32(_) => 4 case UInt32(_) => 5
    case Int64(_) => 6 case UInt64(_) => 7
    case Float(_) => 8 case Double(_) => 9
  }

  function SizeOf(t: uint8): (size: nat)
    requires t < N_UNK
    ensures 1 <= size <= 8
  {
    if t < 2 then 1 else if t < 4 then 2 else if t < 6 || t == 8 then 4 else 8
  }

  /** The bits of a number, read as an unsigned integer of the same size. */
  function Raw(n: Number): (u: nat)
    ensures u < Range(SizeOf(GetNumberType(n)))
  {
    Ranges();
    match n
    case Int8(v) => Unsigned(v, 1) case UInt8(v) => v
    case Int16(v) => Unsigned(v, 2) case UInt16(v) => v
    case Int32(v) => Unsigned(v, 4) case UInt32(v) => v
    case Int64(v) => Unsigned(v, 8) case UInt64(v) => v
    case Float(bits) => bits case Double(bits) => bits
  }

  /** The host bytes of a number. */
  function NumberBytes(n: Number): (b: Bytes)
    ensures |b| == SizeOf(GetNumberType(n))
  {
    LittleEndian(Raw(n), SizeOf(GetNumberType(n)))
  }

  /** The number of type `t` with the given bits. */
  function FromRaw(t: uint8, u: nat): (n: Number)
    requires t < N_UNK && u < Range(SizeOf(t))
    ensures GetNumberType(n) == t && Raw(n) == u
  {
    Ranges();
    if t == 0 then Int8(Signed(u, 1)) else if t == 1 then UInt8(u)
    else if t == 2 then Int16(Signed(u, 2)) else if t == 3 then UInt16(u)
    else if t == 4 then Int32(Signed(u, 4)) else if t == 5 then UInt32(u)
    else if t == 6 then Int64(Signed(u, 8)) else if t == 7 then UInt64(u)
    else if t == 8 then Float(u) else Double(u)
  }

  /** The number of type `t` with the given host bytes. */
  function NumberOf(t: uint8, raw: Bytes): (n: Number)
    requires t < N_UNK && |raw| == SizeOf(t)
    ensures GetNumberType(n) == t
  {
    FromRaw(t, FromLittleEndian(raw))
  }

  lemma NumberRoundTrip(n: Number)
    ensures NumberOf(GetNumberType(n), NumberBytes(n)) == n
  {
    Ranges();
    LittleEndianRoundTrip(Raw(n), SizeOf(GetNumberType(n)));
    assert FromRaw(GetNumberType(n), Raw(n)) == n;
  }

  lemma BytesRoundTrip(t: uint8, raw: Bytes)
    requires t < N_UNK && |raw| == SizeOf(t)
    ensures NumberBytes(NumberOf(t, raw)) == raw
  {
    FromLittleEndianRoundTrip(raw);
  }

  // ------------------------------------------------ append_number and read_number

  /** What is appended is what ReadNumber needs to get the number back. */
  method AppendNumber(reply: Bytes, n: Number) returns (reply': Bytes)
    ensures reply' == reply + NumberBytes(n)
    ensures reply <= reply' && NumberOf(GetNumberType(n), reply'[|reply|..]) == n
  {
    reply' := reply + NumberBytes(n);
    NumberRoundTrip(n);
    assert reply'[|reply|..] == NumberBytes(n);
  }

  /** read_number: `None` stands for the std::runtime_error thrown on an unknown type. */
  method ReadNumber(memory: Bytes, offset: nat, t: uint8) returns (r: Option<Number>, offset': nat)
    requires offset + 8 <= |memory|
    ensures r.None? <==> t >= N_UNK
    ensures r.None? ==> offset' == offset
    ensures r.Some? ==> GetNumberType(r.value) == t && offset' == offset + SizeOf(t)
                        && memory[offset..offset'] == NumberBytes(r.value)
  {
    if t >= N_UNK { return None, offset; }
    var raw := memory[offset..offset + SizeOf(t)];
    BytesRoundTrip(t, raw);
    return Some(NumberOf(t, raw)), offset + SizeOf(t);
  }

  // ------------------------------------------------ sequences of tagged numbers

  function Record(n: Number): (b: Bytes)
    ensures 2 <= |b| <= 9
  {
    [GetNumberType(n)] + NumberBytes(n)
  }

  function Encode(ns: seq<Number>): (b: Bytes)
    ensures |b| >= 2 * |ns|
  {
    if |ns| == 0 then [] else Record(ns[0]) + Encode(ns[1..])
  }

  /** An example of the layout: type codes, two's complement, least byte first. */
  lemma EncodeExample()
    ensures Encode([Int8(-1), UInt16(0x0102), Float(0x3F80_0000)])
         == [0x00, 0xFF] + [0x03, 0x02, 0x01] + [0x08, 0x00, 0x00, 0x80, 0x3F]
  {
    var a, b, c := Int8(-1), UInt16(0x0102), Float(0x3F80_0000);
    Ranges();
    assert Record(a) == [0x00, 0xFF] by { assert LittleEndian(0xFF, 1) == [0xFF] + LittleEndian(0, 0); }
    assert Record(b) == [0x03, 0x02, 0x01] by {
      assert LittleEndian(0x0102, 2) == [0x02] + LittleEndian(0x01, 1);
      assert LittleEndian(0x01, 1) == [0x01] + LittleEndian(0, 0);
    }
    assert Record(c) == [0x08, 0x00, 0x00, 0x80, 0x3F] by {
      assert LittleEndian(0x3F80_0000, 4) == [0x00] + LittleEndian(0x3F_8000, 3);
      assert LittleEndian(0x3F_8000, 3) == [0x00] + LittleEndian(0x3F80, 2);
      assert LittleEndian(0x3F80, 2) == [0x80] + LittleEndian(0x3F, 1);
      assert LittleEndian(0x3F, 1) == [0x3F] + LittleEndian(0, 0);
    }
    assert [a, b, c][1..] == [b, c] && [b, c][1..] == [c] && [c][1..] == [];
  }

  lemma {:induction false} EncodeConcat(a: seq<Number>, b: seq<Number>)
    ensures Encode(a + b) == Encode(a) + Encode(b)
  {
    if |a| == 0 {
      assert a + b == b;
    } else {
      EncodeConcat(a[1..], b);
      assert (a + b)[1..] == a[1..] + b && (a + b)[0] == a[0];
      var head, tail, rest := Record(a[0]), Encode(a[1..]), Encode(b);
      assert Encode(a) == head + tail;
      assert Encode(a + b) == head + (tail + rest);
      Associative(head, tail, rest);
    }
  }

  /** What the decode loop reads: all numbers and the final offset, or None when it meets an unknown type. */
  function ReadAll(memory: Bytes, offset: nat, size: nat): Option<(seq<Number>, nat)>
    requires size + 8 <= |memory|
    decreases size + 9 - offset
  {
    if offset >= size then Some(([], offset))
    else
      var t := memory[offset];
      if t >= N_UNK then None
      else
        var next := offset + 1 + SizeOf(t);
        match ReadAll(memory, next, size)
        case None => None
        case Some((ns, end)) => Some(([NumberOf(t, memory[offset + 1..next])] + ns, end))
  }

  lemma ReadRecord(memory: Bytes, offset: nat, n: Number)
    requires offset + |Record(n)| <= |memory|
    requires memory[offset..offset + |Record(n)|] == Record(n)
    ensures memory[offset] == GetNumberType(n)
    ensures NumberOf(GetNumberType(n), memory[offset + 1..offset + |Record(n)|]) == n
  {
    var r := Record(n);
    Subslice(memory, offset, offset + |r|, 1, |r|);
    assert memory[offset] == memory[offset..offset + |r|][0];
    assert r[1..] == NumberBytes(n);
    NumberRoundTrip(n);
  }

  /** A record followed by `tail` is read, and `tail` follows. */
  lemma RecordThenTail(memory: Bytes, offset: nat, n: Number, tail: Bytes)
    requires offset + |Record(n)| + |tail| <= |memory|
    requires memory[offset..offset + |Record(n)| + |tail|] == Record(n) + tail
    ensures var next := offset + |Record(n)|;
            && memory[offset] == GetNumberType(n) && NumberOf(GetNumberType(n), memory[offset + 1..next]) == n
            && memory[next..next + |tail|] == tail
  {
    CutConcat(memory, offset, Record(n), tail);
    ReadRecord(memory, offset, n);
  }

  /** Reading what was encoded returns the same numbers with the same types and consumes exactly their bytes,
      whatever lies before and after. */
  lemma {:induction false} DecodeEncoded(memory: Bytes, offset: nat, ns: seq<Number>)
    requires offset + |Encode(ns)| + 8 <= |memory|
    requires memory[offset..offset + |Encode(ns)|] == Encode(ns)
    ensures ReadAll(memory, offset, offset + |Encode(ns)|) == Some((ns, offset + |Encode(ns)|))
  {
    DecodeUntil(memory, offset, ns, offset + |Encode(ns)|);
  }

  lemma {:induction false} DecodeUntil(memory: Bytes, offset: nat, ns: seq<Number>, end: nat)
    requires end == offset + |Encode(ns)| && end + 8 <= |memory| && memory[offset..end] == Encode(ns)
    ensures ReadAll(memory, offset, end) == Some((ns, end))
    decreases |ns|
  {
    if |ns| > 0 {
      assert Encode(ns) == Record(ns[0]) + Encode(ns[1..]);
      RecordThenTail(memory, offset, ns[0], Encode(ns[1..]));
      DecodeUntil(memory, offset + |Record(ns[0])|, ns[1..], end);
      assert [ns[0]] + ns[1..] == ns;
    }
  }

  /** `b` is a concatenation of records. */
  ghost predicate IsEncoding(b: Bytes) {
    exists ns :: b == Encode(ns)
  }

  /** The decode loop on arbitrary bytes: it overshoots the payload by at most eight bytes, and it ends exactly at
      the end of the payload if and only if the payload is a concatenation of records, namely of what was read. */
  lemma {:induction false} DecodeArbitrary(memory: Bytes, offset: nat, size: nat)
    requires offset <= size && size + 8 <= |memory|
    ensures ReadAll(memory, offset, size).Some? ==>
              var (ns, end) := ReadAll(memory, offset, size).value;
              size <= end <= size + 8 && memory[offset..end] == Encode(ns)
    ensures IsEncoding(memory[offset..size]) <==>
             ReadAll(memory, offset, size).Some? && ReadAll(memory, offset, size).value.1 == size
    decreases size + 9 - offset
  {
    ReadIsEncoded(memory, offset, size);
    if IsEncoding(memory[offset..size]) {
      var ns :| memory[offset..size] == Encode(ns);
      DecodeEncoded(memory, offset, ns);
    }
  }

  lemma {:induction false} ReadIsEncoded(memory: Bytes, offset: nat, size: nat)
    requires offset <= size + 8 && size + 8 <= |memory|
    ensures ReadAll(memory, offset, size).Some? ==>
              var (ns, end) := ReadAll(memory, offset, size).value;
              offset <= end && (offset <= size ==> size <= end) && end <= size + 8 && memory[offset..end] == Encode(ns)
    decreases size + 9 - offset
  {
    if offset < size && memory[offset] < N_UNK {
      var t := memory[offset];
      var next := offset + 1 + SizeOf(t);
      ReadIsEncoded(memory, next, size);
      if ReadAll(memory, offset, size).Some? {
        var (ns, end) := ReadAll(memory, next, size).value;
        var n := NumberOf(t, memory[offset + 1..next]);
        BytesRoundTrip(t, memory[offset + 1..next]);
        assert ([n] + ns)[1..] == ns;
        SplitSlice(memory, offset, next, end);
        SplitSlice(memory, offset, offset + 1, next);
        assert memory[offset..offset + 1] == [t];
      }
    }
  }

  /** Complete records up to a position inside the payload where the type is unknown. */
  ghost predicate UnknownAfter(memory: Bytes, offset: nat, size: nat, ns: seq<Number>) {
    var at := offset + |Encode(ns)|;
    at < size <= |memory| && memory[offset..at] == Encode(ns) && memory[at] >= N_UNK
  }

  /** Exactly when the decode loop throws. */
  lemma FailsIff(memory: Bytes, offset: nat, size: nat)
    requires size + 8 <= |memory|
    ensures ReadAll(memory, offset, size).None? <==> exists ns :: UnknownAfter(memory, offset, size, ns)
  {
    if ReadAll(memory, offset, size).None? {
      var ns := UnknownFound(memory, offset, size);
    }
    forall ns | UnknownAfter(memory, offset, size, ns) ensures ReadAll(memory, offset, size).None? {
      UnknownFails(memory, offset, size, ns);
    }
  }

  lemma {:induction false} UnknownFound(memory: Bytes, offset: nat, size: nat) returns (ns: seq<Number>)
    requires size + 8 <= |memory| && ReadAll(memory, offset, size).None?
    ensures UnknownAfter(memory, offset, size, ns)
    decreases size + 9 - offset
  {
    var t := memory[offset];
    if t >= N_UNK {
      ns := [];
    } else {
      var next := offset + 1 + SizeOf(t);
      var n := NumberOf(t, memory[offset + 1..next]);
      var rest := UnknownFound(memory, next, size);
      BytesRoundTrip(t, memory[offset + 1..next]);
      ns := [n] + rest;
      assert ns[1..] == rest;
      var at := next + |Encode(rest)|;
      SplitSlice(memory, offset, next, at);
      SplitSlice(memory, offset, offset + 1, next);
      assert memory[offset..offset + 1] == [t];
    }
  }

  lemma {:induction false} UnknownFails(memory: Bytes, offset: nat, size: nat, ns: seq<Number>)
    requires size + 8 <= |memory| && UnknownAfter(memory, offset, size, ns)
    ensures ReadAll(memory, offset, size).None?
    decreases |ns|
  {
    if |ns| > 0 {
      assert Encode(ns) == Record(ns[0]) + Encode(ns[1..]);
      RecordThenTail(memory, offset, ns[0], Encode(ns[1..]));
      UnknownFails(memory, offset + |Record(ns[0])|, size, ns[1..]);
    }
  }

  lemma SliceOfPrefix(a: Bytes, b: Bytes, n: nat, i: nat, j: nat)
    requires i <= j <= n && n <= |a| && n <= |b| && a[..n] == b[..n]
    ensures a[i..j] == b[i..j]
  {
    assert a[..n][i..j] == a[i..j] && b[..n][i..j] == b[i..j];
  }

  /** No byte at or beyond size + 8 matters to the loop. */
  lemma {:induction false} ReadsOnlyBelow(a: Bytes, b: Bytes, offset: nat, size: nat)
    requires size + 8 <= |a| && size + 8 <= |b|
    requires a[..size + 8] == b[..size + 8]
    ensures ReadAll(a, offset, size) == ReadAll(b, offset, size)
    decreases size + 9 - offset
  {
    if offset < size {
      assert a[offset] == a[..size + 8][offset] == b[offset];
      if a[offset] < N_UNK {
        var next := offset + 1 + SizeOf(a[offset]);
        SliceOfPrefix(a, b, size + 8, offset + 1, next);
        ReadsOnlyBelow(a, b, next, size);
      }
    }
  }

  lemma EncodeInjective(a: seq<Number>, b: seq<Number>)
    requires Encode(a) == Encode(b)
    ensures a == b
  {
    var code := Encode(a);
    var memory := code + seq(8, _ => 0);
    assert memory[0..|code|] == code;
    DecodeEncoded(memory, 0, a);
    DecodeEncoded(memory, 0, b);
  }
}
