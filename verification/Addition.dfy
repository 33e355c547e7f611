// The addition request: the client's packet, and the sum the server computes from it in double precision.

module Addition {
  import opened Bytes
  import opened Binary64
  import opened Numbers
  import opened Protocol

  // ------------------------------------------------ Client::sendAdditionRequest

  /** The packet for `ns`, or None when the client declines to send it. */
  function AdditionPacket(ns: seq<Number>): Option<Bytes> {
    var packet := Op(CMSG_ADDITION_REQUEST) + Encode(ns);
    if |ns| < 2 || |packet| > BUFFER_SIZE then None else Some(packet)
  }

  lemma EncodeOne(n: Number)
    ensures Encode([n]) == [GetNumberType(n)] + NumberBytes(n)
  {
    assert Encode([n]) == Record(n) + Encode([]);
  }

  /** One more number in the packet. */
  lemma PacketNext(packet: Bytes, ns: seq<Number>, i: nat)
    requires i < |ns| && packet == Op(CMSG_ADDITION_REQUEST) + Encode(ns[..i])
    ensures (packet + [GetNumberType(ns[i])]) + NumberBytes(ns[i]) == Op(CMSG_ADDITION_REQUEST) + Encode(ns[..i + 1])
  {
    var opcode, before := Op(CMSG_ADDITION_REQUEST), Encode(ns[..i]);
    assert ns[..i + 1] == ns[..i] + [ns[i]];
    EncodeConcat(ns[..i], [ns[i]]);
    EncodeOne(ns[i]);
    FourParts(opcode, before, [GetNumberType(ns[i])], NumberBytes(ns[i]));
  }

  lemma FourParts(a: Bytes, b: Bytes, c: Bytes, d: Bytes)
    ensures ((a + b) + c) + d == a + (b + (c + d))
  {
  }

  /** The bytes that a request for `ns` takes behind the opcode: a type byte and the value for each number. */
  function RecordsSize(ns: seq<Number>): nat {
    if |ns| == 0 then 0
    else RecordsSize(ns[1..]) + 1 + match ns[0]
                                    case Int8(_) => 1 case UInt8(_) => 1
                                    case Int16(_) => 2 case UInt16(_) => 2
                                    case Int32(_) => 4 case UInt32(_) => 4
                                    case Int64(_) => 8 case UInt64(_) => 8
                                    case Float(_) => 4 case Double(_) => 8
  }

  lemma {:induction false} EncodeSize(ns: seq<Number>)
    ensures |Encode(ns)| == RecordsSize(ns) && 2 * |ns| <= RecordsSize(ns) <= 9 * |ns|
  {
    if |ns| > 0 { EncodeSize(ns[1..]); }
  }

  /** Exactly which requests are sent; all with 2 to 454 numbers are. */
  lemma SentIff(ns: seq<Number>)
    ensures AdditionPacket(ns).Some? <==> |ns| >= 2 && 2 + RecordsSize(ns) <= 4096
    ensures 2 <= |ns| <= 454 ==> AdditionPacket(ns).Some?
    ensures AdditionPacket(ns).Some? ==> AdditionPacket(ns).value == [0x00, 0x02] + Encode(ns)
  {
    EncodeSize(ns);
  }

  method SendAdditionRequest(ns: seq<Number>) returns (sent: Option<Bytes>)
    ensures sent == AdditionPacket(ns)
    ensures sent.Some? <==> |ns| >= 2 && 2 + RecordsSize(ns) <= 4096
    ensures sent.Some? ==> sent.value == [0x00, 0x02] + Encode(ns)
  {
    SentIff(ns);
    if |ns| < 2 { return None; }
    var packet := Op(CMSG_ADDITION_REQUEST);
    for i := 0 to |ns|
      invariant packet == Op(CMSG_ADDITION_REQUEST) + Encode(ns[..i])
    {
      PacketNext(packet, ns, i);
      packet := packet + [GetNumberType(ns[i])];
      packet := AppendNumber(packet, ns[i]);
    }
    assert ns[..|ns|] == ns;
    if |packet| > BUFFER_SIZE { return None; }
    return Some(packet);
  }

  // ------------------------------------------------ Server::CallHandlerAdd

  function ToDouble(f: Format, n: Number): Double {
    if n.Float? then FromBits32(f, n.bits32)
    else if n.Double? then FromBits64(n.bits64)
    else FromInteger(f, n.Value())
  }

  /** The running sum, left to right. */
  function SumFrom(f: Format, sum: Double, ns: seq<Number>): Double
    decreases |ns|
  {
    if |ns| == 0 then sum else SumFrom(f, Add(f, sum, ToDouble(f, ns[0])), ns[1..])
  }

  function Sum(ns: seq<Number>): Double {
    SumFrom(BINARY64, Finite(0), ns)
  }

  /** The decode loop from `offset` on with the partial sum `sum`; None when read_number throws. */
  function AddLoop(memory: Bytes, offset: nat, size: nat, sum: Double): Option<Double>
    requires size + 8 <= |memory|
  {
    match ReadAll(memory, offset, size)
    case None => None
    case Some((ns, _)) => Some(SumFrom(BINARY64, sum, ns))
  }

  // ------------------------------------------------ sums of integers

  predicate AllIntegers(ns: seq<Number>) {
    forall n <- ns :: n.IsInteger()
  }

  /** The exact sum. */
  function ExactSum(ns: seq<Number>): int
    requires AllIntegers(ns)
  {
    if |ns| == 0 then 0 else ns[0].Value() + ExactSum(ns[1..])
  }

  function AbsoluteSum(ns: seq<Number>): nat
    requires AllIntegers(ns)
  {
    if |ns| == 0 then 0 else Abs(ns[0].Value()) + AbsoluteSum(ns[1..])
  }

  /** SumFrom on integers, in units of one. */
  function IntegerSumFrom(sum: int, ns: seq<Number>): int
    requires AllIntegers(ns)
    decreases |ns|
  {
    if |ns| == 0 then sum else IntegerSumFrom(Round(sum + Round(ns[0].Value())), ns[1..])
  }

  const TWO_21 := 0x20_0000
  const TWO_10 := 0x400

  /** The errors of one step of the sum: a 64-bit integer is added to a partial sum below 2^75 - 2^64. */
  lemma OneError(sum: int, v: int)
    requires Abs(sum) < 2047 * TWO_64 && Abs(v) < TWO_64
    ensures Abs(Round(v) - v) <= TWO_10 && Abs(Round(v)) <= TWO_64
    ensures Abs(Round(sum + Round(v)) - (sum + Round(v))) <= TWO_21
  {
    SmallShifts(1);
    SmallShifts(P53);
    RoundError(v, 11);
    RoundStaysBelow(v, 11);
    RoundError(sum + Round(v), 22);
  }

  /** One step of the sum, in units of one. */
  lemma OneAddition(f: Format, sum: int, n: Number)
    requires Roomy(f) && n.IsInteger() && Abs(sum) < 2047 * TWO_64
    ensures Add(f, Exactly(f, sum), ToDouble(f, n)) == Exactly(f, Round(sum + Round(n.Value())))
  {
    var v := n.Value();
    SmallShifts(P53);
    OneError(sum, v);
    RoundInteger(f, v);
    ShiftSum(sum, Round(v), f.Unit());
    RoundInteger(f, sum + Round(v));
  }

  /** A partial sum of at most 2047 numbers stays below 2^75. */
  lemma PartialSum(sum: int, before: nat, v: int)
    requires before < 2047 && Abs(sum) <= before * (TWO_64 + TWO_21) && Abs(v) < TWO_64
    ensures Abs(sum) < 2047 * TWO_64
    ensures Abs(Round(sum + Round(v))) <= (before + 1) * (TWO_64 + TWO_21)
  {
    OneError(sum, v);
  }

  lemma {:induction false} IntegerSum(f: Format, sum: int, before: nat, ns: seq<Number>)
    requires Roomy(f) && AllIntegers(ns) && before + |ns| <= 2047
    requires Abs(sum) <= before * (TWO_64 + TWO_21)
    ensures SumFrom(f, Exactly(f, sum), ns) == Exactly(f, IntegerSumFrom(sum, ns))
    decreases |ns|
  {
    if |ns| > 0 {
      PartialSum(sum, before, ns[0].Value());
      OneAddition(f, sum, ns[0]);
      IntegerSum(f, Round(sum + Round(ns[0].Value())), before + 1, ns[1..]);
    }
  }

  lemma {:induction false} IntegerSumError(sum: int, before: nat, ns: seq<Number>)
    requires AllIntegers(ns) && before + |ns| <= 2047
    requires Abs(sum) <= before * (TWO_64 + TWO_21)
    ensures Abs(IntegerSumFrom(sum, ns) - (sum + ExactSum(ns))) <= |ns| * (TWO_21 + TWO_10)
    decreases |ns|
  {
    if |ns| > 0 {
      PartialSum(sum, before, ns[0].Value());
      OneError(sum, ns[0].Value());
      IntegerSumError(Round(sum + Round(ns[0].Value())), before + 1, ns[1..]);
    }
  }

  lemma {:induction false} IntegerSumRepresentable(sum: int, before: nat, ns: seq<Number>)
    requires AllIntegers(ns) && before + |ns| <= 2047
    requires Representable(Abs(sum)) && Abs(sum) <= before * (TWO_64 + TWO_21)
    ensures Representable(Abs(IntegerSumFrom(sum, ns))) && Abs(IntegerSumFrom(sum, ns)) <= 2047 * (TWO_64 + TWO_21)
    decreases |ns|
  {
    if |ns| > 0 {
      PartialSum(sum, before, ns[0].Value());
      RoundedIsRepresentable(Abs(sum + Round(ns[0].Value())));
      IntegerSumRepresentable(Round(sum + Round(ns[0].Value())), before + 1, ns[1..]);
    }
  }

  /** The double that is computed has the bits of an integer. */
  lemma IntegerSumDenoted(ns: seq<Number>)
    requires AllIntegers(ns) && |ns| <= 2047
    ensures Sum(ns) == Exactly(BINARY64, IntegerSumFrom(0, ns)) && Denotes(ToBits64(Sum(ns)), IntegerSumFrom(0, ns))
  {
    IntegerSumFromZero(BINARY64, ns);
    assert IsScaled(0, 0, 0);
    IntegerSumRepresentable(0, 0, ns);
    SmallShifts(P53);
    IntegerDenoted(BINARY64, IntegerSumFrom(0, ns));
  }

  lemma ExactlyZero(f: Format)
    ensures Exactly(f, 0) == Finite(0)
  {
    ShiftOrder(0, 0, f.Unit());
  }

  lemma IntegerSumFromZero(f: Format, ns: seq<Number>)
    requires Roomy(f) && AllIntegers(ns) && |ns| <= 2047
    ensures SumFrom(f, Finite(0), ns) == Exactly(f, IntegerSumFrom(0, ns))
    ensures Abs(IntegerSumFrom(0, ns) - ExactSum(ns)) <= |ns| * (TWO_21 + TWO_10)
  {
    ExactlyZero(f);
    IntegerSum(f, 0, 0, ns);
    IntegerSumError(0, 0, ns);
  }

  /** Error bound: for any integers the client agrees to send, the double the server computes has the bits of an integer
      within 2^21 + 2^10 of the exact sum for every number sent. */
  lemma AdditionErrorBound(ns: seq<Number>) returns (x: int)
    requires AdditionPacket(ns).Some? && AllIntegers(ns)
    ensures |ns| <= 2047
    ensures Sum(ns) == Exactly(BINARY64, x) && Denotes(ToBits64(Sum(ns)), x)
    ensures Abs(x - ExactSum(ns)) <= |ns| * (TWO_21 + TWO_10)
  {
    IntegerSumFromZero(BINARY64, ns);
    IntegerSumDenoted(ns);
    x := IntegerSumFrom(0, ns);
  }

  lemma {:induction false} SmallSum(sum: int, ns: seq<Number>)
    requires AllIntegers(ns) && Abs(sum) + AbsoluteSum(ns) <= P53
    ensures IntegerSumFrom(sum, ns) == sum + ExactSum(ns)
    decreases |ns|
  {
    if |ns| > 0 {
      RoundSmall(ns[0].Value());
      RoundSmall(sum + ns[0].Value());
      SmallSum(sum + ns[0].Value(), ns[1..]);
    }
  }

  /** Exactness: absolute values summing to at most 2^53 are added without error. */
  lemma AdditionExact(ns: seq<Number>)
    requires AdditionPacket(ns).Some? && AllIntegers(ns) && AbsoluteSum(ns) <= P53
    ensures Sum(ns) == Exactly(BINARY64, ExactSum(ns)) && Denotes(ToBits64(Sum(ns)), ExactSum(ns))
  {
    IntegerSumDenoted(ns);
    SmallSum(0, ns);
  }

  /** An 8, 16 or 32-bit integer. */
  predicate IsNarrow(n: Number) { GetNumberType(n) < 6 }

  lemma {:induction false} NarrowSum(ns: seq<Number>)
    requires forall n <- ns :: IsNarrow(n)
    ensures AllIntegers(ns) && AbsoluteSum(ns) <= |ns| * 0x1_0000_0000
  {
    if |ns| > 0 {
      NarrowSum(ns[1..]);
      assert IsNarrow(ns[0]);
    }
  }

  /** Any 8, 16 and 32-bit integers that fit in a packet are added without error. */
  lemma NarrowAdditionExact(ns: seq<Number>)
    requires AdditionPacket(ns).Some? && forall n <- ns :: IsNarrow(n)
    ensures AllIntegers(ns) && Sum(ns) == Exactly(BINARY64, ExactSum(ns)) && Denotes(ToBits64(Sum(ns)), ExactSum(ns))
  {
    NarrowSum(ns);
    AdditionExact(ns);
  }

  /** All of the above about one request. */
  lemma AdditionResult(ns: seq<Number>) returns (x: int)
    requires AdditionPacket(ns).Some? && AllIntegers(ns)
    ensures Sum(ns) == Exactly(BINARY64, x) && Denotes(ToBits64(Sum(ns)), x)
    ensures Abs(x - ExactSum(ns)) <= |ns| * (TWO_21 + TWO_10)
    ensures AbsoluteSum(ns) <= P53 || (forall n <- ns :: IsNarrow(n)) ==> x == ExactSum(ns)
  {
    if AbsoluteSum(ns) <= P53 {
      AdditionExact(ns);
      x := ExactSum(ns);
    } else if forall n <- ns :: IsNarrow(n) {
      NarrowAdditionExact(ns);
      x := ExactSum(ns);
    } else {
      x := AdditionErrorBound(ns);
    }
  }

  /** The server reads back what the client sent, wherever the packet's bytes lie in a longer memory. */
  lemma PacketIsRead(ns: seq<Number>, memory: Bytes, sum: Double)
    requires AdditionPacket(ns).Some?
    requires var size := |AdditionPacket(ns).value|; size + 8 <= |memory| && memory[..size] == AdditionPacket(ns).value
    ensures 6 <= |AdditionPacket(ns).value| <= BUFFER_SIZE
    ensures AddLoop(memory, 2, |AdditionPacket(ns).value|, sum) == Some(SumFrom(BINARY64, sum, ns))
  {
    var size := |AdditionPacket(ns).value|;
    Subslice(memory, 0, size, 2, size);
    DecodeEncoded(memory, 2, ns);
  }

  lemma ToDoubleIsDouble(f: Format, n: Number)
    requires f.top == 2045 && f.widen == 925
    ensures IsDouble(f, ToDouble(f, n))
  {
    match n
    case Float(bits) => FromBits32IsDouble(f, bits);
    case Double(bits) => FromBits64IsDouble(f, bits);
    case _ => RoundedIsRepresentable(Abs(Shift(n.Value(), f.Unit())));
  }

  lemma {:induction false} SumFromIsDouble(sum: Double, ns: seq<Number>)
    requires IsDouble(BINARY64, sum)
    ensures IsDouble(BINARY64, SumFrom(BINARY64, sum, ns))
    decreases |ns|
  {
    if |ns| > 0 {
      ToDoubleIsDouble(BINARY64, ns[0]);
      AddIsDouble(BINARY64, sum, ToDouble(BINARY64, ns[0]));
      SumFromIsDouble(Add(BINARY64, sum, ToDouble(BINARY64, ns[0])), ns[1..]);
    }
  }

  /** A number of type double stands for the double that its bits are, a float for the double it is widened to. */
  lemma DoubleKept(d: Double)
    requires IsDouble(BINARY64, d)
    ensures ToBits64(d) < TWO_64 && ToDouble(BINARY64, Number.Double(ToBits64(d))) == d
  {
    BitsRoundTrip(d);
  }

  lemma FloatKept(negative: bool, e: nat, m: nat)
    requires 1 <= e <= 254 && m < P23
    ensures var bits32 := e * P23 + m + if negative then SIGN_32 else 0;
            var bits64 := (e + 896) * P52 + m * 0x2000_0000 + if negative then SIGN_64 else 0;
            0 <= bits32 < 0x1_0000_0000 && 0 <= bits64 < TWO_64
            && ToDouble(BINARY64, Float(bits32)) == FromBits64(bits64)
  {
    FloatWidened(BINARY64, negative, e, m);
  }

  /** The sum of more numbers: the sum of those before, and the last one added to it. */
  lemma {:induction false} SumOfMore(sum: Double, ns: seq<Number>, n: Number)
    ensures SumFrom(BINARY64, sum, ns + [n]) == Add(BINARY64, SumFrom(BINARY64, sum, ns), ToDouble(BINARY64, n))
    decreases |ns|
  {
    var all := ns + [n];
    if |ns| == 0 {
      assert all[1..] == [];
    } else {
      assert all[0] == ns[0] && all[1..] == ns[1..] + [n];
      SumOfMore(Add(BINARY64, sum, ToDouble(BINARY64, ns[0])), ns[1..], n);
    }
  }

  /** The eight bytes of the reply determine the sum, for numbers of all ten types. */
  lemma SumSurvivesReply(ns: seq<Number>)
    ensures ToBits64(Sum(ns)) < TWO_64
    ensures FromBits64(ToBits64(Sum(ns))) == Sum(ns)
  {
    assert IsScaled(0, 0, 0);
    SumFromIsDouble(Finite(0), ns);
    BitsRoundTrip(Sum(ns));
  }
}
