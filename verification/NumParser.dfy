// src/common/NumParser.cpp: from text to the ten-way Number, and back.

module NumParser {
  import opened Bytes
  import opened Binary64
  import opened Numbers

  datatype ParseError = InvalidArgument | OutOfRange

  datatype Result<+T> = Ok(value: T) | Err(error: ParseError)

  /** The C library functions for floating-point text; None when the text is not consumed entirely. */
  datatype Libc = Libc(
    strtof: string -> Option<uint32>, strtod: string -> Option<uint64>,
    showFloat: uint32 -> string, showDouble: uint64 -> string)

  // ------------------------------------------------ std::from_chars on integers

  predicate IsDigit(c: char, base: nat) {
    '0' <= c <= '9' || (base == 16 && ('a' <= c <= 'f' || 'A' <= c <= 'F'))
  }

  function DigitValue(c: char): nat
    requires IsDigit(c, 16)
  {
    if c <= '9' then c as int - '0' as int
    else if c <= 'F' then c as int - 'A' as int + 10
    else c as int - 'a' as int + 10
  }

  /** The digits in the order of their values, in lower and in upper case. */
  lemma DigitOrder(d: nat)
    requires d < 16
    ensures var lower, upper := "0123456789abcdef"[d], "0123456789ABCDEF"[d];
            && IsDigit(lower, 16) && IsDigit(upper, 16) && DigitValue(lower) == DigitValue(upper) == d
            && (IsDigit(lower, 10) <==> d < 10) && (IsDigit(upper, 10) <==> d < 10)
  {
  }

  predicate AllDigits(s: string, base: nat) {
    forall k :: 0 <= k < |s| ==> IsDigit(s[k], base)
  }

  function DigitsValue(s: string, base: nat): nat
    requires AllDigits(s, base)
  {
    if |s| == 0 then 0 else base * DigitsValue(s[..|s| - 1], base) + DigitValue(s[|s| - 1])
  }

  /** An optional minus sign and at least one digit. */
  predicate IsNumeral(s: string, base: nat) {
    AllDigits(Magnitude(s), base) && |Magnitude(s)| > 0
  }

  predicate HasMinus(s: string) { |s| > 0 && s[0] == '-' }

  function Magnitude(s: string): string { if HasMinus(s) then s[1..] else s }

  function NumeralValue(s: string, base: nat): int
    requires IsNumeral(s, base)
  {
    var magnitude: int := DigitsValue(Magnitude(s), base);
    if HasMinus(s) then -magnitude else magnitude
  }

  /** parse_integer<uint64_t>: std::from_chars on an unsigned type takes no sign. */
  function ParseUnsigned(s: string, base: nat): (r: Option<uint64>) {
    if IsNumeral(s, base) && !HasMinus(s) && NumeralValue(s, base) < TWO_64 then Some(NumeralValue(s, base)) else None
  }

  /** parse_integer<int64_t> */
  function ParseSigned(s: string, base: nat): (r: Option<int64>) {
    if IsNumeral(s, base) && -TWO_64 <= 2 * NumeralValue(s, base) < TWO_64 then Some(NumeralValue(s, base)) else None
  }

  // ------------------------------------------------ remove_suffix

  datatype IntegerSuffix = NoSuffix | U | L | UL | LL | ULL

  predicate EndsWith(s: string, suffix: string) {
    |s| >= |suffix| && forall k :: 0 <= k < |suffix| ==> s[|s| - |suffix| + k] == suffix[k]
  }

  function RemoveSuffix(s: string): (r: (string, IntegerSuffix))
    ensures r.0 <= s
  {
    if EndsWith(s, "ULL") || EndsWith(s, "ull") then (s[..|s| - 3], ULL)
    else if EndsWith(s, "UL") || EndsWith(s, "ul") then (s[..|s| - 2], UL)
    else if EndsWith(s, "LL") || EndsWith(s, "ll") then (s[..|s| - 2], LL)
    else if EndsWith(s, "U") || EndsWith(s, "u") then (s[..|s| - 1], U)
    else if EndsWith(s, "L") || EndsWith(s, "l") then (s[..|s| - 1], L)
    else (s, NoSuffix)
  }

  // ------------------------------------------------ parse_integer_number

  // static_cast to a narrower type keeps the low bits.
  function CastUInt8(v: int): uint8 { v % 0x100 }
  function CastUInt16(v: int): uint16 { v % 0x1_0000 }
  function CastUInt32(v: int): uint32 { v % 0x1_0000_0000 }
  function CastInt8(v: int): int8 { (v + 0x80) % 0x100 - 0x80 }
  function CastInt16(v: int): int16 { (v + 0x8000) % 0x1_0000 - 0x8000 }
  function CastInt32(v: int): int32 { (v + 0x8000_0000) % 0x1_0000_0000 - 0x8000_0000 }
  function CastInt64(v: int): int64 { (v + 0x8000_0000_0000_0000) % TWO_64 - 0x8000_0000_0000_0000 }

  predicate HasHexPrefix(s: string) {
    |s| >= 2 && s[0] == '0' && (s[1] == 'x' || s[1] == 'X')
  }

  // The three ladders of narrowing casts.

  function NarrowUnsigned(value: uint64): Number {
    if value <= 0xFF then UInt8(CastUInt8(value))
    else if value <= 0xFFFF then UInt16(CastUInt16(value))
    else if value <= 0xFFFF_FFFF then UInt32(CastUInt32(value))
    else UInt64(value)
  }

  function NarrowNegative(value: int64): Number {
    if value >= -0x80 then Int8(CastInt8(value))
    else if value >= -0x8000 then Int16(CastInt16(value))
    else if value >= -0x8000_0000 then Int32(CastInt32(value))
    else Int64(value)
  }

  function NarrowPositive(value: uint64): Number {
    if value <= 0xFF then UInt8(CastUInt8(value))
    else if value <= 0xFFFF then UInt16(CastUInt16(value))
    else if value <= 0xFFFF_FFFF then UInt32(CastUInt32(value))
    else if value <= 0x7FFF then Int16(CastInt16(value))
    else if value <= 0xFFFF then UInt16(CastUInt16(value))
    else if value <= 0x7FFF_FFFF then Int32(CastInt32(value))
    else if value <= 0xFFFF_FFFF then UInt32(CastUInt32(value))
    else if value <= 0x7FFF_FFFF_FFFF_FFFF then Int64(CastInt64(value))
    else UInt64(value)
  }

  function ParseIntegerNumber(input: string): Result<Number> {
    var (s, suffix) := RemoveSuffix(input);
    var negative := HasMinus(s);
    if !HasHexPrefix(s) then ParseDigits(suffix, negative, s, 10)
    else if negative then Err(InvalidArgument)
    else ParseDigits(suffix, negative, s[2..], 16)
  }

  /** The part of parse_integer_number after the base is known. */
  function ParseDigits(suffix: IntegerSuffix, negative: bool, digits: string, base: nat): Result<Number> {
    if suffix == U || suffix == UL || suffix == ULL then
      match ParseUnsigned(digits, base)
      case None => Err(OutOfRange)
      case Some(value) => Ok(NarrowUnsigned(value))
    else if suffix == LL || suffix == L then
      match ParseSigned(digits, base)
      case None => Err(OutOfRange)
      case Some(value) => Ok(Int64(value))
    else if negative then
      match ParseSigned(digits, base)
      case None => Err(OutOfRange)
      case Some(value) => Ok(NarrowNegative(value))
    else
      match ParseUnsigned(digits, base)
      case None => Err(OutOfRange)
      case Some(value) => Ok(NarrowPositive(value))
  }

  // ------------------------------------------------ parse_number and number_to_string

  /** Neither the explicit float suffix nor floating-point notation. */
  predicate OnIntegerPath(s: string) {
    |s| > 0 && s[|s| - 1] != 'f' && s[|s| - 1] != 'F' && '.' !in s && 'e' !in s && 'E' !in s
  }

  function ParseNumber(libc: Libc, s: string): Result<Number> {
    if |s| == 0 then Err(InvalidArgument)
    else if s[|s| - 1] == 'f' || s[|s| - 1] == 'F' then
      match libc.strtof(s[..|s| - 1])
      case None => Err(InvalidArgument)
      case Some(bits) => Ok(Float(bits))
    else if '.' in s || 'e' in s || 'E' in s then
      match libc.strtod(s)
      case None => Err(InvalidArgument)
      case Some(bits) => Ok(Double(bits))
    else ParseIntegerNumber(s)
  }

  function NatString(n: nat): (s: string)
    ensures |s| > 0
  {
    if n < 10 then [DigitChar(n)] else NatString(n / 10) + [DigitChar(n % 10)]
  }

  function DigitChar(d: nat): char
    requires d < 10
  {
    ('0' as int + d) as char
  }

  function IntString(n: int): string {
    if n < 0 then "-" + NatString(-n) else NatString(n)
  }

  function NumberToString(libc: Libc, n: Number): string {
    match n
    case Float(bits) => libc.showFloat(bits)
    case Double(bits) => libc.showDouble(bits)
    case _ => IntString(n.Value())
  }

  // ------------------------------------------------ which texts are accepted, and as what

  const PREFIXES := ["", "0x", "0X"]

  function SuffixText(suffix: IntegerSuffix, upper: bool): string {
    match suffix
    case NoSuffix => ""
    case U => if upper then "U" else "u"
    case L => if upper then "L" else "l"
    case UL => if upper then "UL" else "ul"
    case LL => if upper then "LL" else "ll"
    case ULL => if upper then "ULL" else "ull"
  }

  function BaseOf(prefix: string): nat { if prefix == "" then 10 else 16 }

  /** A text on the integer path, taken apart. */
  datatype Text = Text(prefix: string, body: string, suffix: IntegerSuffix, upper: bool) {
    function Spelled(): string { prefix + body + SuffixText(suffix, upper) }

    predicate IsNumber() {
      prefix in PREFIXES && IsNumeral(body, BaseOf(prefix))
    }

    predicate Valid() { IsNumber() && OnIntegerPath(Spelled()) }

    function Value(): int
      requires Valid()
    {
      NumeralValue(body, BaseOf(prefix))
    }

    /** The text is accepted as a number of an unsigned type.  Without a suffix the range of uint64 alone is left to
        int64 up to 2^63 - 1. */
    predicate NamesUnsigned()
      requires Valid()
    {
      !HasMinus(body) && !suffix.L? && !suffix.LL? && Value() < TWO_64
      && (suffix.NoSuffix? ==> Value() < 0x1_0000_0000 || TWO_64 <= 2 * Value())
    }

    /** The text is accepted as a uint8. */
    predicate NamesByte()
      requires Valid()
    {
      !HasMinus(body) && !suffix.L? && !suffix.LL? && Value() < 0x100
    }
  }

  /** Whether the type with code `t` holds `v`. */
  predicate Holds(t: uint8, v: int)
    requires t < 8
  {
    if t == 0 then -0x80 <= v < 0x80 else if t == 1 then 0 <= v < 0x100
    else if t == 2 then -0x8000 <= v < 0x8000 else if t == 3 then 0 <= v < 0x1_0000
    else if t == 4 then -0x8000_0000 <= v < 0x8000_0000 else if t == 5 then 0 <= v < 0x1_0000_0000
    else if t == 6 then -TWO_64 <= 2 * v < TWO_64 else 0 <= v < TWO_64
  }

  /** `t` is the first of `types` that holds `v`. */
  ghost predicate IsFirstHolding(types: seq<uint8>, t: uint8, v: int)
    requires forall k :: 0 <= k < |types| ==> types[k] < 8
  {
    exists k :: 0 <= k < |types| && types[k] == t && Holds(types[k], v)
                && forall j :: 0 <= j < k ==> !Holds(types[j], v)
  }

  /** The types a numeral may take, smallest first.  A minus sign counts as such only when it comes first, except
      under the suffixes L and LL, where one behind the hexadecimal prefix is accepted as well. */
  function Candidates(t: Text): (types: seq<uint8>)
    ensures forall k :: 0 <= k < |types| ==> types[k] < 8
  {
    match t.suffix
    case L => [6]
    case LL => [6]
    case NoSuffix => if !HasMinus(t.body) then [1, 3, 5, 6, 7] else if t.prefix == "" then [0, 2, 4, 6] else []
    case _ => if HasMinus(t.body) then [] else [1, 3, 5, 7]
  }

  lemma EndsWith1(s: string, x: char)
    ensures EndsWith(s, [x]) <==> |s| >= 1 && s[|s| - 1] == x
  {
    assert [x][0] == x;
  }

  lemma EndsWith2(s: string, x: char, y: char)
    ensures EndsWith(s, [x, y]) <==> |s| >= 2 && s[|s| - 2] == x && s[|s| - 1] == y
  {
    assert [x, y][0] == x && [x, y][1] == y;
  }

  lemma EndsWith3(s: string, x: char, y: char, z: char)
    ensures EndsWith(s, [x, y, z]) <==> |s| >= 3 && s[|s| - 3] == x && s[|s| - 2] == y && s[|s| - 1] == z
  {
    assert [x, y, z][0] == x && [x, y, z][1] == y && [x, y, z][2] == z;
  }

  /** remove_suffix in terms of the last three characters. */
  lemma SuffixChars(s: string)
    ensures EndsWith(s, "U") <==> |s| >= 1 && s[|s| - 1] == 'U'
    ensures EndsWith(s, "u") <==> |s| >= 1 && s[|s| - 1] == 'u'
    ensures EndsWith(s, "L") <==> |s| >= 1 && s[|s| - 1] == 'L'
    ensures EndsWith(s, "l") <==> |s| >= 1 && s[|s| - 1] == 'l'
    ensures EndsWith(s, "UL") <==> |s| >= 2 && s[|s| - 2] == 'U' && s[|s| - 1] == 'L'
    ensures EndsWith(s, "ul") <==> |s| >= 2 && s[|s| - 2] == 'u' && s[|s| - 1] == 'l'
    ensures EndsWith(s, "LL") <==> |s| >= 2 && s[|s| - 2] == 'L' && s[|s| - 1] == 'L'
    ensures EndsWith(s, "ll") <==> |s| >= 2 && s[|s| - 2] == 'l' && s[|s| - 1] == 'l'
    ensures EndsWith(s, "ULL") <==> |s| >= 3 && s[|s| - 3] == 'U' && s[|s| - 2] == 'L' && s[|s| - 1] == 'L'
    ensures EndsWith(s, "ull") <==> |s| >= 3 && s[|s| - 3] == 'u' && s[|s| - 2] == 'l' && s[|s| - 1] == 'l'
  {
    EndsWith1(s, 'U'); EndsWith1(s, 'u'); EndsWith1(s, 'L'); EndsWith1(s, 'l');
    EndsWith2(s, 'U', 'L'); EndsWith2(s, 'u', 'l'); EndsWith2(s, 'L', 'L'); EndsWith2(s, 'l', 'l');
    EndsWith3(s, 'U', 'L', 'L'); EndsWith3(s, 'u', 'l', 'l');
  }

  /** The k-th character from the end, or a blank. */
  function Back(s: string, k: nat): char
    requires k > 0
  {
    if |s| >= k then s[|s| - k] else ' '
  }

  /** The suffix told by the last three characters. */
  function Classify(x: char, y: char, z: char): IntegerSuffix {
    if (x == 'U' && y == 'L' && z == 'L') || (x == 'u' && y == 'l' && z == 'l') then ULL
    else if (y == 'U' && z == 'L') || (y == 'u' && z == 'l') then UL
    else if (y == 'L' && z == 'L') || (y == 'l' && z == 'l') then LL
    else if z == 'U' || z == 'u' then U
    else if z == 'L' || z == 'l' then L
    else NoSuffix
  }

  function SuffixLength(suffix: IntegerSuffix): nat {
    match suffix
    case NoSuffix => 0 case U => 1 case L => 1 case UL => 2 case LL => 2 case ULL => 3
  }

  lemma RemovedByChars(s: string)
    ensures var kind := Classify(Back(s, 3), Back(s, 2), Back(s, 1));
            SuffixLength(kind) <= |s| && RemoveSuffix(s) == (s[..|s| - SuffixLength(kind)], kind)
  {
    SuffixChars(s);
    assert s[..|s|] == s;
  }

  lemma SuffixOf(t: string, suffix: IntegerSuffix, upper: bool)
    requires |t| > 0 && t[|t| - 1] !in "UuLl"
    ensures RemoveSuffix(t + SuffixText(suffix, upper)) == (t, suffix)
  {
    var s := t + SuffixText(suffix, upper);
    ClassifyText(t, suffix, upper);
    RemovedByChars(s);
    assert s[..|t|] == t;
  }

  lemma ClassifyText(t: string, suffix: IntegerSuffix, upper: bool)
    requires |t| > 0 && t[|t| - 1] !in "UuLl"
    ensures var s := t + SuffixText(suffix, upper);
            Classify(Back(s, 3), Back(s, 2), Back(s, 1)) == suffix && |s| - SuffixLength(suffix) == |t|
  {
    var x := SuffixText(suffix, upper);
    var s := t + x;
    var c := t[|t| - 1];
    assert c != 'U' && c != 'u' && c != 'L' && c != 'l' by { assert forall k :: 0 <= k < 4 ==> "UuLl"[k] in "UuLl"; }
    assert Back(s, |x| + 1) == c;
    assert |x| >= 1 ==> Back(s, |x|) == x[0];
    assert |x| >= 2 ==> Back(s, |x| - 1) == x[1];
    assert |x| >= 3 ==> Back(s, |x| - 2) == x[2];
  }

  lemma NumeralEnds(s: string, base: nat)
    requires IsNumeral(s, base) && (base == 10 || base == 16)
    ensures |s| > 0 && IsDigit(s[|s| - 1], base) && s[|s| - 1] !in "UuLl"
  {
    var m := Magnitude(s);
    assert IsDigit(m[|m| - 1], base) && m[|m| - 1] == s[|s| - 1];
  }

  /** How parse_integer_number takes a text apart. */
  lemma TakenApart(t: Text)
    requires t.Valid()
    ensures RemoveSuffix(t.Spelled()) == (t.prefix + t.body, t.suffix)
    ensures HasHexPrefix(t.prefix + t.body) <==> t.prefix != ""
    ensures HasMinus(t.prefix + t.body) <==> t.prefix == "" && HasMinus(t.body)
    ensures (if t.prefix == "" then t.prefix + t.body else (t.prefix + t.body)[2..]) == t.body
  {
    SuffixApart(t);
    PrefixApart(t.prefix, t.body);
  }

  lemma SuffixApart(t: Text)
    requires t.Valid()
    ensures RemoveSuffix(t.Spelled()) == (t.prefix + t.body, t.suffix)
  {
    NumeralEnds(t.body, BaseOf(t.prefix));
    EndOfConcat(t.prefix, t.body);
    SuffixOf(t.prefix + t.body, t.suffix, t.upper);
  }

  lemma EndOfConcat(a: string, b: string)
    requires |b| > 0
    ensures (a + b)[|a + b| - 1] == b[|b| - 1]
  {
  }

  lemma PrefixApart(prefix: string, body: string)
    requires prefix in PREFIXES && IsNumeral(body, BaseOf(prefix))
    ensures var s := prefix + body;
            && (HasHexPrefix(s) <==> prefix != "")
            && (HasMinus(s) <==> prefix == "" && HasMinus(body))
            && (if prefix == "" then s else s[2..]) == body
  {
    if prefix == "" {
      assert prefix + body == body;
      if |body| >= 2 {
        assert IsDigit(Magnitude(body)[if HasMinus(body) then 0 else 1], 10);
      }
    }
  }

  /** `n` has the value `v` and the first of `types` that holds it. */
  ghost predicate IsNarrowest(types: seq<uint8>, n: Number, v: int)
    requires forall k :: 0 <= k < |types| ==> types[k] < 8
  {
    n.IsInteger() && n.Value() == v && IsFirstHolding(types, GetNumberType(n), v)
  }

  lemma UnsignedLadder(v: uint64)
    ensures IsNarrowest([1, 3, 5, 7], NarrowUnsigned(v), v)
  {
    var types: seq<uint8> := [1, 3, 5, 7];
    assert types[0] == 1 && types[1] == 3 && types[2] == 5 && types[3] == 7;
  }

  lemma NegativeLadder(v: int64)
    requires v <= 0
    ensures IsNarrowest([0, 2, 4, 6], NarrowNegative(v), v)
  {
    var types: seq<uint8> := [0, 2, 4, 6];
    assert types[0] == 0 && types[1] == 2 && types[2] == 4 && types[3] == 6;
  }

  lemma PositiveLadder(v: uint64)
    ensures IsNarrowest([1, 3, 5, 6, 7], NarrowPositive(v), v)
  {
    var types: seq<uint8> := [1, 3, 5, 6, 7];
    assert types[0] == 1 && types[1] == 3 && types[2] == 5 && types[3] == 6 && types[4] == 7;
  }

  /** The branches of the last ladder that are ever taken: those for int16 and int32 and the second ones for uint16 and
      uint32 are dead. */
  lemma DeadBranches(value: uint64)
    ensures NarrowPositive(value)
         == if value < 0x100 then UInt8(value) else if value < 0x1_0000 then UInt16(value)
            else if value < 0x1_0000_0000 then UInt32(value)
            else if 2 * value < TWO_64 then Int64(value) else UInt64(value)
  {
  }

  lemma LongLadder(v: int64)
    ensures IsNarrowest([6], Int64(v), v)
  {
    var types: seq<uint8> := [6];
    assert types[0] == 6;
  }

  lemma ParsedDigits(libc: Libc, t: Text)
    requires t.Valid()
    ensures ParseNumber(libc, t.Spelled()) == Parsed(t)
  {
    TakenApart(t);
  }

  ghost predicate SomeTypeHolds(types: seq<uint8>, v: int)
    requires forall k :: 0 <= k < |types| ==> types[k] < 8
  {
    exists k :: 0 <= k < |types| && Holds(types[k], v)
  }

  /** The last candidate is the widest.  For a numeral without minus sign this takes into account that its value is not
      negative. */
  lemma LastHolds(types: seq<uint8>, v: int)
    requires types == [] || types == [6] || types == [0, 2, 4, 6] || types == [1, 3, 5, 7] || types == [1, 3, 5, 6, 7]
    requires types == [1, 3, 5, 6, 7] ==> v >= 0
    ensures SomeTypeHolds(types, v) <==> |types| > 0 && Holds(types[|types| - 1], v)
  {
    if |types| > 0 && Holds(types[|types| - 1], v) {
      assert SomeTypeHolds(types, v);
    }
  }

  function Parsed(t: Text): Result<Number>
    requires t.Valid()
  {
    ParseDigits(t.suffix, t.prefix == "" && HasMinus(t.body), t.body, BaseOf(t.prefix))
  }

  lemma ParsedExact(t: Text)
    requires t.Valid()
    ensures if SomeTypeHolds(Candidates(t), t.Value())
            then Parsed(t).Ok? && IsNarrowest(Candidates(t), Parsed(t).value, t.Value())
            else Parsed(t) == Err(OutOfRange)
  {
    var v := t.Value();
    LastHolds(Candidates(t), v);
    match t.suffix {
      case L => if -TWO_64 <= 2 * v < TWO_64 { LongLadder(v); }
      case LL => if -TWO_64 <= 2 * v < TWO_64 { LongLadder(v); }
      case NoSuffix =>
        if !HasMinus(t.body) {
          if v < TWO_64 { PositiveLadder(v); }
        } else if -TWO_64 <= 2 * v { NegativeLadder(v); }
      case _ => if !HasMinus(t.body) && v < TWO_64 { UnsignedLadder(v); }
    }
  }

  /** Exactness and minimality: a numeral is accepted if and only if one of its candidate types holds its value;
      then its value survives the narrowing cast and its type is the first that holds it. */
  lemma ParserExact(libc: Libc, t: Text)
    requires t.Valid()
    ensures var r := ParseNumber(libc, t.Spelled());
            if SomeTypeHolds(Candidates(t), t.Value()) then r.Ok? && IsNarrowest(Candidates(t), r.value, t.Value())
            else r == Err(OutOfRange)
  {
    ParsedDigits(libc, t);
    ParsedExact(t);
  }

  lemma InConcat(a: string, b: string, c: char)
    ensures c in a + b <==> c in a || c in b
  {
  }

  lemma InSpelled(t: Text, c: char)
    ensures c in t.Spelled() <==> c in t.prefix || c in t.body || c in SuffixText(t.suffix, t.upper)
  {
    InConcat(t.prefix + t.body, SuffixText(t.suffix, t.upper), c);
    InConcat(t.prefix, t.body, c);
  }

  lemma LastSpelled(t: Text)
    requires |t.body| > 0
    ensures var s, x := t.Spelled(), SuffixText(t.suffix, t.upper);
            |s| > 0 && s[|s| - 1] == if |x| > 0 then x[|x| - 1] else t.body[|t.body| - 1]
  {
  }

  lemma NoDot(t: Text)
    requires t.IsNumber()
    ensures '.' !in t.body
  {
    var m := Magnitude(t.body);
    forall k | 0 <= k < |t.body| ensures t.body[k] != '.' {
      if HasMinus(t.body) {
        assert k > 0 ==> t.body[k] == m[k - 1];
      } else {
        assert t.body[k] == m[k];
      }
    }
  }

  /** Which numerals take the integer path: not those with the hexadecimal digit e, nor those without suffix that end in
      the hexadecimal digit f.  These are taken for floating-point text and never become integers. */
  lemma IntegerPathIff(libc: Libc, t: Text)
    requires t.IsNumber()
    ensures t.Valid() <==> 'e' !in t.body && 'E' !in t.body
                           && (t.suffix.NoSuffix? ==> t.body[|t.body| - 1] != 'f' && t.body[|t.body| - 1] != 'F')
    ensures !t.Valid() ==> var r := ParseNumber(libc, t.Spelled());
                           r == Err(InvalidArgument) || (r.Ok? && !r.value.IsInteger())
  {
    var x := SuffixText(t.suffix, t.upper);
    assert |t.prefix| <= 2 && forall k :: 0 <= k < |t.prefix| ==> t.prefix[k] in "0xX";
    NoDot(t);
    LastSpelled(t);
    InSpelled(t, '.');
    InSpelled(t, 'e');
    InSpelled(t, 'E');
  }

  /** `s` ends with the at most three characters of `x`. */
  predicate LastChars(s: string, x: string) {
    && |x| <= 3 && |x| <= |s|
    && (|x| >= 1 ==> s[|s| - |x|] == x[0])
    && (|x| >= 2 ==> s[|s| - |x| + 1] == x[1])
    && (|x| >= 3 ==> s[|s| - 1] == x[2])
  }

  lemma SuffixRemoved(s: string) returns (upper: bool)
    ensures var (t, suffix) := RemoveSuffix(s);
            s == t + SuffixText(suffix, upper)
  {
    RemovedByChars(s);
    var (t, suffix) := RemoveSuffix(s);
    upper := Back(s, 1) == 'U' || Back(s, 1) == 'L';
    var x := SuffixText(suffix, upper);
    assert LastChars(s, x);
    LastCharsSlice(s, x);
    SplitSlice(s, 0, |t|, |s|);
    assert s[0..|t|] == s[..|t|] && s[0..|s|] == s;
  }

  lemma LastCharsSlice(s: string, x: string)
    requires LastChars(s, x)
    ensures s[|s| - |x|..|s|] == x
  {
  }

  lemma DigitsAreNumeral(suffix: IntegerSuffix, negative: bool, digits: string, base: nat)
    requires ParseDigits(suffix, negative, digits, base).Ok?
    ensures IsNumeral(digits, base)
  {
  }

  /** Nothing else is accepted on the integer path. */
  lemma AcceptedIsText(libc: Libc, s: string) returns (t: Text)
    requires OnIntegerPath(s) && ParseNumber(libc, s).Ok?
    ensures t.Valid() && t.Spelled() == s
  {
    var (r, suffix) := RemoveSuffix(s);
    var upper := SuffixRemoved(s);
    var x := if HasHexPrefix(r) then 2 else 0;
    DigitsAreNumeral(suffix, HasMinus(r), r[x..], if HasHexPrefix(r) then 16 else 10);
    PrefixOf(r);
    t := Text(r[..x], r[x..], suffix, upper);
  }

  lemma PrefixOf(r: string)
    ensures var x := if HasHexPrefix(r) then 2 else 0;
            r[..x] in PREFIXES && r == r[..x] + r[x..] && (x == 0 <==> r[..x] == "") && (x == 0 ==> r[x..] == r)
  {
    if HasHexPrefix(r) {
      assert r[..2] == [r[0], r[1]] && (r[..2] == "0x" || r[..2] == "0X");
    }
    assert PREFIXES[0] == "" && PREFIXES[1] == "0x" && PREFIXES[2] == "0X";
  }

  /** Off the integer path the C library decides: on the text before a final f as a float, else on all of it as a
      double. */
  lemma FloatText(libc: Libc, s: string, text: string)
    requires !OnIntegerPath(text) && text != "" && text[|text| - 1] != 'f' && text[|text| - 1] != 'F'
    ensures ParseNumber(libc, s + "f")
         == if libc.strtof(s).None? then Err(InvalidArgument) else Ok(Float(libc.strtof(s).value))
    ensures ParseNumber(libc, text)
         == if libc.strtod(text).None? then Err(InvalidArgument) else Ok(Double(libc.strtod(text).value))
  {
    assert (s + "f")[..|s|] == s;
  }

  /** What is refused on the integer path is out of range; the empty text is an invalid argument. */
  lemma Refused(libc: Libc, s: string)
    ensures OnIntegerPath(s) && ParseNumber(libc, s).Err? ==> ParseNumber(libc, s) == Err(OutOfRange)
    ensures s == "" ==> ParseNumber(libc, s) == Err(InvalidArgument)
  {
  }

  lemma IntegerIsText(libc: Libc, s: string) returns (t: Text)
    requires ParseNumber(libc, s).Ok? && ParseNumber(libc, s).value.IsInteger()
    ensures t.Valid() && t.Spelled() == s
  {
    assert OnIntegerPath(s);
    t := AcceptedIsText(libc, s);
  }

  /** A list of candidate types as Candidates gives it. */
  predicate IsLadder(types: seq<uint8>) {
    types == [] || types == [6] || types == [0, 2, 4, 6] || types == [1, 3, 5, 7] || types == [1, 3, 5, 6, 7]
  }

  /** Which types the first that holds a value may be. */
  lemma FirstType(types: seq<uint8>, k: nat, v: int)
    requires IsLadder(types) && k < |types| && Holds(types[k], v) && forall j :: 0 <= j < k ==> !Holds(types[j], v)
    requires types == [1, 3, 5, 6, 7] ==> v >= 0
    ensures types[k] in {1, 3, 5, 7}
       <==> types == [1, 3, 5, 7] || (types == [1, 3, 5, 6, 7] && (v < 0x1_0000_0000 || TWO_64 <= 2 * v))
    ensures types[k] == 1 <==> (types == [1, 3, 5, 7] || types == [1, 3, 5, 6, 7]) && v < 0x100
  {
    if types == [1, 3, 5, 6, 7] {
      assert types[0] == 1 && types[1] == 3 && types[2] == 5 && types[3] == 6 && types[4] == 7;
      assert k > 3 ==> !Holds(types[3], v);
      assert k > 2 ==> !Holds(types[2], v);
    } else if types == [1, 3, 5, 7] {
      assert types[0] == 1 && types[1] == 3 && types[2] == 5 && types[3] == 7;
    } else if types == [0, 2, 4, 6] {
      assert types[0] == 0 && types[1] == 2 && types[2] == 4 && types[3] == 6;
    }
    assert k > 0 ==> !Holds(types[0], v);
  }

  /** Which accepted numerals have an unsigned type. */
  lemma UnsignedFirst(types: seq<uint8>, n: Number, v: int)
    requires IsLadder(types) && (forall k :: 0 <= k < |types| ==> types[k] < 8) && IsNarrowest(types, n, v)
    requires types == [1, 3, 5, 6, 7] ==> v >= 0
    ensures n.IsUnsignedInteger()
       <==> types == [1, 3, 5, 7] || (types == [1, 3, 5, 6, 7] && (v < 0x1_0000_0000 || TWO_64 <= 2 * v))
    ensures n.UInt8? <==> (types == [1, 3, 5, 7] || types == [1, 3, 5, 6, 7]) && v < 0x100
  {
    var k :| 0 <= k < |types| && types[k] == GetNumberType(n) && Holds(types[k], v)
             && forall j :: 0 <= j < k ==> !Holds(types[j], v);
    FirstType(types, k, v);
  }

  /** Which texts are accepted as unsigned numbers, and which as bytes. */
  lemma UnsignedTexts(libc: Libc, t: Text)
    requires t.Valid()
    ensures var r := ParseNumber(libc, t.Spelled()); r.Ok? ==> r.value.IsInteger() && r.value.Value() == t.Value()
    ensures var r := ParseNumber(libc, t.Spelled()); r.Ok? && r.value.IsUnsignedInteger() ==> t.NamesUnsigned()
    ensures var r := ParseNumber(libc, t.Spelled()); t.NamesUnsigned() ==> r.Ok? && r.value.IsUnsignedInteger()
    ensures var r := ParseNumber(libc, t.Spelled()); r.Ok? && r.value.UInt8? ==> t.NamesByte()
    ensures var r := ParseNumber(libc, t.Spelled()); t.NamesByte() ==> r.Ok? && r.value.UInt8?
  {
    var r, types := ParseNumber(libc, t.Spelled()), Candidates(t);
    ParserExact(libc, t);
    CandidatesHold(t);
    if r.Ok? { UnsignedFirst(types, r.value, t.Value()); }
  }

  lemma CandidatesHold(t: Text)
    requires t.Valid()
    ensures t.NamesUnsigned() || t.NamesByte() ==> SomeTypeHolds(Candidates(t), t.Value())
    ensures Candidates(t) in [[1, 3, 5, 7], [1, 3, 5, 6, 7]] && SomeTypeHolds(Candidates(t), t.Value()) ==>
              0 <= t.Value() < TWO_64
  {
    var types, v := Candidates(t), t.Value();
    LastHolds(types, v);
    if types == [1, 3, 5, 7] {
      assert types[|types| - 1] == 7;
    } else if types == [1, 3, 5, 6, 7] {
      assert types[|types| - 1] == 7;
    }
  }

  /** A decimal numeral without suffix is a text on the integer path. */
  lemma DecimalText(s: string) returns (t: Text)
    requires IsNumeral(s, 10)
    ensures t == Text("", s, NoSuffix, true) && t.Valid() && t.Spelled() == s && t.Value() == NumeralValue(s, 10)
  {
    t := Text("", s, NoSuffix, true);
    assert t.Spelled() == s;
    NumeralEnds(s, 10);
    forall k | 0 <= k < |s| ensures IsDigit(s[k], 10) || (k == 0 && s[k] == '-') {
      if HasMinus(s) && k > 0 { assert s[k] == Magnitude(s)[k - 1]; }
    }
  }

  /** Decimal numerals: accepted exactly from -2^63 to 2^64 - 1, each as the narrowest of its candidate types.  In
      particular only a leading minus leads to int8, int16 or int32. */
  lemma DecimalExact(libc: Libc, s: string)
    requires IsNumeral(s, 10)
    ensures var r, v := ParseNumber(libc, s), NumeralValue(s, 10);
            if -TWO_64 / 2 <= v < TWO_64 then
              r.Ok? && IsNarrowest(if HasMinus(s) then [0, 2, 4, 6] else [1, 3, 5, 6, 7], r.value, v)
            else r == Err(OutOfRange)
  {
    var t := DecimalText(s);
    ParserExact(libc, t);
    DecimalRange(t);
  }

  lemma DecimalRange(t: Text)
    requires t.Valid() && t.prefix == "" && t.suffix.NoSuffix?
    ensures Candidates(t) == if HasMinus(t.body) then [0, 2, 4, 6] else [1, 3, 5, 6, 7]
    ensures SomeTypeHolds(Candidates(t), t.Value()) <==> -TWO_64 / 2 <= t.Value() < TWO_64
  {
    LastHolds(Candidates(t), t.Value());
  }

  // ------------------------------------------------ printing and reparsing

  lemma {:induction false} NatStringParses(n: nat)
    ensures AllDigits(NatString(n), 10) && DigitsValue(NatString(n), 10) == n
  {
    var s := NatString(n);
    if n < 10 {
      assert s[..|s| - 1] == [];
    } else {
      NatStringParses(n / 10);
      assert s[..|s| - 1] == NatString(n / 10);
    }
  }

  /** No leading zeros are printed. */
  lemma {:induction false} NatStringCanonical(n: nat)
    ensures NatString(n)[0] == '0' <==> n == 0
  {
    if n >= 10 { NatStringCanonical(n / 10); }
  }

  lemma IntStringParses(n: int)
    ensures IsNumeral(IntString(n), 10) && NumeralValue(IntString(n), 10) == n
    ensures HasMinus(IntString(n)) <==> n < 0
  {
    NatStringParses(Abs(n));
    var digits := NatString(Abs(n));
    assert IsDigit(digits[0], 10);
    assert n < 0 ==> Magnitude(IntString(n)) == digits;
  }

  /** Printing an integer and parsing it back preserves the value. */
  lemma {:induction false} PrintParse(libc: Libc, n: Number)
    requires n.IsInteger()
    ensures var r := ParseNumber(libc, NumberToString(libc, n));
            r.Ok? && IsNarrowest(if n.Value() < 0 then [0, 2, 4, 6] else [1, 3, 5, 6, 7], r.value, n.Value())
  {
    PrintedInteger(libc, n);
    PrintedParses(libc, n.Value());
  }

  lemma PrintedInteger(libc: Libc, n: Number)
    requires n.IsInteger()
    ensures NumberToString(libc, n) == IntString(n.Value()) && -TWO_64 / 2 <= n.Value() < TWO_64
  {
  }

  lemma {:induction false} PrintedParses(libc: Libc, v: int)
    requires -TWO_64 / 2 <= v < TWO_64
    ensures var r := ParseNumber(libc, IntString(v));
            r.Ok? && IsNarrowest(if v < 0 then [0, 2, 4, 6] else [1, 3, 5, 6, 7], r.value, v)
  {
    IntStringParses(v);
    DecimalExact(libc, IntString(v));
  }

  lemma NarrowestUnique(types: seq<uint8>, a: Number, b: Number, v: int)
    requires forall k :: 0 <= k < |types| ==> types[k] < 8
    requires IsNarrowest(types, a, v) && IsNarrowest(types, b, v)
    ensures a == b
  {
    var i :| 0 <= i < |types| && types[i] == GetNumberType(a) && Holds(types[i], v)
             && forall j :: 0 <= j < i ==> !Holds(types[j], v);
    var k :| 0 <= k < |types| && types[k] == GetNumberType(b) && Holds(types[k], v)
             && forall j :: 0 <= j < k ==> !Holds(types[j], v);
    assert i == k;
  }

  /** On what a decimal numeral parses to, printing and reparsing is the identity, type included, unless the numeral
      is a negative zero.  Negative zero parses to int8 and prints as the zero that parses to uint8. */
  lemma ParsePrintParse(libc: Libc, s: string)
    requires IsNumeral(s, 10) && ParseNumber(libc, s).Ok?
    ensures var n := ParseNumber(libc, s).value;
            ParseNumber(libc, NumberToString(libc, n)) == Ok(n) <==> !(HasMinus(s) && NumeralValue(s, 10) == 0)
  {
    DecimalExact(libc, s);
    var n := ParseNumber(libc, s).value;
    PrintParse(libc, n);
    var m := ParseNumber(libc, NumberToString(libc, n)).value;
    if HasMinus(s) && n.Value() == 0 {
      assert Holds(0, 0) && Holds(1, 0);
    } else {
      NarrowestUnique(if n.Value() < 0 then [0, 2, 4, 6] else [1, 3, 5, 6, 7], m, n, n.Value());
    }
  }
}
