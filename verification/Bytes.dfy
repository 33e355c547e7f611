// Bytes, fixed-width integers and the byte orders in which Communo copies them.

module Bytes {

  type byte = x: int | 0 <= x < 0x100
  type Bytes = seq<byte>

  type int8 = x: int | -0x80 <= x < 0x80
  type uint8 = x: int | 0 <= x < 0x100
  type int16 = x: int | -0x8000 <= x < 0x8000
  type uint16 = x: int | 0 <= x < 0x1_0000
  type int32 = x: int | -0x8000_0000 <= x < 0x8000_0000
  type uint32 = x: int | 0 <= x < 0x1_0000_0000
  type int64 = x: int | -0x8000_0000_0000_0000 <= x < 0x8000_0000_0000_0000
  type uint64 = x: int | 0 <= x < 0x1_0000_0000_0000_0000

  const TWO_64 := 0x1_0000_0000_0000_0000

  datatype Option<+T> = None | Some(value: T)

  function Abs(x: int): nat { if x < 0 then -x else x }

  /** The number of values that fit in `width` bytes. */
  function Range(width: nat): (r: int)
    ensures r > 0
  {
    if width == 0 then 1 else 0x100 * Range(width - 1)
  }

  lemma Ranges()
    ensures Range(1) == 0x100 && Range(2) == 0x1_0000 && Range(4) == 0x1_0000_0000 && Range(8) == TWO_64
  {
    assert Range(3) == 0x100 * Range(2);
    assert Range(5) == 0x100 * Range(4);
    assert Range(6) == 0x100 * Range(5);
    assert Range(7) == 0x100 * Range(6);
  }

  // ------------------------------------------------ little endian: memcpy of a host integer

  function LittleEndian(n: nat, width: nat): (b: Bytes)
    ensures |b| == width
  {
    if width == 0 then [] else [n % 0x100] + LittleEndian(n / 0x100, width - 1)
  }

  function FromLittleEndian(b: Bytes): (n: nat)
    ensures n < Range(|b|)
  {
    if |b| == 0 then 0 else b[0] + 0x100 * FromLittleEndian(b[1..])
  }

  lemma {:induction false} LittleEndianRoundTrip(n: nat, width: nat)
    requires n < Range(width)
    ensures FromLittleEndian(LittleEndian(n, width)) == n
  {
    if width > 0 {
      LittleEndianRoundTrip(n / 0x100, width - 1);
      assert LittleEndian(n, width)[1..] == LittleEndian(n / 0x100, width - 1);
    }
  }

  lemma {:induction false} FromLittleEndianRoundTrip(b: Bytes)
    ensures LittleEndian(FromLittleEndian(b), |b|) == b
  {
    if |b| > 0 {
      FromLittleEndianRoundTrip(b[1..]);
      LowByte(b[0], FromLittleEndian(b[1..]));
      assert [b[0]] + b[1..] == b;
    }
  }

  lemma LowByte(low: byte, rest: nat)
    ensures (low + 0x100 * rest) % 0x100 == low && (low + 0x100 * rest) / 0x100 == rest
  {
  }

  // ------------------------------------------------ big endian: htons, htobe64

  function BigEndian(n: nat, width: nat): (b: Bytes)
    ensures |b| == width
  {
    if width == 0 then [] else BigEndian(n / 0x100, width - 1) + [n % 0x100]
  }

  function FromBigEndian(b: Bytes): (n: nat)
    ensures n < Range(|b|)
  {
    if |b| == 0 then 0 else b[|b| - 1] + 0x100 * FromBigEndian(b[..|b| - 1])
  }

  lemma {:induction false} BigEndianRoundTrip(n: nat, width: nat)
    requires n < Range(width)
    ensures FromBigEndian(BigEndian(n, width)) == n
  {
    if width > 0 {
      BigEndianRoundTrip(n / 0x100, width - 1);
      assert BigEndian(n, width)[..width - 1] == BigEndian(n / 0x100, width - 1);
    }
  }

  lemma {:induction false} FromBigEndianRoundTrip(b: Bytes)
    ensures BigEndian(FromBigEndian(b), |b|) == b
  {
    if |b| > 0 {
      FromBigEndianRoundTrip(b[..|b| - 1]);
      LowByte(b[|b| - 1], FromBigEndian(b[..|b| - 1]));
      assert b[..|b| - 1] + [b[|b| - 1]] == b;
    }
  }

  /** The k-th digit of `n` to the base 256, from the least. */
  function Digit(n: nat, k: nat): byte {
    if k == 0 then n % 0x100 else Digit(n / 0x100, k - 1)
  }

  /** Little endian begins with the least digit, big endian with the greatest. */
  lemma {:induction false} Digits(n: nat, width: nat, k: nat)
    requires k < width
    ensures LittleEndian(n, width)[k] == Digit(n, k) && BigEndian(n, width)[width - 1 - k] == Digit(n, k)
  {
    if k > 0 { Digits(n / 0x100, width - 1, k - 1); }
  }

  // ------------------------------------------------ two's complement

  /** The unsigned number with the same bytes as `v`. */
  function Unsigned(v: int, width: nat): (u: nat)
    requires -Range(width) <= 2 * v < Range(width)
    ensures u < Range(width)
  {
    if v < 0 then v + Range(width) else v
  }

  /** The signed number with the same bytes as `u`. */
  function Signed(u: nat, width: nat): (v: int)
    requires u < Range(width)
    ensures -Range(width) <= 2 * v < Range(width)
    ensures Unsigned(v, width) == u
  {
    if 2 * u < Range(width) then u else u - Range(width)
  }

  // ------------------------------------------------ sequences

  function Ascii(s: string): (b: Bytes)
    ensures |b| == |s|
  {
    seq(|s|, k requires 0 <= k < |s| => s[k] as int % 0x100)
  }

  function RemoveAt<T>(s: seq<T>, i: nat): (r: seq<T>)
    requires i < |s|
    ensures |r| == |s| - 1
  {
    s[..i] + s[i + 1..]
  }

  lemma Subslice<T>(s: seq<T>, lo: nat, hi: nat, i: nat, j: nat)
    requires lo <= hi <= |s| && i <= j <= hi - lo
    ensures s[lo..hi][i..j] == s[lo + i..lo + j]
  {
    forall k | 0 <= k < j - i ensures s[lo..hi][i..j][k] == s[lo + i..lo + j][k] {
      assert s[lo..hi][i + k] == s[lo + i + k];
    }
  }

  lemma CutConcat<T>(s: seq<T>, at: nat, a: seq<T>, b: seq<T>)
    requires at + |a| + |b| <= |s| && s[at..at + |a| + |b|] == a + b
    ensures s[at..at + |a|] == a && s[at + |a|..at + |a| + |b|] == b
  {
    Subslice(s, at, at + |a| + |b|, 0, |a|);
    Subslice(s, at, at + |a| + |b|, |a|, |a| + |b|);
  }

  lemma ThreeParts<T>(a: seq<T>, b: seq<T>, c: seq<T>)
    ensures var s := a + b + c;
            s[0..|a|] == a && s[|a|..|a| + |b|] == b && s[|a| + |b|..|s|] == c
  {
  }

  lemma SplitSlice<T>(s: seq<T>, lo: nat, mid: nat, hi: nat)
    requires lo <= mid <= hi <= |s|
    ensures s[lo..hi] == s[lo..mid] + s[mid..hi]
  {
  }

  lemma Associative<T>(a: seq<T>, b: seq<T>, c: seq<T>)
    ensures (a + b) + c == a + (b + c)
  {
  }
}
