// IEEE 754-2019 binary64 addition, as far as the addition handler uses it.
//
// Every finite binary64 value is a whole number of units of 2^-1074, so a finite value is an integer here and
// rounding is roundTiesToEven (section 4.3.1) of an integer to 53 significant bits.  Powers of two are shifts,
// which keeps every proof linear.

module Binary64 {
  import opened Bytes

  /** The least positive binary32 value is 2^widen units, one is 2^Unit() units, and 2^top units is the greatest
      unit in the last place: numbers that need a greater one overflow to infinity. */
  datatype Format = Format(widen: nat, top: nat) {
    function Unit(): nat { widen + 149 }
  }

  const BINARY64 := Format(925, 2045)

  const P52 := 0x10_0000_0000_0000
  const P53 := 0x20_0000_0000_0000

  datatype Double = Finite(units: int) | Infinite(negative: bool) | NaN

  // ------------------------------------------------ shifts

  /** x * 2^k */
  function Shift(x: int, k: nat): int {
    if k == 0 then x else 2 * Shift(x, k - 1)
  }

  /** n / 2^k, rounded down */
  function ShiftRight(n: nat, k: nat): nat {
    if k == 0 then n else ShiftRight(n / 2, k - 1)
  }

  lemma {:induction false} ShiftSum(x: int, y: int, k: nat)
    ensures Shift(x + y, k) == Shift(x, k) + Shift(y, k)
  {
    if k > 0 { ShiftSum(x, y, k - 1); }
  }

  lemma {:induction false} ShiftOrder(x: int, y: int, k: nat)
    ensures x <= y ==> Shift(x, k) <= Shift(y, k)
    ensures x < y ==> Shift(x, k) + Shift(1, k) <= Shift(y, k)
    ensures x < 0 ==> Shift(x, k) < 0
    ensures x >= 0 ==> Shift(x, k) >= x
    ensures Shift(-x, k) == -Shift(x, k)
  {
    if k > 0 { ShiftOrder(x, y, k - 1); }
  }

  lemma {:induction false} ShiftShift(x: int, i: nat, j: nat)
    ensures Shift(Shift(x, i), j) == Shift(x, i + j)
  {
    if j > 0 { ShiftShift(x, i, j - 1); }
  }

  /** A larger shift of a natural number is larger. */
  lemma ShiftMonotone(x: nat, i: nat, j: nat)
    requires i <= j
    ensures Shift(x, i) <= Shift(x, j)
  {
    ShiftOrder(x, x, i);
    ShiftShift(x, i, j - i);
    ShiftOrder(Shift(x, i), Shift(x, i), j - i);
  }

  lemma {:induction false} ShiftRightBounds(n: nat, k: nat)
    ensures Shift(ShiftRight(n, k), k) <= n < Shift(ShiftRight(n, k), k) + Shift(1, k)
  {
    if k > 0 { ShiftRightBounds(n / 2, k - 1); }
  }

  lemma {:induction false} ShiftRightShift(m: nat, k: nat)
    ensures Shift(m, k) >= 0 && ShiftRight(Shift(m, k), k) == m
  {
    ShiftOrder(m, m, k);
    if k > 0 {
      ShiftOrder(m, m, k - 1);
      ShiftRightShift(m, k - 1);
    }
  }

  // ------------------------------------------------ rounding

  /** The exponent of the unit in the last place of `n`, for a 53-bit significand. */
  function Scale(n: nat): nat {
    if n < P53 then 0 else 1 + Scale(n / 2)
  }

  /** The significand nearest to `n`, counted in units of the last place. */
  function Significand(n: nat): nat {
    var k := Scale(n);
    var q := ShiftRight(n, k);
    var twice, ulp := 2 * (n - Shift(q, k)), Shift(1, k);
    if twice < ulp || (twice == ulp && q % 2 == 0) then q else q + 1
  }

  function RoundNat(n: nat): nat {
    ShiftOrder(Significand(n), 0, Scale(n));
    Shift(Significand(n), Scale(n))
  }

  /** roundTiesToEven to 53 significant bits. */
  function Round(n: int): int {
    if n < 0 then 0 - RoundNat(-n) else RoundNat(n)
  }

  /** `x` is an integer with at most 53 significant bits. */
  ghost predicate Representable(x: nat) {
    exists m: nat, j: nat :: IsScaled(x, m, j)
  }

  ghost predicate IsScaled(x: nat, m: nat, j: nat) {
    m < P53 && x == Shift(m, j)
  }

  lemma {:induction false} ScaleBounds(n: nat)
    ensures n < Shift(P53, Scale(n))
    ensures Scale(n) > 0 ==> Shift(P52, Scale(n)) <= n
    ensures ShiftRight(n, Scale(n)) < P53
    ensures Scale(n) > 0 ==> P52 <= ShiftRight(n, Scale(n))
  {
    if n >= P53 {
      ScaleBounds(n / 2);
    }
  }

  lemma {:induction false} ScaleLeast(n: nat, j: nat)
    requires n < Shift(P53, j)
    ensures Scale(n) <= j
  {
    if n >= P53 {
      ScaleLeast(n / 2, j - 1);
    }
  }

  /** Half a unit in the last place. */
  lemma RoundError(n: int, j: nat)
    requires Abs(n) < Shift(P53, j)
    ensures 2 * Abs(Round(n) - n) <= Shift(1, j)
  {
    var k := Scale(Abs(n));
    ScaleLeast(Abs(n), j);
    ShiftMonotone(1, k, j);
    ShiftRightBounds(Abs(n), k);
    ShiftSum(ShiftRight(Abs(n), k), 1, k);
  }

  lemma RoundStaysBelow(n: int, j: nat)
    requires Abs(n) < Shift(P53, j)
    ensures Abs(Round(n)) <= Shift(P53, j)
  {
    var k := Scale(Abs(n));
    ScaleLeast(Abs(n), j);
    ScaleBounds(Abs(n));
    ShiftOrder(Significand(Abs(n)), P53, k);
    ShiftMonotone(P53, k, j);
  }

  lemma RoundSmall(n: int)
    requires Abs(n) <= P53
    ensures Round(n) == n
  {
    if Abs(n) == P53 {
      assert Scale(P53) == 1 + Scale(P52) == 1;
      assert ShiftRight(P53, 1) == ShiftRight(P52, 0) == P52;
      assert Shift(P52, 1) == 2 * Shift(P52, 0) && Shift(1, 1) == 2 * Shift(1, 0);
    }
  }

  lemma RoundDoubled(n: nat)
    ensures RoundNat(2 * n) == 2 * RoundNat(n)
  {
    if n >= P53 {
      var k := Scale(n);
      assert Scale(2 * n) == 1 + k;
      assert ShiftRight(2 * n, k + 1) == ShiftRight(n, k);
      assert Significand(2 * n) == Significand(n);
    } else {
      RoundSmall(n);
      if n >= P52 {
        assert Scale(2 * n) == 1 + Scale(n) == 1;
        assert ShiftRight(2 * n, 1) == ShiftRight(n, 0) == n;
        assert Shift(n, 1) == 2 * Shift(n, 0) && Shift(1, 1) == 2 * Shift(1, 0);
      } else {
        RoundSmall(2 * n);
      }
    }
  }

  /** Rounding does not depend on the unit in which the number is counted. */
  lemma {:induction false} RoundUnit(n: int, j: nat)
    ensures Round(Shift(n, j)) == Shift(Round(n), j)
  {
    if j > 0 {
      RoundUnit(n, j - 1);
      RoundDoubled(Abs(Shift(n, j - 1)));
    }
  }

  /** Of the two neighbours of `n`, and of anything beyond them, the rounded one is nearest. */
  lemma NearerNeighbour(n: int, below: int, ulp: int, q: int, x: int)
    requires below <= n < below + ulp
    requires x + ulp <= below || x == below || x == below + ulp || below + ulp + ulp <= x
    ensures var down := 2 * (n - below) < ulp || (2 * (n - below) == ulp && q % 2 == 0);
            var rounded, significand := if down then below else below + ulp, if down then q else q + 1;
            var d := Abs(n - rounded);
            x == rounded || d < Abs(n - x) || (d == Abs(n - x) && significand % 2 == 0)
  {
  }

  /** A multiple of 2^k is not strictly between two consecutive ones. */
  lemma MultiplesApart(t: int, q: int, k: nat)
    ensures var x, below, ulp := Shift(t, k), Shift(q, k), Shift(1, k);
            x + ulp <= below || x == below || x == below + ulp || below + ulp + ulp <= x
  {
    ShiftSum(q, 1, k);
    if t < q { ShiftOrder(t, q, k); }
    if t > q + 1 { ShiftOrder(q + 1, t, k); }
  }

  /** Which of its two neighbours a number is rounded to. */
  lemma RoundedTo(n: nat)
    ensures var k := Scale(n);
            var q := ShiftRight(n, k);
            var below, ulp := Shift(q, k), Shift(1, k);
            var down := 2 * (n - below) < ulp || (2 * (n - below) == ulp && q % 2 == 0);
            && below <= n < below + ulp
            && RoundNat(n) == (if down then below else below + ulp) && Significand(n) == if down then q else q + 1
  {
    ShiftRightBounds(n, Scale(n));
    ShiftSum(ShiftRight(n, Scale(n)), 1, Scale(n));
  }

  /** No multiple of the last place is nearer to `n` than the rounded value; in a tie the significand is even. */
  lemma NearestMultiple(n: nat, t: int)
    ensures var d, x := Abs(n - RoundNat(n)), Shift(t, Scale(n));
            x == RoundNat(n) || d < Abs(n - x) || (d == Abs(n - x) && Significand(n) % 2 == 0)
  {
    var k := Scale(n);
    var q := ShiftRight(n, k);
    RoundedTo(n);
    MultiplesApart(t, q, k);
    NearerNeighbour(n, Shift(q, k), Shift(1, k), q, Shift(t, k));
  }

  /** A representable number with a finer last place lies below the binade of `n`. */
  lemma FinerIsBelow(n: nat, x: nat, m: nat, j: nat)
    requires IsScaled(x, m, j) && j < Scale(n)
    ensures x < Shift(P52, Scale(n)) <= n
  {
    ScaleBounds(n);
    ShiftOrder(m, P53, j);
    ShiftOrder(1, 1, j);
    ShiftMonotone(P53, j, Scale(n) - 1);
    ShiftShift(P52, 1, Scale(n) - 1);
    assert Shift(P52, 1) == 2 * Shift(P52, 0) == P53;
  }

  lemma RoundedIsRepresentable(n: nat)
    ensures Representable(RoundNat(n))
  {
    var k := Scale(n);
    ScaleBounds(n);
    if Significand(n) < P53 {
      assert IsScaled(RoundNat(n), Significand(n), k);
    } else {
      ShiftShift(P52, 1, k);
      assert Shift(P52, 1) == 2 * Shift(P52, 0) == P53;
      assert IsScaled(RoundNat(n), P52, k + 1);
    }
  }

  /** RoundNat is roundTiesToEven: the result is representable, no representable number is nearer, and of two
      nearest ones the result is the one with the even significand. */
  lemma RoundIsNearestEven(n: nat, x: nat)
    requires Representable(x)
    ensures Representable(RoundNat(n))
    ensures var d := Abs(n - RoundNat(n));
            x == RoundNat(n) || d < Abs(n - x) || (d == Abs(n - x) && Significand(n) % 2 == 0)
  {
    var k := Scale(n);
    RoundedIsRepresentable(n);
    var m: nat, j: nat :| IsScaled(x, m, j);
    if k == 0 {
      RoundSmall(n);
    } else if j >= k {
      ShiftShift(m, j - k, k);
      NearestMultiple(n, Shift(m, j - k));
    } else {
      FinerIsBelow(n, x, m, j);
      NearestMultiple(n, P52);
    }
  }

  // ------------------------------------------------ addition

  function FromUnits(f: Format, units: int): Double {
    if Scale(Abs(units)) > f.top then Infinite(units < 0) else Finite(units)
  }

  /** The handler's sum starts at +0 and exact cancellation gives +0, so the sign of zero plays no part. */
  function Add(f: Format, a: Double, b: Double): Double {
    match (a, b)
    case (Finite(x), Finite(y)) => FromUnits(f, Round(x + y))
    case (Infinite(s), Infinite(t)) => if s == t then a else NaN
    case (NaN, _) => NaN
    case (_, NaN) => NaN
    case (Infinite(_), Finite(_)) => a
    case (Finite(_), Infinite(_)) => b
  }

  /** static_cast<double> of an integer. */
  function FromInteger(f: Format, n: int): Double {
    FromUnits(f, Round(Shift(n, f.Unit())))
  }

  /** The value `x` as a double, without rounding. */
  function Exactly(f: Format, x: int): Double {
    Finite(Shift(x, f.Unit()))
  }

  /** Integers up to 2^75 are far from overflow. */
  ghost predicate Roomy(f: Format) { f.Unit() + 23 <= f.top }

  /** Below 2^75 rounding in units of the format is rounding of the integer. */
  lemma RoundInteger(f: Format, n: int)
    requires Roomy(f) && Abs(n) < Shift(P53, 22)
    ensures FromUnits(f, Round(Shift(n, f.Unit()))) == Exactly(f, Round(n))
  {
    RoundUnit(n, f.Unit());
    RoundStaysBelow(n, 22);
    BelowLimit(f, Round(n));
  }

  lemma BelowLimit(f: Format, n: int)
    requires Roomy(f) && Abs(n) <= Shift(P53, 22)
    ensures Scale(Abs(Shift(n, f.Unit()))) <= f.top
  {
    assert Shift(P53, 23) == 2 * Shift(P53, 22) > Shift(P53, 22) by { ShiftOrder(P53, P53, 22); }
    ShiftShift(P53, 23, f.Unit());
    ShiftOrder(Abs(n), Shift(P53, 23), f.Unit());
    ShiftOrder(n, n, f.Unit());
    ShiftOrder(1, 1, f.Unit());
    ScaleLeast(Abs(Shift(n, f.Unit())), 23 + f.Unit());
  }

  lemma ShiftBy2(x: int, k: nat)
    ensures Shift(x, k + 2) == 4 * Shift(x, k)
  {
    assert Shift(x, k + 1) == 2 * Shift(x, k);
  }

  lemma ShiftBy11(x: int, k: nat)
    ensures Shift(x, k + 11) == 0x800 * Shift(x, k)
  {
    ShiftBy2(x, k);
    ShiftBy2(x, k + 2);
    ShiftBy2(x, k + 4);
    ShiftBy2(x, k + 6);
    ShiftBy2(x, k + 8);
  }

  lemma SmallShifts(x: int)
    ensures Shift(x, 11) == 0x800 * x && Shift(x, 22) == 0x40_0000 * x
  {
    ShiftBy11(x, 0);
    ShiftBy11(x, 11);
  }

  // ------------------------------------------------ bit patterns

  const SIGN_64 := 0x8000_0000_0000_0000
  const SIGN_32 := 0x8000_0000
  const P23 := 0x80_0000

  function WithSign(negative: bool, magnitude: nat): Double {
    Finite(if negative then 0 - magnitude else magnitude)
  }

  /** The double with the given bits. */
  function FromBits64(bits: uint64): Double {
    var negative, e, m := bits >= SIGN_64, bits / P52 % 0x800, bits % P52;
    if e == 0x7FF then (if m == 0 then Infinite(negative) else NaN)
    else if e == 0 then WithSign(negative, m)
    else
      ShiftOrder(P52 + m, 0, e - 1);
      WithSign(negative, Shift(P52 + m, e - 1))
  }

  /** static_cast<double> of the float with the given bits. */
  function FromBits32(f: Format, bits: uint32): Double {
    var negative, e, m := bits >= SIGN_32, bits / P23 % 0x100, bits % P23;
    if e == 0xFF then (if m == 0 then Infinite(negative) else NaN)
    else
      var magnitude := if e == 0 then m else Shift(P23 + m, e - 1);
      Finite(Shift(if negative then 0 - magnitude else magnitude, f.Unit() - 149))
  }

  /** The bits of a double.  Which NaN a sum yields is up to the machine; this is the quiet default. */
  function ToBits64(d: Double): nat {
    match d
    case Finite(v) => Scale(Abs(v)) * P52 + ShiftRight(Abs(v), Scale(Abs(v))) + if v < 0 then SIGN_64 else 0
    case Infinite(negative) => 0x7FF * P52 + if negative then SIGN_64 else 0
    case NaN => 0x7FF * P52 + P52 / 2
  }

  /** `d` is a value of the format: infinite, not a number, or finite and representable. */
  ghost predicate IsDouble(f: Format, d: Double) {
    d.Finite? ==> Representable(Abs(d.units)) && Scale(Abs(d.units)) <= f.top
  }

  lemma AddIsDouble(f: Format, a: Double, b: Double)
    requires IsDouble(f, a) && IsDouble(f, b)
    ensures IsDouble(f, Add(f, a, b))
  {
    if a.Finite? && b.Finite? {
      RoundedIsRepresentable(Abs(a.units + b.units));
    }
  }

  lemma RepresentableSplit(x: nat)
    requires Representable(x)
    ensures Shift(ShiftRight(x, Scale(x)), Scale(x)) == x
  {
    var m: nat, j: nat :| IsScaled(x, m, j);
    var k := Scale(x);
    ShiftOrder(m, P53, j);
    ShiftOrder(1, 1, j);
    ScaleLeast(x, j);
    ShiftOrder(m, m, j - k);
    ShiftShift(m, j - k, k);
    ShiftRightShift(Shift(m, j - k), k);
  }

  /** The bits of a double determine it: what the client copies out of the reply is what the server put in. */
  lemma BitsRoundTrip(d: Double)
    requires IsDouble(BINARY64, d)
    ensures ToBits64(d) < TWO_64
    ensures FromBits64(ToBits64(d)) == d
  {
    if d.Finite? {
      FiniteBits(BINARY64, d.units);
    }
  }

  lemma FiniteBits(f: Format, v: int)
    requires f.top == 2045
    requires Representable(Abs(v)) && Scale(Abs(v)) <= f.top
    ensures ToBits64(Finite(v)) < TWO_64
    ensures FromBits64(ToBits64(Finite(v))) == Finite(v)
  {
    var k := Scale(Abs(v));
    var q := ShiftRight(Abs(v), k);
    ScaleBounds(Abs(v));
    RepresentableSplit(Abs(v));
    var e, m := if q < P52 then 0 else k + 1, if q < P52 then q else q - P52;
    Fields(v < 0, e, m);
  }

  lemma Fields(negative: bool, e: nat, m: nat)
    requires e < 0x800 && m < P52
    ensures var bits := e * P52 + m + if negative then SIGN_64 else 0;
            0 <= bits < TWO_64 && (bits >= SIGN_64) == negative && bits / P52 % 0x800 == e && bits % P52 == m
  {
    var bits := e * P52 + m + if negative then SIGN_64 else 0;
    assert bits / P52 == e + if negative then 0x800 else 0;
  }

  lemma ScaledIsDouble(f: Format, negative: bool, m: nat, j: nat)
    requires m < P53 && j <= f.top
    ensures IsDouble(f, Finite(Shift(if negative then 0 - m else m, j)))
    ensures Shift(m, j) >= 0
  {
    var x := Shift(m, j);
    ShiftOrder(m, P53, j);
    ShiftOrder(1, 1, j);
    assert IsScaled(x, m, j);
    ScaleLeast(x, j);
  }

  lemma FromBits64IsDouble(f: Format, bits: uint64)
    requires f.top == 2045
    ensures IsDouble(f, FromBits64(bits))
  {
    var negative, e, m := bits >= SIGN_64, bits / P52 % 0x800, bits % P52;
    var significand, j := if e == 0 then m else P52 + m, if e == 0 then 0 else e - 1;
    if e != 0x7FF {
      ScaledIsDouble(f, negative, significand, j);
      ShiftOrder(significand, significand, j);
    }
  }

  lemma FromBits32IsDouble(f: Format, bits: uint32)
    requires f.top == 2045 && f.widen == 925
    ensures IsDouble(f, FromBits32(f, bits))
  {
    var negative, e, m := bits >= SIGN_32, bits / P23 % 0x100, bits % P23;
    var significand, j := if e == 0 then m else P23 + m, if e == 0 then 0 else e - 1;
    if e != 0xFF {
      ScaledIsDouble(f, negative, significand, j + f.widen);
      ShiftOrder(significand, significand, j);
      ShiftShift(if negative then 0 - significand else significand, j, f.widen);
    }
  }

  // ------------------------------------------------ the bits of integers

  /** The 64 bits denote the integer `x` (section 3.4 of IEEE 754-2019): a sign bit, eleven bits of an exponent with
      bias 1023, and 52 bits of a significand whose leading one is implied.  Zero is all zeros. */
  predicate Denotes(bits: nat, x: int) {
    var e, m := bits / P52 % 0x800, bits % P52;
    if x == 0 then bits == 0
    else
      bits < TWO_64 && (bits >= SIGN_64 <==> x < 0) && 1023 <= e < 0x7FF
      && Shift(Abs(x), 52) == Shift(P52 + m, e - 1023)
  }

  /** The scale and the significand of a number that is given with a full significand. */
  lemma FullSignificand(q: nat, j: nat)
    requires P52 <= q < P53
    ensures Shift(q, j) >= 0 && Scale(Shift(q, j)) == j && ShiftRight(Shift(q, j), j) == q
  {
    ShiftRightShift(q, j);
    ShiftOrder(q, P53, j);
    ShiftOrder(1, 1, j);
    ScaleLeast(Shift(q, j), j);
    if j > 0 {
      ShiftOrder(P52, q, j);
      ShiftShift(P52, 1, j - 1);
      assert Shift(P52, 1) == 2 * Shift(P52, 0) == P53;
      ScaleAtLeast(Shift(q, j), j);
    }
  }

  lemma {:induction false} ScaleAtLeast(n: nat, j: nat)
    requires j > 0 && Shift(P53, j - 1) <= n
    ensures Scale(n) >= j
  {
    ShiftOrder(P53, P53, j - 1);
    if j > 1 { ScaleAtLeast(n / 2, j - 1); }
  }

  /** The bits of an integer: `q` is its significand, scaled to have 53 bits, and 2^k the power of two below it. */
  lemma IntegerBits(f: Format, x: int, q: nat, k: nat)
    requires f.Unit() == 1074 && P52 <= q < P53 && Shift(Abs(x), 52) == Shift(q, k)
    ensures ToBits64(Exactly(f, x)) == (1023 + k) * P52 + (q - P52) + if x < 0 then SIGN_64 else 0
  {
    var ones := f.Unit();
    ShiftOrder(x, x, ones);
    ShiftOrder(Abs(x), Abs(x), ones);
    ShiftOrder(0, 0, ones);
    assert Abs(Shift(x, ones)) == Shift(Abs(x), ones);
    ShiftShift(Abs(x), 52, ones - 52);
    ShiftShift(q, k, ones - 52);
    FullSignificand(q, k + (ones - 52));
    SignKept(x, ones);
  }

  lemma SignKept(x: int, k: nat)
    ensures Shift(x, k) < 0 <==> x < 0
  {
    ShiftOrder(x, x, k);
  }

  /** An integer below 2^53 shifted to a full significand. */
  lemma {:induction false} Normalized(n: nat) returns (t: nat)
    requires 0 < n < P53
    ensures t <= 52 && P52 <= Shift(n, t) < P53
  {
    t := NormalizedFrom(n, 0);
  }

  lemma {:induction false} NormalizedFrom(n: nat, i: nat) returns (t: nat)
    requires 0 < n && i <= 52 && Shift(1, i) <= Shift(n, i) < P53
    ensures i <= t <= 52 && P52 <= Shift(n, t) < P53
    decreases 52 - i
  {
    if Shift(n, i) >= P52 {
      t := i;
    } else if i == 52 {
      FiftyTwo();
      t := i;
    } else {
      t := NormalizedFrom(n, i + 1);
    }
  }

  lemma FiftyTwo()
    ensures Shift(1, 52) == P52
  {
    ShiftBy11(1, 0);
    ShiftBy11(1, 11);
    ShiftBy11(1, 22);
    ShiftBy11(1, 33);
    ShiftBy2(1, 44);
    ShiftBy2(1, 46);
    ShiftBy2(1, 48);
    ShiftBy2(1, 50);
  }

  /** Every representable integer up to 2^75, written as a double, has the bits that denote it. */
  lemma IntegerDenoted(f: Format, x: int)
    requires f.Unit() == 1074 && Representable(Abs(x)) && Abs(x) <= Shift(P53, 22)
    ensures Denotes(ToBits64(Exactly(f, x)), x)
  {
    if x == 0 {
      ShiftOrder(0, 0, f.Unit());
      assert Exactly(f, x) == Finite(0);
    } else {
      var q, k := NormalForm(Abs(x));
      IntegerBits(f, x, q, k);
      Fields(x < 0, 1023 + k, q - P52);
    }
  }

  lemma NormalForm(n: nat) returns (q: nat, k: nat)
    requires 0 < n <= Shift(P53, 22) && Representable(n)
    ensures P52 <= q < P53 && k <= 75 && Shift(n, 52) == Shift(q, k)
  {
    var j := Scale(n);
    if j == 0 {
      var t := Normalized(n);
      q, k := Shift(n, t), 52 - t;
      ShiftShift(n, t, 52 - t);
    } else {
      q, k := ShiftRight(n, j), j + 52;
      ScaleBounds(n);
      RepresentableSplit(n);
      ShiftShift(q, j, 52);
      assert Shift(P53, 23) == 2 * Shift(P53, 22) > Shift(P53, 22) by { ShiftOrder(P53, P53, 22); }
      ScaleLeast(n, 23);
    }
  }

  /** The bits of an integer up to 2^53, with 2^k below or equal to it: sign, exponent and fraction. */
  lemma SmallIntegerBits(x: int, k: nat)
    requires k <= 52 && Shift(1, k) <= Abs(x) < Shift(1, k + 1)
    ensures ToBits64(Exactly(BINARY64, x))
         == (1023 + k) * P52 + Shift(Abs(x) - Shift(1, k), 52 - k) + if x < 0 then SIGN_64 else 0
  {
    var n, t := Abs(x), 52 - k;
    PowerShifted(k, t);
    PowerShifted(k + 1, t);
    FiftyTwo();
    ShiftOrder(1, 1, t);
    ShiftOrder(Shift(1, k), n, t);
    ShiftOrder(n, Shift(1, k + 1), t);
    ShiftSum(n - Shift(1, k), Shift(1, k), t);
    ShiftShift(n, t, k);
    IntegerBits(BINARY64, x, Shift(n, t), k);
  }

  lemma PowerShifted(k: nat, t: nat)
    ensures Shift(Shift(1, k), t) == Shift(1, k + t)
    ensures k + t == 53 ==> Shift(1, k + t) == 2 * Shift(1, 52)
  {
    ShiftShift(1, k, t);
  }

  /** For example, the bits of 3. */
  lemma BitsOfThree()
    ensures ToBits64(Exactly(BINARY64, 3)) == 0x4008_0000_0000_0000
  {
    SmallIntegerBits(3, 1);
    FiftyTwo();
    assert Shift(1, 52) == 2 * Shift(1, 51);
  }

  /** Different integers have different bits. */
  lemma DenotedOnce(bits: nat, x: int, y: int)
    requires Denotes(bits, x) && Denotes(bits, y)
    ensures x == y
  {
    if x != 0 && y != 0 {
      ShiftOrder(Abs(x), Abs(y), 52);
      ShiftOrder(Abs(y), Abs(x), 52);
      ShiftOrder(1, 1, 52);
    }
  }

  // ------------------------------------------------ floats, and sums of doubles

  /** A float with a full significand, widened to a double: the same sign, the exponent with the bias of 1023 in place
      of 127, and the fraction with 29 zeros appended. */
  lemma FloatWidened(f: Format, negative: bool, e: nat, m: nat)
    requires f.Unit() == 1074 && 1 <= e <= 254 && m < P23
    ensures var bits32 := e * P23 + m + if negative then SIGN_32 else 0;
            var bits64 := (e + 896) * P52 + m * 0x2000_0000 + if negative then SIGN_64 else 0;
            0 <= bits32 < 0x1_0000_0000 && 0 <= bits64 < TWO_64 && FromBits32(f, bits32) == FromBits64(bits64)
  {
    Fields32(negative, e, m);
    Fields(negative, e + 896, m * 0x2000_0000);
    var widen := f.Unit() - 149;
    ShiftShift(P23 + m, e - 1, widen);
    ShiftBy29(P23 + m);
    ShiftShift(P23 + m, 29, e + 895);
    ShiftOrder(Shift(P23 + m, e - 1), 0, widen);
  }

  lemma Fields32(negative: bool, e: nat, m: nat)
    requires e < 0x100 && m < P23
    ensures var bits := e * P23 + m + if negative then SIGN_32 else 0;
            0 <= bits < 0x1_0000_0000 && (bits >= SIGN_32) == negative && bits / P23 % 0x100 == e && bits % P23 == m
  {
    var bits := e * P23 + m + if negative then SIGN_32 else 0;
    assert bits / P23 == e + if negative then 0x100 else 0;
  }

  lemma ShiftBy29(x: int)
    ensures Shift(x, 29) == 0x2000_0000 * x
  {
    ShiftBy11(x, 0);
    ShiftBy11(x, 11);
    ShiftBy2(x, 22);
    ShiftBy2(x, 24);
    ShiftBy2(x, 26);
  }

  /** A number overflows to infinity if and only if it is at least 2^53 units of the greatest last place. */
  lemma OverflowIff(f: Format, units: int)
    ensures FromUnits(f, units) == if Abs(units) < Shift(P53, f.top) then Finite(units) else Infinite(units < 0)
  {
    if Abs(units) < Shift(P53, f.top) {
      ScaleLeast(Abs(units), f.top);
    } else {
      ScaleBounds(Abs(units));
      if Scale(Abs(units)) <= f.top { ShiftMonotone(P53, Scale(Abs(units)), f.top); }
    }
  }

  /** The sum of two finite doubles: nothing representable is nearer to the exact sum, and the result is infinite if and
      only if this nearest number is too great. */
  lemma AddIsNearest(f: Format, x: int, y: int, z: int)
    requires Representable(Abs(z))
    ensures var nearest := Round(x + y);
            && Abs(nearest - (x + y)) <= Abs(z - (x + y))
            && Add(f, Finite(x), Finite(y))
                 == if Abs(nearest) < Shift(P53, f.top) then Finite(nearest) else Infinite(nearest < 0)
  {
    OverflowIff(f, Round(x + y));
    if z >= 0 <==> x + y >= 0 {
      RoundIsNearestEven(Abs(x + y), Abs(z));
    } else {
      assert IsScaled(0, 0, 0);
      RoundIsNearestEven(Abs(x + y), 0);
    }
  }

  /** Infinities absorb what is finite, equal ones stay, and opposite ones, like anything with NaN, give NaN. */
  lemma AddInfinite(f: Format, a: Double, b: Double)
    ensures Add(f, a, b).NaN? <==> a.NaN? || b.NaN? || (a.Infinite? && b.Infinite? && a.negative != b.negative)
    ensures !Add(f, a, b).NaN? && a.Infinite? ==> Add(f, a, b) == a
    ensures !Add(f, a, b).NaN? && b.Infinite? ==> Add(f, a, b) == b
  {
  }
}
