/** Why roundShortest may stop at once: the exact digits are already coarser than the gap between neighbours. */
module AlreadyShortest {
  import opened Powers
  import opened Digits
  import opened DecimalSpec
  import opened DecimalValue
  import opened FloatBounds

  /** The test of rounding.go for an exact decimal d of mant * 2^(exp - mantbits). */
  predicate CoarseEnough(d: Dec, exp: int, flt: FloatInfo) {
    exp > MinExp(flt) && 332 * (d.dp - |d.digits|) >= 100 * (exp - flt.mantbits)
  }

  lemma LastDigit(d: Dec)
    requires Normal(d) && d.digits != []
    ensures Num(d.digits) % 10 != 0 && Num(d.digits) > 0
  {
    NumLeading(d.digits);
    PowPositive(10, |d.digits| - 1);
  }

  /** A number of fewer digits misses d by at least a unit of d's last digit. */
  lemma ShorterIsFar(d: Dec, n: nat, M: nat, f: int)
    requires Normal(d) && n < |d.digits| && M < Pow(10, n)
    ensures var u := RPow(10, d.dp - |d.digits|);
            Float10(M, f) >= Value(d) + u || Float10(M, f) <= Value(d) - u
  {
    var y, N := d.dp - |d.digits|, Num(d.digits);
    hide RPow, Float10, Num, Pow, Value;
    LastDigit(d);
    ValueIs(d);
    RPowPositive(10, y);
    if f > y {
      var z := f - y;
      Float10Shift(M, y, z);
      assert y + z == f;
      TenDivides(M, z);
      Float10Gap(M * Pow(10, z), N, y);
    } else {
      NumLeading(d.digits);
      PowMonotone(10, n, |d.digits| - 1);
      RPowMonotone(10, f, y);
      RPowPositive(10, f);
      Float10Gap(M, N, y);
      Float10Lower(M, f, y);
    }
  }

  lemma TenDivides(M: nat, z: nat)
    requires z > 0
    ensures (M * Pow(10, z)) % 10 == 0
  {
    assert M * Pow(10, z) == 10 * (M * Pow(10, z - 1));
  }

  lemma Float10Gap(a: int, b: int, y: int)
    requires a != b
    ensures a > b ==> Float10(a, y) >= Float10(b, y) + RPow(10, y)
    ensures a < b ==> Float10(a, y) <= Float10(b, y) - RPow(10, y)
  {
    RPowPositive(10, y);
    Float10Is(a, y);
    Float10Is(b, y);
    hide RPow, Float10;
    GapArith(a, b, RPow(10, y));
  }

  lemma GapArith(a: int, b: int, p: real)
    requires p > 0.0
    ensures a > b ==> Times(a as real, p) >= Times(b as real, p) + p
    ensures a < b ==> Times(a as real, p) <= Times(b as real, p) - p
  {
    if a > b {
      OneMore(b, p);
      RMulLe((b + 1) as real, a as real, p);
    } else if a < b {
      OneMore(a, p);
      RMulLe((a + 1) as real, b as real, p);
    }
  }

  lemma OneMore(n: int, p: real)
    ensures (n + 1) as real * p == n as real * p + p
  {
  }

  lemma Float10Lower(M: nat, f: int, y: int)
    requires f <= y
    ensures Float10(M, f) <= Float10(M, y)
  {
    RPowMonotone(10, f, y);
    hide RPow;
    LowerArith(M as real, RPow(10, f), RPow(10, y));
  }

  lemma LowerArith(m: real, p: real, q: real)
    requires 0.0 <= m && p <= q
    ensures m * p <= m * q
  {
  }

  // A unit of the last digit against half a unit of the last bit.

  lemma TenHundred()
    ensures Pow(2, 332) <= Pow(10, 100)
  {
    PowPow(10, 25, 4);
    PowPow(2, 83, 4);
    TenTwentyFive();
    hide Pow;
    PowBaseMonotone(Pow(2, 83), Pow(10, 25), 4);
  }

  lemma TenTwentyFive()
    ensures Pow(2, 83) <= Pow(10, 25)
  {
    SmallTwos();
    SmallTens();
    hide *;
    PowAdd(2, 28, 55);
    PowAdd(2, 27, 28);
    PowAdd(10, 10, 15);
  }

  lemma SmallTwos()
    ensures Pow(2, 27) == 134217728 && Pow(2, 28) == 268435456
  {
    assert Pow(2, 13) == 8192 && Pow(2, 14) == 16384;
    hide Pow;
    PowAdd(2, 14, 14);
    PowAdd(2, 13, 14);
  }

  lemma SmallTens()
    ensures Pow(10, 10) == 10_000_000_000 && Pow(10, 15) == 1_000_000_000_000_000
  {
    assert Pow(10, 5) == 100000 && Pow(10, 10) == 10_000_000_000;
    hide Pow;
    PowAdd(10, 10, 5);
  }

  /** 332/100 is below the logarithm of ten to base two. */
  lemma TenAgainstTwo(y: nat, e: nat)
    requires 332 * y >= 100 * e
    ensures Pow(2, e) <= Pow(10, y)
  {
    hide *;
    TenHundred();
    PowBaseMonotone(Pow(2, 332), Pow(10, 100), y);
    PowPow(2, 332, y);
    PowPow(10, 100, y);
    PowMonotone(2, 100 * e, 332 * y);
    PowPow(2, e, 100);
    PowPow(10, y, 100);
    assert e * 100 == 100 * e && y * 100 == 100 * y;
    if Pow(10, y) < Pow(2, e) {
      PowBaseStrict(Pow(10, y), Pow(2, e), 100);
    }
  }

  lemma SmallPowers(r: nat) returns (e: nat)
    requires r < 3
    ensures e == (if r == 0 then 0 else if r == 1 then 4 else 7)
    ensures Pow(10, r) <= Pow(2, e)
    ensures Pow(10, 3) == 1000 && Pow(2, 10) == 1024
  {
    e := if r == 0 then 0 else if r == 1 then 4 else 7;
    assert Pow(2, 4) == 16 && Pow(2, 7) == 128 && Pow(10, 1) == 10 && Pow(10, 2) == 100;
  }

  lemma ProductLe(a: nat, b: nat, c: nat, d: nat)
    requires a <= b && c <= d
    ensures a * c <= b * d
  {
    MulLe(a, b, c);
    MulLe(c, d, b);
  }

  /** Thousands against 1024s, and what remains. */
  lemma ThreeByThree(q: nat, r: nat, e: nat)
    requires Pow(10, r) <= Pow(2, e) && Pow(10, 3) == 1000 && Pow(2, 10) == 1024
    ensures Pow(10, 3 * q + r) <= Pow(2, 10 * q + e)
  {
    hide *;
    PowPow(10, 3, q);
    PowPow(2, 10, q);
    PowBaseMonotone(Pow(10, 3), Pow(2, 10), q);
    PowAdd(10, 3 * q, r);
    PowAdd(2, 10 * q, e);
    ProductLe(Pow(10, 3 * q), Pow(2, 10 * q), Pow(10, r), Pow(2, e));
  }

  /** For exponents of ten up to 22, one more bit than 332/100 allows is enough. */
  lemma TenBelowTwo(x: nat, m: nat)
    requires 1 <= x <= 22 && 100 * m >= 332 * x + 100
    ensures Pow(10, x) < Pow(2, m)
  {
    var q, r := x / 3, x % 3;
    hide *;
    TwoNotFive(m);
    TenIsFive(x);
    var e := SmallPowers(r);
    ThreeByThree(q, r, e);
    BitsEnough(x, m, e);
    PowMonotone(2, 10 * q + e, m);
  }

  lemma BitsEnough(x: nat, m: nat, e: nat)
    requires 1 <= x <= 22 && 100 * m >= 332 * x + 100
    requires e == (if x % 3 == 0 then 0 else if x % 3 == 1 then 4 else 7)
    ensures 10 * (x / 3) + e <= m && x == 3 * (x / 3) + x % 3
  {
  }

  lemma TwoNotFive(m: nat)
    ensures Pow(2, m) % 5 != 0
  {
    TwoPower(2, m);
    hide Pow;
  }

  lemma TenIsFive(x: nat)
    requires x > 0
    ensures Pow(10, x) % 5 == 0
  {
    var p := Pow(10, x - 1);
    assert Pow(10, x) == 10 * p;
  }

  /** A power of two that divides m times a power of five divides m. */
  lemma {:induction false} TwoDivides(n: nat, a: nat, m: nat, x: nat)
    requires n * Pow(2, a) == m * Pow(5, x) && m > 0
    ensures Pow(2, a) <= m
  {
    if a > 0 {
      TwoPower(5, x);
      assert Pow(2, a) == 2 * Pow(2, a - 1);
      var h := HalveBoth(n, Pow(2, a), Pow(2, a - 1), m, Pow(5, x));
      TwoDivides(n, a - 1, h, x);
    }
  }

  lemma HalveBoth(n: int, p: int, p': int, m: int, f: int) returns (h: int)
    requires p == 2 * p' && n * p == m * f && f % 4 == 1
    ensures m == 2 * h && n * p' == h * f
  {
    assert m * f == 2 * (n * p');
    OddFactor(m, f);
    h := m / 2;
    assert m * f == 2 * (h * f);
  }

  lemma OddFactor(m: int, f: int)
    requires (m * f) % 2 == 0 && f % 4 == 1
    ensures m % 2 == 0
  {
    var h := f / 4;
    assert m * f == 4 * (m * h) + m;
  }

  // How many places after the point the exact digits have.

  /** N * 10^-x == mant * 2^-e with N not a multiple of ten: not more places than bits, and the rest is in mant. */
  lemma Places(N: nat, e: nat, mant: nat, x: nat)
    requires N % 10 != 0 && mant > 0 && Mul(N, Pow(2, e)) == Mul(mant, Pow(10, x))
    ensures x <= e && Pow(2, e - x) <= mant
  {
    Pow10Split(x);
    PowPositive(2, x);
    if x > e {
      MorePlaces(N, e, mant, x);
    } else {
      PlacesArith(N, Pow(2, e), mant, Pow(10, x), Pow(2, x), Pow(5, x));
      FewerPlaces(N, e, mant, x);
    }
  }

  lemma PlacesArith(n: nat, te: nat, m: nat, ten: nat, two: nat, five: nat)
    requires Mul(n, te) == Mul(m, ten) && ten == two * five
    ensures n * te == (m * five) * two
  {
    assert m * (two * five) == (m * five) * two;
  }

  lemma FewerPlaces(N: nat, e: nat, mant: nat, x: nat)
    requires x <= e && mant > 0 && N * Pow(2, e) == (mant * Pow(5, x)) * Pow(2, x)
    ensures Pow(2, e - x) <= mant
  {
    hide *;
    PowCancel(2, N, mant * Pow(5, x), e, x);
    TwoDivides(N, e - x, mant, x);
  }

  lemma MorePlaces(N: nat, e: nat, mant: nat, x: nat)
    requires x > e && Mul(N, Pow(2, e)) == Mul(mant, Pow(10, x))
    ensures N % 10 == 0
  {
    var z := x - e;
    PowAdd(10, z, e);
    Pow10Split(e);
    PowPositive(2, e);
    assert Pow(10, z) == 10 * Pow(10, z - 1);
    hide Pow;
    MorePlacesArith(N, Pow(2, e), Pow(5, e), mant, Pow(10, z - 1), Pow(10, x));
  }

  lemma MorePlacesArith(n: int, two: int, five: int, m: int, t: int, tx: int)
    requires two > 0 && n * two == m * tx && tx == (10 * t) * (two * five)
    ensures n % 10 == 0
  {
    var k := m * t * five;
    assert m * tx == (10 * k) * two by {
      calc {
        m * ((10 * t) * (two * five));
        (m * (10 * t)) * (two * five);
        ((m * (10 * t)) * five) * two;
      }
    }
    MulCancel(n, 10 * k, two);
  }

  /** The exact digits, as integers: N * 10^-x == mant * 2^E. */
  lemma IntegerForm(N: nat, x: nat, mant: nat, E: int)
    requires Float10(N, -(x as int)) == Float2(mant, E)
    ensures E >= 0 && x > 0 ==> N % 10 == 0
    ensures E < 0 ==> Mul(N, Pow(2, -E)) == Mul(mant, Pow(10, x))
  {
    hide *;
    var minus := -(x as int);
    Float10Is(N, minus);
    RPowInverse(10, x);
    RPowNat(10, x);
    MulReal(mant, Pow(10, x));
    Float2Is(mant, E);
    if E >= 0 {
      RPowNat(2, E);
      MulReal(mant, Pow(2, E));
      MulReal(Mul(mant, Pow(2, E)), Pow(10, x));
      ClearTen(N as real, RPow(10, minus), RPow(10, x), Float2(mant, E));
      if x > 0 {
        TenDivides(Mul(mant, Pow(2, E)), x);
        MulIs(Mul(mant, Pow(2, E)), Pow(10, x));
      }
    } else {
      RPowNat(2, -E);
      RPowInverse(2, E);
      MulReal(N, Pow(2, -E));
      ClearBoth(N as real, RPow(10, minus), RPow(10, x), mant as real, RPow(2, E), RPow(2, -E));
    }
  }

  lemma MulIs(a: nat, b: nat)
    ensures Mul(a, b) == a * b
  {
  }

  lemma ClearTen(n: real, tenth: real, ten: real, v: real)
    requires ten * tenth == 1.0 && Times(n, tenth) == v
    ensures n == Times(v, ten)
  {
    RAssoc(n, tenth, ten);
  }

  lemma ClearBoth(n: real, tenth: real, ten: real, m: real, half: real, two: real)
    requires ten * tenth == 1.0 && half * two == 1.0 && Times(n, tenth) == Times(m, half)
    ensures Times(n, two) == Times(m, ten)
  {
    ClearTen(n, tenth, ten, m * half);
    calc {
      n * two;
      (m * half) * ten * two;
      { RAssoc(m * ten, half, two); }
      (m * ten) * (half * two);
    }
  }

  /** Fewer than 23 places, when the digits are coarse enough. */
  lemma FewPlaces(d: Dec, mant: nat, exp: int, flt: FloatInfo)
    requires Representable(mant, exp, flt) && mant > 0
    requires Normal(d) && d.digits != [] && Value(d) == FloatValue(mant, exp, flt)
    requires CoarseEnough(d, exp, flt) && d.dp < |d.digits|
    ensures exp < flt.mantbits && |d.digits| - d.dp <= 22
  {
    var N, x, E := Num(d.digits), |d.digits| - d.dp, exp - flt.mantbits;
    LastDigit(d);
    ValueIs(d);
    IntegerForm(N, x, mant, E);
    if E < 0 {
      hide Num, Pow, Value, Mul, FloatValue;
      Places(N, -E, mant, x);
      MantissaRange(mant, exp, flt);
      PowReflect(2, -E - x, flt.mantbits + 1);
    }
  }

  /** A unit of the last digit exceeds half a unit of the last bit. */
  lemma UnitExceedsHalf(d: Dec, mant: nat, exp: int, flt: FloatInfo)
    requires Representable(mant, exp, flt) && mant > 0
    requires Normal(d) && d.digits != [] && Value(d) == FloatValue(mant, exp, flt) && CoarseEnough(d, exp, flt)
    ensures RPow(10, d.dp - |d.digits|) > RPow(2, exp - flt.mantbits - 1)
  {
    var y, E := d.dp - |d.digits|, exp - flt.mantbits;
    CoarseIs(d, exp, flt);
    if y >= 0 {
      hide *;
      UnitAgainstHalf(y, E);
    } else {
      FewPlaces(d, mant, exp, flt);
      hide *;
      PlaceAgainstHalf(-y, 1 - E);
    }
  }

  lemma CoarseIs(d: Dec, exp: int, flt: FloatInfo)
    requires CoarseEnough(d, exp, flt)
    ensures 332 * (d.dp - |d.digits|) >= 100 * (exp - flt.mantbits)
  {
  }

  lemma UnitAgainstHalf(y: nat, E: int)
    requires 332 * y >= 100 * E
    ensures RPow(10, y) > RPow(2, E - 1)
  {
    hide *;
    RPowStep(2, E - 1);
    RPowPositive(2, E - 1);
    if E >= 0 {
      TenAgainstTwo(y, E);
      RPowNat(2, E);
      RPowNat(10, y);
    } else {
      RPowMonotone(2, E, 0);
      RPowMonotone(10, 0, y);
      OneIsOne();
    }
  }

  lemma PlaceAgainstHalf(x: nat, m: nat)
    requires 1 <= x <= 22 && 100 * m >= 332 * x + 100
    ensures RPow(10, -(x as int)) > RPow(2, -(m as int))
  {
    hide *;
    TenBelowTwo(x, m);
    RPowNat(10, x);
    RPowNat(2, m);
    RPowInverse(10, x);
    RPowInverse(2, m);
    RPowPositive(10, -(x as int));
    RPowPositive(2, -(m as int));
    InverseOrder(RPow(10, x), RPow(2, m), RPow(10, -(x as int)), RPow(2, -(m as int)));
  }

  lemma OneIsOne()
    ensures RPow(2, 0) == RPow(10, 0) == 1.0
  {
  }

  lemma InverseOrder(a: real, b: real, ia: real, ib: real)
    requires a < b && ia * a == 1.0 && ib * b == 1.0 && ia > 0.0 && ib > 0.0
    ensures ib < ia
  {
    RMulLt(a, b, ib);
    assert a > 0.0;
    assert (ia - ib) * a > 0.0;
  }

  /** When the test passes, no number of fewer digits than d recovers the floating point number. */
  lemma NothingShorter(d: Dec, mant: nat, exp: int, flt: FloatInfo, n: nat, M: nat, f: int)
    requires Representable(mant, exp, flt) && mant > 0
    requires Normal(d) && d.digits != [] && Value(d) == FloatValue(mant, exp, flt) && CoarseEnough(d, exp, flt)
    requires n < |d.digits| && M < Pow(10, n)
    ensures !Recovers(Float10(M, f), mant, exp, flt)
  {
    hide *;
    UnitExceedsHalf(d, mant, exp, flt);
    ShorterIsFar(d, n, M, f);
    HalfIsNear(mant, exp, flt);
    RPowPositive(2, exp - flt.mantbits - 1);
    RecoversIs(Float10(M, f), mant, exp, flt);
  }

  lemma RecoversIs(x: real, mant: nat, exp: int, flt: FloatInfo)
    requires HalfDown(mant, exp, flt) <= HalfUp(mant, exp, flt)
    ensures Recovers(x, mant, exp, flt) ==> HalfDown(mant, exp, flt) <= x <= HalfUp(mant, exp, flt)
  {
    hide HalfDown, HalfUp;
  }

  /** Half a unit of the last bit on either side. */
  lemma HalfIsNear(mant: nat, exp: int, flt: FloatInfo)
    requires mant > 0
    ensures var (x, h) := (FloatValue(mant, exp, flt), RPow(2, exp - flt.mantbits - 1));
            HalfUp(mant, exp, flt) == x + h && x - h <= HalfDown(mant, exp, flt) < x
  {
    HalfUnits(mant, exp, flt);
    hide FloatValue, HalfUp, HalfDown, FullStepBelow, RPow;
    NearArith(2.0 * mant as real, RPow(2, exp - flt.mantbits - 1));
  }

  lemma NearArith(m: real, h: real)
    requires h > 0.0
    ensures Times(m + 1.0, h) == Times(m, h) + h
    ensures Times(m - 1.0, h) == Times(m, h) - h
    ensures Times(m, h) - h <= Times(m - 0.5, h) < Times(m, h)
  {
  }
}
