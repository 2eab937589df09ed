/** Binary floating point numbers, and the half-way bounds that delimit the decimals which round to one. */
module FloatBounds {
  import opened Powers
  import opened Digits
  import opened DecimalSpec
  import opened ShiftDigits
  import opened DecimalValue
  import opened ShortestDigits

  datatype FloatInfo = FloatInfo(mantbits: nat, expbits: nat, bias: int)

  const FLOAT32 := FloatInfo(23, 8, -127)
  const FLOAT64 := FloatInfo(52, 11, -1023)

  function MinExp(flt: FloatInfo): int {
    flt.bias + 1
  }

  /** mant * 2^(exp - mantbits) as the format stores it: normalised unless the exponent is the least. */
  ghost predicate Representable(mant: nat, exp: int, flt: FloatInfo) {
    && (flt == FLOAT32 || flt == FLOAT64)
    && mant < Pow(2, flt.mantbits + 1)
    && MinExp(flt) <= exp <= flt.bias + Pow(2, flt.expbits) - 2
    && (mant >= Pow(2, flt.mantbits) || exp == MinExp(flt))
  }

  /** n * 2^e. */
  ghost function Float2(n: int, e: int): real {
    Times(n as real, RPow(2, e))
  }

  ghost function FloatValue(mant: nat, exp: int, flt: FloatInfo): real {
    Float2(mant, exp - flt.mantbits)
  }

  /** The next lower number is half as far away below a power of two. */
  predicate FullStepBelow(mant: nat, exp: int, flt: FloatInfo) {
    mant > Pow(2, flt.mantbits) || exp == MinExp(flt)
  }

  ghost function HalfUp(mant: nat, exp: int, flt: FloatInfo): real {
    Float2(2 * mant + 1, exp - flt.mantbits - 1)
  }

  ghost function HalfDown(mant: nat, exp: int, flt: FloatInfo): real {
    if FullStepBelow(mant, exp, flt) then Float2(2 * mant - 1, exp - flt.mantbits - 1)
    else Float2(4 * mant - 1, exp - flt.mantbits - 2)
  }

  /** x lies between the half-way points; on one of them only if the mantissa is even. */
  ghost predicate Recovers(x: real, mant: nat, exp: int, flt: FloatInfo) {
    || HalfDown(mant, exp, flt) < x < HalfUp(mant, exp, flt)
    || (mant % 2 == 0 && (x == HalfDown(mant, exp, flt) || x == HalfUp(mant, exp, flt)))
  }

  /** The buffer after Assign(v). */
  ghost function Assigned(v: nat): Dec {
    Cut(Render(v), |Render(v)|, false)
  }

  ghost function UpperDec(mant: nat, exp: int, flt: FloatInfo): Dec {
    Shifted(Assigned(2 * mant + 1), exp - flt.mantbits - 1)
  }

  ghost function LowerDec(mant: nat, exp: int, flt: FloatInfo): Dec
    requires mant > 0
  {
    if FullStepBelow(mant, exp, flt) then Shifted(Assigned(2 * (mant - 1) + 1), exp - flt.mantbits - 1)
    else Shifted(Assigned(2 * (2 * mant - 1) + 1), exp - 1 - flt.mantbits - 1)
  }

  // The bounds are computed exactly.

  lemma TwoToTens()
    ensures Pow(2, 56) < Pow(10, 17)
  {
    PowPow(2, 8, 7);
    PowPow(10, 2, 7);
    assert Pow(2, 8) == 256 && Pow(10, 2) == 100;
    PowAdd(2, 28, 28);
    PowAdd(2, 14, 14);
    assert Pow(2, 14) == 16384;
    PowAdd(10, 10, 7);
    assert Pow(10, 10) == 10_000_000_000 && Pow(10, 7) == 10_000_000;
  }

  /** Two to the k is far below 10^(k/3 + 1), five to the k below 10^(5k/7 + 5). */
  lemma ShiftFactor(k: int)
    requires -1085 <= k <= 1085
    ensures (if k >= 0 then Pow(2, k) else Pow(5, -k)) <= Pow(10, 775)
  {
    if k >= 0 {
      PowMonotone(2, k, 1088);
      PowPow(2, 4, 272);
      PowPow(10, 2, 272);
      assert Pow(2, 4) == 16 && Pow(10, 2) == 100;
      PowBaseMonotone(16, 100, 272);
      PowMonotone(10, 544, 775);
    } else {
      PowMonotone(5, -k, 1085);
      PowPow(5, 7, 155);
      PowPow(10, 5, 155);
      assert Pow(5, 7) == 78125 && Pow(10, 5) == 100000;
      PowBaseMonotone(78125, 100000, 155);
    }
  }

  lemma AssignedDigits(v: nat)
    requires 0 < v < Pow(2, 56)
    ensures var a := Assigned(v);
            && Normal(a) && a.digits != [] && !a.trunc
            && Value(a) == v as real && Num(a.digits) <= v
  {
    var full := Render(v);
    NumRender(v);
    TwoToTens();
    PowMonotone(10, 17, CAPACITY);
    FitsCapacity(full);
    hide Render, Num, Pow, Overflows;
    CutNormal(full, |full|, false);
    CutValue(full, |full|, false);
    TrimmedNum(full, |full|, false);
    Float10One(Num(full));
  }

  lemma FitsArith(n: nat, v: nat, f: nat, t: nat, u: nat, cap: nat)
    requires n <= v < t && f <= u && t * u <= cap && u > 0
    ensures Mul(n, f) < cap
  {
    MulLe(n, v, f);
    MulLe(f, u, v);
    MulLt(v, t, u);
  }

  lemma RoomFor(n: nat, f: nat)
    requires n < Pow(10, 17) && f <= Pow(10, 775)
    ensures Mul(n, f) < Pow(10, CAPACITY)
  {
    PowAdd(10, 17, 775);
    PowMonotone(10, 792, CAPACITY);
    PowPositive(10, 775);
    hide Pow;
    FitsArith(n, n, f, Pow(10, 17), Pow(10, 775), Pow(10, 792));
  }

  lemma AssignedFits(v: nat, k: int)
    requires 0 < v < Pow(2, 56) && -1085 <= k <= 1085
    ensures Fits(Assigned(v), k)
  {
    hide Assigned, Pow, Num, Mul;
    AssignedDigits(v);
    ShiftFactor(k);
    TwoToTens();
    RoomFor(Num(Assigned(v).digits), if k >= 0 then Pow(2, k) else Pow(5, -k));
  }

  /** v * 2^k, for v of at most 56 bits and k in a double's range, is held exactly. */
  lemma BoundExact(v: nat, k: int)
    requires 0 < v < Pow(2, 56) && -1085 <= k <= 1085
    ensures var w := Shifted(Assigned(v), k);
            && Normal(w) && w.digits != [] && !w.trunc
            && Value(w) == Float2(v, k)
  {
    hide *;
    AssignedDigits(v);
    AssignedFits(v, k);
    ShiftedFits(Assigned(v), k);
    ShiftedSticks(Assigned(v), k);
    ShiftedTimes(Assigned(v), k);
    Float2Is(v, k);
  }

  lemma Float2Is(n: int, e: int)
    ensures Float2(n, e) == Times(n as real, RPow(2, e))
  {
  }

  lemma UpperValue(mant: nat, exp: int, flt: FloatInfo)
    requires Representable(mant, exp, flt)
    ensures var w := UpperDec(mant, exp, flt);
            Normal(w) && w.digits != [] && !w.trunc && Value(w) == HalfUp(mant, exp, flt)
  {
    MantissaRange(mant, exp, flt);
    hide *;
    UpperIs(mant, exp, flt);
    BoundExact(2 * mant + 1, exp - flt.mantbits - 1);
  }

  lemma UpperIs(mant: nat, exp: int, flt: FloatInfo)
    ensures UpperDec(mant, exp, flt) == Shifted(Assigned(2 * mant + 1), exp - flt.mantbits - 1)
    ensures HalfUp(mant, exp, flt) == Float2(2 * mant + 1, exp - flt.mantbits - 1)
  {
    hide Shifted, Assigned, Float2;
  }

  lemma LowerIs(mant: nat, exp: int, flt: FloatInfo)
    requires mant > 0
    ensures var n := if FullStepBelow(mant, exp, flt) then 2 * mant - 1 else 4 * mant - 1;
            var k := exp - flt.mantbits - if FullStepBelow(mant, exp, flt) then 1 else 2;
            && LowerDec(mant, exp, flt) == Shifted(Assigned(n), k)
            && HalfDown(mant, exp, flt) == Float2(n, k)
  {
    hide Shifted, Assigned, Float2, FullStepBelow;
    assert 2 * (mant - 1) + 1 == 2 * mant - 1 && 2 * (2 * mant - 1) + 1 == 4 * mant - 1;
  }

  lemma LowerValue(mant: nat, exp: int, flt: FloatInfo)
    requires Representable(mant, exp, flt) && mant > 0
    ensures var w := LowerDec(mant, exp, flt);
            Normal(w) && w.digits != [] && !w.trunc && Value(w) == HalfDown(mant, exp, flt)
  {
    MantissaRange(mant, exp, flt);
    hide *;
    LowerIs(mant, exp, flt);
    BoundExact(if FullStepBelow(mant, exp, flt) then 2 * mant - 1 else 4 * mant - 1,
               exp - flt.mantbits - if FullStepBelow(mant, exp, flt) then 1 else 2);
  }

  lemma TwoPowers()
    ensures Pow(2, 3) == 8 && Pow(2, 8) == 256 && Pow(2, 11) == 2048
    ensures Pow(2, 56) == 0x100_0000_0000_0000
  {
    PowAdd(2, 3, 8);
    PowAdd(2, 28, 28);
    PowAdd(2, 14, 14);
    PowAdd(2, 3, 11);
  }

  /** The numbers the source computes with fit their types. */
  lemma MantissaRange(mant: nat, exp: int, flt: FloatInfo)
    requires Representable(mant, exp, flt)
    ensures 4 * mant + 1 < Pow(2, 56) == 0x100_0000_0000_0000
    ensures -1080 <= exp - flt.mantbits - 2 <= exp - flt.mantbits <= 1000
    ensures flt.mantbits <= 52
  {
    hide Pow;
    TwoPowers();
    PowMonotone(2, flt.mantbits + 1, 53);
    PowAdd(2, 53, 3);
  }

  lemma TwoPower(b: nat, j: nat)
    requires b == 2 || b == 5
    ensures b == 2 && j > 0 ==> Pow(b, j) % 2 == 0
    ensures b == 2 ==> Pow(b, j) % 5 != 0
    ensures b == 5 ==> Pow(b, j) % 4 == 1
  {
    if j > 0 {
      TwoPower(b, j - 1);
      var p := Pow(b, j - 1);
      assert Pow(b, j) == b * p;
      hide Pow;
      TwiceEven(p);
      TwiceNotFive(p);
      FiveKeepsOne(p);
    }
  }

  lemma TwiceEven(p: nat)
    ensures (2 * p) % 2 == 0
  {
  }

  lemma TwiceNotFive(p: nat)
    ensures p % 5 != 0 ==> (2 * p) % 5 != 0
  {
    var q, r := p / 5, p % 5;
    assert p == 5 * q + r && 0 <= r < 5;
    if r <= 2 {
      assert 2 * p == 5 * (2 * q) + 2 * r;
    } else {
      assert 2 * p == 5 * (2 * q + 1) + (2 * r - 5);
    }
  }

  lemma FiveKeepsOne(p: nat)
    ensures p % 4 == 1 ==> (5 * p) % 4 == 1
  {
    if p % 4 == 1 {
      var q := p / 4;
      assert 5 * p == 4 * (5 * q + 1) + 1;
    }
  }

  lemma EvenMul(a: int, b: int)
    requires a % 2 == 0
    ensures (a * b) % 2 == 0
  {
    var h := a / 2;
    assert a * b == 2 * (h * b);
  }

  lemma FiveMul(a: int, b: int)
    requires a % 5 == 0
    ensures (a * b) % 5 == 0
  {
    var h := a / 5;
    assert a * b == 5 * (h * b);
  }

  /** An odd number times a power of two is a power of ten only if the odd number is a power of five. */
  lemma OddPowerOfTen(m: nat, k: nat, j: nat)
    requires m % 2 == 1 && m * Pow(2, k) == Pow(10, j)
    ensures m % 4 == 1
  {
    Pow10Split(j);
    TwoPower(5, j);
    PowPositive(2, j);
    PowPositive(2, k);
    assert m * Pow(2, k) == Pow(5, j) * Pow(2, j);
    if k < j {
      assert Pow(5, j) * Pow(2, j - k) == m by {
        hide Pow;
        PowCancel(2, Pow(5, j), m, j, k);
      }
      TwoPower(2, j - k);
      EvenMul(Pow(2, j - k), Pow(5, j));
    } else if k > j {
      assert m * Pow(2, k - j) == Pow(5, j) by {
        hide Pow;
        PowCancel(2, m, Pow(5, j), k, j);
      }
      TwoPower(2, k - j);
      EvenMul(Pow(2, k - j), m);
    } else {
      hide Pow;
      MulCancel(m, Pow(5, j), Pow(2, j));
    }
  }

  /** The same for any exponents, over the reals. */
  lemma OddPowerOfTenReal(m: nat, k: int, j: int)
    requires m % 2 == 1 && Float2(m, k) == RPow(10, j)
    ensures m % 4 == 1
  {
    hide *;
    if k >= 0 {
      Float2Nat(m, k);
      if j >= 0 {
        RPowNat(10, j);
        OddPowerOfTen(m, k, j);
      } else {
        PowPositive(2, k);
        MulLe(1, m, Pow(2, k));
        RPowMonotone(10, j, -1);
        Tenth();
      }
    } else {
      Float2Down(m, k, RPow(10, j));
      if j >= 0 {
        RPowNat(10, j);
        EvenProduct(m, Pow(10, j), -k);
      } else {
        TimesInverse(m, RPow(2, -k), j);
        FiveProduct(m, -j, -k);
      }
    }
  }

  lemma Tenth()
    ensures RPow(10, -1) < 1.0
  {
  }

  lemma Float2Nat(m: nat, k: nat)
    ensures Float2(m, k) == (m * Pow(2, k)) as real
  {
    RPowNat(2, k);
    RealMul(m, Pow(2, k));
  }

  /** A negative power of two moves to the other side. */
  lemma Float2Down(m: nat, k: int, t: real)
    requires k < 0 && Float2(m, k) == t
    ensures m as real == Times(t, RPow(2, -k))
  {
    RPowInverse(2, k);
    hide RPow;
    RAssoc(m as real, RPow(2, k), RPow(2, -k));
  }

  /** A negative power of ten moves to the other side. */
  lemma TimesInverse(m: nat, p: real, j: int)
    requires m as real == Times(RPow(10, j), p)
    ensures Times(m as real, RPow(10, -j)) == p
  {
    RPowInverse(10, j);
    hide RPow;
    RAssoc(p, RPow(10, j), RPow(10, -j));
  }

  lemma EvenProduct(m: nat, t: nat, k: nat)
    requires k > 0 && m as real == Times(t as real, RPow(2, k))
    ensures m % 2 == 0
  {
    hide *;
    RPowNat(2, k);
    MulReal(t, Pow(2, k));
    TwoPower(2, k);
    EvenFactor(m, t, Pow(2, k));
  }

  lemma EvenFactor(m: nat, t: nat, p: nat)
    requires m == Mul(t, p) && p % 2 == 0
    ensures m % 2 == 0
  {
    EvenMul(p, t);
    assert t * p == p * t;
  }

  lemma FiveProduct(m: nat, j: nat, k: nat)
    requires j > 0
    ensures Times(m as real, RPow(10, j)) != RPow(2, k)
  {
    hide *;
    RPowNat(2, k);
    RPowNat(10, j);
    MulReal(m, Pow(10, j));
    FiveProductInt(m, j, k);
  }

  lemma FiveProductInt(m: nat, j: nat, k: nat)
    requires j > 0
    ensures Mul(m, Pow(10, j)) != Pow(2, k)
  {
    TwoPower(2, k);
    assert Pow(10, j) % 5 == 0;
    hide Pow;
    FiveMul(Pow(10, j), m);
    assert Mul(m, Pow(10, j)) == Pow(10, j) * m;
  }

  // The bounds enclose the number.

  /** The number and the half-way points in units of half its last bit. */
  lemma HalfUnits(mant: nat, exp: int, flt: FloatInfo)
    requires mant > 0
    ensures var h := RPow(2, exp - flt.mantbits - 1);
            && h > 0.0
            && FloatValue(mant, exp, flt) == Times(2.0 * mant as real, h)
            && HalfUp(mant, exp, flt) == Times(2.0 * mant as real + 1.0, h)
            && (FullStepBelow(mant, exp, flt) ==> HalfDown(mant, exp, flt) == Times(2.0 * mant as real - 1.0, h))
            && (!FullStepBelow(mant, exp, flt) ==> HalfDown(mant, exp, flt) == Times(2.0 * mant as real - 0.5, h))
  {
    var e := exp - flt.mantbits;
    RPowStep(2, e - 1);
    RPowStep(2, e - 2);
    RPowPositive(2, e - 1);
    hide RPow, Pow, FullStepBelow;
    HalfArith(mant as real, RPow(2, e), RPow(2, e - 1), RPow(2, e - 2));
    assert (2 * mant + 1) as real == 2.0 * mant as real + 1.0;
    assert (2 * mant - 1) as real == 2.0 * mant as real - 1.0;
    assert (4 * mant - 1) as real == 4.0 * mant as real - 1.0;
  }

  lemma HalfArith(m: real, p: real, h: real, q: real)
    requires p == 2.0 * h && h == 2.0 * q
    ensures Times(m, p) == Times(2.0 * m, h)
    ensures Times(4.0 * m - 1.0, q) == Times(2.0 * m - 0.5, h)
  {
  }

  lemma HalvesEnclose(mant: nat, exp: int, flt: FloatInfo)
    requires Representable(mant, exp, flt) && mant > 0
    ensures var (l, x, u) := (HalfDown(mant, exp, flt), FloatValue(mant, exp, flt), HalfUp(mant, exp, flt));
            && 0.0 < l < x < u && x <= 2.0 * l && 2.0 * u <= 3.0 * x
            && (mant % 2 == 1 ==> u - x == x - l)
  {
    if mant % 2 == 1 {
      OddIsFull(mant, exp, flt);
    }
    HalfUnits(mant, exp, flt);
    var full := FullStepBelow(mant, exp, flt);
    assert mant as real >= 1.0;
    var l, x, u := HalfDown(mant, exp, flt), FloatValue(mant, exp, flt), HalfUp(mant, exp, flt);
    hide *;
    EncloseArith(mant as real, RPow(2, exp - flt.mantbits - 1), l, x, u, full);
  }

  /** Below a power of two the step is half; a power of two's mantissa is even. */
  lemma OddIsFull(mant: nat, exp: int, flt: FloatInfo)
    requires Representable(mant, exp, flt) && mant % 2 == 1
    ensures FullStepBelow(mant, exp, flt)
  {
    TwoPower(2, flt.mantbits);
  }

  lemma EncloseArith(m: real, h: real, l: real, x: real, u: real, full: bool)
    requires m >= 1.0 && h > 0.0
    requires x == Times(2.0 * m, h) && u == Times(2.0 * m + 1.0, h)
    requires l == if full then Times(2.0 * m - 1.0, h) else Times(2.0 * m - 0.5, h)
    ensures 0.0 < l < x < u && x <= 2.0 * l && 2.0 * u <= 3.0 * x
    ensures full ==> u - x == x - l
  {
    var mh := m * h;
    assert mh >= h by { RMulLe(1.0, m, h); }
    assert x == 2.0 * mh && u == 2.0 * mh + h;
    assert l == if full then 2.0 * mh - h else 2.0 * mh - 0.5 * h;
  }

  /** The decimals the source computes bracket the number. */
  lemma FloatBracket(d: Dec, mant: nat, exp: int, flt: FloatInfo)
    requires Representable(mant, exp, flt) && mant > 0
    requires Normal(d) && Value(d) == FloatValue(mant, exp, flt)
    ensures Bracket(LowerDec(mant, exp, flt), d, UpperDec(mant, exp, flt), mant % 2 == 0)
    ensures d.digits != []
  {
    UpperValue(mant, exp, flt);
    LowerValue(mant, exp, flt);
    HalvesEnclose(mant, exp, flt);
    ZeroValue(d);
    hide HalfUp, HalfDown, FloatValue, Value, UpperDec, LowerDec, Representable;
    if mant % 2 == 1 && UpperDec(mant, exp, flt).digits == ['1'] {
      UpperNotTen(mant, exp, flt);
    }
  }

  lemma ZeroValue(d: Dec)
    ensures d.digits == [] ==> Value(d) == 0.0
  {
    assert d.digits == [] ==> Num(d.digits) == 0;
    hide RPow;
  }

  lemma OneValue(u: Dec)
    requires u.digits == ['1']
    ensures Value(u) == RPow(10, u.dp - 1)
  {
    assert Num(u.digits) == 1 by {
      NumSnoc([], '1');
      assert [] + ['1'] == u.digits;
    }
    hide Num, RPow;
  }

  lemma UpperNotTen(mant: nat, exp: int, flt: FloatInfo)
    requires Representable(mant, exp, flt) && UpperDec(mant, exp, flt).digits == ['1']
    ensures mant % 2 == 0
  {
    hide *;
    UpperValue(mant, exp, flt);
    UpperIs(mant, exp, flt);
    var u := UpperDec(mant, exp, flt);
    OneValue(u);
    OddPowerOfTenReal(2 * mant + 1, exp - flt.mantbits - 1, u.dp - 1);
  }

  /** Between the decimals means between the half-way points. */
  lemma WithinRecovers(x: real, mant: nat, exp: int, flt: FloatInfo)
    requires Representable(mant, exp, flt) && mant > 0
    ensures Within(x, LowerDec(mant, exp, flt), UpperDec(mant, exp, flt), mant % 2 == 0) <==> Recovers(x, mant, exp, flt)
  {
    UpperValue(mant, exp, flt);
    LowerValue(mant, exp, flt);
    hide HalfUp, HalfDown, Value, UpperDec, LowerDec, Representable;
  }
}
