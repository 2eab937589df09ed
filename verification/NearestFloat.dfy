/** Round to nearest, ties to even, over all floating point numbers of a format (section 4.3.1 of IEEE 754-2008). */
module NearestFloat {
  import opened Powers
  import opened DecimalSpec
  import opened ShiftDigits
  import opened DecimalValue
  import opened ShortestDigits
  import opened FloatBounds
  import opened AlreadyShortest

  /** The first power of two beyond the format: what is nearer to it than to every number of the format becomes infinity. */
  ghost predicate FirstBeyond(m: nat, e: int, flt: FloatInfo) {
    m == Pow(2, flt.mantbits) && e == flt.bias + Pow(2, flt.expbits) - 1
  }

  /** Whatever a reader chooses from. */
  ghost predicate Candidate(m: nat, e: int, flt: FloatInfo) {
    Representable(m, e, flt) || FirstBeyond(m, e, flt)
  }

  /** mant * 2^(exp - mantbits) is what a correctly rounding reader makes of x: no other number of the
      format is nearer, nor the first beyond it, and only an even mantissa wins a tie. */
  ghost predicate ReadsAs(x: real, mant: nat, exp: int, flt: FloatInfo) {
    forall m: nat, e: int :: Candidate(m, e, flt) && FloatValue(m, e, flt) != FloatValue(mant, exp, flt) ==>
      || Distance(x, FloatValue(mant, exp, flt)) < Distance(x, FloatValue(m, e, flt))
      || (mant % 2 == 0 && Distance(x, FloatValue(mant, exp, flt)) == Distance(x, FloatValue(m, e, flt)))
  }

  // Neighbouring numbers of a format.

  lemma Float2Gap(a: int, b: int, k: nat, e: int)
    requires a + k <= b
    ensures Float2(a, e) <= Float2(b, e) - k as real * RPow(2, e)
  {
    RPowPositive(2, e);
    hide RPow;
    GapTimes(a as real, b as real, k as real, RPow(2, e));
  }

  lemma GapTimes(a: real, b: real, k: real, p: real)
    requires a + k <= b && p > 0.0
    ensures Times(a, p) <= Times(b, p) - k * p
  {
    RMulLe(a + k, b, p);
  }

  /** The same number with a smaller exponent. */
  lemma Float2Shift(n: nat, e: int, j: nat)
    ensures Float2(n, e + j) == Float2(Mul(n, Pow(2, j)), e)
  {
    Float2Is(n, e + j);
    Float2Is(Mul(n, Pow(2, j)), e);
    RPowSum(2, j, e);
    assert j + e == e + j;
    RPowNat(2, j);
    MulReal(n, Pow(2, j));
    hide *;
    ShiftArith(n as real, RPow(2, j), RPow(2, e), RPow(2, e + j));
  }

  lemma ShiftArith(n: real, a: real, b: real, ab: real)
    requires ab == Times(a, b)
    ensures Times(n, ab) == Times(Times(n, a), b)
  {
    RAssoc(n, a, b);
  }

  lemma LowerExponent(m: nat, e: int, e': int)
    requires e <= e'
    ensures Float2(m, e) <= Float2(m, e')
  {
    RPowMonotone(2, e, e');
    hide RPow;
    LowerArith(m as real, RPow(2, e), RPow(2, e'));
  }

  /** With the same or a larger exponent: a whole number of steps away. */
  lemma ApartAbove(mant: nat, E: int, m: nat, E': int)
    requires E' >= E
    ensures || Float2(m, E') >= Float2(mant, E) + RPow(2, E)
            || Float2(m, E') == Float2(mant, E)
            || Float2(m, E') <= Float2(mant, E) - RPow(2, E)
  {
    var a := Mul(m, Pow(2, E' - E));
    hide *;
    Float2Shift(m, E, E' - E);
    assert E + (E' - E) == E';
    if a < mant {
      Float2Gap(a, mant, 1, E);
    } else if a > mant {
      Float2Gap(mant, a, 1, E);
    }
  }

  /** With a smaller exponent: below, by half a step at least, by a whole step unless mant is the least of its exponent. */
  lemma ApartBelow(mant: nat, exp: int, m: nat, e: int, flt: FloatInfo)
    requires Representable(mant, exp, flt) && Representable(m, e, flt) && e < exp
    ensures FloatValue(m, e, flt) <= FloatValue(mant, exp, flt)
                                     - if mant > Pow(2, flt.mantbits) then RPow(2, exp - flt.mantbits)
                                       else RPow(2, exp - flt.mantbits - 1)
  {
    var E, half := exp - flt.mantbits, Pow(2, flt.mantbits);
    var mb := flt.mantbits;
    assert m < 2 * half && half <= mant by {
      assert Pow(2, mb + 1) == 2 * half;
    }
    var full := mant > half;
    FloatIs(m, e, flt);
    FloatIs(mant, exp, flt);
    hide *;
    LowerExponent(m, e - mb, E - 1);
    Float2Shift(mant, E - 1, 1);
    TwoOnce(mant);
    assert E - 1 + 1 == E;
    RPowStep(2, E - 1);
    if full {
      Float2Gap(m, 2 * mant, 3, E - 1);
      RPowPositive(2, E - 1);
    } else {
      Float2Gap(m, 2 * mant, 1, E - 1);
    }
  }

  lemma TwoOnce(m: nat)
    ensures Mul(m, Pow(2, 1)) == 2 * m
  {
  }

  lemma FloatIs(mant: nat, exp: int, flt: FloatInfo)
    ensures FloatValue(mant, exp, flt) == Float2(mant, exp - flt.mantbits)
  {
  }

  /** How far the other candidates are. */
  lemma Apart(mant: nat, exp: int, m: nat, e: int, flt: FloatInfo)
    requires Representable(mant, exp, flt) && Candidate(m, e, flt)
    requires FloatValue(m, e, flt) != FloatValue(mant, exp, flt)
    ensures var (x, y, p, h) := (FloatValue(mant, exp, flt), FloatValue(m, e, flt),
                                 RPow(2, exp - flt.mantbits), RPow(2, exp - flt.mantbits - 1));
            y >= x + p || y <= x - if FullStepBelow(mant, exp, flt) then p else h
  {
    hide FloatValue, RPow, Pow, FullStepBelow;
    var E := exp - flt.mantbits;
    FullIs(mant, exp, flt);
    if e >= exp {
      hide *;
      FloatIs(m, e, flt);
      FloatIs(mant, exp, flt);
      ApartAbove(mant, E, m, e - flt.mantbits);
      RPowStep(2, E - 1);
      RPowPositive(2, E - 1);
    } else {
      assert Representable(m, e, flt) && e >= MinExp(flt);
      hide *;
      ApartBelow(mant, exp, m, e, flt);
    }
  }

  lemma FullIs(mant: nat, exp: int, flt: FloatInfo)
    ensures FullStepBelow(mant, exp, flt) <==> mant > Pow(2, flt.mantbits) || exp == MinExp(flt)
  {
  }

  /** The next candidate upwards is a full step away. */
  lemma NextUp(mant: nat, exp: int, flt: FloatInfo) returns (m: nat, e: int)
    requires Representable(mant, exp, flt)
    ensures Candidate(m, e, flt)
    ensures FloatValue(m, e, flt) == FloatValue(mant, exp, flt) + RPow(2, exp - flt.mantbits)
  {
    var mb := flt.mantbits;
    assert Pow(2, mb + 1) == 2 * Pow(2, mb);
    if mant + 1 < Pow(2, mb + 1) {
      m, e := mant + 1, exp;
      assert Representable(m, e, flt);
    } else {
      m, e := Pow(2, mb), exp + 1;
      PowPositive(2, mb);
      assert m < Pow(2, mb + 1);
      assert Candidate(m, e, flt);
      hide *;
      Float2Shift(m, exp - mb, 1);
      TwoOnce(m);
      assert exp - mb + 1 == e - mb;
    }
    hide *;
    FloatIs(m, e, flt);
    FloatIs(mant, exp, flt);
    StepUp(mant, exp - mb);
  }

  lemma StepUp(n: nat, e: int)
    ensures Float2(n + 1, e) == Float2(n, e) + RPow(2, e)
  {
    hide RPow;
  }

  /** The next number downwards is a full step away, or half a step below a power of two. */
  lemma NextDown(mant: nat, exp: int, flt: FloatInfo) returns (m: nat, e: int)
    requires Representable(mant, exp, flt) && mant > 0
    ensures Candidate(m, e, flt)
    ensures FloatValue(m, e, flt) == FloatValue(mant, exp, flt)
                                     - if FullStepBelow(mant, exp, flt) then RPow(2, exp - flt.mantbits)
                                       else RPow(2, exp - flt.mantbits - 1)
  {
    var mb := flt.mantbits;
    assert Pow(2, mb + 1) == 2 * Pow(2, mb);
    var full := FullStepBelow(mant, exp, flt);
    if full {
      m, e := mant - 1, exp;
      assert Representable(m, e, flt);
      assert Candidate(m, e, flt);
      hide *;
      FloatIs(m, e, flt);
      FloatIs(mant, exp, flt);
      StepUp(mant - 1, exp - mb);
    } else {
      PowPositive(2, mb);
      m, e := 2 * mant - 1, exp - 1;
      assert Representable(m, e, flt);
      assert Candidate(m, e, flt);
      hide *;
      FloatIs(m, e, flt);
      FloatIs(mant, exp, flt);
      StepUp(2 * mant - 1, e - mb);
      Float2Shift(mant, e - mb, 1);
      TwoOnce(mant);
      assert e - mb + 1 == exp - mb && exp - mb - 1 == e - mb;
    }
  }

  /** The numbers between the half-way points, and only they, read back as the number they surround. */
  lemma RecoversReadsAs(x: real, mant: nat, exp: int, flt: FloatInfo)
    requires Representable(mant, exp, flt) && mant > 0
    ensures Recovers(x, mant, exp, flt) <==> ReadsAs(x, mant, exp, flt)
  {
    hide *;
    if Recovers(x, mant, exp, flt) {
      NearestInside(x, mant, exp, flt);
    }
    if ReadsAs(x, mant, exp, flt) {
      InsideNearest(x, mant, exp, flt);
    }
  }

  lemma NearestInside(x: real, mant: nat, exp: int, flt: FloatInfo)
    requires Representable(mant, exp, flt) && mant > 0 && Recovers(x, mant, exp, flt)
    ensures ReadsAs(x, mant, exp, flt)
  {
    hide FloatValue, Representable, Candidate, RPow, FullStepBelow;
    forall m: nat, e: int | Candidate(m, e, flt) && FloatValue(m, e, flt) != FloatValue(mant, exp, flt)
      ensures || Distance(x, FloatValue(mant, exp, flt)) < Distance(x, FloatValue(m, e, flt))
              || (mant % 2 == 0 && Distance(x, FloatValue(mant, exp, flt)) == Distance(x, FloatValue(m, e, flt)))
    {
      Apart(mant, exp, m, e, flt);
      HalfPoints(mant, exp, flt);
      RecoversParts(x, mant, exp, flt);
      hide HalfUp, HalfDown, Recovers;
      Nearer(x, FloatValue(mant, exp, flt), FloatValue(m, e, flt), HalfDown(mant, exp, flt), HalfUp(mant, exp, flt));
    }
  }

  lemma InsideNearest(x: real, mant: nat, exp: int, flt: FloatInfo)
    requires Representable(mant, exp, flt) && mant > 0 && ReadsAs(x, mant, exp, flt)
    ensures Recovers(x, mant, exp, flt)
  {
    hide FloatValue, Representable, Candidate, RPow, FullStepBelow, HalfUp, HalfDown;
    var mu, eu := NextUp(mant, exp, flt);
    var md, ed := NextDown(mant, exp, flt);
    HalfPoints(mant, exp, flt);
    var v, p := FloatValue(mant, exp, flt), RPow(2, exp - flt.mantbits);
    var s := if FullStepBelow(mant, exp, flt) then p else RPow(2, exp - flt.mantbits - 1);
    assert FloatValue(mu, eu, flt) == v + p && FloatValue(md, ed, flt) == v - s && p > 0.0 && s > 0.0;
  }

  lemma RecoversParts(x: real, mant: nat, exp: int, flt: FloatInfo)
    requires Recovers(x, mant, exp, flt) && HalfDown(mant, exp, flt) < HalfUp(mant, exp, flt)
    ensures HalfDown(mant, exp, flt) <= x <= HalfUp(mant, exp, flt)
    ensures x == HalfDown(mant, exp, flt) || x == HalfUp(mant, exp, flt) ==> mant % 2 == 0
  {
    hide HalfDown, HalfUp;
  }

  /** The bounds are half-way to the nearest numbers there can be on either side. */
  lemma HalfPoints(mant: nat, exp: int, flt: FloatInfo)
    requires mant > 0
    ensures var (x, p, h) := (FloatValue(mant, exp, flt), RPow(2, exp - flt.mantbits), RPow(2, exp - flt.mantbits - 1));
            && p > 0.0 && h > 0.0
            && HalfUp(mant, exp, flt) == x + p / 2.0
            && HalfDown(mant, exp, flt) == x - (if FullStepBelow(mant, exp, flt) then p else h) / 2.0
  {
    HalfUnits(mant, exp, flt);
    RPowStep(2, exp - flt.mantbits - 1);
    hide *;
    PointsArith(2.0 * mant as real, RPow(2, exp - flt.mantbits - 1));
  }

  lemma PointsArith(m: real, h: real)
    ensures Times(m + 1.0, h) == Times(m, h) + h
    ensures Times(m - 1.0, h) == Times(m, h) - h
    ensures Times(m - 0.5, h) == Times(m, h) - h / 2.0
  {
  }

  lemma Nearer(x: real, v: real, y: real, lo: real, hi: real)
    requires lo < v < hi && lo <= x <= hi
    requires y - v >= 2.0 * (hi - v) || v - y >= 2.0 * (v - lo)
    ensures Distance(x, v) < Distance(x, y) || (Distance(x, v) == Distance(x, y) && (x == lo || x == hi))
  {
  }

  // Seventeen digits are always enough.

  lemma TwoTo53()
    ensures Pow(2, 53) < Pow(10, 16)
  {
    PowAdd(2, 25, 28);
    PowAdd(2, 14, 14);
    PowAdd(2, 11, 14);
    assert Pow(2, 14) == 16384 && Pow(2, 11) == 2048;
    PowAdd(10, 10, 6);
    assert Pow(10, 10) == 10_000_000_000 && Pow(10, 6) == 1_000_000;
  }

  /** The gap between the half-way points exceeds the distance of 17-digit decimals. */
  lemma GapInUnits(v: Dec, mant: nat, exp: int, flt: FloatInfo)
    requires Representable(mant, exp, flt) && mant > 0
    requires Normal(v) && v.digits != [] && Value(v) == FloatValue(mant, exp, flt)
    ensures var q := RPow(10, 17 - v.dp);
            && q > 0.0
            && Times(HalfUp(mant, exp, flt), q) - Times(HalfDown(mant, exp, flt), q) > 1.0
            && Times(HalfDown(mant, exp, flt), q) < At(v, v.dp, 17) < Times(HalfUp(mant, exp, flt), q)
            && At(v, v.dp, 17) < Pow(10, 17) as real
  {
    var full := FullStepBelow(mant, exp, flt);
    MantissaBound(mant, exp, flt);
    hide *;
    RPowPositive(10, 17 - v.dp);
    HalfPoints(mant, exp, flt);
    RPowStep(2, exp - flt.mantbits - 1);
    SeventeenUnits(v);
    AtTimes(v, v.dp, 17);
    InUnitsOf(mant, exp, flt, RPow(10, 17 - v.dp));
    GapArith17(mant as real, RPow(2, exp - flt.mantbits), RPow(10, 17 - v.dp), Pow(10, 16) as real,
               FloatValue(mant, exp, flt), HalfUp(mant, exp, flt), HalfDown(mant, exp, flt), full);
  }

  lemma InUnitsOf(mant: nat, exp: int, flt: FloatInfo, q: real)
    ensures FloatValue(mant, exp, flt) == Times(mant as real, RPow(2, exp - flt.mantbits))
  {
    hide RPow;
  }

  lemma MantissaBound(mant: nat, exp: int, flt: FloatInfo)
    requires Representable(mant, exp, flt)
    ensures mant < Pow(10, 16)
    ensures !FullStepBelow(mant, exp, flt) ==> 2 * mant < Pow(10, 16)
  {
    TwoTo53();
    assert flt.mantbits <= 52;
    assert Pow(2, flt.mantbits + 1) == 2 * Pow(2, flt.mantbits);
    hide Pow;
    PowMonotone(2, flt.mantbits + 1, 53);
  }

  lemma SeventeenUnits(v: Dec)
    requires Normal(v) && v.digits != []
    ensures Pow(10, 16) as real <= At(v, v.dp, 17) < Pow(10, 17) as real
  {
    hide *;
    DpBound(v);
    RPowPositive(10, 17 - v.dp);
    RPowSum(10, v.dp - 1, 17 - v.dp);
    RPowSum(10, v.dp, 17 - v.dp);
    assert v.dp - 1 + (17 - v.dp) == 16 && v.dp + (17 - v.dp) == 17;
    RPowNat(10, 16);
    RPowNat(10, 17);
    AtTimes(v, v.dp, 17);
    ScaleLe(RPow(10, v.dp - 1), Value(v), RPow(10, 17 - v.dp));
    ScaleLt(Value(v), RPow(10, v.dp), RPow(10, 17 - v.dp));
  }

  lemma ScaleLe(x: real, y: real, p: real)
    requires p > 0.0 && x <= y
    ensures Times(x, p) <= Times(y, p)
  {
    RMulLe(x, y, p);
  }

  lemma GapArith17(m: real, p: real, q: real, t: real, x: real, hi: real, lo: real, full: bool)
    requires q > 0.0 && p > 0.0 && x == Times(m, p) && t <= Times(x, q) && 0.0 < m < t
    requires !full ==> 2.0 * m < t
    requires hi == x + p / 2.0 && lo == x - (if full then p else p / 2.0) / 2.0
    ensures Times(hi, q) - Times(lo, q) > 1.0
    ensures Times(lo, q) < Times(x, q) < Times(hi, q)
  {
    var u := p * q;
    assert u > 0.0;
    assert m * u == Times(x, q) by { RAssoc(m, p, q); }
    Quotients(m, u, t, full);
    GapSplit(x, p, q, if full then p / 2.0 else p / 4.0);
  }

  lemma Quotients(m: real, u: real, t: real, full: bool)
    requires 0.0 < m < t && t <= m * u && (!full ==> 2.0 * m < t)
    ensures u > if full then 1.0 else 2.0
  {
    if full {
      if u <= 1.0 { RMulLe(u, 1.0, m); }
    } else {
      if u <= 2.0 { RMulLe(u, 2.0, m); }
    }
  }

  lemma GapSplit(x: real, p: real, q: real, s: real)
    ensures Times(x + p / 2.0, q) == Times(x, q) + (p * q) / 2.0
    ensures s == p / 2.0 ==> Times(x - s, q) == Times(x, q) - (p * q) / 2.0
    ensures s == p / 4.0 ==> Times(x - s, q) == Times(x, q) - (p * q) / 4.0
  {
  }

  /** Some decimal of at most 17 digits recovers the number. */
  lemma SeventeenSuffice(v: Dec, mant: nat, exp: int, flt: FloatInfo) returns (M: nat, f: int)
    requires Representable(mant, exp, flt) && mant > 0
    requires Normal(v) && v.digits != [] && Value(v) == FloatValue(mant, exp, flt)
    ensures M < Pow(10, 17) && Recovers(Float10(M, f), mant, exp, flt)
  {
    hide *;
    GapInUnits(v, mant, exp, flt);
    LeadBound(v, 17);
    var q, lo, hi := RPow(10, 17 - v.dp), HalfDown(mant, exp, flt), HalfUp(mant, exp, flt);
    M, f := Leading(v.digits, 17), v.dp - 17;
    if M as real <= Times(lo, q) {
      M := M + 1;
    }
    InUnits(M, v.dp - 17);
    assert -(v.dp - 17) == 17 - v.dp;
    ScaleLt(lo, Float10(M, f), q);
    ScaleLt(Float10(M, f), hi, q);
    StrictlyRecovers(Float10(M, f), mant, exp, flt);
    if M == Pow(10, 17) {
      PowerAsOne(17, f);
      M, f := 1, f + 17;
      OneBelow(17);
    }
  }

  lemma StrictlyRecovers(x: real, mant: nat, exp: int, flt: FloatInfo)
    requires HalfDown(mant, exp, flt) < x < HalfUp(mant, exp, flt)
    ensures Recovers(x, mant, exp, flt)
  {
    hide HalfDown, HalfUp;
  }

  lemma PowerAsOne(j: nat, f: int)
    ensures Float10(Pow(10, j), f) == Float10(1, f + j)
  {
    Float10Shift(1, f, j);
  }

}
