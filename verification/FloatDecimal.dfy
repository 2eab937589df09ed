/** newFromFloat: a floating point number as the shortest fixed-point number that reads back as it. */
module FloatDecimal {
  import opened Powers
  import opened Digits
  import opened DecimalSpec
  import opened DecimalBuffer
  import opened DecimalValue
  import opened ShortestDigits
  import opened FloatBounds
  import opened AlreadyShortest
  import opened Rounding
  import opened NearestFloat
  import opened FixedDecimal
  import opened Strconv

  type Int64 = x: int | -0x8000_0000_0000_0000 <= x < 0x8000_0000_0000_0000

  datatype Outcome = Panic | Converted(number: Fixed)

  // The three fields of the bit pattern.

  function ExpField(bits: Word, flt: FloatInfo): nat {
    Low(Shr(bits, flt.mantbits), flt.expbits)
  }

  /** The mantissa, with the implicit bit of a normal number. */
  function Mantissa(bits: Word, flt: FloatInfo): nat {
    Low(bits, flt.mantbits) + if ExpField(bits, flt) == 0 then 0 else Pow(2, flt.mantbits)
  }

  function Exponent(bits: Word, flt: FloatInfo): int {
    (if ExpField(bits, flt) == 0 then 1 else ExpField(bits, flt)) + flt.bias
  }

  predicate Negative(bits: Word, flt: FloatInfo) {
    Shr(bits, flt.expbits + flt.mantbits) != 0
  }

  predicate Finite(bits: Word, flt: FloatInfo) {
    ExpField(bits, flt) != Pow(2, flt.expbits) - 1
  }

  /** bits has the sign s, the exponent field e and the fraction f, from the left. */
  predicate Pattern(bits: nat, s: nat, e: nat, f: nat, flt: FloatInfo) {
    && e < Pow(2, flt.expbits) && f < Pow(2, flt.mantbits)
    && bits == Join(Join(s, e, flt.expbits), f, flt.mantbits)
  }

  function Join(high: nat, low: nat, k: nat): nat {
    Mul(high, Pow(2, k)) + low
  }

  lemma JoinParts(high: nat, low: nat, k: nat)
    requires low < Pow(2, k)
    ensures Shr(Join(high, low, k), k) == high && Low(Join(high, low, k), k) == low
  {
    var p, n := Pow(2, k), Join(high, low, k);
    assert n == p * high + low;
    hide Pow, Join, Mul;
    QuotientIs(n, p, high, low);
    assert n / p == high && n == p * (n / p) + n % p;
  }

  /** Every word is such a pattern. */
  lemma HasPattern(bits: nat, flt: FloatInfo) returns (s: nat, e: nat, f: nat)
    ensures Pattern(bits, s, e, f, flt)
  {
    var w := Shr(bits, flt.mantbits);
    s, e, f := Shr(w, flt.expbits), Low(w, flt.expbits), Low(bits, flt.mantbits);
    SplitJoin(bits, flt.mantbits);
    SplitJoin(w, flt.expbits);
    hide Pow, Shr, Low, Join;
  }

  lemma Division(n: nat, p: nat)
    requires p > 0
    ensures n == (n / p) * p + n % p
  {
  }

  lemma SplitJoin(n: nat, k: nat)
    ensures n == Join(Shr(n, k), Low(n, k), k) && Low(n, k) < Pow(2, k)
  {
    var p := Pow(2, k);
    PowPositive(2, k);
    hide Pow;
    Division(n, p);
  }

  /** The number a finite pattern stands for is MantissaOf * 2^(ExponentOf - mantbits) (section 3.4 of IEEE 754-2008). */
  function MantissaOf(e: nat, f: nat, flt: FloatInfo): nat {
    if e == 0 then f else Pow(2, flt.mantbits) + f
  }

  function ExponentOf(e: nat, flt: FloatInfo): int {
    flt.bias + if e == 0 then 1 else e
  }

  lemma FieldsOf(bits: Word, s: nat, e: nat, f: nat, flt: FloatInfo)
    requires Pattern(bits, s, e, f, flt)
    ensures Mantissa(bits, flt) == MantissaOf(e, f, flt) && Exponent(bits, flt) == ExponentOf(e, flt)
    ensures Negative(bits, flt) <==> s > 0
    ensures Finite(bits, flt) <==> e < Pow(2, flt.expbits) - 1
  {
    hide Pow, Shr, Low, Join;
    JoinParts(Join(s, e, flt.expbits), f, flt.mantbits);
    JoinParts(s, e, flt.expbits);
    ShrShr(bits, flt.mantbits, flt.expbits);
    assert flt.mantbits + flt.expbits == flt.expbits + flt.mantbits;
  }

  lemma ShrShr(n: nat, j: nat, k: nat)
    ensures Shr(n, j + k) == Shr(Shr(n, j), k)
  {
    var a, b := Shr(n, j), Low(n, j);
    var c, d := Shr(a, k), Low(a, k);
    SplitJoin(n, j);
    SplitJoin(a, k);
    PowAdd(2, j, k);
    PowPositive(2, j + k);
    var p, q := Pow(2, j), Pow(2, k);
    assert n == Mul(a, p) + b && a == Mul(c, q) + d;
    hide Pow, Low;
    ShiftedOut(n, p, q, a, b, c, d);
    QuotientIs(n, p * q, c, p * d + b);
  }

  lemma ShiftedOut(n: nat, p: nat, q: nat, a: nat, b: nat, c: nat, d: nat)
    requires n == Mul(a, p) + b && a == Mul(c, q) + d && b < p && d < q
    ensures n == (p * q) * c + (p * d + b) && p * d + b < p * q
  {
    MulLe(d + 1, q, p);
    assert q * p == p * q && (d + 1) * p == p * d + p;
    assert (c * q + d) * p == (p * q) * c + p * d;
  }

  /** The numbers of the format are exactly those of its finite patterns. */
  lemma FormatNumbers(mant: nat, exp: int, flt: FloatInfo)
    requires flt == FLOAT32 || flt == FLOAT64
    ensures Representable(mant, exp, flt) <==>
            exists e: nat, f: nat :: e < Pow(2, flt.expbits) - 1 && f < Pow(2, flt.mantbits)
                                     && mant == MantissaOf(e, f, flt) && exp == ExponentOf(e, flt)
  {
    PowPositive(2, flt.mantbits);
    assert Pow(2, flt.mantbits + 1) == 2 * Pow(2, flt.mantbits);
    SomeExponents(flt);
    hide Pow;
    if Representable(mant, exp, flt) {
      var e: nat := if mant < Pow(2, flt.mantbits) then 0 else exp - flt.bias;
      var f: nat := if e == 0 then mant else mant - Pow(2, flt.mantbits);
      assert mant == MantissaOf(e, f, flt) && exp == ExponentOf(e, flt);
    }
  }

  lemma SomeExponents(flt: FloatInfo)
    requires flt == FLOAT32 || flt == FLOAT64
    ensures Pow(2, flt.expbits) >= 4
  {
    PowMonotone(2, 2, flt.expbits);
    assert Pow(2, 2) == 4;
  }

  /** One, in either format: the exponent field in the middle, fraction zero. */
  lemma One(flt: FloatInfo)
    requires flt == FLOAT32 || flt == FLOAT64
    ensures flt.expbits > 0
    ensures var e := Pow(2, flt.expbits - 1) - 1;
            0 < e < Pow(2, flt.expbits) - 1 && FloatValue(MantissaOf(e, 0, flt), ExponentOf(e, flt), flt) == 1.0
  {
    hide *;
    OneFields(flt);
    FloatIs(Pow(2, flt.mantbits), 0, flt);
    UnitPower(flt.mantbits);
  }

  lemma OneFields(flt: FloatInfo)
    requires flt == FLOAT32 || flt == FLOAT64
    ensures flt.expbits > 0
    ensures var e := Pow(2, flt.expbits - 1) - 1;
            0 < e < Pow(2, flt.expbits) - 1 && MantissaOf(e, 0, flt) == Pow(2, flt.mantbits) && ExponentOf(e, flt) == 0
  {
    assert Pow(2, 7) == 128 && Pow(2, 8) == 256 && Pow(2, 10) == 1024 && Pow(2, 11) == 2048;
    hide Pow;
  }

  lemma UnitPower(k: nat)
    ensures Float2(Pow(2, k), -(k as int)) == 1.0
  {
    RPowNat(2, k);
    RPowInverse(2, k);
    hide Pow, RPow;
  }

  lemma FieldsRepresentable(bits: Word, flt: FloatInfo)
    requires (flt == FLOAT32 || flt == FLOAT64) && Finite(bits, flt)
    ensures Representable(Mantissa(bits, flt), Exponent(bits, flt), flt)
  {
    hide Pow, Mantissa, Exponent, Finite;
    var s, e, f := HasPattern(bits, flt);
    FieldsOf(bits, s, e, f, flt);
    FormatNumbers(MantissaOf(e, f, flt), ExponentOf(e, flt), flt);
  }

  /** v, up to its sign, reads back as the number, and no decimal of fewer digits does. */
  ghost predicate ShortestFor(v: Fixed, mant: nat, exp: int, flt: FloatInfo) {
    && ReadsAs(Float10(Abs(v.value), v.exp), mant, exp, flt)
    && forall n: nat, M: nat, f: int :: Pow(10, n) <= Abs(v.value) && M < Pow(10, n) ==>
         !ReadsAs(Float10(M, f), mant, exp, flt)
  }

  /** What a pattern is converted to: its number, with as few digits as will do, or a panic for infinities and NaN. */
  ghost predicate Stands(r: Outcome, s: nat, e: nat, f: nat, flt: FloatInfo) {
    if e == Pow(2, flt.expbits) - 1 then r.Panic?
    else if e == 0 && f == 0 then r == Converted(Fixed(0, 0))
    else
      && r.Converted? && r.number.value != 0 && (r.number.value < 0 <==> s > 0)
      && ShortestFor(r.number, MantissaOf(e, f, flt), ExponentOf(e, flt), flt)
  }

  method NewFromFloat(bits: Word, flt: FloatInfo) returns (r: Outcome)
    requires flt == FLOAT32 || flt == FLOAT64
    ensures forall s: nat, e: nat, f: nat :: Pattern(bits, s, e, f, flt) ==> Stands(r, s, e, f, flt)
  {
    if !Finite(bits, flt) {
      r := Panic;
    } else {
      FieldsRepresentable(bits, flt);
      var mant, exp := Fields(bits, flt);
      hide *;
      var d := Exact(mant, exp, flt);
      d.neg := Negative(bits, flt);
      RoundShortest(d, mant, exp, flt);
      var number := Collect(d, mant, exp, flt);
      r := Converted(number);
    }
    hide *;
    forall s: nat, e: nat, f: nat | Pattern(bits, s, e, f, flt)
      ensures Stands(r, s, e, f, flt)
    {
      FieldsOf(bits, s, e, f, flt);
      StandsIf(bits, r, s, e, f, flt);
    }
  }

  lemma StandsIf(bits: Word, r: Outcome, s: nat, e: nat, f: nat, flt: FloatInfo)
    requires Pattern(bits, s, e, f, flt)
    requires r.Panic? <==> !(e < Pow(2, flt.expbits) - 1)
    requires r.Converted? && MantissaOf(e, f, flt) == 0 ==> r.number == Fixed(0, 0)
    requires r.Converted? && MantissaOf(e, f, flt) > 0 ==>
             && r.number.value != 0 && (r.number.value < 0 <==> s > 0)
             && ShortestFor(r.number, MantissaOf(e, f, flt), ExponentOf(e, flt), flt)
    ensures Stands(r, s, e, f, flt)
  {
    PowPositive(2, flt.mantbits);
    hide Pow, ShortestFor;
  }

  method Fields(bits: Word, flt: FloatInfo) returns (mant: Word, exp: int)
    requires Representable(Mantissa(bits, flt), Exponent(bits, flt), flt)
    ensures mant == Mantissa(bits, flt) && exp == Exponent(bits, flt)
  {
    MantissaRange(Mantissa(bits, flt), Exponent(bits, flt), flt);
    exp := ExpField(bits, flt);
    mant := Low(bits, flt.mantbits);
    hide ExpField, Low, Representable, Pow;
    if exp == 0 {
      exp := 1; // a number below the normal ones
    } else {
      mant := mant + Pow(2, flt.mantbits); // the leading one is not stored
    }
    exp := exp + flt.bias;
  }

  /** All the digits of mant * 2^(exp - mantbits). */
  method Exact(mant: nat, exp: int, flt: FloatInfo) returns (d: Decimal)
    requires Representable(mant, exp, flt)
    ensures fresh(d) && fresh(d.d) && d.Valid() && !d.trunc && !d.neg
    ensures Value(d.View()) == FloatValue(mant, exp, flt)
    ensures mant == 0 ==> d.dp == 0
  {
    MantissaRange(mant, exp, flt);
    hide Shifted, Cut, Render, Value, Representable, FloatValue;
    d := new Decimal();
    d.Assign(mant);
    if mant == 0 {
      AssignedZero();
      d.Shift(exp - flt.mantbits);
      ShiftedZero(Dec([], 0, false), exp - flt.mantbits);
      ZeroIsZero(exp, flt);
      ZeroValue(d.View());
    } else {
      assert d.View() == Assigned(mant);
      d.Shift(exp - flt.mantbits);
      hide Assigned;
      BoundExact(mant, exp - flt.mantbits);
      FloatIs(mant, exp, flt);
    }
  }

  lemma AssignedZero()
    ensures Cut(Render(0), |Render(0)|, false) == Dec([], 0, false)
  {
  }

  lemma ShiftedZero(v: Dec, k: int)
    requires v.digits == []
    ensures Shifted(v, k) == v
  {
  }

  lemma ZeroIsZero(exp: int, flt: FloatInfo)
    ensures FloatValue(0, exp, flt) == 0.0
  {
  }

  /** Fewer than 18 digits. */
  lemma AtMostSeventeen(w: Dec, mant: nat, exp: int, flt: FloatInfo)
    requires Representable(mant, exp, flt) && mant > 0 && Shortest(w, mant, exp, flt)
    ensures |w.digits| <= 17
  {
    MantissaRange(mant, exp, flt);
    hide Representable, Shifted, Assigned, Pow, Recovers, Value, FloatValue, Float10;
    var v := Shifted(Assigned(mant), exp - flt.mantbits);
    BoundExact(mant, exp - flt.mantbits);
    FloatIs(mant, exp, flt);
    var M, f := SeventeenSuffice(v, mant, exp, flt);
  }

  /** The result as a signed integer and an exponent. */
  method Collect(d: Decimal, ghost mant: nat, ghost exp: int, ghost flt: FloatInfo) returns (v: Fixed)
    requires Representable(mant, exp, flt) && d.Shaped()
    requires mant == 0 ==> d.nd == 0 && d.dp == 0
    requires mant > 0 ==> d.Valid() && Shortest(d.View(), mant, exp, flt)
    ensures mant == 0 ==> v == Fixed(0, 0)
    ensures mant > 0 ==> v.value != 0 && (v.value < 0 <==> d.neg) && -0x8000_0000 <= v.exp < 0x8000_0000
    ensures mant > 0 ==> ShortestFor(v, mant, exp, flt)
  {
    hide Representable, Shortest, Recovers, Value;
    if mant > 0 {
      AtMostSeventeen(d.View(), mant, exp, flt);
      SomeDigits(d.View(), mant, exp, flt);
      PointRange(d.View(), mant, exp, flt);
    }
    assert d.nd < 19; // so the digits always fit an int64
    var tmp := Sum(d);
    if d.neg {
      tmp := tmp * -1;
    }
    v := Fixed(tmp, (d.dp as Int32) - (d.nd as Int32));
    if mant > 0 {
      CollectedShortest(d.View(), v, mant, exp, flt);
    }
  }

  method Sum(d: Decimal) returns (tmp: Int64)
    requires d.Shaped() && d.nd <= 17
    ensures tmp == Num(d.d[..d.nd])
  {
    tmp := 0;
    var m: Int64 := 1;
    var i := d.nd - 1;
    ghost var s := d.d[..d.nd];
    assert Num(s[i + 1..]) == 0;
    PowMonotone(10, d.nd, 17);
    TenToSeventeen();
    assert Pow(10, 0) == 1;
    hide Num, Pow;
    while i >= 0
      invariant -1 <= i < d.nd
      invariant tmp == Num(s[i + 1..]) && m == Pow(10, |s| - (i + 1))
    {
      SumStep(s, i);
      tmp := tmp + m * Val(d.d[i]);
      m := m * 10;
      i := i - 1;
    }
    assert s[0..] == s;
  }

  lemma TenToSeventeen()
    ensures Pow(10, 17) == 100_000_000_000_000_000
  {
    PowAdd(10, 10, 7);
    assert Pow(10, 10) == 10_000_000_000 && Pow(10, 7) == 10_000_000;
  }

  lemma SumStep(s: seq<Digit>, i: nat)
    requires i < |s| <= 17
    ensures Num(s[i..]) == Num(s[i + 1..]) + Pow(10, |s| - (i + 1)) * Val(s[i])
    ensures Pow(10, |s| - i) == Pow(10, |s| - (i + 1)) * 10
    ensures Num(s[i..]) < 100_000_000_000_000_000
    ensures Pow(10, |s| - i) <= 100_000_000_000_000_000
  {
    hide Num, Pow;
    assert s[i..] == [s[i]] + s[i + 1..];
    NumCons(s[i], s[i + 1..]);
    NumBound(s[i..]);
    PowMonotone(10, |s| - i, 17);
    TenToSeventeen();
    NextPower(|s| - (i + 1));
  }

  lemma NextPower(n: nat)
    ensures Pow(10, n + 1) == Pow(10, n) * 10
  {
  }

  /** The integer of the digits, whatever its sign, is the shortest number. */
  lemma CollectedShortest(w: Dec, v: Fixed, mant: nat, exp: int, flt: FloatInfo)
    requires Abs(v.value) == Num(w.digits) && v.exp == w.dp - |w.digits|
    requires mant > 0 && Shortest(w, mant, exp, flt) && Representable(mant, exp, flt)
    ensures ShortestFor(v, mant, exp, flt)
  {
    hide Recovers, Representable, Num, Value, RPow, Pow;
    ValueIs(w);
    RecoversReadsAs(Value(w), mant, exp, flt);
    hide ReadsAs, Float10;
    NumBound(w.digits);
    forall n: nat, M: nat, f: int | Pow(10, n) <= Abs(v.value) && M < Pow(10, n)
      ensures !ReadsAs(Float10(M, f), mant, exp, flt)
    {
      PowReflect(10, n, |w.digits|);
      RecoversReadsAs(Float10(M, f), mant, exp, flt);
    }
  }

  lemma SomeDigits(w: Dec, mant: nat, exp: int, flt: FloatInfo)
    requires Representable(mant, exp, flt) && mant > 0 && Normal(w) && Shortest(w, mant, exp, flt)
    ensures w.digits != [] && Num(w.digits) > 0
  {
    HalvesEnclose(mant, exp, flt);
    ZeroValue(w);
    hide Representable, Value, HalfUp, HalfDown;
    if w.digits != [] {
      NumZero(w.digits);
    }
  }

  // The exponent of the result is nowhere near the limits of an int32.

  lemma PointRange(w: Dec, mant: nat, exp: int, flt: FloatInfo)
    requires Representable(mant, exp, flt) && mant > 0 && Normal(w) && w.digits != [] && Shortest(w, mant, exp, flt)
    ensures -1100 <= w.dp <= 1100
  {
    MantissaRange(mant, exp, flt);
    ShortestRecovers(w, mant, exp, flt);
    hide *;
    HalvesEnclose(mant, exp, flt);
    RecoversIs(Value(w), mant, exp, flt);
    DpBound(w);
    FloatRange(mant, exp, flt);
    if w.dp < -1100 {
      RPowMonotone(10, w.dp, -1100);
    }
    if w.dp > 1100 {
      RPowMonotone(10, 1100, w.dp - 1);
    }
  }

  lemma ShortestRecovers(w: Dec, mant: nat, exp: int, flt: FloatInfo)
    requires Shortest(w, mant, exp, flt)
    ensures Recovers(Value(w), mant, exp, flt)
  {
  }

  lemma FloatRange(mant: nat, exp: int, flt: FloatInfo)
    requires 0 < mant < Pow(2, 56) && -1080 <= exp - flt.mantbits <= 1000
    ensures RPow(10, -1090) * 2.0 < FloatValue(mant, exp, flt)
    ensures 1.5 * FloatValue(mant, exp, flt) < RPow(10, 1100)
  {
    var E := exp - flt.mantbits;
    hide *;
    FloatIs(mant, exp, flt);
    Float2Is(mant, E);
    RPowMonotone(2, -1080, E);
    RPowMonotone(2, E, 1000);
    RPowPositive(2, E);
    RangeArith(mant as real, RPow(2, E), Pow(2, 56) as real);
    RPowNat(2, 56);
    RPowSum(2, 56, 1000);
    RangeTop(RPow(2, 56), RPow(2, E), RPow(2, 1000));
    TwoBelowTen(-1090);
    TwoBelowTen(1100);
    RPowStep(2, 1056);
    RPowMonotone(2, 1057, 1100);
    RPowStep(2, -1090);
    RPowStep(2, -1089);
    RPowMonotone(2, -1088, -1080);
    RPowPositive(2, -1090);
  }

  lemma RangeArith(m: real, p: real, t: real)
    requires 1.0 <= m < t && p > 0.0
    ensures p <= Times(m, p) < Times(t, p)
  {
    RMulLe(1.0, m, p);
    RMulLt(m, t, p);
  }

  lemma RangeTop(t: real, p: real, q: real)
    requires 0.0 < p <= q && t > 0.0
    ensures Times(t, p) <= Times(t, q)
  {
  }

  /** Powers of two against powers of ten. */
  lemma {:induction false} TwoBelowTen(e: int)
    ensures e >= 0 ==> RPow(2, e) <= RPow(10, e)
    ensures e < 0 ==> RPow(10, e) <= RPow(2, e)
    decreases if e < 0 then -e else e
  {
    if e == 0 {
    } else if e > 0 {
      TwoBelowTen(e - 1);
      RPowStep(2, e - 1);
      RPowStep(10, e - 1);
      RPowPositive(2, e - 1);
    } else {
      TwoBelowTen(e + 1);
      RPowStep(2, e);
      RPowStep(10, e);
      RPowPositive(2, e);
      RPowPositive(10, e);
      assert RPow(2, 0) == RPow(10, 0) == 1.0;
    }
  }
}
