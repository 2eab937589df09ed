/** QuoRem when exponents leave the int32 range: the test for it in the source comes after the wrap-around. */
module DivisionOverflow {
  import opened Powers
  import opened DecimalValue
  import opened FixedDecimal
  import opened FixedRounding
  import opened Strconv

  const WRAP := 0x1_0000_0000

  // The integers that are divided, and the exponents they stand over.

  /** Of the two integers a is d over the exponent ea, b is d2 in units of the quotient over the exponent eb, and the
      remainder gets the exponent er. */
  lemma Form(d: Fixed, d2: Fixed, precision: Int32) returns (a: int, b: int, ea: int, eb: int, er: Int32)
    requires d2.value != 0 && precision > MIN_INT32
    ensures b != 0
    ensures QuoRem(d, d2, precision) == (Fixed(Quo(a, b), -(precision as int)), Fixed(Rem(a, b), er))
    ensures Amount(d) == Float10(a, ea)
    ensures Times(Amount(d2), RPow(10, -(precision as int))) == Float10(b, eb)
    ensures (d.value >= 0 ==> a >= 0) && (d.value <= 0 ==> a <= 0) && (d.value == 0 <==> a == 0)
    ensures Exponents(d.exp, d2.exp, precision, ea, eb, er)
    ensures ea == eb && er != ea ==> a == d.value * Pow(10, d.exp - d2.exp + precision) && b == d2.value
    ensures b > 0 <==> d2.value > 0
    ensures Wrap32(er + precision) == eb + precision + if HalfBlown(d.exp, d2.exp, precision) then WRAP else 0
    ensures IsInt32(d.exp - d2.exp + precision) && d.exp - d2.exp + precision < 0 ==>
              a == d.value && b == d2.value * Pow(10, -(d.exp - d2.exp + precision))
  {
    hide *;
    var s := -(precision as int);
    var e: int := Wrap32(Wrap32(d.exp - d2.exp) - s);
    ExponentCases(d.exp, d2.exp, precision);
    HalfExponent(d.exp, d2.exp, precision);
    if e < 0 {
      a, b, ea, eb, er := d.value, d2.value * Pow(10, -e), d.exp, d2.exp + s + e, d.exp;
      ScaledDivisor(d, d2, precision, e);
    } else {
      a, b, ea, eb, er := d.value * Pow(10, e), d2.value, d.exp - e, d2.exp + s, Wrap32(s + d2.exp);
      ScaledDividend(d, d2, precision, e);
      SameRemainder(d.exp, d2.exp, precision, ea, eb, er);
    }
  }

  lemma SameRemainder(ed: Int32, ed2: Int32, precision: Int32, ea: int, eb: int, er: int)
    requires Exponents(ed, ed2, precision, ea, eb, er)
    ensures ea == eb && er != ea ==> IsInt32(ed - ed2 + precision)
  {
  }

  lemma ScaledDivisor(d: Fixed, d2: Fixed, precision: Int32, e: int)
    requires d2.value != 0 && Wrap32(-(precision as int)) == -(precision as int)
    requires e == Wrap32(Wrap32(d.exp - d2.exp) - Wrap32(-(precision as int))) < 0
    ensures var (s, b) := (-(precision as int), d2.value * Pow(10, -e));
            && b != 0 && (b > 0 <==> d2.value > 0) && Amount(d) == Float10(d.value, d.exp)
            && QuoRem(d, d2, precision) == (Fixed(Quo(d.value, b), s), Fixed(Rem(d.value, b), d.exp))
            && Times(Amount(d2), RPow(10, s)) == Float10(b, d2.exp + s + e)
  {
    var s := -(precision as int);
    ProductNonZero(d2.value, -e);
    TimesTenSign(d2.value, -e);
    hide Quo, Rem, Pow, Amount, RPow, Float10, Wrap32;
    AmountIs(d);
    AmountIs(d2);
    FloatTimes(d2.value, d2.exp, s);
    Float10Shift(d2.value, d2.exp + s + e, -e);
    assert d2.exp + s + e + -e == d2.exp + s;
  }

  lemma ScaledDividend(d: Fixed, d2: Fixed, precision: Int32, e: int)
    requires d2.value != 0 && Wrap32(-(precision as int)) == -(precision as int)
    requires e == Wrap32(Wrap32(d.exp - d2.exp) - Wrap32(-(precision as int))) >= 0
    ensures var (s, a) := (-(precision as int), d.value * Pow(10, e));
            && Amount(d) == Float10(a, d.exp - e)
            && QuoRem(d, d2, precision) == (Fixed(Quo(a, d2.value), s), Fixed(Rem(a, d2.value), Wrap32(s + d2.exp)))
            && Times(Amount(d2), RPow(10, s)) == Float10(d2.value, d2.exp + s)
            && (d.value >= 0 ==> a >= 0) && (d.value <= 0 ==> a <= 0) && (d.value == 0 <==> a == 0)
  {
    var s := -(precision as int);
    hide Quo, Rem, Pow, Amount, RPow, Float10, Wrap32;
    AmountIs(d);
    AmountIs(d2);
    TimesTenSign(d.value, e);
    PowPositive(10, e);
    NonZeroTimes(d.value, Pow(10, e));
    FloatTimes(d2.value, d2.exp, s);
    Float10Shift(d.value, d.exp - e, e);
    assert d.exp - e + e == d.exp;
  }

  lemma NonZeroTimes(a: int, p: int)
    requires p > 0
    ensures a == 0 <==> a * p == 0
  {
  }

  /** How the three exponents stand to each other. */
  predicate Exponents(ed: Int32, ed2: Int32, precision: Int32, ea: int, eb: int, er: int) {
    var x, g := ed - ed2 + precision, ed2 - precision;
    if IsInt32(x) then
      ea == eb && (er == ea <==> x < 0 || IsInt32(g))
    else if x > 0 then
      er == ea && eb == ea - WRAP
    else
      eb == ea + WRAP && (if IsInt32(g) then er == eb else er == ea)
  }

  lemma ExponentCases(ed: Int32, ed2: Int32, precision: Int32)
    requires precision > MIN_INT32
    ensures Wrap32(-(precision as int)) == -(precision as int)
    ensures var s := -(precision as int);
            var e := Wrap32(Wrap32(ed - ed2) - s);
            && (e < 0 ==> Exponents(ed, ed2, precision, ed, ed2 + s + e, ed))
            && (e >= 0 ==> Exponents(ed, ed2, precision, ed - e, ed2 + s, Wrap32(s + ed2)))
            && (IsInt32(ed - ed2 + precision) ==> e == ed - ed2 + precision)
  {
  }

  /** Where twice the remainder is compared with the divisor, its exponent has wrapped around. */
  predicate HalfBlown(ed: Int32, ed2: Int32, precision: Int32) {
    var x := ed - ed2 + precision;
    if IsInt32(x) then x < 0 && !IsInt32(ed + precision) else x > 0 && IsInt32(ed + precision)
  }

  lemma HalfExponent(ed: Int32, ed2: Int32, precision: Int32)
    requires precision > MIN_INT32
    ensures var s := -(precision as int);
            var e := Wrap32(Wrap32(ed - ed2) - s);
            var blown := if HalfBlown(ed, ed2, precision) then WRAP else 0;
            && (e < 0 ==> Wrap32(ed + precision) == ed2 + s + e + precision + blown)
            && (e >= 0 ==> Wrap32(Wrap32(s + ed2) + precision) == ed2 + s + precision + blown)
  {
  }

  // When the two sides of the division agree.

  /** The division over those exponents. */
  ghost predicate Balanced(a: int, b: int, q: int, r: int, ea: int, eb: int, er: int) {
    && Float10(a, ea) == Float10(b * q, eb) + Float10(r, er)
    && Size(Float10(r, er)) < Size(Float10(b, eb))
  }

  lemma DividesBalanced(d: Fixed, d2: Fixed, precision: Int32, a: int, b: int, ea: int, eb: int, er: Int32)
    requires d2.value != 0 && precision > MIN_INT32 && b != 0
    requires Amount(d) == Float10(a, ea) && Times(Amount(d2), RPow(10, -(precision as int))) == Float10(b, eb)
    requires (d.value >= 0 ==> a >= 0) && (d.value <= 0 ==> a <= 0)
    ensures Divides(d, d2, precision, Fixed(Quo(a, b), -(precision as int)), Fixed(Rem(a, b), er)) <==>
            Balanced(a, b, Quo(a, b), Rem(a, b), ea, eb, er)
  {
    hide Quo, Rem, Pow, Amount, RPow, Float10;
    var s := -(precision as int);
    QuoRemInt(a, b);
    AmountIs(Fixed(Quo(a, b), s));
    AmountIs(Fixed(Rem(a, b), er));
    FloatFactor(Amount(d2), b, Quo(a, b), s, eb);
    RPowPositive(10, s);
    SizeTimes(Amount(d2), RPow(10, s));
  }

  lemma SplitAmount(a: int, b: int, e: int)
    requires b != 0
    ensures Float10(a, e) == Float10(b * Quo(a, b), e) + Float10(Rem(a, b), e)
    ensures Size(Float10(Rem(a, b), e)) < Size(Float10(b, e))
  {
    hide Quo, Rem, Float10;
    QuoRemInt(a, b);
    FloatSum(b * Quo(a, b), Rem(a, b), e);
    FloatSmaller(Rem(a, b), b, e);
  }

  lemma FloatSame(k: int, e: int, f: int)
    requires e != f
    ensures Float10(k, e) == Float10(k, f) <==> k == 0
  {
    hide *;
    FloatZero(k, e);
    FloatZero(k, f);
    if k != 0 {
      if e < f {
        FloatApart(k, e, f);
      } else {
        FloatApart(k, f, e);
      }
    }
  }

  /** Nothing wraps around. */
  lemma AllAgree(a: int, b: int, e: int)
    requires b != 0
    ensures Balanced(a, b, Quo(a, b), Rem(a, b), e, e, e)
  {
    hide Quo, Rem, Float10;
    SplitAmount(a, b, e);
  }

  /** Only the remainder's exponent wraps around. */
  lemma RemainderOff(a: int, b: int, e: int, er: int)
    requires b != 0 && er != e
    ensures Balanced(a, b, Quo(a, b), Rem(a, b), e, e, er) <==> Rem(a, b) == 0
  {
    hide Quo, Rem, Float10;
    SplitAmount(a, b, e);
    FloatSame(Rem(a, b), e, er);
    FloatZero(Rem(a, b), er);
    FloatZero(b, e);
  }

  /** The quotient stands for something else. */
  lemma QuotientOff(a: int, b: int, e: int, eb: int)
    requires b != 0 && eb != e
    ensures Balanced(a, b, Quo(a, b), Rem(a, b), e, eb, e) <==>
            Quo(a, b) == 0 && Size(Float10(a, e)) < Size(Float10(b, eb))
  {
    hide Quo, Rem, Float10;
    SplitAmount(a, b, e);
    QuoRemInt(a, b);
    FloatSame(b * Quo(a, b), e, eb);
    if Quo(a, b) != 0 {
      NonZeroProduct(b, Quo(a, b));
    } else {
      FloatZero(b * 0, eb);
    }
  }

  /** The dividend was scaled by too much. */
  lemma DividendOff(a: int, b: int, ea: int, e: int)
    requires b != 0 && ea != e
    ensures Balanced(a, b, Quo(a, b), Rem(a, b), ea, e, e) <==> a == 0
  {
    hide Quo, Rem, Float10;
    SplitAmount(a, b, e);
    FloatSame(a, ea, e);
  }

  lemma ZeroQuotientIs(a: int, b: int, e: int)
    requires b != 0
    ensures Quo(a, b) == 0 <==> Size(Float10(a, e)) < Size(Float10(b, e))
  {
    hide Quo, Rem, Float10;
    QuoRemInt(a, b);
    if Quo(a, b) == 0 {
      assert Rem(a, b) == a;
      FloatSmaller(a, b, e);
    } else if Abs(a) < Abs(b) {
      SmallQuotient(a, b);
    } else {
      FloatNotSmaller(b, a, e);
    }
  }

  lemma NonZeroProduct(a: int, b: int)
    requires a != 0 && b != 0
    ensures a * b != 0
  {
  }

  lemma SmallQuotient(a: int, b: int)
    requires b != 0
    ensures Abs(a) < Abs(b) ==> Quo(a, b) == 0 && Rem(a, b) == a
  {
  }

  lemma FloatNotSmaller(b: int, a: int, e: int)
    requires Abs(a) >= Abs(b)
    ensures Size(Float10(a, e)) >= Size(Float10(b, e))
  {
    assert Size(b as real) <= Size(a as real);
    hide *;
    RPowPositive(10, e);
    Float10Is(a, e);
    Float10Is(b, e);
    SizeScale(a as real, b as real, RPow(10, e));
  }

  lemma FloatGrows(v: int, e: int, f: int)
    requires e <= f
    ensures Size(Float10(v, e)) <= Size(Float10(v, f))
  {
    hide *;
    RPowPositive(10, e);
    RPowPositive(10, f);
    RPowMonotone(10, e, f);
    Float10Is(v, e);
    Float10Is(v, f);
    SizeTimes(v as real, RPow(10, e));
    SizeTimes(v as real, RPow(10, f));
    GrowArith(v as real, RPow(10, e), RPow(10, f));
  }

  lemma GrowArith(v: real, p: real, q: real)
    requires p <= q
    ensures Times(Size(v), p) <= Times(Size(v), q)
  {
  }

  lemma ZeroAmount(d: Fixed)
    ensures Amount(d) == 0.0 <==> d.value == 0
  {
    hide Float10;
    AmountIs(d);
    FloatZero(d.value, d.exp);
  }

  // The four ways it can go.

  /** d2 in units of the quotient, those units shrunk by as much as an exponent can lose. */
  ghost function Unit(d2: Fixed, precision: Int32, lost: nat): real {
    Times(Size(Amount(d2)), RPow(10, -(precision as int) - lost))
  }

  lemma UnitIs(d2: Fixed, precision: Int32, b: int, eb: int, lost: nat)
    requires Times(Amount(d2), RPow(10, -(precision as int))) == Float10(b, eb)
    ensures Unit(d2, precision, lost) == Size(Float10(b, eb - lost))
  {
    var s := -(precision as int);
    hide *;
    UnitDef(d2, precision, lost);
    RPowPositive(10, s - lost);
    SizeTimes(Amount(d2), RPow(10, s - lost));
    var down := -(lost as int);
    RPowSum(10, s, down);
    assert s + down == s - lost && eb + down == eb - lost;
    TimesAssoc(Amount(d2), RPow(10, s), RPow(10, down));
    FloatTimes(b, eb, down);
  }

  lemma UnitDef(d2: Fixed, precision: Int32, lost: nat)
    ensures Unit(d2, precision, lost) == Times(Size(Amount(d2)), RPow(10, -(precision as int) - lost))
  {
    hide Amount, RPow;
  }

  /** The difference of the exponents wraps around upwards: kept exactly if there was nothing to be divided. */
  lemma OverflowAbove(d: Fixed, d2: Fixed, precision: Int32)
    requires d2.value != 0 && precision > MIN_INT32 && d.exp - d2.exp + precision >= 0x8000_0000
    ensures var (q, r) := QuoRem(d, d2, precision);
            Divides(d, d2, precision, q, r) <==> Size(Amount(d)) < Unit(d2, precision, 0)
  {
    hide QuoRem, Divides, Amount, RPow, Float10, Quo, Rem, Balanced, Unit, Size;
    var a, b, ea, eb, er := Form(d, d2, precision);
    DividesBalanced(d, d2, precision, a, b, ea, eb, er);
    QuotientOff(a, b, ea, eb);
    UnitIs(d2, precision, b, eb, 0);
    assert eb - 0 == eb;
    ZeroQuotientIs(a, b, ea);
    FloatGrows(b, eb, ea);
  }

  /** It wraps around downwards: kept exactly if the dividend is zero, or if the remainder's exponent wraps around
      too and the quotient is zero. */
  lemma OverflowBelow(d: Fixed, d2: Fixed, precision: Int32)
    requires d2.value != 0 && precision > MIN_INT32 && d.exp - d2.exp + precision < -0x8000_0000
    ensures var (q, r) := QuoRem(d, d2, precision);
            Divides(d, d2, precision, q, r) <==>
            if IsInt32(d2.exp - precision) then d.value == 0 else Size(Amount(d)) < Unit(d2, precision, WRAP)
  {
    hide QuoRem, Divides, Amount, RPow, Float10, Quo, Rem, Balanced, Unit, Size;
    var a, b, ea, eb, er := Form(d, d2, precision);
    DividesBalanced(d, d2, precision, a, b, ea, eb, er);
    if IsInt32(d2.exp - precision) {
      DividendOff(a, b, ea, eb);
    } else {
      QuotientOff(a, b, ea, eb);
      UnitIs(d2, precision, b, eb, WRAP);
      ZeroQuotientIs(a, b, ea);
      FloatGrows(b, ea, eb);
    }
  }

  /** The difference fits: kept unless the remainder's exponent wraps around and there is a remainder. */
  lemma NoOverflowOfDifference(d: Fixed, d2: Fixed, precision: Int32)
    requires d2.value != 0 && precision > MIN_INT32 && IsInt32(d.exp - d2.exp + precision)
    ensures var (x, qr) := (d.exp - d2.exp + precision, QuoRem(d, d2, precision));
            Divides(d, d2, precision, qr.0, qr.1) <==>
            x < 0 || IsInt32(d2.exp - precision) || Rem(d.value * Pow(10, x), d2.value) == 0
  {
    hide QuoRem, Divides, Amount, RPow, Float10, Quo, Rem, Balanced, Pow;
    var a, b, ea, eb, er := Form(d, d2, precision);
    DividesBalanced(d, d2, precision, a, b, ea, eb, er);
    if er == ea {
      AllAgree(a, b, ea);
    } else {
      RemainderOff(a, b, ea, er);
    }
  }

  /** What a caller can check beforehand. */
  ghost predicate KeepsPromise(d: Fixed, d2: Fixed, precision: Int32)
    requires d2.value != 0
  {
    var x, g := d.exp - d2.exp + precision, d2.exp - precision;
    && precision > MIN_INT32
    && if IsInt32(x) then x < 0 || IsInt32(g) || Rem(d.value * Pow(10, x), d2.value) == 0
       else if x > 0 then Size(Amount(d)) < Unit(d2, precision, 0)
       else if IsInt32(g) then d.value == 0
       else Size(Amount(d)) < Unit(d2, precision, WRAP)
  }

  /** The negation of the least precision is not an int32. */
  lemma LeastPrecision(d: Fixed, d2: Fixed, precision: Int32)
    requires d2.value != 0 && precision == MIN_INT32
    ensures QuoRem(d, d2, precision).0.exp != -(precision as int)
  {
    hide Quo, Rem, Pow;
  }

  /** When QuoRem keeps its promise, for all inputs. */
  lemma QuoRemExactlyWhen(d: Fixed, d2: Fixed, precision: Int32)
    requires d2.value != 0
    ensures var (q, r) := QuoRem(d, d2, precision);
            Divides(d, d2, precision, q, r) <==> KeepsPromise(d, d2, precision)
  {
    var x := d.exp - d2.exp + precision;
    if precision == MIN_INT32 {
      LeastPrecision(d, d2, precision);
      hide QuoRem, Amount, RPow, Float10;
    } else {
      hide QuoRem, Divides, Amount, RPow, Float10, Quo, Rem, Unit, Size, Pow;
      if IsInt32(x) {
        NoOverflowOfDifference(d, d2, precision);
      } else if x > 0 {
        OverflowAbove(d, d2, precision);
      } else {
        OverflowBelow(d, d2, precision);
      }
    }
  }

  // Inputs on which it does not.

  lemma TenMore(p: nat)
    requires p % 3 == 1
    ensures (10 * p) % 3 == 1
  {
    assert 10 * p == 3 * (3 * p) + p;
  }

  lemma {:induction false} TenModThree(n: nat)
    ensures Pow(10, n) % 3 == 1
  {
    if n > 0 {
      TenModThree(n - 1);
      assert Pow(10, n) == 10 * Pow(10, n - 1);
      hide Pow;
      TenMore(Pow(10, n - 1));
    }
  }

  lemma RemIsMod(a: nat, b: nat)
    requires b > 0
    ensures Rem(a, b) == a % b
  {
  }

  /** 1e-10 divided by 3e-2147483648 to one place: the difference fits an int32, but the remainder's exponent does not. */
  lemma RemainderLost()
    ensures var (d, d2) := (Fixed(1, -10), Fixed(3, -0x8000_0000));
            var (q, r) := QuoRem(d, d2, 1);
            IsInt32(d.exp - d2.exp + 1) && !Divides(d, d2, 1, q, r)
  {
    var d, d2 := Fixed(1, -10), Fixed(3, -0x8000_0000);
    var n := d.exp - d2.exp + 1;
    hide QuoRem, Divides, Pow, Rem;
    TenModThree(n);
    RemIsMod(Pow(10, n), 3);
    assert 1 * Pow(10, n) == Pow(10, n);
    QuoRemExactlyWhen(d, d2, 1);
  }

  /** 1e2147483647 divided by 0.1: one past the largest difference, where no panic comes and the quotient is wrong. */
  lemma QuotientLost()
    ensures var (d, d2) := (Fixed(1, 0x7fff_ffff), Fixed(1, -1));
            var (q, r) := QuoRem(d, d2, 0);
            d.exp - d2.exp == 0x8000_0000 && !Divides(d, d2, 0, q, r)
  {
    var d, d2 := Fixed(1, 0x7fff_ffff), Fixed(1, -1);
    AmountIs(d);
    AmountIs(d2);
    hide QuoRem, Divides, RPow, Amount, Float10, Unit, Size;
    FloatTimes(1, -1, 0);
    UnitIs(d2, 0, 1, -1, 0);
    FloatGrows(1, -1, 0x7fff_ffff);
    QuoRemExactlyWhen(d, d2, 0);
  }
}
