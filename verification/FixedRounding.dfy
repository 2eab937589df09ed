/** Division and rounding of fixed-point numbers, against what "nearest" means among all multiples of a unit. */
module FixedRounding {
  import opened Powers
  import opened DecimalValue
  import opened FixedDecimal
  import opened Strconv

  const MIN_INT32: int := -0x8000_0000

  // What nearest means.

  /** k * 10^e is nearest to x among all multiples of 10^e; of two equally near, k is the one away from zero. */
  ghost predicate NearestAway(x: real, k: int, e: int) {
    forall j: int :: j != k ==>
      || Size(x - Float10(k, e)) < Size(x - Float10(j, e))
      || (Size(x - Float10(k, e)) == Size(x - Float10(j, e)) && Abs(j) < Abs(k))
  }

  /** The same, with ties to the even multiple. */
  ghost predicate NearestEven(x: real, k: int, e: int) {
    forall j: int :: j != k ==>
      || Size(x - Float10(k, e)) < Size(x - Float10(j, e))
      || (Size(x - Float10(k, e)) == Size(x - Float10(j, e)) && k % 2 == 0)
  }

  lemma SizeScale(y: real, z: real, p: real)
    requires p > 0.0
    ensures Size(y) < Size(z) <==> Size(Times(y, p)) < Size(Times(z, p))
    ensures Size(y) == Size(z) <==> Size(Times(y, p)) == Size(Times(z, p))
  {
    SizeTimes(y, p);
    SizeTimes(z, p);
    TimesOrder(Size(y), Size(z), p);
  }

  lemma TimesOrder(x: real, y: real, p: real)
    requires p > 0.0
    ensures x < y <==> Times(x, p) < Times(y, p)
    ensures x == y <==> Times(x, p) == Times(y, p)
  {
    if x < y { RMulLt(x, y, p); }
    if y < x { RMulLt(y, x, p); }
  }

  lemma SizeTimes(y: real, p: real)
    requires p > 0.0
    ensures Size(Times(y, p)) == Times(Size(y), p)
  {
    if y < 0.0 { RMulLt(y, 0.0, p); } else { RMulLe(0.0, y, p); }
  }

  /** Distances from multiples of 10^e, measured in units of 10^e. */
  lemma DistanceInUnits(x: real, n: real, k: int, j: int, e: int)
    requires x == Times(n, RPow(10, e))
    ensures Size(n - k as real) < Size(n - j as real) <==> Size(x - Float10(k, e)) < Size(x - Float10(j, e))
    ensures Size(n - k as real) == Size(n - j as real) <==> Size(x - Float10(k, e)) == Size(x - Float10(j, e))
  {
    RPowPositive(10, e);
    Float10Is(k, e);
    Float10Is(j, e);
    hide *;
    TimesMinus(n, k as real, RPow(10, e));
    TimesMinus(n, j as real, RPow(10, e));
    SizeScale(n - k as real, n - j as real, RPow(10, e));
  }

  lemma TimesMinus(n: real, k: real, p: real)
    ensures Times(n - k, p) == Times(n, p) - Times(k, p)
  {
  }

  lemma AwayFromUnits(x: real, n: real, k: int, e: int)
    requires x == Times(n, RPow(10, e)) && -0.5 <= n - k as real <= 0.5
    requires n - k as real == 0.5 ==> k < 0
    requires n - k as real == -0.5 ==> k > 0
    ensures NearestAway(x, k, e)
  {
    forall j: int | j != k
      ensures || Size(x - Float10(k, e)) < Size(x - Float10(j, e))
              || (Size(x - Float10(k, e)) == Size(x - Float10(j, e)) && Abs(j) < Abs(k))
    {
      DistanceInUnits(x, n, k, j, e);
      hide Float10, Times, RPow;
    }
  }

  lemma EvenFromUnits(x: real, n: real, k: int, e: int)
    requires x == Times(n, RPow(10, e)) && -0.5 <= n - k as real <= 0.5
    requires n - k as real == 0.5 || n - k as real == -0.5 ==> k % 2 == 0
    ensures NearestEven(x, k, e)
  {
    forall j: int | j != k
      ensures || Size(x - Float10(k, e)) < Size(x - Float10(j, e))
              || (Size(x - Float10(k, e)) == Size(x - Float10(j, e)) && k % 2 == 0)
    {
      DistanceInUnits(x, n, k, j, e);
      hide Float10, Times, RPow;
    }
  }

  /** A nearest multiple is at most half a unit away. */
  lemma NearestIsClose(x: real, n: real, k: int, e: int)
    requires x == Times(n, RPow(10, e)) && NearestAway(x, k, e)
    ensures -0.5 <= n - k as real <= 0.5
    ensures n - k as real == 0.5 ==> k < 0
    ensures n - k as real == -0.5 ==> k > 0
  {
    DistanceInUnits(x, n, k, k + 1, e);
    DistanceInUnits(x, n, k, k - 1, e);
    hide Float10, Times, RPow;
  }

  // Round.

  lemma UnitsTenfold(d: Fixed, e: int)
    ensures Units(d, e - 1) == 10.0 * Units(d, e)
  {
    RPowStep(10, -e);
    assert -(e - 1) == -e + 1;
    hide RPow, Amount;
    TenfoldArith(Amount(d), RPow(10, -e));
  }

  lemma TenfoldArith(x: real, p: real)
    ensures Times(x, 10.0 * p) == 10.0 * Times(x, p)
  {
  }

  /** Adding five in the extra digit and cutting it off rounds to nearest, away from zero on a tie. */
  lemma HalfAddedAndCut(n10: real, t: int, k: int)
    requires n10 >= 0.0 ==> t >= 0 && t as real <= n10 < t as real + 1.0
    requires n10 <= 0.0 ==> t <= 0 && t as real - 1.0 < n10 <= t as real
    requires var s := if t < 0 then t - 5 else t + 5;
             k == if s / 10 < 0 && s % 10 != 0 then s / 10 + 1 else s / 10
    ensures -5.0 <= n10 - 10.0 * k as real <= 5.0
    ensures n10 - 10.0 * k as real == 5.0 ==> k < 0
    ensures n10 - 10.0 * k as real == -5.0 ==> k > 0
  {
    var s := if t < 0 then t - 5 else t + 5;
    assert s == 10 * (s / 10) + s % 10;
    if t < 0 {
      assert 10 * k - 4 <= t <= 10 * k + 5;
      assert (10 * k) as real == 10.0 * k as real;
      assert t as real <= (10 * k + 5) as real;
      assert (10 * k - 4) as real <= t as real;
      if k >= 0 { assert k == 0; }
    } else {
      assert 10 * k - 5 <= t <= 10 * k + 4;
      assert (10 * k) as real == 10.0 * k as real;
      assert t as real <= (10 * k + 4) as real;
      assert (10 * k - 5) as real <= t as real;
      if k <= 0 { assert k == 0; }
    }
  }

  /** The least places of all: its negation is not an int32. */
  predicate Roundable(places: Int32) {
    places > MIN_INT32
  }

  method Round(d: Fixed, places: Int32) returns (ret: Fixed)
    ensures NearestAway(Amount(d), ret.value, -(places as int))
    ensures ret.exp == Wrap32(-(places as int))
    ensures Amount(ret) == Float10(ret.value, -(places as int)) <==>
            Roundable(places) || Size(Units(d, -(places as int))) < 0.5
  {
    var e := -(places as int) - 1;
    ret := Rescale(d, Wrap32(Wrap32(-(places as int)) - 1)); // one digit more than wanted
    WrapOnce(places);
    RescaleUnits(d, e);
    ghost var t := ret.value;
    hide Rescale, Amount, Units, RPow, Float10, Wrap32;
    if ret.value < 0 { // half a unit, away from zero
      ret := ret.(value := ret.value - 5);
    } else {
      ret := ret.(value := ret.value + 5);
    }
    // drop the extra digit, towards zero for either sign
    var m := ret.value % 10;
    ret := Fixed(ret.value / 10, Wrap32(ret.exp + 1));
    if ret.value < 0 && m != 0 {
      ret := ret.(value := ret.value + 1);
    }
    RoundedAway(d, e + 1, t, ret.value);
    WrongExponent(d, places, ret);
  }

  lemma WrapOnce(places: Int32)
    ensures Wrap32(Wrap32(-(places as int)) - 1) == -(places as int) - 1
    ensures Wrap32(-(places as int) - 1 + 1) == Wrap32(-(places as int))
    ensures Roundable(places) ==> Wrap32(-(places as int)) == -(places as int)
    ensures !Roundable(places) ==> Wrap32(-(places as int)) == places
  {
  }

  lemma RoundedAway(d: Fixed, e: int, t: int, k: int)
    requires var (x, t') := (Units(d, e - 1), t as real);
             (x >= 0.0 ==> 0.0 <= t' <= x < t' + 1.0) && (x <= 0.0 ==> t' - 1.0 < x <= t' <= 0.0)
    requires var s := if t < 0 then t - 5 else t + 5;
             k == if s / 10 < 0 && s % 10 != 0 then s / 10 + 1 else s / 10
    ensures NearestAway(Amount(d), k, e)
    ensures k == 0 <==> Size(Units(d, e)) < 0.5
  {
    hide Amount, Units, RPow, Float10, NearestAway;
    UnitsTenfold(d, e);
    HalfAddedAndCut(Units(d, e - 1), t, k);
    AmountUnits(d, e);
    var y := Units(d, e - 1);
    assert 10.0 * (Units(d, e) - k as real) == y - 10.0 * k as real;
    AwayFromUnits(Amount(d), Units(d, e), k, e);
    if k >= 1 {
      assert 10.0 * k as real >= 10.0;
    }
    if k <= -1 {
      assert 10.0 * k as real <= -10.0;
    }
  }

  lemma FloatZero(k: int, e: int)
    ensures k == 0 <==> Float10(k, e) == 0.0
  {
    RPowPositive(10, e);
    hide RPow;
  }

  lemma FloatApart(k: int, e: int, f: int)
    requires k != 0 && e < f
    ensures Float10(k, e) != Float10(k, f)
  {
    RPowStrict(10, e, f);
    Float10Is(k, e);
    Float10Is(k, f);
    hide *;
    TimesApart(k as real, RPow(10, e), RPow(10, f));
  }

  lemma TimesApart(k: real, p: real, q: real)
    requires k != 0.0 && p < q
    ensures Times(k, p) != Times(k, q)
  {
    TimesSwap(k, p);
    TimesSwap(k, q);
    if k > 0.0 {
      TimesOrder(p, q, k);
    } else {
      TimesMinusTwo(p, k);
      TimesMinusTwo(q, k);
      TimesOrder(p, q, -k);
    }
    hide Times;
  }

  lemma TimesSwap(x: real, y: real)
    ensures Times(x, y) == Times(y, x)
  {
  }

  lemma TimesMinusTwo(x: real, y: real)
    ensures Times(x, -y) == -Times(x, y)
  {
  }

  lemma RPowStrict(b: nat, e: int, f: int)
    requires b > 1 && e < f
    ensures RPow(b, e) < RPow(b, f)
  {
    hide *;
    RPowMonotone(b, e + 1, f);
    RPowStep(b, e);
    RPowPositive(b, e);
    StrictArith(RPow(b, e), b as real);
  }

  lemma StrictArith(p: real, b: real)
    requires p > 0.0 && b >= 2.0
    ensures p < b * p
  {
    RMulLt(1.0, b, p);
  }

  lemma WrongExponent(d: Fixed, places: Int32, ret: Fixed)
    requires ret.exp == Wrap32(-(places as int))
    requires ret.value == 0 <==> Size(Units(d, -(places as int))) < 0.5
    ensures Amount(ret) == Float10(ret.value, -(places as int)) <==>
            Roundable(places) || Size(Units(d, -(places as int))) < 0.5
  {
    WrapOnce(places);
    hide Units, Float10;
    FloatZero(ret.value, ret.exp);
    FloatZero(ret.value, -(places as int));
    if !Roundable(places) && ret.value != 0 {
      FloatApart(ret.value, ret.exp, -(places as int));
    }
  }

  /** 5e2147483647 rounded to the least places: one unit of 10^2147483648, with the exponent of the other sign. */
  lemma LeastPlacesWrong(ret: Fixed)
    requires NearestAway(Amount(Fixed(5, 0x7fff_ffff)), ret.value, 0x8000_0000) && ret.exp == Wrap32(0x8000_0000)
    ensures ret.value != 0 && Amount(ret) != Float10(ret.value, 0x8000_0000)
  {
    var d, e := Fixed(5, 0x7fff_ffff), 0x8000_0000;
    assert IsInt32(e - 1) && !Roundable(-e) && -(-e) == e;
    hide *;
    AmountUnits(d, e);
    HalfInUnits(e);
    NearestIsClose(Amount(d), Units(d, e), ret.value, e);
    HalfSize();
    WrongExponent(d, -e, ret);
  }

  lemma HalfSize()
    ensures Size(0.5) == 0.5
  {
  }

  // RoundBank.

  /** With the least places: in units of 10^2147483648 the size of d is not a half above an even number, nor a half and
      one unit of the exponent the result gets instead. */
  ghost predicate StillEven(d: Fixed) {
    var n := Size(Units(d, 0x8000_0000));
    !(n - n.Floor as real == 0.5 && n.Floor % 2 == 0) && n != 0.5 + RPow(10, -0x1_0000_0000)
  }

  method RoundBank(d: Fixed, places: Int32) returns (round: Fixed)
    ensures round.exp == Wrap32(-(places as int))
    ensures Roundable(places) ==> round.exp == -(places as int) && NearestEven(Amount(d), round.value, round.exp)
    ensures !Roundable(places) ==> (NearestEven(Amount(d), round.value, -(places as int)) <==> StillEven(d))
  {
    hide StillEven, Sub, Cmp, Amount, RPow, Float10, Wrap32, NearestAway, NearestEven;
    round := Round(d, places);
    ghost var k := round.value;
    WrapOnce(places);
    var diff := Sub(d, round);
    var remainder := Fixed(Abs(diff.value), diff.exp);
    var half := Fixed(5, Wrap32(Wrap32(-(places as int)) - 1));
    if Cmp(remainder, half) == 0 && round.value % 2 != 0 {
      if round.value < 0 {
        round := round.(value := round.value + 1);
      } else {
        round := round.(value := round.value - 1);
      }
    }
    if Roundable(places) {
      Banked(d, Fixed(k, -(places as int)), remainder, half, round.value);
    } else {
      BankedLeast(d, k, remainder, half, round.value);
    }
  }

  lemma RemainderInUnits(d: Fixed, round: Fixed, e: int)
    ensures Units(Fixed(Abs(Sub(d, round).value), Sub(d, round).exp), e) == Size(Units(d, e) - Units(round, e))
  {
    AddExact(d, round);
    UnitsIs(d, e);
    UnitsIs(round, e);
    UnitsIs(Sub(d, round), e);
    hide *;
    TimesMinus(Amount(d), Amount(round), RPow(10, -e));
    SizeUnits(Sub(d, round), e);
  }

  lemma OwnUnits(d: Fixed)
    ensures Units(d, d.exp) == d.value as real
  {
    UnitsUp(d, d.exp);
    assert d.value * 1 == d.value;
    hide Units;
  }

  lemma SizeUnits(d: Fixed, e: int)
    ensures Units(Fixed(Abs(d.value), d.exp), e) == Size(Units(d, e))
  {
    RPowPositive(10, d.exp);
    RPowPositive(10, -e);
    hide RPow;
    SizeFloat(d.value, RPow(10, d.exp), RPow(10, -e));
  }

  lemma SizeFloat(v: int, p: real, q: real)
    requires p > 0.0 && q > 0.0
    ensures Times(Abs(v) as real * p, q) == Size(Times(v as real * p, q))
  {
    RMulLt(0.0, p, q);
    RAssoc(v as real, p, q);
    RAssoc(Abs(v) as real, p, q);
    SizeTimes(v as real, p * q);
  }

  lemma HalfInUnits(e: int)
    requires IsInt32(e - 1)
    ensures Units(Fixed(5, e - 1), e) == 0.5
  {
    UnitsDown(Fixed(5, e - 1), e);
    assert Pow(10, 1) == 10;
    assert e - (e - 1) == 1;
    hide Units;
  }

  lemma Banked(d: Fixed, round: Fixed, remainder: Fixed, half: Fixed, k: int)
    requires NearestAway(Amount(d), round.value, round.exp) && round.exp > MIN_INT32
    requires remainder == Fixed(Abs(Sub(d, round).value), Sub(d, round).exp) && half == Fixed(5, round.exp - 1)
    requires k == if Cmp(remainder, half) == 0 && round.value % 2 != 0
                  then if round.value < 0 then round.value + 1 else round.value - 1
                  else round.value
    ensures NearestEven(Amount(d), k, round.exp)
  {
    var e := round.exp;
    hide Amount, Units, RPow, Float10, NearestAway, NearestEven, Sub, Cmp;
    AmountUnits(d, e);
    NearestIsClose(Amount(d), Units(d, e), round.value, e);
    RemainderInUnits(d, round, e);
    OwnUnits(round);
    HalfInUnits(e);
    EqualInUnits(remainder, half, e);
    EvenFromUnits(Amount(d), Units(d, e), k, e);
  }

  /** The same with the least places, where the rounded number is taken for a far smaller one. */
  lemma BankedLeast(d: Fixed, k: int, remainder: Fixed, half: Fixed, k': int)
    requires NearestAway(Amount(d), k, 0x8000_0000)
    requires remainder == Fixed(Abs(Sub(d, Fixed(k, MIN_INT32)).value), Sub(d, Fixed(k, MIN_INT32)).exp)
    requires half == Fixed(5, 0x7fff_ffff)
    requires k' == if Cmp(remainder, half) == 0 && k % 2 != 0 then if k < 0 then k + 1 else k - 1 else k
    ensures NearestEven(Amount(d), k', 0x8000_0000) <==> StillEven(d)
  {
    assert MIN_INT32 == -0x8000_0000 && IsInt32(0x8000_0000 - 1);
    hide *;
    var e := 0x8000_0000;
    var n, tiny := Units(d, e), RPow(10, -0x1_0000_0000);
    AmountUnits(d, e);
    NearestIsClose(Amount(d), n, k, e);
    RemainderInUnits(d, Fixed(k, MIN_INT32), e);
    HalfInUnits(e);
    EqualInUnits(remainder, half, e);
    TinyUnits(k);
    BankArith(n, k, Units(Fixed(k, MIN_INT32), e), tiny, k');
    EvenUnits(Amount(d), n, k', e);
    StillEvenIs(d);
  }

  lemma StillEvenIs(d: Fixed)
    ensures StillEven(d) <==> var n := Size(Units(d, 0x8000_0000));
                              !(n - n.Floor as real == 0.5 && n.Floor % 2 == 0) && n != 0.5 + RPow(10, -0x1_0000_0000)
  {
    hide RPow, Units;
  }

  lemma TinyUnits(k: int)
    ensures MIN_INT32 == -0x8000_0000
    ensures Units(Fixed(k, MIN_INT32), 0x8000_0000) == Times(k as real, RPow(10, -0x1_0000_0000))
    ensures 0.0 < RPow(10, -0x1_0000_0000) <= 0.1
  {
    assert RPow(10, -1) == 0.1;
    AmountIs(Fixed(k, MIN_INT32));
    UnitsIs(Fixed(k, MIN_INT32), 0x8000_0000);
    assert MIN_INT32 == -0x8000_0000;
    hide *;
    RPowMonotone(10, -0x1_0000_0000, -1);
    RPowPositive(10, -0x1_0000_0000);
    FloatTimes(k, -0x8000_0000, -0x8000_0000);
    Float10Is(k, -0x1_0000_0000);
  }

  ghost predicate CloseEven(n: real, k: int) {
    -0.5 <= n - k as real <= 0.5 && (n - k as real == 0.5 || n - k as real == -0.5 ==> k % 2 == 0)
  }

  lemma BankArith(n: real, k: int, kd: real, tiny: real, k': int)
    requires -0.5 <= n - k as real <= 0.5
    requires (n - k as real == 0.5 ==> k < 0) && (n - k as real == -0.5 ==> k > 0)
    requires 0.0 < tiny <= 0.1 && kd == Times(k as real, tiny)
    requires k' == if Size(n - kd) == 0.5 && k % 2 != 0 then if k < 0 then k + 1 else k - 1 else k
    ensures var m := Size(n);
            CloseEven(n, k') <==> !(m - m.Floor as real == 0.5 && m.Floor % 2 == 0) && m != 0.5 + tiny
  {
    TinyMultiple(k, kd, tiny);
    HalfAboveEven(n, k);
    hide Times;
  }

  lemma TinyMultiple(k: int, kd: real, tiny: real)
    requires 0.0 < tiny <= 0.1 && kd == Times(k as real, tiny)
    ensures k == 1 ==> kd == tiny
    ensures k == -1 ==> kd == -tiny
    ensures k >= 0 ==> 0.0 <= kd <= 0.1 * k as real
    ensures k <= 0 ==> 0.1 * k as real <= kd <= 0.0
  {
    if k > 0 {
      TinyPart(k as real, tiny);
    } else {
      TinyPart(-(k as real), tiny);
      TimesNegated(k as real, tiny);
    }
  }

  lemma TinyPart(k: real, tiny: real)
    requires 0.0 < tiny <= 0.1 && k >= 0.0
    ensures 0.0 <= Times(k, tiny) <= 0.1 * k
  {
    RMulLe(tiny, 0.1, k);
  }

  lemma TimesNegated(x: real, y: real)
    ensures Times(-x, y) == -Times(x, y)
  {
  }

  /** A half above an even number is what rounds away to an odd one. */
  lemma HalfAboveEven(n: real, k: int)
    requires -0.5 <= n - k as real <= 0.5
    requires (n - k as real == 0.5 ==> k < 0) && (n - k as real == -0.5 ==> k > 0)
    ensures var m := Size(n);
            m - m.Floor as real == 0.5 && m.Floor % 2 == 0 <==>
            (n - k as real == 0.5 || n - k as real == -0.5) && k % 2 != 0
  {
    var m := Size(n);
    var j := m.Floor;
    if n < 0.0 {
      assert m - j as real == 0.5 ==> n == -(j as real) - 0.5;
    }
    if n - k as real == -0.5 {
      assert m == (k - 1) as real + 0.5;
      assert j == k - 1;
    } else if n - k as real == 0.5 {
      assert m == (-k - 1) as real + 0.5;
      assert j == -k - 1;
    }
  }

  lemma EvenUnits(x: real, n: real, k: int, e: int)
    requires x == Times(n, RPow(10, e))
    ensures NearestEven(x, k, e) <==> CloseEven(n, k)
  {
    hide RPow, Float10, Times;
    if CloseEven(n, k) {
      EvenFromUnits(x, n, k, e);
    }
    if NearestEven(x, k, e) {
      DistanceInUnits(x, n, k, k + 1, e);
      DistanceInUnits(x, n, k, k - 1, e);
      assert k + 1 != k && k - 1 != k;
    }
  }

  lemma EqualInUnits(d: Fixed, d2: Fixed, e: int)
    ensures Cmp(d, d2) == 0 <==> Units(d, e) == Units(d2, e)
  {
    CmpOrders(d, d2);
    AmountUnits(d, e);
    AmountUnits(d2, e);
    UnitsIs(d, e);
    UnitsIs(d2, e);
    hide Cmp, Amount, Units, RPow;
  }

  // Division with remainder.

  /** Quotient, a multiple of 10^-precision, and remainder. The divisor must not be zero. */
  function QuoRem(d: Fixed, d2: Fixed, precision: Int32): (Fixed, Fixed)
    requires d2.value != 0
  {
    var scale := Wrap32(-(precision as int));
    var e := Wrap32(Wrap32(d.exp - d2.exp) - scale);
    if e < 0 then
      var bb := d2.value * Pow(10, -(e as int));
      ProductNonZero(d2.value, -(e as int));
      (Fixed(Quo(d.value, bb), scale), Fixed(Rem(d.value, bb), d.exp))
    else
      var aa := d.value * Pow(10, e);
      (Fixed(Quo(aa, d2.value), scale), Fixed(Rem(aa, d2.value), Wrap32(scale + d2.exp)))
  }

  lemma ProductNonZero(b: int, n: nat)
    requires b != 0
    ensures b * Pow(10, n) != 0
  {
    PowPositive(10, n);
  }

  /** d = d2 * q + r, q a multiple of 10^-precision, |r| < |d2| * 10^-precision, r with the sign of d. */
  ghost predicate Divides(d: Fixed, d2: Fixed, precision: int, q: Fixed, r: Fixed) {
    && q.exp == -precision
    && Amount(d) == Times(Amount(d2), Amount(q)) + Amount(r)
    && Size(Amount(r)) < Times(Size(Amount(d2)), RPow(10, -precision))
    && (d.value >= 0 ==> r.value >= 0)
    && (d.value <= 0 ==> r.value <= 0)
  }

  lemma FloatTimes(n: int, e: int, s: int)
    ensures Times(Float10(n, e), RPow(10, s)) == Float10(n, e + s)
  {
    hide *;
    Float10Is(n, e);
    Float10Is(n, e + s);
    RPowSum(10, e, s);
    TimesAssoc(n as real, RPow(10, e), RPow(10, s));
  }

  lemma TimesAssoc(x: real, y: real, z: real)
    ensures Times(Times(x, y), z) == Times(x, Times(y, z))
  {
    RAssoc(x, y, z);
  }

  lemma FloatFactor(y: real, b: int, q: int, s: int, g: int)
    requires Times(y, RPow(10, s)) == Float10(b, g)
    ensures Float10(b * q, g) == Times(y, Float10(q, s))
  {
    hide RPow;
    RealMul(b, q);
    FactorArith(y, b as real, q as real, (b * q) as real, RPow(10, s), RPow(10, g));
  }

  lemma FactorArith(y: real, b: real, q: real, bq: real, p: real, h: real)
    requires y * p == b * h && bq == b * q
    ensures bq * h == y * (q * p)
  {
    calc {
      bq * h;
      { RAssoc(q, b, h); }
      q * (b * h);
      { RAssoc(q, y, p); }
      y * (q * p);
    }
  }

  lemma FloatSmaller(r: int, b: int, g: int)
    requires Abs(r) < Abs(b)
    ensures Size(Float10(r, g)) < Size(Float10(b, g))
  {
    assert Size(r as real) < Size(b as real);
    hide *;
    RPowPositive(10, g);
    Float10Is(r, g);
    Float10Is(b, g);
    SizeScale(r as real, b as real, RPow(10, g));
  }

  lemma AmountIs(d: Fixed)
    ensures Amount(d) == Float10(d.value, d.exp)
  {
  }

  lemma TimesTenSign(a: int, n: nat)
    ensures a >= 0 ==> a * Pow(10, n) >= 0
    ensures a <= 0 ==> a * Pow(10, n) <= 0
  {
    PowPositive(10, n);
  }

  // Division rounded to nearest.

  function DivRound(d: Fixed, d2: Fixed, precision: Int32): Fixed
    requires d2.value != 0
  {
    var (q, r) := QuoRem(d, d2, precision);
    // is the remainder half a unit of the quotient or more?
    var r2 := Fixed(2 * Abs(r.value), Wrap32(r.exp + precision));
    var c := Cmp(r2, Fixed(Abs(d2.value), d2.exp));
    if c < 0 then q
    else if Sign(d.value) * Sign(d2.value) < 0 then Sub(q, Fixed(1, Wrap32(-(precision as int))))
    else Add(q, Fixed(1, Wrap32(-(precision as int))))
  }

  lemma FloatSize(n: int, e: int)
    ensures Float10(Abs(n), e) == Size(Float10(n, e))
  {
    assert Abs(n) as real == Size(n as real);
    hide *;
    RPowPositive(10, e);
    Float10Is(n, e);
    Float10Is(Abs(n), e);
    SizeTimes(n as real, RPow(10, e));
  }

  ghost function Ratio(x: real, y: real): real
    requires y != 0.0
  {
    x / y
  }

  lemma SignOf(r: real, u: real, ip: real)
    requires ip > 0.0 && u == Times(r, ip)
    ensures (u > 0.0 <==> r > 0.0) && (u == 0.0 <==> r == 0.0)
  {
    if r > 0.0 { RMulLt(0.0, r, ip); }
    if r < 0.0 { RMulLt(r, 0.0, ip); }
  }

  lemma SignProduct(a: real, y: real)
    requires y != 0.0
    ensures Times(a, y) == 0.0 <==> a == 0.0
    ensures a != 0.0 ==> (Times(a, y) > 0.0 <==> (a > 0.0) == (y > 0.0))
  {
    if y > 0.0 {
      SignOf(a, Times(a, y), y);
    } else {
      SignOf(a, Times(a, -y), -y);
      assert Times(a, -y) == -Times(a, y);
    }
  }

  lemma DivideBack(z: real, y: real)
    requires y != 0.0
    ensures (z * y) / y == z
  {
    var w := (z * y) / y;
    assert w * y == z * y;
    if y > 0.0 {
      RMulCancel(w, z, y);
    } else {
      assert w * -y == z * -y;
      RMulCancel(w, z, -y);
    }
  }

  lemma PlusMinusOne(q: Fixed)
    ensures Add(q, Fixed(1, q.exp)) == Fixed(q.value + 1, q.exp)
    ensures Sub(q, Fixed(1, q.exp)) == Fixed(q.value - 1, q.exp)
  {
    assert q.value * 1 == q.value;
  }
}
