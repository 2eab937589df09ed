/** A double whose shortest digits are not the nearest ones: 69999999999999995805696, just below 7e22. */
module NearestMissed {
  import opened Powers
  import opened Digits
  import opened DecimalSpec
  import opened ShiftDigits
  import opened DecimalValue
  import opened ShortestDigits
  import opened NearestDigits
  import opened FloatBounds
  import opened AlreadyShortest

  /** (7 * 5^22 - 1) / 2. */
  const MANT: nat := 8344650268554687

  const EXP := 75

  const NINES: seq<Digit> := ['9', '9', '9', '9', '9', '9', '9', '9', '9', '9', '9', '9', '9', '9', '9']

  const TAIL: seq<Digit> := ['5', '8', '0', '5', '6', '9', '6']

  const LOWER_TAIL: seq<Digit> := ['1', '6', '1', '1', '3', '9', '2']

  function Long(tail: seq<Digit>): Dec {
    Dec(['6'] + NINES + tail, 23, false)
  }

  // Two normal decimals of the same value are the same.

  lemma SamePoint(a: Dec, b: Dec)
    requires Normal(a) && a.digits != [] && Normal(b) && b.digits != [] && Value(a) == Value(b)
    ensures a.dp == b.dp
  {
    hide Value;
    DpBound(a);
    DpBound(b);
    if a.dp < b.dp {
      RPowMonotone(10, a.dp, b.dp - 1);
    } else if b.dp < a.dp {
      RPowMonotone(10, b.dp, a.dp - 1);
    }
  }

  lemma SameDigits(a: Dec, b: Dec)
    requires Normal(a) && a.digits != [] && Normal(b) && b.digits != []
    requires Value(a) == Value(b) && a.dp == b.dp && |a.digits| <= |b.digits|
    ensures a.digits == b.digits
  {
    hide *;
    var n := |b.digits|;
    LeadBound(a, n);
    LeadBound(b, n);
    AtTimes(a, a.dp, n);
    AtTimes(b, b.dp, n);
    LeadingAll(a.digits, n);
    LeadingAll(b.digits, n);
    NoZeros(b.digits);
    NumInjective(a.digits + Zeros(n - |a.digits|), b.digits);
    LastIsNoZero(b);
    PaddedEnd(a.digits, n - |a.digits|);
  }

  lemma NoZeros(s: seq<Digit>)
    ensures s + Zeros(|s| - |s|) == s
  {
  }

  lemma LastIsNoZero(v: Dec)
    requires Normal(v) && v.digits != []
    ensures v.digits[|v.digits| - 1] != '0'
  {
  }

  lemma PaddedEnd(s: seq<Digit>, z: nat)
    ensures var t := s + Zeros(z); |t| == |s| + z && if z == 0 then t == s else t[|t| - 1] == '0'
  {
  }

  lemma LeadingAll(s: seq<Digit>, n: nat)
    requires n >= |s|
    ensures Leading(s, n) == Num(s + Zeros(n - |s|))
  {
    NumTrailingZeros(s, Zeros(n - |s|));
    assert n == |s| ==> s[..n] == s && s + Zeros(0) == s;
  }

  lemma SameDec(a: Dec, b: Dec)
    requires Normal(a) && a.digits != [] && Normal(b) && b.digits != [] && a.trunc == b.trunc && Value(a) == Value(b)
    ensures a == b
  {
    hide Normal, Value;
    SamePoint(a, b);
    if |a.digits| <= |b.digits| {
      SameDigits(a, b);
    } else {
      SameDigits(b, a);
    }
  }

  // The three decimals.

  lemma LongNum(tail: seq<Digit>)
    requires |tail| == 7
    ensures Num(Long(tail).digits) == 70_000_000_000_000_000_000_000 - 10_000_000 + Num(tail)
  {
    NumConcat(['6'] + NINES, tail);
    NumCons('6', NINES);
    NumNines(NINES);
    TensHere();
    hide Num, Pow;
  }

  lemma TensHere()
    ensures Pow(10, 7) == 10_000_000 && Pow(10, 15) == 1_000_000_000_000_000
    ensures Pow(10, 6) == 1_000_000 && Pow(10, 5) == 100_000
  {
    SmallTens();
    assert Pow(10, 7) == 10_000_000;
  }

  lemma ThreeDigits(a: Digit, b: Digit, c: Digit)
    ensures Num([a, b, c]) == 100 * Val(a) + 10 * Val(b) + Val(c)
  {
    assert Num([a]) == Val(a);
    hide Num;
    assert [a, b] == [a] + [b] && [a, b, c] == [a, b] + [c];
    NumSnoc([a], b);
    NumSnoc([a, b], c);
  }

  lemma Thousands(s: seq<Digit>, t: seq<Digit>)
    requires |t| == 3
    ensures Num(s + t) == 1000 * Num(s) + Num(t)
  {
    NumConcat(s, t);
    assert Pow(10, 3) == 1000;
  }

  lemma SevenDigits(a: Digit, b: Digit, c: Digit, d: Digit, e: Digit, f: Digit, g: Digit)
    ensures Num([a, b, c, d, e, f, g]) ==
            1_000_000 * Val(a) + 100_000 * Val(b) + 10_000 * Val(c) + 1000 * Val(d) + 100 * Val(e) + 10 * Val(f) + Val(g)
  {
    hide *;
    ThreeDigits(a, b, c);
    ThreeDigits(d, e, f);
    Thousands([a, b, c], [d, e, f]);
    assert [a, b, c, d, e, f, g] == ([a, b, c] + [d, e, f]) + [g];
    NumSnoc([a, b, c] + [d, e, f], g);
  }

  lemma LongValue(tail: seq<Digit>)
    requires |tail| == 7
    ensures Value(Long(tail)) == (70_000_000_000_000_000_000_000 - 10_000_000 + Num(tail)) as real
  {
    ValueIs(Long(tail));
    LongNum(tail);
    assert |Long(tail).digits| == 23;
    hide Value, Num;
    Float10One(Num(Long(tail).digits));
  }

  lemma SevenValue()
    ensures Value(Dec(['7'], 23, false)) == 70_000_000_000_000_000_000_000.0
  {
    var w := Dec(['7'], 23, false);
    ValueIs(w);
    assert Num(['7']) == 7;
    hide Value, Num;
    Float10Nat(7, 22);
    SmallTens();
    PowAdd(10, 15, 7);
    TensHere();
  }

  lemma TwosHere()
    ensures Pow(2, 23) == 8_388_608 && Pow(2, 22) == 4_194_304
    ensures Pow(2, 52) == 4_503_599_627_370_496 && Pow(2, 53) == 9_007_199_254_740_992 && Pow(2, 11) == 2048
  {
    PowAdd(2, 11, 11);
    assert Pow(2, 11) == 2048;
    PowAdd(2, 22, 1);
    PowAdd(2, 22, 22);
    PowAdd(2, 44, 8);
    PowAdd(2, 52, 1);
    assert Pow(2, 8) == 256 && Pow(2, 1) == 2;
    hide Pow;
  }

  lemma TheNumber()
    ensures Representable(MANT, EXP, FLOAT64) && MANT % 2 == 1 && FullStepBelow(MANT, EXP, FLOAT64)
    ensures FloatValue(MANT, EXP, FLOAT64) == 69_999_999_999_999_995_805_696.0
    ensures HalfUp(MANT, EXP, FLOAT64) == 70_000_000_000_000_000_000_000.0
    ensures HalfDown(MANT, EXP, FLOAT64) == 69_999_999_999_999_991_611_392.0
  {
    TwosHere();
    hide Pow;
    Float2Nat(MANT, 23);
    Float2Nat(2 * MANT + 1, 22);
    Float2Nat(2 * MANT - 1, 22);
    hide Float2;
  }

  lemma TheDecimals()
    ensures var v := Long(TAIL);
            Normal(v) && !v.trunc && Value(v) == FloatValue(MANT, EXP, FLOAT64) && !CoarseEnough(v, EXP, FLOAT64)
    ensures UpperDec(MANT, EXP, FLOAT64) == Dec(['7'], 23, false)
    ensures LowerDec(MANT, EXP, FLOAT64) == Long(LOWER_TAIL)
  {
    hide *;
    TheNumber();
    TheShapes();
    TheValues();
    UpperValue(MANT, EXP, FLOAT64);
    LowerValue(MANT, EXP, FLOAT64);
    SameDec(UpperDec(MANT, EXP, FLOAT64), Dec(['7'], 23, false));
    SameDec(LowerDec(MANT, EXP, FLOAT64), Long(LOWER_TAIL));
  }

  lemma TheShapes()
    ensures Normal(Long(TAIL)) && Long(TAIL).digits != [] && !Long(TAIL).trunc
    ensures Normal(Long(LOWER_TAIL)) && Long(LOWER_TAIL).digits != [] && !Long(LOWER_TAIL).trunc
    ensures Normal(Dec(['7'], 23, false))
    ensures !CoarseEnough(Long(TAIL), EXP, FLOAT64)
  {
    assert |Long(TAIL).digits| == 23;
  }

  lemma SevenVals()
    ensures Val('5') == 5 && Val('8') == 8 && Val('0') == 0 && Val('6') == 6 && Val('9') == 9 && Val('1') == 1 && Val('3') == 3
    ensures Val('2') == 2 && |TAIL| == 7 && |LOWER_TAIL| == 7
    ensures TAIL == ['5', '8', '0', '5', '6', '9', '6'] && LOWER_TAIL == ['1', '6', '1', '1', '3', '9', '2']
  {
  }

  lemma TheValues()
    ensures Value(Long(TAIL)) == 69_999_999_999_999_995_805_696.0
    ensures Value(Long(LOWER_TAIL)) == 69_999_999_999_999_991_611_392.0
    ensures Value(Dec(['7'], 23, false)) == 70_000_000_000_000_000_000_000.0
  {
    hide *;
    SevenVals();
    SevenDigits('5', '8', '0', '5', '6', '9', '6');
    SevenDigits('1', '6', '1', '1', '3', '9', '2');
    LongValue(TAIL);
    LongValue(LOWER_TAIL);
    SevenValue();
  }

  // The walk.

  lemma WalkEnds()
    ensures EndsAt(Long(LOWER_TAIL), Long(TAIL), Dec(['7'], 23, false), false, 16)
  {
    var lo, v, up := Long(LOWER_TAIL), Long(TAIL), Dec(['7'], 23, false);
    assert v.digits[16] == '5' && lo.digits[16] == '1' && up.digits[0] == '7';
    forall j | 0 <= j < 16
      ensures DigitAt(lo, j) == DigitAt(v, j) && !OkUp(v, up, false, j)
    {
      if j > 0 {
        assert v.digits[j] == NINES[j - 1] && lo.digits[j] == NINES[j - 1];
      }
    }
  }

  lemma RoomRefused()
    ensures RefusesRoom(Long(TAIL), Dec(['7'], 23, false), false, 16)
  {
    var v, up := Long(TAIL), Dec(['7'], 23, false);
    assert v.digits[16] == '5';
    assert v.digits[..16] == ['6'] + NINES;
    NumCons('6', NINES);
    NumNines(NINES);
    LeadingInside(v.digits, 16);
    assert Num(['7']) == 7;
    TensHere();
    hide Num, Pow;
    MulIs(7, Pow(10, 15));
  }

  lemma AboveHalf()
    ensures RestAboveHalf(Long(TAIL), 17)
  {
    var v := Long(TAIL);
    assert v.digits[17..] == ['8', '0', '5', '6', '9', '6'];
    SevenDigits('0', '8', '0', '5', '6', '9', '6');
    NumCons('0', ['8', '0', '5', '6', '9', '6']);
    assert ['0'] + ['8', '0', '5', '6', '9', '6'] == ['0', '8', '0', '5', '6', '9', '6'];
    TensHere();
    hide Num, Pow;
  }

  /** The digits found are 69999999999999995e6; 69999999999999996e6 reads back as the number too, and is nearer. */
  lemma NotTheNearest()
    ensures Representable(MANT, EXP, FLOAT64) && Normal(Long(TAIL)) && Value(Long(TAIL)) == FloatValue(MANT, EXP, FLOAT64)
    ensures !CoarseEnough(Long(TAIL), EXP, FLOAT64)
    ensures MissesNearest(LowerDec(MANT, EXP, FLOAT64), Long(TAIL), UpperDec(MANT, EXP, FLOAT64), MANT % 2 == 0)
    ensures Recovers(Float10(69_999_999_999_999_996, 6), MANT, EXP, FLOAT64)
    ensures Distance(Float10(69_999_999_999_999_996, 6), FloatValue(MANT, EXP, FLOAT64))
            < Distance(Float10(69_999_999_999_999_995, 6), FloatValue(MANT, EXP, FLOAT64))
  {
    hide *;
    TheNumber();
    TheDecimals();
    assert MANT % 2 == 1;
    WalkMisses();
    Nearer();
  }

  lemma WalkMisses()
    ensures MissesNearest(Long(LOWER_TAIL), Long(TAIL), Dec(['7'], 23, false), false)
  {
    hide EndsAt, RefusesRoom, RestAboveHalf;
    WalkEnds();
    RoomRefused();
    AboveHalf();
  }

  lemma Nearer()
    ensures Recovers(Float10(69_999_999_999_999_996, 6), MANT, EXP, FLOAT64)
    ensures Distance(Float10(69_999_999_999_999_996, 6), FloatValue(MANT, EXP, FLOAT64))
            < Distance(Float10(69_999_999_999_999_995, 6), FloatValue(MANT, EXP, FLOAT64))
  {
    hide FloatValue, HalfUp, HalfDown, Float10, Pow;
    TheNumber();
    Millions(69_999_999_999_999_996);
    Millions(69_999_999_999_999_995);
  }

  lemma Millions(n: nat)
    ensures Float10(n, 6) == (n * 1_000_000) as real
  {
    hide *;
    Float10Nat(n, 6);
    TensHere();
  }
}
