/** The real number a decimal stands for, and how shifting and rounding change it. */
module DecimalValue {
  import opened Powers
  import opened Digits
  import opened DecimalSpec
  import opened ShiftDigits

  /** n * 10^e. */
  ghost function Float10(n: int, e: int): real {
    n as real * RPow(10, e)
  }

  ghost function Distance(x: real, y: real): real {
    if x < y then y - x else x - y
  }

  lemma Float10Shift(n: int, e: int, z: nat)
    ensures Float10(n, e + z) == Float10(n * Pow(10, z), e)
  {
    hide RPow, Pow;
    RPowAdd(10, e, z);
    RPowNat(10, z);
    RealMul(n, Pow(10, z));
    var a, b, ab, nb := RPow(10, e), RPow(10, z), RPow(10, e + z), (n * Pow(10, z)) as real;
    assert ab == a * b && nb == n as real * b;
    RMulSwap(n as real, a, b, ab, nb);
  }

  lemma InUnits(M: nat, f: int)
    ensures Times(Float10(M, f), RPow(10, -f)) == M as real
  {
    hide *;
    Float10Is(M, f);
    RPowInverse(10, f);
    UnitArith(M as real, RPow(10, f), RPow(10, -f));
  }

  lemma UnitArith(m: real, p: real, q: real)
    requires q * p == 1.0
    ensures Times(Times(m, p), q) == m
  {
    RAssoc(m, p, q);
  }

  lemma OneBelow(j: nat)
    requires j > 0
    ensures 1 < Pow(10, j)
  {
    PowPositive(10, j - 1);
  }

  lemma RMulSwap(n: real, a: real, b: real, ab: real, nb: real)
    requires ab == a * b && nb == n * b
    ensures n * ab == nb * a
  {
  }

  lemma TrailingValue(kept: seq<Digit>, rest: seq<Digit>, e: int)
    requires AllZero(rest)
    ensures Float10(Num(kept), e + |rest|) == Float10(Num(kept + rest), e)
  {
    NumTrailingZeros(kept, rest);
    hide *;
    Float10Shift(Num(kept), e, |rest|);
  }

  /** What Cut stores has the value of the exact digits, unless digits other than zeros are lost. */
  lemma CutValue(full: seq<Digit>, dp: int, trunc: bool)
    requires !Overflows(full)
    ensures Value(Cut(full, dp, trunc)) == Float10(Num(full), dp - |full|)
    ensures Cut(full, dp, trunc).trunc == trunc
  {
    hide *;
    CutRest(full, dp, trunc);
    var kept := Cut(full, dp, trunc).digits;
    var rest := full[|kept|..];
    assert full == kept + rest;
    TrailingValue(kept, rest, dp - |full|);
    assert dp - |full| + |rest| == dp - |kept|;
    CutDp(full, dp, trunc);
  }

  lemma CutDp(full: seq<Digit>, dp: int, trunc: bool)
    ensures var v := Cut(full, dp, trunc);
            Value(v) == Float10(Num(v.digits), dp - |v.digits|)
    ensures !Overflows(full) ==> Cut(full, dp, trunc).trunc == trunc
  {
    hide RPow;
  }

  lemma CutRest(full: seq<Digit>, dp: int, trunc: bool)
    requires !Overflows(full)
    ensures var kept := Cut(full, dp, trunc).digits;
            kept <= full && AllZero(full[|kept|..])
  {
    var s := if |full| <= CAPACITY then full else full[..CAPACITY];
    var kept := TrimRight(s);
    forall i | |kept| <= i < |full| ensures full[i] == '0' {
      if i < |s| {
        assert full[i] == s[|kept|..][i - |kept|];
      } else {
        assert full[i] == full[CAPACITY..][i - CAPACITY];
      }
    }
  }

  /** A number below 10^800 times a power of ten loses nothing. */
  lemma FitsCapacity(full: seq<Digit>)
    requires full != [] ==> full[0] != '0'
    requires Num(full) < Pow(10, CAPACITY)
    ensures !Overflows(full)
  {
    if full != [] {
      NumLeading(full);
      PowReflect(10, |full| - 1, CAPACITY);
    }
  }

  /** The exact digits of a scaled number, and whether they fit. */
  lemma ScaledFull(v: Dec, m: nat, e: int)
    requires Normal(v) && m > 0
    ensures var full := Render(Mul(Num(v.digits), m));
            && Num(full) == Mul(Num(v.digits), m)
            && (full != [] ==> full[0] != '0')
            && Scaled(v, m, e) == Cut(full, v.dp - |v.digits| + |full| + e, v.trunc)
            && (Num(full) < Pow(10, CAPACITY) ==> !Overflows(full))
            && (Scaled(v, m, e).trunc <==> v.trunc || Overflows(full))
  {
    hide *;
    var full := Render(Mul(Num(v.digits), m));
    NumRender(Mul(Num(v.digits), m));
    RenderStart(Mul(Num(v.digits), m));
    ScaledIs(v, m, e);
    CutTrunc(full, v.dp - |v.digits| + |full| + e, v.trunc);
    FitsIf(full);
  }

  lemma RenderStart(n: nat)
    ensures Render(n) != [] ==> Render(n)[0] != '0'
  {
    NumRender(n);
    hide Num;
  }

  lemma FitsIf(full: seq<Digit>)
    requires full != [] ==> full[0] != '0'
    ensures Num(full) < Pow(10, CAPACITY) ==> !Overflows(full)
  {
    hide Num, Pow, Overflows;
    if Num(full) < Pow(10, CAPACITY) {
      FitsCapacity(full);
    }
  }

  lemma ScaledIs(v: Dec, m: nat, e: int)
    ensures var full := Render(Mul(Num(v.digits), m));
            Scaled(v, m, e) == Cut(full, v.dp - |v.digits| + |full| + e, v.trunc)
  {
    hide Render, Cut, Mul, Num;
  }

  lemma CutTrunc(full: seq<Digit>, dp: int, trunc: bool)
    ensures Cut(full, dp, trunc).trunc <==> trunc || Overflows(full)
  {
    hide TrimRight;
  }

  /** Scaling by m * 10^e does that to the value when no digit is lost. */
  lemma ScaledValue(v: Dec, m: nat, e: int)
    requires Normal(v) && m > 0
    requires !v.trunc && !Scaled(v, m, e).trunc
    ensures Value(Scaled(v, m, e)) == Float10(Mul(Num(v.digits), m), v.dp - |v.digits| + e)
  {
    hide *;
    ScaledFull(v, m, e);
    var full := Render(Mul(Num(v.digits), m));
    CutValue(full, v.dp - |v.digits| + |full| + e, v.trunc);
  }

  lemma ScaledNormal(v: Dec, m: nat, e: int)
    requires Normal(v) && m > 0
    ensures Normal(Scaled(v, m, e))
    ensures v.digits != [] ==> Scaled(v, m, e).digits != []
    ensures v.trunc ==> Scaled(v, m, e).trunc
  {
    hide *;
    ScaledFull(v, m, e);
    var full := Render(Mul(Num(v.digits), m));
    if v.digits != [] {
      NormalStart(v);
      ScaledDigits(v.digits, m);
    }
    CutNormal(full, v.dp - |v.digits| + |full| + e, v.trunc);
  }

  /** Five to the k over ten to the k. */
  lemma FiveOverTen(k: nat)
    ensures Pow(5, k) as real * RPow(10, -(k as int)) == RPow(2, -(k as int))
  {
    Pow10Split(k);
    RealMul(Pow(2, k), Pow(5, k));
    RPowNat(10, k);
    RPowNat(2, k);
    RPowInverse(10, k);
    RPowInverse(2, k);
    RPowPositive(2, k);
    hide *;
    InverseArith(Pow(2, k) as real, Pow(5, k) as real, RPow(10, k), RPow(10, -(k as int)), RPow(2, -(k as int)));
  }

  lemma InverseArith(two: real, five: real, ten: real, tenth: real, half: real)
    requires two > 0.0 && ten == two * five && ten * tenth == 1.0 && two * half == 1.0
    ensures five * tenth == half
  {
    assert two * (five * tenth) == 1.0;
    RMulCancel(five * tenth, half, two);
  }

  lemma MulReal(a: nat, b: nat)
    ensures Mul(a, b) as real == Times(a as real, b as real)
  {
    RealMul(a, b);
  }

  lemma Float10Is(n: int, e: int)
    ensures Float10(n, e) == Times(n as real, RPow(10, e))
  {
    hide RPow;
  }

  lemma LeftValue(n: nat, e: int, k: nat)
    ensures Float10(Mul(n, Pow(2, k)), e) == Times(Float10(n, e), RPow(2, k))
  {
    hide *;
    MulReal(n, Pow(2, k));
    RPowNat(2, k);
    Float10Is(n, e);
    Float10Is(Mul(n, Pow(2, k)), e);
    LeftArith(n as real, RPow(2, k), RPow(10, e), Mul(n, Pow(2, k)) as real);
  }

  lemma LeftArith(n: real, two: real, t: real, n2: real)
    requires n2 == Times(n, two)
    ensures Times(n2, t) == Times(Times(n, t), two)
  {
  }

  lemma RightValue(n: nat, e: int, k: nat)
    ensures Float10(Mul(n, Pow(5, k)), e - k) == Times(Float10(n, e), RPow(2, -(k as int)))
  {
    hide *;
    var minus := -(k as int);
    MulReal(n, Pow(5, k));
    FiveOverTen(k);
    RPowSum(10, e, minus);
    Float10Is(n, e);
    Float10Is(Mul(n, Pow(5, k)), e - k);
    assert e + minus == e - k;
    RightArith(n as real, Pow(5, k) as real, RPow(10, e), RPow(10, minus), RPow(10, e - k), RPow(2, minus), Mul(n, Pow(5, k)) as real);
  }

  lemma RPowSum(b: nat, m: int, n: int)
    requires b > 0
    ensures RPow(b, m + n) == Times(RPow(b, m), RPow(b, n))
  {
    RPowAdd(b, m, n);
  }

  lemma RightArith(n: real, five: real, t: real, tenth: real, tt: real, half: real, n5: real)
    requires n5 == Times(n, five) && five * tenth == half && tt == Times(t, tenth)
    ensures Times(n5, tt) == Times(Times(n, t), half)
  {
    calc {
      n5 * tt;
      (n * five) * (t * tenth);
      { RAssoc(n * t, five, tenth); }
      (n * t) * (five * tenth);
    }
  }

  /** One pass of a shift. */
  lemma PassValue(v: Dec, k: int)
    requires Normal(v) && k != 0 && -60 <= k <= 60 && v.digits != []
    requires !v.trunc && !Shifted(v, k).trunc
    ensures Value(Shifted(v, k)) == Times(Value(v), RPow(2, k))
    ensures Normal(Shifted(v, k)) && Shifted(v, k).digits != []
  {
    hide *;
    ShiftedOnce(v, k);
    ValueIs(v);
    var e := v.dp - |v.digits|;
    if k > 0 {
      PowPositive(2, k);
      ScaledNormal(v, Pow(2, k), 0);
      ScaledValue(v, Pow(2, k), 0);
      LeftValue(Num(v.digits), e, k);
    } else {
      PowPositive(5, -k);
      ScaledNormal(v, Pow(5, -k), k);
      ScaledValue(v, Pow(5, -k), k);
      RightValue(Num(v.digits), e, -k);
      assert e - (-k) == e + k && -(-k) == k;
    }
  }

  lemma ShiftedOnce(v: Dec, k: int)
    requires k != 0 && -60 <= k <= 60 && v.digits != []
    ensures k > 0 ==> Shifted(v, k) == Scaled(v, Pow(2, k), 0)
    ensures k < 0 ==> Shifted(v, k) == Scaled(v, Pow(5, -k), k)
  {
  }

  lemma ValueIs(v: Dec)
    ensures Value(v) == Float10(Num(v.digits), v.dp - |v.digits|)
  {
    hide RPow;
  }

  lemma PassSticks(v: Dec, k: int)
    requires Normal(v) && k != 0 && -60 <= k <= 60 && v.digits != []
    ensures Normal(Shifted(v, k)) && Shifted(v, k).digits != []
    ensures v.trunc ==> Shifted(v, k).trunc
  {
    hide Scaled;
    if k > 0 {
      PowPositive(2, k);
      ScaledNormal(v, Pow(2, k), 0);
    } else {
      PowPositive(5, -k);
      ScaledNormal(v, Pow(5, -k), k);
    }
  }

  /** Lost digits stay lost. */
  lemma {:induction false} ShiftedSticks(v: Dec, k: int)
    requires Normal(v)
    ensures v.trunc ==> Shifted(v, k).trunc
    ensures Normal(Shifted(v, k)) && (v.digits != [] ==> Shifted(v, k).digits != [])
    decreases if k >= 0 then k else -k
  {
    hide Scaled;
    if v.digits == [] || k == 0 {
    } else if k > 60 {
      PassSticks(v, 60);
      ShiftedSticks(Scaled(v, Pow(2, 60), 0), k - 60);
    } else if k < -60 {
      PassSticks(v, -60);
      ShiftedSticks(Scaled(v, Pow(5, 60), -60), k + 60);
    } else {
      PassSticks(v, k);
    }
  }

  /** A shift by k multiplies the value by exactly 2^k whenever no digit was lost. */
  lemma ShiftedValue(v: Dec, k: int)
    requires Normal(v) && !v.trunc && !Shifted(v, k).trunc
    ensures Value(Shifted(v, k)) == Value(v) * RPow(2, k)
  {
    hide Normal, Value, Shifted, RPow;
    ShiftedTimes(v, k);
  }

  lemma ShiftedNone(v: Dec, k: int)
    requires v.digits == [] || k == 0
    ensures Value(Shifted(v, k)) == Times(Value(v), RPow(2, k))
  {
    assert v.digits == [] ==> Num(v.digits) == 0;
  }

  lemma {:induction false} ShiftedTimes(v: Dec, k: int)
    requires Normal(v) && !v.trunc && !Shifted(v, k).trunc
    ensures Value(Shifted(v, k)) == Times(Value(v), RPow(2, k))
    decreases if k >= 0 then k else -k
  {
    hide *;
    if v.digits == [] || k == 0 {
      ShiftedNone(v, k);
    } else if -60 <= k <= 60 {
      PassValue(v, k);
    } else {
      var first := if k > 0 then 60 else -60;
      ShiftedSplit(v, k);
      PassSticks(v, first);
      var w := Shifted(v, first);
      ShiftedSticks(w, k - first);
      PassValue(v, first);
      ShiftedTimes(w, k - first);
      RPowSum(2, first, k - first);
      assert first + (k - first) == k;
      SplitArith(Value(v), RPow(2, first), RPow(2, k - first), RPow(2, k), Value(w));
    }
  }

  lemma ShiftedSplit(v: Dec, k: int)
    requires v.digits != [] && (k > 60 || k < -60)
    ensures var first := if k > 0 then 60 else -60;
            Shifted(v, k) == Shifted(Shifted(v, first), k - first)
  {
    hide Scaled;
  }

  lemma SplitArith(x: real, a: real, b: real, ab: real, y: real)
    requires ab == Times(a, b) && y == Times(x, a)
    ensures Times(y, b) == Times(x, ab)
  {
  }

  /** Whether the digits of v times 2^k, or of v times 5^-k, fit the buffer. */
  ghost predicate Fits(v: Dec, k: int) {
    Mul(Num(v.digits), if k >= 0 then Pow(2, k) else Pow(5, -k)) < Pow(10, CAPACITY)
  }

  lemma TrimmedNum(full: seq<Digit>, dp: int, trunc: bool)
    requires !Overflows(full)
    ensures Num(Cut(full, dp, trunc).digits) <= Num(full)
  {
    CutRest(full, dp, trunc);
    var kept := Cut(full, dp, trunc).digits;
    var rest := full[|kept|..];
    assert full == kept + rest;
    NumTrailingZeros(kept, rest);
    PowPositive(10, |rest|);
    hide *;
    MulLe(1, Pow(10, |rest|), Num(kept));
  }

  lemma MulSplit(n: nat, w: nat, p: nat, q: nat, pq: nat, cap: nat)
    requires pq == Mul(p, q) && Mul(n, pq) < cap && w <= Mul(n, p) && p > 0 && q > 0
    ensures Mul(w, q) < cap && Mul(n, p) < cap
  {
    MulLe(w, n * p, q);
    MulAssoc(n, p, q);
    MulLe(1, q, n * p);
  }

  lemma PowMul(b: nat, m: nat, n: nat)
    ensures Pow(b, m + n) == Mul(Pow(b, m), Pow(b, n))
  {
    PowAdd(b, m, n);
  }

  /** A pass over a number with room for the whole shift keeps every digit and leaves room for the rest. */
  lemma PassFits(v: Dec, k: int)
    requires Normal(v) && v.digits != [] && (k > 60 || k < -60) && Fits(v, k)
    ensures var first := if k > 0 then 60 else -60;
            Shifted(v, first).trunc == v.trunc && Fits(Shifted(v, first), k - first)
  {
    var b := if k > 0 then 2 else 5;
    var r := (if k > 0 then k else -k) - 60;
    var w := Scaled(v, Pow(b, 60), if k > 0 then 0 else -60);
    assert Mul(Num(v.digits), Pow(b, r + 60)) < Pow(10, CAPACITY);
    PowPositive(b, 60);
    PowPositive(b, r);
    PowMul(b, 60, r);
    ScaledRoom(v, Pow(b, 60), if k > 0 then 0 else -60, Pow(b, r), Pow(b, r + 60));
    hide Scaled, Mul, Pow;
  }

  lemma ScaledRoom(v: Dec, p: nat, e: int, q: nat, pq: nat)
    requires Normal(v) && p > 0 && q > 0 && pq == Mul(p, q)
    requires Mul(Num(v.digits), pq) < Pow(10, CAPACITY)
    ensures Scaled(v, p, e).trunc == v.trunc
    ensures Mul(Num(Scaled(v, p, e).digits), q) < Pow(10, CAPACITY)
  {
    var cap := Pow(10, CAPACITY);
    hide *;
    MulSplit(Num(v.digits), Mul(Num(v.digits), p), p, q, pq, cap);
    ScaledFull(v, p, e);
    var full := Render(Mul(Num(v.digits), p));
    TrimmedNum(full, v.dp - |v.digits| + |full| + e, v.trunc);
    MulSplit(Num(v.digits), Num(Scaled(v, p, e).digits), p, q, pq, cap);
  }

  lemma ShiftedStill(v: Dec, k: int)
    requires v.digits == [] || k == 0
    ensures Shifted(v, k) == v
  {
  }

  lemma OnceFits(v: Dec, k: int)
    requires Normal(v) && v.digits != [] && k != 0 && -60 <= k <= 60 && Fits(v, k)
    ensures Shifted(v, k).trunc == v.trunc
  {
    hide *;
    ShiftedOnce(v, k);
    FitsIs(v, k);
    if k > 0 {
      PowPositive(2, k);
      ScaledFull(v, Pow(2, k), 0);
    } else {
      PowPositive(5, -k);
      ScaledFull(v, Pow(5, -k), k);
    }
  }

  lemma FitsIs(v: Dec, k: int)
    requires Fits(v, k)
    ensures k > 0 ==> Mul(Num(v.digits), Pow(2, k)) < Pow(10, CAPACITY)
    ensures k < 0 ==> Mul(Num(v.digits), Pow(5, -k)) < Pow(10, CAPACITY)
  {
    hide Mul, Num, Pow;
  }

  /** A shift whose exact result fits the buffer loses nothing, pass after pass. */
  lemma {:induction false} ShiftedFits(v: Dec, k: int)
    requires Normal(v) && Fits(v, k)
    ensures Shifted(v, k).trunc == v.trunc
    decreases if k >= 0 then k else -k
  {
    hide *;
    if v.digits == [] || k == 0 {
      ShiftedStill(v, k);
    } else if -60 <= k <= 60 {
      OnceFits(v, k);
    } else {
      var first := if k > 0 then 60 else -60;
      PassFits(v, k);
      PassSticks(v, first);
      ShiftedSplit(v, k);
      ShiftedFits(Shifted(v, first), k - first);
    }
  }
}
