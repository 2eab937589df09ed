/** The interval argument behind roundShortest: which digit strings lie between two bounds, and how short they can be. */
module ShortestDigits {
  import opened Powers
  import opened Digits
  import opened DecimalSpec
  import opened ShiftDigits
  import opened DecimalValue

  /** Three positive decimals lower < d < upper around a floating point number: never far apart, equally
      far apart when the ends are excluded, and then the upper end is not a power of ten. */
  ghost predicate Bracket(lower: Dec, d: Dec, upper: Dec, incl: bool) {
    && (forall v | v in {lower, d, upper} :: Normal(v) && v.digits != [])
    && Value(lower) < Value(d) < Value(upper)
    && Value(d) <= 2.0 * Value(lower)
    && 2.0 * Value(upper) <= 3.0 * Value(d)
    && (!incl ==> Value(upper) - Value(d) == Value(d) - Value(lower))
    && (!incl ==> |upper.digits| == 1 ==> upper.digits != ['1'])
  }

  /** x lies between the bounds, which belong to the interval only if incl says so. */
  ghost predicate Within(x: real, lower: Dec, upper: Dec, incl: bool) {
    || Value(lower) < x < Value(upper)
    || (incl && (x == Value(lower) || x == Value(upper)))
  }

  /** Digit i of v, with zeros beyond the last. */
  function DigitAt(v: Dec, i: nat): nat {
    if i < |v.digits| then Val(v.digits[i]) else 0
  }

  /** The value of v in units of 10^(dp - i). */
  ghost function At(v: Dec, dp: int, i: int): real {
    Times(Value(v), RPow(10, i - dp))
  }

  // The leading digits bound the value.

  lemma AtTimes(v: Dec, dp: int, i: int)
    ensures At(v, dp, i) == Times(Value(v), RPow(10, i - dp))
  {
    hide Value, RPow;
  }

  lemma AtIs(v: Dec, i: int)
    ensures At(v, v.dp, i) == Float10(Num(v.digits), i - |v.digits|)
  {
    var n := |v.digits|;
    ValueIs(v);
    Float10Is(Num(v.digits), v.dp - n);
    Float10Is(Num(v.digits), i - n);
    RPowSum(10, v.dp - n, i - v.dp);
    assert (v.dp - n) + (i - v.dp) == i - n;
    hide RPow, Num, Value, Float10;
    AtArith(Num(v.digits) as real, RPow(10, v.dp - n), RPow(10, i - v.dp), RPow(10, i - n));
  }

  lemma AtArith(n: real, a: real, b: real, ab: real)
    requires ab == Times(a, b)
    ensures Times(Times(n, a), b) == Times(n, ab)
  {
  }

  lemma LeadBound(v: Dec, i: nat)
    requires Normal(v) && v.digits != []
    ensures Leading(v.digits, i) as real <= At(v, v.dp, i) < (Leading(v.digits, i) + 1) as real
    ensures At(v, v.dp, i) == Leading(v.digits, i) as real <==> i >= |v.digits|
  {
    AtIs(v, i);
    var s := v.digits;
    if i >= |s| {
      assert i == |s| ==> s[..i] == s && Num(s) * Pow(10, 0) == Num(s);
      assert Leading(s, i) == Num(s) * Pow(10, i - |s|);
      Float10Nat(Num(s), i - |s|);
    } else {
      LeadBoundInside(s, i);
    }
  }

  lemma Float10Nat(n: int, e: nat)
    ensures Float10(n, e) == (n * Pow(10, e)) as real
  {
    RPowNat(10, e);
    RealMul(n, Pow(10, e));
    hide RPow;
  }

  lemma LeadBoundInside(s: seq<Digit>, i: nat)
    requires i < |s| && s[|s| - 1] != '0'
    ensures Leading(s, i) as real < Float10(Num(s), i - |s|) < (Leading(s, i) + 1) as real
  {
    var rest := s[i..];
    var z := |s| - i;
    assert s == s[..i] + rest;
    NumConcat(s[..i], rest);
    NumBound(rest);
    NumZero(rest);
    assert rest[|rest| - 1] != '0';
    Float10Shift(Num(s), i - |s|, z);
    assert i - |s| + z == 0;
    Float10Nat(Num(s), 0);
    assert Leading(s, i) == Num(s[..i]);
    PowPositive(10, z);
    hide *;
    Float10Unscale(Num(s), i - |s|, z);
    UnscaleBound(Num(s[..i]), Pow(10, z), Num(rest), Num(s), Float10(Num(s), i - |s|));
  }

  /** Undoing a division by 10^z. */
  lemma Float10Unscale(n: int, e: int, z: nat)
    requires e + z == 0
    ensures Times(Float10(n, e), Pow(10, z) as real) == n as real
  {
    Float10Is(n, e);
    RPowNat(10, z);
    RPowSum(10, e, z);
    assert RPow(10, 0) == 1.0;
    hide RPow, Pow, Float10;
    AtArith(n as real, RPow(10, e), RPow(10, z), RPow(10, 0));
  }

  lemma UnscaleBound(lead: int, p: int, rest: int, n: int, x: real)
    requires p > 0 && 0 < rest < p && n == lead * p + rest && Times(x, p as real) == n as real
    ensures lead as real < x < (lead + 1) as real
  {
    RealMul(lead, p);
    RealMul(lead + 1, p);
    assert lead * p < n < (lead + 1) * p;
    if x <= lead as real {
      RMulLe(x, lead as real, p as real);
    }
    if x >= (lead + 1) as real {
      RMulLe((lead + 1) as real, x, p as real);
    }
  }

  // Which decimals of few digits can lie in between.

  lemma FirstDigit(v: Dec)
    requires Normal(v) && v.digits != []
    ensures Leading(v.digits, 1) == Val(v.digits[0]) && 1 <= Val(v.digits[0]) <= 9
    ensures DigitAt(v, 0) == Val(v.digits[0])
  {
    LeadingStep(v.digits, 0);
    assert v.digits[..0] == [];
  }

  /** A number with dp places before the point is at least 10^(dp-1) and below 10^dp. */
  lemma DpBound(v: Dec)
    requires Normal(v) && v.digits != []
    ensures RPow(10, v.dp - 1) <= Value(v) < RPow(10, v.dp)
  {
    FirstDigit(v);
    LeadBound(v, 1);
    RPowSum(10, v.dp - 1, 1 - v.dp);
    assert RPow(10, 0) == 1.0;
    RPowStep(10, v.dp - 1);
    RPowPositive(10, v.dp - 1);
    RPowPositive(10, 1 - v.dp);
    hide RPow, Value, Leading;
    DpArith(Value(v), RPow(10, v.dp - 1), RPow(10, 1 - v.dp));
  }

  lemma DpArith(x: real, p: real, q: real)
    requires Times(p, q) == 1.0 && p > 0.0 && q > 0.0 && 1.0 <= Times(x, q) < 10.0
    ensures p <= x < 10.0 * p
  {
    RAssoc(10.0, p, q);
    if x < p {
      RMulLt(x, p, q);
    }
    if x >= 10.0 * p {
      RMulLe(10.0 * p, x, q);
    }
  }

  lemma Float10Bound(M: nat, f: int, i: nat)
    requires M < Pow(10, i)
    ensures 0.0 <= Float10(M, f) < RPow(10, i + f)
  {
    RPowNat(10, i);
    RPowSum(10, i, f);
    RPowPositive(10, f);
    Float10Is(M, f);
    hide RPow, Pow, Float10;
    BoundArith(M as real, RPow(10, i), RPow(10, f));
  }

  lemma BoundArith(m: real, p: real, q: real)
    requires 0.0 <= m < p && q > 0.0
    ensures 0.0 <= Times(m, q) < Times(p, q)
  {
    RMulLt(m, p, q);
    RMulLe(0.0, m, q);
  }

  lemma CandidateExponent(M: nat, f: int, dp: int, i: nat)
    requires M < Pow(10, i) && Float10(M, f) >= RPow(10, dp - 1)
    ensures f >= dp - i
  {
    hide *;
    if f < dp - i {
      Float10Bound(M, f, i);
      RPowMonotone(10, i + f, dp - 1);
    }
  }

  /** A number of at most i significant digits that reaches 10^(dp-1) is a multiple of 10^(dp-i). */
  lemma CandidateMultiple(M: nat, f: int, dp: int, i: nat) returns (a: nat)
    requires M < Pow(10, i) && Float10(M, f) >= RPow(10, dp - 1)
    ensures Times(Float10(M, f), RPow(10, i - dp)) == a as real
  {
    CandidateExponent(M, f, dp, i);
    var e := f - (dp - i);
    a := Mul(M, Pow(10, e));
    assert a == M * Pow(10, e);
    hide *;
    RPowSum(10, f, i - dp);
    Float10Is(M, f);
    Float10Nat(M, e);
    Float10Is(M, e);
    assert f + (i - dp) == e;
    AtArith(M as real, RPow(10, f), RPow(10, i - dp), RPow(10, e));
  }

  /** Comparing before and after a change of unit. */
  lemma ScaleLt(x: real, y: real, p: real)
    requires p > 0.0
    ensures x < y <==> Times(x, p) < Times(y, p)
    ensures x == y <==> Times(x, p) == Times(y, p)
  {
    if x < y {
      RMulLt(x, y, p);
    } else if y < x {
      RMulLt(y, x, p);
    }
  }

  lemma ScaleGap(x: real, y: real, z: real, p: real)
    requires z - y == y - x
    ensures Times(z, p) - Times(y, p) == Times(y, p) - Times(x, p)
  {
  }

  lemma ScaleRatio(x: real, y: real, p: real, a: real, b: real)
    requires p > 0.0 && a * x <= b * y
    ensures a * Times(x, p) <= b * Times(y, p)
  {
    RMulLe(a * x, b * y, p);
    RAssoc(a, x, p);
    RAssoc(b, y, p);
  }

  /** What the first i digits of the three numbers have shown when neither rounding was possible so far. */
  ghost predicate Undecided(lower: Dec, d: Dec, upper: Dec, incl: bool, i: nat) {
    i > 0 ==>
      && lower.dp == d.dp == upper.dp
      && Leading(lower.digits, i) == Leading(d.digits, i)
      && (incl ==> i < |lower.digits|)
      && (|| Leading(upper.digits, i) == Leading(d.digits, i)
          || (!incl && |upper.digits| <= i && Leading(upper.digits, i) > Leading(d.digits, i)))
  }

  /** As long as it is undecided, no number of i or fewer digits lies between the bounds. */
  lemma NoneShorter(lower: Dec, d: Dec, upper: Dec, incl: bool, i: nat, M: nat, f: int)
    requires Bracket(lower, d, upper, incl) && Undecided(lower, d, upper, incl, i) && M < Pow(10, i)
    ensures !Within(Float10(M, f), lower, upper, incl)
  {
    hide Bracket, Value, Float10, RPow, Undecided;
    BracketParts(lower, d, upper, incl);
    DpBound(lower);
    RPowPositive(10, lower.dp - 1);
    if i == 0 {
      assert Float10(M, f) == 0.0 by { Float10Zero(f); }
    } else {
      SameDp(lower, d, upper, incl, i);
      if Float10(M, f) >= RPow(10, d.dp - 1) {
        NoneShorterAt(lower, d, upper, incl, i, M, f);
      }
    }
  }

  lemma Float10Zero(f: int)
    ensures Float10(0, f) == 0.0
  {
  }

  lemma SameDp(lower: Dec, d: Dec, upper: Dec, incl: bool, i: nat)
    requires Undecided(lower, d, upper, incl, i) && i > 0
    ensures lower.dp == d.dp == upper.dp
  {
  }

  lemma NoneShorterAt(lower: Dec, d: Dec, upper: Dec, incl: bool, i: nat, M: nat, f: int)
    requires Bracket(lower, d, upper, incl) && Undecided(lower, d, upper, incl, i) && i > 0 && M < Pow(10, i)
    requires Float10(M, f) >= RPow(10, d.dp - 1)
    ensures !Within(Float10(M, f), lower, upper, incl)
  {
    hide Bracket, Leading, Value, Float10, RPow, Times, Pow;
    BracketParts(lower, d, upper, incl);
    LeadBound(lower, i);
    LeadBound(d, i);
    LeadBound(upper, i);
    RPowPositive(10, i - d.dp);
    var a := CandidateMultiple(M, f, d.dp, i);
    WithinScaled(Float10(M, f), lower, d, upper, incl, RPow(10, i - d.dp));
    NoneBetween(At(lower, d.dp, i), At(d, d.dp, i), At(upper, d.dp, i), a, Leading(d.digits, i), Leading(upper.digits, i), incl);
  }

  lemma BracketParts(lower: Dec, d: Dec, upper: Dec, incl: bool)
    requires Bracket(lower, d, upper, incl)
    ensures Normal(lower) && lower.digits != [] && Normal(d) && d.digits != [] && Normal(upper) && upper.digits != []
    ensures Value(lower) < Value(d) < Value(upper)
    ensures Value(d) <= 2.0 * Value(lower)
    ensures 2.0 * Value(upper) <= 3.0 * Value(d)
    ensures !incl ==> Value(upper) - Value(d) == Value(d) - Value(lower)
    ensures !incl ==> |upper.digits| == 1 ==> upper.digits != ['1']
  {
  }

  lemma WithinScaled(x: real, lower: Dec, d: Dec, upper: Dec, incl: bool, p: real)
    requires Bracket(lower, d, upper, incl) && p > 0.0
    ensures Within(x, lower, upper, incl) <==>
            || Times(Value(lower), p) < Times(x, p) < Times(Value(upper), p)
            || (incl && (Times(x, p) == Times(Value(lower), p) || Times(x, p) == Times(Value(upper), p)))
    ensures Times(Value(lower), p) < Times(Value(d), p) < Times(Value(upper), p)
    ensures !incl ==> Times(Value(upper), p) - Times(Value(d), p) == Times(Value(d), p) - Times(Value(lower), p)
  {
    hide Times, Value;
    ScaleLt(Value(lower), x, p);
    ScaleLt(x, Value(upper), p);
    ScaleLt(Value(lower), Value(d), p);
    ScaleLt(Value(d), Value(upper), p);
    if !incl {
      ScaleGap(Value(lower), Value(d), Value(upper), p);
    }
  }

  /** The unit-scaled core: lower and d share the integer part t, and a is an integer. */
  lemma NoneBetween(l: real, m: real, h: real, a: int, t: int, u: int, incl: bool)
    requires l < m < h && t as real <= l < (t + 1) as real && t as real <= m < (t + 1) as real
    requires incl ==> t as real < l
    requires !incl ==> h - m == m - l
    requires (u == t && h < (u + 1) as real) || (!incl && h == u as real)
    ensures !(l < a as real < h || (incl && (a as real == l || a as real == h)))
  {
    if a > t {
      assert (t + 1) as real <= a as real;
      if h == u as real {
        assert h < (t + 2) as real || incl;
        assert u <= t + 1 || incl;
      }
    }
  }

  // Rounding at a digit where the bounds allow it.

  /** Rounding down to digit i stays above lower. */
  predicate OkDown(lower: Dec, d: Dec, incl: bool, i: nat) {
    DigitAt(lower, i) != DigitAt(d, i) || (incl && i + 1 == |lower.digits|)
  }

  /** Rounding up to digit i stays below upper. */
  predicate OkUp(d: Dec, upper: Dec, incl: bool, i: nat) {
    && DigitAt(d, i) != DigitAt(upper, i)
    && (incl || DigitAt(d, i) + 1 < DigitAt(upper, i) || i + 1 < |upper.digits|)
  }

  lemma RoundedDownValue(v: Dec, m: nat)
    requires Normal(v) && 1 <= m <= |v.digits|
    ensures At(RoundedDown(v, m), v.dp, m) == Leading(v.digits, m) as real
    ensures Normal(RoundedDown(v, m)) && |RoundedDown(v, m).digits| <= m
  {
    if m == |v.digits| {
      LeadBound(v, m);
    } else {
      var s := v.digits[..m];
      var w := RoundedDown(v, m);
      assert w.digits == TrimRight(s);
      assert s[0] == v.digits[0];
      TrimRightKeeps(s);
      assert w.dp == v.dp;
      TrimmedAt(s, w, m);
    }
  }

  lemma TrimRightKeeps(s: seq<Digit>)
    requires s != [] && s[0] != '0'
    ensures TrimRight(s) != [] && TrimRight(s)[0] == s[0]
  {
    var t := TrimRight(s);
    assert |t| < |s| ==> s[|t|..][0] == s[|t|];
  }

  lemma TrimParts(s: seq<Digit>)
    ensures var t := TrimRight(s);
            |t| <= |s| && s == t + s[|t|..] && AllZero(s[|t|..])
  {
  }

  /** w holds the digits s without their trailing zeros; in units of the last of s it is the number s writes. */
  lemma TrimmedAt(s: seq<Digit>, w: Dec, m: int)
    requires w.digits == TrimRight(s)
    ensures At(w, w.dp, m) == Float10(Num(s), m - |s|)
  {
    hide *;
    TrimParts(s);
    var rest := s[|w.digits|..];
    TrailingValue(w.digits, rest, m - |s|);
    AtIs(w, m);
    assert m - |s| + |rest| == m - |w.digits|;
  }

  lemma LeadingInside(s: seq<Digit>, m: nat)
    requires m <= |s|
    ensures Leading(s, m) == Num(s[..m])
  {
  }

  /** Only the difference of place and point matters. */
  lemma AtUnits(v: Dec, dp: int, i: int, dp': int, i': int)
    requires i - dp == i' - dp'
    ensures At(v, dp, i) == At(v, dp', i')
  {
    hide Value, RPow;
  }

  lemma RoundedUpValue(v: Dec, m: nat)
    requires Normal(v) && 1 <= m < |v.digits|
    ensures At(RoundedUp(v, m), v.dp, m) == (Leading(v.digits, m) + 1) as real
    ensures Normal(RoundedUp(v, m)) && |RoundedUp(v, m).digits| <= m
  {
    hide *;
    var full := Render(Num(v.digits[..m]) + 1);
    var w := RoundedUp(v, m);
    RoundedUpIs(v, m);
    NumRender(Num(v.digits[..m]) + 1);
    LeadingInside(v.digits, m);
    TrimmedAt(full, w, |full|);
    Float10One(Num(full));
    assert |full| - w.dp == m - v.dp;
    AtUnits(w, w.dp, |full|, v.dp, m);
    RoundedUpShape(v, m);
  }

  /** Rounding to m digits gives the nearest number k of units of the last of them, a tie going to the even one, or up if
      digits were lost, because the number is then a little more than what is recorded. */
  lemma RoundsHalfEven(v: Dec, m: nat) returns (k: nat)
    requires Normal(v) && 1 <= m < |v.digits|
    ensures At(if TakesRoundUp(v, m) then RoundedUp(v, m) else RoundedDown(v, m), v.dp, m) == k as real
    ensures var (n, unit) := (Num(v.digits), Pow(10, |v.digits| - m));
            var u := k * unit;
            && 2 * u - unit <= 2 * n <= 2 * u + unit
            && (2 * n == 2 * u + unit ==> !v.trunc && k % 2 == 0)
            && (2 * n == 2 * u - unit ==> v.trunc || k % 2 == 0)
  {
    hide *;
    k := Leading(v.digits, m) + if TakesRoundUp(v, m) then 1 else 0;
    if TakesRoundUp(v, m) {
      RoundedUpValue(v, m);
    } else {
      RoundedDownValue(v, m);
    }
    HalfEvenDigits(v, m, k);
  }

  lemma HalfEvenDigits(v: Dec, m: nat, k: nat)
    requires 1 <= m < |v.digits| && k == Leading(v.digits, m) + if TakesRoundUp(v, m) then 1 else 0
    ensures var (n, unit) := (Num(v.digits), Pow(10, |v.digits| - m));
            var u := k * unit;
            && 2 * u - unit <= 2 * n <= 2 * u + unit
            && (2 * n == 2 * u + unit ==> !v.trunc && k % 2 == 0)
            && (2 * n == 2 * u - unit ==> v.trunc || k % 2 == 0)
  {
    var s, rest := v.digits[..m], v.digits[m..];
    assert v.digits == s + rest;
    TakesIs(v, m);
    hide *;
    NumConcat(s, rest);
    NumBound(rest);
    LeadingInside(v.digits, m);
    HalfEvenArith(Num(s), Pow(10, |rest|), Num(rest), TakesRoundUp(v, m), v.trunc);
  }

  /** The tie rule in numbers. */
  lemma TakesIs(v: Dec, m: nat)
    requires 1 <= m < |v.digits|
    ensures var (a, r, p) := (Num(v.digits[..m]), Num(v.digits[m..]), Pow(10, |v.digits| - m));
            TakesRoundUp(v, m) <==> 2 * r > p || (2 * r == p && (v.trunc || a % 2 != 0))
  {
    var s := v.digits[..m];
    assert Pow(10, |v.digits| - m) == 10 * Pow(10, |v.digits| - m - 1);
    assert s == s[..m - 1] + [v.digits[m - 1]];
    hide Num, Pow;
    NumSnoc(s[..m - 1], v.digits[m - 1]);
    EvenBySnoc(Num(s[..m - 1]), Val(v.digits[m - 1]));
  }

  lemma HalfEvenArith(a: nat, p: nat, r: nat, up: bool, lost: bool)
    requires r < p && (up <==> 2 * r > p || (2 * r == p && (lost || a % 2 != 0)))
    ensures var (n, k) := (a * p + r, a + if up then 1 else 0);
            var u := k * p;
            && 2 * u - p <= 2 * n <= 2 * u + p
            && (2 * n == 2 * u + p ==> !lost && k % 2 == 0)
            && (2 * n == 2 * u - p ==> lost || k % 2 == 0)
  {
    assert (a + 1) * p == a * p + p;
  }

  lemma EvenBySnoc(n: nat, c: nat)
    ensures (10 * n + c) % 2 == c % 2
  {
    assert 10 * n + c == 2 * (5 * n) + c;
  }

  lemma Float10One(n: int)
    ensures Float10(n, 0) == n as real
  {
  }

  lemma RoundedUpShape(v: Dec, m: nat)
    requires Normal(v) && 1 <= m < |v.digits|
    ensures Normal(RoundedUp(v, m)) && |RoundedUp(v, m).digits| <= m
  {
    var i := LastBelowNine(v.digits, m);
    RoundedUpDigits(v, m, i);
    hide RoundedUp;
  }

  lemma LastBelowNine(s: seq<Digit>, m: nat) returns (i: int)
    requires m <= |s|
    ensures -1 <= i < m && (i >= 0 ==> s[i] != '9') && forall j :: i < j < m ==> s[j] == '9'
  {
    i := m - 1;
    while i >= 0 && s[i] == '9'
      invariant -1 <= i < m && forall j :: i < j < m ==> s[j] == '9'
    {
      i := i - 1;
    }
  }

  /** One digit further, lower and d are still ordered by their leading digits. */
  lemma LeadingNext(v: Dec, i: nat)
    ensures Leading(v.digits, i + 1) == 10 * Leading(v.digits, i) + DigitAt(v, i)
    ensures Leading(v.digits, 0) == 0
  {
    LeadingStep(v.digits, i);
    assert v.digits[..0] == [];
  }

  /** x at least 10^dp is, in units of 10^(dp-1), at least 10; and conversely for less. */
  lemma UnitsOf(x: real, dp: int, e: int)
    ensures x >= RPow(10, e) ==> Times(x, RPow(10, 1 - dp)) >= RPow(10, e + 1 - dp)
    ensures x < RPow(10, e) ==> Times(x, RPow(10, 1 - dp)) < RPow(10, e + 1 - dp)
    ensures x > RPow(10, e) ==> Times(x, RPow(10, 1 - dp)) > RPow(10, e + 1 - dp)
  {
    RPowSum(10, e, 1 - dp);
    assert e + (1 - dp) == e + 1 - dp;
    RPowPositive(10, 1 - dp);
    hide *;
    ScaleLt(x, RPow(10, e), RPow(10, 1 - dp));
    ScaleLt(RPow(10, e), x, RPow(10, 1 - dp));
  }

  /** When lower has fewer places before the point than d, it lies below one unit of d's first digit. */
  lemma LowerBelowUnit(lower: Dec, d: Dec)
    requires Normal(lower) && lower.digits != [] && lower.dp < d.dp
    ensures At(lower, d.dp, 1) < 1.0
  {
    hide Value;
    DpBound(lower);
    UnitsOf(Value(lower), d.dp, lower.dp);
    RPowMonotone(10, lower.dp + 1 - d.dp, 0);
    assert RPow(10, 0) == 1.0;
  }

  /** When upper has more places before the point than d, it reaches ten units of d's first digit. */
  lemma UpperAboveUnits(upper: Dec, d: Dec)
    requires Normal(upper) && upper.digits != [] && upper.dp > d.dp
    ensures At(upper, d.dp, 1) >= 10.0
    ensures |upper.digits| > 1 ==> At(upper, d.dp, 1) > 10.0
  {
    DpBound(upper);
    UnitsOf(Value(upper), d.dp, upper.dp - 1);
    RPowMonotone(10, 1, upper.dp - d.dp);
    assert RPow(10, 1) == 10.0;
    if |upper.digits| > 1 {
      hide RPow, Value;
      DpStrict(upper);
    }
  }

  lemma DpStrict(v: Dec)
    requires Normal(v) && |v.digits| > 1
    ensures Value(v) > RPow(10, v.dp - 1)
  {
    FirstDigit(v);
    LeadBound(v, 1);
    RPowSum(10, v.dp - 1, 1 - v.dp);
    assert RPow(10, 0) == 1.0;
    RPowPositive(10, 1 - v.dp);
    hide RPow, Value, Leading;
    ScaleLt(RPow(10, v.dp - 1), Value(v), RPow(10, 1 - v.dp));
  }

  /** Bounds in units of digit i, with d's unit. */
  lemma BracketUnits(lower: Dec, d: Dec, upper: Dec, incl: bool, i: int)
    requires Bracket(lower, d, upper, incl)
    ensures At(lower, d.dp, i) < At(d, d.dp, i) < At(upper, d.dp, i)
    ensures At(d, d.dp, i) <= 2.0 * At(lower, d.dp, i)
    ensures 2.0 * At(upper, d.dp, i) <= 3.0 * At(d, d.dp, i)
  {
    hide Value, RPow;
    var p := RPow(10, i - d.dp);
    RPowPositive(10, i - d.dp);
    ScaleLt(Value(lower), Value(d), p);
    ScaleLt(Value(d), Value(upper), p);
    ScaleRatio(Value(d), Value(lower), p, 1.0, 2.0);
    ScaleRatio(Value(upper), Value(d), p, 2.0, 3.0);
  }

  /** A result whose unit-scaled value is at least that of lower and at most that of upper is within. */
  lemma WithinAt(w: Dec, lower: Dec, d: Dec, upper: Dec, incl: bool, i: int)
    requires Bracket(lower, d, upper, incl)
    requires var l, x, h := At(lower, d.dp, i), At(w, d.dp, i), At(upper, d.dp, i);
             l < x < h || (incl && (x == l || x == h))
    ensures Within(Value(w), lower, upper, incl)
  {
    hide Bracket, Value, RPow, Times;
    RPowPositive(10, i - d.dp);
    WithinScaled(Value(w), lower, d, upper, incl, RPow(10, i - d.dp));
  }

  /** Where the first i + 1 digits of lower leave it, when they allow rounding down there. */
  lemma DownAbove(lower: Dec, d: Dec, upper: Dec, incl: bool, i: nat)
    requires Bracket(lower, d, upper, incl) && Undecided(lower, d, upper, incl, i) && OkDown(lower, d, incl, i)
    ensures var l, t := At(lower, d.dp, i + 1), Leading(d.digits, i + 1) as real;
            l < t || (incl && l == t)
  {
    BracketParts(lower, d, upper, incl);
    BracketUnits(lower, d, upper, incl, i + 1);
    LeadBound(d, i + 1);
    LeadingNext(lower, i);
    LeadingNext(d, i);
    if lower.dp == d.dp {
      LeadBound(lower, i + 1);
      hide Bracket, At, Leading, DigitAt;
      DownArith(At(lower, d.dp, i + 1), At(d, d.dp, i + 1), Leading(lower.digits, i + 1), Leading(d.digits, i + 1));
    } else {
      DpOrder(lower, d);
      LowerBelowUnit(lower, d);
      FirstDigit(d);
      hide Bracket, At, Leading;
    }
  }

  lemma DownArith(l: real, m: real, a: int, b: int)
    requires l < m && a as real <= l && m < (b + 1) as real && l < (a + 1) as real
    ensures a <= b && (a != b ==> l < b as real)
  {
    if a < b {
      assert (a + 1) as real <= b as real;
    }
  }

  lemma DpOrder(x: Dec, y: Dec)
    requires Normal(x) && x.digits != [] && Normal(y) && y.digits != [] && Value(x) < Value(y)
    ensures x.dp <= y.dp
  {
    hide Value;
    DpBound(x);
    DpBound(y);
    if x.dp > y.dp {
      RPowMonotone(10, y.dp, x.dp - 1);
    }
  }

  /** Rounding down where OkDown allows it stays between the bounds. */
  lemma DownWithin(lower: Dec, d: Dec, upper: Dec, incl: bool, i: nat)
    requires Bracket(lower, d, upper, incl) && Undecided(lower, d, upper, incl, i)
    requires i < |d.digits| && OkDown(lower, d, incl, i)
    ensures var w := RoundedDown(d, i + 1);
            Normal(w) && |w.digits| <= i + 1 && Within(Value(w), lower, upper, incl)
  {
    hide Undecided, OkDown, Value, RPow, Leading, RoundedDown;
    BracketParts(lower, d, upper, incl);
    DownAbove(lower, d, upper, incl, i);
    BracketUnits(lower, d, upper, incl, i + 1);
    LeadBound(d, i + 1);
    RoundedDownValue(d, i + 1);
    var w := RoundedDown(d, i + 1);
    hide Bracket, At;
    WithinAt(w, lower, d, upper, incl, i + 1);
  }

  /** The result of rounding up at digit i, in units of that digit, against upper. */
  lemma UpBelow(lower: Dec, d: Dec, upper: Dec, incl: bool, i: nat)
    requires Bracket(lower, d, upper, incl) && Undecided(lower, d, upper, incl, i) && OkUp(d, upper, incl, i)
    ensures var t, h := (Leading(d.digits, i + 1) + 1) as real, At(upper, d.dp, i + 1);
            t < h || (incl && t == h)
  {
    BracketParts(lower, d, upper, incl);
    BracketUnits(lower, d, upper, incl, i + 1);
    LeadBound(d, i + 1);
    LeadingNext(upper, i);
    LeadingNext(d, i);
    if upper.dp == d.dp {
      LeadBound(upper, i + 1);
      UpSame(lower, d, upper, incl, i);
      hide Bracket, At, Leading, DigitAt, Undecided;
      UpArith(At(upper, d.dp, i + 1), At(d, d.dp, i + 1), Leading(upper.digits, i + 1), Leading(d.digits, i + 1));
    } else {
      DpOrder(d, upper);
      UpperAboveUnits(upper, d);
      FirstDigit(d);
      FirstDigit(upper);
      hide Bracket, At, Leading;
    }
  }

  /** Rounding up is allowed only while upper shares d's earlier digits. */
  lemma UpSame(lower: Dec, d: Dec, upper: Dec, incl: bool, i: nat)
    requires Undecided(lower, d, upper, incl, i) && OkUp(d, upper, incl, i)
    ensures Leading(upper.digits, i) == Leading(d.digits, i)
  {
    LeadingNext(upper, 0);
    LeadingNext(d, 0);
    hide Leading;
  }

  lemma UpArith(h: real, m: real, b: int, a: int)
    requires m < h && a as real <= m && h < (b + 1) as real && b as real <= h
    ensures a <= b && (a + 1 <= b ==> (a + 1) as real <= h) && (a + 1 < b ==> (a + 1) as real < h)
    ensures a + 1 == b && h != b as real ==> (a + 1) as real < h
  {
    if a + 1 <= b {
      assert (a + 1) as real <= b as real;
    }
    if a + 1 < b {
      assert (a + 2) as real <= b as real;
    }
  }

  /** Rounding up where OkUp allows it stays between the bounds. */
  lemma UpWithin(lower: Dec, d: Dec, upper: Dec, incl: bool, i: nat)
    requires Bracket(lower, d, upper, incl) && Undecided(lower, d, upper, incl, i)
    requires i < |d.digits| && OkUp(d, upper, incl, i)
    ensures var w := RoundedUp(d, i + 1);
            Normal(w) && |w.digits| <= i + 1 && Within(Value(w), lower, upper, incl)
  {
    hide Undecided, OkUp, Value, RPow, Leading, RoundedUp;
    BracketParts(lower, d, upper, incl);
    var w := RoundedUp(d, i + 1);
    if i + 1 == |d.digits| {
      RoundedSame(d, i + 1);
    } else {
      UpBelow(lower, d, upper, incl, i);
      BracketUnits(lower, d, upper, incl, i + 1);
      LeadBound(d, i + 1);
      RoundedUpValue(d, i + 1);
      hide Bracket, At;
      WithinAt(w, lower, d, upper, incl, i + 1);
    }
  }

  /** Lower with fewer places before the point differs from d in the first digit. */
  lemma MisalignedLower(lower: Dec, d: Dec, upper: Dec, incl: bool)
    requires Bracket(lower, d, upper, incl) && lower.dp < d.dp
    ensures OkDown(lower, d, incl, 0)
  {
    BracketParts(lower, d, upper, incl);
    BracketUnits(lower, d, upper, incl, 1);
    LowerBelowUnit(lower, d);
    LeadBound(d, 1);
    LeadBound(lower, 1);
    FirstDigit(d);
    FirstDigit(lower);
    if lower.dp < d.dp - 1 {
      FarBelow(lower, d);
    }
    hide Bracket, Leading, Value;
    UnitStep(lower, d.dp, 1);
    assert 1 - (d.dp - 1) == 1 + 1 - d.dp;
  }

  /** One place less in the unit is a factor of ten. */
  lemma UnitStep(v: Dec, dp: int, i: int)
    ensures At(v, dp - 1, i) == 10.0 * At(v, dp, i)
  {
    RPowStep(10, i - dp);
    assert i - (dp - 1) == i - dp + 1;
    hide RPow, Value;
  }

  lemma FarBelow(lower: Dec, d: Dec)
    requires Normal(lower) && lower.digits != [] && lower.dp < d.dp - 1
    ensures At(lower, d.dp, 1) < 0.1
  {
    DpBound(lower);
    hide Value;
    UnitsOf(Value(lower), d.dp, lower.dp);
    RPowMonotone(10, lower.dp + 1 - d.dp, -1);
    assert RPow(10, -1) == 0.1;
  }

  lemma FarAbove(upper: Dec, d: Dec)
    requires Normal(upper) && upper.digits != [] && upper.dp > d.dp + 1
    ensures At(upper, d.dp, 1) >= 100.0
  {
    DpBound(upper);
    hide Value;
    UnitsOf(Value(upper), d.dp, upper.dp - 1);
    RPowMonotone(10, 2, upper.dp - d.dp);
    assert RPow(10, 2) == 100.0;
  }

  /** Upper with more places before the point differs from d in the first digit, and lets d round up to it. */
  lemma MisalignedUpper(lower: Dec, d: Dec, upper: Dec, incl: bool)
    requires Bracket(lower, d, upper, incl) && upper.dp > d.dp
    ensures OkUp(d, upper, incl, 0)
  {
    BracketParts(lower, d, upper, incl);
    BracketUnits(lower, d, upper, incl, 1);
    UpperAboveUnits(upper, d);
    LeadBound(d, 1);
    LeadBound(upper, 1);
    FirstDigit(d);
    FirstDigit(upper);
    if upper.dp > d.dp + 1 {
      FarAbove(upper, d);
    }
    hide Bracket, Leading, Value;
    UnitStep(upper, d.dp + 1, 1);
    assert |upper.digits| == 1 && upper.digits[0] == '1' ==> upper.digits == ['1'];
  }

  /** Neither rounding allowed at digit i: still undecided one digit further. */
  lemma StillUndecided(lower: Dec, d: Dec, upper: Dec, incl: bool, i: nat)
    requires Bracket(lower, d, upper, incl) && Undecided(lower, d, upper, incl, i)
    requires !OkDown(lower, d, incl, i) && !OkUp(d, upper, incl, i)
    ensures Undecided(lower, d, upper, incl, i + 1)
  {
    BracketParts(lower, d, upper, incl);
    Aligned(lower, d, upper, incl, i);
    LeadingNext(lower, i);
    LeadingNext(d, i);
    LeadingNext(upper, i);
    LeadBound(d, i + 1);
    LeadBound(upper, i + 1);
    BracketUnits(lower, d, upper, incl, i + 1);
    LeadingNext(upper, 0);
    LeadingNext(d, 0);
    LeadingNext(lower, 0);
    hide Bracket, Leading, At;
    UpArith(At(upper, d.dp, i + 1), At(d, d.dp, i + 1), Leading(upper.digits, i + 1), Leading(d.digits, i + 1));
  }

  lemma Aligned(lower: Dec, d: Dec, upper: Dec, incl: bool, i: nat)
    requires Bracket(lower, d, upper, incl) && Undecided(lower, d, upper, incl, i)
    requires !OkDown(lower, d, incl, i) && !OkUp(d, upper, incl, i)
    ensures lower.dp == d.dp == upper.dp
  {
    if i == 0 {
      BracketParts(lower, d, upper, incl);
      DpOrder(lower, d);
      DpOrder(d, upper);
      hide OkDown, OkUp, Bracket;
      if lower.dp < d.dp {
        MisalignedLower(lower, d, upper, incl);
      }
      if upper.dp > d.dp {
        MisalignedUpper(lower, d, upper, incl);
      }
    }
  }
}
