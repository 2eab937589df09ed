/** When the digits roundShortest settles on are the nearest of their length, and when they are not. */
module NearestDigits {
  import opened Powers
  import opened Digits
  import opened DecimalSpec
  import opened ShiftDigits
  import opened DecimalValue
  import opened ShortestDigits

  /** Of the decimals of at most n digits between the bounds none is nearer to d than w. */
  ghost predicate NearestWithin(w: Dec, lower: Dec, d: Dec, upper: Dec, incl: bool, n: nat) {
    forall M: nat, f: int :: M < Pow(10, n) && Within(Float10(M, f), lower, upper, incl) ==>
      Distance(Value(w), Value(d)) <= Distance(Float10(M, f), Value(d))
  }

  /** The walk ends at digit i: the first where a rounding is allowed. */
  predicate EndsAt(lower: Dec, d: Dec, upper: Dec, incl: bool, i: nat) {
    && i < |d.digits|
    && (OkDown(lower, d, incl, i) || OkUp(d, upper, incl, i))
    && forall j :: 0 <= j < i ==> !OkDown(lower, d, incl, j) && !OkUp(d, upper, incl, j)
  }

  /** What is done there. */
  ghost function Chosen(lower: Dec, d: Dec, upper: Dec, incl: bool, i: nat): Dec {
    if OkDown(lower, d, incl, i) && (!OkUp(d, upper, incl, i) || !TakesRoundUp(d, i + 1)) then RoundedDown(d, i + 1)
    else RoundedUp(d, i + 1)
  }

  /** Upper parted from d at an earlier digit and has no digits left, so that its zero here forbids rounding up
      although there is room for it. */
  ghost predicate RefusesRoom(d: Dec, upper: Dec, incl: bool, i: nat) {
    && !incl && |upper.digits| <= i && Leading(upper.digits, i) > Leading(d.digits, i)
    && DigitAt(d, i) < 9
  }

  /** The digits from m on are more than half a unit of the digit before them. */
  ghost predicate RestAboveHalf(d: Dec, m: nat) {
    m < |d.digits| && Num(d.digits[m..]) > 5 * Pow(10, |d.digits| - m - 1)
  }

  /** The walk ends where room above is refused and rounding up would have been nearer. */
  ghost predicate MissesNearest(lower: Dec, d: Dec, upper: Dec, incl: bool) {
    exists i: nat :: EndsAt(lower, d, upper, incl, i) && RefusesRoom(d, upper, incl, i) && RestAboveHalf(d, i + 1)
  }

  // In units of the digit where the walk ends.

  predicate Inside(x: real, l: real, h: real, incl: bool) {
    l < x < h || (incl && (x == l || x == h))
  }

  /** Of the whole numbers inside, and of what lies below t, nothing is nearer to m than r. */
  lemma NearestCore(l: real, m: real, h: real, incl: bool, t: int, r: int, y: real)
    requires l < m < h && t as real <= m < (t + 1) as real && Inside(r as real, l, h, incl)
    requires || (r == t && (Inside((t + 1) as real, l, h, incl) ==> m - t as real <= 0.5))
             || (r == t + 1 && (Inside(t as real, l, h, incl) ==> m - t as real >= 0.5))
    requires Inside(y, l, h, incl) && (y <= t as real || y >= (t + 1) as real)
    ensures Distance(r as real, m) <= Distance(y, m)
  {
  }

  lemma DistanceScaled(x: real, y: real, p: real)
    requires p > 0.0
    ensures Distance(Times(x, p), Times(y, p)) == Times(Distance(x, y), p)
  {
    ScaleLt(x, y, p);
    DifferenceTimes(x, y, p);
    DifferenceTimes(y, x, p);
    hide Times;
  }

  lemma DifferenceTimes(x: real, y: real, p: real)
    ensures Times(x - y, p) == Times(x, p) - Times(y, p)
  {
  }

  /** Distances compare alike in any unit. */
  lemma DistanceInUnits(x: real, y: real, m: real, p: real)
    requires p > 0.0
    ensures Distance(x, m) <= Distance(y, m) <==> Distance(Times(x, p), Times(m, p)) <= Distance(Times(y, p), Times(m, p))
  {
    hide *;
    DistanceScaled(x, m, p);
    DistanceScaled(y, m, p);
    ScaleLt(Distance(y, m), Distance(x, m), p);
  }

  lemma WithinUnits(x: real, lower: Dec, d: Dec, upper: Dec, incl: bool, i: int)
    requires Bracket(lower, d, upper, incl)
    ensures Within(x, lower, upper, incl) <==>
            Inside(Times(x, RPow(10, i - d.dp)), At(lower, d.dp, i), At(upper, d.dp, i), incl)
  {
    RPowPositive(10, i - d.dp);
    WithinScaled(x, lower, d, upper, incl, RPow(10, i - d.dp));
    hide Bracket, Value, RPow, Times, Within;
  }

  /** What the digits cut off are worth, in units of the last digit kept. */
  lemma RestInUnits(d: Dec, m: nat)
    requires Normal(d) && 1 <= m < |d.digits|
    ensures var over := At(d, d.dp, m) - Leading(d.digits, m) as real;
            && (RestAboveHalf(d, m) <==> over > 0.5)
            && (TakesRoundUp(d, m) ==> over >= 0.5)
            && (!TakesRoundUp(d, m) ==> over <= 0.5)
  {
    var s := d.digits;
    var rest, z := s[m..], |s| - m;
    assert s == s[..m] + rest && |rest| == z;
    NumConcat(s[..m], rest);
    LeadingInside(s, m);
    AtIs(d, m);
    TakesUpIs(d, m);
    assert RestAboveHalf(d, m) <==> Num(rest) > 5 * Pow(10, z - 1);
    assert m - |s| + z == 0;
    hide *;
    Float10Unscale(Num(s), m - |s|, z);
    PowPositive(10, z - 1);
    TenAgain(z);
    OverHalf(Num(s[..m]), Pow(10, z), Num(rest), Num(s), Float10(Num(s), m - |s|), 5 * Pow(10, z - 1));
  }

  lemma TenAgain(z: nat)
    requires z > 0
    ensures Pow(10, z) == 10 * Pow(10, z - 1)
  {
  }

  lemma TakesUpIs(d: Dec, m: nat)
    requires m < |d.digits|
    ensures TakesRoundUp(d, m) ==> Num(d.digits[m..]) >= 5 * Pow(10, |d.digits| - m - 1)
    ensures !TakesRoundUp(d, m) ==> Num(d.digits[m..]) <= 5 * Pow(10, |d.digits| - m - 1)
  {
    hide Num, Pow;
  }

  lemma OverHalf(lead: int, p: int, rest: int, n: int, x: real, half: int)
    requires p > 0 && n == lead * p + rest && Times(x, p as real) == n as real && p == 2 * half
    ensures rest > half <==> x - lead as real > 0.5
    ensures rest < half <==> x - lead as real < 0.5
  {
    var y := x - lead as real;
    assert y * p as real == rest as real by {
      RealMul(lead, p);
      assert x * p as real == n as real;
    }
    if y > 0.5 {
      RMulLt(0.5, y, p as real);
    } else if y < 0.5 {
      RMulLt(y, 0.5, p as real);
    }
  }

  // Which of the two neighbours lie inside.

  /** Where rounding down is refused the lower neighbour is outside. */
  lemma DownOutside(lower: Dec, d: Dec, upper: Dec, incl: bool, i: nat)
    requires Bracket(lower, d, upper, incl) && Undecided(lower, d, upper, incl, i) && !OkDown(lower, d, incl, i)
    ensures !Inside(Leading(d.digits, i + 1) as real, At(lower, d.dp, i + 1), At(upper, d.dp, i + 1), incl)
  {
    BracketParts(lower, d, upper, incl);
    if i == 0 {
      DpOrder(lower, d);
      if lower.dp < d.dp {
        MisalignedLower(lower, d, upper, incl);
      }
    } else {
      SameDp(lower, d, upper, incl, i);
    }
    LeadBound(lower, i + 1);
    LeadBound(d, i + 1);
    BracketUnits(lower, d, upper, incl, i + 1);
    LeadingNext(lower, i);
    LeadingNext(d, i);
    LeadingNext(lower, 0);
    LeadingNext(d, 0);
    hide Bracket, Leading, At, DigitAt;
  }

  /** Where rounding up is refused the upper neighbour is outside, unless it is refused for no reason. */
  lemma UpOutside(lower: Dec, d: Dec, upper: Dec, incl: bool, i: nat)
    requires Bracket(lower, d, upper, incl) && Undecided(lower, d, upper, incl, i) && !OkUp(d, upper, incl, i)
    ensures Inside((Leading(d.digits, i + 1) + 1) as real, At(lower, d.dp, i + 1), At(upper, d.dp, i + 1), incl)
            <==> RefusesRoom(d, upper, incl, i)
  {
    BracketParts(lower, d, upper, incl);
    if i == 0 {
      DpOrder(d, upper);
      if upper.dp > d.dp {
        MisalignedUpper(lower, d, upper, incl);
      }
    } else {
      SameDp(lower, d, upper, incl, i);
    }
    LeadBound(upper, i + 1);
    LeadBound(d, i + 1);
    BracketUnits(lower, d, upper, incl, i + 1);
    LeadingNext(upper, i);
    LeadingNext(d, i);
    LeadingNext(upper, 0);
    LeadingNext(d, 0);
    if Leading(upper.digits, i) == Leading(d.digits, i) {
      hide Bracket, Leading, At, Undecided;
      UpArith(At(upper, d.dp, i + 1), At(d, d.dp, i + 1), Leading(upper.digits, i + 1), Leading(d.digits, i + 1));
    } else {
      PartedByOne(lower, d, upper, incl, i);
      hide Bracket, Leading, At, Undecided;
    }
  }

  /** Bounds at equal distances: upper's digits, once they have parted, stay one ahead. */
  lemma PartedByOne(lower: Dec, d: Dec, upper: Dec, incl: bool, i: nat)
    requires Bracket(lower, d, upper, incl) && Undecided(lower, d, upper, incl, i)
    requires i > 0 && Leading(upper.digits, i) != Leading(d.digits, i)
    ensures Leading(upper.digits, i) == Leading(d.digits, i) + 1
    ensures !incl && |upper.digits| <= i && DigitAt(upper, i) == 0
  {
    BracketParts(lower, d, upper, incl);
    LeadBound(lower, i);
    LeadBound(d, i);
    LeadBound(upper, i);
    hide Bracket, Leading, Value, RPow, Times;
    RPowPositive(10, i - d.dp);
    ScaleGap(Value(lower), Value(d), Value(upper), RPow(10, i - d.dp));
  }

  // The result at the digit where the walk ends.

  /** The number chosen, in units of digit i, and which of the two neighbours it is. */
  lemma ChosenUnits(lower: Dec, d: Dec, upper: Dec, incl: bool, i: nat) returns (r: int)
    requires Normal(d) && i + 1 < |d.digits|
    ensures At(Chosen(lower, d, upper, incl, i), d.dp, i + 1) == r as real
    ensures r == Leading(d.digits, i + 1) + if Chosen(lower, d, upper, incl, i) == RoundedDown(d, i + 1) then 0 else 1
    ensures Chosen(lower, d, upper, incl, i) == RoundedDown(d, i + 1) <==>
            OkDown(lower, d, incl, i) && (!OkUp(d, upper, incl, i) || !TakesRoundUp(d, i + 1))
  {
    RoundedDownValue(d, i + 1);
    RoundedUpValue(d, i + 1);
    hide RoundedDown, RoundedUp, At, Leading, TakesRoundUp, OkDown, OkUp, Normal;
    var down := OkDown(lower, d, incl, i) && (!OkUp(d, upper, incl, i) || !TakesRoundUp(d, i + 1));
    r := Leading(d.digits, i + 1) + if down then 0 else 1;
  }

  lemma ChosenInside(lower: Dec, d: Dec, upper: Dec, incl: bool, i: nat)
    requires Bracket(lower, d, upper, incl) && Undecided(lower, d, upper, incl, i) && i < |d.digits|
    requires OkDown(lower, d, incl, i) || OkUp(d, upper, incl, i)
    ensures Within(Value(Chosen(lower, d, upper, incl, i)), lower, upper, incl)
    ensures |Chosen(lower, d, upper, incl, i).digits| <= i + 1
  {
    hide Bracket, Undecided, OkDown, OkUp, Within, RoundedDown, RoundedUp, Value, TakesRoundUp, Normal;
    if OkDown(lower, d, incl, i) {
      DownWithin(lower, d, upper, incl, i);
    }
    if OkUp(d, upper, incl, i) {
      UpWithin(lower, d, upper, incl, i);
    }
  }

  /** A decimal of at most i + 1 digits is a whole number of units, or too small to matter. */
  lemma CandidateUnits(d: Dec, i: nat, M: nat, f: int)
    requires Normal(d) && i < |d.digits| && M < Pow(10, i + 1)
    ensures var (y, t) := (Times(Float10(M, f), RPow(10, i + 1 - d.dp)), Leading(d.digits, i + 1));
            y <= t as real || y >= (t + 1) as real
  {
    hide *;
    if Float10(M, f) >= RPow(10, d.dp - 1) {
      var a := CandidateMultiple(M, f, d.dp, i + 1);
      WholeNeighbours(a, Leading(d.digits, i + 1));
    } else {
      LeadingRange(d, i);
      SmallUnits(Float10(M, f), d.dp, i);
      assert Pow(10, i) as real <= Leading(d.digits, i + 1) as real;
    }
  }

  lemma WholeNeighbours(a: int, t: int)
    ensures a as real <= t as real || a as real >= (t + 1) as real
  {
    if a <= t {
      RealLe(a, t);
    } else {
      RealLe(t + 1, a);
    }
  }

  lemma RealLe(a: int, b: int)
    requires a <= b
    ensures a as real <= b as real
  {
  }

  lemma LeadingRange(d: Dec, i: nat)
    requires Normal(d) && i < |d.digits|
    ensures Pow(10, i) <= Leading(d.digits, i + 1) < Pow(10, i + 1)
  {
    NumLeading(d.digits[..i + 1]);
    NumBound(d.digits[..i + 1]);
    hide Pow, Num;
  }

  lemma SmallUnits(x: real, dp: int, i: nat)
    requires x < RPow(10, dp - 1)
    ensures Times(x, RPow(10, i + 1 - dp)) < Pow(10, i) as real
  {
    hide *;
    RPowPositive(10, i + 1 - dp);
    ScaleLt(x, RPow(10, dp - 1), RPow(10, i + 1 - dp));
    RPowSum(10, dp - 1, i + 1 - dp);
    assert dp - 1 + (i + 1 - dp) == i;
    RPowNat(10, i);
  }

  /** A decimal of at most i + 1 digits that is k units. */
  lemma UnitsCandidate(dp: int, i: nat, k: nat) returns (M: nat, f: int)
    requires k <= Pow(10, i + 1)
    ensures M < Pow(10, i + 1) && Times(Float10(M, f), RPow(10, i + 1 - dp)) == k as real
  {
    hide *;
    M, f := k, dp - (i + 1);
    InUnits(k, f);
    assert -f == i + 1 - dp;
    if k == Pow(10, i + 1) {
      Float10Shift(1, f, i + 1);
      assert 1 * Pow(10, i + 1) == k;
      M, f := 1, f + (i + 1);
      OneBelow(i + 1);
    }
  }

  /** Why the choice is nearest: the other neighbour is outside, or not nearer. */
  lemma ChoiceIsRight(lower: Dec, d: Dec, upper: Dec, incl: bool, i: nat, r: int)
    requires Bracket(lower, d, upper, incl) && Undecided(lower, d, upper, incl, i) && i + 1 < |d.digits|
    requires OkDown(lower, d, incl, i) || OkUp(d, upper, incl, i)
    requires At(Chosen(lower, d, upper, incl, i), d.dp, i + 1) == r as real
    requires !(RefusesRoom(d, upper, incl, i) && RestAboveHalf(d, i + 1))
    ensures var (l, m, h, t) := (At(lower, d.dp, i + 1), At(d, d.dp, i + 1), At(upper, d.dp, i + 1), Leading(d.digits, i + 1));
            || (r == t && (Inside((t + 1) as real, l, h, incl) ==> m - t as real <= 0.5))
            || (r == t + 1 && (Inside(t as real, l, h, incl) ==> m - t as real >= 0.5))
  {
    BracketParts(lower, d, upper, incl);
    var k := ChosenUnits(lower, d, upper, incl, i);
    RestInUnits(d, i + 1);
    hide *;
    assert k == r;
    if !OkDown(lower, d, incl, i) {
      DownOutside(lower, d, upper, incl, i);
    }
    if !OkUp(d, upper, incl, i) {
      UpOutside(lower, d, upper, incl, i);
    }
  }

  lemma ChosenAtLeastAsNear(lower: Dec, d: Dec, upper: Dec, incl: bool, i: nat, M: nat, f: int)
    requires Bracket(lower, d, upper, incl) && Undecided(lower, d, upper, incl, i) && i + 1 < |d.digits|
    requires OkDown(lower, d, incl, i) || OkUp(d, upper, incl, i)
    requires !(RefusesRoom(d, upper, incl, i) && RestAboveHalf(d, i + 1))
    requires M < Pow(10, i + 1) && Within(Float10(M, f), lower, upper, incl)
    ensures Distance(Value(Chosen(lower, d, upper, incl, i)), Value(d)) <= Distance(Float10(M, f), Value(d))
  {
    hide *;
    var w, p := Chosen(lower, d, upper, incl, i), RPow(10, i + 1 - d.dp);
    BracketParts(lower, d, upper, incl);
    var r := ChosenUnits(lower, d, upper, incl, i);
    ChoiceIsRight(lower, d, upper, incl, i, r);
    ChosenInside(lower, d, upper, incl, i);
    WithinUnits(Value(w), lower, d, upper, incl, i + 1);
    WithinUnits(Float10(M, f), lower, d, upper, incl, i + 1);
    CandidateUnits(d, i, M, f);
    AtTimes(w, d.dp, i + 1);
    AtTimes(d, d.dp, i + 1);
    LeadBound(d, i + 1);
    BracketUnits(lower, d, upper, incl, i + 1);
    RPowPositive(10, i + 1 - d.dp);
    NearestCore(At(lower, d.dp, i + 1), At(d, d.dp, i + 1), At(upper, d.dp, i + 1), incl, Leading(d.digits, i + 1), r,
                Times(Float10(M, f), p));
    DistanceInUnits(Value(w), Float10(M, f), Value(d), p);
  }

  /** Where room was refused the upper neighbour is a better decimal of the same length. */
  lemma RefusedIsNearer(lower: Dec, d: Dec, upper: Dec, incl: bool, i: nat) returns (M: nat, f: int)
    requires Bracket(lower, d, upper, incl) && Undecided(lower, d, upper, incl, i) && i + 1 < |d.digits|
    requires OkDown(lower, d, incl, i) || OkUp(d, upper, incl, i)
    requires RefusesRoom(d, upper, incl, i) && RestAboveHalf(d, i + 1)
    ensures M < Pow(10, i + 1) && Within(Float10(M, f), lower, upper, incl)
    ensures Distance(Value(Chosen(lower, d, upper, incl, i)), Value(d)) > Distance(Float10(M, f), Value(d))
  {
    hide *;
    var w, p, t := Chosen(lower, d, upper, incl, i), RPow(10, i + 1 - d.dp), Leading(d.digits, i + 1);
    NoRoundingUp(d, upper, incl, i);
    BracketParts(lower, d, upper, incl);
    LeadingRange(d, i);
    var r := ChosenUnits(lower, d, upper, incl, i);
    UpOutside(lower, d, upper, incl, i);
    RestInUnits(d, i + 1);
    M, f := UnitsCandidate(d.dp, i, t + 1);
    WithinUnits(Float10(M, f), lower, d, upper, incl, i + 1);
    AtTimes(w, d.dp, i + 1);
    AtTimes(d, d.dp, i + 1);
    LeadBound(d, i + 1);
    RPowPositive(10, i + 1 - d.dp);
    Farther(At(d, d.dp, i + 1), t);
    DistanceInUnits(Value(w), Float10(M, f), Value(d), p);
  }

  lemma Farther(m: real, t: int)
    requires m - t as real > 0.5 && m < (t + 1) as real
    ensures Distance(t as real, m) > Distance((t + 1) as real, m)
  {
  }

  lemma NoRoundingUp(d: Dec, upper: Dec, incl: bool, i: nat)
    requires RefusesRoom(d, upper, incl, i)
    ensures !OkUp(d, upper, incl, i)
  {
    hide Leading;
  }

  /** The choice at digit i is nearest exactly if not room was refused where rounding up would have been nearer. */
  lemma ChosenNearest(lower: Dec, d: Dec, upper: Dec, incl: bool, i: nat)
    requires Bracket(lower, d, upper, incl) && Undecided(lower, d, upper, incl, i) && i < |d.digits|
    requires OkDown(lower, d, incl, i) || OkUp(d, upper, incl, i)
    ensures NearestWithin(Chosen(lower, d, upper, incl, i), lower, d, upper, incl, i + 1)
            <==> !(RefusesRoom(d, upper, incl, i) && RestAboveHalf(d, i + 1))
  {
    var w := Chosen(lower, d, upper, incl, i);
    if i + 1 == |d.digits| {
      RoundedSame(d, i + 1);
      assert w == d;
      hide Bracket, Value, Within, Undecided;
    } else if RefusesRoom(d, upper, incl, i) && RestAboveHalf(d, i + 1) {
      hide Chosen, Bracket, Undecided, OkDown, OkUp, Within, Value, Distance, RefusesRoom, RestAboveHalf, Pow, Float10;
      var M, f := RefusedIsNearer(lower, d, upper, incl, i);
    } else {
      hide Chosen, Bracket, Undecided, OkDown, OkUp, Within, Value, Distance, RefusesRoom, RestAboveHalf, Pow, Float10;
      forall M: nat, f: int | M < Pow(10, i + 1) && Within(Float10(M, f), lower, upper, incl)
        ensures Distance(Value(w), Value(d)) <= Distance(Float10(M, f), Value(d))
      {
        ChosenAtLeastAsNear(lower, d, upper, incl, i, M, f);
      }
    }
  }

  /** The same, of the walk as a whole. */
  lemma WalkNearest(lower: Dec, d: Dec, upper: Dec, incl: bool, i: nat)
    requires Bracket(lower, d, upper, incl) && Undecided(lower, d, upper, incl, i) && EndsAt(lower, d, upper, incl, i)
    ensures NearestWithin(Chosen(lower, d, upper, incl, i), lower, d, upper, incl, i + 1)
            <==> !MissesNearest(lower, d, upper, incl)
  {
    ChosenNearest(lower, d, upper, incl, i);
    hide Bracket, Undecided, NearestWithin, Chosen, RefusesRoom, RestAboveHalf, OkDown, OkUp;
    if j: nat :| EndsAt(lower, d, upper, incl, j) && RefusesRoom(d, upper, incl, j) && RestAboveHalf(d, j + 1) {
      assert j == i;
    }
  }
}
