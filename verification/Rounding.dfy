/** roundShortest: the shortest digits that still read back as the same floating point number. */
module Rounding {
  import opened Powers
  import opened Digits
  import opened DecimalSpec
  import opened DecimalBuffer
  import opened DecimalValue
  import opened ShortestDigits
  import opened FloatBounds
  import opened AlreadyShortest
  import opened NearestDigits

  /** w reads back as the number, and nothing of fewer digits does. */
  ghost predicate Shortest(w: Dec, mant: nat, exp: int, flt: FloatInfo) {
    && Recovers(Value(w), mant, exp, flt)
    && forall n: nat, M: nat, f: int :: n < |w.digits| && M < Pow(10, n) ==> !Recovers(Float10(M, f), mant, exp, flt)
  }

  /** Of the decimals of as many digits that read back as the number, none is nearer to it than w. */
  ghost predicate Nearest(w: Dec, mant: nat, exp: int, flt: FloatInfo) {
    forall M: nat, f: int :: M < Pow(10, |w.digits|) && Recovers(Float10(M, f), mant, exp, flt) ==>
      Distance(Value(w), FloatValue(mant, exp, flt)) <= Distance(Float10(M, f), FloatValue(mant, exp, flt))
  }

  /** The half-way decimals above and below. */
  method Bounds(mant: Word, exp: int, flt: FloatInfo) returns (lower: Decimal, upper: Decimal)
    requires Representable(mant, exp, flt) && mant > 0
    ensures fresh(lower) && fresh(lower.d) && fresh(upper) && fresh(upper.d)
    ensures lower.Valid() && lower.View() == LowerDec(mant, exp, flt)
    ensures upper.Valid() && upper.View() == UpperDec(mant, exp, flt)
  {
    MantissaRange(mant, exp, flt);
    hide Representable, Shifted, Assigned;
    upper := HalfWay(mant, exp, flt);
    var mantlo, explo := Below(mant, exp, flt);
    lower := HalfWay(mantlo, explo, flt);
  }

  /** The next lower number, as mantlo * 2^(explo - mantbits). */
  method Below(mant: Word, exp: int, flt: FloatInfo) returns (mantlo: Word, explo: int)
    requires 0 < mant && 4 * mant + 1 < 0x1_0000_0000_0000_0000
    ensures LowerDec(mant, exp, flt) == Shifted(Assigned(2 * mantlo + 1), explo - flt.mantbits - 1)
    ensures 2 * mantlo + 1 < 0x1_0000_0000_0000_0000
  {
    hide Shifted, Assigned;
    var half := Pow(2, flt.mantbits);
    if mant > half || exp == MinExp(flt) {
      mantlo, explo := mant - 1, exp;
    } else {
      mantlo, explo := mant * 2 - 1, exp - 1;
    }
  }

  method HalfWay(mant: Word, exp: int, flt: FloatInfo) returns (w: Decimal)
    requires 2 * mant + 1 < 0x1_0000_0000_0000_0000
    ensures fresh(w) && fresh(w.d) && w.Valid()
    ensures w.View() == Shifted(Assigned(2 * mant + 1), exp - flt.mantbits - 1)
  {
    hide Shifted, Cut, Render;
    w := new Decimal();
    w.Assign(mant * 2 + 1);
    w.Shift(exp - flt.mantbits - 1);
  }

  /** Round where the bounds allow it; say whether that was possible. */
  method DecideAt(d: Decimal, lower: Decimal, upper: Decimal, incl: bool, i: nat) returns (done: bool)
    requires d.Valid() && lower.Valid() && upper.Valid() && i < d.nd
    requires d.d != lower.d && d.d != upper.d && d != lower && d != upper
    requires Bracket(lower.View(), d.View(), upper.View(), incl)
    requires Undecided(lower.View(), d.View(), upper.View(), incl, i)
    modifies d`nd, d`dp, d.d
    ensures d.Valid()
    ensures done ==> d.nd <= i + 1 && Within(Value(d.View()), lower.View(), upper.View(), incl)
    ensures !done ==> d.View() == old(d.View()) && Undecided(lower.View(), d.View(), upper.View(), incl, i + 1)
    ensures done <==> OkDown(lower.View(), old(d.View()), incl, i) || OkUp(old(d.View()), upper.View(), incl, i)
    ensures done ==> d.View() == Chosen(lower.View(), old(d.View()), upper.View(), incl, i)
  {
    hide Bracket, Undecided, Within, Value, RoundedUp, RoundedDown, TakesRoundUp;
    ghost var v, lo, up := d.View(), lower.View(), upper.View();
    var l := '0';
    if i < lower.nd {
      l := lower.d[i];
    }
    var m := d.d[i];
    var u := '0';
    if i < upper.nd {
      u := upper.d[i];
    }
    var okdown := l != m || (incl && i + 1 == lower.nd);
    var okup := m != u && (incl || m as int + 1 < u as int || i + 1 < upper.nd);
    assert okdown == OkDown(lo, v, incl, i);
    assert okup == OkUp(v, up, incl, i);
    if okdown {
      DownWithin(lo, v, up, incl, i);
    }
    if okup {
      UpWithin(lo, v, up, incl, i);
    }
    if !okdown && !okup {
      StillUndecided(lo, v, up, incl, i);
    }
    done := Settle(d, okdown, okup, i);
  }

  /** With both roundings allowed take the nearer, with one that one. */
  method Settle(d: Decimal, okdown: bool, okup: bool, i: nat) returns (done: bool)
    requires d.Valid()
    modifies d`nd, d`dp, d.d
    ensures d.Valid() && (done <==> okdown || okup)
    ensures d.View() ==
            if okdown && (!okup || !TakesRoundUp(old(d.View()), i + 1)) then RoundedDown(old(d.View()), i + 1)
            else if okup then RoundedUp(old(d.View()), i + 1)
            else old(d.View())
  {
    hide RoundedUp, RoundedDown, TakesRoundUp;
    if okdown && okup {
      d.Round(i + 1);
    } else if okdown {
      d.RoundDown(i + 1);
    } else if okup {
      d.RoundUp(i + 1);
    }
    done := okdown || okup;
  }

  method RoundShortest(d: Decimal, mant: Word, exp: int, flt: FloatInfo)
    requires d.Valid() && !d.trunc && Representable(mant, exp, flt)
    requires Value(d.View()) == FloatValue(mant, exp, flt)
    modifies d`nd, d`dp, d.d
    ensures mant == 0 ==> d.nd == 0 && d.dp == old(d.dp)
    ensures mant > 0 ==> d.Valid() && Shortest(d.View(), mant, exp, flt)
    ensures mant > 0 ==>
              (Nearest(d.View(), mant, exp, flt) <==>
               || CoarseEnough(old(d.View()), exp, flt)
               || !MissesNearest(LowerDec(mant, exp, flt), old(d.View()), UpperDec(mant, exp, flt), mant % 2 == 0))
  {
    ghost var v := d.View();
    hide Value, Representable, FloatValue, Shortest, Nearest, MissesNearest;
    if mant == 0 {
      d.nd := 0;
      return;
    }
    FloatBracket(v, mant, exp, flt);
    if exp > MinExp(flt) && 332 * (d.dp - d.nd) >= 100 * (exp - flt.mantbits) {
      // the exact digits are short enough
      StopAtOnce(v, mant, exp, flt);
      ExactIsNearest(v, mant, exp, flt);
      return;
    }
    var lower, upper := Bounds(mant, exp, flt);
    var inclusive := mant % 2 == 0;
    Walk(d, lower, upper, inclusive, mant, exp, flt);
  }

  /** The first digit at which a neighbour of d lies between the bounds decides; without one d stays as it is. */
  method WalkDigits(d: Decimal, lower: Decimal, upper: Decimal, incl: bool) returns (i: nat, done: bool)
    requires d.Valid() && lower.Valid() && upper.Valid()
    requires d.d != lower.d && d.d != upper.d && d != lower && d != upper
    requires Bracket(lower.View(), d.View(), upper.View(), incl)
    modifies d`nd, d`dp, d.d
    ensures d.Valid() && Undecided(lower.View(), old(d.View()), upper.View(), incl, i)
    ensures done ==> d.nd <= i + 1 && Within(Value(d.View()), lower.View(), upper.View(), incl)
    ensures done ==> EndsAt(lower.View(), old(d.View()), upper.View(), incl, i)
    ensures done ==> d.View() == Chosen(lower.View(), old(d.View()), upper.View(), incl, i)
    ensures !done ==> d.View() == old(d.View()) && i == d.nd
    ensures !done ==> forall j :: 0 <= j < d.nd ==> !EndsAt(lower.View(), d.View(), upper.View(), incl, j)
  {
    ghost var v, lo, up := d.View(), lower.View(), upper.View();
    assert Undecided(lo, v, up, incl, 0) && NotBefore(lo, v, up, incl, 0);
    hide Value, Bracket, Within, Undecided, Normal, Chosen, OkDown, OkUp, EndsAt, NotBefore;
    i, done := 0, false;
    while i < d.nd
      invariant d.Valid() && d.View() == v && i <= d.nd
      invariant lower.Valid() && lower.View() == lo && upper.Valid() && upper.View() == up
      invariant Undecided(lo, v, up, incl, i)
      invariant NotBefore(lo, v, up, incl, i)
    {
      done := DecideAt(d, lower, upper, incl, i);
      EndsHere(lo, v, up, incl, i);
      if done {
        return;
      }
      i := i + 1;
    }
    NeverEnds(lo, v, up, incl);
  }

  /** The walk ends at none of the first i digits. */
  predicate NotBefore(lo: Dec, v: Dec, up: Dec, incl: bool, i: nat) {
    forall j :: 0 <= j < i ==> !OkDown(lo, v, incl, j) && !OkUp(v, up, incl, j)
  }

  lemma EndsHere(lo: Dec, v: Dec, up: Dec, incl: bool, i: nat)
    requires NotBefore(lo, v, up, incl, i) && i < |v.digits|
    ensures if OkDown(lo, v, incl, i) || OkUp(v, up, incl, i) then EndsAt(lo, v, up, incl, i) else NotBefore(lo, v, up, incl, i + 1)
  {
    hide OkDown, OkUp;
  }

  lemma NeverEnds(lo: Dec, v: Dec, up: Dec, incl: bool)
    requires NotBefore(lo, v, up, incl, |v.digits|)
    ensures forall j :: 0 <= j < |v.digits| ==> !EndsAt(lo, v, up, incl, j)
  {
    hide OkDown, OkUp;
  }

  method Walk(d: Decimal, lower: Decimal, upper: Decimal, incl: bool, ghost mant: nat, ghost exp: int, ghost flt: FloatInfo)
    requires d.Valid() && lower.Valid() && upper.Valid()
    requires d.d != lower.d && d.d != upper.d && d != lower && d != upper
    requires Representable(mant, exp, flt) && mant > 0 && incl == (mant % 2 == 0)
    requires Value(d.View()) == FloatValue(mant, exp, flt)
    requires lower.View() == LowerDec(mant, exp, flt) && upper.View() == UpperDec(mant, exp, flt)
    modifies d`nd, d`dp, d.d
    ensures d.Valid() && Shortest(d.View(), mant, exp, flt)
    ensures Nearest(d.View(), mant, exp, flt) <==> !MissesNearest(lower.View(), old(d.View()), upper.View(), incl)
  {
    ghost var v := d.View();
    hide Value, Representable, FloatValue, Shortest, LowerDec, UpperDec, Bracket, Within, Undecided, Nearest, EndsAt, Chosen;
    FloatBracket(v, mant, exp, flt);
    var i, done := WalkDigits(d, lower, upper, incl);
    if done {
      Decided(d.View(), v, mant, exp, flt, i);
      DecidedNearest(d.View(), v, mant, exp, flt, i);
    } else {
      Exhausted(v, mant, exp, flt);
      ExactIsNearest(v, mant, exp, flt);
      NeverEnded(lower.View(), v, upper.View(), incl);
    }
  }

  lemma NeverEnded(lo: Dec, v: Dec, up: Dec, incl: bool)
    requires forall j :: 0 <= j < |v.digits| ==> !EndsAt(lo, v, up, incl, j)
    ensures !MissesNearest(lo, v, up, incl)
  {
  }

  lemma ExactIsNearest(v: Dec, mant: nat, exp: int, flt: FloatInfo)
    requires Value(v) == FloatValue(mant, exp, flt)
    ensures Nearest(v, mant, exp, flt)
  {
    hide Value, FloatValue, Recovers, Float10, Pow;
  }

  /** A result where the walk ends is nearest exactly if the walk does not miss it. */
  lemma DecidedNearest(w: Dec, v: Dec, mant: nat, exp: int, flt: FloatInfo, i: nat)
    requires Representable(mant, exp, flt) && mant > 0 && Value(v) == FloatValue(mant, exp, flt)
    requires var (lo, up, incl) := (LowerDec(mant, exp, flt), UpperDec(mant, exp, flt), mant % 2 == 0);
             && Bracket(lo, v, up, incl) && Undecided(lo, v, up, incl, i) && EndsAt(lo, v, up, incl, i)
             && w == Chosen(lo, v, up, incl, i) && |w.digits| <= i + 1 && Within(Value(w), lo, up, incl)
    ensures Nearest(w, mant, exp, flt)
            <==> !MissesNearest(LowerDec(mant, exp, flt), v, UpperDec(mant, exp, flt), mant % 2 == 0)
  {
    var (lo, up, incl) := (LowerDec(mant, exp, flt), UpperDec(mant, exp, flt), mant % 2 == 0);
    hide *;
    WalkNearest(lo, v, up, incl, i);
    DecidedLength(w, lo, v, up, incl, i);
    SameNearest(w, v, mant, exp, flt);
  }

  /** Fewer digits would not do. */
  lemma DecidedLength(w: Dec, lo: Dec, v: Dec, up: Dec, incl: bool, i: nat)
    requires Bracket(lo, v, up, incl) && Undecided(lo, v, up, incl, i)
    requires |w.digits| <= i + 1 && Within(Value(w), lo, up, incl)
    ensures |w.digits| == i + 1
  {
    hide *;
    if |w.digits| <= i {
      NumBound(w.digits);
      PowMonotone(10, |w.digits|, i);
      ValueIs(w);
      NoneShorter(lo, v, up, incl, i, Num(w.digits), w.dp - |w.digits|);
    }
  }

  lemma SameNearest(w: Dec, v: Dec, mant: nat, exp: int, flt: FloatInfo)
    requires Representable(mant, exp, flt) && mant > 0 && Value(v) == FloatValue(mant, exp, flt)
    ensures Nearest(w, mant, exp, flt) <==>
            NearestWithin(w, LowerDec(mant, exp, flt), v, UpperDec(mant, exp, flt), mant % 2 == 0, |w.digits|)
  {
    hide Value, FloatValue, Recovers, Float10, Pow, Representable, LowerDec, UpperDec, Within, Distance;
    forall M: nat, f: int
      ensures Within(Float10(M, f), LowerDec(mant, exp, flt), UpperDec(mant, exp, flt), mant % 2 == 0)
              <==> Recovers(Float10(M, f), mant, exp, flt)
    {
      WithinRecovers(Float10(M, f), mant, exp, flt);
    }
  }

  /** A result of at most i + 1 digits between the bounds is shortest when i digits do not suffice. */
  lemma Decided(w: Dec, v: Dec, mant: nat, exp: int, flt: FloatInfo, i: nat)
    requires Representable(mant, exp, flt) && mant > 0
    requires var (lo, up, incl) := (LowerDec(mant, exp, flt), UpperDec(mant, exp, flt), mant % 2 == 0);
             && Bracket(lo, v, up, incl) && Undecided(lo, v, up, incl, i)
             && |w.digits| <= i + 1 && Within(Value(w), lo, up, incl)
    ensures Shortest(w, mant, exp, flt)
  {
    var (lo, up, incl) := (LowerDec(mant, exp, flt), UpperDec(mant, exp, flt), mant % 2 == 0);
    hide Value, Representable, LowerDec, UpperDec, Bracket, Within, Undecided, Recovers, Float10, Pow;
    WithinRecovers(Value(w), mant, exp, flt);
    forall n: nat, M: nat, f: int | n < |w.digits| && M < Pow(10, n)
      ensures !Recovers(Float10(M, f), mant, exp, flt)
    {
      PowMonotone(10, n, i);
      NoneShorter(lo, v, up, incl, i, M, f);
      WithinRecovers(Float10(M, f), mant, exp, flt);
    }
  }

  /** The exact digits, when the walk uses them all up. */
  lemma Exhausted(v: Dec, mant: nat, exp: int, flt: FloatInfo)
    requires Representable(mant, exp, flt) && mant > 0 && Normal(v)
    requires Value(v) == FloatValue(mant, exp, flt)
    requires var (lo, up, incl) := (LowerDec(mant, exp, flt), UpperDec(mant, exp, flt), mant % 2 == 0);
             Undecided(lo, v, up, incl, |v.digits|)
    ensures Shortest(v, mant, exp, flt)
  {
    var (lo, up, incl) := (LowerDec(mant, exp, flt), UpperDec(mant, exp, flt), mant % 2 == 0);
    hide Value, Representable, LowerDec, UpperDec, Bracket, Within, Undecided, Recovers, Float10, Pow, FloatValue;
    FloatBracket(v, mant, exp, flt);
    SelfRecovers(mant, exp, flt);
    forall n: nat, M: nat, f: int | n < |v.digits| && M < Pow(10, n)
      ensures !Recovers(Float10(M, f), mant, exp, flt)
    {
      PowMonotone(10, n, |v.digits|);
      NoneShorter(lo, v, up, incl, |v.digits|, M, f);
      WithinRecovers(Float10(M, f), mant, exp, flt);
    }
  }

  lemma SelfRecovers(mant: nat, exp: int, flt: FloatInfo)
    requires Representable(mant, exp, flt) && mant > 0
    ensures Recovers(FloatValue(mant, exp, flt), mant, exp, flt)
  {
    HalvesEnclose(mant, exp, flt);
    hide HalfDown, HalfUp, FloatValue, Representable;
  }

  lemma StopAtOnce(v: Dec, mant: nat, exp: int, flt: FloatInfo)
    requires Representable(mant, exp, flt) && mant > 0
    requires Normal(v) && v.digits != [] && Value(v) == FloatValue(mant, exp, flt) && CoarseEnough(v, exp, flt)
    ensures Shortest(v, mant, exp, flt)
  {
    hide Value, Representable, FloatValue, Recovers, Float10, Pow;
    SelfRecovers(mant, exp, flt);
    forall n: nat, M: nat, f: int | n < |v.digits| && M < Pow(10, n)
      ensures !Recovers(Float10(M, f), mant, exp, flt)
    {
      NothingShorter(v, mant, exp, flt, n, M, f);
    }
  }
}
