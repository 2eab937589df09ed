/** DivRound for all inputs: when the quotient it steps to is the nearest one, exponents that wrap around included. */
module DivisionNearest {
  import opened Powers
  import opened DecimalValue
  import opened FixedDecimal
  import opened FixedRounding
  import opened DivisionOverflow
  import opened Strconv

  // Over the natural numbers.

  /** m / n to the nearest number, upwards on a tie. */
  function Near(m: nat, n: nat): nat
    requires n > 0
  {
    (2 * m + n) / (2 * n)
  }

  lemma NearIs(m: nat, n: nat, k: nat)
    requires n > 0
    ensures k == Near(m, n) <==> 2 * (n * k) <= 2 * m + n < 2 * (n * k) + 2 * n
  {
    var k', r := (2 * m + n) / (2 * n), (2 * m + n) % (2 * n);
    assert 2 * m + n == (2 * n) * k' + r;
    Doubled(n, k);
    Doubled(n, k');
    if 2 * (n * k) <= 2 * m + n < 2 * (n * k) + 2 * n {
      QuotientIs(2 * m + n, 2 * n, k, 2 * m + n - (2 * n) * k);
    }
  }

  lemma Doubled(n: nat, k: nat)
    ensures (2 * n) * k == 2 * (n * k)
  {
  }

  /** m / n cut off, and one more if up. */
  function Stepped(m: nat, n: nat, up: bool): nat
    requires n > 0
  {
    m / n + if up then 1 else 0
  }

  /** The remainder, blown up by w, is half of n or more. */
  predicate HalfSeen(m: nat, n: nat, w: nat)
    requires n > 0
  {
    2 * (m % n * w) >= n
  }

  lemma DivMod(m: nat, n: nat) returns (q: nat, r: nat)
    requires n > 0
    ensures q == Quotient(m, n) == m / n && r == m % n && m == n * q + r && r < n
  {
    q, r := m / n, m % n;
  }

  /** Nothing has wrapped around: the step is right exactly if the half is seen as it is. */
  lemma StepSame(m: nat, n: nat, w: nat)
    requires n > 0 && w > 0
    ensures Stepped(m, n, HalfSeen(m, n, w)) == Near(m, n) <==>
            m % n == 0 || 2 * (m % n) >= n || 2 * (m % n * w) < n
  {
    var q, r := DivMod(m, n);
    NearIs(m, n, q);
    MulLe(1, w, r);
    hide Near;
    if 2 * r >= n {
      NearIs(m, n, q + 1);
      assert n * (q + 1) == n * q + n;
    }
    assert r * w == 0 <==> r == 0;
  }

  /** The dividend has lost a factor w: only a quotient that rounds to zero is right, or to one if the half is seen with
      the same factor. */
  lemma StepDividend(m: nat, n: nat, w: nat, seen: bool)
    requires n > 0 && w >= 3
    ensures Stepped(m, n, HalfSeen(m, n, if seen then w else 1)) == Near(m * w, n) <==>
            2 * (m * w) < if seen then 3 * n else n
  {
    var q, r := DivMod(m, n);
    var k := Stepped(m, n, HalfSeen(m, n, if seen then w else 1));
    NearIs(m * w, n, k);
    hide Near;
    if q > 0 {
      TooMuch(m, n, w, q, r, k);
    } else {
      assert n * 0 == 0 && n * 1 == n;
      MulLe(3, w, r);
      assert r * w == w * r;
    }
  }

  lemma TooMuch(m: nat, n: nat, w: nat, q: nat, r: nat, k: nat)
    requires n > 0 && w >= 3 && q > 0 && m == n * q + r && r < n && k <= q + 1
    ensures 2 * (m * w) >= 3 * n
    ensures 2 * (m * w) + n >= 2 * (n * k) + 2 * n
  {
    MulLe(3, w, m);
    assert m * w >= 3 * m;
    MulLe(1, q, n);
    assert q * n == n * q && n * q >= n;
    MulLe(k, q + 1, n);
    assert n * k <= n * q + n;
  }

  /** The divisor has lost a factor w: only a quotient that rounds to zero even so is right. */
  lemma StepDivisor(m: nat, n: nat, w: nat, p: nat)
    requires n > 0 && w >= 3 && p == n * w && p > 0
    ensures Stepped(m, n, HalfSeen(m, n, 1)) == Near(m, p) <==> 2 * m < n
  {
    var k := Stepped(m, n, HalfSeen(m, n, 1));
    hide *;
    NearIs(m, p, k);
    if 2 * m < n {
      StepSmall(m, n);
      Smaller(m, n, w, p);
    } else {
      TooLittle(m, n, w, p, k);
    }
  }

  lemma Smaller(m: nat, n: nat, w: nat, p: nat)
    requires w >= 3 && p == n * w && 2 * m < n
    ensures 2 * m < p && p * 0 == 0
  {
    MulLe(3, w, n);
  }

  lemma StepSmall(m: nat, n: nat)
    requires n > 0
    ensures 2 * m < n ==> Stepped(m, n, HalfSeen(m, n, 1)) == 0
  {
    if 2 * m < n {
      assert m / n == 0 && m % n == m;
    }
  }

  lemma TooLittle(m: nat, n: nat, w: nat, p: nat, k: nat)
    requires n > 0 && w >= 3 && p == n * w && 2 * m >= n && k == Stepped(m, n, HalfSeen(m, n, 1))
    ensures 2 * (p * k) > 2 * m + p
  {
    StepLarge(m, n, k);
    hide *;
    Regroup(n, w, k);
    BlownUp(m, n, w, n * k);
  }

  lemma StepLarge(m: nat, n: nat, k: nat)
    requires n > 0 && 2 * m >= n && k == Stepped(m, n, HalfSeen(m, n, 1))
    ensures n * k >= n && 2 * m < 2 * (n * k) + n
  {
    var q, r := DivMod(m, n);
    assert r * 1 == r;
    var u := if 2 * r >= n then 1 else 0;
    assert k == q + u;
    hide *;
    assert n * k == n * q + if u == 1 then n else 0;
    if q == 0 {
      assert n * q == 0;
    } else {
      MulLe(1, q, n);
      assert q * n == n * q;
    }
  }

  lemma BlownUp(m: nat, n: nat, w: nat, t: nat)
    requires w >= 3 && t >= n && 2 * m < 2 * t + n
    ensures 2 * (w * t) > 2 * m + w * n
  {
    MulLe(3, w, 2 * t - n);
    assert w * (2 * t - n) == 2 * (w * t) - w * n;
  }

  lemma Regroup(n: nat, w: nat, k: nat)
    ensures (n * w) * k == w * (n * k) && k * n == n * k && n * w == w * n
  {
    MulAssoc(n, w, k);
    MulAssoc(w, n, k);
    assert n * w == w * n;
  }

  // With signs.

  /** n with the sign of a / b. */
  function Signed(a: int, b: int, n: nat): int {
    if (a < 0) == (b < 0) then n as int else -(n as int)
  }

  lemma SignedOnce(a: int, b: int, n: nat, n': nat)
    ensures Signed(a, b, n) == Signed(a, b, n') <==> n == n'
  {
  }

  /** a / b is at most one half from Near, away from zero on a tie. */
  lemma NearIsClose(a: int, b: int)
    requires b != 0
    ensures var (x, k) := (Ratio(a as real, b as real), Signed(a, b, Near(Abs(a), Abs(b))));
            && -0.5 <= x - k as real <= 0.5
            && (x - k as real == 0.5 ==> k < 0)
            && (x - k as real == -0.5 ==> k > 0)
  {
    var m, n, k := Abs(a), Abs(b), Near(Abs(a), Abs(b));
    NearIs(m, n, k);
    hide Near;
    var z := SignedRatio(a, b);
    RealMul(n, k);
    hide Ratio;
    CloseArith(z, m as real, n as real, k as real);
  }

  lemma SignedRatio(a: int, b: int) returns (z: real)
    requires b != 0
    ensures z * Abs(b) as real == Abs(a) as real
    ensures Ratio(a as real, b as real) == if (a < 0) == (b < 0) then z else -z
  {
    z := Abs(a) as real / Abs(b) as real;
    RDivMul(Abs(a) as real, Abs(b) as real);
    var y := if (a < 0) == (b < 0) then z else -z;
    assert y * b as real == a as real;
    DivideBack(y, b as real);
  }

  lemma CloseArith(z: real, m: real, n: real, k: real)
    requires n > 0.0 && z * n == m && 2.0 * (n * k) <= 2.0 * m + n < 2.0 * (n * k) + 2.0 * n && k >= 0.0 && m >= 0.0
    ensures -0.5 <= z - k < 0.5
    ensures z - k == -0.5 ==> k > 0.0
  {
    var t := z - k;
    assert t * n == m - n * k;
    if t < -0.5 {
      RMulLt(t, -0.5, n);
    }
    if t >= 0.5 {
      RMulLe(0.5, t, n);
    }
    if k == 0.0 {
      assert n * k == 0.0;
      if t < 0.0 {
        RMulLt(t, 0.0, n);
      }
    }
  }

  // What DivRound computes.

  lemma FloatOrder(k: int, j: int, e: int)
    ensures Float10(k, e) < Float10(j, e) <==> k < j
  {
    assert (k as real < j as real) <==> k < j;
    hide *;
    RPowPositive(10, e);
    Float10Is(k, e);
    Float10Is(j, e);
    TimesOrder(k as real, j as real, RPow(10, e));
  }

  lemma DivisorIs(d2: Fixed, precision: Int32, b: int, eb: int)
    requires Times(Amount(d2), RPow(10, -(precision as int))) == Float10(b, eb)
    ensures Float10(Abs(d2.value), d2.exp) == Float10(Abs(b), eb + precision)
  {
    hide *;
    AmountIs(d2);
    FloatTimes(d2.value, d2.exp, -(precision as int));
    FloatTimes(d2.value, d2.exp - precision, precision);
    FloatTimes(b, eb, precision);
    FloatSize(d2.value, d2.exp);
    FloatSize(b, eb + precision);
  }

  /** The comparison sees the remainder times 10^z. */
  lemma Compares(r: int, er: Int32, d2: Fixed, precision: Int32, b: int, eb: int, z: nat)
    requires Times(Amount(d2), RPow(10, -(precision as int))) == Float10(b, eb)
    requires Wrap32(er + precision) == eb + precision + z
    ensures Cmp(Fixed(2 * Abs(r), Wrap32(er + precision)), Fixed(Abs(d2.value), d2.exp)) < 0 <==>
            2 * (Abs(r) * Pow(10, z)) < Abs(b)
  {
    var r2 := Fixed(2 * Abs(r), Wrap32(er + precision));
    assert (2 * Abs(r)) * Pow(10, z) == 2 * (Abs(r) * Pow(10, z)) by { MulAssoc(2, Abs(r), Pow(10, z)); }
    hide *;
    CmpOrders(r2, Fixed(Abs(d2.value), d2.exp));
    AmountIs(r2);
    AmountIs(Fixed(Abs(d2.value), d2.exp));
    DivisorIs(d2, precision, b, eb);
    Float10Shift(2 * Abs(r), eb + precision, z);
    FloatOrder((2 * Abs(r)) * Pow(10, z), Abs(b), eb + precision);
  }

  lemma RemIs(a: int, b: int)
    requires b != 0
    ensures Abs(Rem(a, b)) == Abs(a) % Abs(b)
    ensures Quo(a, b) == Signed(a, b, Quotient(Abs(a), Abs(b)))
  {
    var q, r := DivMod(Abs(a), Abs(b));
    SignedProduct(a, b, q);
  }

  /** QuoRem divides a by b, which is d2 in units of the quotient over the exponent eb; where the remainder is compared
      with the divisor it has z zeros too many. */
  ghost predicate Formed(d: Fixed, d2: Fixed, precision: Int32, a: int, b: int, eb: int, er: Int32, z: nat) {
    && d2.value != 0 && precision > MIN_INT32 && b != 0
    && QuoRem(d, d2, precision) == (Fixed(Quo(a, b), -(precision as int)), Fixed(Rem(a, b), er))
    && Times(Amount(d2), RPow(10, -(precision as int))) == Float10(b, eb)
    && Wrap32(er + precision) == eb + precision + z
    && (d.value >= 0 ==> a >= 0) && (d.value <= 0 ==> a <= 0) && (d.value == 0 <==> a == 0) && (b > 0 <==> d2.value > 0)
  }

  /** The quotient's size cut off, or one more where the half is seen, with the sign of the quotient. */
  lemma DivRoundIs(d: Fixed, d2: Fixed, precision: Int32, a: int, b: int, eb: int, er: Int32, z: nat)
    requires d2.value != 0 && b != 0 && Formed(d, d2, precision, a, b, eb, er, z)
    ensures DivRound(d, d2, precision) ==
            Fixed(Signed(a, b, Stepped(Abs(a), Abs(b), HalfSeen(Abs(a), Abs(b), Pow(10, z)))), -(precision as int))
  {
    var q := Fixed(Quo(a, b), -(precision as int));
    var r2 := Fixed(2 * Abs(Rem(a, b)), Wrap32(er + precision));
    var c := Cmp(r2, Fixed(Abs(d2.value), d2.exp));
    DivRoundSteps(d, d2, precision, q, Fixed(Rem(a, b), er));
    hide QuoRem, DivRound, Cmp, Quo, Rem, Amount, RPow, Float10, Pow, Wrap32, Stepped, HalfSeen;
    Compares(Rem(a, b), er, d2, precision, b, eb, z);
    RemIs(a, b);
    StepIs(a, b, Pow(10, z), c < 0);
  }

  lemma StepIs(a: int, b: int, w: nat, below: bool)
    requires b != 0 && (below <==> 2 * (Abs(a) % Abs(b) * w) < Abs(b))
    ensures a == 0 ==> below
    ensures Signed(a, b, Stepped(Abs(a), Abs(b), HalfSeen(Abs(a), Abs(b), w))) ==
            Signed(a, b, Quotient(Abs(a), Abs(b))) + if below then 0 else if (a < 0) == (b < 0) then 1 else -1
  {
    if a == 0 {
      assert Abs(a) % Abs(b) == 0;
    }
  }

  lemma DivRoundSteps(d: Fixed, d2: Fixed, precision: Int32, q: Fixed, r: Fixed)
    requires d2.value != 0 && precision > MIN_INT32
    requires QuoRem(d, d2, precision) == (q, r) && q.exp == -(precision as int)
    ensures var c := Cmp(Fixed(2 * Abs(r.value), Wrap32(r.exp + precision)), Fixed(Abs(d2.value), d2.exp));
            DivRound(d, d2, precision) ==
            Fixed(q.value + if c < 0 then 0 else if Sign(d.value) * Sign(d2.value) < 0 then -1 else 1, q.exp)
  {
    assert Wrap32(-(precision as int)) == q.exp;
    hide QuoRem, Cmp, Add, Sub, Wrap32;
    PlusMinusOne(q);
  }

  // When that is the nearest multiple.

  lemma NearestOnce(x: real, k: int, k': int, e: int)
    requires NearestAway(x, k, e) && NearestAway(x, k', e)
    ensures k == k'
  {
    hide Float10, Size;
    assert k != k' ==> Size(x - Float10(k, e)) <= Size(x - Float10(k', e));
  }

  lemma RatioInUnits(x: real, y: real, a: int, b: int, p: real, h: real)
    requires b != 0 && h > 0.0 && x == Times(a as real, h) && Times(y, p) == Times(b as real, h)
    ensures y != 0.0 && Ratio(x, y) == Times(Ratio(a as real, b as real), p)
  {
    var z := a as real / b as real;
    assert z * b as real == a as real;
    SignProduct(b as real, h);
    assert y == 0.0 ==> Times(y, p) == 0.0;
    calc {
      (z * p) * y;
      { RAssoc(z, p, y); }
      z * (y * p);
      z * (b as real * h);
      { RAssoc(z, b as real, h); }
      x;
    }
    DivideBack(z * p, y);
  }

  lemma NearestExactly(x: real, y: real, a: int, b: int, k: int, e: int, g: int)
    requires b != 0 && x == Float10(a, g) && Times(y, RPow(10, e)) == Float10(b, g)
    ensures y != 0.0
    ensures NearestAway(Ratio(x, y), k, e) <==> k == Signed(a, b, Near(Abs(a), Abs(b)))
  {
    var n := Signed(a, b, Near(Abs(a), Abs(b)));
    NearIsClose(a, b);
    hide *;
    RPowPositive(10, g);
    Float10Is(a, g);
    Float10Is(b, g);
    RatioInUnits(x, y, a, b, RPow(10, e), RPow(10, g));
    AwayFromUnits(Ratio(x, y), Ratio(a as real, b as real), n, e);
    if NearestAway(Ratio(x, y), k, e) {
      NearestOnce(Ratio(x, y), k, n, e);
    }
  }

  /** d and d2 in units of the quotient are a and b, whose exponents may differ by what has wrapped around; over a common
      one they are a' and b'. */
  lemma StepNearestExactly(d: Fixed, d2: Fixed, precision: Int32, a: int, b: int, eb: int, er: Int32, z: nat, a': int, b': int, g: int)
    requires d2.value != 0 && b != 0 && b' != 0 && Formed(d, d2, precision, a, b, eb, er, z)
    requires Times(Amount(d2), RPow(10, -(precision as int))) == Float10(b', g) && Amount(d) == Float10(a', g)
    requires (a' < 0 <==> a < 0) && (b' < 0 <==> b < 0)
    ensures Amount(d2) != 0.0
    ensures var v := DivRound(d, d2, precision);
            && v.exp == -(precision as int)
            && (NearestAway(Ratio(Amount(d), Amount(d2)), v.value, v.exp) <==>
                Stepped(Abs(a), Abs(b), HalfSeen(Abs(a), Abs(b), Pow(10, z))) == Near(Abs(a'), Abs(b')))
  {
    assert Abs(b) > 0 && Abs(b') > 0;
    hide *;
    DivRoundIs(d, d2, precision, a, b, eb, er, z);
    var n := Stepped(Abs(a), Abs(b), HalfSeen(Abs(a), Abs(b), Pow(10, z)));
    NearestExactly(Amount(d), Amount(d2), a', b', Signed(a, b, n), -(precision as int), g);
    SignedOnce(a, b, n, Near(Abs(a'), Abs(b')));
    SignedSame(a, b, a', b', Near(Abs(a'), Abs(b')));
  }

  lemma SignedSame(a: int, b: int, a': int, b': int, n: nat)
    requires (a' < 0 <==> a < 0) && (b' < 0 <==> b < 0)
    ensures Signed(a, b, n) == Signed(a', b', n)
  {
  }

  /** DivRound returns the multiple of 10^-precision nearest to d / d2, ties away from zero. */
  ghost predicate RoundedRight(d: Fixed, d2: Fixed, precision: Int32)
    requires d2.value != 0 && Amount(d2) != 0.0
  {
    var v := DivRound(d, d2, precision);
    v.exp == -(precision as int) && NearestAway(Ratio(Amount(d), Amount(d2)), v.value, v.exp)
  }

  /** The remainder of a / b is none, or half of b or more, or so tiny that it looks smaller still with lost more zeros. */
  predicate HalfStillSeen(a: int, b: int, lost: nat) {
    && b != 0
    && var r := Abs(a) % Abs(b);
       r == 0 || 2 * r >= Abs(b) || 2 * (r * Pow(10, lost)) < Abs(b)
  }

  /** What a caller can check beforehand. */
  ghost predicate RoundsRight(d: Fixed, d2: Fixed, precision: Int32)
    requires d2.value != 0
  {
    var x := d.exp - d2.exp + precision;
    && precision > MIN_INT32
    && if IsInt32(x) then
         x < 0 && !IsInt32(d.exp + precision) ==>
           HalfStillSeen(d.value, d2.value * Pow(10, -x), WRAP)
       else if x > 0 then
         2.0 * Size(Amount(d)) < if IsInt32(d.exp + precision) then 3.0 * Unit(d2, precision, 0) else Unit(d2, precision, 0)
       else
         2.0 * Size(Amount(d)) < Unit(d2, precision, WRAP)
  }

  lemma Zeros(lost: nat)
    requires lost > 0
    ensures Pow(10, lost) >= 3
  {
    PowPositive(10, lost - 1);
  }

  /** The difference of the exponents fits: right unless the remainder's exponent wraps around where it is compared and
      the half is then seen wrongly. */
  lemma SameRight(d: Fixed, d2: Fixed, precision: Int32, lost: nat)
    requires d2.value != 0 && precision > MIN_INT32 && IsInt32(d.exp - d2.exp + precision) && lost == WRAP
    ensures Amount(d2) != 0.0
    ensures var x := d.exp - d2.exp + precision;
            RoundedRight(d, d2, precision) <==>
            (x < 0 && !IsInt32(d.exp + precision) ==> HalfStillSeen(d.value, d2.value * Pow(10, -x), lost))
  {
    hide *;
    var a, b, ea, eb, er, z := Formation(d, d2, precision, lost);
    StepNearestExactly(d, d2, precision, a, b, eb, er, z, a, b, ea);
    RightIs(d, d2, precision);
    SeenSame(a, b, z);
  }

  lemma Formation(d: Fixed, d2: Fixed, precision: Int32, lost: nat) returns (a: int, b: int, ea: int, eb: int, er: Int32, z: nat)
    requires d2.value != 0 && precision > MIN_INT32 && lost == WRAP
    ensures b != 0 && Abs(b) > 0 && Formed(d, d2, precision, a, b, eb, er, z)
    ensures Amount(d) == Float10(a, ea) && Times(Amount(d2), RPow(10, -(precision as int))) == Float10(b, eb)
    ensures z == if HalfBlown(d.exp, d2.exp, precision) then lost else 0
    ensures var x := d.exp - d2.exp + precision;
            && (IsInt32(x) ==> ea == eb && (z > 0 <==> x < 0 && !IsInt32(d.exp + precision)))
            && (!IsInt32(x) && x > 0 ==> ea == eb + lost && (z > 0 <==> IsInt32(d.exp + precision)))
            && (!IsInt32(x) && x < 0 ==> eb == ea + lost && z == 0)
            && (IsInt32(x) && x < 0 ==> a == d.value && b == d2.value * Pow(10, -x))
  {
    hide QuoRem, Exponents, Quo, Rem, Pow, Amount, RPow, Float10, Wrap32, HalfBlown, IsInt32;
    a, b, ea, eb, er := Form(d, d2, precision);
    BlownSame(d.exp, d2.exp, precision, ea, eb, er);
    z := if HalfBlown(d.exp, d2.exp, precision) then lost else 0;
  }

  lemma BlownSame(ed: Int32, ed2: Int32, precision: Int32, ea: int, eb: int, er: int)
    requires Exponents(ed, ed2, precision, ea, eb, er)
    ensures var x := ed - ed2 + precision;
            && (IsInt32(x) ==> ea == eb && (HalfBlown(ed, ed2, precision) <==> x < 0 && !IsInt32(ed + precision)))
            && (!IsInt32(x) && x > 0 ==> ea == eb + WRAP && (HalfBlown(ed, ed2, precision) <==> IsInt32(ed + precision)))
            && (!IsInt32(x) && x < 0 ==> eb == ea + WRAP && !HalfBlown(ed, ed2, precision))
  {
  }

  lemma RightIs(d: Fixed, d2: Fixed, precision: Int32)
    requires d2.value != 0 && Amount(d2) != 0.0
    ensures var v := DivRound(d, d2, precision);
            RoundedRight(d, d2, precision) <==>
            v.exp == -(precision as int) && NearestAway(Ratio(Amount(d), Amount(d2)), v.value, v.exp)
  {
    hide DivRound, NearestAway, Amount;
  }

  lemma SeenSame(a: int, b: int, z: nat)
    requires b != 0
    ensures Stepped(Abs(a), Abs(b), HalfSeen(Abs(a), Abs(b), Pow(10, z))) == Near(Abs(a), Abs(b)) <==> HalfStillSeen(a, b, z)
    ensures z == 0 ==> HalfStillSeen(a, b, z)
  {
    PowPositive(10, z);
    StepSame(Abs(a), Abs(b), Pow(10, z));
  }

  /** It wraps around upwards. */
  lemma AboveRight(d: Fixed, d2: Fixed, precision: Int32, lost: nat)
    requires d2.value != 0 && precision > MIN_INT32 && d.exp - d2.exp + precision >= 0x8000_0000 && lost == WRAP
    ensures Amount(d2) != 0.0
    ensures RoundedRight(d, d2, precision) <==>
            2.0 * Size(Amount(d)) < if IsInt32(d.exp + precision) then 3.0 * Unit(d2, precision, 0) else Unit(d2, precision, 0)
  {
    assert !IsInt32(d.exp - d2.exp + precision);
    hide *;
    var a, b, ea, eb, er, z := Formation(d, d2, precision, lost);
    Float10Shift(a, eb, lost);
    var a' := a * Pow(10, lost);
    DividendSigns(a, a', b, z, lost);
    StepNearestExactly(d, d2, precision, a, b, eb, er, z, a', b, eb);
    RightIs(d, d2, precision);
    UnitIs(d2, precision, b, eb, 0);
    assert eb - 0 == eb;
    TwiceBelow(a', b, eb);
  }

  lemma DividendSigns(a: int, a': int, b: int, z: nat, lost: nat)
    requires b != 0 && Abs(b) > 0 && lost > 0 && a' == a * Pow(10, lost) && (z == 0 || z == lost)
    ensures a' < 0 <==> a < 0
    ensures Stepped(Abs(a), Abs(b), HalfSeen(Abs(a), Abs(b), Pow(10, z))) == Near(Abs(a'), Abs(b)) <==>
            2 * Abs(a') < if z > 0 then 3 * Abs(b) else Abs(b)
  {
    var w := Pow(10, lost);
    Zeros(lost);
    assert Pow(10, 0) == 1;
    hide Pow, Stepped, HalfSeen, Near;
    AbsTimes(a, w);
    StepDividend(Abs(a), Abs(b), w, z > 0);
  }

  lemma AbsTimes(a: int, w: nat)
    requires w > 0
    ensures Abs(a * w) == Abs(a) * w
    ensures a * w < 0 <==> a < 0
  {
  }

  lemma TwiceBelow(a: int, b: int, e: int)
    ensures 2 * Abs(a) < Abs(b) <==> 2.0 * Size(Float10(a, e)) < Size(Float10(b, e))
    ensures 2 * Abs(a) < 3 * Abs(b) <==> 2.0 * Size(Float10(a, e)) < 3.0 * Size(Float10(b, e))
  {
    hide *;
    FloatSize(a, e);
    FloatSize(b, e);
    FloatMultiple(2, Abs(a), e);
    FloatMultiple(3, Abs(b), e);
    FloatOrder(2 * Abs(a), Abs(b), e);
    FloatOrder(2 * Abs(a), 3 * Abs(b), e);
  }

  lemma FloatMultiple(c: nat, n: int, e: int)
    ensures Float10(c * n, e) == c as real * Float10(n, e)
  {
    hide RPow;
    RealMul(c, n);
    RAssoc(c as real, n as real, RPow(10, e));
  }

  /** It wraps around downwards. */
  lemma BelowRight(d: Fixed, d2: Fixed, precision: Int32, lost: nat)
    requires d2.value != 0 && precision > MIN_INT32 && d.exp - d2.exp + precision < -0x8000_0000 && lost == WRAP
    ensures Amount(d2) != 0.0
    ensures RoundedRight(d, d2, precision) <==> 2.0 * Size(Amount(d)) < Unit(d2, precision, lost)
  {
    assert !IsInt32(d.exp - d2.exp + precision);
    hide *;
    var a, b, ea, eb, er, z := Formation(d, d2, precision, lost);
    Float10Shift(b, ea, lost);
    DivisorSigns(a, b, lost);
    StepNearestExactly(d, d2, precision, a, b, eb, er, z, a, b * Pow(10, lost), ea);
    RightIs(d, d2, precision);
    UnitIs(d2, precision, b, eb, lost);
    TwiceBelow(a, b, ea);
  }

  lemma DivisorSigns(a: int, b: int, lost: nat)
    requires b != 0 && lost > 0
    ensures b * Pow(10, lost) != 0 && (b * Pow(10, lost) < 0 <==> b < 0)
    ensures Stepped(Abs(a), Abs(b), HalfSeen(Abs(a), Abs(b), Pow(10, 0))) == Near(Abs(a), Abs(b * Pow(10, lost))) <==>
            2 * Abs(a) < Abs(b)
  {
    var w := Pow(10, lost);
    Zeros(lost);
    assert Pow(10, 0) == 1;
    hide Pow, Stepped, HalfSeen, Near;
    AbsTimes(b, w);
    NonZeroProduct(b, w);
    StepDivisor(Abs(a), Abs(b), w, Abs(b) * w);
  }

  /** When DivRound returns the nearest multiple, for all inputs. */
  lemma DivRoundExactlyWhen(d: Fixed, d2: Fixed, precision: Int32)
    requires d2.value != 0
    ensures Amount(d2) != 0.0
    ensures RoundedRight(d, d2, precision) <==> RoundsRight(d, d2, precision)
  {
    var x := d.exp - d2.exp + precision;
    ZeroAmount(d2);
    if precision == MIN_INT32 {
      LeastPrecision(d, d2, precision);
      hide QuoRem, Amount, RPow, Float10;
    } else {
      hide RoundedRight, Amount, RPow, Float10, Unit, Size, Pow, HalfStillSeen;
      if IsInt32(x) {
        SameRight(d, d2, precision, WRAP);
      } else if x > 0 {
        AboveRight(d, d2, precision, WRAP);
      } else {
        BelowRight(d, d2, precision, WRAP);
      }
    }
  }

  // An input on which it does not.

  lemma LooksLarge(n: nat, lost: nat)
    requires lost > n
    ensures var b := 3 * Pow(10, n);
            b > 0 && Stepped(1, b, HalfSeen(1, b, Pow(10, lost))) == 1 && !HalfStillSeen(1, b, lost)
  {
    PowPositive(10, n);
    PowAdd(10, n, lost - n);
    Zeros(lost - n);
    hide Pow;
    MulLe(3, Pow(10, lost - n), Pow(10, n));
    LargeArith(Pow(10, n), Pow(10, lost));
  }

  lemma LargeArith(p: nat, w: nat)
    requires p > 0 && w >= 3 * p
    ensures Stepped(1, 3 * p, HalfSeen(1, 3 * p, w)) == 1 && 2 * (1 % (3 * p) * w) >= 3 * p && 2 * (1 % (3 * p)) < 3 * p
    ensures 1 % (3 * p) == 1
  {
    assert 1 / (3 * p) == 0 && 1 % (3 * p) == 1;
  }

  /** 1e-2147483648 divided by 0.3, to a multiple of ten, is 10: the remainder's exponent wraps around and makes it look
      like half of the divisor or more. */
  lemma HalfLost()
    ensures var (d, d2) := (Fixed(1, -0x8000_0000), Fixed(3, -1));
            && DivRound(d, d2, -1) == Fixed(1, 1)
            && Amount(d2) != 0.0 && !RoundedRight(d, d2, -1)
  {
    Lost(Fixed(1, -0x8000_0000), Fixed(3, -1), 0x8000_0000, WRAP);
  }

  lemma Lost(d: Fixed, d2: Fixed, n: nat, lost: nat)
    requires n == 0x8000_0000 && lost == WRAP && d == Fixed(1, -(n as int)) && d2 == Fixed(3, -1)
    ensures DivRound(d, d2, -1) == Fixed(1, 1)
    ensures Amount(d2) != 0.0 && !RoundedRight(d, d2, -1)
  {
    assert IsInt32(d.exp - d2.exp + -1) && !IsInt32(d.exp + -1);
    assert -(d.exp - d2.exp + -1) == n;
    hide *;
    LooksLarge(n, lost);
    SameRight(d, d2, -1, lost);
    LostStep(d, d2, n, lost);
  }

  lemma LostStep(d: Fixed, d2: Fixed, n: nat, lost: nat)
    requires n == 0x8000_0000 && lost == WRAP && d == Fixed(1, -(n as int)) && d2 == Fixed(3, -1)
    ensures DivRound(d, d2, -1) == Fixed(1, 1)
  {
    assert IsInt32(d.exp - d2.exp + -1) && !IsInt32(d.exp + -1);
    assert -(d.exp - d2.exp + -1) == n;
    hide *;
    var a, b, ea, eb, er, z := Formation(d, d2, -1, lost);
    assert z == lost;
    LooksLarge(n, lost);
    PositiveOne(b);
    DivRoundIs(d, d2, -1, a, b, eb, er, z);
  }

  lemma PositiveOne(b: int)
    ensures Signed(1, b, 1) == if b > 0 then 1 else Signed(1, b, 1)
    ensures Abs(1) == 1 && (b > 0 ==> Abs(b) == b)
  {
  }
}
