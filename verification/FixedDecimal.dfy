/** The fixed-point number of utils/decimal/decimal.go: arithmetic, division and rounding. */
module FixedDecimal {
  import opened Powers
  import opened DecimalValue
  import opened Strconv

  type Int32 = x: int | -0x8000_0000 <= x < 0x8000_0000

  /** value * 10^exp. */
  datatype Fixed = Fixed(value: int, exp: Int32)

  ghost function Amount(d: Fixed): real {
    Float10(d.value, d.exp)
  }

  ghost function Size(x: real): real {
    if x < 0.0 then -x else x
  }

  predicate IsInt32(x: int) {
    -0x8000_0000 <= x < 0x8000_0000
  }

  /** Two's complement wrap-around, as int32 arithmetic has it. */
  function Wrap32(x: int): (r: Int32)
    ensures IsInt32(x) ==> r == x
    ensures IsInt32(x - 0x1_0000_0000) ==> r == x - 0x1_0000_0000
    ensures IsInt32(x + 0x1_0000_0000) ==> r == x + 0x1_0000_0000
  {
    (x + 0x8000_0000) % 0x1_0000_0000 - 0x8000_0000
  }

  function Sign(n: int): int {
    if n < 0 then -1 else if n > 0 then 1 else 0
  }

  // Quotients that are cut off towards zero.

  function Quo(a: int, b: int): int
    requires b != 0
  {
    var q := Abs(a) / Abs(b);
    if (a < 0) == (b < 0) then q else -q
  }

  function Rem(a: int, b: int): int
    requires b != 0
  {
    a - b * Quo(a, b)
  }

  lemma QuoRemInt(a: int, b: int)
    requires b != 0
    ensures a == b * Quo(a, b) + Rem(a, b) && Abs(Rem(a, b)) < Abs(b)
    ensures a >= 0 ==> Rem(a, b) >= 0
    ensures a <= 0 ==> Rem(a, b) <= 0
    ensures a == 0 || (a < 0) == (b < 0) ==> Quo(a, b) >= 0
    ensures a == 0 || (a < 0) != (b < 0) ==> Quo(a, b) <= 0
  {
    var q, r := QuoIs(a, b);
    hide Quo;
    SignedProduct(a, b, q);
    assert b * Quo(a, b) == if a < 0 then -(Abs(b) * q) else Abs(b) * q;
  }

  lemma QuoIs(a: int, b: int) returns (q: int, r: int)
    requires b != 0
    ensures q >= 0 && r >= 0
    ensures Abs(a) == Abs(b) * q + r && r < Abs(b) && (a == 0 ==> q == 0)
    ensures Quo(a, b) == if (a < 0) == (b < 0) then q else -q
  {
    q, r := Abs(a) / Abs(b), Abs(a) % Abs(b);
    if a == 0 {
      ZeroQuotient(Abs(b), q, r);
    }
  }

  lemma ZeroQuotient(y: nat, q: nat, r: nat)
    requires 0 == y * q + r && y > 0
    ensures q == 0
  {
  }

  lemma SignedProduct(a: int, b: int, q: int)
    ensures Abs(b) * q == b * q || Abs(b) * q == -(b * q)
    ensures b >= 0 ==> Abs(b) * q == b * q && b * -q == -(b * q)
    ensures b < 0 ==> Abs(b) * q == -(b * q) && b * -q == -(b * q)
  {
  }

  // Rescaling, addition and comparison.

  /** The same number to another exponent, cut off towards zero if it has to be. */
  function Rescale(d: Fixed, exp: Int32): Fixed {
    if exp > d.exp then
      PowPositive(10, exp - d.exp);
      Fixed(Quo(d.value, Pow(10, exp - d.exp)), exp)
    else Fixed(d.value * Pow(10, d.exp - exp), exp)
  }

  function Add(d: Fixed, d2: Fixed): Fixed {
    var e := Min(d.exp, d2.exp);
    Fixed(Rescale(d, e).value + Rescale(d2, e).value, e)
  }

  function Sub(d: Fixed, d2: Fixed): Fixed {
    var e := Min(d.exp, d2.exp);
    Fixed(Rescale(d, e).value - Rescale(d2, e).value, e)
  }

  function Cmp(d: Fixed, d2: Fixed): int {
    if d.exp == d2.exp then Sign(d.value - d2.value)
    else
      var e := Min(d.exp, d2.exp);
      Sign(Rescale(d, e).value - Rescale(d2, e).value)
  }

  /** Down to a smaller exponent nothing is lost. */
  lemma RescaleExact(d: Fixed, exp: Int32)
    requires exp <= d.exp
    ensures Amount(Rescale(d, exp)) == Amount(d)
  {
    Float10Shift(d.value, exp, d.exp - exp);
    assert exp + (d.exp - exp) == d.exp;
    assert d.value * 1 == d.value;
    hide Float10;
  }

  /** d in units of 10^e. */
  ghost function Units(d: Fixed, e: int): real {
    Times(Amount(d), RPow(10, -e))
  }

  lemma AmountUnits(d: Fixed, e: int)
    ensures Amount(d) == Times(Units(d, e), RPow(10, e))
    ensures RPow(10, e) > 0.0
  {
    RPowPositive(10, e);
    RPowInverse(10, e);
    hide *;
    UnitsIs(d, e);
    ThereAndBack(Amount(d), RPow(10, e), RPow(10, -e));
  }

  lemma UnitsIs(d: Fixed, e: int)
    ensures Units(d, e) == Times(Amount(d), RPow(10, -e))
  {
  }

  lemma ThereAndBack(x: real, p: real, q: real)
    requires p * q == 1.0
    ensures x == Times(Times(x, q), p)
  {
    RAssoc(x, q, p);
  }

  /** In units of 10^e a number with a smaller exponent is its value divided by a power of ten. */
  lemma UnitsDown(d: Fixed, e: int)
    requires e >= d.exp
    ensures Times(Units(d, e), Pow(10, e - d.exp) as real) == d.value as real
  {
    RPowNat(10, e - d.exp);
    RPowSum(10, d.exp, -e);
    RPowSum(10, d.exp - e, e - d.exp);
    assert d.exp + -e == d.exp - e && (d.exp - e) + (e - d.exp) == 0;
    assert RPow(10, 0) == 1.0;
    Float10Is(d.value, d.exp);
    hide RPow, Pow, Float10;
    UnitsArith(d.value as real, RPow(10, d.exp), RPow(10, -e), RPow(10, d.exp - e), RPow(10, e - d.exp));
  }

  lemma UnitsArith(n: real, a: real, b: real, ab: real, c: real)
    requires ab == Times(a, b) && Times(ab, c) == 1.0
    ensures Times(Times(Times(n, a), b), c) == n
  {
    RAssoc(n, a, b);
    RAssoc(n, ab, c);
  }

  lemma UnitsUp(d: Fixed, e: int)
    requires e <= d.exp
    ensures Units(d, e) == (d.value * Pow(10, d.exp - e)) as real
  {
    RPowNat(10, d.exp - e);
    RPowSum(10, d.exp, -e);
    assert d.exp + -e == d.exp - e;
    Float10Is(d.value, d.exp);
    RealMul(d.value, Pow(10, d.exp - e));
    hide RPow, Pow, Float10;
    UpArith(d.value as real, RPow(10, d.exp), RPow(10, -e), RPow(10, d.exp - e));
  }

  lemma UpArith(n: real, a: real, b: real, ab: real)
    requires ab == Times(a, b)
    ensures Times(Times(n, a), b) == n * ab
  {
    RAssoc(n, a, b);
  }

  /** Rescaling keeps the whole units of 10^exp and drops the rest. */
  lemma RescaleUnits(d: Fixed, exp: Int32)
    ensures var (x, t) := (Units(d, exp), Rescale(d, exp).value as real);
            && (x >= 0.0 ==> 0.0 <= t <= x < t + 1.0)
            && (x <= 0.0 ==> t - 1.0 < x <= t <= 0.0)
            && (exp <= d.exp ==> x == t)
    ensures Rescale(d, exp).exp == exp
  {
    if exp > d.exp {
      var p := Pow(10, exp - d.exp);
      PowPositive(10, exp - d.exp);
      UnitsDown(d, exp);
      QuoRemInt(d.value, p);
      hide Units, Quo, Rem, Pow;
      CutArith(Units(d, exp), p, d.value, Quo(d.value, p), Rem(d.value, p));
    } else {
      UnitsUp(d, exp);
    }
  }

  lemma CutArith(x: real, p: int, v: int, q: int, r: int)
    requires p > 0 && Times(x, p as real) == v as real && v == p * q + r && Abs(r) < p
    requires (v >= 0 ==> r >= 0) && (v <= 0 ==> r <= 0)
    requires (v >= 0 ==> q >= 0) && (v <= 0 ==> q <= 0)
    ensures x >= 0.0 ==> 0.0 <= q as real <= x < q as real + 1.0
    ensures x <= 0.0 ==> q as real - 1.0 < x <= q as real <= 0.0
  {
    RealMul(p, q);
    var y := x - q as real;
    assert y * p as real == r as real;
    if x >= 0.0 { RMulLe(0.0, x, p as real); }
    if x <= 0.0 { RMulLe(x, 0.0, p as real); }
    SmallFraction(y, p as real, r as real);
    if y == 0.0 { assert r == 0; }
  }

  lemma SmallFraction(y: real, p: real, r: real)
    requires p > 0.0 && y * p == r && -p < r < p
    ensures -1.0 < y < 1.0
    ensures r >= 0.0 ==> y >= 0.0
    ensures r <= 0.0 ==> y <= 0.0
  {
    if y >= 1.0 { RMulLe(1.0, y, p); }
    if y <= -1.0 { RMulLe(y, -1.0, p); }
    if y < 0.0 { RMulLt(y, 0.0, p); }
    if y > 0.0 { RMulLt(0.0, y, p); }
  }

  lemma FloatSum(a: int, b: int, e: int)
    ensures Float10(a, e) + Float10(b, e) == Float10(a + b, e)
    ensures Float10(a, e) - Float10(b, e) == Float10(a - b, e)
  {
    hide RPow;
  }

  /** Sums and differences are exact. */
  lemma AddExact(d: Fixed, d2: Fixed)
    ensures Amount(Add(d, d2)) == Amount(d) + Amount(d2)
    ensures Amount(Sub(d, d2)) == Amount(d) - Amount(d2)
  {
    var e := Min(d.exp, d2.exp);
    RescaleExact(d, e);
    RescaleExact(d2, e);
    hide Rescale, Float10;
    FloatSum(Rescale(d, e).value, Rescale(d2, e).value, e);
    RescaleUnits(d, e);
    RescaleUnits(d2, e);
  }

  lemma FloatSign(a: int, e: int)
    ensures a > 0 <==> Float10(a, e) > 0.0
    ensures a < 0 <==> Float10(a, e) < 0.0
  {
    RPowPositive(10, e);
    hide RPow;
  }

  /** Cmp orders numbers, not representations. */
  lemma CmpOrders(d: Fixed, d2: Fixed)
    ensures Cmp(d, d2) < 0 <==> Amount(d) < Amount(d2)
    ensures Cmp(d, d2) == 0 <==> Amount(d) == Amount(d2)
    ensures Cmp(d, d2) > 0 <==> Amount(d) > Amount(d2)
    ensures Cmp(d, d2) == if Amount(d) < Amount(d2) then -1 else if Amount(d) == Amount(d2) then 0 else 1
  {
    AddExact(d, d2);
    var s := Sub(d, d2);
    FloatSign(s.value, s.exp);
    assert d.value * 1 == d.value && d2.value * 1 == d2.value;
    hide Float10;
  }
}
