/** Integer powers, and their extension to negative exponents over the reals. */
module Powers {

  function Pow(b: nat, e: nat): nat {
    if e == 0 then 1 else b * Pow(b, e - 1)
  }

  /** b to the e for any integer e; b is 2 or 10 in this project. */
  ghost function RPow(b: nat, e: int): real
    requires b > 0
    decreases if e >= 0 then e else -e
  {
    if e == 0 then 1.0
    else if e > 0 then b as real * RPow(b, e - 1)
    else RPow(b, e + 1) / b as real
  }

  /** Multiplication behind a name, so that a proof can hide its arithmetic. */
  function Mul(a: nat, b: nat): nat {
    a * b
  }

  // Linear and nonlinear steps, each over plain variables.

  /** Division behind a name. */
  function Quotient(x: nat, m: nat): nat
    requires m > 0
  {
    x / m
  }

  function Min(x: int, y: int): int {
    if x < y then x else y
  }

  function Max(x: int, y: int): int {
    if x < y then y else x
  }

  lemma MulLe(a: int, b: int, c: int)
    requires a <= b && 0 <= c
    ensures a * c <= b * c && c * a <= c * b
  {
  }

  lemma MulLt(a: int, b: int, c: int)
    requires a < b && 0 < c
    ensures a * c < b * c && c * a < c * b
  {
  }

  lemma MulCancel(a: int, b: int, c: int)
    requires 0 < c && a * c == b * c
    ensures a == b
  {
  }

  lemma MulCancelLt(a: int, b: int, c: int)
    requires 0 < c && a * c < b * c
    ensures a < b
  {
  }

  lemma MulSwap(a: int, b: int, x: int, y: int)
    ensures (a * b) * (x * y) == (a * x) * (b * y)
  {
    calc {
      (a * b) * (x * y);
      a * (b * (x * y));
      a * (x * (b * y));
      (a * x) * (b * y);
    }
  }

  lemma MulAssoc(a: int, b: int, c: int)
    ensures a * (b * c) == (a * b) * c
    ensures a * (b * c) == (a * c) * b
  {
  }

  lemma RMulLe(a: real, b: real, c: real)
    requires a <= b && 0.0 <= c
    ensures a * c <= b * c
  {
  }

  lemma RMulLt(a: real, b: real, c: real)
    requires a < b && 0.0 < c
    ensures a * c < b * c
  {
  }

  lemma RMulCancel(a: real, b: real, c: real)
    requires a * c == b * c && 0.0 < c
    ensures a == b
  {
  }

  lemma RAssoc(x: real, y: real, z: real)
    ensures x * (y * z) == (x * y) * z
    ensures x * (y * z) == y * (x * z)
  {
  }

  lemma RScaleProduct(p: real, p': real, c: real, x: real, y: real, y': real)
    requires c > 0.0 && p' == c * p && y' == c * y
    ensures p == x * y <==> p' == x * y'
  {
    assert c * (p - x * y) == p' - x * y';
  }

  lemma RGrow(x: real, y: real, c: real)
    requires 0.0 < y && 1.0 <= c && x <= y
    ensures x <= c * y
  {
    RMulLe(1.0, c, y);
  }

  lemma RDivMul(x: real, y: real)
    requires y > 0.0
    ensures (x / y) * y == x
    ensures x > 0.0 ==> x / y > 0.0
  {
  }

  lemma RealMul(x: int, y: int)
    ensures (x * y) as real == x as real * y as real
  {
  }

  // Integer powers.

  lemma SmallMultiple(k: nat, d: int)
    requires -(k as int) < k * d < k
    ensures d == 0
  {
    if d >= 1 {
      LargeMultiple(k, d);
    } else if d <= -1 {
      LargeMultiple(k, -d);
    }
  }

  lemma LargeMultiple(k: nat, d: int)
    requires d >= 1
    ensures k * d >= k && k * -d <= -(k as int)
  {
  }

  lemma ModUnique(n: int, k: nat, q: int)
    requires k > 0
    ensures n == k * q ==> n % k == 0
    ensures n % k == 0 ==> n == k * (n / k)
  {
    var q', r' := n / k, n % k;
    assert n == k * q' + r';
    if n == k * q {
      MinusTimes(k, q, q');
      SmallMultiple(k, q - q');
    }
  }

  lemma MinusTimes(k: int, a: int, b: int)
    ensures k * (a - b) == k * a - k * b
    ensures k * (a + 1) == k * a + k
  {
  }

  lemma QuotientIs(n: nat, p: nat, q: nat, r: nat)
    requires p > 0 && n == p * q + r && r < p
    ensures n / p == q
  {
    var q', r' := n / p, n % p;
    assert n == p * q' + r';
    MinusTimes(p, q, q');
    SmallMultiple(p, q - q');
  }

  lemma {:induction false} PowPositive(b: nat, e: nat)
    requires b > 0
    ensures Pow(b, e) > 0
  {
    if e > 0 {
      PowPositive(b, e - 1);
    }
  }

  lemma {:induction false} PowAdd(b: nat, m: nat, n: nat)
    ensures Pow(b, m + n) == Pow(b, m) * Pow(b, n)
  {
    if m > 0 {
      PowAdd(b, m - 1, n);
      assert Pow(b, m + n) == b * Pow(b, m + n - 1);
      assert b * (Pow(b, m - 1) * Pow(b, n)) == (b * Pow(b, m - 1)) * Pow(b, n);
    }
  }

  lemma {:induction false} PowBase(a: nat, b: nat, e: nat)
    ensures Pow(a * b, e) == Pow(a, e) * Pow(b, e)
  {
    if e > 0 {
      PowBase(a, b, e - 1);
      MulSwap(a, b, Pow(a, e - 1), Pow(b, e - 1));
    }
  }

  lemma {:induction false} PowPow(b: nat, m: nat, n: nat)
    ensures Pow(Pow(b, m), n) == Pow(b, m * n)
  {
    if n == 0 {
      assert m * n == 0;
    } else {
      PowPow(b, m, n - 1);
      assert m * n == m + m * (n - 1);
      PowAdd(b, m, m * (n - 1));
    }
  }

  lemma {:induction false} PowMonotone(b: nat, m: nat, n: nat)
    requires b > 0 && m <= n
    ensures Pow(b, m) <= Pow(b, n)
  {
    if m < n {
      PowMonotone(b, m, n - 1);
      PowPositive(b, n - 1);
      MulLe(1, b, Pow(b, n - 1));
    }
  }

  lemma PowReflect(b: nat, m: nat, n: nat)
    requires b > 0 && Pow(b, m) < Pow(b, n)
    ensures m < n
  {
    if n <= m {
      PowMonotone(b, n, m);
    }
  }

  /** Cancel the smaller of two powers from both sides. */
  lemma PowCancel(b: nat, p: int, q: int, x: nat, y: nat)
    requires b > 0 && y <= x && p * Pow(b, x) == q * Pow(b, y)
    ensures p * Pow(b, x - y) == q
  {
    PowAdd(b, x - y, y);
    PowPositive(b, y);
    hide *;
    MulAssoc(p, Pow(b, x - y), Pow(b, y));
    MulCancel(p * Pow(b, x - y), q, Pow(b, y));
  }

  /** A larger base gives a larger power. */
  lemma {:induction false} PowBaseMonotone(a: nat, b: nat, e: nat)
    requires a <= b
    ensures Pow(a, e) <= Pow(b, e)
  {
    if e > 0 {
      PowBaseMonotone(a, b, e - 1);
      MulLe(a, b, Pow(a, e - 1));
      MulLe(Pow(a, e - 1), Pow(b, e - 1), b);
    }
  }

  lemma {:induction false} PowBaseStrict(a: nat, b: nat, e: nat)
    requires a < b && e > 0
    ensures Pow(a, e) < Pow(b, e)
  {
    PowBaseMonotone(a, b, e - 1);
    PowPositive(b, e - 1);
    MulLe(Pow(a, e - 1), Pow(b, e - 1), a);
    MulLt(a, b, Pow(b, e - 1));
  }

  lemma Pow10Split(e: nat)
    ensures Pow(10, e) == Pow(2, e) * Pow(5, e)
  {
    PowBase(2, 5, e);
  }

  // Powers with any integer exponent.

  lemma {:induction false} RPowPositive(b: nat, e: int)
    requires b > 0
    ensures RPow(b, e) > 0.0
    decreases if e >= 0 then e else -e
  {
    if e > 0 {
      RPowPositive(b, e - 1);
    } else if e < 0 {
      RPowPositive(b, e + 1);
    }
  }

  lemma {:induction false} RPowNat(b: nat, e: nat)
    requires b > 0
    ensures RPow(b, e) == Pow(b, e) as real
  {
    if e > 0 {
      RPowNat(b, e - 1);
      RealMul(b, Pow(b, e - 1));
    }
  }

  lemma RPowStep(b: nat, e: int)
    requires b > 0
    ensures RPow(b, e + 1) == b as real * RPow(b, e)
  {
    if e < 0 {
      RDivMul(RPow(b, e + 1), b as real);
    }
  }

  /** Multiplication behind a name, so that a proof can hide its arithmetic. */
  function Times(x: real, y: real): real {
    x * y
  }

  lemma RPowAdd(b: nat, m: int, n: int)
    requires b > 0
    ensures RPow(b, m + n) == RPow(b, m) * RPow(b, n)
  {
    hide RPow;
    if n >= 0 {
      RPowAddUp(b, m, n);
    } else {
      var k := -n;
      RPowAddDown(b, m, k);
      assert m - k == m + n && -k == n;
    }
  }

  lemma {:induction false} RPowAddUp(b: nat, m: int, n: nat)
    requires b > 0
    ensures RPow(b, m + n) == Times(RPow(b, m), RPow(b, n))
  {
    if n > 0 {
      hide *;
      RPowAddUp(b, m, n - 1);
      RPowAddStep(b, m, n - 1);
      assert m + (n - 1) + 1 == m + n;
    }
  }

  lemma {:induction false} RPowAddDown(b: nat, m: int, n: nat)
    requires b > 0
    ensures RPow(b, m - n) == Times(RPow(b, m), RPow(b, -(n as int)))
  {
    if n > 0 {
      hide *;
      RPowAddDown(b, m, n - 1);
      RPowAddStep(b, m, -(n as int));
      assert m + -(n as int) + 1 == m - (n - 1) && -(n as int) + 1 == -(n - 1);
    }
  }

  lemma RPowAddStep(b: nat, m: int, n: int)
    requires b > 0
    ensures RPow(b, m + n) == Times(RPow(b, m), RPow(b, n)) <==>
            RPow(b, m + n + 1) == Times(RPow(b, m), RPow(b, n + 1))
  {
    hide RPow;
    RPowStep(b, m + n);
    RPowStep(b, n);
    var p, p', c, x, y, y' := RPow(b, m + n), RPow(b, m + n + 1), b as real, RPow(b, m), RPow(b, n), RPow(b, n + 1);
    assert p' == c * p && y' == c * y;
    RScaleProduct(p, p', c, x, y, y');
  }

  lemma {:induction false} RPowMonotone(b: nat, m: int, n: int)
    requires b > 0 && m <= n
    ensures RPow(b, m) <= RPow(b, n)
    decreases n - m
  {
    if m < n {
      RPowMonotone(b, m, n - 1);
      RPowStep(b, n - 1);
      RPowPositive(b, n - 1);
      RGrow(RPow(b, m), RPow(b, n - 1), b as real);
    }
  }

  /** Scaling by b to the -n undoes scaling by b to the n. */
  lemma RPowInverse(b: nat, n: int)
    requires b > 0
    ensures RPow(b, n) * RPow(b, -n) == 1.0
  {
    RPowAdd(b, n, -n);
  }

  // Shifts of natural numbers.

  /** x >> k. */
  function Shr(x: nat, k: nat): nat {
    PowPositive(2, k);
    Quotient(x, Pow(2, k))
  }

  /** The low k bits of x. */
  function Low(x: nat, k: nat): nat {
    PowPositive(2, k);
    x % Pow(2, k)
  }
}
