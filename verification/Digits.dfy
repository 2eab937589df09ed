/** Decimal digit strings and the natural numbers they denote. */
module Digits {
  import opened Powers

  type Digit = c: char | '0' <= c <= '9' witness '0'

  function Val(c: Digit): (v: nat)
    ensures v <= 9
  {
    c as int - '0' as int
  }

  function Chr(v: nat): (c: Digit)
    requires v <= 9
    ensures Val(c) == v
  {
    (v + '0' as int) as char
  }

  /** The number written by s, most significant digit first. */
  function Num(s: seq<Digit>): nat {
    if s == [] then 0 else 10 * Num(s[..|s| - 1]) + Val(s[|s| - 1])
  }

  /** The digits of n without leading zeros; empty for zero. */
  function Render(n: nat): seq<Digit> {
    if n == 0 then [] else Render(n / 10) + [Chr(n % 10)]
  }

  ghost predicate AllZero(s: seq<Digit>) {
    forall i :: 0 <= i < |s| ==> s[i] == '0'
  }

  lemma NumSnoc(s: seq<Digit>, c: Digit)
    ensures Num(s + [c]) == 10 * Num(s) + Val(c)
  {
    assert (s + [c])[..|s|] == s;
  }

  lemma {:induction false} NumConcat(a: seq<Digit>, b: seq<Digit>)
    ensures Num(a + b) == Num(a) * Pow(10, |b|) + Num(b)
  {
    if b == [] {
      assert a + b == a;
    } else {
      var b', c := b[..|b| - 1], b[|b| - 1];
      assert a + b == (a + b') + [c];
      NumSnoc(a + b', c);
      NumConcat(a, b');
      ShiftOne(Num(a), Pow(10, |b'|));
    }
  }

  lemma ShiftOne(x: int, p: int)
    ensures 10 * (x * p) == x * (10 * p)
  {
  }

  lemma NumCons(c: Digit, s: seq<Digit>)
    ensures Num([c] + s) == Val(c) * Pow(10, |s|) + Num(s)
  {
    assert Num([c]) == Val(c) by {
      NumSnoc([], c);
      assert [] + [c] == [c];
    }
    hide *;
    NumConcat([c], s);
  }

  lemma {:induction false} NumBound(s: seq<Digit>)
    ensures Num(s) < Pow(10, |s|)
  {
    if s != [] {
      NumBound(s[..|s| - 1]);
    }
  }

  lemma NumLeading(s: seq<Digit>)
    requires s != [] && s[0] != '0'
    ensures Pow(10, |s| - 1) <= Num(s)
  {
    NumCons(s[0], s[1..]);
    assert [s[0]] + s[1..] == s;
    MulLe(1, Val(s[0]), Pow(10, |s| - 1));
  }

  lemma {:induction false} NumZero(s: seq<Digit>)
    ensures Num(s) == 0 <==> AllZero(s)
  {
    if s != [] {
      NumZero(s[..|s| - 1]);
    }
  }

  lemma NumTrailingZeros(a: seq<Digit>, z: seq<Digit>)
    requires AllZero(z)
    ensures Num(a + z) == Num(a) * Pow(10, |z|)
  {
    NumConcat(a, z);
    NumZero(z);
  }

  lemma {:induction false} NumRender(n: nat)
    ensures Num(Render(n)) == n
    ensures n > 0 ==> Render(n) != [] && Render(n)[0] != '0'
  {
    if n > 0 {
      NumRender(n / 10);
      NumSnoc(Render(n / 10), Chr(n % 10));
    }
  }

  /** A number lies between the powers of ten its digit count dictates, and only then has that many digits. */
  lemma RenderLength(n: nat, len: nat)
    requires len > 0 && Pow(10, len - 1) <= n < Pow(10, len)
    ensures |Render(n)| == len
  {
    PowPositive(10, len - 1);
    NumRender(n);
    var s := Render(n);
    NumBound(s);
    NumLeading(s);
    if |s| < len {
      PowMonotone(10, |s|, len - 1);
    } else if |s| > len {
      PowMonotone(10, len, |s| - 1);
    }
  }

  lemma {:induction false} RenderNum(s: seq<Digit>)
    requires s != [] ==> s[0] != '0'
    ensures Render(Num(s)) == s
  {
    if s != [] {
      var s', c := s[..|s| - 1], s[|s| - 1];
      RenderNum(s');
      NumLeading(s);
      PowPositive(10, |s| - 1);
      assert Num(s) / 10 == Num(s') && Num(s) % 10 == Val(c);
      assert Chr(Val(c)) == c;
      assert s == s' + [c];
    }
  }

  /** Two digit strings of one length that denote the same number are the same string. */
  lemma {:induction false} NumInjective(a: seq<Digit>, b: seq<Digit>)
    requires |a| == |b| && Num(a) == Num(b)
    ensures a == b
  {
    if a != [] {
      var a', b', c, d := a[..|a| - 1], b[..|b| - 1], a[|a| - 1], b[|b| - 1];
      assert Num(a) == 10 * Num(a') + Val(c) && Num(b) == 10 * Num(b') + Val(d);
      assert Num(a') == Num(b') && Val(c) == Val(d);
      NumInjective(a', b');
      assert Chr(Val(c)) == c && Chr(Val(d)) == d;
      assert a == a' + [c] && b == b' + [d];
    }
  }

  /** Replacing the last digit that is not a nine by its successor adds one. */
  lemma NumIncrement(a: seq<Digit>, c: Digit, nines: seq<Digit>)
    requires c != '9' && forall i :: 0 <= i < |nines| ==> nines[i] == '9'
    ensures (Num(a + [Chr(Val(c) + 1)])) * Pow(10, |nines|) == Num(a + [c] + nines) + 1
  {
    NumNines(nines);
    NumConcat(a + [c], nines);
    NumSnoc(a, c);
    NumSnoc(a, Chr(Val(c) + 1));
    AddOneTimes(Num(a + [c]), Pow(10, |nines|));
  }

  lemma AddOneTimes(x: int, p: int)
    ensures (x + 1) * p == x * p + p
  {
  }

  lemma {:induction false} NumNines(s: seq<Digit>)
    requires forall i :: 0 <= i < |s| ==> s[i] == '9'
    ensures Num(s) + 1 == Pow(10, |s|)
  {
    if s != [] {
      NumNines(s[..|s| - 1]);
    }
  }
}
