/** What the digit buffer of decimal-go.go stands for, as a value: digits 0.d0d1d2... times 10^dp. */
module DecimalSpec {
  import opened Powers
  import opened Digits

  /** Capacity of the buffer, in digits. */
  const CAPACITY := 800

  datatype Dec = Dec(digits: seq<Digit>, dp: int, trunc: bool)

  /** The form every operation leaves: no zero at either end. */
  ghost predicate Normal(v: Dec) {
    && (v.digits != [] ==> v.digits[0] != '0' && v.digits[|v.digits| - 1] != '0')
    && (v.digits == [] ==> v.dp == 0)
  }

  ghost function Value(v: Dec): real {
    Num(v.digits) as real * RPow(10, v.dp - |v.digits|)
  }

  function TrimRight(s: seq<Digit>): (t: seq<Digit>)
    ensures t <= s
    ensures t != [] ==> t[|t| - 1] != '0'
    ensures AllZero(s[|t|..])
  {
    if s != [] && s[|s| - 1] == '0' then TrimRight(s[..|s| - 1]) else s
  }

  lemma TrimRightOnce(s: seq<Digit>)
    requires s != [] && s[|s| - 1] == '0'
    ensures TrimRight(s) == TrimRight(s[..|s| - 1])
  {
  }

  lemma TrimRightDone(s: seq<Digit>)
    requires s == [] || s[|s| - 1] != '0'
    ensures TrimRight(s) == s
  {
  }

  /** v without zeros at its end. */
  ghost function Trimmed(v: Dec): Dec {
    var kept := TrimRight(v.digits);
    Dec(kept, if kept == [] then 0 else v.dp, v.trunc)
  }

  /** The digits of a result stored in the buffer: what does not fit is dropped and remembered in trunc. */
  ghost function Cut(full: seq<Digit>, dp: int, trunc: bool): Dec {
    var kept := TrimRight(if |full| <= CAPACITY then full else full[..CAPACITY]);
    Dec(kept, if kept == [] then 0 else dp, trunc || (|full| > CAPACITY && !AllZero(full[CAPACITY..])))
  }

  /** v with its digits read as a number, multiplied by m, and its point moved by e. */
  ghost function Scaled(v: Dec, m: nat, e: int): Dec {
    var full := Render(Mul(Num(v.digits), m));
    Cut(full, v.dp - |v.digits| + |full| + e, v.trunc)
  }

  lemma ScaledZero(v: Dec, m: nat, e: int)
    requires v.digits == [] && v.dp == 0
    ensures Scaled(v, m, e) == v
  {
    assert Mul(Num(v.digits), m) == 0;
  }

  lemma NormalZero(v: Dec, m: nat, e: int)
    requires Normal(v) && v.digits == []
    ensures v.dp == 0 && Scaled(v, m, e) == v
  {
    ScaledZero(v, m, e);
  }

  lemma {:induction false} TrimRightUnique(s: seq<Digit>, t: seq<Digit>)
    requires t <= s && AllZero(s[|t|..])
    requires t != [] ==> t[|t| - 1] != '0'
    ensures TrimRight(s) == t
  {
    if |t| < |s| {
      assert s[|s| - 1] == s[|t|..][|s| - 1 - |t|];
      TrimRightUnique(s[..|s| - 1], t);
    } else if s != [] {
      assert s == t;
    }
  }

  lemma TrimRightZeros(s: seq<Digit>, z: seq<Digit>)
    requires AllZero(z)
    ensures TrimRight(s + z) == TrimRight(s)
  {
    var t := TrimRight(s);
    forall i | |t| <= i < |s + z| ensures (s + z)[i] == '0' {
      if i < |s| {
        assert (s + z)[i] == s[|t|..][i - |t|];
      }
    }
    assert AllZero((s + z)[|t|..]);
    TrimRightUnique(s + z, t);
  }

  /** Zeros at the end of the exact result make no difference to what is stored. */
  lemma CutZeros(s: seq<Digit>, z: seq<Digit>, dp: int, trunc: bool)
    requires AllZero(z)
    ensures Cut(s + z, dp, trunc) == Cut(s, dp, trunc)
  {
    var f := s + z;
    if |f| <= CAPACITY {
      TrimRightZeros(s, z);
    } else if |s| <= CAPACITY {
      var z' := z[..CAPACITY - |s|];
      assert f[..CAPACITY] == s + z';
      TrimRightZeros(s, z');
      assert forall i :: CAPACITY <= i < |f| ==> f[i] == z[i - |s|];
    } else {
      assert f[..CAPACITY] == s[..CAPACITY];
      assert f[CAPACITY..] == s[CAPACITY..] + z;
      assert forall i :: 0 <= i < |s| - CAPACITY ==> f[CAPACITY..][i] == s[CAPACITY..][i];
      assert forall i :: 0 <= i < |z| ==> f[CAPACITY..][|s| - CAPACITY + i] == z[i];
    }
  }

  function Zeros(n: nat): (z: seq<Digit>)
    ensures |z| == n && AllZero(z)
  {
    seq(n, _ => '0')
  }

  /** Two digit strings whose numbers agree up to powers of ten differ only in trailing zeros. */
  lemma SameUpToZeros(a: seq<Digit>, b: seq<Digit>, x: nat, y: nat)
    requires a != [] && a[0] != '0' && b != [] && b[0] != '0'
    requires Num(a) * Pow(10, x) == Num(b) * Pow(10, y) && y <= x
    ensures |a| + x == |b| + y
    ensures b == a + Zeros(x - y)
  {
    var z := Zeros(x - y);
    assert Num(a + z) == Num(b) by {
      NumTrailingZeros(a, z);
      PowCancel(10, Num(a), Num(b), x, y);
    }
    RenderNum(a + z);
    RenderNum(b);
  }

  lemma SameCut(a: seq<Digit>, b: seq<Digit>, x: nat, y: nat, dp: int, trunc: bool)
    requires a != [] && a[0] != '0' && b != [] && b[0] != '0'
    requires Num(a) * Pow(10, x) == Num(b) * Pow(10, y)
    ensures |a| + x == |b| + y
    ensures Cut(a, dp, trunc) == Cut(b, dp, trunc)
  {
    if y <= x {
      SameUpToZeros(a, b, x, y);
      CutZeros(a, Zeros(x - y), dp, trunc);
    } else {
      SameUpToZeros(b, a, y, x);
      CutZeros(b, Zeros(y - x), dp, trunc);
    }
  }

  /** A shift by k bits, in passes of at most 60. */
  ghost function Shifted(v: Dec, k: int): Dec
    decreases if k >= 0 then k else -k
  {
    if v.digits == [] || k == 0 then v
    else if k > 60 then Shifted(Scaled(v, Pow(2, 60), 0), k - 60)
    else if k > 0 then Scaled(v, Pow(2, k), 0)
    else if k < -60 then Shifted(Scaled(v, Pow(5, 60), -60), k + 60)
    else Scaled(v, Pow(5, -k), k)
  }

  /** The first m digits of v. */
  ghost function RoundedDown(v: Dec, m: int): Dec {
    if m < 0 || m >= |v.digits| then v
    else
      var kept := TrimRight(v.digits[..m]);
      Dec(kept, if kept == [] then 0 else v.dp, v.trunc)
  }

  /** The first m digits of v, plus one in the last of them. */
  ghost function RoundedUp(v: Dec, m: int): Dec {
    if m < 0 || m >= |v.digits| then v
    else
      var full := Render(Num(v.digits[..m]) + 1);
      Dec(TrimRight(full), v.dp - m + |full|, v.trunc)
  }

  /** What is cut off after m digits exceeds half a unit of the last of them, or is half a unit and
      the tie goes up: because digits were lost, or to an even digit. */
  ghost predicate TakesRoundUp(v: Dec, m: int) {
    && 0 <= m < |v.digits|
    && var rest := v.digits[m..];
       var half := 5 * Pow(10, |rest| - 1);
       || Num(rest) > half
       || (Num(rest) == half && (v.trunc || (m > 0 && Val(v.digits[m - 1]) % 2 != 0)))
  }
}
