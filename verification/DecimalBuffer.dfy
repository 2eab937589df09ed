/** The multiprecision decimal of decimal-go.go: an 800-digit buffer shifted and rounded in place. */
module DecimalBuffer {
  import opened Powers
  import opened Digits
  import opened DecimalSpec
  import opened LeftCheats
  import opened Sequences
  import opened ShiftDigits

  /** The source's uint on a 64-bit platform; every assignment to one is checked not to overflow. */
  type Word = x: nat | x < 0x1_0000_0000_0000_0000

  /** The most a single pass may shift: 9 << 60 still fits a Word. */
  const MAX_SHIFT := 60

  /** Is b, read as a prefix, below s? True as well when b is a proper prefix of s. */
  method PrefixIsLessThan(b: seq<Digit>, s: seq<Digit>) returns (less: bool)
    ensures less <==> (Num(b) * Pow(10, |s|) < Num(s) * Pow(10, |b|) || (b <= s && |b| < |s|))
  {
    var i := 0;
    while i < |s|
      invariant 0 <= i <= |s| && i <= |b| && b[..i] == s[..i]
    {
      if i >= |b| {
        return true;
      }
      if b[i] != s[i] {
        PrefixDiffers(b, s, i);
        return b[i] < s[i];
      }
      i := i + 1;
    }
    PrefixEqual(b, s);
    return false;
  }

  /** Write the digits of v backwards. */
  method WriteReversed(v: Word, buf: array<Digit>) returns (n: nat)
    requires buf.Length == 24
    modifies buf
    ensures n <= 20 && Render(v) == Reversed(buf[..n])
  {
    RenderShort(v);
    n := 0;
    var u := v;
    assert buf[..0] == [] && Reversed(buf[..0]) == [] && Render(0) == [];
    hide Render, Reversed;
    while u > 0
      invariant 0 <= n <= |Render(v)|
      invariant Render(v) == Render(u) + Reversed(buf[..n])
      decreases u
    {
      var u1 := u / 10;
      RenderStep(u, buf[..n]);
      ghost var written := buf[..n];
      buf[n] := Chr(u - 10 * u1);
      assert buf[..n + 1] == written + [Chr(u - 10 * u1)];
      n := n + 1;
      u := u1;
    }
  }

  class Decimal {
    const d: array<Digit>
    var nd: nat
    var dp: int
    var neg: bool
    var trunc: bool

    ghost predicate Shaped()
      reads this
    {
      d.Length == CAPACITY && nd <= CAPACITY
    }

    ghost function View(): Dec
      reads this, d
      requires Shaped()
    {
      Dec(d[..nd], dp, trunc)
    }

    ghost predicate Valid()
      reads this, d
    {
      Shaped() && Normal(View())
    }

    constructor ()
      ensures Valid() && fresh(d) && View() == Dec([], 0, false) && !neg
    {
      d := new Digit[CAPACITY](_ => '0');
      nd, dp, neg, trunc := 0, 0, false, false;
    }

    /** Cut off the zeros at the end. */
    method Trim()
      requires Shaped()
      modifies this`nd, this`dp
      ensures Shaped()
      ensures View() == Trimmed(old(View()))
    {
      hide TrimRight;
      while nd > 0 && d[nd - 1] == '0'
        invariant nd <= old(nd) && dp == old(dp)
        invariant TrimRight(d[..nd]) == TrimRight(old(d[..nd]))
      {
        TrimRightOnce(d[..nd]);
        assert d[..nd][..nd - 1] == d[..nd - 1];
        nd := nd - 1;
      }
      TrimRightDone(d[..nd]);
      if nd == 0 {
        dp := 0;
      }
    }

    /** Set the digits to those of v. */
    method Assign(v: Word)
      requires d.Length == CAPACITY
      modifies this`nd, this`dp, d
      ensures Valid() && View() == Cut(Render(v), |Render(v)|, old(trunc))
    {
      var buf := new Digit[24](_ => '0');
      var n := WriteReversed(v, buf);
      Fill(buf, n, v);
    }

    /** The digits of v, given backwards. */
    method Fill(buf: array<Digit>, n: nat, ghost v: Word)
      requires d.Length == CAPACITY && buf.Length == 24 && n <= 20 && buf != d && Render(v) == Reversed(buf[..n])
      modifies this`nd, this`dp, d
      ensures Valid() && View() == Cut(Render(v), |Render(v)|, old(trunc))
    {
      hide Render, Trimmed, Cut, Normal, Reversed;
      ghost var full := Render(v);
      RenderCut(v, trunc);
      CopyReversed(buf, n);
      assert d[..nd] == full;
      dp := nd;
      Trim();
    }

    method CopyReversed(buf: array<Digit>, len: nat)
      requires d.Length == CAPACITY && len <= buf.Length <= CAPACITY && buf != d
      modifies this`nd, d
      ensures nd == len && d[..nd] == Reversed(old(buf[..len]))
    {
      nd := 0;
      var n := len - 1;
      while n >= 0
        invariant -1 <= n < len && nd + n + 1 == len
        invariant forall i :: 0 <= i < nd ==> d[i] == buf[len - 1 - i]
      {
        d[nd] := buf[n];
        nd := nd + 1;
        n := n - 1;
      }
      assert d[..nd] == Reversed(buf[..len]);
    }

    /** Store a digit, or remember that one was lost. */
    method Put(w: nat, c: Digit)
      requires d.Length == CAPACITY
      modifies this`trunc, d
      ensures d[..] == if w < CAPACITY then old(d[..])[w := c] else old(d[..])
      ensures trunc == (old(trunc) || (w >= CAPACITY && c != '0'))
    {
      if w < d.Length {
        d[w] := c;
      } else if c != '0' {
        trunc := true;
      }
    }

    /** Put down the last digit of the carry. */
    method PutCarry(n: Word, w: nat, ghost out: seq<Digit>, ghost trunc0: bool) returns (quo: Word)
      requires d.Length == CAPACITY && w > 0
      requires Written(d[..], out, w) && trunc == (trunc0 || Lost(out, w))
      modifies this`trunc, d
      ensures quo == n / 10
      ensures Written(d[..], [Chr(n % 10)] + out, w - 1)
      ensures trunc == (trunc0 || Lost([Chr(n % 10)] + out, w - 1))
      ensures forall i :: 0 <= i < w - 1 && i < CAPACITY ==> d[i] == old(d[i])
    {
      quo := n / 10;
      var rem := n - 10 * quo;
      WrittenStep(d[..], if w - 1 < CAPACITY then d[..][w - 1 := Chr(rem)] else d[..], out, w - 1, Chr(rem));
      LostStep(out, w - 1, Chr(rem));
      Put(w - 1, Chr(rem));
    }

    /** Overwrite the digits, last first, with digits of their 2^k-fold, leaving the carry n. */
    method CarryThrough(k: nat, w0: nat) returns (n: Word, ghost out: seq<Digit>)
      requires Shaped() && k <= MAX_SHIFT && w0 >= nd
      modifies this`trunc, d
      ensures |out| == nd && Carried(Num(old(d[..nd])), Pow(2, k), n, out)
      ensures Written(d[..], out, w0 - nd) && trunc == (old(trunc) || Lost(out, w0 - nd))
    {
      ghost var src := d[..nd];
      var r, w := nd, w0;
      n, out := 0, [];
      PowPositive(2, k);
      CarryStart(Pow(2, k));
      assert src[r..] == [] && Num(src[r..]) == 0;
      assert Written(d[..], out, w) && !Lost(out, w);
      hide Num, Written, Lost, Pow, Carried;
      while r > 0
        invariant 0 <= r <= |src| && w == r + (w0 - nd) && |out| == |src| - r
        invariant d[..r] == src[..r]
        invariant n < Pow(2, k) && Carried(Num(src[r..]), Pow(2, k), n, out)
        invariant Written(d[..], out, w) && trunc == (old(trunc) || Lost(out, w))
      {
        r := r - 1;
        var c := d[r];
        ghost var n0 := n;
        CarryBound(n, Val(c), k);
        n := n + Val(c) * Pow(2, k);
        CarryStep(src, r + 1, Pow(2, k), n0, n, out);
        var quo := PutCarry(n, w, out, old(trunc));
        w := w - 1;
        out := [Chr(n % 10)] + out;
        n := quo;
      }
      assert src[0..] == src;
    }

    /** Put down the carry's own digits, down to position 0 exactly. */
    method DrainCarry(n0: Word, w0: nat, ghost x: nat, ghost p: nat, ghost out0: seq<Digit>, ghost trunc0: bool)
      requires d.Length == CAPACITY && Mul(x, p) > 0
      requires Carried(x, p, n0, out0) && |Render(Mul(x, p))| == |out0| + w0
      requires Written(d[..], out0, w0) && trunc == (trunc0 || Lost(out0, w0))
      modifies this`trunc, d
      ensures Stored(d[..], Render(Mul(x, p))) && trunc == (trunc0 || Overflows(Render(Mul(x, p))))
    {
      hide Num, Render, Written, Lost, Pow, Stored, Overflows, Carried, Mul;
      var n, w := n0, w0;
      ghost var out := out0;
      while n > 0
        invariant 0 <= w && w + |out| == |out0| + w0
        invariant Carried(x, p, n, out)
        invariant Written(d[..], out, w) && trunc == (trunc0 || Lost(out, w))
        decreases n
      {
        RoomForCarry(x, p, n, out, w);
        DrainStep(x, p, n, out);
        var quo := PutCarry(n, w, out, trunc0);
        w := w - 1;
        out := [Chr(n % 10)] + out;
        n := quo;
      }
      Drained(x, p, out, w);
      WrittenAll(d[..], Mul(x, p), out);
    }

    /** How many digits a left shift by k adds, from the table. */
    method PredictDelta(k: nat) returns (delta: nat)
      requires Valid() && nd > 0 && 1 <= k <= MAX_SHIFT
      ensures |Render(Mul(Num(d[..nd]), Pow(2, k)))| == nd + delta
    {
      var cheat := Row(k);
      var below := PrefixIsLessThan(d[..nd], Cutoff(k));
      PredictedLength(d[..nd], k);
      hide Row, Cutoff, Num, Pow, Mul, Render;
      delta := cheat.delta - if below then 1 else 0;
    }

    /** Multiply by 2^k in place. */
    method LeftShift(k: nat)
      requires Valid() && nd > 0 && 1 <= k <= MAX_SHIFT
      modifies this`nd, this`dp, this`trunc, d
      ensures Valid() && nd > 0 && View() == Scaled(old(View()), Pow(2, k), 0)
    {
      ghost var x, p := Num(d[..nd]), Pow(2, k);
      ghost var full := Render(Mul(x, p));
      PowPositive(2, k);
      hide Row, Cutoff, BelowCutoff, Delta, Num, Pow, Mul, Render, Carried, Written, Lost, Stored, Overflows, Cut;
      ScaledDigits(d[..nd], p);
      var delta := PredictDelta(k);
      var n, out := CarryThrough(k, nd + delta);
      DrainCarry(n, delta, x, p, out, old(trunc));
      nd := nd + delta;
      if nd >= d.Length {
        nd := d.Length;
      }
      dp := dp + delta;
      Finish(full, old(dp) + delta, old(trunc));
    }

    /** Read digits until the shift has something to give; zeros stand in beyond the last. */
    method PickUp(k: nat) returns (n: Word, r: nat)
      requires Valid() && k <= MAX_SHIFT
      ensures nd == 0 ==> n == 0
      ensures nd > 0 ==> r >= 1 && Pow(2, k) <= n < 10 * Pow(2, k) && n == Leading(d[..nd], r)
    {
      ghost var src := d[..nd];
      PowPositive(2, k);
      CarryBound(0, 0, k);
      assert Leading(src, 0) == 0;
      n, r := 0, 0;
      hide Num, Pow, Shr, Leading;
      ShrLow(n, k);
      while Shr(n, k) == 0
        invariant r <= nd && n == Leading(src, r) && n < 10 * Pow(2, k) && (r > 0 ==> n > 0)
        invariant Shr(n, k) == 0 <==> n < Pow(2, k)
        decreases nd - r
      {
        if r >= nd {
          if n == 0 {
            return;
          }
          n, r := PadZeros(k, n, src);
          return;
        }
        LeadingStep(src, r);
        n := n * 10 + Val(d[r]);
        r := r + 1;
        ShrLow(n, k);
        assert src[0] == d[0] != '0';
        assert r == 1 ==> Val(src[0]) > 0;
      }
    }

    /** The dividend ran out before the shift gave anything. */
    method PadZeros(k: nat, n0: Word, ghost src: seq<Digit>) returns (n: Word, r: nat)
      requires Shaped() && k <= MAX_SHIFT && src == d[..nd]
      requires 0 < n0 < Pow(2, k) && n0 == Leading(src, nd)
      ensures r >= nd && Pow(2, k) <= n < 10 * Pow(2, k) && n == Leading(src, r)
    {
      n, r := n0, nd;
      CarryBound(0, 0, k);
      hide Num, Pow, Shr, Leading;
      ShrLow(n, k);
      while Shr(n, k) == 0
        invariant r >= nd && 0 < n < 10 * Pow(2, k) && n == Leading(src, r)
        invariant Shr(n, k) == 0 <==> n < Pow(2, k)
        decreases Pow(2, k) - n
      {
        LeadingStep(src, r);
        n := n * 10;
        r := r + 1;
        ShrLow(n, k);
      }
    }

    /** Put down one quotient digit and take in the next digit c of the dividend. */
    method Exchange(k: nat, n0: Word, w: nat, c: nat, ghost dividend: nat) returns (n: Word)
      requires d.Length == CAPACITY && w < CAPACITY && c <= 9 && k <= MAX_SHIFT
      requires Divided(dividend, Pow(2, k), n0, d[..w])
      modifies d
      ensures Divided(10 * dividend + c, Pow(2, k), n, d[..w + 1])
      ensures forall i :: w < i < CAPACITY ==> d[i] == old(d[i])
    {
      DivideStep(dividend, k, n0, d[..w], c);
      CarryBound(0, 0, k);
      hide Pow, Shr, Low, Divided;
      var dig := Shr(n0, k);
      n := Low(n0, k);
      d[w] := Chr(dig);
      assert d[..w + 1] == old(d[..w]) + [Chr(dig)];
      n := n * 10 + c;
    }

    /** Long division in one array: writing stays behind reading, by the r0 digits read beforehand. */
    method Transfer(k: nat, n0: Word, r0: nat) returns (n: Word, w: nat)
      requires Shaped() && k <= MAX_SHIFT && r0 >= 1
      requires Pow(2, k) <= n0 < 10 * Pow(2, k) && n0 == Leading(d[..nd], r0)
      modifies d
      ensures w <= CAPACITY && r0 + w >= nd
      ensures Divided(Leading(old(d[..nd]), r0 + w), Pow(2, k), n, d[..w])
    {
      ghost var src := d[..nd];
      DivideStart(n0, Pow(2, k));
      n, w := n0, 0;
      var r := r0;
      assert d[..w] == [];
      hide Pow, Leading, Divided;
      while r < nd
        invariant r == r0 + w && w <= nd
        invariant forall i :: r <= i < nd ==> d[i] == src[i]
        invariant Divided(Leading(src, r), Pow(2, k), n, d[..w])
      {
        LeadingStep(src, r);
        n := Exchange(k, n, w, Val(d[r]), Leading(src, r));
        w := w + 1;
        r := r + 1;
      }
    }

    /** Put down one more quotient digit after the dividend has run out. */
    method Extend(k: nat, n0: Word, w: nat, ghost out: seq<Digit>, ghost dividend: nat, ghost trunc0: bool)
        returns (n: Word, dig: Digit)
      requires d.Length == CAPACITY && k <= MAX_SHIFT
      requires w == (if |out| <= CAPACITY then |out| else CAPACITY)
      requires Stored(d[..], out) && trunc == (trunc0 || Overflows(out))
      requires Divided(dividend, Pow(2, k), n0, out)
      modifies this`trunc, d
      ensures Divided(10 * dividend, Pow(2, k), n, out + [dig]) && n == Low(n0, k) * 10
      ensures Stored(d[..], out + [dig]) && trunc == (trunc0 || Overflows(out + [dig]))
    {
      DivideStep(dividend, k, n0, out, 0);
      CarryBound(0, 0, k);
      hide Pow, Shr, Low, Divided, Stored, Overflows;
      dig := Chr(Shr(n0, k));
      n := Low(n0, k);
      StoredSnoc(d[..], out, dig);
      OverflowsSnoc(out, dig);
      Put(w, dig);
      n := n * 10;
    }

    /** The quotient beyond the dividend's last digit; every step gives the remainder a factor of two more. */
    method PutDownRest(k: nat, n0: Word, w0: nat, ghost src: seq<Digit>, ghost r0: nat, ghost trunc0: bool)
        returns (w: nat, ghost out: seq<Digit>)
      requires d.Length == CAPACITY && k <= MAX_SHIFT && w0 <= CAPACITY && trunc == trunc0
      requires r0 + w0 >= |src|
      requires Divided(Leading(src, r0 + w0), Pow(2, k), n0, d[..w0])
      modifies this`trunc, d
      ensures out != [] && r0 + |out| >= |src|
      ensures w == (if |out| <= CAPACITY then |out| else CAPACITY)
      ensures Stored(d[..], out) && trunc == (trunc0 || Overflows(out))
      ensures Divided(Leading(src, r0 + |out|), Pow(2, k), 0, out)
    {
      var n := n0;
      w := w0;
      out := d[..w0];
      assert Stored(d[..], out) && !Overflows(out);
      ghost var j, q := 0, n0;
      assert n0 == q * Pow(2, j);
      PowPositive(2, k);
      EmptyQuotient(Leading(src, r0 + w0), Pow(2, k), n0, out);
      hide Pow, Low, Leading, Divided, Stored, Overflows;
      while n > 0
        invariant w == (if |out| <= CAPACITY then |out| else CAPACITY)
        invariant r0 + |out| >= |src| && (out == [] ==> n > 0)
        invariant Divided(Leading(src, r0 + |out|), Pow(2, k), n, out)
        invariant Stored(d[..], out) && trunc == (trunc0 || Overflows(out))
        invariant n > 0 ==> j <= k && n == q * Pow(2, j)
        decreases if n > 0 then k - j + 1 else 0
      {
        q := RemainderStep(n, k, j, q);
        j := j + 1;
        n, w, out := OneMore(k, n, w, src, r0, out, trunc0);
      }
    }

    /** One digit more, of a dividend that has run out. */
    method OneMore(k: nat, n0: Word, w0: nat, ghost src: seq<Digit>, ghost r0: nat, ghost out0: seq<Digit>, ghost trunc0: bool)
        returns (n: Word, w: nat, ghost out: seq<Digit>)
      requires d.Length == CAPACITY && k <= MAX_SHIFT && r0 + |out0| >= |src|
      requires w0 == (if |out0| <= CAPACITY then |out0| else CAPACITY)
      requires Divided(Leading(src, r0 + |out0|), Pow(2, k), n0, out0)
      requires Stored(d[..], out0) && trunc == (trunc0 || Overflows(out0))
      modifies this`trunc, d
      ensures |out| == |out0| + 1 && w == (if |out| <= CAPACITY then |out| else CAPACITY)
      ensures Divided(Leading(src, r0 + |out|), Pow(2, k), n, out) && n == Low(n0, k) * 10
      ensures Stored(d[..], out) && trunc == (trunc0 || Overflows(out))
    {
      LeadingStep(src, r0 + |out0|);
      hide Pow, Low, Leading, Divided, Stored, Overflows;
      var dig;
      n, dig := Extend(k, n0, w0, out0, Leading(src, r0 + |out0|), trunc0);
      out := out0 + [dig];
      w := w0;
      if w < d.Length {
        w := w + 1;
      }
    }

    /** Divide by 2^k in place. */
    method RightShift(k: nat)
      requires Valid() && 1 <= k <= MAX_SHIFT
      modifies this`nd, this`dp, this`trunc, d
      ensures Valid() && View() == Scaled(old(View()), Pow(5, k), -(k as int))
      ensures nd > 0 <==> old(nd) > 0
    {
      ghost var v := View();
      PowPositive(2, k);
      hide Pow, Leading, Divided, Stored, Overflows, Cut, Num, Scaled, Normal;
      var n, r := PickUp(k);
      if n == 0 {
        NormalZero(v, Pow(5, k), -(k as int));
        nd := 0;
        return;
      }
      dp := dp - (r - 1);
      var n', w := Transfer(k, n, r);
      ghost var out;
      w, out := PutDownRest(k, n', w, v.digits, r, trunc);
      QuotientScaled(v, k, out, r);
      nd := w;
      Finish(out, v.dp - (r - 1), v.trunc);
    }

    /** Trim what a shift has stored. */
    method Finish(ghost full: seq<Digit>, ghost dp0: int, ghost trunc0: bool)
      requires d.Length == CAPACITY && Stored(d[..], full) && full != [] && full[0] != '0'
      requires nd == (if |full| <= CAPACITY then |full| else CAPACITY) && dp == dp0
      requires trunc == (trunc0 || Overflows(full))
      modifies this`nd, this`dp
      ensures Valid() && nd > 0 && View() == Cut(full, dp0, trunc0)
    {
      StoredDigits(d[..], full);
      CutIs(full, dp0, trunc0);
      assert d[..nd] == d[..][..nd];
      hide Trimmed, Cut, Normal, Stored, Overflows;
      Trim();
    }

    /** Multiply by 2^k for k > 0, divide by 2^-k for k < 0. */
    method Shift(k: int)
      requires Valid()
      modifies this`nd, this`dp, this`trunc, d
      ensures Valid() && View() == Shifted(old(View()), k)
    {
      hide Scaled, Pow;
      if nd == 0 {
      } else if k > 0 {
        var k' := k;
        while k' > MAX_SHIFT
          invariant Valid() && nd > 0 && k' > 0
          invariant Shifted(View(), k') == Shifted(old(View()), k)
        {
          LeftShift(MAX_SHIFT);
          k' := k' - MAX_SHIFT;
        }
        LeftShift(k');
      } else if k < 0 {
        var k' := k;
        while k' < -MAX_SHIFT
          invariant Valid() && nd > 0 && k' < 0
          invariant Shifted(View(), k') == Shifted(old(View()), k)
        {
          RightShift(MAX_SHIFT);
          k' := k' + MAX_SHIFT;
        }
        RightShift(-k');
      }
    }

    /** If the digits are cut off after m, does the last one kept go up? */
    method ShouldRoundUp(m: int) returns (up: bool)
      requires Valid()
      ensures up <==> TakesRoundUp(View(), m)
    {
      if m < 0 || m >= nd {
        return false;
      }
      ghost var rest := d[m..nd];
      assert View().digits[m..] == rest;
      RestAgainstHalf(rest);
      if d[m] == '5' && m + 1 == nd {
        // a tie as far as the digits tell; whatever was lost breaks it
        if trunc {
          return true;
        }
        return m > 0 && Val(d[m - 1]) % 2 != 0;
      }
      return d[m] >= '5';
    }

    method RoundDown(m: int)
      requires Valid()
      modifies this`nd, this`dp
      ensures Valid() && View() == RoundedDown(old(View()), m)
    {
      if m < 0 || m >= nd {
        return;
      }
      assert d[..nd][..m] == d[..m];
      RoundedDownIs(View(), m);
      hide RoundedDown, Normal, Trimmed;
      nd := m;
      Trim();
    }

    /** The last of the first m digits that is below nine, or -1. */
    method LastBelowNine(m: nat) returns (i: int)
      requires Shaped() && m <= nd
      ensures -1 <= i < m && (i >= 0 ==> d[i] != '9')
      ensures forall j :: i < j < m ==> d[j] == '9'
    {
      i := m - 1;
      while i >= 0
        invariant -1 <= i < m
        invariant forall j :: i < j < m ==> d[j] == '9'
      {
        if d[i] < '9' { // nothing is carried past here
          return;
        }
        i := i - 1;
      }
    }

    method RoundUp(m: int)
      requires Valid()
      modifies this`nd, this`dp, d
      ensures Valid() && View() == RoundedUp(old(View()), m)
    {
      if m < 0 || m >= nd {
        return;
      }
      var i := LastBelowNine(m);
      RoundedUpDigits(View(), m, i);
      assert i >= 0 ==> View().digits[..i] == d[..i];
      hide RoundedUp, Normal;
      if i >= 0 {
        Increment(i);
      } else {
        SingleOne();
      }
    }

    /** All nines: a one, one place further up. */
    method SingleOne()
      requires Shaped()
      modifies this`nd, this`dp, d
      ensures Valid() && nd == 1 && dp == old(dp) + 1 && d[..nd] == ['1']
    {
      d[0] := '1';
      nd := 1;
      dp := dp + 1;
      assert d[..nd] == ['1'];
    }

    /** Add one to digit i and drop what follows it. */
    method Increment(i: nat)
      requires Valid() && i < nd && d[i] < '9'
      modifies this`nd, d
      ensures Valid() && nd == i + 1 && d[..nd] == old(d[..i]) + [Chr(Val(old(d[i])) + 1)]
    {
      d[i] := Chr(Val(d[i]) + 1);
      nd := i + 1;
      assert d[..nd] == old(d[..i]) + [Chr(Val(old(d[i])) + 1)];
    }

    /** Round to m digits, or fewer. */
    method Round(m: int)
      requires Valid()
      modifies this`nd, this`dp, d
      ensures Valid()
      ensures View() == if TakesRoundUp(old(View()), m) then RoundedUp(old(View()), m) else RoundedDown(old(View()), m)
    {
      hide RoundedUp, RoundedDown;
      if m < 0 || m >= nd {
        RoundedSame(View(), m);
        return;
      }
      var up := ShouldRoundUp(m);
      if up {
        RoundUp(m);
      } else {
        RoundDown(m);
      }
    }
  }
}
