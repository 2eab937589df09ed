/** The arithmetic of shifting a digit string by powers of two, one digit at a time. */
module ShiftDigits {
  import opened Powers
  import opened Digits
  import opened DecimalSpec
  import opened LeftCheats
  import opened Sequences

  /** A number lies in the range its leading digits announce. */
  lemma NumPrefix(s: seq<Digit>, i: nat)
    requires i <= |s|
    ensures Num(s[..i]) * Pow(10, |s| - i) <= Num(s) < (Num(s[..i]) + 1) * Pow(10, |s| - i)
  {
    assert s == s[..i] + s[i..];
    NumConcat(s[..i], s[i..]);
    NumBound(s[i..]);
    hide *;
    AddOneTimes(Num(s[..i]), Pow(10, |s| - i));
  }

  lemma PrefixEqual(b: seq<Digit>, s: seq<Digit>)
    requires s <= b
    ensures Num(s) * Pow(10, |b|) <= Num(b) * Pow(10, |s|)
  {
    NumPrefix(b, |s|);
    PowAdd(10, |b| - |s|, |s|);
    PowPositive(10, |s|);
    hide *;
    assert b[..|s|] == s;
    MulLe(Num(s) * Pow(10, |b| - |s|), Num(b), Pow(10, |s|));
    MulAssoc(Num(s), Pow(10, |b| - |s|), Pow(10, |s|));
  }

  lemma PrefixDiffers(b: seq<Digit>, s: seq<Digit>, i: nat)
    requires i < |b| && i < |s| && b[..i] == s[..i] && b[i] != s[i]
    ensures b[i] < s[i] <==> Num(b) * Pow(10, |s|) < Num(s) * Pow(10, |b|)
    ensures !(b <= s)
  {
    if b[i] < s[i] {
      PrefixBelow(b, s, i);
    } else {
      PrefixBelow(s, b, i);
    }
    assert b[i] != s[i];
  }

  lemma PrefixBelow(b: seq<Digit>, s: seq<Digit>, i: nat)
    requires i < |b| && i < |s| && b[..i] == s[..i] && b[i] < s[i]
    ensures Num(b) * Pow(10, |s|) < Num(s) * Pow(10, |b|)
  {
    hide *;
    var j := i + 1;
    PrefixStep(b, s, i);
    NumPrefix(b, j);
    NumPrefix(s, j);
    PowAdd(10, |b| - j, |s|);
    PowAdd(10, |s| - j, |b|);
    PowPositive(10, |s|);
    PowPositive(10, |b|);
    PowPositive(10, |b| - j);
    CrossLess(Num(b), Num(s), Num(b[..j]), Num(s[..j]), Pow(10, |b| - j), Pow(10, |s| - j), Pow(10, |b|), Pow(10, |s|));
  }

  lemma PrefixStep(b: seq<Digit>, s: seq<Digit>, i: nat)
    requires i < |b| && i < |s| && b[..i] == s[..i] && b[i] < s[i]
    ensures Num(b[..i + 1]) < Num(s[..i + 1])
  {
    assert b[..i + 1][..i] == b[..i] && s[..i + 1][..i] == s[..i];
  }

  lemma CrossLess(nb: int, ns: int, x: int, y: int, pb: int, ps: int, tb: int, ts: int)
    requires x < y && nb < (x + 1) * pb && y * ps <= ns
    requires 0 < pb && 0 < tb && 0 < ts && pb * ts == ps * tb
    ensures nb * ts < ns * tb
  {
    MulLt(nb, (x + 1) * pb, ts);
    MulLe((x + 1) * pb, y * pb, ts) by { MulLe(x + 1, y, pb); }
    MulLe(y * ps, ns, tb);
    assert (y * pb) * ts == (y * ps) * tb by {
      MulAssoc(y, pb, ts);
      MulAssoc(y, ps, tb);
    }
  }

  // Multiplying by a power of two, from the last digit up.

  /** Of the product x * p the digits out are written and the carry n is left. */
  ghost predicate Carried(x: nat, p: nat, n: nat, out: seq<Digit>) {
    x * p == n * Pow(10, |out|) + Num(out)
  }

  lemma CarryStart(p: nat)
    ensures Carried(0, p, 0, [])
  {
  }

  /** One digit of a left shift: the carry absorbs the digit and gives up its own last digit. */
  lemma CarryStep(src: seq<Digit>, r: nat, p: nat, n: nat, n': nat, out: seq<Digit>)
    requires 0 < r <= |src| && |out| == |src| - r && n' == n + Val(src[r - 1]) * p
    requires Carried(Num(src[r..]), p, n, out)
    ensures Carried(Num(src[r - 1..]), p, n' / 10, [Chr(n' % 10)] + out)
  {
    assert src[r - 1..] == [src[r - 1]] + src[r..];
    NumCons(src[r - 1], src[r..]);
    NumCons(Chr(n' % 10), out);
    assert Pow(10, |out| + 1) == 10 * Pow(10, |out|);
    hide Num, Pow;
    CarryArith(Num(src[r..]), Val(src[r - 1]), p, n, n', Pow(10, |out|), Num(out));
  }

  lemma CarryArith(tail: int, c: int, p: int, n: int, n': int, t: int, o: int)
    requires tail * p == n * t + o && n' == n + c * p
    ensures (c * t + tail) * p == (n' / 10) * (10 * t) + (n' % 10 * t + o)
  {
    calc {
      (c * t + tail) * p;
      { MulAssoc(c, t, p); }
      (c * p) * t + tail * p;
      (c * p) * t + n * t + o;
      n' * t + o;
      { SplitDigit(n', t); }
      (n' / 10) * (10 * t) + n' % 10 * t + o;
    }
  }

  lemma SplitDigit(n: int, t: int)
    ensures n * t == (n / 10) * (10 * t) + n % 10 * t
  {
    calc {
      n * t;
      (10 * (n / 10) + n % 10) * t;
      (n / 10) * (10 * t) + n % 10 * t;
    }
  }

  /** The last digits of a left shift, split off the carry alone. */
  lemma DrainStep(x: nat, p: nat, n: nat, out: seq<Digit>)
    requires Carried(x, p, n, out)
    ensures Carried(x, p, n / 10, [Chr(n % 10)] + out)
  {
    NumCons(Chr(n % 10), out);
    assert Pow(10, |out| + 1) == 10 * Pow(10, |out|);
    hide Num, Pow;
    SplitDigit(n, Pow(10, |out|));
  }

  lemma ProperPrefix(b: seq<Digit>, s: seq<Digit>)
    requires b <= s && |b| < |s| && s[|s| - 1] != '0'
    ensures Num(b) * Pow(10, |s|) < Num(s) * Pow(10, |b|)
  {
    var rest := s[|b|..];
    assert s == b + rest;
    NumConcat(b, rest);
    NumZero(rest);
    assert rest[|rest| - 1] != '0';
    PowAdd(10, |rest|, |b|);
    PowPositive(10, |b|);
    assert Num(b) * Pow(10, |rest|) < Num(s);
    hide *;
    MulAssoc(Num(b), Pow(10, |rest|), Pow(10, |b|));
    MulLt(Num(b) * Pow(10, |rest|), Num(s), Pow(10, |b|));
  }

  /** The digits of 2^k, from the digits of 5^k. */
  lemma TwoRange(k: nat, len: nat)
    requires 1 <= len <= k && Pow(10, len - 1) <= Pow(5, k) < Pow(10, len)
    ensures Pow(10, k - len) < Pow(2, k) <= Pow(10, k - len + 1)
  {
    Pow10Split(k);
    PowPositive(2, k);
    PowPositive(10, len);
    PowPositive(10, len - 1);
    PowAdd(10, k - len, len);
    PowAdd(10, k - len + 1, len - 1);
    hide *;
    var two, five := Pow(2, k), Pow(5, k);
    MulLt(five, Pow(10, len), two);
    MulCancelLt(Pow(10, k - len), two, Pow(10, len));
    MulLe(Pow(10, len - 1), five, two);
    if two > Pow(10, k - len + 1) {
      MulLt(Pow(10, k - len + 1), two, Pow(10, len - 1));
    }
  }

  /** Where N * 2^k lies, from where N lies against 5^k, a number of len digits. */
  lemma ShiftBelow(n: nat, nd: nat, k: nat, len: nat)
    requires nd > 0 && Pow(10, nd - 1) <= n && 1 <= len <= k
    requires Pow(10, len - 1) <= Pow(5, k) < Pow(10, len)
    requires n * Pow(10, len) < Pow(5, k) * Pow(10, nd)
    ensures Pow(10, nd + k - len - 1) <= n * Pow(2, k) < Pow(10, nd + k - len)
  {
    TwoRange(k, len);
    Pow10Split(k);
    PowPositive(2, k);
    PowPositive(10, len);
    PowPositive(10, nd - 1);
    PowAdd(10, nd - 1, k - len);
    PowAdd(10, k, nd);
    PowAdd(10, nd + k - len, len);
    hide *;
    BelowArith(n, Pow(2, k), Pow(5, k), Pow(10, len), Pow(10, nd), Pow(10, k), Pow(10, nd + k - len));
    MulLe(Pow(10, nd - 1), n, Pow(10, k - len));
    MulLe(Pow(10, k - len), Pow(2, k), n);
  }

  lemma BelowArith(n: int, two: int, five: int, l: int, d: int, t: int, goal: int)
    requires n * l < five * d && 0 < two && 0 < l && t == two * five && t * d == goal * l
    ensures n * two < goal
  {
    MulLt(n * l, five * d, two);
    assert (five * d) * two == t * d by { MulAssoc(d, five, two); }
    assert (n * l) * two == (n * two) * l;
    MulCancelLt(n * two, goal, l);
  }

  lemma ShiftAbove(n: nat, nd: nat, k: nat, len: nat)
    requires nd > 0 && n < Pow(10, nd) && 1 <= len <= k
    requires Pow(10, len - 1) <= Pow(5, k) < Pow(10, len)
    requires n * Pow(10, len) >= Pow(5, k) * Pow(10, nd)
    ensures Pow(10, nd + k - len) <= n * Pow(2, k) < Pow(10, nd + k - len + 1)
  {
    TwoRange(k, len);
    Pow10Split(k);
    PowPositive(2, k);
    PowPositive(10, len);
    PowPositive(10, nd);
    PowAdd(10, nd, k - len + 1);
    PowAdd(10, k, nd);
    PowAdd(10, nd + k - len, len);
    hide *;
    AboveArith(n, Pow(2, k), Pow(5, k), Pow(10, len), Pow(10, nd), Pow(10, k), Pow(10, nd + k - len));
    MulLt(n, Pow(10, nd), Pow(2, k));
    MulLe(Pow(2, k), Pow(10, k - len + 1), Pow(10, nd));
  }

  lemma AboveArith(n: int, two: int, five: int, l: int, d: int, t: int, goal: int)
    requires n * l >= five * d && 0 < two && 0 < l && t == two * five && t * d == goal * l
    ensures n * two >= goal
  {
    MulLe(five * d, n * l, two);
    assert (five * d) * two == t * d by { MulAssoc(d, five, two); }
    assert (n * l) * two == (n * two) * l;
    if n * two < goal {
      MulLt(n * two, goal, l);
    }
  }

  /** The verdict of PrefixIsLessThan(src, Cutoff(k)). */
  ghost predicate BelowCutoff(src: seq<Digit>, k: nat)
    requires k <= 60
  {
    || Num(src) * Pow(10, |Cutoff(k)|) < Num(Cutoff(k)) * Pow(10, |src|)
    || (src <= Cutoff(k) && |src| < |Cutoff(k)|)
  }

  lemma BelowCutoffNumeric(src: seq<Digit>, k: nat)
    requires 1 <= k <= 60
    ensures BelowCutoff(src, k) <==> Num(src) * Pow(10, |Cutoff(k)|) < Pow(5, k) * Pow(10, |src|)
  {
    RowIsRight(k);
    var cut := Cutoff(k);
    if src <= cut && |src| < |cut| {
      ProperPrefix(src, cut);
    }
  }

  lemma CutoffRange(k: nat)
    requires 1 <= k <= 60
    ensures 1 <= |Cutoff(k)| <= k && Row(k).delta == k - |Cutoff(k)| + 1
    ensures Pow(10, |Cutoff(k)| - 1) <= Pow(5, k) < Pow(10, |Cutoff(k)|)
  {
    RowIsRight(k);
    PowPositive(5, k);
    NumRender(Row(k).cutoff);
    hide Row;
    NumLeading(Cutoff(k));
    NumBound(Cutoff(k));
  }

  lemma PredictBelow(src: seq<Digit>, k: nat, total: nat)
    requires 1 <= k <= 60 && src != [] && src[0] != '0'
    requires BelowCutoff(src, k) && total == Num(src) * Pow(2, k)
    ensures Row(k).delta >= 1 && |Render(total)| == |src| + Row(k).delta - 1
  {
    hide *;
    CutoffRange(k);
    BelowCutoffNumeric(src, k);
    NumLeading(src);
    ShiftBelow(Num(src), |src|, k, |Cutoff(k)|);
    RenderLength(total, |src| + k - |Cutoff(k)|);
  }

  lemma PredictAbove(src: seq<Digit>, k: nat, total: nat)
    requires 1 <= k <= 60 && src != [] && src[0] != '0'
    requires !BelowCutoff(src, k) && total == Num(src) * Pow(2, k)
    ensures |Render(total)| == |src| + Row(k).delta
  {
    hide *;
    CutoffRange(k);
    BelowCutoffNumeric(src, k);
    NumBound(src);
    ShiftAbove(Num(src), |src|, k, |Cutoff(k)|);
    RenderLength(total, |src| + k - |Cutoff(k)| + 1);
  }

  /** The digits a left shift by k adds. */
  ghost function Delta(src: seq<Digit>, k: nat): int
    requires k <= 60
  {
    Row(k).delta - if BelowCutoff(src, k) then 1 else 0
  }

  /** The table predicts the length of the shifted number exactly. */
  lemma PredictedLength(src: seq<Digit>, k: nat)
    requires 1 <= k <= 60 && src != [] && src[0] != '0'
    ensures Delta(src, k) >= 0 && |Render(Mul(Num(src), Pow(2, k)))| == |src| + Delta(src, k)
  {
    var total := Mul(Num(src), Pow(2, k));
    assert total == Num(src) * Pow(2, k);
    hide Row, BelowCutoff, Num, Pow, Render, Mul;
    if BelowCutoff(src, k) {
      PredictBelow(src, k, total);
    } else {
      PredictAbove(src, k, total);
    }
  }

  /** The last digit of u, moved to the digits written backwards. */
  lemma RenderStep(u: nat, s: seq<Digit>)
    requires u > 0
    ensures Render(u) + Reversed(s) == Render(u / 10) + Reversed(s + [Chr(u % 10)])
    ensures Render(u) != [] && u - 10 * (u / 10) == u % 10
  {
    hide *;
    ReversedSnoc(s, Chr(u % 10));
    RenderLast(u);
    Associative(Render(u / 10), [Chr(u % 10)], Reversed(s));
  }

  lemma RenderLast(u: nat)
    requires u > 0
    ensures Render(u) == Render(u / 10) + [Chr(u % 10)] && u - 10 * (u / 10) == u % 10
  {
    hide Chr;
  }

  lemma Associative(a: seq<Digit>, b: seq<Digit>, c: seq<Digit>)
    ensures (a + b) + c == a + (b + c)
  {
  }

  lemma TenToTwenty()
    ensures Pow(10, 20) == 100_000_000_000_000_000_000
  {
    PowAdd(10, 10, 10);
    assert Pow(10, 5) == 100_000;
    PowAdd(10, 5, 5);
  }

  lemma RenderShort(v: nat)
    requires v < 0x1_0000_0000_0000_0000
    ensures |Render(v)| <= 20
  {
    NumRender(v);
    if |Render(v)| > 20 {
      NumLeading(Render(v));
      PowMonotone(10, 20, |Render(v)| - 1);
      TenToTwenty();
    }
  }

  /** The buffer a holds the digits out from position w on, as far as it reaches. */
  ghost predicate Written(a: seq<Digit>, out: seq<Digit>, w: int) {
    forall i :: 0 <= i < |out| && 0 <= w + i < |a| ==> a[w + i] == out[i]
  }

  /** Some digit of out, placed from w on, is not zero and falls outside the buffer. */
  ghost predicate Lost(out: seq<Digit>, w: int) {
    exists i :: 0 <= i < |out| && w + i >= CAPACITY && out[i] != '0'
  }

  lemma WrittenStep(a: seq<Digit>, a': seq<Digit>, out: seq<Digit>, w: nat, c: Digit)
    requires Written(a, out, w + 1)
    requires a' == if w < |a| then a[w := c] else a
    ensures Written(a', [c] + out, w)
  {
    var out' := [c] + out;
    forall i | 0 <= i < |out'| && 0 <= w + i < |a'| ensures a'[w + i] == out'[i] {
      if i > 0 {
        assert a[w + 1 + (i - 1)] == out[i - 1];
      }
    }
  }

  lemma LostStep(out: seq<Digit>, w: nat, c: Digit)
    ensures Lost([c] + out, w) <==> Lost(out, w + 1) || (w >= CAPACITY && c != '0')
  {
    var out' := [c] + out;
    if Lost(out, w + 1) {
      var i :| 0 <= i < |out| && w + 1 + i >= CAPACITY && out[i] != '0';
      assert out'[i + 1] != '0';
    }
    if Lost(out', w) {
      var i :| 0 <= i < |out'| && w + i >= CAPACITY && out'[i] != '0';
      if i > 0 {
        assert out[i - 1] != '0';
      }
    }
    if w >= CAPACITY && c != '0' {
      assert out'[0] != '0';
    }
  }

  /** The digits full are in the buffer a, as many as fit. */
  ghost predicate Stored(a: seq<Digit>, full: seq<Digit>)
    requires |a| == CAPACITY
  {
    if |full| <= CAPACITY then a[..|full|] == full else a == full[..CAPACITY]
  }

  /** Digits other than zeros do not fit. */
  ghost predicate Overflows(full: seq<Digit>) {
    |full| > CAPACITY && !AllZero(full[CAPACITY..])
  }

  /** With every digit of the result placed, the buffer holds what fits and the rest was seen. */
  lemma WrittenAll(a: seq<Digit>, total: nat, out: seq<Digit>)
    requires |a| == CAPACITY && Written(a, out, 0)
    requires out != [] && Num(out) == total && |Render(total)| == |out|
    ensures out == Render(total) && Stored(a, out)
    ensures Lost(out, 0) <==> Overflows(out)
  {
    NumRender(total);
    NumInjective(out, Render(total));
    hide Num, Render;
    LostAll(out);
  }

  lemma LostAll(out: seq<Digit>)
    ensures Lost(out, 0) <==> Overflows(out)
  {
    if Lost(out, 0) {
      var i :| 0 <= i < |out| && i >= CAPACITY && out[i] != '0';
      assert out[CAPACITY..][i - CAPACITY] == out[i];
    }
    if Overflows(out) {
      var i :| 0 <= i < |out[CAPACITY..]| && out[CAPACITY..][i] != '0';
      assert out[CAPACITY + i] != '0';
    }
  }

  lemma CutNormal(full: seq<Digit>, dp: int, trunc: bool)
    requires full != [] ==> full[0] != '0'
    ensures Normal(Cut(full, dp, trunc))
    ensures full != [] ==> Cut(full, dp, trunc).digits != []
  {
    if full != [] {
      var s := if |full| <= CAPACITY then full else full[..CAPACITY];
      var t := TrimRight(s);
      assert |t| < |s| ==> s[|t|..][0] == s[|t|];
    }
  }

  /** With no carry left, every position down to the first has been written. */
  lemma Drained(x: nat, p: nat, out: seq<Digit>, w: nat)
    requires Carried(x, p, 0, out) && Mul(x, p) > 0
    requires |Render(Mul(x, p))| == |out| + w
    ensures w == 0 && out != [] && Num(out) == Mul(x, p)
  {
    var total := Mul(x, p);
    assert Num(out) == total;
    NumRender(total);
    NumLeading(Render(total));
    NumBound(out);
    PowReflect(10, |out| + w - 1, |out|);
  }

  /** A carry left over has a position to go to. */
  lemma RoomForCarry(x: nat, p: nat, n: nat, out: seq<Digit>, w: int)
    requires Carried(x, p, n, out) && n > 0
    requires |Render(Mul(x, p))| == |out| + w
    ensures w > 0
  {
    var total := Mul(x, p);
    NumRender(total);
    NumBound(Render(total));
    MulLe(1, n, Pow(10, |out|));
    PowReflect(10, |out|, |Render(total)|);
  }

  lemma TotalPositive(src: seq<Digit>, m: nat)
    requires src != [] && src[0] != '0' && m > 0
    ensures Mul(Num(src), m) > 0 && Mul(Num(src), m) == Num(src) * m
  {
    NumLeading(src);
    PowPositive(10, |src| - 1);
    MulLe(1, Num(src), m);
  }

  /** No carry and no sum with a digit reaches 2^64. */
  lemma CarryBound(n: nat, c: nat, k: nat)
    requires k <= 60 && n < Pow(2, k) && c <= 9
    ensures 0 <= n + c * Pow(2, k) < 10 * Pow(2, k) <= 0xA000_0000_0000_0000
  {
    PowMonotone(2, k, 60);
    TwoToSixty();
    hide Pow;
    MulLe(c, 9, Pow(2, k));
    MulLe(0, c, Pow(2, k));
  }

  lemma TwoToSixty()
    ensures Pow(2, 60) == 0x1000_0000_0000_0000
  {
    PowAdd(2, 30, 30);
    PowAdd(2, 15, 15);
    assert Pow(2, 8) == 256;
    assert Pow(2, 15) == 32768;
  }

  // Dividing by a power of two, from the first digit down.

  lemma ShrLow(x: nat, k: nat)
    ensures x == Shr(x, k) * Pow(2, k) + Low(x, k) && Low(x, k) < Pow(2, k)
    ensures Shr(x, k) == 0 <==> x < Pow(2, k)
    ensures x < 10 * Pow(2, k) ==> Shr(x, k) <= 9
  {
    PowPositive(2, k);
    hide Pow;
    var p, q, m := Pow(2, k), Shr(x, k), Low(x, k);
    assert x == q * p + m && 0 <= m < p;
    hide *;
    if q >= 1 {
      MulLe(1, q, p);
    }
    if q >= 10 {
      MulLe(10, q, p);
    }
  }

  /** The number formed by the first r digits, with zeros beyond the last. */
  ghost function Leading(src: seq<Digit>, r: nat): nat {
    if r <= |src| then Num(src[..r]) else Mul(Num(src), Pow(10, r - |src|))
  }

  lemma LeadingStep(src: seq<Digit>, r: nat)
    ensures Leading(src, r + 1) == 10 * Leading(src, r) + if r < |src| then Val(src[r]) else 0
  {
    if r < |src| {
      assert src[..r + 1] == src[..r] + [src[r]];
      NumSnoc(src[..r], src[r]);
    } else {
      assert r == |src| ==> src[..r] == src;
      ShiftOne(Num(src), Pow(10, r - |src|));
      assert Pow(10, r + 1 - |src|) == 10 * Pow(10, r - |src|);
    }
  }

  /** Of the dividend, the quotient digits out are written and the remainder n is left, one digit ahead. */
  ghost predicate Divided(dividend: nat, p: nat, n: nat, out: seq<Digit>) {
    && dividend == Num(out) * (10 * p) + n
    && n < 10 * p
    && if out == [] then p <= n else out[0] != '0'
  }

  lemma DivideStart(n: nat, p: nat)
    requires p <= n < 10 * p
    ensures Divided(n, p, n, [])
  {
  }

  lemma EmptyQuotient(dividend: nat, p: nat, n: nat, out: seq<Digit>)
    requires Divided(dividend, p, n, out) && p > 0
    ensures out == [] ==> n > 0
  {
  }

  lemma FirstQuotientDigit(dividend: nat, p: nat, n: nat, out: seq<Digit>)
    requires Divided(dividend, p, n, out) && out != []
    ensures out[0] != '0'
  {
  }

  lemma DivideStep(dividend: nat, k: nat, n: nat, out: seq<Digit>, c: nat)
    requires Divided(dividend, Pow(2, k), n, out) && c <= 9
    ensures Shr(n, k) <= 9 && n < 10 * Pow(2, k) && Low(n, k) < Pow(2, k)
    ensures Divided(10 * dividend + c, Pow(2, k), Low(n, k) * 10 + c, out + [Chr(Shr(n, k))])
  {
    ShrLow(n, k);
    NumSnoc(out, Chr(Shr(n, k)));
    hide Num, Pow, Shr, Low;
    DivideArith(Num(out), Pow(2, k), n, Shr(n, k), Low(n, k));
  }

  lemma DivideArith(o: int, p: int, n: int, q: int, m: int)
    requires n == q * p + m
    ensures 10 * (o * (10 * p) + n) == (10 * o + q) * (10 * p) + m * 10
  {
    assert (10 * o + q) * (10 * p) == 10 * (o * (10 * p)) + 10 * (q * p);
  }

  /** The remainder of an exhausted dividend gains a factor of two with every digit. */
  lemma RemainderStep(n: nat, k: nat, j: nat, q: int) returns (q': int)
    requires j <= k && n == q * Pow(2, j)
    ensures j < k ==> Low(n, k) * 10 == q' * Pow(2, j + 1)
    ensures j == k ==> Low(n, k) == 0
  {
    ShrLow(n, k);
    PowAdd(2, k - j, j);
    PowPositive(2, j);
    assert Pow(2, j + 1) == 2 * Pow(2, j);
    hide Shr, Low, Pow;
    var h := q - Shr(n, k) * Pow(2, k - j);
    RemainderArith(Low(n, k), q, Pow(2, j), Shr(n, k), Pow(2, k - j), Pow(2, k), h);
    q' := 5 * h;
    if j == k {
      MultipleBelow(h, Pow(2, k));
    }
  }

  lemma RemainderArith(m: int, q: int, pj: int, s: int, pd: int, pk: int, h: int)
    requires q * pj == s * pk + m && pk == pd * pj && h == q - s * pd
    ensures m == h * pj && m * 10 == (5 * h) * (2 * pj)
  {
    assert s * (pd * pj) == (s * pd) * pj;
    assert m == (q - s * pd) * pj;
  }

  lemma MultipleBelow(h: int, p: int)
    requires 0 <= h * p < p
    ensures h * p == 0
  {
    if h >= 1 {
      MulLe(1, h, p);
    } else if h <= -1 {
      MulLe(h, -1, p);
    }
  }

  lemma StoredSnoc(a: seq<Digit>, out: seq<Digit>, c: Digit)
    requires |a| == CAPACITY && Stored(a, out)
    ensures Stored(if |out| < CAPACITY then a[|out| := c] else a, out + [c])
  {
    if |out| < CAPACITY {
      assert a[|out| := c][..|out| + 1] == a[..|out|] + [c];
    }
  }

  lemma OverflowsSnoc(out: seq<Digit>, c: Digit)
    ensures Overflows(out + [c]) <==> Overflows(out) || (|out| >= CAPACITY && c != '0')
  {
    var out' := out + [c];
    if |out| >= CAPACITY {
      assert out'[CAPACITY..] == out[CAPACITY..] + [c];
      assert out'[CAPACITY..][|out| - CAPACITY] == c;
      assert forall i :: 0 <= i < |out| - CAPACITY ==> out'[CAPACITY..][i] == out[CAPACITY..][i];
    }
  }

  /** A nonzero number scaled up has digits, and the first is not zero. */
  lemma ScaledDigits(src: seq<Digit>, m: nat)
    requires src != [] && src[0] != '0' && m > 0
    ensures var full := Render(Mul(Num(src), m));
            Mul(Num(src), m) > 0 && full != [] && full[0] != '0' && Num(full) == Mul(Num(src), m)
  {
    TotalPositive(src, m);
    NumRender(Mul(Num(src), m));
  }

  /** The quotient digits denote N * 5^k, up to powers of ten. */
  lemma QuotientValue(src: seq<Digit>, k: nat, out: seq<Digit>, r: nat)
    requires src != [] && r >= |src|
    requires Divided(Leading(src, r), Pow(2, k), 0, out)
    ensures Num(out) * Pow(10, k + 1) == Mul(Num(src), Pow(5, k)) * Pow(10, r - |src|)
  {
    assert src[..|src|] == src;
    assert Leading(src, r) == Num(src) * Pow(10, r - |src|);
    Pow10Split(k);
    assert Pow(10, k + 1) == 10 * Pow(10, k);
    var f := Mul(Num(src), Pow(5, k));
    assert f == Num(src) * Pow(5, k);
    hide Num, Pow, Leading, Mul;
    QuotientArith(Num(src), Pow(10, r - |src|), Num(out), Pow(2, k), Pow(5, k), Pow(10, k), Pow(10, k + 1), f);
  }

  /** The quotient digits are those of N * 5^k, up to zeros at the end. */
  lemma QuotientCut(src: seq<Digit>, k: nat, out: seq<Digit>, r: nat, dp: int, trunc: bool)
    requires src != [] && src[0] != '0' && out != [] && out[0] != '0' && r >= |src|
    requires Divided(Leading(src, r), Pow(2, k), 0, out)
    ensures var full := Render(Mul(Num(src), Pow(5, k)));
            && |full| == |src| - (r - |out|) + k + 1
            && Cut(out, dp, trunc) == Cut(full, dp, trunc)
  {
    PowPositive(5, k);
    hide *;
    QuotientValue(src, k, out, r);
    ScaledDigits(src, Pow(5, k));
    SameCut(out, Render(Mul(Num(src), Pow(5, k))), k + 1, r - |src|, dp, trunc);
  }

  /** The whole quotient, the point moved back by the digits read before the first of it, is the number divided. */
  lemma QuotientScaled(v: Dec, k: nat, out: seq<Digit>, r: nat)
    requires Normal(v) && v.digits != [] && out != [] && r + |out| >= |v.digits|
    requires Divided(Leading(v.digits, r + |out|), Pow(2, k), 0, out)
    ensures out[0] != '0' && Cut(out, v.dp - (r - 1), v.trunc) == Scaled(v, Pow(5, k), -(k as int))
  {
    hide Pow, Leading, Divided, Cut, Num, Render, Mul;
    FirstQuotientDigit(Leading(v.digits, r + |out|), Pow(2, k), 0, out);
    QuotientCut(v.digits, k, out, r + |out|, v.dp - (r - 1), v.trunc);
  }

  lemma QuotientArith(n: int, t: int, o: int, two: int, five: int, ten: int, ten1: int, f: int)
    requires n * t == o * (10 * two) && ten == two * five && ten1 == 10 * ten && f == n * five
    ensures o * ten1 == f * t
  {
    calc {
      o * ten1;
      o * (10 * (two * five));
      (o * (10 * two)) * five;
      (n * t) * five;
      (n * five) * t;
    }
  }

  // Rounding.

  lemma RoundedSame(v: Dec, m: int)
    requires m < 0 || m >= |v.digits|
    ensures RoundedUp(v, m) == v && RoundedDown(v, m) == v
  {
  }

  /** The first digit cut off decides on which side of a half the rest lies. */
  lemma RestAgainstHalf(rest: seq<Digit>)
    requires rest != [] && rest[|rest| - 1] != '0'
    ensures var half := 5 * Pow(10, |rest| - 1);
            && (rest[0] < '5' ==> Num(rest) < half)
            && (rest[0] == '5' && |rest| == 1 ==> Num(rest) == half)
            && (rest[0] >= '5' && !(rest[0] == '5' && |rest| == 1) ==> Num(rest) > half)
  {
    var tail := rest[1..];
    assert rest == [rest[0]] + tail;
    NumCons(rest[0], tail);
    NumBound(tail);
    NumZero(tail);
    assert |rest| > 1 ==> tail[|tail| - 1] != '0';
    hide Num, Pow;
    if rest[0] < '5' {
      MulLe(Val(rest[0]), 4, Pow(10, |tail|));
    } else if rest[0] > '5' {
      PowPositive(10, |tail|);
      MulLe(6, Val(rest[0]), Pow(10, |tail|));
    }
  }

  /** A number that is a digit string followed by zeros, trimmed. */
  lemma RenderPadded(b: seq<Digit>, zeros: nat, n: nat)
    requires b != [] && b[0] != '0' && b[|b| - 1] != '0'
    requires Num(b) * Pow(10, zeros) == n
    ensures |Render(n)| == |b| + zeros && TrimRight(Render(n)) == b
  {
    var z := Zeros(zeros);
    NumTrailingZeros(b, z);
    assert Num(b + z) == n;
    RenderNum(b + z);
    assert (b + z)[|b|..] == z;
    hide Num, Render, Pow;
    TrimRightUnique(b + z, b);
  }

  /** Rounding up stops at the last digit below nine. */
  lemma RoundUpAt(kept: seq<Digit>, i: nat)
    requires i < |kept| && kept[i] != '9' && forall j :: i < j < |kept| ==> kept[j] == '9'
    requires kept[0] != '0'
    ensures var full := Render(Num(kept) + 1);
            |full| == |kept| && TrimRight(full) == kept[..i] + [Chr(Val(kept[i]) + 1)]
  {
    var a, nines := kept[..i], kept[i + 1..];
    var b := a + [Chr(Val(kept[i]) + 1)];
    assert kept == a + [kept[i]] + nines;
    assert i > 0 ==> b[0] == kept[0];
    hide Num, Render, Pow, TrimRight;
    NumIncrement(a, kept[i], nines);
    RenderPadded(b, |nines|, Num(kept) + 1);
  }

  /** Rounding nines up gives a single one, a place higher. */
  lemma RoundUpNines(kept: seq<Digit>)
    requires forall j :: 0 <= j < |kept| ==> kept[j] == '9'
    ensures var full := Render(Num(kept) + 1);
            |full| == |kept| + 1 && TrimRight(full) == ['1']
  {
    NumNines(kept);
    var one: seq<Digit> := ['1'];
    assert Num(one) == 1 by {
      NumSnoc([], '1');
      assert [] + ['1'] == one;
    }
    hide Num, Render, Pow, TrimRight;
    RenderPadded(one, |kept|, Num(kept) + 1);
  }

  /** Rounding up, digit by digit: i is the last digit below nine of the first m, or -1. */
  lemma RoundedUpDigits(v: Dec, m: int, i: int)
    requires Normal(v) && 0 <= m < |v.digits| && -1 <= i < m
    requires i >= 0 ==> v.digits[i] != '9'
    requires forall j :: i < j < m ==> v.digits[j] == '9'
    ensures RoundedUp(v, m) ==
            if i >= 0 then Dec(v.digits[..i] + [Chr(Val(v.digits[i]) + 1)], v.dp, v.trunc)
            else Dec(['1'], v.dp + 1, v.trunc)
  {
    hide *;
    var kept := v.digits[..m];
    RoundedUpIs(v, m);
    NormalStart(v);
    if i >= 0 {
      RoundUpAt(kept, i);
      assert kept[..i] == v.digits[..i];
    } else {
      RoundUpNines(kept);
    }
  }

  lemma RoundedUpIs(v: Dec, m: int)
    requires 0 <= m < |v.digits|
    ensures var full := Render(Num(v.digits[..m]) + 1);
            RoundedUp(v, m) == Dec(TrimRight(full), v.dp - m + |full|, v.trunc)
  {
    hide Num, Render, TrimRight;
  }

  lemma NormalStart(v: Dec)
    requires Normal(v)
    ensures v.digits != [] ==> v.digits[0] != '0'
  {
  }

  lemma StoredDigits(a: seq<Digit>, full: seq<Digit>)
    requires |a| == CAPACITY && Stored(a, full)
    ensures var n := if |full| <= CAPACITY then |full| else CAPACITY; a[..n] == full[..n]
  {
    assert full[..|full|] == full && a[..|a|] == a;
  }

  /** What Cut keeps is the stored part, trimmed. */
  lemma CutIs(full: seq<Digit>, dp: int, trunc: bool)
    requires full != [] && full[0] != '0'
    ensures var n := if |full| <= CAPACITY then |full| else CAPACITY;
            Cut(full, dp, trunc) == Trimmed(Dec(full[..n], dp, trunc || Overflows(full)))
    ensures Normal(Cut(full, dp, trunc)) && Cut(full, dp, trunc).digits != []
  {
    CutNormal(full, dp, trunc);
    assert full[..|full|] == full;
    hide TrimRight;
  }

  lemma RoundedDownIs(v: Dec, m: nat)
    requires Normal(v) && m < |v.digits|
    ensures RoundedDown(v, m) == Trimmed(Dec(v.digits[..m], v.dp, v.trunc))
    ensures Normal(RoundedDown(v, m))
  {
    var s := v.digits[..m];
    assert m > 0 ==> s[0] == v.digits[0];
    var kept := TrimRight(s);
    assert kept != [] ==> kept[0] == s[0];
  }

  /** The digits of a word fit the buffer; only trailing zeros are dropped. */
  lemma RenderCut(v: nat, trunc: bool)
    requires v < 0x1_0000_0000_0000_0000
    ensures var full := Render(v);
            && |full| <= CAPACITY && Normal(Cut(full, |full|, trunc))
            && Cut(full, |full|, trunc) == Trimmed(Dec(full, |full|, trunc))
  {
    var full := Render(v);
    NumRender(v);
    RenderShort(v);
    assert full != [] ==> full[0] != '0';
    hide Render, Num;
    CutNormal(full, |full|, trunc);
    hide TrimRight;
  }
}
