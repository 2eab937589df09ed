/** Printing fixed-point numbers and reading them back (String and NewFromString). */
module DecimalText {
  import opened Powers
  import opened Digits
  import opened DecimalSpec
  import opened DecimalValue
  import opened FixedDecimal
  import opened Strconv

  datatype ParseError = BadExponent | TooManyPoints | NotANumber | ExponentOutOfRange

  datatype Parsed = Error(error: ParseError) | Ok(number: Fixed)

  // Reading.

  /** Where the first e or E stands, or the length. */
  function IndexE(s: string): (i: nat)
    ensures i <= |s|
    ensures forall j :: 0 <= j < i ==> s[j] != 'e' && s[j] != 'E'
    ensures i < |s| ==> s[i] == 'e' || s[i] == 'E'
  {
    if s == [] || s[0] == 'e' || s[0] == 'E' then 0 else 1 + IndexE(s[1..])
  }

  function TrimZeros(s: string): string {
    if s != [] && s[|s| - 1] == '0' then TrimZeros(s[..|s| - 1]) else s
  }

  function MakeFixed(n: Option<int>, exp: int): Parsed {
    if n.None? then Error(NotANumber)
    else if !IsInt32(exp) then Error(ExponentOutOfRange)
    else Ok(Fixed(n.value, exp))
  }

  function ParseMantissa(value: string, exp: int): Parsed {
    var parts := Split(value, '.');
    if |parts| > 2 then Error(TooManyPoints)
    else
      // zeros at the end would only make equal numbers look different
      var decimalPart := if |parts| == 2 then TrimZeros(parts[1]) else "";
      MakeFixed(ParseInt(parts[0] + decimalPart), exp - |decimalPart|)
  }

  function NewFromString(value: string): Parsed {
    var e := IndexE(value);
    if e == |value| then ParseMantissa(value, 0)
    else
      match ParseInt(value[e + 1..])
      case None => Error(BadExponent)
      case Some(x) => if IsInt32(x) then ParseMantissa(value[..e], x) else Error(BadExponent)
  }

  // Printing.

  /** The digits before and after a point with k digits after it. */
  function Places(n: nat, k: nat): (seq<Digit>, seq<Digit>) {
    var s := BigText(n);
    if |s| > k then (s[..|s| - k], s[|s| - k..]) else (['0'], Zeros(k - |s|) + s)
  }

  function PointText(f: seq<Digit>): string {
    if f == [] then "" else "." + f
  }

  function Text(d: Fixed, trim: bool): string {
    if d.exp >= 0 then IntText(Rescale(d, 0).value)
    else
      var (i, f) := Places(Abs(d.value), -(d.exp as int));
      SignText(d.value < 0) + i + PointText(if trim then TrimRight(f) else f)
  }

  method TrimFraction(f: seq<Digit>) returns (kept: seq<Digit>)
    ensures kept == TrimRight(f)
  {
    var i := |f| - 1;
    assert f[..i + 1] == f;
    while i >= 0
      invariant -1 <= i < |f|
      invariant TrimRight(f) == TrimRight(f[..i + 1])
    {
      if f[i] != '0' {
        break;
      }
      assert f[..i + 1][..i] == f[..i];
      i := i - 1;
    }
    kept := f[..i + 1];
  }

  method SplitDigits(value: int, exp: int) returns (intPart: seq<Digit>, fractionalPart: seq<Digit>)
    requires exp < 0
    ensures (intPart, fractionalPart) == Places(Abs(value), -exp)
  {
    var str := BigText(Abs(value));
    hide BigText;
    if |str| > -exp {
      intPart := str[..|str| + exp];
      fractionalPart := str[|str| + exp..];
    } else {
      intPart := ['0'];
      var num0s := -exp - |str|;
      fractionalPart := Zeros(num0s) + str;
    }
  }

  method String(d: Fixed, trimTrailingZeros: bool) returns (number: string)
    ensures number == Text(d, trimTrailingZeros)
  {
    hide Rescale, IntText, Places, TrimRight;
    if d.exp >= 0 {
      return IntText(Rescale(d, 0).value);
    }
    var intPart, fractionalPart := SplitDigits(d.value, d.exp);
    if trimTrailingZeros {
      fractionalPart := TrimFraction(fractionalPart);
    }
    number := intPart + PointText(fractionalPart);
    assert SignText(false) + intPart + PointText(fractionalPart) == number;
    assert SignText(true) + intPart + PointText(fractionalPart) == "-" + number;
    if d.value < 0 {
      number := "-" + number;
    }
  }

  // What is read from digits and points.

  lemma {:induction false} TrimDigits(f: seq<Digit>)
    ensures TrimZeros(f) == TrimRight(f)
  {
    if f != [] && f[|f| - 1] == '0' {
      TrimDigits(f[..|f| - 1]);
    }
  }

  /** A sign, digits, and perhaps a point with digits. */
  ghost function Mantissa(sign: string, i: seq<Digit>, point: bool, f: seq<Digit>): string {
    sign + i + if point then "." + f else ""
  }

  ghost predicate GoodSign(sign: string) {
    sign == "" || sign == "-" || sign == "+"
  }

  /** What such a mantissa means; an empty integer part is accepted only before a digit other than zero. */
  ghost function Meant(sign: string, i: seq<Digit>, f: seq<Digit>, exp: int): Parsed {
    var kept := TrimRight(f);
    MakeFixed(if i + kept == [] then None else Some(Signed(sign == "-", Num(i + kept))), exp - |kept|)
  }

  lemma NoPoint(sign: string, i: seq<Digit>)
    requires GoodSign(sign)
    ensures Without(sign + i, '.')
  {
  }

  lemma MeantIs(sign: string, i: seq<Digit>, f: seq<Digit>, exp: int, value: string, parts: seq<string>)
    requires GoodSign(sign) && Split(value, '.') == parts && 1 <= |parts| <= 2 && parts[0] == sign + i
    requires f == if |parts| == 2 then parts[1] else ""
    ensures ParseMantissa(value, exp) == Meant(sign, i, f, exp)
  {
    hide *;
    var kept := TrimRight(f);
    TrimDigits(f);
    GoodSignIs(sign);
    ParseSigned(sign, i + kept);
    MantissaParts(value, exp, parts, kept);
    MeantWith(sign, i, f, exp, kept);
    assert sign + (i + kept) == (sign + i) + kept;
  }

  lemma GoodSignIs(sign: string)
    ensures GoodSign(sign) <==> sign == "" || sign == "-" || sign == "+"
  {
  }

  lemma MantissaParts(value: string, exp: int, parts: seq<string>, kept: string)
    requires Split(value, '.') == parts && 1 <= |parts| <= 2
    requires kept == TrimZeros(if |parts| == 2 then parts[1] else "")
    ensures ParseMantissa(value, exp) == MakeFixed(ParseInt(parts[0] + kept), exp - |kept|)
  {
    hide ParseInt, Split, MakeFixed;
  }

  lemma MeantWith(sign: string, i: seq<Digit>, f: seq<Digit>, exp: int, kept: seq<Digit>)
    requires kept == TrimRight(f)
    ensures Meant(sign, i, f, exp) ==
            MakeFixed(if i + kept == [] then None else Some(Signed(sign == "-", Num(i + kept))), exp - |kept|)
  {
    hide Num, TrimRight, MakeFixed, Signed;
  }

  lemma MantissaRead(sign: string, i: seq<Digit>, point: bool, f: seq<Digit>, exp: int)
    requires GoodSign(sign) && (!point ==> f == [])
    ensures ParseMantissa(Mantissa(sign, i, point, f), exp) == Meant(sign, i, f, exp)
  {
    var s := sign + i;
    NoPoint(sign, i);
    NoPoint("", f);
    assert "" + f == f;
    assert Mantissa(sign, i, point, f) == if point then s + "." + f else s by {
      assert s + ("." + f) == s + "." + f && s + "" == s;
    }
    hide *;
    if point {
      SplitOne(s, f, '.');
      MeantIs(sign, i, f, exp, s + "." + f, [s, f]);
    } else {
      SplitNone(s, '.');
      MeantIs(sign, i, f, exp, s, [s]);
    }
  }

  lemma NoE(sign: string, i: seq<Digit>, point: bool, f: seq<Digit>)
    requires GoodSign(sign)
    ensures Without(Mantissa(sign, i, point, f), 'e') && Without(Mantissa(sign, i, point, f), 'E')
  {
  }

  /** Reading a mantissa, with an exponent or without, gives its meaning. */
  lemma NumberRead(sign: string, i: seq<Digit>, point: bool, f: seq<Digit>, exponent: Option<Int32>)
    requires GoodSign(sign) && (!point ==> f == [])
    ensures var text := Mantissa(sign, i, point, f) + if exponent.Some? then "e" + IntText(exponent.value) else "";
            NewFromString(text) == Meant(sign, i, f, if exponent.Some? then exponent.value else 0)
  {
    hide *;
    var m := Mantissa(sign, i, point, f);
    NoE(sign, i, point, f);
    if exponent.Some? {
      MantissaRead(sign, i, point, f, exponent.value);
      ExponentText(m, IntText(exponent.value));
      IntTextRead(exponent.value);
      ReadExponent(m + ("e" + IntText(exponent.value)), |m|, exponent.value);
      assert m + "e" + IntText(exponent.value) == m + ("e" + IntText(exponent.value));
    } else {
      MantissaRead(sign, i, point, f, 0);
      assert m + "" == m;
      ReadPlain(m);
    }
  }

  /** An error comes exactly from a text without digits once the zeros at the end of the fraction are gone, or from an
      exponent beyond an int32. */
  lemma RejectedExactly(sign: string, i: seq<Digit>, point: bool, f: seq<Digit>, exponent: Option<Int32>)
    requires GoodSign(sign) && (!point ==> f == [])
    ensures var text := Mantissa(sign, i, point, f) + if exponent.Some? then "e" + IntText(exponent.value) else "";
            var exp := if exponent.Some? then exponent.value else 0;
            NewFromString(text).Error? <==> (i == [] && AllZero(f)) || !IsInt32(exp - |TrimRight(f)|)
  {
    hide *;
    NumberRead(sign, i, point, f, exponent);
    MeantFails(sign, i, f, if exponent.Some? then exponent.value else 0);
    TrimmedAway(f);
  }

  lemma MeantFails(sign: string, i: seq<Digit>, f: seq<Digit>, exp: int)
    ensures Meant(sign, i, f, exp).Error? <==> (i == [] && TrimRight(f) == []) || !IsInt32(exp - |TrimRight(f)|)
  {
    hide TrimRight, Num, Signed;
  }

  lemma TrimmedAway(f: seq<Digit>)
    ensures TrimRight(f) == [] <==> AllZero(f)
  {
    if AllZero(f) {
      TrimRightUnique(f, []);
    }
  }

  /** m is a mantissa: a sign and digits with at most one point among them, or, which is accepted too, a point and then the
      sign. */
  ghost predicate IsMantissa(m: string) {
    exists sign: string, i: seq<Digit>, point: bool, f: seq<Digit> :: Writes(m, sign, i, point, f)
  }

  ghost predicate Writes(m: string, sign: string, i: seq<Digit>, point: bool, f: seq<Digit>) {
    GoodSign(sign) && (!point ==> f == []) && (m == Mantissa(sign, i, point, f) || (i == [] && m == "." + (sign + f)))
  }

  /** Nothing else is read as a number: a mantissa, and after it perhaps an e of either case and an int32. */
  lemma AcceptedOnly(s: string)
    requires NewFromString(s).Ok?
    ensures var e := IndexE(s);
            IsMantissa(s[..e]) && (e < |s| ==> ParseInt(s[e + 1..]).Some? && IsInt32(ParseInt(s[e + 1..]).value))
  {
    hide *;
    var exp := WithoutE(s);
    MantissaOnly(s[..IndexE(s)], exp);
  }

  lemma WithoutE(s: string) returns (exp: int)
    requires NewFromString(s).Ok?
    ensures var e := IndexE(s);
            ParseMantissa(s[..e], exp).Ok? && (e < |s| ==> ParseInt(s[e + 1..]).Some? && IsInt32(ParseInt(s[e + 1..]).value))
  {
    hide ParseMantissa, ParseInt;
    var e := IndexE(s);
    hide IndexE;
    assert s[..|s|] == s;
    exp := if e == |s| then 0 else ParseInt(s[e + 1..]).value;
  }

  lemma MantissaOnly(m: string, exp: int)
    requires ParseMantissa(m, exp).Ok?
    ensures IsMantissa(m)
  {
    var parts := Split(m, '.');
    SplitJoins(m, '.');
    if |parts| == 1 {
      assert parts[0] + "" == m;
      var sign, i := SignAndDigits(m);
      assert Mantissa(sign, i, false, []) == sign + i + "" == m;
      assert Writes(m, sign, i, false, []);
    } else {
      var kept := TrimZeros(parts[1]);
      var sign, i := SignAndDigits(parts[0] + kept);
      var zeros := TrimmedZeros(parts[1]);
      hide ParseMantissa, ParseInt, Split, TrimZeros;
      PointWithin(m, parts[0], kept, zeros, sign, i);
    }
  }

  lemma SignAndDigits(s: string) returns (sign: string, i: seq<Digit>)
    requires ParseInt(s).Some?
    ensures GoodSign(sign) && s == sign + i && i != []
  {
    sign := if s != [] && IsSign(s[0]) then [s[0]] else "";
    i := AsDigits(if s != [] && IsSign(s[0]) then s[1..] else s);
  }

  lemma {:induction false} TrimmedZeros(s: string) returns (zeros: seq<Digit>)
    ensures s == TrimZeros(s) + zeros && AllZero(zeros)
  {
    zeros := [];
    if s != [] && s[|s| - 1] == '0' {
      zeros := TrimmedZeros(s[..|s| - 1]);
      assert s == s[..|s| - 1] + ['0'];
      zeros := zeros + ['0'];
    }
  }

  lemma PointWithin(m: string, a: string, kept: string, zeros: seq<Digit>, sign: string, i: seq<Digit>)
    requires m == a + "." + (kept + zeros) && GoodSign(sign) && a + kept == sign + i && |sign| <= 1
    ensures IsMantissa(m)
  {
    if a == "" && sign != "" {
      assert kept == sign + i;
      assert m == "." + (sign + (i + zeros));
      assert Writes(m, sign, [], true, i + zeros);
    } else {
      var n := |a| - |sign|;
      assert a == (sign + i)[..|a|] == sign + i[..n];
      assert kept == (sign + i)[|a|..] == i[n..];
      assert m == sign + i[..n] + ("." + (i[n..] + zeros));
      assert Writes(m, sign, i[..n], true, i[n..] + zeros);
    }
  }

  /** A point in front of the sign is overlooked: .-5 is read as -0.05. */
  lemma SignAfterPoint()
    ensures NewFromString(".-5") == Ok(Fixed(-5, -2))
  {
    hide NewFromString, ParseInt, Split, TrimZeros;
    PointMinusParts();
    MinusFive();
    ReadPlain(".-5");
  }

  lemma PointMinusParts()
    ensures Split(".-5", '.') == ["", "-5"] && TrimZeros("-5") == "-5" && "" + "-5" == "-5"
  {
    hide Split;
    SplitOne("", "-5", '.');
    assert "" + ['.'] + "-5" == ".-5";
  }

  lemma MinusFive()
    ensures ParseInt("-5") == Some(-5)
  {
    var none: seq<Digit> := [];
    assert none + ['5'] == ['5'] && Num(['5']) == 5;
    hide ParseInt, Num;
    ParseSigned("-", ['5']);
    assert "-" + ['5'] == "-5";
  }

  /** The fraction's zeros go before its digits are looked for. */
  lemma PointZero()
    ensures NewFromString(".0") == Error(NotANumber) && NewFromString(".5") == Ok(Fixed(5, -1))
  {
    hide *;
    DigitRead('0');
    DigitRead('5');
    PointMeans();
    assert "." + ['0'] == ".0" && "." + ['5'] == ".5";
  }

  lemma DigitRead(c: Digit)
    ensures NewFromString("." + [c]) == Meant("", [], [c], 0)
  {
    hide *;
    PointDigit(c);
    NumberRead("", [], true, [c], None);
  }

  lemma PointDigit(c: Digit)
    ensures GoodSign("") && Mantissa("", [], true, [c]) + "" == "." + [c]
  {
    assert Mantissa("", [], true, [c]) == "." + [c];
  }

  lemma PointMeans()
    ensures Meant("", [], ['0'], 0) == Error(NotANumber) && Meant("", [], ['5'], 0) == Ok(Fixed(5, -1))
  {
    var none: seq<Digit> := [];
    assert TrimRight(['0']) == [] && TrimRight(['5']) == ['5'];
    assert none + none == [] && none + ['5'] == ['5'] && Num(['5']) == 5;
    hide TrimRight, Num;
  }

  lemma ReadPlain(m: string)
    requires Without(m, 'e') && Without(m, 'E')
    ensures NewFromString(m) == ParseMantissa(m, 0)
  {
    hide ParseMantissa, ParseInt;
    assert IndexE(m) == |m|;
  }

  lemma ReadExponent(s: string, e: nat, x: Int32)
    requires IndexE(s) == e < |s| && ParseInt(s[e + 1..]) == Some(x)
    ensures NewFromString(s) == ParseMantissa(s[..e], x)
  {
    hide ParseMantissa, ParseInt;
  }

  lemma ExponentText(m: string, x: string)
    requires Without(m, 'e') && Without(m, 'E')
    ensures var s := m + ("e" + x);
            IndexE(s) == |m| < |s| && s[..|m|] == m && s[|m| + 1..] == x
  {
    var s := m + ("e" + x);
    assert s[|m|] == 'e' && forall k :: 0 <= k < |m| ==> s[k] == m[k];
  }

  /** The number read is the number written, whatever zeros end it. */
  lemma MeantAmount(sign: string, i: seq<Digit>, f: seq<Digit>, exp: int)
    requires Meant(sign, i, f, exp).Ok?
    ensures Amount(Meant(sign, i, f, exp).number) ==
            Float10(Signed(sign == "-", Num(i + f)), exp - |f|)
  {
    hide *;
    var kept := TrimRight(f);
    var z := |f| - |kept|;
    KeptNum(i, f);
    MeantWith(sign, i, f, exp, kept);
    MadeAmount(Signed(sign == "-", Num(i + kept)), exp - |kept|, i + kept);
    SignedShift(sign == "-", Num(i + kept), z, exp - |f|);
    assert exp - |f| + z == exp - |kept|;
  }

  lemma MadeAmount(n: int, exp: int, digits: seq<Digit>)
    requires MakeFixed(if digits == [] then None else Some(n), exp).Ok?
    ensures Amount(MakeFixed(if digits == [] then None else Some(n), exp).number) == Float10(n, exp)
  {
    hide Float10;
  }

  lemma SignedShift(neg: bool, n: nat, z: nat, e: int)
    ensures Float10(Signed(neg, n), e + z) == Float10(Signed(neg, Mul(n, Pow(10, z))), e)
  {
    Float10Shift(Signed(neg, n), e, z);
    NegTimes(n, Pow(10, z));
    hide Float10, Pow;
  }

  lemma NegTimes(n: int, p: int)
    ensures (-n) * p == -(n * p)
  {
  }

  lemma KeptNum(i: seq<Digit>, f: seq<Digit>)
    ensures var kept := TrimRight(f);
            |kept| <= |f| && Num(i + f) == Mul(Num(i + kept), Pow(10, |f| - |kept|))
  {
    var kept := TrimRight(f);
    var z := f[|kept|..];
    assert f == kept + z;
    assert i + f == (i + kept) + z;
    hide Num, Pow;
    NumTrailingZeros(i + kept, z);
  }

  // The canonical form: no zeros at the end, never a positive exponent.

  function Canon(v: int, e: Int32): Fixed
    decreases if e < 0 then -(e as int) else 0
  {
    if e >= 0 then Fixed(v * Pow(10, e), 0)
    else if v % 10 == 0 then Canon(v / 10, e + 1)
    else Fixed(v, e)
  }

  predicate Canonical(d: Fixed) {
    d.exp <= 0 && (d.exp < 0 ==> d.value % 10 != 0)
  }

  lemma {:induction false} CanonIs(v: int, e: Int32)
    ensures Canonical(Canon(v, e))
    ensures Amount(Canon(v, e)) == Float10(v, e)
    decreases if e < 0 then -(e as int) else 0
  {
    if e >= 0 {
      Float10Shift(v, 0, e);
    } else if v % 10 == 0 {
      CanonIs(v / 10, e + 1);
      Float10Shift(v / 10, e, 1);
      assert Pow(10, 1) == 10;
    }
  }

  lemma CanonUnique(c: Fixed, d: Fixed)
    requires Canonical(c) && Canonical(d) && Amount(c) == Amount(d)
    ensures c == d
  {
    if c.exp <= d.exp {
      CanonOrder(c, d);
    } else {
      CanonOrder(d, c);
    }
  }

  lemma CanonOrder(c: Fixed, d: Fixed)
    requires Canonical(c) && Canonical(d) && Amount(c) == Amount(d) && c.exp <= d.exp
    ensures c == d
  {
    var z := d.exp - c.exp;
    Float10Shift(d.value, c.exp, z);
    assert c.exp + z == d.exp;
    SameValue(c.value, d.value * Pow(10, z), c.exp);
    if z > 0 {
      assert Pow(10, z) == 10 * Pow(10, z - 1);
      TenTimes(d.value, Pow(10, z - 1));
    } else {
      assert d.value * Pow(10, 0) == d.value;
    }
  }

  lemma TenTimes(n: int, p: int)
    ensures (n * (10 * p)) % 10 == 0
  {
    assert n * (10 * p) == 10 * (n * p);
  }

  lemma SameValue(a: int, b: int, e: int)
    requires Float10(a, e) == Float10(b, e)
    ensures a == b
  {
    RPowPositive(10, e);
    hide RPow;
    RMulCancel(a as real, b as real, RPow(10, e));
  }

  /** Ten to the j comes off the value. */
  lemma OneTenMore(w: int, j: nat)
    ensures w * Pow(10, j + 1) == 10 * (w * Pow(10, j))
  {
    assert Pow(10, j + 1) == 10 * Pow(10, j);
    hide Pow;
  }

  lemma CanonTens(n: int, e: Int32)
    requires e < 0
    ensures Canon(10 * n, e) == Canon(n, e + 1)
  {
    assert (10 * n) % 10 == 0 && (10 * n) / 10 == n;
  }

  lemma {:induction false} CanonStrip(w: int, e: Int32, j: nat)
    requires e + j <= 0
    ensures Canon(w * Pow(10, j), e) == Canon(w, e + j)
    decreases j
  {
    if j > 0 {
      hide Pow;
      OneTenMore(w, j - 1);
      CanonTens(w * Pow(10, j - 1), e);
      CanonStrip(w, e + 1, j - 1);
    } else {
      assert w * Pow(10, 0) == w;
    }
  }

  // Printing and reading back.

  lemma PlacesNum(n: nat, k: nat)
    ensures var (i, f) := Places(n, k); i != [] && |f| == k && Num(i + f) == n
  {
    BigTextNum(n);
    var s := BigText(n);
    hide Num, BigText;
    if |s| > k {
      assert s[..|s| - k] + s[|s| - k..] == s;
    } else {
      var z := ['0'] + Zeros(k - |s|);
      assert ['0'] + (Zeros(k - |s|) + s) == z + s;
      LeadingZeros(z, s);
    }
  }

  lemma LeadingZeros(z: seq<Digit>, s: seq<Digit>)
    requires AllZero(z)
    ensures Num(z + s) == Num(s)
  {
    NumConcat(z, s);
    NumZero(z);
    hide Num, Pow;
  }

  lemma LastKept(i: seq<Digit>, kept: seq<Digit>)
    requires kept != [] && kept[|kept| - 1] != '0'
    ensures Num(i + kept) % 10 != 0
  {
    hide Num;
    var n := |kept| - 1;
    assert i + kept == (i + kept[..n]) + [kept[n]];
    NumSnoc(i + kept[..n], kept[n]);
    LastDigit(Num(i + kept[..n]), Val(kept[n]));
  }

  lemma LastDigit(n: nat, c: nat)
    requires 0 < c < 10
    ensures (10 * n + c) % 10 != 0
  {
  }

  lemma NegMod(n: int)
    ensures -n % 10 == 0 <==> n % 10 == 0
  {
  }

  /** Text prints a mantissa. */
  lemma TextForm(d: Fixed, trim: bool)
    requires d.exp < 0
    ensures var (i, f) := Places(Abs(d.value), -(d.exp as int));
            var shown := if trim then TrimRight(f) else f;
            Text(d, trim) == Mantissa(SignText(d.value < 0), i, shown != [], shown)
  {
    hide Places, TrimRight;
  }

  lemma CanonSigned(neg: bool, w: nat, e: Int32, j: nat)
    requires e + j <= 0 && (e + j < 0 ==> w % 10 != 0)
    ensures Canon(Signed(neg, Mul(w, Pow(10, j))), e) == Fixed(Signed(neg, w), e + j)
  {
    var v := Signed(neg, w);
    NegTimes(w, Pow(10, j));
    CanonStrip(v, e, j);
    NegMod(w);
    assert v * 1 == v;
  }

  /** Printing, with or without the zeros at the end, and reading back gives the canonical form of the number. */
  lemma PrintThenRead(d: Fixed, trim: bool)
    ensures NewFromString(Text(d, trim)) == Ok(Canon(d.value, d.exp))
  {
    if d.exp >= 0 {
      var n := Rescale(d, 0).value;
      WholeForm(d, trim);
      BigTextNum(Abs(n));
      NumberRead(SignText(n < 0), BigText(Abs(n)), false, [], None);
      WholeMeant(n);
      assert Mantissa(SignText(n < 0), BigText(Abs(n)), false, []) + "" == IntText(n);
    } else {
      FractionRead(d, trim);
    }
  }

  lemma WholeForm(d: Fixed, trim: bool)
    requires d.exp >= 0
    ensures Text(d, trim) == IntText(Rescale(d, 0).value)
    ensures Canon(d.value, d.exp) == Fixed(Rescale(d, 0).value, 0)
  {
    assert d.value * 1 == d.value;
  }

  lemma WholeMeant(n: int)
    ensures Meant(SignText(n < 0), BigText(Abs(n)), [], 0) == Ok(Fixed(n, 0))
  {
    BigTextNum(Abs(n));
    assert BigText(Abs(n)) + [] == BigText(Abs(n));
    hide BigText, Num;
  }

  lemma FractionRead(d: Fixed, trim: bool)
    requires d.exp < 0
    ensures NewFromString(Text(d, trim)) == Ok(Canon(d.value, d.exp))
  {
    hide *;
    var neg := d.value < 0;
    var (i, f) := Places(Abs(d.value), -(d.exp as int));
    var kept := TrimRight(f);
    var shown := if trim then kept else f;
    PlacesNum(Abs(d.value), -(d.exp as int));
    TextForm(d, trim);
    KeptNum(i, f);
    TrimEnd(f);
    if kept != [] {
      LastKept(i, kept);
    }
    GoodSigns(neg);
    NumberRead(SignText(neg), i, shown != [], shown, None);
    assert Text(d, trim) + "" == Text(d, trim);
    MeantKept(neg, i, shown, kept);
    CanonSigned(neg, Num(i + kept), d.exp, |f| - |kept|);
    SignedAbs(d.value);
    assert d.exp + (|f| - |kept|) == -|kept|;
  }

  lemma GoodSigns(neg: bool)
    ensures GoodSign(SignText(neg))
  {
  }

  lemma SignedAbs(v: int)
    ensures Signed(v < 0, Abs(v)) == v
  {
  }

  lemma TrimEnd(f: seq<Digit>)
    ensures var kept := TrimRight(f);
            TrimRight(kept) == kept && (kept != [] ==> kept[|kept| - 1] != '0')
  {
  }

  lemma MeantKept(neg: bool, i: seq<Digit>, shown: seq<Digit>, kept: seq<Digit>)
    requires i != [] && TrimRight(shown) == kept && |kept| <= 0x8000_0000
    ensures Meant(SignText(neg), i, shown, 0) == Ok(Fixed(Signed(neg, Num(i + kept)), -|kept|))
  {
    hide Num, TrimRight, Signed;
  }

  // Printing again gives the same text.

  lemma RenderTen(m: nat)
    requires m > 0
    ensures BigText(10 * m) == BigText(m) + ['0']
  {
    assert 10 * m / 10 == m && 10 * m % 10 == 0;
  }

  lemma PlacesTen(m: nat, k: nat)
    ensures Places(10 * m, k + 1) == (Places(m, k).0, Places(m, k).1 + ['0'])
  {
    var s := BigText(m);
    if m > 0 {
      RenderTen(m);
      BigTextNum(m);
      hide BigText;
      if |s| > k {
        assert (s + ['0'])[..|s| - k] == s[..|s| - k];
        assert (s + ['0'])[|s| + 1 - (k + 1)..] == s[|s| - k..] + ['0'];
      } else {
        assert Zeros(k - |s|) + (s + ['0']) == Zeros(k - |s|) + s + ['0'];
      }
    } else if k > 0 {
      assert Zeros(k) + ['0'] == Zeros(k - 1) + ['0'] + ['0'];
    } else {
      assert Zeros(0) + ['0'] == ['0'] && s[..1] == s && s[1..] + ['0'] == ['0'];
    }
  }

  lemma TrimSnoc(f: seq<Digit>)
    ensures TrimRight(f + ['0']) == TrimRight(f)
  {
    assert (f + ['0'])[..|f|] == f;
  }

  lemma TenthOf(v: int)
    requires v % 10 == 0
    ensures Abs(v) == 10 * Abs(v / 10) && (v < 0 <==> v / 10 < 0)
  {
  }

  lemma TextStep(v: int, e: Int32)
    requires e < 0 && v % 10 == 0
    ensures Text(Fixed(v, e), true) == Text(Fixed(v / 10, e + 1), true)
  {
    hide *;
    var w := v / 10;
    var m, k := Abs(w), -(e as int) - 1;
    TenthOf(v);
    TextForm(Fixed(v, e), true);
    PlacesTen(m, k);
    TrimSnoc(Places(m, k).1);
    assert -(e as int) == k + 1;
    if e + 1 == 0 {
      WholePlaces(m);
      WholeText(w);
      PointForm(w < 0, BigText(m), []);
    } else {
      TextForm(Fixed(w, e + 1), true);
    }
  }

  lemma PointForm(neg: bool, i: seq<Digit>, f: seq<Digit>)
    ensures Mantissa(SignText(neg), i, f != [], f) == SignText(neg) + i + PointText(f)
  {
  }

  lemma WholeText(w: int)
    ensures Text(Fixed(w, 0), true) == SignText(w < 0) + BigText(Abs(w)) + PointText([])
  {
    assert w * 1 == w;
    hide BigText;
  }

  lemma WholePlaces(m: nat)
    ensures Places(m, 0) == (BigText(m), []) && TrimRight([]) == []
  {
    BigTextNum(m);
    var s := BigText(m);
    hide BigText;
    assert |s| - 0 == |s| && s[..|s|] == s && s[|s|..] == [];
  }

  lemma {:induction false} CanonText(v: int, e: Int32)
    ensures Text(Canon(v, e), true) == Text(Fixed(v, e), true)
    decreases if e < 0 then -(e as int) else 0
  {
    if e >= 0 {
      WholeForm(Fixed(v, e), true);
      WholeForm(Canon(v, e), true);
      assert Canon(v, e).value * 1 == Canon(v, e).value;
      hide IntText;
    } else if v % 10 == 0 {
      hide Text;
      TextStep(v, e);
      CanonText(v / 10, e + 1);
    }
  }

  /** Reading what was printed succeeds, gives an equal number, and that number prints the same trimmed text. */
  lemma RoundTrip(d: Fixed, trim: bool)
    ensures var p := NewFromString(Text(d, trim));
            p.Ok? && Amount(p.number) == Amount(d) && Text(p.number, true) == Text(d, true)
  {
    hide NewFromString, Text, Canon, Float10;
    PrintThenRead(d, trim);
    CanonIs(d.value, d.exp);
    CanonText(d.value, d.exp);
    assert Fixed(d.value, d.exp) == d;
  }

  lemma BigTextStart(n: nat)
    ensures BigText(n) != [] && (|BigText(n)| > 1 ==> BigText(n)[0] != '0')
  {
    if n > 0 {
      NumRender(n);
    }
  }

  /** What is printed: a minus for negative numbers only, digits without superfluous zeros in front, and, exactly if there
      are any, a point and digits, as many as the exponent says or, trimmed, none that are zero at the end. */
  lemma TextShape(d: Fixed, trim: bool) returns (i: seq<Digit>, f: seq<Digit>)
    ensures Text(d, trim) == (if d.value < 0 then "-" else "") + i + (if f == [] then "" else "." + f)
    ensures i != [] && (|i| > 1 ==> i[0] != '0')
    ensures d.exp >= 0 ==> f == []
    ensures d.exp < 0 && !trim ==> |f| == -(d.exp as int)
    ensures d.exp < 0 && trim ==> |f| <= -(d.exp as int) && (f != [] ==> f[|f| - 1] != '0')
  {
    if d.exp >= 0 {
      hide TrimRight, Places;
      var n := Rescale(d, 0).value;
      i, f := BigText(Abs(n)), [];
      BigTextStart(Abs(n));
      TimesTenSign(d.value, d.exp);
      PowPositive(10, d.exp);
      hide BigText, Pow;
      assert i + "" == i;
    } else {
      var k := -(d.exp as int);
      var (whole, fraction) := Places(Abs(d.value), k);
      i, f := whole, fraction;
      BigTextStart(Abs(d.value));
      if trim {
        TrimmedEnd(f);
        f := TrimRight(f);
      }
      hide TrimRight, BigText;
    }
  }

  lemma {:induction false} TrimmedEnd(f: seq<Digit>)
    ensures var t := TrimRight(f); |t| <= |f| && (t != [] ==> t[|t| - 1] != '0')
  {
    if f != [] && f[|f| - 1] == '0' {
      TrimmedEnd(f[..|f| - 1]);
    }
  }

  lemma TimesTenSign(a: int, n: nat)
    ensures a < 0 <==> a * Pow(10, n) < 0
  {
    PowPositive(10, n);
  }

  /** Equal numbers, and only they, print alike, however they are represented. */
  lemma SameTextSameNumber(d: Fixed, d2: Fixed)
    ensures Text(d, true) == Text(d2, true) <==> Amount(d) == Amount(d2)
  {
    hide NewFromString, Text, Canon, Float10;
    PrintThenRead(d, true);
    PrintThenRead(d2, true);
    CanonIs(d.value, d.exp);
    CanonIs(d2.value, d2.exp);
    CanonText(d.value, d.exp);
    CanonText(d2.value, d2.exp);
    assert Fixed(d.value, d.exp) == d && Fixed(d2.value, d2.exp) == d2;
    if Amount(d) == Amount(d2) {
      CanonUnique(Canon(d.value, d.exp), Canon(d2.value, d2.exp));
    }
  }
}
