/** Reading and writing integers, and splitting text: the pieces of Go's strconv and strings that parsers here use. */
module Strconv {
  import opened Digits

  datatype Option<T> = None | Some(value: T)

  function Abs(n: int): nat {
    if n < 0 then -n else n
  }

  predicate AllDigits(s: string) {
    forall i :: 0 <= i < |s| ==> '0' <= s[i] <= '9'
  }

  function AsDigits(s: string): (t: seq<Digit>)
    requires AllDigits(s)
    ensures t == s
  {
    seq(|s|, i requires 0 <= i < |s| => s[i])
  }

  function Signed(negative: bool, n: nat): int {
    if negative then -(n as int) else n
  }

  predicate IsSign(c: char) {
    c == '-' || c == '+'
  }

  /** An optional sign and at least one digit. */
  function ParseInt(s: string): Option<int> {
    var t := if s != [] && IsSign(s[0]) then s[1..] else s;
    if t == [] || !AllDigits(t) then None
    else Some(Signed(s[0] == '-', Num(AsDigits(t))))
  }

  function IndexOf(s: string, c: char): (i: nat)
    ensures i <= |s|
    ensures forall j :: 0 <= j < i ==> s[j] != c
    ensures i < |s| ==> s[i] == c
  {
    if s == [] || s[0] == c then 0 else 1 + IndexOf(s[1..], c)
  }

  function Split(s: string, c: char): (parts: seq<string>)
    ensures parts != []
    decreases |s|
  {
    var i := IndexOf(s, c);
    if i == |s| then [s] else [s[..i]] + Split(s[i + 1..], c)
  }

  /** The digits of a natural number; zero has one. */
  function BigText(n: nat): seq<Digit> {
    if n == 0 then ['0'] else Render(n)
  }

  function SignText(negative: bool): string {
    if negative then "-" else ""
  }

  function IntText(n: int): string {
    SignText(n < 0) + BigText(Abs(n))
  }

  predicate Without(s: string, c: char) {
    forall i :: 0 <= i < |s| ==> s[i] != c
  }

  lemma SplitNone(s: string, c: char)
    requires Without(s, c)
    ensures Split(s, c) == [s]
  {
  }

  lemma SplitOne(s: string, t: string, c: char)
    requires Without(s, c) && Without(t, c)
    ensures Split(s + [c] + t, c) == [s, t]
  {
    var u := s + [c] + t;
    var i := IndexOf(u, c);
    assert u[|s|] == c && forall k :: 0 <= k < |s| ==> u[k] == s[k];
    assert i == |s|;
    assert u[..i] == s && u[i + 1..] == t;
    SplitNone(t, c);
  }

  /** One piece is the whole text, two are what stands on either side of the only c. */
  lemma SplitJoins(s: string, c: char)
    ensures var parts := Split(s, c);
            && (|parts| == 1 ==> parts[0] == s)
            && (|parts| == 2 ==> s == parts[0] + [c] + parts[1])
  {
    var i := IndexOf(s, c);
    if i < |s| {
      assert s == s[..i] + [c] + s[i + 1..];
      var j := IndexOf(s[i + 1..], c);
    }
  }

  lemma ParseSigned(sign: string, s: seq<Digit>)
    requires sign == "" || sign == "-" || sign == "+"
    ensures ParseInt(sign + s) == if s == [] then None else Some(Signed(sign == "-", Num(s)))
  {
    var t := sign + s;
    DigitsAreDigits(s);
    if sign == "" {
      assert t == s;
      hide Num, AsDigits, AllDigits;
    } else {
      assert t[1..] == s && t[0] == sign[0] && (sign[0] == '-' <==> sign == "-");
      hide Num, AsDigits, AllDigits;
    }
  }

  lemma DigitsAreDigits(s: seq<Digit>)
    ensures AllDigits(s) && AsDigits(s) == s
    ensures s != [] ==> !IsSign(s[0])
  {
  }

  lemma BigTextNum(n: nat)
    ensures BigText(n) != [] && Num(BigText(n)) == n
  {
    if n > 0 {
      NumRender(n);
    } else {
      NumSnoc([], '0');
      assert [] + ['0'] == ['0'];
    }
  }

  lemma IntTextRead(n: int)
    ensures ParseInt(IntText(n)) == Some(n)
  {
    BigTextNum(Abs(n));
    ParseSigned(SignText(n < 0), BigText(Abs(n)));
    hide ParseInt, BigText;
  }
}
