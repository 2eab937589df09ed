/** The base-58 text of an ID (utils/snowflake/id_worker.go): written backwards and reversed in place, and read back. */
module Base58 {
  import opened Sequences
  import opened Strconv

  /** The alphabet: digits without 0, then lower case without l, then upper case without I and O. */
  function Letter(d: nat): char
    requires d < 58
  {
    if d < 9 then ('1' as int + d) as char
    else if d < 20 then ('a' as int + (d - 9)) as char
    else if d < 34 then ('m' as int + (d - 20)) as char
    else if d < 42 then ('A' as int + (d - 34)) as char
    else if d < 47 then ('J' as int + (d - 42)) as char
    else ('P' as int + (d - 47)) as char
  }

  predicate InAlphabet(c: char) {
    '1' <= c <= '9' || ('a' <= c <= 'z' && c != 'l') || ('A' <= c <= 'Z' && c != 'I' && c != 'O')
  }

  /** The decoding table. Only its first 58 entries are marked invalid before the alphabet is entered; the others start at zero. */
  function Decode(c: char): nat {
    var b := c as int;
    if '1' <= c <= '9' then b - '1' as int
    else if 'a' <= c <= 'k' then b - 'a' as int + 9
    else if 'm' <= c <= 'z' then b - 'm' as int + 20
    else if 'A' <= c <= 'H' then b - 'A' as int + 34
    else if 'J' <= c <= 'N' then b - 'J' as int + 42
    else if 'P' <= c <= 'Z' then b - 'P' as int + 47
    else if b < 58 then 0xFF
    else 0
  }

  lemma DecodeLetter(d: nat)
    requires d < 58
    ensures Decode(Letter(d)) == d && InAlphabet(Letter(d))
  {
  }

  function Text(f: nat): string {
    if f < 58 then [Letter(f)] else Text(f / 58) + [Letter(f % 58)]
  }

  /** Two's complement wrap-around, as int64 arithmetic has it. */
  function Wrap64(x: int): int {
    (x + 0x8000_0000_0000_0000) % 0x1_0000_0000_0000_0000 - 0x8000_0000_0000_0000
  }

  lemma WrapExactly(v: nat)
    ensures Wrap64(v) == v <==> v < 0x8000_0000_0000_0000
  {
  }

  /** Wrapping around early makes no difference. */
  lemma WrapStep(v: int, c: int)
    ensures Wrap64(58 * Wrap64(v) + c) == Wrap64(58 * v + c)
  {
    var k := (v + 0x8000_0000_0000_0000) / 0x1_0000_0000_0000_0000;
    assert Wrap64(v) == v - k * 0x1_0000_0000_0000_0000;
    assert 58 * Wrap64(v) + c == 58 * v + c - (58 * k) * 0x1_0000_0000_0000_0000;
    WrapMultiple(58 * v + c, 58 * k);
  }

  lemma WrapMultiple(x: int, k: int)
    ensures Wrap64(x - k * 0x1_0000_0000_0000_0000) == Wrap64(x)
  {
  }

  /** The number a text writes, before it is held in an int64. */
  function ValueOf(s: string): nat {
    if s == [] then 0 else 58 * ValueOf(s[..|s| - 1]) + Decode(s[|s| - 1])
  }

  predicate Rejected(s: string) {
    exists i :: 0 <= i < |s| && Decode(s[i]) == 0xFF
  }

  method Encode(id: nat) returns (text: string)
    ensures text == Text(id)
  {
    if id < 58 {
      return [Letter(id)];
    }
    var f := id;
    var b: string := [];
    while f >= 58
      invariant Text(id) == Text(f) + Reversed(b)
    {
      ReversedSnoc(b, Letter(f % 58));
      assert Text(f) + Reversed(b) == Text(f / 58) + ([Letter(f % 58)] + Reversed(b));
      b := b + [Letter(f % 58)];
      f := f / 58;
    }
    ReversedSnoc(b, Letter(f));
    b := b + [Letter(f)];
    text := Swap(b);
  }

  /** Reverse by swapping the ends. */
  method Swap(s: string) returns (b: string)
    ensures b == Reversed(s)
  {
    b := s;
    var x, y := 0, |b| - 1;
    while x < y
      invariant |b| == |s| && x + y == |s| - 1 && 0 <= x <= |s|
      invariant forall i :: x <= i <= y ==> b[i] == s[i]
      invariant forall i :: 0 <= i < x || y < i < |s| ==> b[i] == s[|s| - 1 - i]
    {
      var c, d := b[x], b[y];
      b := b[x := d][y := c];
      x, y := x + 1, y - 1;
    }
  }

  method Parse(b: string) returns (id: Option<int>)
    ensures id == if Rejected(b) then None else Some(Wrap64(ValueOf(b)))
  {
    var n: int := 0;
    var i := 0;
    hide Wrap64;
    assert Wrap64(0) == 0 by {
      WrapExactly(0);
    }
    while i < |b|
      invariant 0 <= i <= |b| && n == Wrap64(ValueOf(b[..i]))
      invariant forall k :: 0 <= k < i ==> Decode(b[k]) != 0xFF
    {
      if Decode(b[i]) == 0xFF {
        return None;
      }
      assert b[..i + 1][..i] == b[..i];
      WrapStep(ValueOf(b[..i]), Decode(b[i]));
      n := Wrap64(n * 58 + Decode(b[i]));
      i := i + 1;
    }
    assert b[..i] == b;
    id := Some(n);
  }

  /** What Parse makes of the text of an ID is the ID, for every int64 there is. */
  lemma ReadBack(f: nat)
    requires f < 0x8000_0000_0000_0000
    ensures !Rejected(Text(f)) && Wrap64(ValueOf(Text(f))) == f
  {
    RoundTrip(f);
    WrapExactly(f);
  }

  /** The number is read back from its text. */
  lemma {:induction false} RoundTrip(f: nat)
    ensures ValueOf(Text(f)) == f && !Rejected(Text(f))
    ensures forall i :: 0 <= i < |Text(f)| ==> InAlphabet(Text(f)[i])
  {
    DecodeLetter(f % 58);
    if f < 58 {
      assert Text(f)[..0] == [];
    } else {
      RoundTrip(f / 58);
      var s := Text(f / 58);
      assert Text(f)[..|s|] == s;
      assert forall i :: 0 <= i < |s| ==> Text(f)[i] == s[i];
      hide Decode, Letter, InAlphabet;
    }
  }

  /** Rejected exactly for a character below ':' that is not 1 to 9: other characters outside the alphabet pass as zero. */
  lemma RejectedExactly(s: string)
    ensures Rejected(s) <==> exists i :: 0 <= i < |s| && s[i] < ':' && !InAlphabet(s[i])
    ensures forall i :: 0 <= i < |s| && s[i] >= ':' && !InAlphabet(s[i]) ==> Decode(s[i]) == 0
  {
    if Rejected(s) {
      var i :| 0 <= i < |s| && Decode(s[i]) == 0xFF;
      assert s[i] < ':' && !InAlphabet(s[i]);
    }
    if exists i :: 0 <= i < |s| && s[i] < ':' && !InAlphabet(s[i]) {
      var i :| 0 <= i < |s| && s[i] < ':' && !InAlphabet(s[i]);
      assert Decode(s[i]) == 0xFF;
    }
  }

  /** A colon passes for the zero that is written 1. */
  lemma ColonPasses()
    ensures !InAlphabet(':') && !Rejected("2:") && ValueOf("2:") == ValueOf("21") == 58
  {
    assert "2:"[..1] == "2" && "21"[..1] == "2" && "2"[..0] == "";
  }
}
