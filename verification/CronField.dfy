/** Compiling one field of a cron expression to a bit mask (job/parser.go). */
module CronField {
  import opened Powers
  import opened Digits
  import opened Strconv
  import opened CronMask

  /** Go's uint on a 64-bit platform. */
  type Uint = x: nat | x < 0x1_0000_0000_0000_0000

  datatype Bounds = Bounds(min: nat, max: nat, names: map<string, nat>)

  const SECONDS := Bounds(0, 59, map[])
  const MINUTES := Bounds(0, 59, map[])
  const HOURS := Bounds(0, 23, map[])
  const DOM := Bounds(1, 31, map[])
  const MONTHS := Bounds(1, 12, map["jan" := 1, "feb" := 2, "mar" := 3, "apr" := 4, "may" := 5, "jun" := 6,
                                    "jul" := 7, "aug" := 8, "sep" := 9, "oct" := 10, "nov" := 11, "dec" := 12])
  const DOW := Bounds(0, 6, map["sun" := 0, "mon" := 1, "tue" := 2, "wed" := 3, "thu" := 4, "fri" := 5, "sat" := 6])

  /** Every field lies below the star bit. */
  predicate FitsMask(r: Bounds) {
    r.min <= r.max < STAR_BIT && forall k :: k in r.names ==> r.names[k] < 0x8000_0000_0000_0000
  }

  datatype FieldError =
    BadNumber | TooManyHyphens | TooManySlashes | BelowMinimum | AboveMaximum | Reversed | ZeroStep

  datatype Compiled = Bits(mask: Mask) | Bad(error: FieldError)

  // The 64-bit operations, on sets of one bits.

  type BitIndex = b: nat | b < 64

  predicate IsBit(b: int) {
    0 <= b < 64
  }

  function All(): Mask {
    set b: BitIndex | IsBit(b) :: b
  }

  predicate LandsOn(m: Mask, n: nat, b: nat) {
    b >= n && b - n in m
  }

  function Shl(m: Mask, n: nat): Mask {
    set b: BitIndex | LandsOn(m, n, b) :: b
  }

  function Not(m: Mask): Mask {
    set b: BitIndex | b !in m :: b
  }

  /** lo, lo + step, lo + 2 * step, ... */
  predicate OnStep(lo: nat, step: nat, i: nat)
    requires step > 0
  {
    i >= lo && (i - lo) % step == 0
  }

  /** The values lo, lo + step, ... up to hi. */
  function Spread(lo: nat, hi: nat, step: nat): set<nat>
    requires step > 0
  {
    set i: nat | i <= hi && OnStep(lo, step, i)
  }

  lemma NothingBetween(lo: nat, step: nat, i: nat, j: nat)
    requires step > 0 && OnStep(lo, step, i) && i <= j < i + step
    ensures OnStep(lo, step, j) <==> i == j
  {
    if OnStep(lo, step, j) {
      var a, b := (i - lo) / step, (j - lo) / step;
      ModUnique(i - lo, step, a);
      ModUnique(j - lo, step, b);
      MinusTimes(step, b, a);
      SmallMultiple(step, b - a);
    }
  }

  lemma NextOnStep(lo: nat, step: nat, i: nat)
    requires step > 0 && OnStep(lo, step, i)
    ensures OnStep(lo, step, i + step)
  {
    var a := (i - lo) / step;
    ModUnique(i - lo, step, a);
    MinusTimes(step, a, 0);
    ModUnique(i + step - lo, step, a + 1);
  }

  /** min, and what is a multiple of step above it, up to max. */
  method GetBits(min: Uint, max: Uint, step: Uint) returns (bits: Mask)
    requires max < 64 && 0 < step < 0x8000_0000_0000_0000
    ensures bits == Spread(min, max, step)
  {
    // two shifts do for a step of one
    if step == 1 {
      OneByOne(min, max);
      return Not(Shl(All(), max + 1)) * Shl(All(), min);
    }
    bits := {};
    var i := min;
    hide OnStep;
    FirstOnStep(min, step);
    while i <= max
      invariant OnStep(min, step, i)
      invariant bits == set j: nat | j <= max && j < i && OnStep(min, step, j)
      decreases max + 1 - i
    {
      forall j: nat | i <= j < i + step
        ensures OnStep(min, step, j) <==> i == j
      {
        NothingBetween(min, step, i, j);
      }
      NextOnStep(min, step, i);
      bits := bits + {i};
      i := i + step;
    }
  }

  lemma FirstOnStep(lo: nat, step: nat)
    requires step > 0
    ensures OnStep(lo, step, lo)
    ensures forall j: nat :: j < lo ==> !OnStep(lo, step, j)
  {
    ModUnique(0, step, 0);
  }

  /** The shifts give what the loop would. */
  lemma OneByOne(min: nat, max: nat)
    requires max < 64
    ensures Not(Shl(All(), max + 1)) * Shl(All(), min) == Spread(min, max, 1)
  {
    var low, high := Not(Shl(All(), max + 1)), Shl(All(), min);
    forall b: BitIndex
      ensures b in low <==> b <= max
      ensures b in high <==> b >= min
    {
      assert b >= max + 1 ==> IsBit(b - (max + 1));
      assert b >= min ==> IsBit(b - min);
      assert LandsOn(All(), max + 1, b) <==> b > max;
      assert LandsOn(All(), min, b) <==> b >= min;
      assert b in Shl(All(), max + 1) <==> b > max;
    }
    forall b: nat
      ensures OnStep(min, 1, b) <==> b >= min
    {
    }
    var both := low * high;
    forall b: nat
      ensures b in both <==> b in Spread(min, max, 1)
    {
    }
  }

  // Reading one comma part.

  function Lower(s: string): string {
    seq(|s|, i requires 0 <= i < |s| => if 'A' <= s[i] <= 'Z' then (s[i] as int + 32) as char else s[i])
  }

  /** A non-negative int64. */
  function MustParseInt(expr: string): (n: Option<Uint>)
    ensures n.Some? ==> n.value < 0x8000_0000_0000_0000
  {
    var n := ParseInt(expr);
    if n.Some? && 0 <= n.value < 0x8000_0000_0000_0000 then Some(n.value) else None
  }

  function ParseIntOrName(expr: string, names: map<string, nat>): (n: Option<Uint>)
    requires forall k :: k in names ==> names[k] < 0x8000_0000_0000_0000
    ensures n.Some? ==> n.value < 0x8000_0000_0000_0000
  {
    if Lower(expr) in names then Some(names[Lower(expr)]) else MustParseInt(expr)
  }

  /** What a part denotes. */
  datatype Span = Span(lo: nat, hi: nat, step: nat, star: bool) | Wrong(error: FieldError)

  /** The range and step a part names, before any limits are checked. */
  function RangeOf(expr: string, r: Bounds): Span
    requires FitsMask(r)
  {
    var rangeAndStep := Split(expr, '/');
    RangeFrom(rangeAndStep, Split(rangeAndStep[0], '-'), r)
  }

  function RangeFrom(rangeAndStep: seq<string>, lowAndHigh: seq<string>, r: Bounds): Span
    requires FitsMask(r) && rangeAndStep != [] && lowAndHigh != []
  {
    var any := lowAndHigh[0] == "*" || lowAndHigh[0] == "?";
    var low := ParseIntOrName(lowAndHigh[0], r.names);
    var high := if |lowAndHigh| == 2 then ParseIntOrName(lowAndHigh[1], r.names) else low;
    var step := if |rangeAndStep| == 2 then MustParseInt(rangeAndStep[1]) else Some(1);
    if !any && low.None? then Wrong(BadNumber)
    else if !any && |lowAndHigh| > 2 then Wrong(TooManyHyphens)
    else if !any && high.None? then Wrong(BadNumber)
    else if |rangeAndStep| > 2 then Wrong(TooManySlashes)
    else if step.None? then Wrong(BadNumber)
    else
      var lo := if any then r.min else low.value;
      // a single number with a step runs up to the maximum
      var hi := if any || (|rangeAndStep| == 2 && |lowAndHigh| == 1) then r.max else high.value;
      Span(lo, hi, step.value, any && step.value <= 1)
  }

  /** The limits every part must respect. */
  function Checked(p: Span, r: Bounds): Span {
    if p.Wrong? then p
    else if p.lo < r.min then Wrong(BelowMinimum)
    else if p.hi > r.max then Wrong(AboveMaximum)
    else if p.lo > p.hi then Wrong(Reversed)
    else if p.step == 0 then Wrong(ZeroStep)
    else p
  }

  function Denoted(expr: string, r: Bounds): (p: Span)
    requires FitsMask(r)
    ensures p.Span? ==> r.min <= p.lo <= p.hi <= r.max && p.step > 0
  {
    Checked(RangeOf(expr, r), r)
  }

  function MaskOf(p: Span): set<nat>
    requires p.Span? && p.step > 0
  {
    Spread(p.lo, p.hi, p.step) + if p.star then {STAR_BIT} else {}
  }

  method GetRange(expr: string, r: Bounds) returns (c: Compiled)
    requires FitsMask(r)
    ensures Denoted(expr, r).Wrong? ==> c == Bad(Denoted(expr, r).error)
    ensures Denoted(expr, r).Span? ==> c.Bits? && c.mask == MaskOf(Denoted(expr, r))
  {
    hide Lower, MustParseInt, ParseIntOrName, Split, Spread;
    var rangeAndStep := Split(expr, '/');
    var lowAndHigh := Split(rangeAndStep[0], '-');
    var singleDigit := |lowAndHigh| == 1;
    var start: Uint, end: Uint, star;
    if lowAndHigh[0] == "*" || lowAndHigh[0] == "?" {
      start, end, star := r.min, r.max, true;
    } else {
      var low := ParseIntOrName(lowAndHigh[0], r.names);
      if low.None? {
        return Bad(BadNumber);
      }
      start, end, star := low.value, low.value, false;
      if |lowAndHigh| == 2 {
        var high := ParseIntOrName(lowAndHigh[1], r.names);
        if high.None? {
          return Bad(BadNumber);
        }
        end := high.value;
      } else if |lowAndHigh| > 2 {
        return Bad(TooManyHyphens);
      }
    }
    var step: Uint := 1;
    if |rangeAndStep| == 2 {
      var n := MustParseInt(rangeAndStep[1]);
      if n.None? {
        return Bad(BadNumber);
      }
      step := n.value;
      if singleDigit {
        end := r.max; // a single number with a step runs up to the maximum
      }
      if step > 1 {
        star := false;
      }
    } else if |rangeAndStep| > 2 {
      return Bad(TooManySlashes);
    }
    assert RangeOf(expr, r) == Span(start, end, step, star && step <= 1);
    c := Limited(start, end, step, star, r);
  }

  /** The checks of the limits, and the bits. */
  method Limited(start: Uint, end: Uint, step: Uint, star: bool, r: Bounds) returns (c: Compiled)
    requires FitsMask(r) && step < 0x8000_0000_0000_0000 && (star ==> step <= 1)
    ensures var p := Checked(Span(start, end, step, star), r);
            && (p.Wrong? ==> c == Bad(p.error))
            && (p.Span? ==> c.Bits? && c.mask == MaskOf(p))
  {
    hide Spread;
    if start < r.min {
      return Bad(BelowMinimum);
    }
    if end > r.max {
      return Bad(AboveMaximum);
    }
    if start > end {
      return Bad(Reversed);
    }
    if step == 0 {
      return Bad(ZeroStep);
    }
    var bits := GetBits(start, end, step);
    c := Bits(bits + if star then {STAR_BIT} else {});
  }

  // The whole field.

  /** The parts between the commas, empty ones dropped. */
  function Parts(field: string): seq<string> {
    NonEmpty(Split(field, ','))
  }

  function NonEmpty(s: seq<string>): seq<string> {
    if s == [] then [] else (if s[0] == "" then [] else [s[0]]) + NonEmpty(s[1..])
  }

  /** Part expr puts value i into the field. */
  ghost predicate Denotes(expr: string, r: Bounds, i: nat)
    requires FitsMask(r)
  {
    var p := Denoted(expr, r);
    && p.Span?
    && ((p.lo <= i <= p.hi && (i - p.lo) % p.step == 0) || (p.star && i == STAR_BIT))
  }

  ghost predicate AllGood(parts: seq<string>, r: Bounds)
    requires FitsMask(r)
  {
    forall k :: 0 <= k < |parts| ==> Denoted(parts[k], r).Span?
  }

  ghost function Union(parts: seq<string>, r: Bounds): set<nat>
    requires FitsMask(r) && AllGood(parts, r)
  {
    if parts == [] then {}
    else
      var rest := parts[..|parts| - 1];
      Union(rest, r) + MaskOf(Denoted(parts[|parts| - 1], r))
  }

  ghost predicate AnyDenotes(parts: seq<string>, r: Bounds, i: nat)
    requires FitsMask(r)
  {
    exists k :: 0 <= k < |parts| && Denotes(parts[k], r, i)
  }

  lemma AnySnoc(parts: seq<string>, last: string, r: Bounds, i: nat)
    requires FitsMask(r)
    ensures AnyDenotes(parts + [last], r, i) <==> AnyDenotes(parts, r, i) || Denotes(last, r, i)
  {
    hide Denotes, FitsMask;
    var all := parts + [last];
    if Denotes(last, r, i) {
      assert all[|parts|] == last;
    }
    if AnyDenotes(parts, r, i) {
      var k :| 0 <= k < |parts| && Denotes(parts[k], r, i);
      assert all[k] == parts[k];
    }
  }

  lemma GoodSnoc(parts: seq<string>, last: string, r: Bounds)
    requires FitsMask(r)
    ensures AllGood(parts + [last], r) <==> AllGood(parts, r) && Denoted(last, r).Span?
  {
    hide Denoted, FitsMask;
    var all := parts + [last];
    assert all[|parts|] == last && forall k :: 0 <= k < |parts| ==> all[k] == parts[k];
  }

  lemma UnionSnoc(parts: seq<string>, last: string, r: Bounds)
    requires FitsMask(r) && AllGood(parts, r) && AllGood(parts + [last], r) && Denoted(last, r).Span?
    ensures Union(parts + [last], r) == Union(parts, r) + MaskOf(Denoted(last, r))
  {
    hide Denoted, FitsMask, MaskOf, AllGood;
    assert (parts + [last])[..|parts|] == parts;
  }

  lemma {:induction false} UnionDenotes(parts: seq<string>, r: Bounds, i: nat)
    requires FitsMask(r) && AllGood(parts, r)
    ensures i in Union(parts, r) <==> AnyDenotes(parts, r, i)
    ensures i in Union(parts, r) && i != STAR_BIT ==> r.min <= i <= r.max
  {
    if parts != [] {
      hide *;
      var rest, last := parts[..|parts| - 1], parts[|parts| - 1];
      assert parts == rest + [last];
      GoodSnoc(rest, last, r);
      UnionSnoc(rest, last, r);
      UnionDenotes(rest, r, i);
      AnySnoc(rest, last, r, i);
      MaskDenotes(last, r, i);
    }
  }

  /** The mask of a field has exactly the bits its parts denote; the first bad part is reported. */
  method GetField(field: string, r: Bounds) returns (c: Compiled)
    requires FitsMask(r)
    ensures c.Bits? <==> AllGood(Parts(field), r)
    ensures c.Bits? ==> forall i: nat :: i in c.mask <==> AnyDenotes(Parts(field), r, i)
    ensures c.Bits? ==> forall i: nat :: i in c.mask && i != STAR_BIT ==> r.min <= i <= r.max
    ensures c.Bad? ==> exists k :: 0 <= k < |Parts(field)| && Denoted(Parts(field)[k], r) == Wrong(c.error)
                                   && forall j :: 0 <= j < k ==> Denoted(Parts(field)[j], r).Span?
  {
    var ranges := Parts(field);
    c := Collect(ranges, r);
    if c.Bits? {
      forall i: nat
        ensures i in c.mask <==> AnyDenotes(ranges, r, i)
        ensures i in c.mask && i != STAR_BIT ==> r.min <= i <= r.max
      {
        UnionDenotes(ranges, r, i);
      }
    }
  }

  /** Add up the bits of all parts. */
  method Collect(ranges: seq<string>, r: Bounds) returns (c: Compiled)
    requires FitsMask(r)
    ensures c.Bits? <==> AllGood(ranges, r)
    ensures c.Bits? ==> c.mask == Union(ranges, r)
    ensures c.Bad? ==> exists k :: 0 <= k < |ranges| && Denoted(ranges[k], r) == Wrong(c.error)
                                   && forall j :: 0 <= j < k ==> Denoted(ranges[j], r).Span?
  {
    var bits: Mask := {};
    assert AllGood(ranges[..0], r) && Union(ranges[..0], r) == {};
    hide Denoted, MaskOf, Union, FitsMask;
    var n := 0;
    while n < |ranges|
      invariant 0 <= n <= |ranges|
      invariant AllGood(ranges[..n], r) && bits == Union(ranges[..n], r)
    {
      var expr := ranges[n];
      var bit := GetRange(expr, r);
      if bit.Bad? {
        assert forall j :: 0 <= j < n ==> ranges[..n][j] == ranges[j];
        return bit;
      }
      assert ranges[..n + 1] == ranges[..n] + [expr];
      GoodSnoc(ranges[..n], expr, r);
      UnionSnoc(ranges[..n], expr, r);
      bits := bits + bit.mask;
      n := n + 1;
    }
    assert ranges[..n] == ranges;
    c := Bits(bits);
  }

  lemma MaskDenotes(expr: string, r: Bounds, i: nat)
    requires FitsMask(r) && Denoted(expr, r).Span?
    ensures i in MaskOf(Denoted(expr, r)) <==> Denotes(expr, r, i)
    ensures i in MaskOf(Denoted(expr, r)) && i != STAR_BIT ==> r.min <= i <= r.max
  {
    hide RangeOf;
    var p := Denoted(expr, r);
    hide Denoted;
    assert i in Spread(p.lo, p.hi, p.step) <==> i <= p.hi && OnStep(p.lo, p.step, i);
  }

  // The grammar of a part: number | number "-" number [ "/" number ], a star for all.

  datatype Atom = Number(n: nat) | Name(name: string)

  datatype Part = Part(low: Option<Atom>, question: bool, high: Option<Atom>, step: Option<nat>)

  function AtomText(a: Atom): string {
    if a.Number? then BigText(a.n) else a.name
  }

  function PartText(p: Part): string {
    (if p.low.Some? then AtomText(p.low.value) else if p.question then "?" else "*")
    + (if p.high.Some? then "-" + AtomText(p.high.value) else "")
    + (if p.step.Some? then "/" + BigText(p.step.value) else "")
  }

  predicate Letters(s: string) {
    s != [] && forall i :: 0 <= i < |s| ==> 'A' <= s[i] <= 'Z' || 'a' <= s[i] <= 'z'
  }

  predicate GoodAtom(a: Atom, r: Bounds) {
    if a.Number? then a.n < 0x8000_0000_0000_0000 else Letters(a.name) && Lower(a.name) in r.names
  }

  predicate GoodPart(p: Part, r: Bounds) {
    && (p.low.Some? ==> GoodAtom(p.low.value, r))
    && (p.high.Some? ==> GoodAtom(p.high.value, r))
    && (p.step.Some? ==> p.step.value < 0x8000_0000_0000_0000)
  }

  predicate WellNamed(r: Bounds) {
    FitsMask(r) && forall k :: k in r.names ==> Letters(k)
  }

  function AtomValue(a: Atom, r: Bounds): nat
    requires GoodAtom(a, r)
  {
    if a.Number? then a.n else r.names[Lower(a.name)]
  }

  /** What a part means. */
  function PartMeaning(p: Part, r: Bounds): Span
    requires GoodPart(p, r)
  {
    var lo := if p.low.Some? then AtomValue(p.low.value, r) else r.min;
    var hi := if p.low.None? then r.max
              else if p.high.Some? then AtomValue(p.high.value, r)
              else if p.step.Some? then r.max
              else lo;
    var step := if p.step.Some? then p.step.value else 1;
    Span(lo, hi, step, p.low.None? && step <= 1)
  }

  lemma FieldsWellNamed()
    ensures WellNamed(SECONDS) && WellNamed(MINUTES) && WellNamed(HOURS)
    ensures WellNamed(DOM) && WellNamed(MONTHS) && WellNamed(DOW)
  {
    MonthsWellNamed();
    DaysWellNamed();
    hide WellNamed;
    PlainWellNamed(SECONDS);
    PlainWellNamed(MINUTES);
    PlainWellNamed(HOURS);
    PlainWellNamed(DOM);
  }

  lemma PlainWellNamed(r: Bounds)
    requires r.names == map[] && r.min <= r.max < STAR_BIT
    ensures WellNamed(r)
  {
  }

  lemma MonthsWellNamed()
    ensures WellNamed(MONTHS)
  {
  }

  lemma DaysWellNamed()
    ensures WellNamed(DOW)
  {
  }

  lemma AtomPlain(a: Atom, r: Bounds)
    requires GoodAtom(a, r)
    ensures Without(AtomText(a), '-') && Without(AtomText(a), '/')
    ensures AtomText(a) != "*" && AtomText(a) != "?"
  {
    hide BigText, Lower;
    if a.Number? {
      DigitsPlain(BigText(a.n));
    } else {
      assert 'A' <= a.name[0];
    }
  }

  lemma DigitsPlain(s: seq<Digit>)
    ensures Without(s, '-') && Without(s, '/') && s != "*" && s != "?" && !Letters(s)
    ensures Lower(s) == s
  {
    if s != [] {
      assert s[0] <= '9' && s[0] != '*' && s[0] != '?';
    }
  }

  lemma NumberRead(n: nat)
    requires n < 0x8000_0000_0000_0000
    ensures MustParseInt(BigText(n)) == Some(n)
  {
    IntTextRead(n);
    assert IntText(n) == BigText(n) by { assert "" + BigText(n) == BigText(n); }
    hide ParseInt, BigText;
  }

  lemma AtomRead(a: Atom, r: Bounds)
    requires WellNamed(r) && GoodAtom(a, r)
    ensures ParseIntOrName(AtomText(a), r.names) == Some(AtomValue(a, r))
  {
    hide BigText, MustParseInt, Lower;
    if a.Number? {
      DigitsPlain(BigText(a.n));
      NumberRead(a.n);
    }
  }

  /** A text with or without a second part after c. */
  function Parted(first: string, c: char, second: Option<string>): string {
    first + if second.Some? then [c] + second.value else ""
  }

  lemma SplitParted(first: string, c: char, second: Option<string>)
    requires Without(first, c) && (second.Some? ==> Without(second.value, c))
    ensures Split(Parted(first, c, second), c) == if second.Some? then [first, second.value] else [first]
  {
    if second.Some? {
      PartedTwo(first, c, second.value);
      hide *;
      SplitOne(first, second.value, c);
    } else {
      assert first + "" == first;
      hide *;
      SplitNone(first, c);
    }
  }

  lemma PartedTwo(first: string, c: char, second: string)
    ensures Parted(first, c, Some(second)) == first + [c] + second
  {
  }

  lemma LowPlain(p: Part, r: Bounds, low: string)
    requires GoodPart(p, r)
    requires low == if p.low.Some? then AtomText(p.low.value) else if p.question then "?" else "*"
    ensures Without(low, '-') && Without(low, '/')
    ensures p.low.None? <==> low == "*" || low == "?"
  {
    hide AtomText, GoodAtom;
    if p.low.Some? {
      AtomPlain(p.low.value, r);
    }
  }

  lemma BasePlain(low: string, high: Option<string>)
    requires Without(low, '/') && (high.Some? ==> Without(high.value, '/'))
    ensures Without(Parted(low, '-', high), '/')
  {
  }

  /** A part written by the grammar is read as what it means. */
  lemma PartRead(p: Part, r: Bounds)
    requires WellNamed(r) && GoodPart(p, r)
    ensures RangeOf(PartText(p), r) == PartMeaning(p, r)
  {
    var low := if p.low.Some? then AtomText(p.low.value) else if p.question then "?" else "*";
    var high: Option<string> := if p.high.Some? then Some(AtomText(p.high.value)) else None;
    var step: Option<string> := if p.step.Some? then Some(BigText(p.step.value)) else None;
    var base := Parted(low, '-', high);
    assert PartText(p) == Parted(base, '/', step);
    hide *;
    LowPlain(p, r, low);
    GoodParts(p, r);
    if p.high.Some? {
      AtomPlain(p.high.value, r);
      AtomRead(p.high.value, r);
    }
    if p.low.Some? {
      AtomRead(p.low.value, r);
    }
    if p.step.Some? {
      NumberRead(p.step.value);
      DigitsPlain(BigText(p.step.value));
    }
    BasePlain(low, high);
    SplitParted(low, '-', high);
    SplitParted(base, '/', step);
    var rs := if step.Some? then [base, step.value] else [base];
    var lh := if high.Some? then [low, high.value] else [low];
    RangeIs(PartText(p), r, rs, lh);
    FromPieces(p, r, rs, lh);
  }

  lemma GoodParts(p: Part, r: Bounds)
    requires GoodPart(p, r)
    ensures p.low.Some? ==> GoodAtom(p.low.value, r)
    ensures p.high.Some? ==> GoodAtom(p.high.value, r)
    ensures p.step.Some? ==> p.step.value < 0x8000_0000_0000_0000
  {
  }

  lemma RangeIs(expr: string, r: Bounds, rs: seq<string>, lh: seq<string>)
    requires WellNamed(r) && Split(expr, '/') == rs && Split(rs[0], '-') == lh
    ensures FitsMask(r) && RangeOf(expr, r) == RangeFrom(rs, lh, r)
  {
    hide RangeFrom, Split, FitsMask;
  }

  lemma FromPieces(p: Part, r: Bounds, rs: seq<string>, lh: seq<string>)
    requires WellNamed(r) && FitsMask(r) && GoodPart(p, r)
    requires |rs| == (if p.step.Some? then 2 else 1) && |lh| == (if p.high.Some? then 2 else 1)
    requires p.low.None? <==> lh[0] == "*" || lh[0] == "?"
    requires p.low.Some? ==> ParseIntOrName(lh[0], r.names) == Some(AtomValue(p.low.value, r))
    requires p.high.Some? ==> ParseIntOrName(lh[1], r.names) == Some(AtomValue(p.high.value, r))
    requires p.step.Some? ==> MustParseInt(rs[1]) == Some(p.step.value)
    ensures RangeFrom(rs, lh, r) == PartMeaning(p, r)
  {
    hide ParseIntOrName, MustParseInt, AtomValue, GoodAtom, WellNamed, FitsMask;
  }
}
