/** From the text of a cron expression to a schedule (Parse in job/parser.go), and what the schedule says about the text. */
module CronParse {
  import opened Calendar
  import opened CronField
  import opened CronMask
  import opened CronNext
  import opened CronSpec
  import opened Strconv

  datatype Refusal = EmptyText | UnknownZone | NoDescriptors | WrongFields | BadField(error: FieldError)

  /** Named is a descriptor, whose own text says what it means; Crashed is a slice out of range. */
  datatype Outcome = Refused(why: Refusal) | Parsed(schedule: Schedule) | Named(descriptor: string) | Crashed

  predicate IsSpace(c: char) {
    c == ' ' || '\t' <= c <= '\r'
  }

  /** The pieces of s between spaces, empty ones dropped; word is the piece begun before s. */
  function Words(s: string, word: string): seq<string> {
    if s == "" then if word == "" then [] else [word]
    else if !IsSpace(s[0]) then Words(s[1..], word + [s[0]])
    else (if word == "" then [] else [word]) + Words(s[1..], "")
  }

  /** What unicode.IsSpace accepts in ASCII. */
  const SPACES := [' ', '\t', '\n', '\U{b}', '\U{c}', '\r']

  predicate AllSpace(s: string) {
    forall i :: 0 <= i < |s| ==> s[i] in SPACES
  }

  predicate NoSpace(s: string) {
    forall i :: 0 <= i < |s| ==> s[i] !in SPACES
  }

  lemma SpacesAre(c: char)
    ensures IsSpace(c) <==> c in SPACES
  {
  }

  lemma {:induction false} SpacesSkipped(gap: string, s: string)
    requires AllSpace(gap)
    ensures Words(gap + s, "") == Words(s, "")
  {
    if gap == "" {
      assert gap + s == s;
    } else {
      SpacesAre(gap[0]);
      assert (gap + s)[1..] == gap[1..] + s;
      SpacesSkipped(gap[1..], s);
    }
  }

  lemma {:induction false} WordTaken(w: string, s: string, word: string)
    requires NoSpace(w) && (s == "" || s[0] in SPACES)
    ensures Words(w + s, word) == (if word + w == "" then [] else [word + w]) + Words(s, "")
  {
    if w == "" {
      assert w + s == s && word + w == word;
      if s != "" {
        SpacesAre(s[0]);
        assert Words(s, "") == [] + Words(s[1..], "");
      }
    } else {
      SpacesAre(w[0]);
      assert (w + s)[1..] == w[1..] + s;
      assert (word + [w[0]]) + w[1..] == word + w;
      WordTaken(w[1..], s, word + [w[0]]);
    }
  }

  /** Words written one after the other with gaps between them. */
  function Written(words: seq<string>, gaps: seq<string>): string
    requires |words| == |gaps|
  {
    if words == [] then "" else gaps[0] + (words[0] + Written(words[1..], gaps[1..]))
  }

  /** However words are spaced they are read back, each one and in order. */
  lemma {:induction false} WordsRead(words: seq<string>, gaps: seq<string>, end: string)
    requires |words| == |gaps| && AllSpace(end)
    requires forall i :: 0 <= i < |words| ==> words[i] != "" && NoSpace(words[i]) && AllSpace(gaps[i]) && (i > 0 ==> gaps[i] != "")
    ensures Words(Written(words, gaps) + end, "") == words
  {
    if words == [] {
      SpacesSkipped(end, "");
      assert Written(words, gaps) + end == end + "";
    } else {
      var rest := Written(words[1..], gaps[1..]) + end;
      assert rest == "" || rest[0] in SPACES by {
        if |words| > 1 {
          assert rest[0] == gaps[1][0];
        }
      }
      assert Written(words, gaps) + end == gaps[0] + (words[0] + rest);
      SpacesSkipped(gaps[0], words[0] + rest);
      WordTaken(words[0], rest, "");
      WordsRead(words[1..], gaps[1..], end);
      assert "" + words[0] == words[0];
    }
  }

  /** The fields of the six places: those given where a place is accepted, the defaults elsewhere. */
  ghost predicate Normalised(given: seq<string>, o: Options, fs: seq<string>)
    requires CronSpec.WellFormed(o)
  {
    && |fs| == 6 && Pick(fs, Accepted(o)) == Supplied(given, o)
    && forall i :: 0 <= i < 6 && !Accepted(o)[i] ==> fs[i] == DEFAULTS[i]
  }

  lemma {:induction false} PickLength(s: seq<string>, t: seq<string>, has: seq<bool>)
    requires |s| == |has| == |t|
    ensures |Pick(s, has)| == |Pick(t, has)|
  {
    if s != [] {
      PickLength(s[..|s| - 1], t[..|t| - 1], has[..|has| - 1]);
    }
  }

  lemma {:induction false} PickSame(s: seq<string>, t: seq<string>, has: seq<bool>, i: nat)
    requires |s| == |has| == |t| && Pick(s, has) == Pick(t, has) && i < |has| && has[i]
    ensures s[i] == t[i]
  {
    var n := |has| - 1;
    var a, b := Pick(s[..n], has[..n]), Pick(t[..n], has[..n]);
    PickLength(s[..n], t[..n], has[..n]);
    if has[n] {
      assert (a + [s[n]])[..|a|] == a && (b + [t[n]])[..|b|] == b && (a + [s[n]])[|a|] == s[n] && (b + [t[n]])[|b|] == t[n];
    } else {
      assert a + [] == a && b + [] == b;
    }
    if i < n {
      PickSame(s[..n], t[..n], has[..n], i);
    }
  }

  /** The fields of the six places are determined. */
  lemma NormalisedUnique(given: seq<string>, o: Options, fs: seq<string>, gs: seq<string>)
    requires CronSpec.WellFormed(o) && Normalised(given, o, fs) && Normalised(given, o, gs)
    ensures fs == gs
  {
    forall i | 0 <= i < 6
      ensures fs[i] == gs[i]
    {
      if Accepted(o)[i] {
        PickSame(fs, gs, Accepted(o), i);
      }
    }
  }

  // What six fields mean.

  function BoundsOf(k: nat): Bounds
    requires k < 6
  {
    [SECONDS, MINUTES, HOURS, DOM, MONTHS, DOW][k]
  }

  lemma BoundsFit()
    ensures forall k :: 0 <= k < 6 ==> FitsMask(BoundsOf(k)) && BoundsOf(k).max < STAR_BIT
  {
    FieldsWellNamed();
  }

  ghost predicate Good(fs: seq<string>, k: nat)
    requires |fs| == 6 && k < 6
  {
    FitsMask(BoundsOf(k)) && AllGood(Parts(fs[k]), BoundsOf(k))
  }

  /** Some part of field k denotes i. */
  ghost predicate Says(fs: seq<string>, k: nat, i: nat)
    requires |fs| == 6 && k < 6
  {
    FitsMask(BoundsOf(k)) && AnyDenotes(Parts(fs[k]), BoundsOf(k), i)
  }

  /** Some part of field k is a star without a step above one. */
  ghost predicate Starred(fs: seq<string>, k: nat)
    requires |fs| == 6 && k < 6
  {
    Says(fs, k, STAR_BIT)
  }

  /** The fields describe the time: each its own component, the two day fields together if one is starred and
      otherwise either of them. */
  ghost predicate Describes(fs: seq<string>, t: Time)
    requires |fs| == 6
  {
    && Says(fs, 0, t.second) && Says(fs, 1, t.minute) && Says(fs, 2, t.hour) && Says(fs, 4, t.month)
    && if Starred(fs, 3) || Starred(fs, 5) then Says(fs, 3, t.day) && Says(fs, 5, Weekday(t))
       else Says(fs, 3, t.day) || Says(fs, 5, Weekday(t))
  }

  /** The error of field k: that of its first bad part. */
  ghost predicate FieldFails(fs: seq<string>, k: nat, e: FieldError)
    requires |fs| == 6 && k < 6
  {
    var (parts, r) := (Parts(fs[k]), BoundsOf(k));
    FitsMask(r) && exists j :: 0 <= j < |parts| && Denoted(parts[j], r) == Wrong(e)
                               && forall i :: 0 <= i < j ==> Denoted(parts[i], r).Span?
  }

  method CompileField(fs: seq<string>, k: nat) returns (c: Compiled)
    requires |fs| == 6 && k < 6
    ensures c.Bits? <==> Good(fs, k)
    ensures c.Bits? ==> forall i: nat :: i in c.mask <==> Says(fs, k, i)
    ensures c.Bad? ==> FieldFails(fs, k, c.error)
  {
    BoundsFit();
    hide AllGood, AnyDenotes, Denoted, Parts, FitsMask;
    c := GetField(fs[k], BoundsOf(k));
  }

  /** Mask m holds what field k says. */
  ghost predicate Holds(m: Mask, fs: seq<string>, k: nat)
    requires |fs| == 6 && k < 6
  {
    forall i: nat :: i in m <==> Says(fs, k, i)
  }

  lemma HoldsMatch(s: Schedule, fs: seq<string>, t: Time)
    requires |fs| == 6 && Holds(s.second, fs, 0) && Holds(s.minute, fs, 1) && Holds(s.hour, fs, 2)
    requires Holds(s.dom, fs, 3) && Holds(s.month, fs, 4) && Holds(s.dow, fs, 5)
    ensures Matches(s, t) <==> Describes(fs, t)
  {
    hide Says, Weekday;
  }

  method Compile(fs: seq<string>) returns (r: Outcome)
    requires |fs| == 6
    ensures r.Parsed? || r.Refused?
    ensures r.Parsed? <==> forall k :: 0 <= k < 6 ==> Good(fs, k)
    ensures r.Parsed? ==> forall t :: Matches(r.schedule, t) <==> Describes(fs, t)
    ensures r.Refused? ==> r.why.BadField? && exists k :: 0 <= k < 6 && FieldFails(fs, k, r.why.error)
                                                         && forall j :: 0 <= j < k ==> Good(fs, j)
  {
    hide Good, FieldFails, Says;
    var masks: seq<Mask> := [];
    var k := 0;
    while k < 6
      invariant |masks| == k <= 6
      invariant forall j :: 0 <= j < k ==> Good(fs, j) && Holds(masks[j], fs, j)
    {
      var c := CompileField(fs, k);
      if c.Bad? {
        return Refused(BadField(c.error));
      }
      masks := masks + [c.mask];
      k := k + 1;
    }
    var s := Schedule(masks[0], masks[1], masks[2], masks[3], masks[4], masks[5]);
    forall t: Time
      ensures Matches(s, t) <==> Describes(fs, t)
    {
      HoldsMatch(s, fs, t);
    }
    r := Parsed(s);
  }

  // The text before the fields.

  predicate HasZone(spec: string) {
    "TZ=" <= spec || "CRON_TZ=" <= spec
  }

  function Trimmed(s: string): string {
    if s != "" && IsSpace(s[0]) then Trimmed(s[1..])
    else if s != "" && IsSpace(s[|s| - 1]) then Trimmed(s[..|s| - 1])
    else s
  }

  lemma ShortPrefix()
    ensures Without("TZ=", ' ')
  {
  }

  lemma LongPrefix()
    ensures Without("CRON_TZ=", ' ')
  {
  }

  lemma PrefixFirst(spec: string, p: string)
    requires p != "" && p <= spec && p[|p| - 1] == '=' && Without(p, ' ') && ' ' in spec
    ensures IndexOf(spec, '=') < IndexOf(spec, ' ') < |spec|
  {
    assert spec[|p| - 1] == '=';
    assert forall i :: 0 <= i < |p| ==> spec[i] == p[i];
  }

  lemma ZoneEnds(spec: string)
    requires HasZone(spec) && ' ' in spec
    ensures IndexOf(spec, '=') < IndexOf(spec, ' ') < |spec|
  {
    hide IndexOf, Without;
    if "TZ=" <= spec {
      ShortPrefix();
      PrefixFirst(spec, "TZ=");
    } else {
      LongPrefix();
      PrefixFirst(spec, "CRON_TZ=");
    }
  }

  /** The zone's name, between the equals sign and the first space. */
  function ZoneName(spec: string): string
    requires HasZone(spec) && ' ' in spec
  {
    ZoneEnds(spec);
    spec[IndexOf(spec, '=') + 1..IndexOf(spec, ' ')]
  }

  /** What is left after the zone. */
  function Body(spec: string): string
    requires HasZone(spec) ==> ' ' in spec
  {
    if HasZone(spec) then Trimmed(spec[IndexOf(spec, ' ')..]) else spec
  }

  lemma {:induction false} TrimmedIs(s: string) returns (a: string, b: string)
    ensures s == a + Trimmed(s) + b && AllSpace(a) && AllSpace(b)
    ensures var t := Trimmed(s); t != "" ==> t[0] !in SPACES && t[|t| - 1] !in SPACES
  {
    hide *;
    TrimmedStep(s);
    a, b := "", "";
    if s != "" {
      var n := |s| - 1;
      if s[0] in SPACES {
        a, b := TrimmedIs(s[1..]);
        Rejoined(s, a, Trimmed(s), b);
        SpaceMore(s[0], a);
        a := [s[0]] + a;
      } else if s[n] in SPACES {
        a, b := TrimmedIs(s[..n]);
        RejoinedBack(s, a, Trimmed(s), b);
        SpaceMore(s[n], b);
        b := b + [s[n]];
      }
    }
  }

  lemma TrimmedStep(s: string)
    ensures AllSpace("") && (s == "" ==> Trimmed(s) == "" && s == "" + s + "")
    ensures s != "" && s[0] in SPACES ==> Trimmed(s) == Trimmed(s[1..])
    ensures s != "" && s[0] !in SPACES && s[|s| - 1] in SPACES ==> Trimmed(s) == Trimmed(s[..|s| - 1])
    ensures s != "" && s[0] !in SPACES && s[|s| - 1] !in SPACES ==> Trimmed(s) == s && s == "" + s + ""
  {
    if s != "" {
      SpacesAre(s[0]);
      SpacesAre(s[|s| - 1]);
      hide IsSpace;
    }
  }

  lemma SpaceMore(c: char, s: string)
    requires c in SPACES
    ensures AllSpace(s) ==> AllSpace([c] + s) && AllSpace(s + [c])
  {
  }

  lemma Rejoined(s: string, a: string, t: string, b: string)
    requires s != "" && s[1..] == a + t + b
    ensures s == [s[0]] + a + t + b
  {
    assert s == [s[0]] + s[1..];
  }

  lemma RejoinedBack(s: string, a: string, t: string, b: string)
    requires s != "" && s[..|s| - 1] == a + t + b
    ensures s == a + t + (b + [s[|s| - 1]])
  {
    assert s == s[..|s| - 1] + [s[|s| - 1]];
  }

  /** A zone's name and what follows it are read back. */
  lemma ZoneRead(prefix: string, name: string, rest: string)
    requires (prefix == "TZ=" || prefix == "CRON_TZ=") && Without(name, ' ')
    ensures var spec := prefix + name + (" " + rest);
            HasZone(spec) && ' ' in spec && ZoneName(spec) == name && Body(spec) == Trimmed(" " + rest)
  {
    var spec, n := prefix + name + (" " + rest), |prefix| + |name|;
    if prefix == "TZ=" {
      ShortPrefix();
      assert Without("TZ", '=');
      assert prefix == "TZ" + "=";
    } else {
      LongPrefix();
      assert Without("CRON_TZ", '=');
      assert prefix == "CRON_TZ" + "=";
    }
    hide Trimmed, IndexOf;
    assert prefix <= spec && spec[|prefix| - 1] == '=' && spec[n] == ' ';
    assert forall i :: 0 <= i < |prefix| ==> spec[i] == prefix[i];
    assert forall i :: 0 <= i < |name| ==> spec[|prefix| + i] == name[i];
    assert spec[|prefix|..n] == name && spec[n..] == " " + rest;
  }

  predicate IsDescriptor(body: string) {
    body != "" && body[0] == '@'
  }

  /** The text gets as far as its fields or its descriptor. */
  predicate Opens(spec: string, zones: set<string>) {
    spec != "" && (HasZone(spec) ==> ' ' in spec && ZoneName(spec) in zones)
  }

  /** A schedule comes exactly from a text with a right number of fields and no bad part, and matches exactly the times
      its fields describe, in the zone named; zones are the names of those known. */
  method Parse(spec: string, o: Options, descriptors: bool, zones: set<string>)
      returns (r: Outcome, zone: Option<string>, ghost fs: seq<string>)
    requires CronSpec.WellFormed(o)
    ensures r == Refused(EmptyText) <==> spec == ""
    ensures r.Crashed? <==> HasZone(spec) && ' ' !in spec
    ensures r == Refused(UnknownZone) <==> HasZone(spec) && ' ' in spec && ZoneName(spec) !in zones
    ensures Opens(spec, zones) ==>
              && zone == (if HasZone(spec) then Some(ZoneName(spec)) else None)
              && (r == Refused(NoDescriptors) <==> IsDescriptor(Body(spec)) && !descriptors)
              && (r.Named? <==> IsDescriptor(Body(spec)) && descriptors)
              && (r.Named? ==> r.descriptor == Body(spec))
              && (!IsDescriptor(Body(spec)) ==> FieldsParsed(Body(spec), o, r, fs))
  {
    assert spec == "" ==> !HasZone(spec);
    hide FieldsParsed, Trimmed, HasZone;
    fs, zone := [], None;
    if |spec| == 0 {
      return Refused(EmptyText), zone, fs;
    }
    var body := spec;
    if HasZone(spec) {
      var i := IndexOf(spec, ' ');
      var eq := IndexOf(spec, '=');
      if i == |spec| {
        return Crashed, zone, fs;
      }
      ZoneEnds(spec);
      if spec[eq + 1..i] !in zones {
        return Refused(UnknownZone), zone, fs;
      }
      zone, body := Some(spec[eq + 1..i]), Trimmed(spec[i..]);
    }
    if IsDescriptor(body) {
      return if descriptors then Named(body) else Refused(NoDescriptors), zone, fs;
    }
    r, fs := ParseFields(body, o);
    OfFields(body, o, r, fs);
  }

  /** What the fields in a text give. */
  ghost predicate FieldsParsed(body: string, o: Options, r: Outcome, fs: seq<string>)
    requires CronSpec.WellFormed(o)
  {
    && (r.Parsed? || (r.Refused? && (r.why.WrongFields? || r.why.BadField?)))
    && (r == Refused(WrongFields) <==>
         || Optionals(o) > 1
         || !(Count(Accepted(o)) - Optionals(o) <= |Words(body, "")| <= Count(Accepted(o))))
    && (r != Refused(WrongFields) ==> Normalised(Words(body, ""), o, fs))
    && (r.Parsed? ==> (forall t :: Matches(r.schedule, t) <==> Describes(fs, t)) && forall k :: 0 <= k < 6 ==> Good(fs, k))
    && (r.Refused? && r.why.BadField? ==>
         exists k :: 0 <= k < 6 && FieldFails(fs, k, r.why.error) && forall j :: 0 <= j < k ==> Good(fs, j))
  }

  lemma OfFields(body: string, o: Options, r: Outcome, fs: seq<string>)
    requires CronSpec.WellFormed(o) && FieldsParsed(body, o, r, fs)
    ensures r.Parsed? || r == Refused(WrongFields) || (r.Refused? && r.why.BadField?)
  {
  }

  method ParseFields(body: string, o: Options) returns (r: Outcome, ghost fs: seq<string>)
    requires CronSpec.WellFormed(o)
    ensures FieldsParsed(body, o, r, fs)
  {
    hide Good, FieldFails, Describes, Matches, Words;
    fs := [];
    var fields := NormalizeFields(Words(body, ""), o);
    if fields.None? {
      return Refused(WrongFields), fs;
    }
    fs := fields.value;
    r := Compile(fields.value);
  }

  /** The next activation of a parsed schedule is the next time its text describes. */
  lemma NextOfText(s: Schedule, fs: seq<string>, t: Time, limit: int, r: Activation)
    requires |fs| == 6 && (forall u :: Matches(s, u) <==> Describes(fs, u)) && NextAfter(s, t, limit, r)
    ensures r.At? ==> Describes(fs, r.time) && Seconds(t) < Seconds(r.time)
    ensures forall u :: Civil(u) && Seconds(t) < Seconds(u) && u.year <= limit && Describes(fs, u) ==>
                        r.At? && Seconds(r.time) <= Seconds(u)
  {
    hide Matches, Describes, Seconds, Civil;
  }
}
