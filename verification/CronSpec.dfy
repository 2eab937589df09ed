/** Filling in the fields a cron expression leaves out (normalizeFields in job/parser.go). */
module CronSpec {
  import opened Strconv

  /** Which of the six places a parser accepts; at most one of the two optional ones may be missing in the text. */
  datatype Options = Options(has: seq<bool>, secondOptional: bool, dowOptional: bool)

  const DEFAULTS: seq<string> := ["0", "0", "0", "*", "*", "*"]

  predicate WellFormed(o: Options) {
    |o.has| == 6
  }

  /** An optional place is a place. */
  function Accepted(o: Options): (has: seq<bool>)
    requires WellFormed(o)
    ensures |has| == 6
  {
    var first := if o.secondOptional then o.has[0 := true] else o.has;
    if o.dowOptional then first[5 := true] else first
  }

  function Count(has: seq<bool>): nat {
    if has == [] then 0 else Count(has[..|has| - 1]) + if has[|has| - 1] then 1 else 0
  }

  function Optionals(o: Options): nat {
    (if o.secondOptional then 1 else 0) + if o.dowOptional then 1 else 0
  }

  /** The elements at the places that are set, in order. */
  function Pick(s: seq<string>, has: seq<bool>): seq<string>
    requires |s| == |has|
  {
    if s == [] then [] else Pick(s[..|s| - 1], has[..|s| - 1]) + if has[|s| - 1] then [s[|s| - 1]] else []
  }

  /** The fields as given, with the default of the optional place where it was left out. */
  function Supplied(fields: seq<string>, o: Options): seq<string>
    requires WellFormed(o)
  {
    if Optionals(o) == 1 && |fields| == Count(Accepted(o)) - 1 then
      if o.dowOptional then fields + [DEFAULTS[5]] else [DEFAULTS[0]] + fields
    else fields
  }

  lemma {:induction false} CountSet(has: seq<bool>, k: nat)
    requires k < |has| && has[k]
    ensures Count(has) > 0
  {
    if k < |has| - 1 {
      CountSet(has[..|has| - 1], k);
    }
  }

  /** Every accepted place gets its field, in order, every other place its default; fails only on a wrong number of fields. */
  method NormalizeFields(fields: seq<string>, o: Options) returns (r: Option<seq<string>>)
    requires WellFormed(o)
    ensures r.None? <==> Optionals(o) > 1 || !(Count(Accepted(o)) - Optionals(o) <= |fields| <= Count(Accepted(o)))
    ensures r.Some? ==> |r.value| == 6 && Pick(r.value, Accepted(o)) == Supplied(fields, o)
    ensures r.Some? ==> forall i :: 0 <= i < 6 && !Accepted(o)[i] ==> r.value[i] == DEFAULTS[i]
  {
    var options, optionals := o.has, 0;
    if o.secondOptional {
      options, optionals := options[0 := true], optionals + 1;
    }
    if o.dowOptional {
      options, optionals := options[5 := true], optionals + 1;
    }
    if optionals > 1 {
      return None;
    }
    assert optionals == Optionals(o) && options == Accepted(o);
    if optionals == 1 {
      CountSet(options, if o.dowOptional then 5 else 0);
    }
    var max := CountPlaces(options);
    var min := max - optionals;
    if |fields| < min || |fields| > max {
      return None;
    }
    var given := fields;
    if min < max && |fields| == min {
      if o.dowOptional {
        given := fields + [DEFAULTS[5]];
      } else {
        given := [DEFAULTS[0]] + fields;
      }
    }
    var expanded := Expand(given, options);
    r := Some(expanded);
  }

  method CountPlaces(has: seq<bool>) returns (n: nat)
    ensures n == Count(has)
  {
    n := 0;
    for i := 0 to |has|
      invariant n == Count(has[..i])
    {
      assert has[..i + 1][..i] == has[..i];
      if has[i] {
        n := n + 1;
      }
    }
    assert has[..|has|] == has;
  }

  method Expand(given: seq<string>, options: seq<bool>) returns (expanded: seq<string>)
    requires |options| == 6 && |given| == Count(options)
    ensures |expanded| == 6 && Pick(expanded, options) == given
    ensures forall i :: 0 <= i < 6 && !options[i] ==> expanded[i] == DEFAULTS[i]
  {
    var n := 0;
    expanded := DEFAULTS;
    for i := 0 to 6
      invariant |expanded| == 6 && n == Count(options[..i])
      invariant n <= |given| && Pick(expanded[..i], options[..i]) == given[..n]
      invariant forall j :: 0 <= j < 6 && (j >= i || !options[j]) ==> expanded[j] == DEFAULTS[j]
    {
      CountPrefix(options, i + 1);
      assert options[..i + 1][..i] == options[..i];
      ghost var before := expanded;
      if options[i] {
        expanded := expanded[i := given[n]];
        n := n + 1;
      }
      assert expanded[..i + 1][..i] == before[..i];
    }
    assert options[..6] == options && expanded[..6] == expanded;
  }

  lemma {:induction false} CountPrefix(has: seq<bool>, i: nat)
    requires i <= |has|
    ensures Count(has[..i]) <= Count(has)
    decreases |has| - i
  {
    if i == |has| {
      assert has[..i] == has;
    } else {
      CountPrefix(has, i + 1);
      assert has[..i + 1][..i] == has[..i];
    }
  }
}
