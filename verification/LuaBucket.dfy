/** The token bucket the Redis script keeps (cache/limiter/rate_limiter_redis.go), shared by all callers of a resource. */
module LuaBucket {
  import opened Powers
  import opened Strconv

  /** The two stored hash fields; absent before the first admission. */
  datatype Stored = Stored(last: int, surplus: int)

  /** Tokens earned in ms milliseconds at rate tokens per second. */
  function Earned(ms: int, rate: real): int {
    Times(ms as real, rate / 1000.0).Floor
  }

  /** The stored state after one call, and whether the call was admitted; a refused call stores nothing. */
  function Script(s: Option<Stored>, bucket: int, rate: real, now: int): (Option<Stored>, bool) {
    var past := if s.None? then 0 else Max(now - s.value.last, 0);
    var last := if s.None? then now else s.value.last;
    var surplus := if s.None? then bucket else Min(s.value.surplus + Earned(past, rate), bucket);
    if surplus > 0 then (Some(Stored(last + past, surplus - 1)), true) else (s, false)
  }

  class Hash {
    var stored: Option<Stored>

    constructor ()
      ensures stored == None
    {
      stored := None;
    }

    /** One atomic execution of the script. */
    method Run(bucketToken: int, tokenRate: real, nowRequestTime: int) returns (status: int)
      modifies this
      ensures stored == Script(old(stored), bucketToken, tokenRate, nowRequestTime).0
      ensures status == if Script(old(stored), bucketToken, tokenRate, nowRequestTime).1 then 1 else 0
    {
      var pastTime := 0;
      var surplusToken := bucketToken;
      var lastRequestTime := nowRequestTime;
      if stored.Some? {
        lastRequestTime := stored.value.last;
        pastTime := nowRequestTime - lastRequestTime;
        if pastTime <= 0 {
          pastTime := 0; // clocks of several servers may disagree
        }
        var addToken := Earned(pastTime, tokenRate);
        surplusToken := Min(stored.value.surplus + addToken, bucketToken);
      }
      status := 0;
      if surplusToken > 0 {
        surplusToken := surplusToken - 1;
        lastRequestTime := lastRequestTime + pastTime;
        stored := Some(Stored(lastRequestTime, surplusToken));
        status := 1;
      }
    }
  }

  // Runs.

  ghost predicate CountOk(s: Option<Stored>, bucket: nat) {
    s.Some? ==> 0 <= s.value.surplus <= bucket
  }

  /** Calls with clocks in any order. */
  ghost predicate Run(ss: seq<Option<Stored>>, admitted: seq<bool>, bucket: nat, rate: real, nows: seq<int>) {
    && |ss| == |nows| + 1 && |admitted| == |nows| && rate >= 0.0 && CountOk(ss[0], bucket)
    && forall i :: 0 <= i < |nows| ==> (ss[i + 1], admitted[i]) == Script(ss[i], bucket, rate, nows[i])
  }

  function Admissions(admitted: seq<bool>, i: nat, j: nat): nat
    requires i <= j <= |admitted|
    decreases j - i
  {
    if i == j then 0 else Admissions(admitted, i, j - 1) + if admitted[j - 1] then 1 else 0
  }

  /** The time a segment starts from: the stored time, or else its first admission's. */
  function Time(s: Option<Stored>, other: int): int {
    if s.Some? then s.value.last else other
  }

  lemma EarnedAdds(a: nat, b: nat, rate: real)
    requires rate >= 0.0
    ensures Earned(a, rate) >= 0
    ensures Earned(a, rate) + Earned(b, rate) <= Earned(a + b, rate)
    ensures Earned(0, rate) == 0
  {
    var p := rate / 1000.0;
    assert p >= 0.0;
    NotNegative(a as real, p);
    assert Times((a + b) as real, p) == Times(a as real, p) + Times(b as real, p) by { Distribute(a as real, b as real, p); }
    assert Times(0.0, p) == 0.0;
    hide Times;
  }

  lemma NotNegative(x: real, p: real)
    requires x >= 0.0 && p >= 0.0
    ensures Times(x, p) >= 0.0
  {
  }

  lemma Distribute(a: real, b: real, p: real)
    ensures Times(a + b, p) == Times(a, p) + Times(b, p)
  {
  }

  /** One call: time does not go back, the count stays in range, and an admission costs a token. */
  lemma ScriptStep(s: Option<Stored>, bucket: nat, rate: real, now: int)
    requires CountOk(s, bucket) && rate >= 0.0
    ensures var (s', ok) := Script(s, bucket, rate, now);
            && CountOk(s', bucket)
            && (!ok ==> s' == s)
            && (ok ==> s'.Some?)
            && (ok && s.Some? ==>
                 && s'.value.last >= s.value.last
                 && s'.value.surplus <= s.value.surplus + Earned(s'.value.last - s.value.last, rate) - 1)
            && (ok && s.None? ==> s' == Some(Stored(now, bucket - 1)))
  {
    if s.Some? {
      EarnedAdds(Max(now - s.value.last, 0), 0, rate);
    }
    hide Earned;
  }

  lemma {:induction false} RunOk(ss: seq<Option<Stored>>, admitted: seq<bool>, bucket: nat, rate: real, nows: seq<int>, i: nat)
    requires Run(ss, admitted, bucket, rate, nows) && i < |ss|
    ensures CountOk(ss[i], bucket)
  {
    hide Script;
    if i > 0 {
      RunOk(ss, admitted, bucket, rate, nows, i - 1);
      assert (ss[i - 1 + 1], admitted[i - 1]) == Script(ss[i - 1], bucket, rate, nows[i - 1]);
      ScriptStep(ss[i - 1], bucket, rate, nows[i - 1]);
    }
  }

  /** Whatever the callers' clocks show: the stored time never goes back, the stored count stays in range, and a
      segment admits at most the bucket and what the growth of the stored time earns. */
  lemma {:induction false} SegmentBound(ss: seq<Option<Stored>>, admitted: seq<bool>, bucket: nat, rate: real, nows: seq<int>,
                                        i: nat, j: nat)
    requires Run(ss, admitted, bucket, rate, nows) && i <= j < |ss|
    requires ss[i].Some?
    ensures ss[j].Some? && 0 <= ss[j].value.surplus <= bucket
    ensures ss[i].value.last <= ss[j].value.last
    ensures Admissions(admitted, i, j) <= ss[i].value.surplus - ss[j].value.surplus
                                          + Earned(ss[j].value.last - ss[i].value.last, rate)
    decreases j - i
  {
    RunOk(ss, admitted, bucket, rate, nows, j);
    hide Script, Earned;
    if i == j {
      EarnedAdds(0, 0, rate);
    } else {
      SegmentBound(ss, admitted, bucket, rate, nows, i, j - 1);
      assert (ss[j - 1 + 1], admitted[j - 1]) == Script(ss[j - 1], bucket, rate, nows[j - 1]);
      ScriptStep(ss[j - 1], bucket, rate, nows[j - 1]);
      EarnedAdds(ss[j - 1].value.last - ss[i].value.last, ss[j].value.last - ss[j - 1].value.last, rate);
      EarnedAdds(ss[j - 1].value.last - ss[i].value.last, 0, rate);
    }
  }

  /** Call k - 1 is the first to store anything, and stores the time its caller's clock showed. */
  predicate FirstStored(ss: seq<Option<Stored>>, nows: seq<int>, k: nat) {
    0 < k < |ss| && k <= |nows| && ss[k - 1].None? && ss[k].Some? && ss[k].value.last == nows[k - 1]
  }

  /** Before the first admission nothing is stored; from there on the segment bound applies. */
  lemma {:induction false} FirstAdmission(ss: seq<Option<Stored>>, admitted: seq<bool>, bucket: nat, rate: real, nows: seq<int>,
                                          i: nat, j: nat) returns (k: nat)
    requires Run(ss, admitted, bucket, rate, nows) && i <= j < |ss| && ss[i].None? && Admissions(admitted, i, j) > 0
    ensures i < k <= j && FirstStored(ss, nows, k) && ss[k].value.surplus == bucket - 1
    ensures Admissions(admitted, i, j) == 1 + Admissions(admitted, k, j)
    decreases j - i
  {
    hide Script;
    ScriptStep(ss[i], bucket, rate, nows[i]);
    AdmissionsFirst(admitted, i, j);
    if admitted[i] {
      k := i + 1;
    } else {
      k := FirstAdmission(ss, admitted, bucket, rate, nows, i + 1, j);
    }
  }

  lemma {:induction false} AdmissionsFirst(admitted: seq<bool>, i: nat, j: nat)
    requires i < j <= |admitted|
    ensures Admissions(admitted, i, j) == (if admitted[i] then 1 else 0) + Admissions(admitted, i + 1, j)
    decreases j - i
  {
    if i + 1 < j {
      AdmissionsFirst(admitted, i, j - 1);
    } else {
      assert Admissions(admitted, i, i) == 0;
    }
  }

  /** Any segment of any run: at most the bucket, less what is left of it, and the whole tokens earned while the stored
      time grew from what it was before the segment, or, if nothing was stored then, from the first admission. */
  lemma AtMost(ss: seq<Option<Stored>>, admitted: seq<bool>, bucket: nat, rate: real, nows: seq<int>, i: nat, j: nat)
      returns (from: int)
    requires Run(ss, admitted, bucket, rate, nows) && i <= j < |ss| && Admissions(admitted, i, j) > 0
    ensures ss[j].Some? && 0 <= ss[j].value.surplus && from <= ss[j].value.last
    ensures ss[i].Some? ==> from == ss[i].value.last
    ensures ss[i].None? ==> exists k :: i < k <= j && FirstStored(ss, nows, k) && from == ss[k].value.last
    ensures Admissions(admitted, i, j) <= bucket - ss[j].value.surplus + Earned(ss[j].value.last - from, rate)
  {
    RunOk(ss, admitted, bucket, rate, nows, i);
    hide Script, Earned;
    if ss[i].Some? {
      from := ss[i].value.last;
      SegmentBound(ss, admitted, bucket, rate, nows, i, j);
    } else {
      var k := FirstAdmission(ss, admitted, bucket, rate, nows, i, j);
      from := ss[k].value.last;
      SegmentBound(ss, admitted, bucket, rate, nows, k, j);
    }
  }

  // What is admitted, exactly.

  /** A call is admitted exactly if the bucket can hold a token and one is there: any before the first call, otherwise what
      was stored and what has been earned since, fractions of a token counting towards it. */
  lemma AdmittedExactly(s: Option<Stored>, bucket: nat, rate: real, now: int)
    requires CountOk(s, bucket) && rate >= 0.0
    ensures Script(s, bucket, rate, now).1 <==>
            && bucket > 0
            && (s.Some? ==> s.value.surplus as real + Times(Max(now - s.value.last, 0) as real, rate / 1000.0) >= 1.0)
    ensures Script(s, bucket, rate, now).1 && s.Some? ==>
              Script(s, bucket, rate, now).0.value.last == Max(now, s.value.last)
  {
    if s.Some? {
      EarnedAdds(Max(now - s.value.last, 0), 0, rate);
      var x := Times(Max(now - s.value.last, 0) as real, rate / 1000.0);
      assert x.Floor as real <= x < x.Floor as real + 1.0;
      hide Times;
    }
  }

  /** Nothing stored yet, or enough earned by now to fill the bucket. */
  predicate Full(s: Option<Stored>, bucket: nat, rate: real, now: int) {
    s.Some? ==> s.value.surplus as real + Times(Max(now - s.value.last, 0) as real, rate / 1000.0) >= bucket as real
  }

  lemma FullStep(s: Option<Stored>, bucket: nat, rate: real, now: int)
    requires CountOk(s, bucket) && rate >= 0.0 && bucket > 0 && Full(s, bucket, rate, now)
    ensures Script(s, bucket, rate, now).1 && Script(s, bucket, rate, now).0.value.surplus == bucket - 1
  {
    if s.Some? {
      var x := Times(Max(now - s.value.last, 0) as real, rate / 1000.0);
      assert x.Floor as real <= x < x.Floor as real + 1.0;
      hide Times;
    }
  }

  lemma OneTokenAtMost(s: Option<Stored>, bucket: nat, rate: real, now: int)
    requires CountOk(s, bucket) && rate >= 0.0 && s.Some? && s.value.surplus > 0
    ensures Script(s, bucket, rate, now).1 && Script(s, bucket, rate, now).0.value.surplus >= s.value.surplus - 1
  {
    EarnedAdds(Max(now - s.value.last, 0), 0, rate);
    hide Earned;
  }

  /** From a full bucket as many calls in a row are admitted as it holds tokens, whatever their clocks show. */
  lemma {:induction false} BurstAdmitted(ss: seq<Option<Stored>>, admitted: seq<bool>, bucket: nat, rate: real, nows: seq<int>,
                                         i: nat, j: nat)
    requires Run(ss, admitted, bucket, rate, nows) && i <= j < |nows| && j - i < bucket && Full(ss[i], bucket, rate, nows[i])
    ensures admitted[j] && ss[j + 1].Some? && ss[j + 1].value.surplus >= bucket - (j - i) - 1
    decreases j
  {
    RunOk(ss, admitted, bucket, rate, nows, j);
    assert (ss[j + 1], admitted[j]) == Script(ss[j], bucket, rate, nows[j]);
    hide Run, Script, Full;
    if i == j {
      FullStep(ss[i], bucket, rate, nows[i]);
    } else {
      BurstAdmitted(ss, admitted, bucket, rate, nows, i, j - 1);
      OneTokenAtMost(ss[j], bucket, rate, nows[j]);
    }
  }

  /** Along any segment that never fills the bucket up, every admission costs its token and less than one more in rounding:
      nothing else is lost. */
  lemma {:induction false} LittleLost(ss: seq<Option<Stored>>, admitted: seq<bool>, bucket: nat, rate: real, nows: seq<int>,
                                      i: nat, j: nat)
    requires Run(ss, admitted, bucket, rate, nows) && i <= j < |ss| && ss[i].Some?
    requires forall k :: i <= k < j ==> !Full(ss[k], bucket, rate, nows[k])
    ensures ss[j].Some?
    ensures ss[j].value.surplus as real >=
            ss[i].value.surplus as real + Times((ss[j].value.last - ss[i].value.last) as real, rate / 1000.0)
            - 2.0 * Admissions(admitted, i, j) as real
    decreases j
  {
    var r := rate / 1000.0;
    assert Times(0.0, r) == 0.0;
    RunOk(ss, admitted, bucket, rate, nows, i);
    if i < j {
      LittleLost(ss, admitted, bucket, rate, nows, i, j - 1);
      RunOk(ss, admitted, bucket, rate, nows, j - 1);
      assert (ss[j - 1 + 1], admitted[j - 1]) == Script(ss[j - 1], bucket, rate, nows[j - 1]);
      hide Run, Script, Full, Times;
      StepLost(ss[j - 1], bucket, rate, nows[j - 1]);
      SumTimes((ss[j - 1].value.last - ss[i].value.last) as real, (ss[j].value.last - ss[j - 1].value.last) as real, r);
    }
  }

  lemma SumTimes(x: real, y: real, p: real)
    ensures Times(x + y, p) == Times(x, p) + Times(y, p)
  {
  }

  lemma StepLost(s: Option<Stored>, bucket: nat, rate: real, now: int)
    requires CountOk(s, bucket) && rate >= 0.0 && s.Some? && !Full(s, bucket, rate, now)
    ensures var (s', ok) := Script(s, bucket, rate, now);
            && (!ok ==> s' == s)
            && (ok ==> s'.Some? && s'.value.surplus as real >
                       s.value.surplus as real + Times((s'.value.last - s.value.last) as real, rate / 1000.0) - 2.0)
  {
    var x := Times(Max(now - s.value.last, 0) as real, rate / 1000.0);
    assert x.Floor as real <= x < x.Floor as real + 1.0;
    hide Times;
  }
}
