/** The in-process token bucket (cache/limiter/rate_limiter.go): tokens are reals, times whole nanoseconds. */
module RateLimiter {
  import opened Powers

  /** limit is tokens per second, positive. */
  datatype Bucket = Bucket(limit: real, burst: nat, tokens: real, last: int, lastEvent: int)

  datatype Reservation = Reservation(ok: bool, tokens: int, timeToAct: int, limit: real)

  ghost predicate Valid(b: Bucket) {
    b.limit > 0.0 && b.tokens <= b.burst as real
  }

  // Conversions. A conversion to a duration cuts off towards zero.

  function Truncate(x: real): int {
    if x < 0.0 then -((-x).Floor) else x.Floor
  }

  function DurationFromTokens(limit: real, tokens: real): int
    requires limit > 0.0
  {
    Truncate(1_000_000_000.0 * (tokens / limit))
  }

  function TokensFromDuration(limit: real, d: int): real {
    d as real / 1_000_000_000.0 * limit
  }

  /** Tokens per nanosecond. */
  function PerNs(limit: real): real {
    limit / 1_000_000_000.0
  }

  lemma TokensAre(limit: real, d: int)
    ensures TokensFromDuration(limit, d) == Times(d as real, PerNs(limit))
  {
  }

  /** The whole nanoseconds that earn tokens: not more, and one more would be more. */
  lemma DurationBounds(limit: real, tokens: real)
    requires limit > 0.0 && tokens >= 0.0
    ensures var d := DurationFromTokens(limit, tokens);
            d >= 0 && Times(d as real, PerNs(limit)) <= tokens < Times(d as real + 1.0, PerNs(limit))
  {
    var r := PerNs(limit);
    var x := 1_000_000_000.0 * (tokens / limit);
    var q := tokens / limit;
    assert q * limit == tokens;
    assert Times(x, r) == tokens;
    QuotientSign(q, limit, tokens);
    var d := x.Floor;
    assert d as real <= x < d as real + 1.0;
    TimesLe(d as real, x, r);
    TimesLt(x, d as real + 1.0, r);
  }

  lemma QuotientSign(q: real, limit: real, tokens: real)
    requires limit > 0.0 && q * limit == tokens && tokens >= 0.0
    ensures q >= 0.0
  {
    if q < 0.0 {
      TimesLt(q, 0.0, limit);
    }
  }

  lemma TimesLe(x: real, y: real, p: real)
    requires x <= y && p >= 0.0
    ensures Times(x, p) <= Times(y, p)
  {
  }

  lemma TimesLt(x: real, y: real, p: real)
    requires x < y && p > 0.0
    ensures Times(x, p) < Times(y, p)
  {
  }

  lemma TimesSum(x: real, y: real, p: real)
    ensures Times(x + y, p) == Times(x, p) + Times(y, p)
    ensures Times(x - y, p) == Times(x, p) - Times(y, p)
  {
  }

  // The passage of time.

  function AdvancedLast(b: Bucket, now: int): int {
    Min(b.last, now)
  }

  /** The tokens at time now: what has been earned since, up to the burst. */
  function AdvancedTokens(b: Bucket, now: int): real
    requires b.limit > 0.0
  {
    // no more time than filling up takes
    var elapsed := Min(now - AdvancedLast(b, now), DurationFromTokens(b.limit, b.burst as real - b.tokens));
    var tokens := b.tokens + TokensFromDuration(b.limit, elapsed);
    if tokens > b.burst as real then b.burst as real else tokens
  }

  /** Tokens grow with time, at the limit's pace at most, and not above the burst. */
  lemma AdvanceBounds(b: Bucket, now: int)
    requires Valid(b)
    ensures b.tokens <= AdvancedTokens(b, now) <= b.burst as real
    ensures now >= b.last ==> AdvancedTokens(b, now) <= b.tokens + Times((now - b.last) as real, PerNs(b.limit))
    ensures now <= b.last ==> AdvancedTokens(b, now) == b.tokens
  {
    var r := PerNs(b.limit);
    var cap := DurationFromTokens(b.limit, b.burst as real - b.tokens);
    DurationBounds(b.limit, b.burst as real - b.tokens);
    var passed := now - AdvancedLast(b, now);
    var elapsed := Min(passed, cap);
    TokensAre(b.limit, elapsed);
    assert 0 <= elapsed <= passed;
    assert r > 0.0;
    TimesLe(0.0, elapsed as real, r);
    TimesLe(elapsed as real, passed as real, r);
    assert Times(0.0, r) == 0.0;
    hide Times, TokensFromDuration, DurationFromTokens;
  }

  /** Advancing never leaves more than the burst, whatever there was before. */
  lemma AdvancedCapped(b: Bucket, now: int)
    requires b.limit > 0.0
    ensures AdvancedTokens(b, now) <= b.burst as real
  {
    hide DurationFromTokens, TokensFromDuration;
  }

  // The operations, on values.

  function Wait(limit: real, tokens: real): int
    requires limit > 0.0
  {
    if tokens < 0.0 then DurationFromTokens(limit, -tokens) else 0
  }

  function Reserve(b: Bucket, now: int, n: int, maxFutureReserve: int): (r: (Bucket, Reservation))
    requires b.limit > 0.0
  {
    var tokens := AdvancedTokens(b, now) - n as real;
    var wait := Wait(b.limit, tokens);
    if n <= b.burst && wait <= maxFutureReserve then
      (b.(tokens := tokens, last := now, lastEvent := now + wait), Reservation(true, n, now + wait, b.limit))
    else
      (b.(last := AdvancedLast(b, now)), Reservation(false, 0, 0, b.limit))
  }

  function SetLimit(b: Bucket, now: int, limit: real): Bucket
    requires b.limit > 0.0
  {
    b.(tokens := AdvancedTokens(b, now), last := now, limit := limit)
  }

  function Cancel(b: Bucket, r: Reservation, now: int): Bucket
    requires b.limit > 0.0 && r.limit > 0.0
  {
    if !r.ok || r.tokens == 0 || r.timeToAct < now then b
    else
      // what others have reserved since stays reserved
      var restore := r.tokens as real - TokensFromDuration(r.limit, b.lastEvent - r.timeToAct);
      if restore <= 0.0 then b
      else
        var tokens := AdvancedTokens(b, now) + restore;
        var capped := if tokens > b.burst as real then b.burst as real else tokens;
        var prevEvent := r.timeToAct + DurationFromTokens(r.limit, -(r.tokens as real));
        b.(tokens := capped, last := now,
           lastEvent := if r.timeToAct == b.lastEvent && prevEvent >= now then prevEvent else b.lastEvent)
  }

  // The limiter, updated in place.

  class Limiter {
    var limit: real
    var burst: nat
    var tokens: real
    var last: int
    var lastEvent: int

    function View(): Bucket
      reads this
    {
      Bucket(limit, burst, tokens, last, lastEvent)
    }

    constructor (r: real, b: nat, zeroTime: int)
      requires r > 0.0
      ensures View() == Bucket(r, b, 0.0, zeroTime, zeroTime) && Valid(View())
    {
      limit, burst, tokens, last, lastEvent := r, b, 0.0, zeroTime, zeroTime;
    }

    method Advance(now: int) returns (newNow: int, newLast: int, newTokens: real)
      requires limit > 0.0
      ensures newNow == now && newLast == AdvancedLast(View(), now) && newTokens == AdvancedTokens(View(), now)
    {
      newLast := last;
      if now < newLast {
        newLast := now;
      }
      var maxElapsed := DurationFromTokens(limit, burst as real - tokens);
      var elapsed := now - newLast;
      if elapsed > maxElapsed {
        elapsed := maxElapsed;
      }
      newTokens := tokens + TokensFromDuration(limit, elapsed);
      if newTokens > burst as real {
        newTokens := burst as real;
      }
      newNow := now;
      hide DurationFromTokens, TokensFromDuration;
    }

    method ReserveN(now: int, n: int, maxFutureReserve: int) returns (r: Reservation)
      requires limit > 0.0
      modifies this
      ensures (View(), r) == Reserve(old(View()), now, n, maxFutureReserve) && limit > 0.0
      ensures old(Valid(View())) && n >= 0 ==> Valid(View())
    {
      AdvancedCapped(View(), now);
      hide AdvancedTokens, DurationFromTokens;
      var now', last', tokens' := Advance(now);
      tokens' := tokens' - n as real;
      var waitDuration := 0;
      if tokens' < 0.0 {
        waitDuration := DurationFromTokens(limit, -tokens');
      }
      var ok := n <= burst && waitDuration <= maxFutureReserve;
      r := Reservation(ok, 0, 0, limit);
      if ok {
        r := r.(tokens := n, timeToAct := now' + waitDuration);
        last := now';
        tokens := tokens';
        lastEvent := r.timeToAct;
      } else {
        last := last';
      }
    }

    method CancelAt(r: Reservation, now: int)
      requires limit > 0.0 && r.limit > 0.0
      modifies this
      ensures View() == Cancel(old(View()), r, now) && limit > 0.0
      ensures old(Valid(View())) ==> Valid(View())
    {
      if !r.ok || r.tokens == 0 || r.timeToAct < now {
        return;
      }
      hide AdvancedTokens, DurationFromTokens, TokensFromDuration;
      var restoreTokens := r.tokens as real - TokensFromDuration(r.limit, lastEvent - r.timeToAct);
      if restoreTokens <= 0.0 {
        return;
      }
      var now', _, tokens' := Advance(now);
      tokens' := tokens' + restoreTokens;
      if tokens' > burst as real {
        tokens' := burst as real;
      }
      last := now';
      tokens := tokens';
      if r.timeToAct == lastEvent {
        var prevEvent := r.timeToAct + DurationFromTokens(r.limit, -(r.tokens as real));
        if prevEvent >= now' {
          lastEvent := prevEvent;
        }
      }
    }

    method SetLimitAt(now: int, newLimit: real)
      requires limit > 0.0 && newLimit > 0.0
      modifies this
      ensures View() == SetLimit(old(View()), now, newLimit)
      ensures Valid(View())
    {
      AdvancedCapped(View(), now);
      hide AdvancedTokens;
      var now', _, tokens' := Advance(now);
      last := now';
      tokens := tokens';
      limit := newLimit;
    }
  }

  // Runs.

  datatype Call =
    | ReserveCall(now: int, n: int, maxFutureReserve: int)
    | CancelCall(r: Reservation, now: int)
    | SetLimitCall(now: int, limit: real)

  predicate Sensible(c: Call) {
    (c.CancelCall? ==> c.r.limit > 0.0) && (c.SetLimitCall? ==> c.limit > 0.0)
  }

  function Apply(b: Bucket, c: Call): Bucket
    requires b.limit > 0.0 && Sensible(c)
  {
    match c
    case ReserveCall(now, n, max) => Reserve(b, now, n, max).0
    case CancelCall(r, now) => Cancel(b, r, now)
    case SetLimitCall(now, limit) => SetLimit(b, now, limit)
  }

  ghost predicate Mixed(bs: seq<Bucket>, cs: seq<Call>) {
    && |bs| == |cs| + 1 && Valid(bs[0])
    && forall i :: 0 <= i < |cs| ==> Sensible(cs[i]) && bs[i].limit > 0.0 && bs[i + 1] == Apply(bs[i], cs[i])
  }

  /** A request for a negative number of tokens, more than there is room for, by a caller who would wait. */
  predicate Overfills(b: Bucket, c: Call)
    requires b.limit > 0.0
  {
    && c.ReserveCall? && c.n < 0 && c.maxFutureReserve >= 0
    && -c.n as real > b.burst as real - AdvancedTokens(b, c.now)
  }

  /** Any call at any time leaves at most the burst, unless it overfills. */
  lemma ApplyKeeps(b: Bucket, c: Call)
    requires Valid(b) && Sensible(c)
    ensures Valid(Apply(b, c)) <==> !Overfills(b, c)
    ensures Apply(b, c).limit > 0.0 && Apply(b, c).burst == b.burst
  {
    AdvancedCapped(b, c.now);
    hide AdvancedTokens, DurationFromTokens, TokensFromDuration;
  }

  /** Every state up to the i-th holds at most the burst exactly if no call before it overfills: the first call that does
      is the one that passes the burst. */
  lemma {:induction false} WithinBurstExactly(bs: seq<Bucket>, cs: seq<Call>, i: nat)
    requires Mixed(bs, cs) && i < |bs|
    ensures (forall k :: 0 <= k <= i ==> Valid(bs[k])) <==> forall k :: 0 <= k < i ==> !Overfills(bs[k], cs[k])
    ensures (forall k :: 0 <= k <= i ==> Valid(bs[k])) ==> bs[i].burst == bs[0].burst
  {
    if i > 0 {
      hide Apply, Overfills, Valid;
      WithinBurstExactly(bs, cs, i - 1);
      assert bs[i - 1 + 1] == Apply(bs[i - 1], cs[i - 1]);
      if Valid(bs[i - 1]) {
        ApplyKeeps(bs[i - 1], cs[i - 1]);
      }
    }
  }

  /** Where the burst is passed for the first time: by call i exactly if it overfills and none before it did. */
  lemma FirstAbove(bs: seq<Bucket>, cs: seq<Call>, i: nat)
    requires Mixed(bs, cs) && i < |cs|
    ensures (forall k :: 0 <= k <= i ==> Valid(bs[k])) && !Valid(bs[i + 1]) <==>
            Overfills(bs[i], cs[i]) && forall k :: 0 <= k < i ==> !Overfills(bs[k], cs[k])
  {
    WithinBurstExactly(bs, cs, i);
    WithinBurstExactly(bs, cs, i + 1);
    hide Valid, Overfills, Apply;
  }

  /** Whatever mix of calls at whatever times, with no negative requests: never more tokens than the burst. */
  lemma NeverAboveBurst(bs: seq<Bucket>, cs: seq<Call>, i: nat)
    requires Mixed(bs, cs) && i < |bs|
    requires forall k :: 0 <= k < i && cs[k].ReserveCall? ==> cs[k].n >= 0
    ensures bs[i].tokens <= bs[0].burst as real && bs[i].burst == bs[0].burst && Valid(bs[i])
  {
    WithinBurstExactly(bs, cs, i);
    assert forall k :: 0 <= k < i ==> !Overfills(bs[k], cs[k]);
    hide Apply, Overfills;
  }

  /** Asking a full bucket for minus one token is granted, and leaves one more than the burst. */
  lemma NegativeRequest(b: Bucket, max: nat)
    requires Valid(b) && b.tokens == b.burst as real
    ensures Apply(b, ReserveCall(b.last, -1, max)).tokens == b.burst as real + 1.0
  {
    AdvanceBounds(b, b.last);
    hide AdvancedTokens;
  }

  /** Cancelling at once, before anything else happened, gives back exactly the tokens, unless their number was negative. */
  lemma CancelUndoes(b: Bucket, now: int, n: int, maxFutureReserve: int)
    requires Valid(b)
    ensures var (b', r) := Reserve(b, now, n, maxFutureReserve);
            r.ok ==> var c := Cancel(b', r, now);
                     && (c.tokens == AdvancedTokens(b, now) <==> n >= 0) && c.last == now
                     && (n > 0 ==> c.lastEvent >= now)
  {
    AdvanceBounds(b, now);
    var (b', r) := Reserve(b, now, n, maxFutureReserve);
    if r.ok {
      var t := AdvancedTokens(b, now) - n as real;
      if t < 0.0 {
        DurationBounds(b.limit, -t);
      }
      if n >= 0 {
        AdvanceBounds(b', now);
      }
      assert TokensFromDuration(r.limit, 0) == 0.0;
      hide AdvancedTokens, DurationFromTokens, TokensFromDuration;
    }
  }

  // What a window of time can see.

  /** A run of requests to a limiter of fixed limit, none negative, their times never going back. */
  ghost predicate Requests(bs: seq<Bucket>, rs: seq<Reservation>, cs: seq<Call>) {
    && |bs| == |cs| + 1 && |rs| == |cs| && Valid(bs[0])
    && forall i :: 0 <= i < |cs| ==>
         && cs[i].ReserveCall? && cs[i].n >= 0 && cs[i].now >= (if i == 0 then bs[0].last else cs[i - 1].now)
         && bs[i].limit > 0.0
         && (bs[i + 1], rs[i]) == Reserve(bs[i], cs[i].now, cs[i].n, cs[i].maxFutureReserve)
  }

  /** The tokens a reservation grants. */
  function Got(r: Reservation): nat {
    if r.ok && r.tokens >= 0 then r.tokens else 0
  }

  /** The tokens granted by the requests from i to j. */
  function Granted(rs: seq<Reservation>, i: nat, j: nat): nat
    requires i <= j <= |rs|
    decreases j - i
  {
    if i == j then 0 else Granted(rs, i, j - 1) + Got(rs[j - 1])
  }

  lemma {:induction false} RequestsValid(bs: seq<Bucket>, rs: seq<Reservation>, cs: seq<Call>, i: nat)
    requires Requests(bs, rs, cs) && i < |bs|
    ensures Valid(bs[i]) && bs[i].limit == bs[0].limit && bs[i].burst == bs[0].burst
    ensures bs[i].last <= (if i == 0 then bs[0].last else cs[i - 1].now)
  {
    if i > 0 {
      hide Reserve;
      RequestsValid(bs, rs, cs, i - 1);
      var c := cs[i - 1];
      assert (bs[i - 1 + 1], rs[i - 1]) == Reserve(bs[i - 1], c.now, c.n, c.maxFutureReserve);
      ReserveStep(bs[i - 1], c.now, c.n, c.maxFutureReserve);
    }
  }

  /** One request at a time not before the last: how the tokens move. */
  lemma ReserveStep(b: Bucket, now: int, n: nat, max: int)
    requires Valid(b)
    ensures var (b', r) := Reserve(b, now, n, max);
            && Valid(b') && b'.limit == b.limit && b'.burst == b.burst
            && (now >= b.last ==>
                 && b'.last <= now
                 && (r.ok ==> b'.last == now && r.tokens == n <= b.burst
                              && r.timeToAct == now + Wait(b.limit, b'.tokens)
                              && b'.tokens + n as real <= b.burst as real
                              && b'.tokens + n as real <= b.tokens + Times((now - b.last) as real, PerNs(b.limit)))
                 && (!r.ok ==> b'.last == b.last && b'.tokens == b.tokens))
  {
    AdvanceBounds(b, now);
    hide AdvancedTokens, DurationFromTokens, Times, PerNs;
  }

  /** The delay of a grant against its debt: short of it by less than a nanosecond's worth. */
  lemma WaitBounds(limit: real, tokens: real)
    requires limit > 0.0
    ensures var w := Wait(limit, tokens);
            && w >= 0
            && Times(w as real + 1.0, PerNs(limit)) > -tokens
            && (w > 0 ==> Times(w as real, PerNs(limit)) <= -tokens)
  {
    if tokens < 0.0 {
      DurationBounds(limit, -tokens);
    } else {
      assert PerNs(limit) > 0.0;
      assert Times(1.0, PerNs(limit)) == PerNs(limit);
    }
  }

  /** From one state of a run to a later one: tokens grow with time and shrink by what was granted. */
  lemma {:induction false} Drained(bs: seq<Bucket>, rs: seq<Reservation>, cs: seq<Call>, i: nat, j: nat)
    requires Requests(bs, rs, cs) && i <= j < |bs|
    ensures bs[i].last <= bs[j].last
    ensures bs[j].tokens <= bs[i].tokens + Times((bs[j].last - bs[i].last) as real, PerNs(bs[0].limit)) - Granted(rs, i, j) as real
  {
    hide Times, PerNs, Reserve;
    ZeroTimes(PerNs(bs[0].limit));
    if i < j {
      Drained(bs, rs, cs, i, j - 1);
      RequestsValid(bs, rs, cs, j - 1);
      var c := cs[j - 1];
      assert (bs[j - 1 + 1], rs[j - 1]) == Reserve(bs[j - 1], c.now, c.n, c.maxFutureReserve);
      assert c.now >= if j - 1 == 0 then bs[0].last else cs[j - 1 - 1].now;
      ReserveStep(bs[j - 1], c.now, c.n, c.maxFutureReserve);
      TimesSum((bs[j].last - bs[j - 1].last) as real, (bs[j - 1].last - bs[i].last) as real, PerNs(bs[0].limit));
    }
  }

  lemma ZeroTimes(p: real)
    ensures Times(0.0, p) == 0.0
  {
  }

  /** What a granted request leaves behind. */
  lemma GrantLeaves(bs: seq<Bucket>, rs: seq<Reservation>, cs: seq<Call>, i: nat)
    requires Requests(bs, rs, cs) && i < |cs| && rs[i].ok
    ensures var b := bs[i + 1];
            && b.last == cs[i].now && 0 <= rs[i].tokens <= bs[0].burst && Got(rs[i]) == rs[i].tokens
            && rs[i].timeToAct == b.last + Wait(bs[0].limit, b.tokens)
            && b.tokens + rs[i].tokens as real <= bs[0].burst as real
  {
    RequestsValid(bs, rs, cs, i);
    ReserveStep(bs[i], cs[i].now, cs[i].n, cs[i].maxFutureReserve);
    hide Times, PerNs, Wait;
  }

  lemma RhoPositive(bs: seq<Bucket>, rs: seq<Reservation>, cs: seq<Call>)
    requires Requests(bs, rs, cs)
    ensures |bs| == |cs| + 1 && |rs| == |cs|
    ensures bs[0].limit > 0.0 && PerNs(bs[0].limit) > 0.0
  {
    RequestsValid(bs, rs, cs, 0);
    hide Requests;
  }

  /** The arithmetic of a window: N tokens are granted after the first grant of n, which left tau, and tau' is left at the end. */
  lemma WindowArith(rho: real, burst: nat, n: nat, tau: real, w: int, N: nat, tau': real, w': int, passed: int)
    requires rho > 0.0 && n <= burst && tau + n as real <= burst as real
    requires w >= 0 && (w > 0 ==> Times(w as real, rho) <= -tau)
    requires Times(w' as real + 1.0, rho) > -tau'
    requires tau' <= tau + Times(passed as real, rho) - N as real
    ensures (n + N) as real < burst as real + Times((passed + w' - w) as real + 1.0, rho)
  {
    TimesSum(passed as real, w' as real + 1.0, rho);
    assert (passed + w' - w) as real + 1.0 == passed as real + (w' as real + 1.0) - w as real;
    TimesSum(passed as real + (w' as real + 1.0), w as real, rho);
    if w == 0 {
      ZeroTimes(rho);
    }
    hide Times;
  }

  /** From one grant to a later one: burst, the limit's pace for the time between, and a nanosecond's worth. */
  lemma BetweenGrants(bs: seq<Bucket>, rs: seq<Reservation>, cs: seq<Call>, i: nat, j: nat)
    requires Requests(bs, rs, cs) && i <= j < |cs| && rs[i].ok && rs[j].ok
    ensures Granted(rs, i, j + 1) as real
            < bs[0].burst as real + Times((rs[j].timeToAct - rs[i].timeToAct) as real + 1.0, PerNs(bs[0].limit))
  {
    hide *;
    RhoPositive(bs, rs, cs);
    var rho := PerNs(bs[0].limit);
    GrantLeaves(bs, rs, cs, i);
    GrantLeaves(bs, rs, cs, j);
    Drained(bs, rs, cs, i + 1, j + 1);
    WaitBounds(bs[0].limit, bs[i + 1].tokens);
    WaitBounds(bs[0].limit, bs[j + 1].tokens);
    SplitFirst(rs, i, j + 1);
    WindowArith(rho, bs[0].burst, rs[i].tokens, bs[i + 1].tokens, Wait(bs[0].limit, bs[i + 1].tokens), Granted(rs, i + 1, j + 1),
                bs[j + 1].tokens, Wait(bs[0].limit, bs[j + 1].tokens), bs[j + 1].last - bs[i + 1].last);
  }

  lemma {:induction false} SplitFirst(rs: seq<Reservation>, i: nat, j: nat)
    requires i < j <= |rs|
    ensures Granted(rs, i, j) == Got(rs[i]) + Granted(rs, i + 1, j)
    decreases j - i
  {
    if i + 1 < j {
      SplitFirst(rs, i, j - 1);
    } else {
      assert Granted(rs, i, i) == 0;
    }
  }

  predicate InWindow(r: Reservation, a: int, len: nat) {
    r.ok && a <= r.timeToAct <= a + len
  }

  /** The tokens granted among the first k requests to be used from a to a + len. */
  function GrantedIn(rs: seq<Reservation>, k: nat, a: int, len: nat): nat
    requires k <= |rs|
  {
    if k == 0 then 0 else GrantedIn(rs, k - 1, a, len) + if InWindow(rs[k - 1], a, len) then Got(rs[k - 1]) else 0
  }

  lemma {:induction false} FirstIn(rs: seq<Reservation>, k: nat, a: int, len: nat) returns (i: nat)
    requires 0 < k <= |rs| && InWindow(rs[k - 1], a, len)
    ensures i < k && InWindow(rs[i], a, len) && GrantedIn(rs, k, a, len) <= Granted(rs, i, k)
  {
    var m := k - 1;
    while m > 0 && GrantedIn(rs, m, a, len) > 0 && !InWindow(rs[m - 1], a, len)
      invariant 0 <= m <= k - 1 && GrantedIn(rs, m, a, len) == GrantedIn(rs, k - 1, a, len)
    {
      m := m - 1;
    }
    if m == 0 || GrantedIn(rs, m, a, len) == 0 {
      i := k - 1;
      assert Granted(rs, i, i) == 0;
    } else {
      i := FirstIn(rs, m, a, len);
      GrantedGrows(rs, i, m, k - 1);
    }
  }

  lemma {:induction false} GrantedGrows(rs: seq<Reservation>, i: nat, m: nat, k: nat)
    requires i <= m <= k <= |rs|
    ensures Granted(rs, i, m) <= Granted(rs, i, k)
    decreases k - m
  {
    if m < k {
      GrantedGrows(rs, i, m, k - 1);
    }
  }

  /** In any window of len nanoseconds at most the burst, the limit's pace for len, and a nanosecond's worth. */
  lemma {:induction false} WindowBound(bs: seq<Bucket>, rs: seq<Reservation>, cs: seq<Call>, k: nat, a: int, len: nat)
    requires Requests(bs, rs, cs) && k <= |cs|
    ensures GrantedIn(rs, k, a, len) as real < bs[0].burst as real + Times(len as real + 1.0, PerNs(bs[0].limit))
  {
    RequestsValid(bs, rs, cs, 0);
    var rho := PerNs(bs[0].limit);
    assert rho > 0.0;
    ZeroTimes(rho);
    TimesLt(0.0, len as real + 1.0, rho);
    hide Requests, Times, PerNs;
    if k > 0 {
      if InWindow(rs[k - 1], a, len) {
        var i := FirstIn(rs, k, a, len);
        BetweenGrants(bs, rs, cs, i, k - 1);
        TimesLe((rs[k - 1].timeToAct - rs[i].timeToAct) as real + 1.0, len as real + 1.0, rho);
      } else {
        WindowBound(bs, rs, cs, k - 1, a, len);
      }
    }
  }

  lemma OrderArith(rho: real, tau: real, w: int, tau': real, w': int, passed: int)
    requires rho > 0.0 && w >= 0 && w' >= 0 && passed >= 0
    requires w > 0 ==> Times(w as real, rho) <= -tau
    requires Times(w' as real + 1.0, rho) > -tau'
    requires tau' <= tau + Times(passed as real, rho)
    ensures w <= passed + w'
  {
    if w > 0 {
      TimesSum(w' as real + 1.0, passed as real, rho);
      if w as real >= w' as real + 1.0 + passed as real {
        TimesLe(w' as real + 1.0 + passed as real, w as real, rho);
      }
    }
  }

  /** Later grants are never to be used earlier. */
  lemma TimesNeverDecrease(bs: seq<Bucket>, rs: seq<Reservation>, cs: seq<Call>, i: nat, j: nat)
    requires Requests(bs, rs, cs) && i <= j < |cs| && rs[i].ok && rs[j].ok
    ensures rs[i].timeToAct <= rs[j].timeToAct
  {
    hide *;
    RhoPositive(bs, rs, cs);
    var rho := PerNs(bs[0].limit);
    GrantLeaves(bs, rs, cs, i);
    GrantLeaves(bs, rs, cs, j);
    Drained(bs, rs, cs, i + 1, j + 1);
    WaitBounds(bs[0].limit, bs[i + 1].tokens);
    WaitBounds(bs[0].limit, bs[j + 1].tokens);
    OrderArith(rho, bs[i + 1].tokens, Wait(bs[0].limit, bs[i + 1].tokens),
               bs[j + 1].tokens, Wait(bs[0].limit, bs[j + 1].tokens), bs[j + 1].last - bs[i + 1].last);
  }
}
