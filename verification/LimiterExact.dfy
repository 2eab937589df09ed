/** What the token bucket grants, exactly: the lower halves to the bounds of RateLimiter, and cancelling among others. */
module LimiterExact {
  import opened Powers
  import opened RateLimiter

  /** What there would be at time now if the bucket had no brim; a clock that went back earns nothing. */
  function Unbounded(b: Bucket, now: int): real {
    b.tokens + Times(Max(now - b.last, 0) as real, PerNs(b.limit))
  }

  // Advancing.

  lemma Pace(limit: real)
    requires limit > 0.0
    ensures PerNs(limit) > 0.0 && Times(0.0, PerNs(limit)) == 0.0 && Times(1.0, PerNs(limit)) == PerNs(limit)
  {
  }

  /** Everything earned counts, exactly, until the bucket is full; full is less than a nanosecond's worth below the burst. */
  lemma AdvanceExactly(b: Bucket, now: int)
    requires Valid(b)
    ensures Unbounded(b, now) <= b.burst as real ==> AdvancedTokens(b, now) == Unbounded(b, now)
    ensures Unbounded(b, now) > b.burst as real ==>
              b.burst as real - PerNs(b.limit) < AdvancedTokens(b, now) <= b.burst as real
  {
    var r, room := PerNs(b.limit), b.burst as real - b.tokens;
    var passed, cap := Max(now - b.last, 0), DurationFromTokens(b.limit, room);
    assert now - AdvancedLast(b, now) == passed;
    DurationBounds(b.limit, room);
    Pace(b.limit);
    TokensAre(b.limit, Min(passed, cap));
    hide Times, PerNs, TokensFromDuration, DurationFromTokens;
    if passed <= cap {
      TimesLe(passed as real, cap as real, r);
    } else {
      TimesLe(cap as real + 1.0, passed as real, r);
      TimesSum(cap as real, 1.0, r);
    }
  }

  // Requests.

  /** A debt can be earned within max nanoseconds, by the truncated delay. */
  lemma WaitWithin(limit: real, tokens: real, max: int)
    requires limit > 0.0
    ensures Wait(limit, tokens) <= max <==> max >= 0 && -tokens < Times(max as real + 1.0, PerNs(limit))
    ensures -tokens < PerNs(limit) ==> Wait(limit, tokens) == 0
  {
    var r, w := PerNs(limit), Wait(limit, tokens);
    Pace(limit);
    WaitBounds(limit, tokens);
    hide Times, PerNs, Wait;
    if w <= max {
      TimesLe(w as real + 1.0, max as real + 1.0, r);
    } else if max >= 0 {
      TimesLe(max as real + 1.0, w as real, r);
    }
    if w > 0 {
      TimesLe(1.0, w as real, r);
    }
  }

  /** A request is granted exactly if it is no more than the burst and what it asks for is there or will be earned within
      the time its caller would wait, up to the nanosecond. */
  lemma GrantedExactly(b: Bucket, now: int, n: int, max: int)
    requires Valid(b)
    ensures Reserve(b, now, n, max).1.ok <==>
            && n <= b.burst && max >= 0
            && n as real < Unbounded(b, now) + Times(max as real + 1.0, PerNs(b.limit))
  {
    AdvanceExactly(b, now);
    Pace(b.limit);
    WaitWithin(b.limit, AdvancedTokens(b, now) - n as real, max);
    if max >= 0 {
      TimesLe(1.0, max as real + 1.0, PerNs(b.limit));
    }
    hide AdvancedTokens, Wait, Times, PerNs, Unbounded;
  }

  /** After idling until full any request up to the burst is granted, to be used at once. */
  lemma IdleGrants(b: Bucket, now: int, n: int, max: nat)
    requires Valid(b) && n <= b.burst && Unbounded(b, now) >= b.burst as real
    ensures var r := Reserve(b, now, n, max).1; r.ok && r.timeToAct == now && r.tokens == n
  {
    AdvanceExactly(b, now);
    Pace(b.limit);
    WaitWithin(b.limit, AdvancedTokens(b, now) - n as real, max);
    hide AdvancedTokens, Wait, Times, PerNs, Unbounded;
  }

  /** A new limit counts from now on, and the old one until now. */
  lemma LimitsInTurn(b: Bucket, now: int, limit: real, later: int)
    requires Valid(b) && limit > 0.0 && later >= now
    ensures var b' := SetLimit(b, now, limit);
            && Valid(b') && b'.burst == b.burst && b'.lastEvent == b.lastEvent
            && (Unbounded(b, now) <= b.burst as real ==>
                  Unbounded(b', later) == Unbounded(b, now) + Times((later - now) as real, PerNs(limit)))
            && (Unbounded(b, now) > b.burst as real ==>
                  Unbounded(b', later) > b.burst as real - PerNs(b.limit) + Times((later - now) as real, PerNs(limit)))
  {
    AdvanceExactly(b, now);
    hide AdvancedTokens, Times, PerNs;
  }

  // Runs.

  /** How one request at a time not before the last moves the tokens, exactly. */
  lemma RequestStep(b: Bucket, now: int, n: nat, max: int)
    requires Valid(b) && now >= b.last
    ensures var (b', r) := Reserve(b, now, n, max);
            && (!r.ok ==> b' == b)
            && (r.ok ==> b'.last == now && r.tokens == n
                         && b'.tokens == AdvancedTokens(b, now) - n as real)
  {
    hide AdvancedTokens, Wait;
  }

  /** The account of a run: the tokens are what there was, at the start or where the bucket was full last, and what has been
      earned since, less what has been granted since. */
  predicate Account(bs: seq<Bucket>, rs: seq<Reservation>, j: nat, from: nat, time: int, full: real)
    requires from <= j < |bs| && j <= |rs|
  {
    bs[j].tokens == full + Times((bs[j].last - time) as real, PerNs(bs[0].limit)) - Granted(rs, from, j) as real
  }

  /** The account starts with the run, or with a request that found the bucket full. */
  predicate Opened(bs: seq<Bucket>, cs: seq<Call>, from: nat, time: int, full: real)
    requires 0 < |bs| == |cs| + 1
  {
    || (from == 0 && time == bs[0].last && full == bs[0].tokens)
    || (from < |cs| && time == cs[from].now && Unbounded(bs[from], time) > bs[from].burst as real
        && bs[0].burst as real - PerNs(bs[0].limit) < full <= bs[0].burst as real)
  }

  lemma RequestIs(bs: seq<Bucket>, rs: seq<Reservation>, cs: seq<Call>, i: nat)
    requires Requests(bs, rs, cs) && i < |cs|
    ensures |bs| == |cs| + 1 && |rs| == |cs| && bs[i].limit > 0.0
    ensures var c := cs[i];
            && c.ReserveCall? && c.n >= 0 && c.now >= (if i == 0 then bs[0].last else cs[i - 1].now)
            && (bs[i + 1], rs[i]) == Reserve(bs[i], c.now, c.n, c.maxFutureReserve)
  {
    assert (bs[i + 1], rs[i]) == Reserve(bs[i], cs[i].now, cs[i].n, cs[i].maxFutureReserve);
    hide Reserve, Valid;
  }

  /** Request i of a run, and what it leaves. */
  lemma RequestAt(bs: seq<Bucket>, rs: seq<Reservation>, cs: seq<Call>, i: nat)
    requires Requests(bs, rs, cs) && i < |cs|
    ensures |bs| == |cs| + 1 && |rs| == |cs|
    ensures var (b, b', c, r) := (bs[i], bs[i + 1], cs[i], rs[i]);
            && c.ReserveCall? && c.n >= 0
            && Valid(b) && b.limit == bs[0].limit > 0.0 && b.burst == bs[0].burst && c.now >= b.last
            && (b', r) == Reserve(b, c.now, c.n, c.maxFutureReserve)
            && (!r.ok ==> b' == b && Got(r) == 0)
            && (r.ok ==> b'.last == c.now && Got(r) == c.n && b'.tokens == AdvancedTokens(b, c.now) - c.n as real)
  {
    hide *;
    RequestIs(bs, rs, cs, i);
    RequestsValid(bs, rs, cs, i);
    RequestStep(bs[i], cs[i].now, cs[i].n, cs[i].maxFutureReserve);
    GotIs(rs[i]);
  }

  lemma GotIs(r: Reservation)
    ensures Got(r) == if r.ok && r.tokens >= 0 then r.tokens else 0
  {
  }

  lemma {:induction false} Accounts(bs: seq<Bucket>, rs: seq<Reservation>, cs: seq<Call>, j: nat)
      returns (from: nat, time: int, full: real)
    requires Requests(bs, rs, cs) && j < |bs|
    ensures |bs| == |cs| + 1 && |rs| == |cs| && from <= j
    ensures Opened(bs, cs, from, time, full) && Account(bs, rs, j, from, time, full)
  {
    hide *;
    RhoPositive(bs, rs, cs);
    if j == 0 {
      from, time, full := 0, bs[0].last, bs[0].tokens;
      AccountStart(bs, rs, cs);
    } else {
      from, time, full := Accounts(bs, rs, cs, j - 1);
      RequestAt(bs, rs, cs, j - 1);
      if rs[j - 1].ok && Unbounded(bs[j - 1], cs[j - 1].now) > bs[j - 1].burst as real {
        from, time, full := j - 1, cs[j - 1].now, AdvancedTokens(bs[j - 1], cs[j - 1].now);
        AccountReopens(bs, rs, cs, j);
      } else {
        AccountGoesOn(bs, rs, cs, j, from, time, full);
      }
    }
  }

  lemma AccountStart(bs: seq<Bucket>, rs: seq<Reservation>, cs: seq<Call>)
    requires |bs| == |cs| + 1 && |rs| == |cs| && bs[0].limit > 0.0
    ensures Opened(bs, cs, 0, bs[0].last, bs[0].tokens) && Account(bs, rs, 0, 0, bs[0].last, bs[0].tokens)
  {
    Pace(bs[0].limit);
    assert Granted(rs, 0, 0) == 0;
    hide Times, PerNs;
  }

  lemma AccountReopens(bs: seq<Bucket>, rs: seq<Reservation>, cs: seq<Call>, j: nat)
    requires Requests(bs, rs, cs) && 0 < j < |bs| == |cs| + 1 && |rs| == |cs| && rs[j - 1].ok && bs[j - 1].limit > 0.0
    requires Unbounded(bs[j - 1], cs[j - 1].now) > bs[j - 1].burst as real
    ensures var (time, full) := (cs[j - 1].now, AdvancedTokens(bs[j - 1], cs[j - 1].now));
            Opened(bs, cs, j - 1, time, full) && Account(bs, rs, j, j - 1, time, full)
  {
    hide Requests, Reserve, AdvancedTokens, Times, PerNs, Unbounded, Granted, Got;
    RequestAt(bs, rs, cs, j - 1);
    AdvanceExactly(bs[j - 1], cs[j - 1].now);
    Pace(bs[0].limit);
    GrantedStep(rs, j - 1, j);
  }

  lemma AccountGoesOn(bs: seq<Bucket>, rs: seq<Reservation>, cs: seq<Call>, j: nat, from: nat, time: int, full: real)
    requires Requests(bs, rs, cs) && 0 < j < |bs| == |cs| + 1 && |rs| == |cs| && from <= j - 1
    requires rs[j - 1].ok ==> Unbounded(bs[j - 1], cs[j - 1].now) <= bs[j - 1].burst as real
    requires Account(bs, rs, j - 1, from, time, full)
    ensures Account(bs, rs, j, from, time, full)
  {
    hide Requests, Reserve, AdvancedTokens, Times, PerNs, Granted, Got;
    RequestAt(bs, rs, cs, j - 1);
    GrantedStep(rs, from, j);
    var b, c := bs[j - 1], cs[j - 1];
    if rs[j - 1].ok {
      AdvanceExactly(b, c.now);
      TimesSum((b.last - time) as real, (c.now - b.last) as real, PerNs(bs[0].limit));
    }
  }

  lemma GrantedStep(rs: seq<Reservation>, from: nat, j: nat)
    requires from < j <= |rs|
    ensures Granted(rs, from, j) == Granted(rs, from, j - 1) + Got(rs[j - 1])
    ensures Granted(rs, j - 1, j) == Got(rs[j - 1])
  {
    assert Granted(rs, j - 1, j - 1) == 0;
  }

  /** In every run a request is granted exactly if it is no more than the burst and, with all that has been granted since
      the bucket was full last, less than what there was then and what is earned by the time its caller would wait. */
  lemma RunGrantsExactly(bs: seq<Bucket>, rs: seq<Reservation>, cs: seq<Call>, i: nat)
      returns (from: nat, time: int, full: real)
    requires Requests(bs, rs, cs) && i < |cs|
    ensures |bs| == |cs| + 1 && |rs| == |cs| && from <= i && Opened(bs, cs, from, time, full)
    ensures rs[i].ok <==>
            && cs[i].n <= bs[0].burst && cs[i].maxFutureReserve >= 0
            && (cs[i].n + Granted(rs, from, i)) as real
               < full + Times((cs[i].now - time + cs[i].maxFutureReserve) as real + 1.0, PerNs(bs[0].limit))
  {
    hide Requests, Reserve, PerNs, Times, Granted, Opened;
    RhoPositive(bs, rs, cs);
    from, time, full := Accounts(bs, rs, cs, i);
    RequestAt(bs, rs, cs, i);
    var b, c := bs[i], cs[i];
    GrantedExactly(b, c.now, c.n, c.maxFutureReserve);
    var r := PerNs(bs[0].limit);
    TimesSum((b.last - time) as real, (c.now - b.last) as real, r);
    TimesSum((c.now - time) as real, c.maxFutureReserve as real + 1.0, r);
    assert (c.now - time + c.maxFutureReserve) as real + 1.0 == (c.now - time) as real + (c.maxFutureReserve as real + 1.0);
  }

  // Cancelling among other reservations.

  /** w whole nanoseconds earn x, and one more would be more. */
  predicate Covers(w: int, x: real, r: real) {
    Times(w as real, r) <= x < Times(w as real + 1.0, r)
  }

  lemma CoversSum(w: int, v: int, u: int, x: real, y: real, r: real)
    requires r > 0.0 && Covers(w, x, r) && Covers(v, y, r) && Covers(u, x + y, r)
    ensures w + v <= u <= w + v + 1
  {
    TimesSum(w as real, v as real, r);
    TimesSum(w as real + 1.0, v as real + 1.0, r);
    if u as real >= w as real + v as real + 2.0 {
      TimesLe(w as real + 1.0 + (v as real + 1.0), u as real, r);
    }
    if u as real + 1.0 <= w as real + v as real {
      TimesLe(u as real + 1.0, w as real + v as real, r);
    }
    hide Times;
  }

  /** What was reserved in between, by the delays. */
  lemma CoversBetween(w: int, u: int, x: real, y: real, r: real)
    requires r > 0.0 && Covers(w, x, r) && Covers(u, x + y, r)
    ensures y - r < Times((u - w) as real, r) < y + r
  {
    Pace(1_000_000_000.0 * r);
    TimesSum(u as real, w as real, r);
    TimesSum(w as real, 1.0, r);
    TimesSum(u as real, 1.0, r);
    assert Times(1.0, r) == r;
    hide Times;
  }

  lemma NegativeDuration(limit: real, n: nat)
    requires limit > 0.0
    ensures DurationFromTokens(limit, -(n as real)) == -DurationFromTokens(limit, n as real)
  {
    var q := n as real / limit;
    assert q * limit == n as real;
    QuotientSign(q, limit, n as real);
    DivideNegative(n as real, limit);
  }

  lemma DivideNegative(x: real, y: real)
    requires y > 0.0
    ensures (-x) / y == -(x / y)
  {
    var q := x / y;
    assert q * y == x;
    assert (-q) * y == -x;
    RMulCancel((-x) / y, -q, y);
  }

  lemma WaitCovers(limit: real, tokens: real)
    requires limit > 0.0 && tokens < 0.0
    ensures Covers(Wait(limit, tokens), -tokens, PerNs(limit)) && Wait(limit, tokens) >= 0
  {
    DurationBounds(limit, -tokens);
    hide DurationFromTokens, Times, PerNs;
  }

  /** Two reservations made at the same time, the first of which has to wait already. */
  predicate BothWait(b: Bucket, now: int, n1: nat, n2: nat, max: int) {
    && b.limit > 0.0 && b.tokens <= b.burst as real && n1 > 0 && n2 > 0
    && var (b1, r1) := Reserve(b, now, n1, max);
       r1.ok && b1.tokens < 0.0 && Reserve(b1, now, n2, max).1.ok
  }

  /** Of both the tokens and the times of the two. */
  lemma BothAre(b: Bucket, now: int, n1: nat, n2: nat, max: int)
    requires BothWait(b, now, n1, n2, max)
    ensures var (b1, r1) := Reserve(b, now, n1, max);
            var (b2, r2) := Reserve(b1, now, n2, max);
            var t := AdvancedTokens(b, now) - n1 as real;
            && t < 0.0 && AdvancedTokens(b, now) <= b.burst as real
            && b1 == b.(tokens := t, last := now, lastEvent := r1.timeToAct)
            && r1 == Reservation(true, n1, now + Wait(b.limit, t), b.limit)
            && b2 == b.(tokens := t - n2 as real, last := now, lastEvent := r2.timeToAct)
            && r2 == Reservation(true, n2, now + Wait(b.limit, t - n2 as real), b.limit)
            && Covers(r1.timeToAct - now, -t, PerNs(b.limit)) && r1.timeToAct >= now
            && Covers(r2.timeToAct - now, -t + n2 as real, PerNs(b.limit)) && r2.timeToAct >= now
  {
    AdvanceBounds(b, now);
    var b1 := Reserve(b, now, n1, max).0;
    AdvanceBounds(b1, now);
    WaitCovers(b.limit, b1.tokens);
    WaitCovers(b.limit, b1.tokens - n2 as real);
    hide AdvancedTokens, Wait, Covers, PerNs;
  }

  /** Cancelling the first leaves what the second has reserved reserved: only the difference is given back, up to a
      nanosecond's worth. */
  lemma CancelSparesLater(b: Bucket, now: int, n1: nat, n2: nat, max: int)
    requires BothWait(b, now, n1, n2, max)
    ensures var (b1, r1) := Reserve(b, now, n1, max);
            var b2 := Reserve(b1, now, n2, max).0;
            var back := b2.tokens + Max(n1 - n2, 0) as real;
            var c := Cancel(b2, r1, now);
            && back - PerNs(b.limit) < c.tokens < back + PerNs(b.limit)
            && (r1.timeToAct != b2.lastEvent ==> c.lastEvent == b2.lastEvent)
  {
    hide Reserve, AdvancedTokens, Covers, Wait, Times, PerNs, TokensFromDuration, DurationFromTokens;
    BothAre(b, now, n1, n2, max);
    var (b1, r1) := Reserve(b, now, n1, max);
    var (b2, r2) := Reserve(b1, now, n2, max);
    Pace(b.limit);
    CoversBetween(r1.timeToAct - now, r2.timeToAct - now, -b1.tokens, n2 as real, PerNs(b.limit));
    TokensAre(b.limit, r2.timeToAct - r1.timeToAct);
    AdvanceBounds(b2, now);
  }

  /** Cancelling both, the later first, gives everything back, up to a nanosecond's worth. */
  lemma CancelsUndo(b: Bucket, now: int, n1: nat, n2: nat, max: int)
    requires BothWait(b, now, n1, n2, max)
    ensures var (b1, r1) := Reserve(b, now, n1, max);
            var (b2, r2) := Reserve(b1, now, n2, max);
            var c := Cancel(Cancel(b2, r2, now), r1, now);
            AdvancedTokens(b, now) - PerNs(b.limit) <= c.tokens <= AdvancedTokens(b, now)
  {
    hide Reserve, AdvancedTokens, Covers, Wait, Times, PerNs, TokensFromDuration, DurationFromTokens;
    BothAre(b, now, n1, n2, max);
    var (b1, r1) := Reserve(b, now, n1, max);
    var (b2, r2) := Reserve(b1, now, n2, max);
    Pace(b.limit);
    LaterUndone(b2, r2, now, n2, r1.timeToAct - now, -b1.tokens);
    var c := Cancel(b2, r2, now);
    AdvanceBounds(c, now);
    TokensAre(b.limit, c.lastEvent - r1.timeToAct);
  }

  lemma LaterUndone(b: Bucket, r: Reservation, now: int, n: nat, w: int, x: real)
    requires b.limit > 0.0 && n > 0 && b.last == now && b.lastEvent == r.timeToAct && r == Reservation(true, n, r.timeToAct, b.limit)
    requires w >= 0 && Covers(w, x, PerNs(b.limit)) && Covers(r.timeToAct - now, x + n as real, PerNs(b.limit))
    requires b.tokens == -x - n as real && x > 0.0
    ensures var c := Cancel(b, r, now);
            c == b.(tokens := -x, lastEvent := c.lastEvent) && w <= c.lastEvent - now <= w + 1
  {
    var v := DurationFromTokens(b.limit, n as real);
    NegativeDuration(b.limit, n);
    DurationBounds(b.limit, n as real);
    Pace(b.limit);
    CoversSum(w, v, r.timeToAct - now, x, n as real, PerNs(b.limit));
    TokensAre(b.limit, 0);
    AdvanceBounds(b, now);
    hide AdvancedTokens, Covers, Times, PerNs, TokensFromDuration, DurationFromTokens;
  }
}
