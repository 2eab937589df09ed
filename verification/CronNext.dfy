/** The search for the next activation of a cron schedule (job/spec.go), in UTC. */
module CronNext {
  import opened Calendar
  import opened CronMask

  datatype Schedule = Schedule(second: Mask, minute: Mask, hour: Mask, dom: Mask, month: Mask, dow: Mask)

  datatype Activation = Never | At(time: Time)

  /** With a star in one of the two day fields both must match, otherwise either. */
  predicate DayMatches(s: Schedule, t: Time) {
    var domMatch := t.day in s.dom;
    var dowMatch := Weekday(t) in s.dow;
    if STAR_BIT in s.dom || STAR_BIT in s.dow then domMatch && dowMatch else domMatch || dowMatch
  }

  predicate Matches(s: Schedule, t: Time) {
    t.month in s.month && DayMatches(s, t) && t.hour in s.hour && t.minute in s.minute && t.second in s.second
  }

  /** Nothing matches from a on and before b. */
  ghost predicate Skipped(s: Schedule, a: Time, b: Time) {
    forall u :: Civil(u) && !Before(u, a) && Before(u, b) ==> !Matches(s, u)
  }

  // Once a field has been moved, every field that does not match yet has everything below it at its start.

  predicate MonthOk(s: Schedule, t: Time) {
    t.month in s.month || t == MonthStart(t)
  }

  predicate DayOk(s: Schedule, t: Time) {
    DayMatches(s, t) || t == DayStart(t)
  }

  predicate HourOk(s: Schedule, t: Time) {
    t.hour in s.hour || t == HourStart(t)
  }

  predicate MinuteOk(s: Schedule, t: Time) {
    t.minute in s.minute || t == MinuteStart(t)
  }

  predicate AllOk(s: Schedule, t: Time) {
    MonthOk(s, t) && DayOk(s, t) && HourOk(s, t) && MinuteOk(s, t)
  }

  ghost predicate Searching(s: Schedule, t0: Time, t: Time, added: bool) {
    Civil(t) && !Before(t, t0) && Skipped(s, t0, t) && (added ==> AllOk(s, t))
  }

  lemma SkippedTrans(s: Schedule, a: Time, b: Time, c: Time)
    requires Skipped(s, a, b) && Skipped(s, b, c)
    ensures Skipped(s, a, c)
  {
    hide Before, Matches, Civil;
  }

  /** Moving on to c, past times that all fail, keeps the search going. */
  lemma MovedOn(s: Schedule, t0: Time, b: Time, c: Time)
    requires Civil(b) && !Before(b, t0) && Skipped(s, t0, b)
    requires Civil(c) && Skipped(s, b, c) && Before(b, c) && AllOk(s, c)
    ensures Searching(s, t0, c, true)
  {
    SkippedTrans(s, t0, b, c);
    hide Skipped, AllOk, Civil;
  }

  lemma MonthMove(s: Schedule, t: Time)
    requires Civil(t) && t.month !in s.month
    ensures var c := AddMonth(MonthStart(t));
            && Civil(c) && Before(t, c) && Skipped(s, t, c) && AllOk(s, c) && c == MonthStart(c)
            && (c.month == 1 || (c.year == t.year && c.month == t.month + 1))
  {
    hide DayMatches;
  }

  lemma DayMove(s: Schedule, t: Time)
    requires Civil(t) && !DayMatches(s, t) && t.month in s.month
    ensures var c := AddDay(DayStart(t));
            && Civil(c) && Before(t, c) && Skipped(s, t, c) && AllOk(s, c) && c == DayStart(c)
            && (c.day == 1 || (c.year == t.year && c.month == t.month && c.day == t.day + 1))
  {
    var c := AddDay(DayStart(t));
    DayEnd(t);
    forall u | Civil(u) && !Before(u, t) && Before(u, c)
      ensures !Matches(s, u)
    {
      InDay(t, u);
      SameDayMatches(s, t, u);
      hide DayMatches, Civil, Before, AddDay;
    }
    hide DayMatches;
  }

  lemma DayEnd(t: Time)
    requires Civil(t)
    ensures var c := AddDay(DayStart(t)); Civil(c) && Before(t, c) && c == DayStart(c)
  {
  }

  /** Before the next midnight it is the same day. */
  lemma InDay(t: Time, u: Time)
    requires Civil(t) && Civil(u) && !Before(u, t) && Before(u, AddDay(DayStart(t)))
    ensures (u.year, u.month, u.day) == (t.year, t.month, t.day)
  {
  }

  lemma HourMove(s: Schedule, t: Time)
    requires Civil(t) && t.hour !in s.hour && t.month in s.month && DayMatches(s, t)
    ensures var c := AddHour(HourStart(t));
            && Civil(c) && Before(t, c) && Skipped(s, t, c) && AllOk(s, c) && c == HourStart(c)
            && (c.hour == 0 || c == HourStart(t).(hour := t.hour + 1))
  {
    SameDayMatches(s, t, HourStart(t).(hour := t.hour + 1));
    hide DayMatches;
  }

  lemma SameDayMatches(s: Schedule, t: Time, u: Time)
    requires (u.year, u.month, u.day) == (t.year, t.month, t.day)
    ensures DayMatches(s, u) == DayMatches(s, t)
  {
  }

  lemma MinuteMove(s: Schedule, t: Time)
    requires Civil(t) && t.minute !in s.minute && t.month in s.month && DayMatches(s, t) && t.hour in s.hour
    ensures var c := AddMinute(MinuteStart(t));
            && Civil(c) && Before(t, c) && Skipped(s, t, c) && AllOk(s, c) && c == MinuteStart(c)
            && (c.minute == 0 || c == MinuteStart(t).(minute := t.minute + 1))
  {
    SameDayMatches(s, t, MinuteStart(t).(minute := t.minute + 1));
    SameDayMatches(s, t, HourStart(t).(hour := t.hour + 1));
    hide DayMatches;
  }

  lemma SecondMove(s: Schedule, t: Time)
    requires Civil(t) && t.second !in s.second && t.minute in s.minute
    requires t.month in s.month && DayMatches(s, t) && t.hour in s.hour
    ensures var c := AddSecond(t);
            && Civil(c) && Before(t, c) && Skipped(s, t, c) && AllOk(s, c)
            && (c.second == 0 || c == t.(second := t.second + 1))
  {
    SameDayMatches(s, t, t.(second := t.second + 1));
    SameDayMatches(s, t, MinuteStart(t).(minute := t.minute + 1));
    SameDayMatches(s, t, HourStart(t).(hour := t.hour + 1));
    hide DayMatches;
  }

  /** A field that has been moved and does not match has everything below it at its start. */
  lemma AtStart(s: Schedule, t: Time)
    requires AllOk(s, t)
    ensures t.month !in s.month ==> t == MonthStart(t)
    ensures !DayMatches(s, t) ==> t == DayStart(t)
    ensures t.hour !in s.hour ==> t == HourStart(t)
    ensures t.minute !in s.minute ==> t == MinuteStart(t)
  {
  }

  // One field at a time. A wrap-around means starting over from the month.

  method MonthLevel(s: Schedule, ghost t0: Time, from: Time, wasAdded: bool) returns (t: Time, added: bool, wrapped: bool)
    requires Searching(s, t0, from, wasAdded)
    ensures Searching(s, t0, t, added) && (t == from || Before(from, t))
    ensures wrapped ==> Before(from, t) && added
    ensures !wrapped ==> t.month in s.month && t.year == from.year
  {
    t, added, wrapped := from, wasAdded, false;
    hide DayMatches, Skipped, AddMonth, AllOk;
    while t.month !in s.month
      invariant Searching(s, t0, t, added) && (t == from || Before(from, t)) && t.year == from.year
      decreases 13 - t.month
    {
      MonthMove(s, t);
      MovedOn(s, t0, t, AddMonth(MonthStart(t)));
      if added {
        AtStart(s, t);
      } else {
        added := true;
        t := MonthStart(t);
      }
      t := AddMonth(t);
      if t.month == 1 {
        wrapped := true;
        return;
      }
    }
  }

  method DayLevel(s: Schedule, ghost t0: Time, from: Time, wasAdded: bool) returns (t: Time, added: bool, wrapped: bool)
    requires Searching(s, t0, from, wasAdded) && from.month in s.month
    ensures Searching(s, t0, t, added) && (t == from || Before(from, t))
    ensures wrapped ==> Before(from, t) && added
    ensures !wrapped ==> t.month in s.month && DayMatches(s, t) && t.year == from.year
  {
    t, added, wrapped := from, wasAdded, false;
    hide DayMatches, Skipped, AddDay, AllOk;
    while !DayMatches(s, t)
      invariant Searching(s, t0, t, added) && (t == from || Before(from, t))
      invariant t.year == from.year && t.month == from.month
      decreases 32 - t.day
    {
      DayMove(s, t);
      MovedOn(s, t0, t, AddDay(DayStart(t)));
      if added {
        AtStart(s, t);
      } else {
        added := true;
        t := DayStart(t);
      }
      t := AddDay(t);
      assert t.hour == 0; // there is no daylight saving in UTC to move midnight
      if t.day == 1 {
        wrapped := true;
        return;
      }
    }
  }

  method HourLevel(s: Schedule, ghost t0: Time, from: Time, wasAdded: bool) returns (t: Time, added: bool, wrapped: bool)
    requires Searching(s, t0, from, wasAdded) && from.month in s.month && DayMatches(s, from)
    ensures Searching(s, t0, t, added) && (t == from || Before(from, t))
    ensures wrapped ==> Before(from, t) && added
    ensures !wrapped ==> t.month in s.month && DayMatches(s, t) && t.hour in s.hour && t.year == from.year
  {
    t, added, wrapped := from, wasAdded, false;
    hide DayMatches, Skipped, AddHour, AllOk;
    while t.hour !in s.hour
      invariant Searching(s, t0, t, added) && (t == from || Before(from, t))
      invariant t.year == from.year && t.month in s.month && DayMatches(s, t)
      decreases 24 - t.hour
    {
      HourMove(s, t);
      MovedOn(s, t0, t, AddHour(HourStart(t)));
      SameDayMatches(s, t, HourStart(t).(hour := t.hour + 1));
      if added {
        AtStart(s, t);
      } else {
        added := true;
        t := HourStart(t);
      }
      t := AddHour(t);
      if t.hour == 0 {
        wrapped := true;
        return;
      }
    }
  }

  method MinuteLevel(s: Schedule, ghost t0: Time, from: Time, wasAdded: bool) returns (t: Time, added: bool, wrapped: bool)
    requires Searching(s, t0, from, wasAdded) && from.month in s.month && DayMatches(s, from) && from.hour in s.hour
    ensures Searching(s, t0, t, added) && (t == from || Before(from, t))
    ensures wrapped ==> Before(from, t) && added
    ensures !wrapped ==> t.month in s.month && DayMatches(s, t) && t.hour in s.hour && t.minute in s.minute && t.year == from.year
  {
    t, added, wrapped := from, wasAdded, false;
    hide DayMatches, Skipped, AddMinute, AllOk;
    while t.minute !in s.minute
      invariant Searching(s, t0, t, added) && (t == from || Before(from, t))
      invariant t.year == from.year && t.month in s.month && DayMatches(s, t) && t.hour in s.hour
      decreases 60 - t.minute
    {
      MinuteMove(s, t);
      MovedOn(s, t0, t, AddMinute(MinuteStart(t)));
      SameDayMatches(s, t, MinuteStart(t).(minute := t.minute + 1));
      if added {
        AtStart(s, t);
      } else {
        added := true;
        t := MinuteStart(t);
      }
      t := AddMinute(t);
      if t.minute == 0 {
        wrapped := true;
        return;
      }
    }
  }

  method SecondLevel(s: Schedule, ghost t0: Time, from: Time, wasAdded: bool) returns (t: Time, added: bool, wrapped: bool)
    requires Searching(s, t0, from, wasAdded) && from.month in s.month && DayMatches(s, from)
    requires from.hour in s.hour && from.minute in s.minute
    ensures Searching(s, t0, t, added) && (t == from || Before(from, t))
    ensures wrapped ==> Before(from, t) && added
    ensures !wrapped ==> Matches(s, t) && t.year == from.year
  {
    t, added, wrapped := from, wasAdded, false;
    hide DayMatches, Skipped, AddSecond, AllOk;
    while t.second !in s.second
      invariant Searching(s, t0, t, added) && (t == from || Before(from, t))
      invariant t.year == from.year && t.month in s.month && DayMatches(s, t)
      invariant t.hour in s.hour && t.minute in s.minute
      decreases 60 - t.second
    {
      SecondMove(s, t);
      MovedOn(s, t0, t, AddSecond(t));
      SameDayMatches(s, t, t.(second := t.second + 1));
      added := true; // whole seconds need no cutting off
      t := AddSecond(t);
      if t.second == 0 {
        wrapped := true;
        return;
      }
    }
  }

  /** One pass over all fields, ended early by a wrap-around. */
  method Pass(s: Schedule, ghost t0: Time, from: Time, wasAdded: bool) returns (t: Time, added: bool, wrapped: bool)
    requires Searching(s, t0, from, wasAdded)
    ensures Searching(s, t0, t, added)
    ensures wrapped ==> Before(from, t)
    ensures !wrapped ==> Matches(s, t) && t.year == from.year
  {
    hide DayMatches, Skipped, AllOk, Matches, Civil;
    t, added, wrapped := MonthLevel(s, t0, from, wasAdded);
    if wrapped {
      return;
    }
    t, added, wrapped := DayLevel(s, t0, t, added);
    if wrapped {
      return;
    }
    t, added, wrapped := HourLevel(s, t0, t, added);
    if wrapped {
      return;
    }
    t, added, wrapped := MinuteLevel(s, t0, t, added);
    if wrapped {
      return;
    }
    t, added, wrapped := SecondLevel(s, t0, t, added);
  }

  /** r is the least whole second after t that matches; Never means there is none up to the end of the limit year. */
  ghost predicate NextAfter(s: Schedule, t: Time, limit: int, r: Activation) {
    match r
    case At(n) =>
      && Civil(n) && Matches(s, n) && Seconds(t) < Seconds(n) && n.year <= limit
      && forall u :: Civil(u) && Seconds(t) < Seconds(u) < Seconds(n) ==> !Matches(s, u)
    case Never =>
      forall u :: Civil(u) && Seconds(t) < Seconds(u) && u.year <= limit ==> !Matches(s, u)
  }

  /** The next activation after the second t. */
  method Next(s: Schedule, t: Time) returns (r: Activation)
    requires Civil(t)
    ensures NextAfter(s, t, AddSecond(t).year + 5, r)
  {
    SecondLater(t);
    hide DayMatches, Skipped, AllOk, Matches, AddSecond, Seconds;
    var t0 := AddSecond(t); // start at the upcoming second
    var cur, added, yearLimit := t0, false, t0.year + 5;
    NothingBefore(s, t0);
    while true
      invariant Searching(s, t0, cur, added)
      decreases yearLimit - cur.year + 1, 12 - cur.month, 31 - cur.day, 23 - cur.hour, 59 - cur.minute, 59 - cur.second
    {
      if cur.year > yearLimit {
        NoneUpTo(s, t, t0, cur, yearLimit);
        return Never;
      }
      var wrapped;
      var next;
      next, added, wrapped := Pass(s, t0, cur, added);
      cur := next;
      if !wrapped {
        FirstMatch(s, t, t0, cur, yearLimit);
        return At(cur);
      }
    }
  }

  lemma NothingBefore(s: Schedule, t0: Time)
    ensures !Before(t0, t0) && Skipped(s, t0, t0)
  {
    hide Matches;
  }

  lemma NoneUpTo(s: Schedule, t: Time, t0: Time, cur: Time, limit: int)
    requires Civil(t) && Civil(t0) && Seconds(t0) == Seconds(t) + 1
    requires Skipped(s, t0, cur) && cur.year > limit
    ensures NextAfter(s, t, limit, Never)
  {
    hide Matches, Seconds, Civil;
    forall u | Civil(u) && Seconds(t) < Seconds(u) && u.year <= limit
      ensures !Matches(s, u)
    {
      BeforeIsEarlier(u, t0);
    }
  }

  lemma FirstMatch(s: Schedule, t: Time, t0: Time, n: Time, limit: int)
    requires Civil(t) && Civil(t0) && Seconds(t0) == Seconds(t) + 1
    requires Civil(n) && !Before(n, t0) && Skipped(s, t0, n) && Matches(s, n) && n.year <= limit
    ensures NextAfter(s, t, limit, At(n))
  {
    hide Matches, Seconds, Civil, Before;
    BeforeIsEarlier(n, t0);
    forall u | Civil(u) && Seconds(t) < Seconds(u) < Seconds(n)
      ensures !Matches(s, u)
    {
      BeforeIsEarlier(u, t0);
      BeforeIsEarlier(u, n);
    }
  }

  /** The answer is determined: there is only one. */
  lemma NextUnique(s: Schedule, t: Time, limit: int, a: Activation, b: Activation)
    requires NextAfter(s, t, limit, a) && NextAfter(s, t, limit, b)
    ensures a == b
  {
    hide Matches, Seconds, Civil;
    if a.At? && b.At? {
      BeforeIsEarlier(a.time, b.time);
    }
  }
}
