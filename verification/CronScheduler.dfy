/** The scheduler loop (job/cron.go): sorting by next activation, and starting what is due. */
module CronScheduler {
  import opened Strconv

  /** An entry's next activation, absent for the zero time. A schedule maps a time to the activation after it. */
  datatype Entry = Entry(id: nat, schedule: int -> Option<int>, next: Option<int>, prev: Option<int>)

  // The order of the entries.

  /** Earlier first, the zero time after every other. */
  predicate Less(a: Entry, b: Entry) {
    if a.next.None? then false
    else if b.next.None? then true
    else a.next.value < b.next.value
  }

  predicate Alike(a: Entry, b: Entry) {
    !Less(a, b) && !Less(b, a)
  }

  /** What a sort needs of its order, and that zero times come last. */
  lemma StrictWeakOrder(a: Entry, b: Entry, c: Entry)
    ensures !Less(a, a)
    ensures Less(a, b) && Less(b, c) ==> Less(a, c)
    ensures Alike(a, b) && Alike(b, c) ==> Alike(a, c)
    ensures a.next.None? && b.next.Some? ==> Less(b, a)
  {
  }

  ghost predicate Sorted(es: seq<Entry>) {
    forall i, j :: 0 <= i < j < |es| ==> !Less(es[j], es[i])
  }

  predicate Due(e: Entry, now: int) {
    e.next.Some? && e.next.value <= now
  }

  function Fired(e: Entry, now: int): Entry {
    e.(prev := e.next, next := e.schedule(now))
  }

  /** Every due entry moves on to its next activation, no other changes. */
  function AfterWake(es: seq<Entry>, now: int): seq<Entry> {
    seq(|es|, i requires 0 <= i < |es| => if Due(es[i], now) then Fired(es[i], now) else es[i])
  }

  function DueIds(es: seq<Entry>, now: int): seq<nat> {
    if es == [] then []
    else DueIds(es[..|es| - 1], now) + if Due(es[|es| - 1], now) then [es[|es| - 1].id] else []
  }

  function WithoutId(es: seq<Entry>, id: nat): seq<Entry> {
    if es == [] then []
    else WithoutId(es[..|es| - 1], id) + if es[|es| - 1].id != id then [es[|es| - 1]] else []
  }

  lemma {:induction false} NoneDue(es: seq<Entry>, now: int, i: nat)
    requires i <= |es| && forall j :: i <= j < |es| ==> !Due(es[j], now)
    ensures DueIds(es, now) == DueIds(es[..i], now)
    decreases |es| - i
  {
    if i < |es| {
      NoneDue(es, now, i + 1);
      assert es[..i + 1][..i] == es[..i];
    } else {
      assert es[..i] == es;
    }
  }

  /** In a sorted list nothing after an entry that is not due is due. */
  lemma BreakSkipsNone(es: seq<Entry>, now: int, i: nat)
    requires Sorted(es) && i < |es| && !Due(es[i], now)
    ensures forall j :: i <= j < |es| ==> !Due(es[j], now)
  {
  }

  lemma AfterWakeLength(es: seq<Entry>, now: int)
    ensures |AfterWake(es, now)| == |es|
  {
  }

  lemma AfterWakeIs(es: seq<Entry>, now: int)
    ensures |AfterWake(es, now)| == |es|
    ensures forall i :: 0 <= i < |es| ==>
              var e := es[i];
              AfterWake(es, now)[i] ==
              if e.next.Some? && e.next.value <= now then Entry(e.id, e.schedule, e.schedule(now), e.next) else e
  {
  }

  /** One more entry of the loop over due entries. */
  lemma WakeStep(es: seq<Entry>, now: int, i: nat, entries: seq<Entry>)
    requires i < |es| && Due(es[i], now) && entries == AfterWake(es[..i], now) + es[i..]
    ensures entries[i] == es[i]
    ensures entries[i := Fired(es[i], now)] == AfterWake(es[..i + 1], now) + es[i + 1..]
    ensures DueIds(es[..i + 1], now) == DueIds(es[..i], now) + [es[i].id]
  {
    assert es[..i + 1][..i] == es[..i];
  }

  /** The end of that loop, early or not. */
  lemma WakeEnd(es: seq<Entry>, now: int, i: nat)
    requires i <= |es| && forall j :: i <= j < |es| ==> !Due(es[j], now)
    ensures AfterWake(es[..i], now) + es[i..] == AfterWake(es, now)
    ensures DueIds(es[..i], now) == DueIds(es, now)
  {
    NoneDue(es, now, i);
  }

  /** How long to sleep: until the first entry's time, or (absent) practically for ever. */
  function Timer(es: seq<Entry>): Option<int> {
    if es == [] then None else es[0].next
  }

  /** No entry becomes due before the timer does. */
  lemma TimerIsFirst(es: seq<Entry>, now: int)
    requires Sorted(es)
    ensures (exists i :: 0 <= i < |es| && Due(es[i], now)) <==> Timer(es).Some? && Timer(es).value <= now
  {
    if es != [] && !Due(es[0], now) {
      BreakSkipsNone(es, now, 0);
    }
  }

  class Cron {
    var entries: seq<Entry>
    var nextID: nat
    /** The jobs started so far, by entry, in order. */
    var started: seq<nat>

    constructor ()
      ensures entries == [] && nextID == 0 && started == []
    {
      entries, nextID, started := [], 0, [];
    }

    /** Add an entry; when the loop is running it computes the first activation. */
    method Schedule(schedule: int -> Option<int>, running: bool, now: int) returns (id: nat)
      modifies this`entries, this`nextID
      ensures id == nextID == old(nextID) + 1
      ensures entries == old(entries) + [Entry(id, schedule, if running then schedule(now) else None, None)]
    {
      nextID := nextID + 1;
      id := nextID;
      var e := Entry(id, schedule, None, None);
      if running {
        e := e.(next := schedule(now));
      }
      entries := entries + [e];
    }

    /** What the loop does before its first iteration. */
    method Start(now: int)
      modifies this`entries
      ensures |entries| == |old(entries)|
      ensures forall i :: 0 <= i < |entries| ==>
                var e := old(entries)[i]; entries[i] == Entry(e.id, e.schedule, e.schedule(now), e.prev)
    {
      var i := 0;
      while i < |entries|
        invariant 0 <= i <= |entries| == |old(entries)|
        invariant forall j :: 0 <= j < i ==>
                    var e := old(entries)[j]; entries[j] == Entry(e.id, e.schedule, e.schedule(now), e.prev)
        invariant forall j :: i <= j < |entries| ==> entries[j] == old(entries)[j]
      {
        var e := entries[i];
        entries := entries[i := e.(next := e.schedule(now))];
        i := i + 1;
      }
    }

    /** The timer fired: run every entry whose time has come. */
    method Wake(now: int)
      requires Sorted(entries)
      modifies this`entries, this`started
      ensures entries == AfterWake(old(entries), now)
      ensures |entries| == |old(entries)|
      ensures forall i :: 0 <= i < |entries| ==>
                var e := old(entries)[i];
                entries[i] == if e.next.Some? && e.next.value <= now then Entry(e.id, e.schedule, e.schedule(now), e.next) else e
      ensures started == old(started) + DueIds(old(entries), now)
    {
      var i := 0;
      ghost var es := entries;
      assert AfterWake(es[..0], now) + es[0..] == es && DueIds(es[..0], now) == [];
      hide AfterWake, DueIds, Fired, Sorted;
      while i < |entries|
        invariant 0 <= i <= |entries| == |es|
        invariant entries == AfterWake(es[..i], now) + es[i..]
        invariant started == old(started) + DueIds(es[..i], now)
      {
        var e := entries[i];
        assert e == es[i] by { AfterWakeLength(es[..i], now); }
        if e.next.None? || e.next.value > now {
          BreakSkipsNone(es, now, i);
          break;
        }
        WakeStep(es, now, i, entries);
        started := started + [e.id];
        entries := entries[i := Fired(e, now)];
        i := i + 1;
      }
      WakeEnd(es, now, i);
      AfterWakeIs(es, now);
    }

    method Remove(id: nat)
      modifies this`entries
      ensures entries == WithoutId(old(entries), id)
    {
      var kept: seq<Entry> := [];
      var i := 0;
      while i < |entries|
        invariant 0 <= i <= |entries|
        invariant entries == old(entries) && kept == WithoutId(entries[..i], id)
      {
        assert entries[..i + 1][..i] == entries[..i];
        if entries[i].id != id {
          kept := kept + [entries[i]];
        }
        i := i + 1;
      }
      assert entries[..i] == entries;
      entries := kept;
    }
  }

  // Runs of the loop.

  datatype State = State(entries: seq<Entry>, nextID: nat)

  datatype Event =
    | Wake(now: int)
    | Add(schedule: int -> Option<int>, now: int)
    | Remove(id: nat)
    | Snapshot

  /** What one event does to the list, sorted beforehand into order. */
  function Apply(order: seq<Entry>, nextID: nat, e: Event): State {
    match e
    case Wake(now) => State(AfterWake(order, now), nextID)
    case Add(schedule, now) => State(order + [Entry(nextID + 1, schedule, schedule(now), None)], nextID + 1)
    case Remove(id) => State(WithoutId(order, id), nextID)
    case Snapshot => State(order, nextID)
  }

  /** The jobs an event starts. */
  function Starts(order: seq<Entry>, e: Event): seq<nat> {
    if e.Wake? then DueIds(order, e.now) else []
  }

  ghost predicate Step(s: State, order: seq<Entry>, e: Event, s': State) {
    multiset(order) == multiset(s.entries) && Sorted(order) && s' == Apply(order, s.nextID, e)
  }

  /** A run: states, the orders the sort chose, and events. */
  ghost predicate Run(ss: seq<State>, orders: seq<seq<Entry>>, es: seq<Event>) {
    && |ss| == |es| + 1 && |orders| == |es|
    && Distinct(ss[0])
    && forall i :: 0 <= i < |es| ==> Step(ss[i], orders[i], es[i], ss[i + 1])
  }

  ghost predicate HasId(es: seq<Entry>, id: nat) {
    exists i :: 0 <= i < |es| && es[i].id == id
  }

  ghost predicate DistinctIds(es: seq<Entry>) {
    forall i, j :: 0 <= i < j < |es| ==> es[i].id != es[j].id
  }

  ghost predicate IdsUpTo(es: seq<Entry>, n: nat) {
    forall i :: 0 <= i < |es| ==> es[i].id <= n
  }

  /** No two entries share an id, and every id has been handed out. */
  ghost predicate Distinct(s: State) {
    DistinctIds(s.entries) && IdsUpTo(s.entries, s.nextID)
  }

  // Sorting keeps the entries.

  lemma InBoth<T>(a: seq<T>, b: seq<T>, i: nat) returns (j: nat)
    requires multiset(a) == multiset(b) && i < |a|
    ensures j < |b| && b[j] == a[i]
  {
    assert a[i] in multiset(b);
    j :| j < |b| && b[j] == a[i];
  }

  /** An element that occurs twice stands at two places. */
  lemma {:induction false} TwoPlaces<T>(s: seq<T>, x: T)
    requires multiset(s)[x] >= 2
    ensures exists i, j :: 0 <= i < j < |s| && s[i] == x && s[j] == x
  {
    var n := |s| - 1;
    assert s == s[..n] + [s[n]];
    if s[n] != x {
      TwoPlaces(s[..n], x);
    } else {
      assert x in multiset(s[..n]);
      var i :| 0 <= i < n && s[..n][i] == x;
      assert s[i] == x && s[n] == x;
    }
  }

  lemma {:induction false} Twice<T>(s: seq<T>, i: nat, j: nat)
    requires i < j < |s| && s[i] == s[j]
    ensures multiset(s)[s[i]] >= 2
  {
    assert s == s[..j] + [s[j]] + s[j + 1..];
    assert s[..j][i] == s[i];
  }

  lemma SortKeepsIds(es: seq<Entry>, order: seq<Entry>, id: nat)
    requires multiset(order) == multiset(es)
    ensures HasId(order, id) <==> HasId(es, id)
  {
    if HasId(order, id) {
      var i :| 0 <= i < |order| && order[i].id == id;
      var j := InBoth(order, es, i);
    }
    if HasId(es, id) {
      var i :| 0 <= i < |es| && es[i].id == id;
      var j := InBoth(es, order, i);
    }
  }

  lemma SortKeepsDistinct(es: seq<Entry>, order: seq<Entry>, n: nat)
    requires multiset(order) == multiset(es) && DistinctIds(es) && IdsUpTo(es, n)
    ensures DistinctIds(order) && IdsUpTo(order, n)
  {
    forall i | 0 <= i < |order|
      ensures order[i].id <= n
    {
      var k := InBoth(order, es, i);
    }
    forall i, j | 0 <= i < j < |order|
      ensures order[i].id != order[j].id
    {
      if order[i] == order[j] {
        Twice(order, i, j);
        TwoPlaces(es, order[i]);
      } else {
        var k := InBoth(order, es, i);
        var l := InBoth(order, es, j);
      }
    }
  }

  // One event.

  lemma {:induction false} WithoutIdOnly(es: seq<Entry>, id: nat, other: nat)
    ensures HasId(WithoutId(es, id), other) <==> HasId(es, other) && other != id
  {
    if es != [] {
      var rest, last := es[..|es| - 1], es[|es| - 1];
      WithoutIdOnly(rest, id, other);
      HasIdSnoc(rest, last, other);
      HasIdSnoc(WithoutId(rest, id), last, other);
      assert es == rest + [last];
      assert WithoutId(rest, id) + [] == WithoutId(rest, id);
    }
  }

  lemma HasIdSnoc(es: seq<Entry>, e: Entry, id: nat)
    ensures HasId(es + [e], id) <==> HasId(es, id) || e.id == id
  {
    var all := es + [e];
    if HasId(es, id) {
      var i :| 0 <= i < |es| && es[i].id == id;
      assert all[i].id == id;
    }
    if e.id == id {
      assert all[|es|].id == id;
    }
  }

  lemma {:induction false} WithoutIdDistinct(es: seq<Entry>, id: nat, n: nat)
    requires DistinctIds(es) && IdsUpTo(es, n)
    ensures DistinctIds(WithoutId(es, id)) && IdsUpTo(WithoutId(es, id), n)
  {
    if es != [] {
      var rest, last := es[..|es| - 1], es[|es| - 1];
      WithoutIdDistinct(rest, id, n);
      WithoutIdOnly(rest, id, last.id);
    }
  }

  lemma ApplyKeepsDistinct(order: seq<Entry>, n: nat, e: Event)
    requires DistinctIds(order) && IdsUpTo(order, n)
    ensures Distinct(Apply(order, n, e))
  {
    if e.Remove? {
      WithoutIdDistinct(order, e.id, n);
    }
  }

  lemma ApplyIds(order: seq<Entry>, n: nat, e: Event, id: nat)
    requires HasId(Apply(order, n, e).entries, id)
    ensures HasId(order, id) || (e.Add? && id == n + 1)
    ensures e.Remove? ==> id != e.id
  {
    match e
    case Wake(now) =>
      var i :| 0 <= i < |order| && AfterWake(order, now)[i].id == id;
      assert order[i].id == id;
    case Add(schedule, now) =>
      HasIdSnoc(order, Entry(n + 1, schedule, schedule(now), None), id);
    case Remove(gone) =>
      WithoutIdOnly(order, gone, id);
    case Snapshot =>
  }

  lemma StepKeepsDistinct(s: State, order: seq<Entry>, e: Event, s': State)
    requires Step(s, order, e, s') && Distinct(s)
    ensures Distinct(s') && s.nextID <= s'.nextID && DistinctIds(order)
  {
    SortKeepsDistinct(s.entries, order, s.nextID);
    ApplyKeepsDistinct(order, s.nextID, e);
  }

  /** An id that has been handed out and is not in the list never comes back. */
  lemma GoneStaysGone(s: State, order: seq<Entry>, e: Event, s': State, id: nat)
    requires Step(s, order, e, s') && id <= s.nextID
    requires !HasId(s.entries, id) || e == Remove(id)
    ensures !HasId(s'.entries, id)
  {
    if HasId(s'.entries, id) {
      ApplyIds(order, s.nextID, e, id);
      SortKeepsIds(s.entries, order, id);
    }
  }

  lemma {:induction false} RunDistinct(ss: seq<State>, orders: seq<seq<Entry>>, es: seq<Event>, i: nat)
    requires Run(ss, orders, es) && i < |ss|
    ensures Distinct(ss[i])
  {
    if i > 0 {
      RunDistinct(ss, orders, es, i - 1);
      assert Step(ss[i - 1], orders[i - 1], es[i - 1], ss[i - 1 + 1]);
      hide Step, Distinct;
      StepKeepsDistinct(ss[i - 1], orders[i - 1], es[i - 1], ss[i]);
    }
  }

  /** The counter never goes back, and only adding moves it. */
  lemma {:induction false} CounterGrows(ss: seq<State>, orders: seq<seq<Entry>>, es: seq<Event>, i: nat, j: nat)
    requires Run(ss, orders, es) && i <= j < |ss|
    ensures ss[i].nextID <= ss[j].nextID
    decreases j
  {
    if i < j {
      CounterGrows(ss, orders, es, i, j - 1);
      RunDistinct(ss, orders, es, j - 1);
      assert Step(ss[j - 1], orders[j - 1], es[j - 1], ss[j - 1 + 1]);
      hide Step, Distinct;
      StepKeepsDistinct(ss[j - 1], orders[j - 1], es[j - 1], ss[j]);
    }
  }

  lemma AddHandsOut(s: State, order: seq<Entry>, e: Event, s': State)
    requires Step(s, order, e, s') && e.Add?
    ensures s'.nextID == s.nextID + 1 && HasId(s'.entries, s'.nextID)
  {
    HasIdSnoc(order, Entry(s.nextID + 1, e.schedule, e.schedule(e.now), None), s.nextID + 1);
  }

  /** No id is handed out twice: what an addition hands out is above every id that was ever in the list before, and above
      what any earlier addition handed out, entries removed meanwhile included. */
  lemma FreshId(ss: seq<State>, orders: seq<seq<Entry>>, es: seq<Event>, i: nat, j: nat)
    requires Run(ss, orders, es) && i <= j < |es| && es[j].Add?
    ensures HasId(ss[j + 1].entries, ss[j + 1].nextID)
    ensures forall id: nat :: HasId(ss[i].entries, id) ==> id < ss[j + 1].nextID
    ensures i < j && es[i].Add? ==> HasId(ss[i + 1].entries, ss[i + 1].nextID) && ss[i + 1].nextID < ss[j + 1].nextID
  {
    assert Step(ss[i], orders[i], es[i], ss[i + 1]) && Step(ss[j], orders[j], es[j], ss[j + 1]);
    RunDistinct(ss, orders, es, i);
    assert forall id: nat :: HasId(ss[i].entries, id) ==> id <= ss[i].nextID;
    CounterGrows(ss, orders, es, i, j);
    hide Run, Step, HasId, Distinct;
    AddHandsOut(ss[j], orders[j], es[j], ss[j + 1]);
    if i < j && es[i].Add? {
      CounterGrows(ss, orders, es, i + 1, j);
      AddHandsOut(ss[i], orders[i], es[i], ss[i + 1]);
    }
  }

  /** How often an id is started by a wake: once if its entry is due, else not at all. */
  function Times(ids: seq<nat>, id: nat): nat {
    if ids == [] then 0 else Times(ids[..|ids| - 1], id) + if ids[|ids| - 1] == id then 1 else 0
  }

  lemma TimesSnoc(ids: seq<nat>, last: nat, id: nat)
    ensures Times(ids + [last], id) == Times(ids, id) + if last == id then 1 else 0
  {
    assert (ids + [last])[..|ids|] == ids;
  }

  ghost predicate DueId(es: seq<Entry>, now: int, id: nat) {
    exists i :: 0 <= i < |es| && es[i].id == id && Due(es[i], now)
  }

  lemma {:induction false} StartedOnce(es: seq<Entry>, now: int, id: nat)
    requires DistinctIds(es)
    ensures Times(DueIds(es, now), id) == if DueId(es, now, id) then 1 else 0
    ensures !HasId(es, id) ==> Times(DueIds(es, now), id) == 0
  {
    if es != [] {
      var rest, last := es[..|es| - 1], es[|es| - 1];
      StartedOnce(rest, now, id);
      TimesSnoc(DueIds(rest, now), last.id, id);
      assert DueIds(rest, now) + [] == DueIds(rest, now);
      assert forall i :: 0 <= i < |rest| ==> rest[i] == es[i];
      assert last.id == id && DueId(es, now, id) ==> Due(last, now);
    }
  }

  /** In every run a wake starts exactly the entries whose time has come, each once, whatever order the sort chose. */
  lemma WakeStartsDue(ss: seq<State>, orders: seq<seq<Entry>>, es: seq<Event>, i: nat, id: nat)
    requires Run(ss, orders, es) && i < |es| && es[i].Wake?
    ensures Times(Starts(orders[i], es[i]), id) == if DueId(ss[i].entries, es[i].now, id) then 1 else 0
  {
    var now := es[i].now;
    RunDistinct(ss, orders, es, i);
    assert Step(ss[i], orders[i], es[i], ss[i + 1]);
    StepKeepsDistinct(ss[i], orders[i], es[i], ss[i + 1]);
    StartedOnce(orders[i], now, id);
    if DueId(ss[i].entries, now, id) {
      var k :| 0 <= k < |ss[i].entries| && ss[i].entries[k].id == id && Due(ss[i].entries[k], now);
      var l := InBoth(ss[i].entries, orders[i], k);
    }
    if DueId(orders[i], now, id) {
      var k :| 0 <= k < |orders[i]| && orders[i][k].id == id && Due(orders[i][k], now);
      var l := InBoth(orders[i], ss[i].entries, k);
    }
  }

  /** After its removal an entry is never in the list again, and never started. */
  lemma {:induction false} RemovedNeverStarts(ss: seq<State>, orders: seq<seq<Entry>>, es: seq<Event>, i: nat, j: nat, id: nat)
    requires Run(ss, orders, es) && i < j < |ss|
    requires es[i] == Remove(id) && id <= ss[i].nextID
    ensures !HasId(ss[j].entries, id) && id <= ss[j].nextID
    ensures j < |es| ==> Times(Starts(orders[j], es[j]), id) == 0
  {
    RunDistinct(ss, orders, es, j - 1);
    assert Step(ss[j - 1], orders[j - 1], es[j - 1], ss[j - 1 + 1]);
    if i + 1 < j {
      RemovedNeverStarts(ss, orders, es, i, j - 1, id);
    }
    hide DueIds;
    GoneStaysGone(ss[j - 1], orders[j - 1], es[j - 1], ss[j], id);
    StepKeepsDistinct(ss[j - 1], orders[j - 1], es[j - 1], ss[j]);
    if j < |es| {
      assert Step(ss[j], orders[j], es[j], ss[j + 1]);
      StepKeepsDistinct(ss[j], orders[j], es[j], ss[j + 1]);
      SortKeepsIds(ss[j].entries, orders[j], id);
      if es[j].Wake? {
        StartedOnce(orders[j], es[j].now, id);
      }
    }
  }

  /** An entry that stays in the list changes only if a wake finds its time come, and then to its next activation. */
  lemma ChangesOnlyByFiring(s: State, order: seq<Entry>, e: Event, s': State, i: nat) returns (k: nat)
    requires Step(s, order, e, s') && i < |s.entries|
    requires HasId(s'.entries, s.entries[i].id) && Distinct(s)
    ensures k < |s'.entries|
    ensures var x := s.entries[i];
            s'.entries[k] == if e.Wake? && x.next.Some? && x.next.value <= e.now
                             then Entry(x.id, x.schedule, x.schedule(e.now), x.next) else x
  {
    k := InBoth(s.entries, order, i);
    StepKeepsDistinct(s, order, e, s');
    if e.Remove? {
      ApplyIds(order, s.nextID, e, s.entries[i].id);
      k := StillThere(order, e.id, k);
    }
  }

  lemma {:induction false} StillThere(es: seq<Entry>, id: nat, i: nat) returns (k: nat)
    requires i < |es| && es[i].id != id
    ensures k < |WithoutId(es, id)| && WithoutId(es, id)[k] == es[i]
  {
    if i == |es| - 1 {
      k := |WithoutId(es, id)| - 1;
    } else {
      k := StillThere(es[..|es| - 1], id, i);
    }
  }

  // From one start to the next.

  /** A schedule that answers strictly later times. */
  ghost predicate Onward(schedule: int -> Option<int>) {
    forall t :: schedule(t).Some? ==> schedule(t).value > t
  }

  /** Right after a wake nothing is due. */
  lemma NothingDueAfter(s: State, order: seq<Entry>, e: Event, s': State, i: nat)
    requires Step(s, order, e, s') && e.Wake? && i < |s'.entries| && Onward(s'.entries[i].schedule)
    ensures s'.entries[i].next.Some? ==> s'.entries[i].next.value > e.now
  {
    var x := order[i];
    assert s'.entries[i].schedule == x.schedule;
    assert Onward(x.schedule);
  }

  lemma InList(es: seq<Entry>, x: Entry) returns (i: nat)
    requires x in es
    ensures i < |es| && es[i] == x && HasId(es, x.id)
  {
    i :| i < |es| && es[i] == x;
  }

  lemma SameEntry(s: State, x: Entry, i: nat)
    requires Distinct(s) && x in s.entries && i < |s.entries| && s.entries[i].id == x.id
    ensures s.entries[i] == x
  {
    var k := InList(s.entries, x);
  }

  /** Event i settles when the entry with this id is to be started: it adds the entry, or it is a wake that starts it. */
  ghost predicate Settles(ss: seq<State>, orders: seq<seq<Entry>>, es: seq<Event>, i: nat, id: nat, schedule: int -> Option<int>)
    requires Run(ss, orders, es) && i < |es|
  {
    || (es[i].Add? && id == ss[i].nextID + 1 && schedule == es[i].schedule)
    || (es[i].Wake? && Times(Starts(orders[i], es[i]), id) > 0
        && exists k :: 0 <= k < |ss[i].entries| && ss[i].entries[k].id == id && ss[i].entries[k].schedule == schedule)
  }

  /** No wake from i on, up to j, starts it. */
  predicate Unstarted(orders: seq<seq<Entry>>, es: seq<Event>, i: nat, j: nat, id: nat)
    requires j <= |es| == |orders|
  {
    forall k :: i <= k < j && es[k].Wake? ==> Times(Starts(orders[k], es[k]), id) == 0
  }

  lemma UnstartedStep(orders: seq<seq<Entry>>, es: seq<Event>, i: nat, j: nat, id: nat)
    requires i < j <= |es| == |orders| && Unstarted(orders, es, i, j, id)
    ensures Unstarted(orders, es, i, j - 1, id)
    ensures es[j - 1].Wake? ==> Times(Starts(orders[j - 1], es[j - 1]), id) == 0
  {
    hide Times, Starts;
  }

  /** What the entry is afterwards. */
  lemma Settled(ss: seq<State>, orders: seq<seq<Entry>>, es: seq<Event>, i: nat, id: nat, schedule: int -> Option<int>)
      returns (x: Entry)
    requires Run(ss, orders, es) && i < |es| && Settles(ss, orders, es, i, id, schedule)
    ensures x in ss[i + 1].entries && x.id == id && x.next == schedule(es[i].now)
  {
    assert Step(ss[i], orders[i], es[i], ss[i + 1]);
    if es[i].Add? {
      x := Entry(id, schedule, schedule(es[i].now), None);
      assert ss[i + 1].entries[|orders[i]|] == x;
    } else {
      RunDistinct(ss, orders, es, i);
      var k :| 0 <= k < |ss[i].entries| && ss[i].entries[k].id == id && ss[i].entries[k].schedule == schedule;
      WakeStartsDue(ss, orders, es, i, id);
      var d :| 0 <= d < |ss[i].entries| && ss[i].entries[d].id == id && Due(ss[i].entries[d], es[i].now);
      assert d == k;
      var l := InBoth(ss[i].entries, orders[i], k);
      x := AfterWake(orders[i], es[i].now)[l];
      assert x in AfterWake(orders[i], es[i].now);
    }
  }

  /** Of an entry that is still in the list and has not been started since: a wake starts it exactly if the time has come
      that its schedule answered when it was added, or when it was started last. */
  lemma StartsExactly(ss: seq<State>, orders: seq<seq<Entry>>, es: seq<Event>, i: nat, j: nat, id: nat,
                      schedule: int -> Option<int>)
    requires Run(ss, orders, es) && i < j < |es| && es[j].Wake? && HasId(ss[j].entries, id)
    requires Settles(ss, orders, es, i, id, schedule) && Unstarted(orders, es, i + 1, j, id)
    ensures Times(Starts(orders[j], es[j]), id) ==
            if schedule(es[i].now).Some? && schedule(es[i].now).value <= es[j].now then 1 else 0
  {
    hide Run, Times, Starts, Settles, DueId;
    RunLengths(ss, orders, es);
    var x := Settled(ss, orders, es, i, id, schedule);
    StaysSettled(ss, orders, es, i + 1, j, x);
    WakeStartsDue(ss, orders, es, j, id);
    RunDistinct(ss, orders, es, j);
    DueIdIs(ss[j], x, es[j].now);
  }

  lemma DueIdIs(s: State, x: Entry, now: int)
    requires Distinct(s) && x in s.entries
    ensures DueId(s.entries, now, x.id) <==> x.next.Some? && x.next.value <= now
  {
    var i := InList(s.entries, x);
    assert Due(x, now) ==> s.entries[i].id == x.id && Due(s.entries[i], now);
    if DueId(s.entries, now, x.id) {
      var k :| 0 <= k < |s.entries| && s.entries[k].id == x.id && Due(s.entries[k], now);
      SameEntry(s, x, k);
    }
  }

  /** An entry that is not started stays as it is for as long as it stays in the list. */
  lemma {:induction false} StaysSettled(ss: seq<State>, orders: seq<seq<Entry>>, es: seq<Event>, i: nat, j: nat, x: Entry)
    requires Run(ss, orders, es) && i <= j < |ss| && x in ss[i].entries && HasId(ss[j].entries, x.id)
    requires Unstarted(orders, es, i, j, x.id)
    ensures x in ss[j].entries
    decreases j
  {
    hide *;
    RunLengths(ss, orders, es);
    if i < j {
      RunAt(ss, orders, es, j - 1);
      UnstartedStep(orders, es, i, j, x.id);
      CounterGrows(ss, orders, es, i, j - 1);
      KnownId(ss, orders, es, i, x);
      HadId(ss[j - 1], orders[j - 1], es[j - 1], ss[j], x.id);
      StaysSettled(ss, orders, es, i, j - 1, x);
      if es[j - 1].Wake? {
        NotStarted(ss, orders, es, j - 1, x);
      }
      StaysOnce(ss[j - 1], orders[j - 1], es[j - 1], ss[j], x);
    }
  }

  lemma NotStarted(ss: seq<State>, orders: seq<seq<Entry>>, es: seq<Event>, i: nat, x: Entry)
    requires Run(ss, orders, es) && i < |es| && es[i].Wake? && x in ss[i].entries
    requires Times(Starts(orders[i], es[i]), x.id) == 0
    ensures !(x.next.Some? && x.next.value <= es[i].now)
  {
    hide *;
    RunAt(ss, orders, es, i);
    WakeStartsDue(ss, orders, es, i, x.id);
    DueIdIs(ss[i], x, es[i].now);
  }

  lemma HadId(s: State, order: seq<Entry>, e: Event, s': State, id: nat)
    requires Step(s, order, e, s') && id <= s.nextID && HasId(s'.entries, id)
    ensures HasId(s.entries, id)
  {
    hide *;
    if !HasId(s.entries, id) {
      GoneStaysGone(s, order, e, s', id);
    }
  }

  lemma RunLengths(ss: seq<State>, orders: seq<seq<Entry>>, es: seq<Event>)
    requires Run(ss, orders, es)
    ensures |ss| == |es| + 1 && |orders| == |es|
  {
    hide Step, Distinct;
  }

  lemma RunAt(ss: seq<State>, orders: seq<seq<Entry>>, es: seq<Event>, i: nat)
    requires Run(ss, orders, es) && i < |es|
    ensures |ss| == |es| + 1 && |orders| == |es| && Distinct(ss[i]) && Step(ss[i], orders[i], es[i], ss[i + 1])
  {
    hide Step, Distinct;
    RunDistinct(ss, orders, es, i);
  }

  lemma KnownId(ss: seq<State>, orders: seq<seq<Entry>>, es: seq<Event>, i: nat, x: Entry)
    requires Run(ss, orders, es) && i < |ss| && x in ss[i].entries
    ensures x.id <= ss[i].nextID
  {
    hide Run;
    RunDistinct(ss, orders, es, i);
    var k := InList(ss[i].entries, x);
  }

  lemma StaysOnce(s: State, order: seq<Entry>, e: Event, s': State, x: Entry)
    requires Step(s, order, e, s') && Distinct(s) && x in s.entries && HasId(s'.entries, x.id)
    requires e.Wake? ==> !(x.next.Some? && x.next.value <= e.now)
    ensures x in s'.entries
  {
    hide *;
    var i := InList(s.entries, x);
    var k := ChangesOnlyByFiring(s, order, e, s', i);
  }
}
