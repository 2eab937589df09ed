/** What one Get or one Close does to the pool while nobody else moves: every way it can go, and that it comes to an end. */
module PoolAlone {
  import opened ConnPool
  import opened Strconv

  /** Thread t may begin, and nobody is in its way. */
  ghost predicate Ready(cfg: Config, s: State, t: nat) {
    && Sound(cfg) && Inv(cfg, s) && t < |s.threads| && s.threads[t].Idle?
    && s.pool.lock.Free? && NobodyReads(s)
  }

  /** Only thread t has moved. */
  predicate OnlyMoved(s: State, t: nat, s': State) {
    |s'.threads| == |s.threads| && t < |s.threads| && s'.threads == s.threads[t := s'.threads[t]]
  }

  // Get.

  /** Twice as many connections, or as many as there may be. */
  function Doubled(cfg: Config, current: nat): nat {
    if current + current > cfg.maxActive then cfg.maxActive else current + current
  }

  function Made(first: nat, i: nat): Option<nat> {
    Some(first + i)
  }

  function FilledSlots(conns: seq<Option<nat>>, current: nat, first: nat, n: nat): (r: seq<Option<nat>>)
    ensures |r| == |conns|
    ensures forall j :: 0 <= j < |r| ==> r[j] == if current <= j < current + n then Made(first, j - current) else conns[j]
  {
    seq(|conns|, j requires 0 <= j < |conns| => if current <= j < current + n then Made(first, j - current) else conns[j])
  }

  /** n more connections in the slots that follow. */
  function Filled(p: Pool, n: nat): Pool {
    p.(conns := FilledSlots(p.conns, p.current, p.nextConn, n), nextConn := p.nextConn + n)
  }

  /** One of the first current connections is handed out. */
  ghost predicate Shares(p: Pool, p': Pool) {
    exists next :: 0 <= next < p.current && next < |p.conns| && p.conns[next].Some?
                   && p' == p.(held := p.held + multiset{Pooled(p.conns[next].value)})
  }

  /** Enough streams for one more, or no way to make more connections and leave to share those there are. */
  predicate MayShare(cfg: Config, p: Pool, ref: int) {
    ref <= p.current * cfg.streams || (p.current == cfg.maxActive && cfg.reuse)
  }

  /** What Get leaves of pool p: a connection shared; a connection of its own, or none for want of a dial; or the pool doubled
      as far as it may be and a connection of that shared, or as far as the dials went and none. In any case one reference
      more. */
  ghost predicate GetResult(cfg: Config, p: Pool, p': Pool) {
    var q := p.(ref := p.ref + 1);
    if MayShare(cfg, p, p.ref + 1) then Shares(q, p')
    else if p.current == cfg.maxActive then
      || p' == q.(held := q.held + multiset{Once(q.nextConn)}, nextConn := q.nextConn + 1)
      || p' == q.(failed := q.failed + 1)
    else
      var increment := Doubled(cfg, p.current) - p.current;
      || (increment >= 0 && Shares(Filled(q, increment).(current := p.current + increment), p'))
      || exists made: nat :: made < increment && p' == Filled(q, made).(current := p.current + made, failed := q.failed + 1)
  }

  /** How far a Get that began in pool p has come. */
  ghost predicate OnTheWay(cfg: Config, p: Pool, pc: Pc, p': Pool) {
    var q := p.(ref := p.ref + 1);
    var increment := Doubled(cfg, p.current) - p.current;
    var grows := !MayShare(cfg, p, p.ref + 1) && p.current != cfg.maxActive && increment >= 0;
    match pc
    case Counted(n) => n == p.ref + 1 && p' == q
    case Reading(n) => n == p.ref + 1 && p' == q
    case HasCurrent(n, current) => n == p.ref + 1 && p' == q && current == p.current
    case Picked(next) =>
      || (MayShare(cfg, p, p.ref + 1) && p' == q && next < p.current)
      || (grows && p' == Filled(q, increment).(current := p.current + increment) && next < p.current + increment)
    case Dialing => !MayShare(cfg, p, p.ref + 1) && p.current == cfg.maxActive && p' == q
    case WantsGrow(n) => n == p.ref + 1 && grows && p' == q
    case Locked =>
      && grows && p'.lock.Growing? && p'.lock.nextRef == p.ref + 1 && p'.lock.increment == increment && p'.lock.made <= increment
      && p' == Filled(q, p'.lock.made).(lock := p'.lock)
    case Grown(current) => grows && p' == Filled(q, increment).(current := p.current + increment) && current == p.current + increment
    case _ => false
  }

  /** Steps left, at most. */
  function Left(s: State, t: nat): nat
    requires t < |s.threads|
  {
    match s.threads[t]
    case Counted(_) => 8 + |s.pool.conns|
    case Reading(_) => 7 + |s.pool.conns|
    case HasCurrent(_, _) => 6 + |s.pool.conns|
    case WantsGrow(_) => 5 + |s.pool.conns|
    case Locked => if s.pool.lock.Growing? && s.pool.lock.increment >= s.pool.lock.made then
                     4 + s.pool.lock.increment - s.pool.lock.made else 4
    case Grown(_) => 3
    case Picked(_) => 2
    case Dialing => 2
    case _ => 0
  }

  /** A pool nobody has locked, with its first current slots filled. */
  ghost predicate Settled(cfg: Config, p: Pool) {
    && |p.conns| == cfg.maxActive && 0 < cfg.maxIdle <= p.current <= cfg.maxActive && cfg.streams > 0 && p.lock.Free?
    && (forall j :: 0 <= j < |p.conns| ==> (p.conns[j].Some? <==> j < p.current))
  }

  lemma ReadyPool(cfg: Config, s: State, t: nat)
    requires Ready(cfg, s, t)
    ensures Settled(cfg, s.pool)
  {
    hide ConnsOk, HeldOk, LockOk, ThreadsOk, CountsOk;
  }

  lemma DoubledIs(cfg: Config, current: nat)
    requires 0 < current <= cfg.maxActive
    ensures current <= Doubled(cfg, current) <= cfg.maxActive
    ensures current < cfg.maxActive ==> current < Doubled(cfg, current)
  {
  }

  lemma FilledNone(p: Pool)
    ensures Filled(p, 0) == p
  {
    assert Filled(p, 0).conns == p.conns;
  }

  lemma FilledMore(p: Pool, n: nat)
    requires p.current + n < |p.conns| && (forall j :: p.current <= j < |p.conns| ==> p.conns[j].None?)
    ensures var q := Filled(p, n);
            && q.conns[p.current + n].None?
            && Filled(p, n + 1) == q.(conns := q.conns[p.current + n := Some(q.nextConn)], nextConn := q.nextConn + 1)
  {
    var q := Filled(p, n);
    assert Filled(p, n + 1).conns == q.conns[p.current + n := Some(q.nextConn)];
  }

  lemma FilledSome(p: Pool, n: nat, j: nat)
    requires p.current + n <= |p.conns| && (forall i :: 0 <= i < p.current ==> i < |p.conns| && p.conns[i].Some?)
    requires j < p.current + n
    ensures Filled(p, n).conns[j].Some?
  {
  }

  /** The lock is not t's business outside its own critical section. */
  lemma NobodyElseReads(s: State, t: nat, s': State)
    requires NobodyReads(s) && OnlyMoved(s, t, s') && !s'.threads[t].Reading?
    ensures NobodyReads(s')
  {
  }

  /** A step has led on, nearer to the end, or ended the Get with its result. */
  ghost predicate LedOn(cfg: Config, p: Pool, t: nat, now: State, next: State)
    requires t < |now.threads|
  {
    && OnlyMoved(now, t, next)
    && if next.threads[t].Idle? then GetResult(cfg, p, next.pool)
       else OnTheWay(cfg, p, next.threads[t], next.pool) && Left(next, t) < Left(now, t)
  }

  lemma QuietStep(cfg: Config, p: Pool, t: nat, now: State, a: Action, next: State)
    requires Settled(cfg, p) && t < |now.threads| && OnTheWay(cfg, p, now.threads[t], now.pool) && Step(cfg, now, t, a, next)
    requires now.threads[t].Counted? || now.threads[t].Reading? || now.threads[t].HasCurrent? || now.threads[t].Grown?
    ensures LedOn(cfg, p, t, now, next)
  {
    hide GetResult, Filled, NobodyReads, Reset;
    DoubledIs(cfg, p.current);
  }

  lemma LockStep(cfg: Config, p: Pool, t: nat, now: State, a: Action, next: State)
    requires Settled(cfg, p) && t < |now.threads| && OnTheWay(cfg, p, now.threads[t], now.pool) && Step(cfg, now, t, a, next)
    requires now.threads[t].WantsGrow?
    ensures LedOn(cfg, p, t, now, next)
  {
    hide GetResult, NobodyReads, Reset;
    DoubledIs(cfg, p.current);
    FilledNone(p.(ref := p.ref + 1));
    hide Filled;
  }

  lemma GrowStep(cfg: Config, p: Pool, t: nat, now: State, a: Action, next: State)
    requires Settled(cfg, p) && t < |now.threads| && OnTheWay(cfg, p, now.threads[t], now.pool) && Step(cfg, now, t, a, next)
    requires now.threads[t].Locked?
    ensures LedOn(cfg, p, t, now, next)
  {
    hide GetResult, NobodyReads, FilledSlots, MayShare;
    DoubledIs(cfg, p.current);
    hide Doubled;
    var made := now.pool.lock.made;
    if a.AGrowOne? {
      FilledMore(p.(ref := p.ref + 1), made);
    } else if a.AUnlockGrow? && a.failed {
      ResultFailed(cfg, p, next.pool, made);
    }
    hide Filled;
  }

  lemma LastStep(cfg: Config, p: Pool, t: nat, now: State, a: Action, next: State)
    requires Settled(cfg, p) && t < |now.threads| && OnTheWay(cfg, p, now.threads[t], now.pool) && Step(cfg, now, t, a, next)
    requires now.threads[t].Dialing? || now.threads[t].Picked?
    ensures LedOn(cfg, p, t, now, next)
  {
    hide GetResult, Filled, NobodyReads, Reset;
    if now.threads[t].Dialing? {
      ResultDialled(cfg, p, next.pool, a);
    } else {
      ResultShared(cfg, p, now.threads[t].next, now.pool, next.pool);
    }
  }

  /** Every step of a Get that is alone leads on. */
  lemma GetStep(cfg: Config, p: Pool, t: nat, now: State, a: Action, next: State)
    requires Settled(cfg, p) && t < |now.threads| && OnTheWay(cfg, p, now.threads[t], now.pool) && Step(cfg, now, t, a, next)
    ensures LedOn(cfg, p, t, now, next)
  {
    hide Settled, Step, LedOn, MayShare, Filled;
    match now.threads[t] {
      case Counted(_) => QuietStep(cfg, p, t, now, a, next);
      case Reading(_) => QuietStep(cfg, p, t, now, a, next);
      case HasCurrent(_, _) => QuietStep(cfg, p, t, now, a, next);
      case Grown(_) => QuietStep(cfg, p, t, now, a, next);
      case WantsGrow(_) => LockStep(cfg, p, t, now, a, next);
      case Locked => GrowStep(cfg, p, t, now, a, next);
      case Dialing => LastStep(cfg, p, t, now, a, next);
      case Picked(_) => LastStep(cfg, p, t, now, a, next);
      case _ =>
    }
  }

  lemma ResultDialled(cfg: Config, p: Pool, p': Pool, a: Action)
    requires !MayShare(cfg, p, p.ref + 1) && p.current == cfg.maxActive && a.ADialOnce?
    requires var q := p.(ref := p.ref + 1);
             p' == if a.ok then q.(held := q.held + multiset{Once(q.nextConn)}, nextConn := q.nextConn + 1)
                   else q.(failed := q.failed + 1)
    ensures GetResult(cfg, p, p')
  {
  }

  lemma ResultFailed(cfg: Config, p: Pool, p': Pool, made: nat)
    requires !MayShare(cfg, p, p.ref + 1) && p.current != cfg.maxActive && made < Doubled(cfg, p.current) - p.current
    requires p' == Filled(p.(ref := p.ref + 1), made).(current := p.current + made, failed := p.failed + 1)
    ensures GetResult(cfg, p, p')
  {
  }

  lemma ResultShared(cfg: Config, p: Pool, i: nat, now: Pool, p': Pool)
    requires OnTheWay(cfg, p, Picked(i), now) && i < |now.conns| && now.conns[i].Some?
    requires p' == now.(held := now.held + multiset{Pooled(now.conns[i].value)})
    ensures GetResult(cfg, p, p')
  {
    hide Filled;
    assert Shares(now, p');
  }

  // A whole Get.

  /** A run in which only thread t moves. */
  ghost predicate Solo(cfg: Config, ss: seq<State>, t: nat, acts: seq<Action>) {
    |ss| == |acts| + 1 && forall i :: 0 <= i < |acts| ==> Step(cfg, ss[i], t, acts[i], ss[i + 1])
  }

  lemma GetBegins(cfg: Config, s: State, t: nat, next: State)
    requires Settled(cfg, s.pool) && Step(cfg, s, t, AIncrRef, next)
    ensures OnlyMoved(s, t, next) && OnTheWay(cfg, s.pool, next.threads[t], next.pool) && Left(next, t) == 8 + |s.pool.conns|
  {
    hide Filled;
  }

  lemma {:induction false} GetSoFar(cfg: Config, ss: seq<State>, t: nat, acts: seq<Action>, i: nat)
    requires Solo(cfg, ss, t, acts) && 0 < i < |ss| && Settled(cfg, ss[0].pool) && acts[0] == AIncrRef
    requires forall k :: 0 < k < i ==> t < |ss[k].threads| && !ss[k].threads[t].Idle?
    ensures OnlyMoved(ss[0], t, ss[i])
    ensures if ss[i].threads[t].Idle? then i > 1 && GetResult(cfg, ss[0].pool, ss[i].pool)
            else OnTheWay(cfg, ss[0].pool, ss[i].threads[t], ss[i].pool) && i + Left(ss[i], t) <= 9 + |ss[0].pool.conns|
    ensures i <= 9 + |ss[0].pool.conns|
  {
    assert Step(cfg, ss[i - 1], t, acts[i - 1], ss[i - 1 + 1]);
    hide Settled, Solo, Step, GetResult, OnTheWay, Left;
    if i == 1 {
      GetBegins(cfg, ss[0], t, ss[1]);
      NotIdle(cfg, ss[0].pool, ss[1].threads[t], ss[1].pool);
    } else {
      GetSoFar(cfg, ss, t, acts, i - 1);
      GetStep(cfg, ss[0].pool, t, ss[i - 1], acts[i - 1], ss[i]);
    }
  }

  lemma NotIdle(cfg: Config, p: Pool, pc: Pc, p': Pool)
    requires OnTheWay(cfg, p, pc, p')
    ensures !pc.Idle?
  {
    hide Filled, MayShare;
  }

  /** A Get that is alone, from its first step to the thread's being idle again, has the result described and no other, after
      at most nine steps and one for each slot. */
  lemma GetAlone(cfg: Config, ss: seq<State>, t: nat, acts: seq<Action>)
    requires Solo(cfg, ss, t, acts) && acts != [] && Ready(cfg, ss[0], t) && acts[0] == AIncrRef
    requires t < |ss[|acts|].threads| && ss[|acts|].threads[t].Idle?
    requires forall k :: 0 < k < |acts| ==> t < |ss[k].threads| && !ss[k].threads[t].Idle?
    ensures GetResult(cfg, ss[0].pool, ss[|acts|].pool)
    ensures ss[|acts|].threads == ss[0].threads && |acts| <= 9 + cfg.maxActive
  {
    ReadyPool(cfg, ss[0], t);
    GetSoFar(cfg, ss, t, acts, |acts|);
    hide Solo, GetResult, Inv;
  }

  /** It can always go on. */
  lemma GetGoesOn(cfg: Config, p: Pool, t: nat, now: State) returns (a: Action, next: State)
    requires Settled(cfg, p) && t < |now.threads| && OnTheWay(cfg, p, now.threads[t], now.pool)
    requires forall u :: 0 <= u < |now.threads| && u != t ==> !now.threads[u].Reading?
    ensures Step(cfg, now, t, a, next)
  {
    hide Reset;
    DoubledIs(cfg, p.current);
    var q := now.pool;
    match now.threads[t] {
      case Counted(n) => a, next := AReadLock, Move(now, t, Reading(n), q);
      case Reading(n) => a, next := AReadCurrent, Move(now, t, HasCurrent(n, q.current), q);
      case HasCurrent(n, current) =>
        if MayShare(cfg, p, p.ref + 1) {
          a, next := APick(0), Move(now, t, Picked(0), q);
        } else if p.current == cfg.maxActive {
          a, next := AStartDial, Move(now, t, Dialing, q);
        } else {
          a, next := AWantGrow, Move(now, t, WantsGrow(n), q);
        }
      case WantsGrow(n) =>
        assert NobodyReads(now);
        a, next := ALockGrow, Move(now, t, Locked, q.(lock := Growing(n, Doubled(cfg, p.current) - p.current, 0)));
      case Locked =>
        a, next := UnderLock(cfg, p, t, now);
      case Grown(current) => a, next := APickGrown(0), Move(now, t, Picked(0), q);
      case Dialing => a, next := ADialOnce(false), Move(now, t, Idle, q.(failed := q.failed + 1));
      case Picked(i) =>
        a, next := ATake, Move(now, t, Idle, q.(held := q.held + multiset{Pooled(q.conns[i].value)}));
      case _ =>
    }
  }

  lemma UnderLock(cfg: Config, p: Pool, t: nat, now: State) returns (a: Action, next: State)
    requires Settled(cfg, p) && t < |now.threads| && now.threads[t].Locked?
    requires OnTheWay(cfg, p, now.threads[t], now.pool)
    ensures Step(cfg, now, t, a, next)
  {
    DoubledIs(cfg, p.current);
    var q, l := now.pool, now.pool.lock;
    if l.made < l.increment {
      var at := q.current + l.made;
      var r := Reset(q, at);
      a, next := AGrowOne, Move(now, t, Locked, r.(conns := r.conns[at := Some(r.nextConn)], nextConn := r.nextConn + 1,
                                                   lock := l.(made := l.made + 1)));
    } else {
      a, next := AUnlockGrow(false), Move(now, t, Grown(q.current + l.made), q.(current := q.current + l.made, lock := Free));
    }
  }

  /** One Get at a time keeps the promise of MaxConcurrentStreams for as long as the pool can grow: no more references than
      streams, or all connections made. */
  lemma CapacityKept(cfg: Config, p: Pool, p': Pool)
    requires Settled(cfg, p) && GetResult(cfg, p, p') && p'.failed == p.failed
    requires p.ref <= p.current * cfg.streams
    ensures p'.ref <= p'.current * cfg.streams || p'.current == cfg.maxActive
  {
    hide FilledSlots;
    DoubledIs(cfg, p.current);
    AtLeastOne(p.current, cfg.streams);
    Twice(p.current, cfg.streams);
  }

  lemma Twice(a: nat, b: nat)
    ensures (a + a) * b == a * b + a * b
  {
  }

  lemma AtLeastOne(a: nat, b: nat)
    requires a > 0 && b > 0
    ensures a * b >= 1
  {
  }

  // Close.

  function EmptiedSlots(conns: seq<Option<nat>>, from: nat, to: nat): (r: seq<Option<nat>>)
    ensures |r| == |conns|
    ensures forall j :: 0 <= j < |r| ==> r[j] == if from <= j < to then None else conns[j]
  {
    seq(|conns|, j requires 0 <= j < |conns| => if from <= j < to then None else conns[j])
  }

  ghost function ConnsIn(conns: seq<Option<nat>>, from: nat, to: nat): set<nat> {
    set j | from <= j < to && j < |conns| && conns[j].Some? :: conns[j].value
  }

  /** The slots emptied, and what stood in them closed. */
  ghost function Emptied(p: Pool, from: nat, to: nat): Pool {
    p.(conns := EmptiedSlots(p.conns, from, to), closed := p.closed + ConnsIn(p.conns, from, to))
  }

  /** One reference less, and the handle given back. */
  function GivenBack(p: Pool, h: Handle): Pool {
    p.(ref := p.ref - 1, held := p.held - multiset{h})
  }

  predicate Shrinks(cfg: Config, p: Pool) {
    p.ref - 1 == 0 && p.current > cfg.maxIdle
  }

  ghost function AfterDecr(cfg: Config, p: Pool, h: Handle): Pool {
    if Shrinks(cfg, p) then Emptied(GivenBack(p, h), cfg.maxIdle, |p.conns|).(current := cfg.maxIdle) else GivenBack(p, h)
  }

  /** What Close leaves: with the last reference gone the pool is back at its idle connections and the others are closed; a
      connection made for one caller is closed too. */
  ghost function CloseResult(cfg: Config, p: Pool, h: Handle): Pool {
    var q := AfterDecr(cfg, p, h);
    if h.Once? then q.(closed := q.closed + {h.conn}) else q
  }

  /** How far a Close that began in pool p has come. */
  ghost predicate OnTheWayOut(cfg: Config, p: Pool, h: Handle, pc: Pc, p': Pool) {
    match pc
    case Released(h', n) => h' == h && n == p.ref - 1 && p' == GivenBack(p, h)
    case WantsShrink(h') => h' == h && Shrinks(cfg, p) && p' == GivenBack(p, h)
    case Locked =>
      Shrinks(cfg, p) && (
        || p' == GivenBack(p, h).(lock := Checking(h))
        || (p'.lock.Shrinking? && p'.lock.h == h && cfg.maxIdle <= p'.lock.at <= |p.conns|
            && p' == Emptied(GivenBack(p, h), cfg.maxIdle, p'.lock.at).(current := cfg.maxIdle, lock := p'.lock)))
    case Closing(h') => h' == h && p' == AfterDecr(cfg, p, h)
    case _ => false
  }

  function LeftOut(s: State, t: nat): nat
    requires t < |s.threads|
  {
    match s.threads[t]
    case Released(_, _) => 6 + |s.pool.conns|
    case WantsShrink(_) => 5 + |s.pool.conns|
    case Locked => if s.pool.lock.Shrinking? && s.pool.lock.at <= |s.pool.conns| then 3 + |s.pool.conns| - s.pool.lock.at
                   else 4 + |s.pool.conns|
    case Closing(_) => 2
    case _ => 0
  }

  ghost predicate LedOut(cfg: Config, p: Pool, h: Handle, t: nat, now: State, next: State)
    requires t < |now.threads|
  {
    && OnlyMoved(now, t, next)
    && if next.threads[t].Idle? then next.pool == CloseResult(cfg, p, h)
       else OnTheWayOut(cfg, p, h, next.threads[t], next.pool) && LeftOut(next, t) < LeftOut(now, t)
  }

  lemma EmptiedNone(p: Pool, from: nat)
    ensures Emptied(p, from, from) == p
  {
    assert EmptiedSlots(p.conns, from, from) == p.conns;
    assert ConnsIn(p.conns, from, from) == {};
  }

  lemma EmptiedMore(p: Pool, from: nat, to: nat)
    requires from <= to < |p.conns|
    ensures Reset(Emptied(p, from, to), to) == Emptied(p, from, to + 1)
  {
    var q := Emptied(p, from, to);
    assert q.conns[to] == p.conns[to];
    assert EmptiedSlots(p.conns, from, to + 1) == q.conns[to := None];
    if p.conns[to].Some? {
      var c := p.conns[to].value;
      assert ConnsIn(p.conns, from, to + 1) == ConnsIn(p.conns, from, to) + {c} by {
        forall x | x in ConnsIn(p.conns, from, to + 1)
          ensures x in ConnsIn(p.conns, from, to) + {c}
        {
        }
        assert c in ConnsIn(p.conns, from, to + 1);
      }
      assert p.closed + (ConnsIn(p.conns, from, to) + {c}) == q.closed + {c};
    } else {
      assert ConnsIn(p.conns, from, to + 1) == ConnsIn(p.conns, from, to);
      assert q.conns[to := None] == q.conns;
    }
  }

  lemma CloseStepPlain(cfg: Config, p: Pool, h: Handle, t: nat, now: State, a: Action, next: State)
    requires Settled(cfg, p) && t < |now.threads| && OnTheWayOut(cfg, p, h, now.threads[t], now.pool) && Step(cfg, now, t, a, next)
    requires !now.threads[t].Locked?
    ensures LedOut(cfg, p, h, t, now, next)
  {
    hide NobodyReads, Emptied, Reset;
  }

  lemma ShrinkStep(cfg: Config, p: Pool, h: Handle, t: nat, now: State, a: Action, next: State)
    requires Settled(cfg, p) && t < |now.threads| && OnTheWayOut(cfg, p, h, now.threads[t], now.pool) && Step(cfg, now, t, a, next)
    requires now.threads[t].Locked?
    ensures LedOut(cfg, p, h, t, now, next)
  {
    hide NobodyReads, Reset;
    var q := GivenBack(p, h);
    EmptiedNone(q, cfg.maxIdle);
    if a.AShrinkOne? {
      var at := now.pool.lock.at;
      EmptiedMore(q, cfg.maxIdle, at);
      ResetFrame(Emptied(q, cfg.maxIdle, at), now.pool, at);
    }
    hide ConnsIn;
  }

  /** Resetting a slot looks at slots and closed connections only. */
  lemma ResetFrame(q: Pool, p: Pool, i: nat)
    requires i < |p.conns| && p == q.(current := p.current, lock := p.lock)
    ensures Reset(p, i) == Reset(q, i).(current := p.current, lock := p.lock)
  {
  }

  lemma CloseStep(cfg: Config, p: Pool, h: Handle, t: nat, now: State, a: Action, next: State)
    requires Settled(cfg, p) && t < |now.threads| && OnTheWayOut(cfg, p, h, now.threads[t], now.pool) && Step(cfg, now, t, a, next)
    ensures LedOut(cfg, p, h, t, now, next)
  {
    hide *;
    if now.threads[t].Locked? {
      ShrinkStep(cfg, p, h, t, now, a, next);
    } else {
      CloseStepPlain(cfg, p, h, t, now, a, next);
    }
  }

  lemma CloseBegins(cfg: Config, s: State, t: nat, h: Handle, next: State)
    requires Settled(cfg, s.pool) && Step(cfg, s, t, ADecrRef(h), next)
    ensures OnlyMoved(s, t, next) && OnTheWayOut(cfg, s.pool, h, next.threads[t], next.pool)
    ensures LeftOut(next, t) == 6 + |s.pool.conns|
  {
  }

  lemma {:induction false} CloseSoFar(cfg: Config, ss: seq<State>, t: nat, acts: seq<Action>, h: Handle, i: nat)
    requires Solo(cfg, ss, t, acts) && 0 < i < |ss| && Settled(cfg, ss[0].pool) && acts[0] == ADecrRef(h)
    requires forall k :: 0 < k < i ==> t < |ss[k].threads| && !ss[k].threads[t].Idle?
    ensures OnlyMoved(ss[0], t, ss[i])
    ensures if ss[i].threads[t].Idle? then ss[i].pool == CloseResult(cfg, ss[0].pool, h)
            else OnTheWayOut(cfg, ss[0].pool, h, ss[i].threads[t], ss[i].pool) && i + LeftOut(ss[i], t) <= 7 + |ss[0].pool.conns|
    ensures i <= 7 + |ss[0].pool.conns|
  {
    assert Step(cfg, ss[i - 1], t, acts[i - 1], ss[i - 1 + 1]);
    hide Settled, Solo, Step, CloseResult, OnTheWayOut, LeftOut;
    if i == 1 {
      CloseBegins(cfg, ss[0], t, h, ss[1]);
      OutNotIdle(cfg, ss[0].pool, h, ss[1].threads[t], ss[1].pool);
    } else {
      CloseSoFar(cfg, ss, t, acts, h, i - 1);
      CloseStep(cfg, ss[0].pool, h, t, ss[i - 1], acts[i - 1], ss[i]);
    }
  }

  lemma OutNotIdle(cfg: Config, p: Pool, h: Handle, pc: Pc, p': Pool)
    requires OnTheWayOut(cfg, p, h, pc, p')
    ensures !pc.Idle?
  {
    hide Emptied;
  }

  /** A Close that is alone has the result described, after at most seven steps and one for each slot. */
  lemma CloseAlone(cfg: Config, ss: seq<State>, t: nat, acts: seq<Action>, h: Handle)
    requires Solo(cfg, ss, t, acts) && acts != [] && Ready(cfg, ss[0], t) && acts[0] == ADecrRef(h)
    requires t < |ss[|acts|].threads| && ss[|acts|].threads[t].Idle?
    requires forall k :: 0 < k < |acts| ==> t < |ss[k].threads| && !ss[k].threads[t].Idle?
    ensures ss[|acts|].pool == CloseResult(cfg, ss[0].pool, h)
    ensures ss[|acts|].threads == ss[0].threads && |acts| <= 7 + cfg.maxActive
  {
    ReadyPool(cfg, ss[0], t);
    CloseSoFar(cfg, ss, t, acts, h, |acts|);
    hide Solo, CloseResult, Inv;
  }

  /** It can always go on. */
  lemma CloseGoesOn(cfg: Config, p: Pool, h: Handle, t: nat, now: State) returns (a: Action, next: State)
    requires Settled(cfg, p) && t < |now.threads| && OnTheWayOut(cfg, p, h, now.threads[t], now.pool)
    requires forall u :: 0 <= u < |now.threads| && u != t ==> !now.threads[u].Reading?
    ensures Step(cfg, now, t, a, next)
  {
    var q := now.pool;
    hide Emptied;
    match now.threads[t] {
      case Released(_, n) =>
        a, next := ADecide, Move(now, t, if n == 0 && q.current > cfg.maxIdle then WantsShrink(h) else Closing(h), q);
      case WantsShrink(_) =>
        assert NobodyReads(now);
        a, next := ALockShrink, Move(now, t, Locked, q.(lock := Checking(h)));
      case Locked => a, next := WhileShrinking(cfg, p, h, t, now);
      case Closing(_) =>
        a, next := ACloseOnce, Move(now, t, Idle, if h.Once? then q.(closed := q.closed + {h.conn}) else q);
      case _ =>
    }
  }

  lemma WhileShrinking(cfg: Config, p: Pool, h: Handle, t: nat, now: State) returns (a: Action, next: State)
    requires Settled(cfg, p) && t < |now.threads| && now.threads[t].Locked?
    requires OnTheWayOut(cfg, p, h, now.threads[t], now.pool)
    ensures Step(cfg, now, t, a, next)
  {
    hide Step;
    LockedAs(cfg, p, h, now.pool);
    hide *;
    a, next := LockedGoesOn(cfg, t, now);
  }

  lemma LockedAs(cfg: Config, p: Pool, h: Handle, q: Pool)
    requires OnTheWayOut(cfg, p, h, Locked, q)
    ensures (q.lock.Checking? && q.ref == 0) || (q.lock.Shrinking? && q.lock.at <= |q.conns|)
  {
    hide ConnsIn;
  }

  lemma LockedGoesOn(cfg: Config, t: nat, now: State) returns (a: Action, next: State)
    requires t < |now.threads| && now.threads[t].Locked?
    requires var q := now.pool; (q.lock.Checking? && q.ref == 0) || (q.lock.Shrinking? && q.lock.at <= |q.conns|)
    ensures Step(cfg, now, t, a, next)
  {
    hide Reset;
    var q, l := now.pool, now.pool.lock;
    if l.Checking? {
      a, next := ARecheck, Move(now, t, Locked, q.(current := cfg.maxIdle, lock := Shrinking(l.h, cfg.maxIdle)));
    } else if l.at < |q.conns| {
      a, next := AShrinkOne, Move(now, t, Locked, Reset(q, l.at).(lock := l.(at := l.at + 1)));
    } else {
      a, next := AUnlockShrink, Move(now, t, Closing(l.h), q.(lock := Free));
    }
  }
}
