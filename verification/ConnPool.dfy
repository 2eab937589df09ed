/** The gRPC connection pool (rpcx/pool): Get and conn Close of any number of threads, interleaved step by step. */
module ConnPool {
  import opened Strconv

  datatype Config = Config(maxIdle: nat, maxActive: nat, streams: nat, reuse: bool)

  /** What New insists on. */
  predicate Sound(cfg: Config) {
    0 < cfg.maxIdle <= cfg.maxActive && cfg.streams > 0
  }

  /** A handle Get returns: a connection of the pool, or one made for this caller alone. */
  datatype Handle = Pooled(conn: nat) | Once(conn: nat)

  /** Who holds the write lock, and how far it has come. */
  datatype Lock =
    | Free
    | Growing(nextRef: int, increment: nat, made: nat)
    | Checking(h: Handle)
    | Shrinking(h: Handle, at: nat)

  /** Where a thread stands. */
  datatype Pc =
    | Idle
    // Get
    | Counted(nextRef: int)                   // ref incremented
    | Reading(nextRef: int)                   // holds the read lock
    | HasCurrent(nextRef: int, current: nat)  // read lock released
    | Picked(next: nat)                       // index chosen, slot not read yet
    | Dialing                                 // a one-time connection is being made
    | WantsGrow(nextRef: int)                 // waits for the write lock
    | Grown(current: nat)                     // write lock released
    // Close
    | Released(h: Handle, newRef: int)        // ref decremented
    | WantsShrink(h: Handle)                  // waits for the write lock
    | Closing(h: Handle)                      // decrRef done
    // either
    | Locked                                  // holds the write lock

  /** The shared fields; closed, held, failed and nextConn record what happened. */
  datatype Pool = Pool(current: nat, ref: int, conns: seq<Option<nat>>, lock: Lock,
                       held: multiset<Handle>, closed: set<nat>, failed: nat, nextConn: nat)

  datatype State = State(pool: Pool, threads: seq<Pc>)

  function Move(s: State, t: nat, pc: Pc, p: Pool): State
    requires t < |s.threads|
  {
    State(p, s.threads[t := pc])
  }

  // The steps of Get.

  ghost predicate IncrRef(s: State, t: nat, s': State)
    requires t < |s.threads|
  {
    && s.threads[t].Idle?
    && s' == Move(s, t, Counted(s.pool.ref + 1), s.pool.(ref := s.pool.ref + 1))
  }

  ghost predicate ReadLock(s: State, t: nat, s': State)
    requires t < |s.threads|
  {
    && s.threads[t].Counted? && s.pool.lock.Free?
    && s' == Move(s, t, Reading(s.threads[t].nextRef), s.pool)
  }

  ghost predicate ReadCurrent(s: State, t: nat, s': State)
    requires t < |s.threads|
  {
    && s.threads[t].Reading?
    && s' == Move(s, t, HasCurrent(s.threads[t].nextRef, s.pool.current), s.pool)
  }

  /** current == 0: the pool is closed. */
  ghost predicate RefuseClosed(s: State, t: nat, s': State)
    requires t < |s.threads|
  {
    && s.threads[t].HasCurrent? && s.threads[t].current == 0
    && s' == Move(s, t, Idle, s.pool.(failed := s.pool.failed + 1))
  }

  /** Enough streams, or all connections made and reuse allowed: pick one of the first current. */
  ghost predicate Pick(cfg: Config, s: State, t: nat, next: nat, s': State)
    requires t < |s.threads|
  {
    && s.threads[t].HasCurrent?
    && var (nextRef, current) := (s.threads[t].nextRef, s.threads[t].current);
       && current != 0 && next < current
       && (nextRef <= current * cfg.streams || (current == cfg.maxActive && cfg.reuse))
       && s' == Move(s, t, Picked(next), s.pool)
  }

  ghost predicate StartDial(cfg: Config, s: State, t: nat, s': State)
    requires t < |s.threads|
  {
    && s.threads[t].HasCurrent?
    && var (nextRef, current) := (s.threads[t].nextRef, s.threads[t].current);
       && current != 0 && !(nextRef <= current * cfg.streams) && current == cfg.maxActive && !cfg.reuse
       && s' == Move(s, t, Dialing, s.pool)
  }

  ghost predicate DialOnce(s: State, t: nat, ok: bool, s': State)
    requires t < |s.threads|
  {
    && s.threads[t].Dialing?
    && var p := s.pool;
       s' == Move(s, t, Idle,
                  if ok then p.(held := p.held + multiset{Once(p.nextConn)}, nextConn := p.nextConn + 1)
                  else p.(failed := p.failed + 1))
  }

  ghost predicate WantGrow(cfg: Config, s: State, t: nat, s': State)
    requires t < |s.threads|
  {
    && s.threads[t].HasCurrent?
    && var (nextRef, current) := (s.threads[t].nextRef, s.threads[t].current);
       && current != 0 && !(nextRef <= current * cfg.streams) && current != cfg.maxActive
       && s' == Move(s, t, WantsGrow(nextRef), s.pool)
  }

  ghost predicate NobodyReads(s: State) {
    forall u :: 0 <= u < |s.threads| ==> !s.threads[u].Reading?
  }

  /** The write lock, and the locked re-check of current: grow by as much again, or by what remains, or not at all. */
  ghost predicate LockGrow(cfg: Config, s: State, t: nat, s': State)
    requires t < |s.threads|
  {
    && s.threads[t].WantsGrow? && s.pool.lock.Free? && NobodyReads(s)
    && var (nextRef, current) := (s.threads[t].nextRef, s.pool.current);
       var increment := if !(current < cfg.maxActive && nextRef > current * cfg.streams) then 0
                        else if current + current > cfg.maxActive then cfg.maxActive - current
                        else current;
       s' == Move(s, t, Locked, s.pool.(lock := Growing(nextRef, increment, 0)))
  }

  function Reset(p: Pool, i: nat): Pool
    requires i < |p.conns|
  {
    if p.conns[i].None? then p
    else p.(closed := p.closed + {p.conns[i].value}, conns := p.conns[i := None])
  }

  /** One more connection dialled into its slot. */
  ghost predicate GrowOne(s: State, t: nat, s': State)
    requires t < |s.threads|
  {
    && s.threads[t].Locked? && s.pool.lock.Growing? && s.pool.lock.made < s.pool.lock.increment
    && var (l, at) := (s.pool.lock, s.pool.current + s.pool.lock.made);
       && at < |s.pool.conns|
       && var p := Reset(s.pool, at);
          s' == Move(s, t, Locked, p.(conns := p.conns[at := Some(p.nextConn)], nextConn := p.nextConn + 1,
                                      lock := l.(made := l.made + 1)))
  }

  /** All connections made, or one dial failed: publish what there is and unlock. */
  ghost predicate UnlockGrow(s: State, t: nat, failed: bool, s': State)
    requires t < |s.threads|
  {
    && s.threads[t].Locked? && s.pool.lock.Growing?
    && (if failed then s.pool.lock.made < s.pool.lock.increment else s.pool.lock.made == s.pool.lock.increment)
    && var current := s.pool.current + s.pool.lock.made;
       s' == if failed then Move(s, t, Idle, s.pool.(current := current, lock := Free, failed := s.pool.failed + 1))
             else Move(s, t, Grown(current), s.pool.(current := current, lock := Free))
  }

  ghost predicate PickGrown(s: State, t: nat, next: nat, s': State)
    requires t < |s.threads|
  {
    && s.threads[t].Grown? && next < s.threads[t].current
    && s' == Move(s, t, Picked(next), s.pool)
  }

  /** Read the slot and return what it holds. */
  ghost predicate Take(s: State, t: nat, s': State)
    requires t < |s.threads|
  {
    && s.threads[t].Picked? && s.threads[t].next < |s.pool.conns| && s.pool.conns[s.threads[t].next].Some?
    && s' == Move(s, t, Idle, s.pool.(held := s.pool.held + multiset{Pooled(s.pool.conns[s.threads[t].next].value)}))
  }

  // The steps of Close.

  ghost predicate DecrRef(s: State, t: nat, h: Handle, s': State)
    requires t < |s.threads|
  {
    && s.threads[t].Idle? && h in s.pool.held
    && s' == Move(s, t, Released(h, s.pool.ref - 1), s.pool.(ref := s.pool.ref - 1, held := s.pool.held - multiset{h}))
  }

  /** The last reference gone and more than the idle connections there: shrink; otherwise be done. */
  ghost predicate Decide(cfg: Config, s: State, t: nat, s': State)
    requires t < |s.threads|
  {
    && s.threads[t].Released?
    && var (h, newRef) := (s.threads[t].h, s.threads[t].newRef);
       s' == Move(s, t, if newRef == 0 && s.pool.current > cfg.maxIdle then WantsShrink(h) else Closing(h), s.pool)
  }

  ghost predicate LockShrink(s: State, t: nat, s': State)
    requires t < |s.threads|
  {
    && s.threads[t].WantsShrink? && s.pool.lock.Free? && NobodyReads(s)
    && s' == Move(s, t, Locked, s.pool.(lock := Checking(s.threads[t].h)))
  }

  /** The locked re-check of ref. */
  ghost predicate Recheck(cfg: Config, s: State, t: nat, s': State)
    requires t < |s.threads|
  {
    && s.threads[t].Locked? && s.pool.lock.Checking?
    && s' == if s.pool.ref == 0
             then Move(s, t, Locked, s.pool.(current := cfg.maxIdle, lock := Shrinking(s.pool.lock.h, cfg.maxIdle)))
             else Move(s, t, Closing(s.pool.lock.h), s.pool.(lock := Free))
  }

  ghost predicate ShrinkOne(s: State, t: nat, s': State)
    requires t < |s.threads|
  {
    && s.threads[t].Locked? && s.pool.lock.Shrinking? && s.pool.lock.at < |s.pool.conns|
    && var l := s.pool.lock;
       s' == Move(s, t, Locked, Reset(s.pool, l.at).(lock := l.(at := l.at + 1)))
  }

  ghost predicate UnlockShrink(s: State, t: nat, s': State)
    requires t < |s.threads|
  {
    && s.threads[t].Locked? && s.pool.lock.Shrinking? && s.pool.lock.at == |s.pool.conns|
    && s' == Move(s, t, Closing(s.pool.lock.h), s.pool.(lock := Free))
  }

  /** A one-time connection is closed by its only holder. */
  ghost predicate CloseOnce(s: State, t: nat, s': State)
    requires t < |s.threads|
  {
    && s.threads[t].Closing?
    && s' == Move(s, t, Idle, if s.threads[t].h.Once? then s.pool.(closed := s.pool.closed + {s.threads[t].h.conn}) else s.pool)
  }

  datatype Action =
    | AIncrRef | AReadLock | AReadCurrent | ARefuse | APick(next: nat) | AStartDial | ADialOnce(ok: bool)
    | AWantGrow | ALockGrow | AGrowOne | AUnlockGrow(failed: bool) | APickGrown(next: nat) | ATake
    | ADecrRef(h: Handle) | ADecide | ALockShrink | ARecheck | AShrinkOne | AUnlockShrink | ACloseOnce

  ghost predicate Step(cfg: Config, s: State, t: nat, a: Action, s': State) {
    && t < |s.threads|
    && match a
       case AIncrRef => IncrRef(s, t, s')
       case AReadLock => ReadLock(s, t, s')
       case AReadCurrent => ReadCurrent(s, t, s')
       case ARefuse => RefuseClosed(s, t, s')
       case APick(next) => Pick(cfg, s, t, next, s')
       case AStartDial => StartDial(cfg, s, t, s')
       case ADialOnce(ok) => DialOnce(s, t, ok, s')
       case AWantGrow => WantGrow(cfg, s, t, s')
       case ALockGrow => LockGrow(cfg, s, t, s')
       case AGrowOne => GrowOne(s, t, s')
       case AUnlockGrow(failed) => UnlockGrow(s, t, failed, s')
       case APickGrown(next) => PickGrown(s, t, next, s')
       case ATake => Take(s, t, s')
       case ADecrRef(h) => DecrRef(s, t, h, s')
       case ADecide => Decide(cfg, s, t, s')
       case ALockShrink => LockShrink(s, t, s')
       case ARecheck => Recheck(cfg, s, t, s')
       case AShrinkOne => ShrinkOne(s, t, s')
       case AUnlockShrink => UnlockShrink(s, t, s')
       case ACloseOnce => CloseOnce(s, t, s')
  }

  /** After New: maxIdle connections, everybody idle. */
  ghost predicate Init(cfg: Config, s: State) {
    && s.pool == Pool(cfg.maxIdle, 0, seq(cfg.maxActive, i => if i < cfg.maxIdle then Some(i) else None), Free,
                      multiset{}, {}, 0, cfg.maxIdle)
    && forall t :: 0 <= t < |s.threads| ==> s.threads[t].Idle?
  }

  // The invariant.

  /** Which slots hold a connection. */
  ghost predicate SlotsOk(cfg: Config, p: Pool) {
    && |p.conns| == cfg.maxActive
    && cfg.maxIdle <= p.current <= cfg.maxActive
    && match p.lock
       case Growing(_, increment, i) =>
         && i <= increment && p.current + increment <= cfg.maxActive
         && forall j :: 0 <= j < |p.conns| ==> (p.conns[j].Some? <==> j < p.current + i)
       case Shrinking(_, i) =>
         && p.current == cfg.maxIdle <= i <= cfg.maxActive
         && (forall j :: 0 <= j < p.current ==> p.conns[j].Some?)
         && (forall j :: p.current <= j < i ==> p.conns[j].None?)
       case _ => forall j :: 0 <= j < |p.conns| ==> (p.conns[j].Some? <==> j < p.current)
  }

  /** Connections in slots are open, and each is in one slot only. */
  ghost predicate ConnsOk(p: Pool) {
    && (forall j :: 0 <= j < |p.conns| && p.conns[j].Some? ==>
          p.conns[j].value < p.nextConn && p.conns[j].value !in p.closed)
    && (forall i, j :: 0 <= i < j < |p.conns| && p.conns[i].Some? && p.conns[j].Some? ==> p.conns[i].value != p.conns[j].value)
    && (forall c :: c in p.closed ==> c < p.nextConn)
  }

  ghost predicate InSlot(p: Pool, c: nat) {
    exists j :: 0 <= j < |p.conns| && p.conns[j] == Some(c)
  }

  /** A handle in use: a pooled one stands in one of the first current slots, a one-time one belongs to one caller. */
  ghost predicate HandleOk(p: Pool, h: Handle) {
    && h.conn < p.nextConn && h.conn !in p.closed
    && (h.Pooled? ==> exists j :: 0 <= j < p.current && j < |p.conns| && p.conns[j] == Some(h.conn))
    && (h.Once? ==> p.held[h] <= 1 && !InSlot(p, h.conn))
  }

  ghost predicate HeldOk(p: Pool) {
    && (forall h :: h in p.held ==> HandleOk(p, h))
    && (p.lock.Shrinking? ==> p.held == multiset{} && p.failed == 0)
  }

  /** Counted in ref, on the way through Get. */
  predicate InFlight(pc: Pc) {
    pc.Counted? || pc.Reading? || pc.HasCurrent? || pc.Picked? || pc.Dialing? || pc.WantsGrow? || pc.Grown?
  }

  /** A handle given back, by a thread that is closing it. */
  ghost predicate Returned(p: Pool, h: Handle) {
    h.Once? ==> h.conn < p.nextConn && h !in p.held && !InSlot(p, h.conn)
  }

  /** What holds of a thread, given the shared fields. */
  ghost predicate ThreadOk(cfg: Config, p: Pool, pc: Pc) {
    && (pc.Reading? ==> p.lock.Free?)
    && (InFlight(pc) && !pc.Counted? ==> !p.lock.Shrinking?)
    && (pc.HasCurrent? || pc.Grown? ==> cfg.maxIdle <= pc.current <= p.current)
    && (pc.Picked? ==> pc.next < p.current)
    && (pc.Released? || pc.WantsShrink? || pc.Closing? ==> Returned(p, pc.h))
  }

  ghost predicate ThreadsOk(cfg: Config, s: State) {
    forall t :: 0 <= t < |s.threads| ==> ThreadOk(cfg, s.pool, s.threads[t])
  }

  function Tally(ts: seq<Pc>, f: Pc -> bool): nat {
    if ts == [] then 0 else Tally(ts[..|ts| - 1], f) + if f(ts[|ts| - 1]) then 1 else 0
  }

  predicate IsLocked(pc: Pc) {
    pc.Locked?
  }

  function One(b: bool): nat {
    if b then 1 else 0
  }

  /** Every reference is a Get on its way, a handle in use, or a Get that failed; one thread at most is in the lock. */
  ghost predicate CountsOk(s: State) {
    && s.pool.ref == Tally(s.threads, InFlight) + One(s.pool.lock.Growing?) + |s.pool.held| + s.pool.failed
    && Tally(s.threads, IsLocked) == One(!s.pool.lock.Free?)
  }

  ghost predicate LockOk(p: Pool) {
    p.lock.Checking? || p.lock.Shrinking? ==> Returned(p, p.lock.h)
  }

  ghost predicate PoolOk(cfg: Config, p: Pool) {
    SlotsOk(cfg, p) && ConnsOk(p) && HeldOk(p) && LockOk(p)
  }

  ghost predicate Inv(cfg: Config, s: State) {
    PoolOk(cfg, s.pool) && ThreadsOk(cfg, s) && CountsOk(s)
  }

  // Counting threads.

  lemma {:induction false} TallyUpdate(ts: seq<Pc>, t: nat, pc: Pc, f: Pc -> bool)
    requires t < |ts|
    ensures Tally(ts[t := pc], f) == Tally(ts, f) - One(f(ts[t])) + One(f(pc))
  {
    var n := |ts| - 1;
    if t == n {
      assert ts[t := pc][..n] == ts[..n];
    } else {
      TallyUpdate(ts[..n], t, pc, f);
      assert ts[t := pc][..n] == ts[..n][t := pc];
    }
  }

  lemma {:induction false} TallyZero(ts: seq<Pc>, t: nat, f: Pc -> bool)
    requires t < |ts| && Tally(ts, f) == 0
    ensures !f(ts[t])
  {
    if t < |ts| - 1 {
      TallyZero(ts[..|ts| - 1], t, f);
    }
  }

  lemma {:induction false} TallyNone(ts: seq<Pc>, f: Pc -> bool)
    requires forall t :: 0 <= t < |ts| ==> !f(ts[t])
    ensures Tally(ts, f) == 0
  {
    if ts != [] {
      TallyNone(ts[..|ts| - 1], f);
    }
  }

  // Steps that leave the shared fields alone, or change them without disturbing other threads.

  /** Whatever held of a thread before still holds. */
  ghost predicate Calm(p: Pool, p': Pool) {
    && p.current <= p'.current && p.nextConn <= p'.nextConn
    && (p.lock.Free? ==> p'.lock.Free?)
    && (p'.lock.Shrinking? ==> p.lock.Shrinking?)
    && (forall h :: h in p'.held && h.Once? ==> h in p.held || h.conn >= p.nextConn)
    && (forall c: nat :: InSlot(p', c) ==> InSlot(p, c) || c >= p.nextConn)
  }

  lemma CalmKeeps(cfg: Config, p: Pool, p': Pool, pc: Pc)
    requires Calm(p, p') && ThreadOk(cfg, p, pc)
    ensures ThreadOk(cfg, p', pc)
  {
    hide InSlot;
  }

  /** The counts after thread t has moved to pc. */
  ghost predicate CountsMove(s: State, t: nat, pc: Pc, p': Pool)
    requires t < |s.threads|
  {
    && p'.ref - s.pool.ref == One(InFlight(pc)) - One(InFlight(s.threads[t])) + One(p'.lock.Growing?) - One(s.pool.lock.Growing?)
                              + |p'.held| - |s.pool.held| + p'.failed - s.pool.failed
    && One(pc.Locked?) - One(s.threads[t].Locked?) == One(!p'.lock.Free?) - One(!s.pool.lock.Free?)
  }

  lemma CountsMoved(s: State, t: nat, pc: Pc, p': Pool)
    requires t < |s.threads| && CountsOk(s) && CountsMove(s, t, pc, p')
    ensures CountsOk(Move(s, t, pc, p'))
  {
    TallyUpdate(s.threads, t, pc, InFlight);
    TallyUpdate(s.threads, t, pc, IsLocked);
    hide Tally, InFlight;
  }

  lemma CalmMove(cfg: Config, s: State, t: nat, pc: Pc, p': Pool)
    requires t < |s.threads| && Inv(cfg, s)
    requires PoolOk(cfg, p') && Calm(s.pool, p') && ThreadOk(cfg, p', pc) && CountsMove(s, t, pc, p')
    ensures Inv(cfg, Move(s, t, pc, p'))
  {
    hide PoolOk, CountsOk, Calm, ThreadOk, CountsMove;
    CountsMoved(s, t, pc, p');
    var s' := Move(s, t, pc, p');
    forall u | 0 <= u < |s'.threads|
      ensures ThreadOk(cfg, p', s'.threads[u])
    {
      if u != t {
        CalmKeeps(cfg, s.pool, p', s.threads[u]);
      }
    }
  }

  lemma CalmSame(p: Pool)
    ensures Calm(p, p)
  {
    hide InSlot;
  }

  lemma QuietMove(cfg: Config, s: State, t: nat, pc: Pc)
    requires t < |s.threads| && Inv(cfg, s) && ThreadOk(cfg, s.pool, pc)
    requires InFlight(pc) == InFlight(s.threads[t]) && !pc.Locked? && !s.threads[t].Locked?
    ensures Inv(cfg, Move(s, t, pc, s.pool))
  {
    CalmSame(s.pool);
    hide Calm, ThreadOk, PoolOk, CountsOk;
    CalmMove(cfg, s, t, pc, s.pool);
  }

  lemma InvThread(cfg: Config, s: State, t: nat)
    requires t < |s.threads| && Inv(cfg, s)
    ensures ThreadOk(cfg, s.pool, s.threads[t]) && PoolOk(cfg, s.pool)
  {
    hide PoolOk, CountsOk, ThreadOk;
  }

  lemma QuietSteps(cfg: Config, s: State, t: nat, a: Action, s': State)
    requires Inv(cfg, s) && Step(cfg, s, t, a, s')
    requires a.AReadLock? || a.AReadCurrent? || a.APick? || a.AStartDial? || a.AWantGrow? || a.APickGrown? || a.ADecide?
    ensures Inv(cfg, s')
  {
    InvThread(cfg, s, t);
    assert cfg.maxIdle <= s.pool.current && (s.pool.lock.Free? ==> !s.pool.lock.Shrinking?);
    hide Inv, PoolOk, Returned;
    QuietMove(cfg, s, t, s'.threads[t]);
  }

  lemma IncrRefKeeps(cfg: Config, s: State, t: nat, s': State)
    requires Inv(cfg, s) && t < |s.threads| && IncrRef(s, t, s')
    ensures Inv(cfg, s')
  {
    var p := s.pool;
    var p' := p.(ref := p.ref + 1);
    RefFree(cfg, p, p');
    hide Inv, PoolOk, Calm;
    CalmMove(cfg, s, t, Counted(p.ref + 1), p');
  }

  /** Only the counts look at ref. */
  lemma RefFree(cfg: Config, p: Pool, p': Pool)
    requires PoolOk(cfg, p) && p' == p.(ref := p'.ref)
    ensures PoolOk(cfg, p') && Calm(p, p')
  {
    SameSlots(p, p');
    hide InSlot;
    forall h | h in p'.held
      ensures HandleOk(p', h)
    {
      assert HandleOk(p, h);
    }
  }

  /** Without Close of the pool no Get finds it closed. */
  lemma NeverRefused(cfg: Config, s: State, t: nat, s': State)
    requires Sound(cfg) && Inv(cfg, s) && t < |s.threads|
    ensures !RefuseClosed(s, t, s')
  {
    InvThread(cfg, s, t);
  }

  lemma DialKeeps(cfg: Config, s: State, t: nat, ok: bool, s': State)
    requires Inv(cfg, s) && t < |s.threads| && DialOnce(s, t, ok, s')
    ensures Inv(cfg, s')
  {
    InvThread(cfg, s, t);
    var p := s.pool;
    var p' := s'.pool;
    if ok {
      FreshOnce(cfg, p);
    }
    hide Inv, Step;
    CalmMove(cfg, s, t, Idle, p');
  }

  /** A connection just dialled is nobody else's. */
  lemma FreshOnce(cfg: Config, p: Pool)
    requires PoolOk(cfg, p) && !p.lock.Shrinking?
    ensures var p' := p.(held := p.held + multiset{Once(p.nextConn)}, nextConn := p.nextConn + 1);
            PoolOk(cfg, p') && Calm(p, p')
  {
    var h := Once(p.nextConn);
    assert h !in p.held;
    var p' := p.(held := p.held + multiset{h}, nextConn := p.nextConn + 1);
    SameSlots(p, p');
    hide InSlot;
    forall g | g in p'.held
      ensures HandleOk(p', g)
    {
      assert g in p.held || g == h;
    }
  }

  lemma SameSlots(p: Pool, p': Pool)
    requires p.conns == p'.conns
    ensures forall c: nat :: InSlot(p, c) == InSlot(p', c)
    ensures ConnsOk(p) ==> !InSlot(p, p.nextConn)
  {
  }

  lemma LockGrowKeeps(cfg: Config, s: State, t: nat, s': State)
    requires Inv(cfg, s) && t < |s.threads| && LockGrow(cfg, s, t, s')
    ensures Inv(cfg, s')
  {
    var p, p' := s.pool, s'.pool;
    SameSlots(p, p');
    hide InSlot, Tally;
    CountsMoved(s, t, Locked, p');
    forall u | 0 <= u < |s.threads|
      ensures ThreadOk(cfg, p', s'.threads[u])
    {
      assert !s.threads[u].Reading? && ThreadOk(cfg, p, s.threads[u]);
    }
  }

  lemma LockShrinkKeeps(cfg: Config, s: State, t: nat, s': State)
    requires Inv(cfg, s) && t < |s.threads| && LockShrink(s, t, s')
    ensures Inv(cfg, s')
  {
    InvThread(cfg, s, t);
    var p, p' := s.pool, s'.pool;
    SameSlots(p, p');
    hide InSlot, Tally;
    CountsMoved(s, t, Locked, p');
    forall u | 0 <= u < |s.threads|
      ensures ThreadOk(cfg, p', s'.threads[u])
    {
      assert !s.threads[u].Reading? && ThreadOk(cfg, p, s.threads[u]);
    }
  }

  lemma GrowOneKeeps(cfg: Config, s: State, t: nat, s': State)
    requires Inv(cfg, s) && t < |s.threads| && GrowOne(s, t, s')
    ensures Inv(cfg, s')
  {
    var p, p' := s.pool, s'.pool;
    NewInSlot(cfg, p, p');
    hide Inv, PoolOk, Calm;
    CalmMove(cfg, s, t, Locked, p');
  }

  lemma NewInSlot(cfg: Config, p: Pool, p': Pool)
    requires PoolOk(cfg, p) && p.lock.Growing? && p.lock.made < p.lock.increment
    requires var at := p.current + p.lock.made;
             p' == Reset(p, at).(conns := Reset(p, at).conns[at := Some(p.nextConn)], nextConn := p.nextConn + 1,
                                 lock := p.lock.(made := p.lock.made + 1))
    ensures PoolOk(cfg, p') && Calm(p, p')
  {
    var at := p.current + p.lock.made;
    assert p.conns[at].None?;
    assert p'.conns == p.conns[at := Some(p.nextConn)] && p'.closed == p.closed;
    forall c: nat
      ensures InSlot(p', c) <==> InSlot(p, c) || c == p.nextConn
    {
      if InSlot(p, c) {
        var j :| 0 <= j < |p.conns| && p.conns[j] == Some(c);
        assert p'.conns[j] == Some(c);
      }
      assert p'.conns[at] == Some(p.nextConn);
    }
    SlotsGrow(cfg, p, p', at);
    hide InSlot, SlotsOk;
    forall h | h in p'.held
      ensures HandleOk(p', h)
    {
      assert HandleOk(p, h);
      if h.Pooled? {
        var j :| 0 <= j < p.current && j < |p.conns| && p.conns[j] == Some(h.conn);
        assert p'.conns[j] == Some(h.conn);
      }
    }
  }

  lemma SlotsGrow(cfg: Config, p: Pool, p': Pool, at: nat)
    requires SlotsOk(cfg, p) && p.lock.Growing? && p.lock.made < p.lock.increment && at == p.current + p.lock.made
    requires p'.conns == p.conns[at := Some(p.nextConn)] && p'.current == p.current
    requires p'.lock == p.lock.(made := p.lock.made + 1)
    ensures SlotsOk(cfg, p')
  {
  }

  lemma UnlockGrowKeeps(cfg: Config, s: State, t: nat, failed: bool, s': State)
    requires Inv(cfg, s) && t < |s.threads| && UnlockGrow(s, t, failed, s')
    ensures Inv(cfg, s')
  {
    var p, p' := s.pool, s'.pool;
    SameSlots(p, p');
    Published(cfg, p, p');
    hide Inv, PoolOk, Calm, InSlot;
    CalmMove(cfg, s, t, s'.threads[t], p');
  }

  /** What has been made is published together with its number. */
  lemma Published(cfg: Config, p: Pool, p': Pool)
    requires PoolOk(cfg, p) && p.lock.Growing?
    requires p' == p.(current := p.current + p.lock.made, lock := Free, failed := p'.failed)
    ensures PoolOk(cfg, p') && Calm(p, p') && p'.current >= cfg.maxIdle
  {
    SameSlots(p, p');
    hide InSlot;
    forall h | h in p'.held
      ensures HandleOk(p', h)
    {
      assert HandleOk(p, h);
    }
  }

  lemma TakeKeeps(cfg: Config, s: State, t: nat, s': State)
    requires Inv(cfg, s) && t < |s.threads| && Take(s, t, s')
    ensures Inv(cfg, s')
  {
    InvThread(cfg, s, t);
    var p, p' := s.pool, s'.pool;
    SameSlots(p, p');
    hide Inv, InSlot;
    var c := p.conns[s.threads[t].next].value;
    forall h | h in p'.held
      ensures HandleOk(p', h)
    {
      assert h in p.held || h == Pooled(c);
    }
    CalmMove(cfg, s, t, Idle, p');
  }

  /** Get never finds its slot empty. */
  lemma NeverNil(cfg: Config, s: State, t: nat)
    requires Inv(cfg, s) && t < |s.threads| && s.threads[t].Picked?
    ensures s.threads[t].next < |s.pool.conns| && s.pool.conns[s.threads[t].next].Some?
  {
    InvThread(cfg, s, t);
  }

  lemma DecrRefKeeps(cfg: Config, s: State, t: nat, h: Handle, s': State)
    requires Inv(cfg, s) && t < |s.threads| && DecrRef(s, t, h, s')
    ensures Inv(cfg, s')
  {
    var p, p' := s.pool, s'.pool;
    GivenBack(cfg, p, h, p');
    hide Inv, PoolOk, Calm, Returned;
    ReleasedOk(cfg, p', h, p.ref - 1);
    CalmMove(cfg, s, t, Released(h, p.ref - 1), p');
  }

  lemma ReleasedOk(cfg: Config, p: Pool, h: Handle, newRef: int)
    requires Returned(p, h)
    ensures ThreadOk(cfg, p, Released(h, newRef))
  {
    hide InSlot;
  }

  lemma GivenBack(cfg: Config, p: Pool, h: Handle, p': Pool)
    requires PoolOk(cfg, p) && h in p.held && p' == p.(ref := p'.ref, held := p.held - multiset{h})
    ensures PoolOk(cfg, p') && Calm(p, p') && Returned(p', h)
  {
    SameSlots(p, p');
    hide InSlot;
    assert HandleOk(p, h);
    forall g | g in p'.held
      ensures HandleOk(p', g)
    {
      assert g in p.held && HandleOk(p, g);
    }
  }

  lemma RecheckFails(cfg: Config, s: State, t: nat, s': State)
    requires Inv(cfg, s) && t < |s.threads| && Recheck(cfg, s, t, s') && s.pool.ref != 0
    ensures Inv(cfg, s')
  {
    var p, p' := s.pool, s'.pool;
    SameSlots(p, p');
    hide InSlot, CountsOk, ThreadOk;
    assert PoolOk(cfg, p') && Calm(p, p') && Returned(p', p.lock.h);
    hide Inv, PoolOk, Calm, Returned;
    ClosingOk(cfg, p', p.lock.h);
    CalmMove(cfg, s, t, Closing(p.lock.h), p');
  }

  lemma ClosingOk(cfg: Config, p: Pool, h: Handle)
    requires Returned(p, h)
    ensures ThreadOk(cfg, p, Closing(h))
  {
    hide InSlot;
  }

  /** Under the lock, with ref zero, nobody has got past its read lock and nobody holds a connection. */
  lemma RecheckSucceeds(cfg: Config, s: State, t: nat, s': State)
    requires Inv(cfg, s) && t < |s.threads| && Recheck(cfg, s, t, s') && s.pool.ref == 0
    ensures Inv(cfg, s')
  {
    var p, p' := s.pool, s'.pool;
    SameSlots(p, p');
    hide InSlot;
    assert PoolOk(cfg, p') by {
      assert |p.held| == 0;
    }
    CountsMoved(s, t, Locked, p');
    forall u | 0 <= u < |s.threads|
      ensures ThreadOk(cfg, p', s'.threads[u])
    {
      TallyZero(s.threads, u, InFlight);
      assert ThreadOk(cfg, p, s.threads[u]);
    }
  }

  lemma ShrinkOneKeeps(cfg: Config, s: State, t: nat, s': State)
    requires Inv(cfg, s) && t < |s.threads| && ShrinkOne(s, t, s')
    ensures Inv(cfg, s')
  {
    var p, p' := s.pool, s'.pool;
    OneLess(cfg, p, p');
    hide Inv, PoolOk, Calm;
    CalmMove(cfg, s, t, Locked, p');
  }

  lemma OneLess(cfg: Config, p: Pool, p': Pool)
    requires PoolOk(cfg, p) && p.lock.Shrinking? && p.lock.at < |p.conns|
    requires p' == Reset(p, p.lock.at).(lock := p.lock.(at := p.lock.at + 1))
    ensures PoolOk(cfg, p') && Calm(p, p')
  {
    forall c: nat
      ensures InSlot(p', c) ==> InSlot(p, c)
    {
      if InSlot(p', c) {
        var j :| 0 <= j < |p'.conns| && p'.conns[j] == Some(c);
        assert p.conns[j] == Some(c);
      }
    }
    hide InSlot;
  }

  lemma UnlockShrinkKeeps(cfg: Config, s: State, t: nat, s': State)
    requires Inv(cfg, s) && t < |s.threads| && UnlockShrink(s, t, s')
    ensures Inv(cfg, s')
  {
    var p, p' := s.pool, s'.pool;
    SameSlots(p, p');
    hide InSlot, CountsOk, ThreadOk;
    assert PoolOk(cfg, p') && Calm(p, p') && Returned(p', p.lock.h);
    hide Inv, PoolOk, Calm, Returned;
    ClosingOk(cfg, p', p.lock.h);
    CalmMove(cfg, s, t, Closing(p.lock.h), p');
  }

  lemma CloseOnceKeeps(cfg: Config, s: State, t: nat, s': State)
    requires Inv(cfg, s) && t < |s.threads| && CloseOnce(s, t, s')
    ensures Inv(cfg, s')
  {
    InvThread(cfg, s, t);
    var p, p' := s.pool, s'.pool;
    SameSlots(p, p');
    if s.threads[t].h.Once? {
      ClosedAlone(cfg, p, s.threads[t].h);
    } else {
      CalmSame(p);
    }
    hide Inv, PoolOk, Calm;
    CalmMove(cfg, s, t, Idle, p');
  }

  lemma ClosedAlone(cfg: Config, p: Pool, h: Handle)
    requires PoolOk(cfg, p) && h.Once? && Returned(p, h)
    ensures var p' := p.(closed := p.closed + {h.conn}); PoolOk(cfg, p') && Calm(p, p')
  {
    var p' := p.(closed := p.closed + {h.conn});
    SameSlots(p, p');
    forall j | 0 <= j < |p.conns| && p.conns[j].Some?
      ensures p.conns[j].value != h.conn
    {
      assert p.conns[j] == Some(p.conns[j].value);
    }
    forall g | g in p'.held
      ensures HandleOk(p', g)
    {
      assert HandleOk(p, g);
    }
  }

  /** Every step of every thread keeps the invariant. */
  lemma StepKeeps(cfg: Config, s: State, t: nat, a: Action, s': State)
    requires Sound(cfg) && Inv(cfg, s) && Step(cfg, s, t, a, s')
    ensures Inv(cfg, s')
  {
    hide Inv, Pick, Decide, LockGrow, GrowOne, UnlockGrow, Recheck, ShrinkOne, CloseOnce, DecrRef, Take, DialOnce;
    match a
    case AIncrRef => IncrRefKeeps(cfg, s, t, s');
    case ARefuse => NeverRefused(cfg, s, t, s');
    case ADialOnce(ok) => DialKeeps(cfg, s, t, ok, s');
    case ALockGrow => LockGrowKeeps(cfg, s, t, s');
    case AGrowOne => GrowOneKeeps(cfg, s, t, s');
    case AUnlockGrow(failed) => UnlockGrowKeeps(cfg, s, t, failed, s');
    case ATake => TakeKeeps(cfg, s, t, s');
    case ADecrRef(h) => DecrRefKeeps(cfg, s, t, h, s');
    case ALockShrink => LockShrinkKeeps(cfg, s, t, s');
    case ARecheck =>
      if s.pool.ref == 0 {
        RecheckSucceeds(cfg, s, t, s');
      } else {
        RecheckFails(cfg, s, t, s');
      }
    case AShrinkOne => ShrinkOneKeeps(cfg, s, t, s');
    case AUnlockShrink => UnlockShrinkKeeps(cfg, s, t, s');
    case ACloseOnce => CloseOnceKeeps(cfg, s, t, s');
    case _ => QuietSteps(cfg, s, t, a, s');
  }

  lemma InitOk(cfg: Config, s: State)
    requires Sound(cfg) && Init(cfg, s)
    ensures Inv(cfg, s)
  {
    TallyNone(s.threads, InFlight);
    TallyNone(s.threads, IsLocked);
    hide Tally;
  }

  /** A run: any threads, in any interleaving. */
  ghost predicate Run(cfg: Config, ss: seq<State>, ts: seq<nat>, acts: seq<Action>) {
    && |ss| == |acts| + 1 && |ts| == |acts| && Init(cfg, ss[0])
    && forall i :: 0 <= i < |acts| ==> Step(cfg, ss[i], ts[i], acts[i], ss[i + 1])
  }

  lemma {:induction false} RunKeeps(cfg: Config, ss: seq<State>, ts: seq<nat>, acts: seq<Action>, i: nat)
    requires Sound(cfg) && Run(cfg, ss, ts, acts) && i < |ss|
    ensures Inv(cfg, ss[i])
  {
    hide Inv, Init, Step;
    if i == 0 {
      InitOk(cfg, ss[0]);
    } else {
      RunKeeps(cfg, ss, ts, acts, i - 1);
      assert Step(cfg, ss[i - 1], ts[i - 1], acts[i - 1], ss[i - 1 + 1]);
      StepKeeps(cfg, ss[i - 1], ts[i - 1], acts[i - 1], ss[i]);
    }
  }

  // What the invariant says to users.

  /** No physical connection is closed while a caller holds it. */
  lemma HeldIsOpen(cfg: Config, ss: seq<State>, ts: seq<nat>, acts: seq<Action>, i: nat, h: Handle)
    requires Sound(cfg) && Run(cfg, ss, ts, acts) && i < |ss| && h in ss[i].pool.held
    ensures h.conn !in ss[i].pool.closed
  {
    hide Run, InSlot;
    RunKeeps(cfg, ss, ts, acts, i);
    assert HandleOk(ss[i].pool, h);
  }

  /** With the lock free, current stays within its limits and exactly the first current slots are filled. */
  lemma SlotsWhenFree(cfg: Config, ss: seq<State>, ts: seq<nat>, acts: seq<Action>, i: nat)
    requires Sound(cfg) && Run(cfg, ss, ts, acts) && i < |ss| && ss[i].pool.lock.Free?
    ensures var p := ss[i].pool;
            && cfg.maxIdle <= p.current <= cfg.maxActive == |p.conns|
            && forall j :: 0 <= j < |p.conns| ==> (p.conns[j].Some? <==> j < p.current)
  {
    hide Run;
    RunKeeps(cfg, ss, ts, acts, i);
  }

  /** A Get that has picked a slot finds a connection there. */
  lemma GetNeverNil(cfg: Config, ss: seq<State>, ts: seq<nat>, acts: seq<Action>, i: nat, t: nat)
    requires Sound(cfg) && Run(cfg, ss, ts, acts) && i < |ss| && t < |ss[i].threads| && ss[i].threads[t].Picked?
    ensures var next := ss[i].threads[t].next; next < |ss[i].pool.conns| && ss[i].pool.conns[next].Some?
  {
    hide Run, Inv;
    RunKeeps(cfg, ss, ts, acts, i);
    NeverNil(cfg, ss[i], t);
  }

  /** ref counts the Gets on their way, the connections in use and the Gets that failed. */
  lemma RefCounts(cfg: Config, ss: seq<State>, ts: seq<nat>, acts: seq<Action>, i: nat)
    requires Sound(cfg) && Run(cfg, ss, ts, acts) && i < |ss|
    ensures var p := ss[i].pool;
            p.ref == Tally(ss[i].threads, InFlight) + One(p.lock.Growing?) + |p.held| + p.failed >= 0
  {
    hide Run;
    RunKeeps(cfg, ss, ts, acts, i);
  }

  /** Taking a reference back never leaves less than none, so the panic for a negative one is never reached. */
  lemma NeverNegative(cfg: Config, ss: seq<State>, ts: seq<nat>, acts: seq<Action>, i: nat)
    requires Sound(cfg) && Run(cfg, ss, ts, acts) && i < |acts| && acts[i].ADecrRef?
    ensures ss[i].pool.ref > 0 && ss[i + 1].pool.ref == ss[i].pool.ref - 1 >= 0
  {
    assert Step(cfg, ss[i], ts[i], acts[i], ss[i + 1]);
    RefCounts(cfg, ss, ts, acts, i + 1);
    hide Run, Tally;
  }

  /** Since a failed Get keeps its reference, the pool never shrinks again after one. */
  lemma FailureStopsShrinking(cfg: Config, ss: seq<State>, ts: seq<nat>, acts: seq<Action>, i: nat)
    requires Sound(cfg) && Run(cfg, ss, ts, acts) && i < |ss| && ss[i].pool.failed > 0
    ensures ss[i].pool.ref > 0 && !ss[i].pool.lock.Shrinking?
  {
    hide Run;
    RunKeeps(cfg, ss, ts, acts, i);
  }

  // A run with a failed Get.

  const SMALL := Config(1, 2, 1, false)

  function Start(): Pool {
    Pool(1, 0, [Some(0), None], Free, multiset{}, {}, 0, 1)
  }

  /** The pool after the failed Get, with ref references. */
  function AfterFailure(ref: int, held: multiset<Handle>): Pool {
    Start().(ref := ref, failed := 1, held := held)
  }

  /** A piece of a run. */
  ghost predicate Path(ss: seq<State>, ts: seq<nat>, acts: seq<Action>) {
    && |ss| == |acts| + 1 && |ts| == |acts|
    && forall i :: 0 <= i < |acts| ==> Step(SMALL, ss[i], ts[i], acts[i], ss[i + 1])
  }

  lemma Prepend(s: State, t: nat, a: Action, ss: seq<State>, ts: seq<nat>, acts: seq<Action>)
      returns (ss': seq<State>, ts': seq<nat>, acts': seq<Action>)
    requires Path(ss, ts, acts) && Step(SMALL, s, t, a, ss[0])
    ensures Path(ss', ts', acts') && ss'[0] == s && ss'[|acts'|] == ss[|acts|]
  {
    hide Step;
    ss', ts', acts' := [s] + ss, [t] + ts, [a] + acts;
    forall i | 0 <= i < |acts'|
      ensures Step(SMALL, ss'[i], ts'[i], acts'[i], ss'[i + 1])
    {
      if i > 0 {
        assert Step(SMALL, ss[i - 1], ts[i - 1], acts[i - 1], ss[i - 1 + 1]);
      }
    }
  }

  /** After the failure the other Get goes on, and its connection is closed again. */
  lemma OtherGet() returns (ss: seq<State>, ts: seq<nat>, acts: seq<Action>)
    ensures Path(ss, ts, acts) && ss[0] == State(AfterFailure(2, multiset{}), [Counted(1), Idle])
    ensures ss[|acts|] == State(AfterFailure(1, multiset{}), [Idle, Idle])
  {
    var p := AfterFailure(2, multiset{});
    ss, ts, acts := OtherClose();
    hide Path;
    ss, ts, acts := Prepend(State(p, [Picked(0), Idle]), 0, ATake, ss, ts, acts);
    ss, ts, acts := Prepend(State(p, [HasCurrent(1, 1), Idle]), 0, APick(0), ss, ts, acts);
    ss, ts, acts := Prepend(State(p, [Reading(1), Idle]), 0, AReadCurrent, ss, ts, acts);
    ss, ts, acts := Prepend(State(p, [Counted(1), Idle]), 0, AReadLock, ss, ts, acts);
  }

  lemma OtherClose() returns (ss: seq<State>, ts: seq<nat>, acts: seq<Action>)
    ensures Path(ss, ts, acts) && ss[0] == State(AfterFailure(2, multiset{Pooled(0)}), [Idle, Idle])
    ensures ss[|acts|] == State(AfterFailure(1, multiset{}), [Idle, Idle])
  {
    var h, q := Pooled(0), AfterFailure(1, multiset{});
    ss, ts, acts := [State(q, [Idle, Idle])], [], [];
    assert Path(ss, ts, acts);
    hide Path;
    ss, ts, acts := Prepend(State(q, [Closing(h), Idle]), 0, ACloseOnce, ss, ts, acts);
    ss, ts, acts := Prepend(State(q, [Released(h, 1), Idle]), 0, ADecide, ss, ts, acts);
    ss, ts, acts := Prepend(State(AfterFailure(2, multiset{h}), [Idle, Idle]), 0, ADecrRef(h), ss, ts, acts);
  }

  /** Two Gets at once, the second wanting to grow and failing to dial. */
  lemma FailingGet() returns (ss: seq<State>, ts: seq<nat>, acts: seq<Action>)
    ensures Path(ss, ts, acts) && ss[0] == State(Start().(ref := 2), [Counted(1), Counted(2)])
    ensures ss[|acts|] == State(AfterFailure(1, multiset{}), [Idle, Idle])
  {
    var p := Start().(ref := 2);
    ss, ts, acts := OtherGet();
    hide Path;
    ss, ts, acts := Prepend(State(p.(lock := Growing(2, 1, 0)), [Counted(1), Locked]), 1, AUnlockGrow(true), ss, ts, acts);
    ss, ts, acts := Prepend(State(p, [Counted(1), WantsGrow(2)]), 1, ALockGrow, ss, ts, acts);
    ss, ts, acts := Prepend(State(p, [Counted(1), HasCurrent(2, 1)]), 1, AWantGrow, ss, ts, acts);
    ss, ts, acts := Prepend(State(p, [Counted(1), Reading(2)]), 1, AReadCurrent, ss, ts, acts);
    ss, ts, acts := Prepend(State(p, [Counted(1), Counted(2)]), 1, AReadLock, ss, ts, acts);
  }

  /** Everybody idle, nothing held, and yet a reference left: this pool never shrinks again. */
  lemma ReferenceLeft() returns (ss: seq<State>, ts: seq<nat>, acts: seq<Action>)
    ensures Sound(SMALL) && Run(SMALL, ss, ts, acts)
    ensures var last := ss[|acts|];
            && (forall t :: 0 <= t < |last.threads| ==> last.threads[t].Idle?)
            && last.pool.held == multiset{} && last.pool.ref == 1
  {
    ss, ts, acts := FailingGet();
    StartIs();
    hide Path, Init;
    ss, ts, acts := Prepend(State(Start().(ref := 1), [Counted(1), Idle]), 1, AIncrRef, ss, ts, acts);
    ss, ts, acts := Prepend(State(Start(), [Idle, Idle]), 0, AIncrRef, ss, ts, acts);
    PathRun(ss, ts, acts);
  }

  lemma PathRun(ss: seq<State>, ts: seq<nat>, acts: seq<Action>)
    requires Path(ss, ts, acts) && Init(SMALL, ss[0])
    ensures Run(SMALL, ss, ts, acts)
  {
    hide Step, Init;
  }

  lemma StartIs()
    ensures Init(SMALL, State(Start(), [Idle, Idle]))
  {
    assert Start().conns == seq(2, i => if i < 1 then Some(i) else None);
  }
}
