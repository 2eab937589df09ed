/** The Redis lease lock (cache/redis_lock.go): clients, one server clock, atomic commands that can be lost, or their
    replies, publish and retry. */
module LeaseLock {
  import opened Strconv

  /** What is stored under a lock's key: who set it and when it expires (server time, milliseconds). */
  datatype Lease = Lease(token: nat, until: int)

  /** A request for a lock: the resource, the lease in seconds, and whether to wait for it. */
  datatype Request = Request(resource: string, exp: int, spin: bool)

  /** What checkParameters admits. */
  predicate Admissible(r: Request) {
    1 <= |r.resource| <= 100 && 3 <= r.exp <= 600
  }

  /** Where a client stands. A token belongs to one attempt. */
  datatype Pc =
    | Idle
    | Trying(req: Request, token: nat, retry: Option<seq<string>>)  // about to send SET NX EX; on a retry, still subscribed
    | Answering(req: Request, token: nat, retry: Option<seq<string>>, until: int)  // obtained, the reply on its way
    | Refused(req: Request)                                         // not obtained, not subscribed yet
    | Waiting(req: Request, inbox: seq<string>)                     // subscribed
    | InCall(req: Request, token: nat, until: int)                  // running the caller's function

  /** locks is the server's memory; tokens below nextToken have been handed out; granted are those whose SET NX succeeded. */
  datatype State = State(now: int, locks: map<string, Lease>, clients: seq<Pc>, nextToken: nat, granted: set<nat>)

  /** Expired keys are as good as absent. */
  predicate Live(s: State, resource: string) {
    resource in s.locks && s.now < s.locks[resource].until
  }

  // The commands of the server.

  /** SET key token EX exp NX. */
  function SetNx(s: State, req: Request, token: nat): State {
    if Live(s, req.resource) then s
    else s.(locks := s.locks[req.resource := Lease(token, s.now + 1000 * req.exp)], granted := s.granted + {token})
  }

  /** A message reaches a client that is subscribed, waiting or in the middle of a retry. */
  function Delivered(pc: Pc, msg: string): Pc {
    if pc.Waiting? then Waiting(pc.req, pc.inbox + [msg])
    else if (pc.Trying? || pc.Answering?) && pc.retry.Some? then pc.(retry := Some(pc.retry.value + [msg]))
    else pc
  }

  function Deliver(clients: seq<Pc>, msg: string): seq<Pc> {
    seq(|clients|, i requires 0 <= i < |clients| => Delivered(clients[i], msg))
  }

  /** The unlock script: delete the key if it still holds this token, and tell the subscribed clients. */
  function Unlock(s: State, req: Request, token: nat): State {
    if Live(s, req.resource) && s.locks[req.resource].token == token then
      s.(locks := s.locks - {req.resource},
         clients := if req.spin then Deliver(s.clients, req.resource) else s.clients)
    else s
  }

  // The steps.

  /** What becomes of a command: executed and answered, executed without the answer arriving, or not executed. */
  datatype Fate = Answered | ReplyLost | NotExecuted

  datatype Action =
    | Tick(d: nat)
    | Start(c: nat, req: Request)
    | Try(c: nat, fate: Fate)
    | Enter(c: nat)
    | Subscribe(c: nat)
    | Receive(c: nat)
    | GiveUp(c: nat)
    | Leave(c: nat, fate: Fate)

  /** Where an attempt that was refused, or seemed to fail, leaves the client. */
  function NotObtained(pc: Pc): Pc
    requires pc.Trying?
  {
    if !pc.req.spin then Idle
    else if pc.retry.Some? then Waiting(pc.req, pc.retry.value)
    else Refused(pc.req)
  }

  ghost predicate Step(s: State, a: Action, s': State) {
    match a
    case Tick(d) => s' == s.(now := s.now + d)
    case Start(c, req) =>
      && c < |s.clients| && s.clients[c].Idle? && Admissible(req)
      && s' == s.(clients := s.clients[c := Trying(req, s.nextToken, None)], nextToken := s.nextToken + 1)
    case Try(c, fate) =>
      && c < |s.clients| && s.clients[c].Trying?
      && var (req, token) := (s.clients[c].req, s.clients[c].token);
         var s1 := if fate.NotExecuted? then s else SetNx(s, req, token);
         s' == s1.(clients := s.clients[c :=
                 if !Live(s, req.resource) && fate.Answered? then
                   Answering(req, token, s.clients[c].retry, s.now + 1000 * req.exp)
                 else NotObtained(s.clients[c])])
    case Enter(c) =>
      // the reply has arrived, in time or not
      && c < |s.clients| && s.clients[c].Answering?
      && var pc := s.clients[c];
         s' == s.(clients := s.clients[c := InCall(pc.req, pc.token, pc.until)])
    case Subscribe(c) =>
      && c < |s.clients| && s.clients[c].Refused?
      && s' == s.(clients := s.clients[c := Waiting(s.clients[c].req, [])])
    case Receive(c) =>
      // a message about this resource starts a new attempt, with a fresh token
      && c < |s.clients| && s.clients[c].Waiting? && s.clients[c].inbox != []
      && var (req, inbox) := (s.clients[c].req, s.clients[c].inbox);
         if inbox[0] == req.resource then
           s' == s.(clients := s.clients[c := Trying(req, s.nextToken, Some(inbox[1..]))], nextToken := s.nextToken + 1)
         else s' == s.(clients := s.clients[c := Waiting(req, inbox[1..])])
    case GiveUp(c) =>
      // no message in time, or no subscription
      && c < |s.clients| && (s.clients[c].Waiting? || s.clients[c].Refused?)
      && s' == s.(clients := s.clients[c := Idle])
    case Leave(c, fate) =>
      // the caller's function has returned, in time or not
      && c < |s.clients| && s.clients[c].InCall?
      && var s1 := if fate.NotExecuted? then s else Unlock(s, s.clients[c].req, s.clients[c].token);
         s' == s1.(clients := s1.clients[c := Idle])
  }

  ghost predicate Init(s: State) {
    s.locks == map[] && s.granted == {} && forall c :: 0 <= c < |s.clients| ==> s.clients[c].Idle?
  }

  ghost predicate Run(ss: seq<State>, acts: seq<Action>) {
    && |ss| == |acts| + 1 && Init(ss[0])
    && forall i :: 0 <= i < |acts| ==> Step(ss[i], acts[i], ss[i + 1])
  }

  // The invariant.

  predicate HasToken(pc: Pc) {
    pc.Trying? || pc.Answering? || pc.InCall?
  }

  /** A client inside its call, or about to be, got the lock itself, and until its lease runs out the key is its own. */
  ghost predicate CallOk(s: State, pc: Pc) {
    pc.InCall? || pc.Answering? ==>
      && pc.token in s.granted
      && (s.now < pc.until ==> pc.req.resource in s.locks && s.locks[pc.req.resource] == Lease(pc.token, pc.until))
  }

  ghost predicate TokensOk(s: State) {
    && (forall c :: 0 <= c < |s.clients| && HasToken(s.clients[c]) ==> s.clients[c].token < s.nextToken)
    && (forall c, d :: 0 <= c < d < |s.clients| && HasToken(s.clients[c]) && HasToken(s.clients[d]) ==>
          s.clients[c].token != s.clients[d].token)
  }

  ghost predicate Inv(s: State) {
    TokensOk(s) && forall c :: 0 <= c < |s.clients| ==> CallOk(s, s.clients[c])
  }

  /** Other clients' pcs change at most in their inboxes. */
  ghost predicate OthersKept(s: State, s': State, c: nat) {
    && |s'.clients| == |s.clients|
    && forall d :: 0 <= d < |s.clients| && d != c ==>
         && s'.clients[d].InCall? == s.clients[d].InCall? && s'.clients[d].Answering? == s.clients[d].Answering?
         && HasToken(s'.clients[d]) == HasToken(s.clients[d])
         && (HasToken(s.clients[d]) ==> s'.clients[d].token == s.clients[d].token)
  }

  lemma TokensKept(s: State, s': State, c: nat)
    requires TokensOk(s) && c < |s.clients| && OthersKept(s, s', c) && s'.nextToken >= s.nextToken
    requires HasToken(s'.clients[c]) ==>
               || (HasToken(s.clients[c]) && s'.clients[c].token == s.clients[c].token)
               || s.nextToken <= s'.clients[c].token < s'.nextToken
    ensures TokensOk(s')
  {
  }

  lemma TryKeeps(s: State, c: nat, fate: Fate, s': State)
    requires Inv(s) && Step(s, Try(c, fate), s')
    ensures Inv(s')
  {
    TokensKept(s, s', c);
    hide TokensOk;
    forall d | 0 <= d < |s'.clients|
      ensures CallOk(s', s'.clients[d])
    {
      assert CallOk(s, s.clients[d]);
    }
  }

  lemma LeaveKeeps(s: State, c: nat, fate: Fate, s': State)
    requires Inv(s) && Step(s, Leave(c, fate), s')
    ensures Inv(s')
  {
    TokensKept(s, s', c);
    forall d | 0 <= d < |s'.clients|
      ensures CallOk(s', s'.clients[d])
    {
      assert CallOk(s, s.clients[d]);
      assert HasToken(s.clients[c]) && HasToken(s.clients[d]) && d != c ==> s.clients[d].token != s.clients[c].token;
    }
  }

  lemma QuietKeeps(s: State, a: Action, s': State)
    requires Inv(s) && Step(s, a, s') && !a.Try? && !a.Leave?
    ensures Inv(s')
  {
    if !a.Tick? {
      TokensKept(s, s', a.c);
    }
    forall d | 0 <= d < |s'.clients|
      ensures CallOk(s', s'.clients[d])
    {
      assert CallOk(s, s.clients[d]);
    }
  }

  lemma StepKeeps(s: State, a: Action, s': State)
    requires Inv(s) && Step(s, a, s')
    ensures Inv(s')
  {
    hide Inv, Step;
    match a
    case Try(c, fate) => TryKeeps(s, c, fate, s');
    case Leave(c, fate) => LeaveKeeps(s, c, fate, s');
    case _ => QuietKeeps(s, a, s');
  }

  lemma {:induction false} RunKeeps(ss: seq<State>, acts: seq<Action>, i: nat)
    requires Run(ss, acts) && i < |ss|
    ensures Inv(ss[i])
  {
    if i > 0 {
      hide Step, Inv;
      RunKeeps(ss, acts, i - 1);
      assert Step(ss[i - 1], acts[i - 1], ss[i - 1 + 1]);
      StepKeeps(ss[i - 1], acts[i - 1], ss[i]);
    }
  }

  ghost predicate Holding(s: State, c: nat, resource: string) {
    c < |s.clients| && s.clients[c].InCall? && s.clients[c].req.resource == resource && s.now < s.clients[c].until
  }

  /** At most one client is inside its call with an unexpired lease. */
  lemma MutualExclusion(ss: seq<State>, acts: seq<Action>, i: nat, resource: string, c: nat, d: nat)
    requires Run(ss, acts) && i < |ss|
    requires Holding(ss[i], c, resource) && Holding(ss[i], d, resource)
    ensures c == d
  {
    hide Run;
    RunKeeps(ss, acts, i);
    assert CallOk(ss[i], ss[i].clients[c]) && CallOk(ss[i], ss[i].clients[d]);
  }

  /** Leaving late takes nothing from whoever holds the lock by then. */
  lemma LateLeaveHarmless(ss: seq<State>, acts: seq<Action>, i: nat, resource: string, c: nat, d: nat)
    requires Run(ss, acts) && i < |acts| && acts[i].Leave? && acts[i].c == c != d && Holding(ss[i], d, resource)
    ensures Holding(ss[i + 1], d, resource)
    ensures resource in ss[i + 1].locks && ss[i + 1].locks[resource] == ss[i].locks[resource]
  {
    RunKeeps(ss, acts, i);
    RunKeeps(ss, acts, i + 1);
    assert Step(ss[i], acts[i], ss[i + 1]);
    assert CallOk(ss[i], ss[i].clients[d]) && CallOk(ss[i + 1], ss[i + 1].clients[d]);
    hide Run, Inv;
  }

  /** A client enters its call only by the success of its own SET NX, some steps before, when nobody held the lock; it
      enters with that attempt's token and lease, however long the reply took. */
  lemma EnteredBySuccess(ss: seq<State>, acts: seq<Action>, i: nat, c: nat, resource: string) returns (k: nat)
    requires Run(ss, acts) && i < |acts| && c < |ss[i].clients| && !ss[i].clients[c].InCall?
    requires c < |ss[i + 1].clients| && ss[i + 1].clients[c].InCall? && ss[i + 1].clients[c].req.resource == resource
    ensures acts[i] == Enter(c) && k < i && acts[k] == Try(c, Answered) && !Live(ss[k], resource)
    ensures ss[i + 1].clients[c].token in ss[i + 1].granted
    ensures c < |ss[k].clients| && ss[k].clients[c].Trying? && ss[k].clients[c].token == ss[i + 1].clients[c].token
    ensures ss[i + 1].clients[c].until == ss[k].now + 1000 * ss[i + 1].clients[c].req.exp
    ensures forall d: nat :: !Holding(ss[k], d, resource)
  {
    assert Step(ss[i], acts[i], ss[i + 1]);
    k := AnsweredBefore(ss, acts, i, c);
    RunKeeps(ss, acts, k);
    RunKeeps(ss, acts, i + 1);
    hide Run;
    assert CallOk(ss[i + 1], ss[i + 1].clients[c]);
    forall d: nat
      ensures !Holding(ss[k], d, resource)
    {
      assert d < |ss[k].clients| ==> CallOk(ss[k], ss[k].clients[d]);
    }
  }

  /** A reply on its way goes back to an attempt that succeeded, and nothing about it changes meanwhile. */
  lemma {:induction false} AnsweredBefore(ss: seq<State>, acts: seq<Action>, i: nat, c: nat) returns (k: nat)
    requires Run(ss, acts) && i < |ss| && c < |ss[i].clients| && ss[i].clients[c].Answering?
    ensures k < i && acts[k] == Try(c, Answered) && c < |ss[k].clients| && ss[k].clients[c].Trying?
    ensures ss[k].clients[c].req == ss[i].clients[c].req && ss[k].clients[c].token == ss[i].clients[c].token
    ensures !Live(ss[k], ss[i].clients[c].req.resource)
    ensures ss[i].clients[c].until == ss[k].now + 1000 * ss[i].clients[c].req.exp
  {
    assert i > 0;
    assert Step(ss[i - 1], acts[i - 1], ss[i - 1 + 1]);
    hide Run, Live;
    if acts[i - 1].Try? && acts[i - 1].c == c {
      k := i - 1;
    } else {
      StillAnswering(ss[i - 1], acts[i - 1], ss[i], c);
      k := AnsweredBefore(ss, acts, i - 1, c);
    }
  }

  lemma StillAnswering(s: State, a: Action, s': State, c: nat)
    requires Step(s, a, s') && c < |s'.clients| && s'.clients[c].Answering? && !(a.Try? && a.c == c)
    ensures c < |s.clients| && s.clients[c].Answering? && s.clients[c].req == s'.clients[c].req
    ensures s.clients[c].token == s'.clients[c].token && s.clients[c].until == s'.clients[c].until
  {
    hide Live, SetNx;
  }

  // When a key begins and ends.

  /** The command of this action is executed: the server gets it, whether or not the client gets the answer. */
  predicate Executed(a: Action) {
    (a.Try? || a.Leave?) && !a.fate.NotExecuted?
  }

  /** An attempt on the resource that reaches the server. */
  predicate Attempts(s: State, a: Action, resource: string) {
    a.Try? && Executed(a) && a.c < |s.clients| && s.clients[a.c].Trying? && s.clients[a.c].req.resource == resource
  }

  /** A release of the resource that reaches the server while the leaver's own lease is live. */
  predicate Releases(s: State, a: Action, resource: string) {
    && a.Leave? && Executed(a) && a.c < |s.clients| && s.clients[a.c].InCall? && s.clients[a.c].req.resource == resource
    && resource in s.locks && s.locks[resource].token == s.clients[a.c].token
  }

  /** A live key ends exactly when its time runs out or its own holder's release is executed; until then it stays as it is. */
  lemma KeyEnds(s: State, a: Action, s': State, resource: string)
    requires Step(s, a, s') && resource in s.locks && s.now < s.locks[resource].until
    ensures !(resource in s'.locks && s'.now < s'.locks[resource].until) <==>
            (a.Tick? && s.now + a.d >= s.locks[resource].until) || Releases(s, a, resource)
    ensures resource in s'.locks ==> s'.locks[resource] == s.locks[resource]
  {
  }

  /** A key begins exactly with an attempt that is executed, whoever makes it, and is then the attempt's own. */
  lemma KeyBegins(s: State, a: Action, s': State, resource: string)
    requires Step(s, a, s') && !(resource in s.locks && s.now < s.locks[resource].until)
    ensures Attempts(s, a, resource) ==>
              && resource in s'.locks
              && s'.locks[resource] == Lease(s.clients[a.c].token, s.now + 1000 * s.clients[a.c].req.exp)
              && (a.fate.Answered? ==> s'.clients[a.c].Answering? && s'.clients[a.c].token == s.clients[a.c].token)
    ensures !Attempts(s, a, resource) ==> !(resource in s'.locks && s'.now < s'.locks[resource].until)
  {
  }

  /** No key lasts longer than the ten minutes a request may ask for. */
  lemma {:induction false} TenMinutes(ss: seq<State>, acts: seq<Action>, i: nat, resource: string)
    requires Run(ss, acts) && i < |ss| && Live(ss[i], resource)
    ensures ss[i].locks[resource].until <= ss[i].now + 600_000
  {
    if i > 0 {
      assert Step(ss[i - 1], acts[i - 1], ss[i - 1 + 1]);
      if Live(ss[i - 1], resource) {
        TenMinutes(ss, acts, i - 1, resource);
        KeyEnds(ss[i - 1], acts[i - 1], ss[i], resource);
        assert ss[i - 1].now <= ss[i].now;
      } else {
        KeyBegins(ss[i - 1], acts[i - 1], ss[i], resource);
        AskedFor(ss, acts, i - 1, acts[i - 1].c);
      }
    }
  }

  /** Whoever tries has asked for three seconds at least and ten minutes at most. */
  lemma {:induction false} AskedFor(ss: seq<State>, acts: seq<Action>, i: nat, c: nat)
    requires Run(ss, acts) && i < |ss| && c < |ss[i].clients| && !ss[i].clients[c].Idle?
    ensures 3 <= ss[i].clients[c].req.exp <= 600 && 1 <= |ss[i].clients[c].req.resource| <= 100
  {
    if i > 0 {
      assert Step(ss[i - 1], acts[i - 1], ss[i - 1 + 1]);
      assert |ss[i - 1].clients| == |ss[i].clients|;
      if !ss[i - 1].clients[c].Idle? {
        AskedFor(ss, acts, i - 1, c);
      }
      hide Run, Live, SetNx;
    }
  }

  lemma {:induction false} FreeUntil(ss: seq<State>, acts: seq<Action>, i: nat, j: nat, resource: string)
    requires Run(ss, acts) && i <= j < |ss| && !Live(ss[i], resource)
    requires forall k :: i <= k < j ==> !Attempts(ss[k], acts[k], resource)
    ensures !Live(ss[j], resource)
    decreases j
  {
    if i < j {
      FreeUntil(ss, acts, i, j - 1, resource);
      assert Step(ss[j - 1], acts[j - 1], ss[j - 1 + 1]);
      hide Run, Step, Attempts;
      KeyBegins(ss[j - 1], acts[j - 1], ss[j], resource);
    }
  }

  /** After a release in time the next attempt that reaches the server obtains the lock, whoever makes it and however soon. */
  lemma ReleasedThenObtained(ss: seq<State>, acts: seq<Action>, i: nat, j: nat, resource: string)
    requires Run(ss, acts) && i < j < |acts| && Releases(ss[i], acts[i], resource) && Live(ss[i], resource)
    requires Attempts(ss[j], acts[j], resource)
    requires forall k :: i < k < j ==> !Attempts(ss[k], acts[k], resource)
    ensures !Live(ss[i + 1], resource)
    ensures var (pc, n) := (ss[j].clients[acts[j].c], ss[j].now);
            && resource in ss[j + 1].locks && ss[j + 1].locks[resource] == Lease(pc.token, n + 1000 * pc.req.exp)
            && pc.token in ss[j + 1].granted
  {
    assert Step(ss[i], acts[i], ss[i + 1]) && Step(ss[j], acts[j], ss[j + 1]);
    KeyEnds(ss[i], acts[i], ss[i + 1], resource);
    FreeUntil(ss, acts, i + 1, j, resource);
    KeyBegins(ss[j], acts[j], ss[j + 1], resource);
    hide Run, Releases;
    GrantedToken(ss[j], acts[j], ss[j + 1], resource);
  }

  lemma GrantedToken(s: State, a: Action, s': State, resource: string)
    requires Step(s, a, s') && Attempts(s, a, resource) && !Live(s, resource)
    ensures s.clients[a.c].token in s'.granted
  {
  }

  // Who hears of a release.

  /** The messages a subscribed client has not taken yet. */
  function Inbox(pc: Pc): Option<seq<string>> {
    if pc.Waiting? then Some(pc.inbox) else if pc.Trying? || pc.Answering? then pc.retry else None
  }

  /** A release that is announced: a spinning holder's, executed, with its lease still live under its own token. */
  predicate Announces(s: State, a: Action) {
    && a.Leave? && !a.fate.NotExecuted? && a.c < |s.clients| && s.clients[a.c].InCall?
    && var (req, token) := (s.clients[a.c].req, s.clients[a.c].token);
       req.spin && Live(s, req.resource) && s.locks[req.resource].token == token
  }

  /** What a step tells the subscribed clients. */
  function Announced(s: State, a: Action): seq<string> {
    if Announces(s, a) then [s.clients[a.c].req.resource] else []
  }

  /** Any step, as one client hears it: announcements are added at the end, and only its own Receive takes from the
      front. So a release reaches exactly the clients subscribed at that moment, and exactly if it is announced. */
  lemma StepInbox(s: State, a: Action, s': State, c: nat)
    requires Step(s, a, s') && c < |s.clients| && Inbox(s.clients[c]).Some?
    ensures |s'.clients| == |s.clients|
    ensures var (old', new') := (Inbox(s.clients[c]).value, Inbox(s'.clients[c]));
            || new'.None?
            || (a == Receive(c) && old' != [] && new'.value == old'[1..])
            || (a != Receive(c) && new'.value == old' + Announced(s, a))
  {
    hide Live;
    if a.Leave? {
      assert a.c != c;
    }
  }

  /** All announcements of the steps from i to j, in order. */
  function Heard(ss: seq<State>, acts: seq<Action>, i: nat, j: nat): seq<string>
    requires i <= j <= |acts| && |acts| <= |ss|
    decreases j
  {
    if i == j then [] else Heard(ss, acts, i, j - 1) + Announced(ss[j - 1], acts[j - 1])
  }

  /** How many messages client c has taken in those steps. */
  function Taken(acts: seq<Action>, c: nat, i: nat, j: nat): nat
    requires i <= j <= |acts|
    decreases j
  {
    if i == j then 0 else Taken(acts, c, i, j - 1) + if acts[j - 1] == Receive(c) then 1 else 0
  }

  /** Client c subscribes in step i and stays subscribed up to state j. */
  ghost predicate Listening(ss: seq<State>, acts: seq<Action>, c: nat, i: nat, j: nat) {
    && Run(ss, acts) && i < j < |ss| && acts[i] == Subscribe(c)
    && forall k :: i < k <= j ==> c < |ss[k].clients| && Inbox(ss[k].clients[c]).Some?
  }

  /** A client that waits, once refused, asked for waiting. */
  predicate Spins(pc: Pc) {
    pc.Refused? || pc.Waiting? || (pc.Trying? && pc.retry.Some?) ==> pc.req.spin
  }

  lemma {:induction false} WaitersSpin(ss: seq<State>, acts: seq<Action>, i: nat, c: nat)
    requires Run(ss, acts) && i < |ss| && c < |ss[i].clients|
    ensures Spins(ss[i].clients[c])
  {
    if i > 0 {
      assert Step(ss[i - 1], acts[i - 1], ss[i - 1 + 1]);
      hide Run, Live, SetNx;
      assert |ss[i - 1].clients| == |ss[i].clients|;
      WaitersSpin(ss, acts, i - 1, c);
    }
  }

  /** A waiting client stops listening only by giving up, or by entering its call. */
  lemma StopsListening(s: State, a: Action, s': State, c: nat)
    requires Step(s, a, s') && c < |s.clients| && Inbox(s.clients[c]).Some? && Spins(s.clients[c])
    ensures c < |s'.clients|
    ensures Inbox(s'.clients[c]).None? <==> a == GiveUp(c) || a == Enter(c)
  {
    hide Live, SetNx;
  }

  /** From its subscription on a client listens exactly until it gives up or enters its call. */
  lemma {:induction false} ListensUntil(ss: seq<State>, acts: seq<Action>, c: nat, i: nat, j: nat)
    requires Run(ss, acts) && i < j < |ss| && acts[i] == Subscribe(c)
    ensures Listening(ss, acts, c, i, j) <==> forall k :: i < k < j ==> acts[k] != GiveUp(c) && acts[k] != Enter(c)
    decreases j
  {
    hide *;
    ListeningStep(ss, acts, c, i, j);
    if j == i + 1 {
      FreshInbox(ss[i], ss[i + 1], c);
    } else {
      ListensUntil(ss, acts, c, i, j - 1);
      if Listening(ss, acts, c, i, j - 1) {
        WaitersSpin(ss, acts, j - 1, c);
        StopsListening(ss[j - 1], acts[j - 1], ss[j], c);
      }
    }
  }

  lemma ListeningStep(ss: seq<State>, acts: seq<Action>, c: nat, i: nat, j: nat)
    requires Run(ss, acts) && i < j < |ss| && acts[i] == Subscribe(c)
    ensures |acts| == |ss| - 1 && Step(ss[i], acts[i], ss[i + 1]) && Step(ss[j - 1], acts[j - 1], ss[j])
    ensures Listening(ss, acts, c, i, j) <==>
            (j == i + 1 || Listening(ss, acts, c, i, j - 1)) && c < |ss[j].clients| && Inbox(ss[j].clients[c]).Some?
    ensures j > i + 1 && Listening(ss, acts, c, i, j - 1) ==>
              c < |ss[j - 1].clients| && Inbox(ss[j - 1].clients[c]).Some?
  {
    hide Step, Inbox, Init;
    assert Step(ss[j - 1], acts[j - 1], ss[j - 1 + 1]);
  }

  /** What a client has pending is exactly what has been announced since it subscribed, less what it has taken. */
  lemma {:induction false} InboxExactly(ss: seq<State>, acts: seq<Action>, c: nat, i: nat, j: nat)
    requires Listening(ss, acts, c, i, j)
    ensures var (heard, taken) := (Heard(ss, acts, i + 1, j), Taken(acts, c, i + 1, j));
            taken <= |heard| && Inbox(ss[j].clients[c]).value == heard[taken..]
    decreases j
  {
    hide *;
    ListeningAt(ss, acts, c, i, j);
    if j == i + 1 {
      FreshInbox(ss[i], ss[i + 1], c);
      NothingYet(ss, acts, c, j);
    } else {
      InboxExactly(ss, acts, c, i, j - 1);
      StepInbox(ss[j - 1], acts[j - 1], ss[j], c);
      OnlyReceiveTakes(ss[j - 1], acts[j - 1], c);
      HeardStep(ss, acts, i + 1, j);
      TakenStep(acts, c, i + 1, j);
      OneMore(Heard(ss, acts, i + 1, j - 1), Taken(acts, c, i + 1, j - 1), Announced(ss[j - 1], acts[j - 1]));
    }
  }

  lemma ListeningAt(ss: seq<State>, acts: seq<Action>, c: nat, i: nat, j: nat)
    requires Listening(ss, acts, c, i, j)
    ensures i < j <= |acts| && |acts| < |ss| && c < |ss[j].clients| && Inbox(ss[j].clients[c]).Some?
    ensures Step(ss[j - 1], acts[j - 1], ss[j]) && acts[i] == Subscribe(c)
    ensures j > i + 1 ==> Listening(ss, acts, c, i, j - 1) && c < |ss[j - 1].clients| && Inbox(ss[j - 1].clients[c]).Some?
  {
    hide Step, Inbox, Init;
    assert Step(ss[j - 1], acts[j - 1], ss[j - 1 + 1]);
  }

  lemma FreshInbox(s: State, s': State, c: nat)
    requires Step(s, Subscribe(c), s')
    ensures c < |s'.clients| && Inbox(s'.clients[c]) == Some([])
  {
  }

  lemma NothingYet(ss: seq<State>, acts: seq<Action>, c: nat, j: nat)
    requires j <= |acts| && |acts| <= |ss|
    ensures Heard(ss, acts, j, j) == [] && Taken(acts, c, j, j) == 0
  {
  }

  lemma OnlyReceiveTakes(s: State, a: Action, c: nat)
    ensures a == Receive(c) ==> Announced(s, a) == []
  {
  }

  lemma HeardStep(ss: seq<State>, acts: seq<Action>, i: nat, j: nat)
    requires i < j <= |acts| && |acts| <= |ss|
    ensures Heard(ss, acts, i, j) == Heard(ss, acts, i, j - 1) + Announced(ss[j - 1], acts[j - 1])
  {
  }

  lemma TakenStep(acts: seq<Action>, c: nat, i: nat, j: nat)
    requires i < j <= |acts|
    ensures Taken(acts, c, i, j) == Taken(acts, c, i, j - 1) + if acts[j - 1] == Receive(c) then 1 else 0
  {
  }

  lemma OneMore(heard: seq<string>, taken: nat, said: seq<string>)
    requires taken <= |heard|
    ensures heard[taken..] + said == (heard + said)[taken..]
    ensures heard[taken..] != [] ==> heard[taken..][1..] == heard[taken + 1..]
    ensures heard + [] == heard
  {
  }

  lemma {:induction false} HeardFrom(ss: seq<State>, acts: seq<Action>, i: nat, j: nat, r: string)
    requires i <= j <= |acts| && |acts| <= |ss|
    ensures r in Heard(ss, acts, i, j) <==> exists k :: i <= k < j && Announced(ss[k], acts[k]) == [r]
    decreases j
  {
    if i < j {
      HeardFrom(ss, acts, i, j - 1, r);
      hide Announces;
    }
  }

  /** A waiting client has no message pending about its resource exactly if every announced release of it since the
      subscription has been taken already: where a release is not announced, it waits in vain. */
  lemma WaitsInVainExactly(ss: seq<State>, acts: seq<Action>, c: nat, i: nat, j: nat)
    requires Listening(ss, acts, c, i, j) && ss[j].clients[c].Waiting?
    ensures var (r, heard, taken) := (ss[j].clients[c].req.resource, Heard(ss, acts, i + 1, j), Taken(acts, c, i + 1, j));
            && taken <= |heard|
            && (r !in ss[j].clients[c].inbox <==> forall k :: taken <= k < |heard| ==> heard[k] != r)
            && ((forall k :: i < k < j ==> Announced(ss[k], acts[k]) != [r]) ==> r !in ss[j].clients[c].inbox)
  {
    InboxExactly(ss, acts, c, i, j);
    var r, heard, taken := ss[j].clients[c].req.resource, Heard(ss, acts, i + 1, j), Taken(acts, c, i + 1, j);
    HeardFrom(ss, acts, i + 1, j, r);
    hide Heard, Taken, Run, Announced;
    assert forall k :: taken <= k < |heard| ==> heard[k] == heard[taken..][k - taken];
  }

  /** A waiting client tries again only because a spinning holder has released its resource in time, after the
      subscription. */
  lemma RetriedByMessage(ss: seq<State>, acts: seq<Action>, c: nat, i: nat, j: nat) returns (k: nat)
    requires Listening(ss, acts, c, i, j) && j < |acts| && acts[j] == Receive(c)
    requires c < |ss[j + 1].clients| && ss[j + 1].clients[c].Trying?
    ensures i < k < j && Announces(ss[k], acts[k]) && ss[k].clients[acts[k].c].req.resource == ss[j].clients[c].req.resource
  {
    assert Step(ss[j], acts[j], ss[j + 1]);
    var r := ss[j].clients[c].req.resource;
    assert r in Inbox(ss[j].clients[c]).value;
    InboxExactly(ss, acts, c, i, j);
    HeardFrom(ss, acts, i + 1, j, r);
    hide Run, Step, Heard, Taken, Announces;
    k :| i < k < j && Announced(ss[k], acts[k]) == [r];
  }

  /** A message about its own resource makes a waiting client try again, any other it drops. */
  lemma Receiving(s: State, c: nat) returns (s': State)
    requires c < |s.clients| && s.clients[c].Waiting? && s.clients[c].inbox != []
    ensures Step(s, Receive(c), s')
    ensures var (req, inbox) := (s.clients[c].req, s.clients[c].inbox);
            s' == if inbox[0] == req.resource then
                    s.(clients := s.clients[c := Trying(req, s.nextToken, Some(inbox[1..]))], nextToken := s.nextToken + 1)
                  else s.(clients := s.clients[c := Waiting(req, inbox[1..])])
  {
    var (req, inbox) := (s.clients[c].req, s.clients[c].inbox);
    if inbox[0] == req.resource {
      s' := s.(clients := s.clients[c := Trying(req, s.nextToken, Some(inbox[1..]))], nextToken := s.nextToken + 1);
    } else {
      s' := s.(clients := s.clients[c := Waiting(req, inbox[1..])]);
    }
  }

  /** The way it is meant to go, from any state: a spinning holder leaves in time, the client that waits hears of it, tries
      again, and has the lock. */
  lemma HandedOver(s: State, h: nat, c: nat, r: string) returns (ss: seq<State>)
    requires c < |s.clients| && s.clients[c].Waiting? && s.clients[c].inbox == [] && s.clients[c].req.resource == r
    requires s.clients[c].req.exp > 0
    requires h < |s.clients| && s.clients[h].InCall? && s.clients[h].req.resource == r && s.clients[h].req.spin
    requires Live(s, r) && s.locks[r].token == s.clients[h].token
    ensures |ss| == 5 && ss[0] == s
    ensures Step(ss[0], Leave(h, Answered), ss[1]) && Step(ss[1], Receive(c), ss[2])
    ensures Step(ss[2], Try(c, Answered), ss[3]) && Step(ss[3], Enter(c), ss[4])
    ensures Holding(ss[4], c, r) && !ss[4].clients[h].InCall?
  {
    var s1 := Unlock(s, s.clients[h].req, s.clients[h].token);
    s1 := s1.(clients := s1.clients[h := Idle]);
    assert s1.clients[c] == Waiting(s.clients[c].req, [] + [r]);
    var s2 := Receiving(s1, c);
    var req, token := s.clients[c].req, s1.nextToken;
    assert s1.clients[c].inbox[1..] == [];
    var until := s.now + 1000 * req.exp;
    var s3 := SetNx(s2, req, token);
    s3 := s3.(clients := s2.clients[c := Answering(req, token, Some([]), until)]);
    var s4 := s3.(clients := s3.clients[c := InCall(req, token, until)]);
    ss := [s, s1, s2, s3, s4];
  }

  // Releases that are not heard.

  /** Client 0 holds the lock, client 1 has been refused. */
  lemma Contended(h: Request, r: Request) returns (ss: seq<State>, acts: seq<Action>)
    requires Admissible(h) && Admissible(r) && r.spin && h.resource == r.resource
    ensures Run(ss, acts) && |acts| == 5
    ensures ss[0].now == 0 && forall k :: 0 <= k < |acts| ==> !acts[k].Leave?
    ensures ss[5] == State(0, map[r.resource := Lease(0, 1000 * h.exp)], [InCall(h, 0, 1000 * h.exp), Refused(r)], 2, {0})
  {
    var s0 := State(0, map[], [Idle, Idle], 0, {});
    var s1 := s0.(clients := [Trying(h, 0, None), Idle], nextToken := 1);
    var lease := Lease(0, 1000 * h.exp);
    var s2 := s1.(locks := map[r.resource := lease], granted := {0}, clients := [Answering(h, 0, None, lease.until), Idle]);
    var s3 := s2.(clients := [InCall(h, 0, lease.until), Idle]);
    var s4 := s3.(clients := [InCall(h, 0, lease.until), Trying(r, 1, None)], nextToken := 2);
    var s5 := s4.(clients := [InCall(h, 0, lease.until), Refused(r)]);
    ss := [s0, s1, s2, s3, s4, s5];
    acts := [Start(0, h), Try(0, Answered), Enter(0), Start(1, r), Try(1, Answered)];
    assert Step(s0, Start(0, h), s1);
    assert Step(s1, Try(0, Answered), s2);
    assert Step(s2, Enter(0), s3);
    assert Step(s3, Start(1, r), s4);
    assert Step(s4, Try(1, Answered), s5);
  }

  lemma RunOn(ss: seq<State>, acts: seq<Action>, a: Action, s: State)
    requires Run(ss, acts) && Step(ss[|acts|], a, s)
    ensures Run(ss + [s], acts + [a])
  {
    hide Step, Init;
    forall i | 0 <= i < |acts| + 1
      ensures Step((ss + [s])[i], (acts + [a])[i], (ss + [s])[i + 1])
    {
      if i < |acts| {
        assert Step(ss[i], acts[i], ss[i + 1]);
      }
    }
  }

  /** The lock is free, client 1 waits for it, and nothing is on its way to it. */
  ghost predicate InVain(s: State, r: Request) {
    !Live(s, r.resource) && |s.clients| == 2 && s.clients[1] == Waiting(r, [])
  }

  /** A release between the refusal and the subscription. */
  lemma WakeUpCanBeMissed(h: Request, r: Request) returns (ss: seq<State>, acts: seq<Action>)
    requires Admissible(h) && Admissible(r) && r.spin && h.resource == r.resource
    ensures Run(ss, acts) && InVain(ss[|acts|], r)
    ensures Leave(0, Answered) in acts && ss[|acts|].now == ss[0].now
  {
    ss, acts := Contended(h, r);
    var s5 := ss[5];
    var s6 := s5.(locks := map[], clients := [Idle, Refused(r)]);
    assert Step(s5, Leave(0, Answered), s6) by {
      assert s5.locks - {r.resource} == map[];
      assert Deliver(s5.clients, r.resource) == s5.clients;
    }
    var s7 := s6.(clients := [Idle, Waiting(r, [])]);
    assert Step(s6, Subscribe(1), s7);
    hide Run, Step;
    RunOn(ss, acts, Leave(0, Answered), s6);
    RunOn(ss + [s6], acts + [Leave(0, Answered)], Subscribe(1), s7);
    ss, acts := ss + [s6] + [s7], acts + [Leave(0, Answered)] + [Subscribe(1)];
  }

  /** A release without any race, by a holder that did not spin itself. */
  lemma PlainHolderIsSilent(h: Request, r: Request) returns (ss: seq<State>, acts: seq<Action>)
    requires Admissible(h) && Admissible(r) && r.spin && !h.spin && h.resource == r.resource
    ensures Run(ss, acts) && InVain(ss[|acts|], r)
    ensures Leave(0, Answered) in acts && ss[|acts|].now == ss[0].now
  {
    ss, acts := Contended(h, r);
    var s5 := ss[5];
    var s6 := s5.(clients := [s5.clients[0], Waiting(r, [])]);
    assert Step(s5, Subscribe(1), s6);
    var s7 := s6.(locks := map[], clients := [Idle, Waiting(r, [])]);
    assert Step(s6, Leave(0, Answered), s7) by {
      assert s6.locks - {r.resource} == map[];
    }
    hide Run, Step;
    RunOn(ss, acts, Subscribe(1), s6);
    RunOn(ss + [s6], acts + [Subscribe(1)], Leave(0, Answered), s7);
    ss, acts := ss + [s6] + [s7], acts + [Subscribe(1)] + [Leave(0, Answered)];
  }

  /** A lease that runs out while the holder is still in its call. */
  lemma ExpiryIsSilent(h: Request, r: Request) returns (ss: seq<State>, acts: seq<Action>)
    requires Admissible(h) && Admissible(r) && r.spin && h.resource == r.resource
    ensures Run(ss, acts) && InVain(ss[|acts|], r)
    ensures forall k :: 0 <= k < |acts| ==> !acts[k].Leave?
  {
    ss, acts := Contended(h, r);
    var s5 := ss[5];
    var s6 := s5.(clients := [s5.clients[0], Waiting(r, [])]);
    assert Step(s5, Subscribe(1), s6);
    var s7 := s6.(now := 1000 * h.exp);
    assert Step(s6, Tick(1000 * h.exp), s7);
    hide Run, Step;
    RunOn(ss, acts, Subscribe(1), s6);
    RunOn(ss + [s6], acts + [Subscribe(1)], Tick(1000 * h.exp), s7);
    ss, acts := ss + [s6] + [s7], acts + [Subscribe(1)] + [Tick(1000 * h.exp)];
  }

  // A reply that is late.

  /** Client 0 learns of its success only after its lease has run out and client 1 has got the lock: both are inside. */
  lemma EntersTooLate(h: Request, r: Request) returns (ss: seq<State>, acts: seq<Action>)
    requires Admissible(h) && Admissible(r) && h.resource == r.resource
    ensures Run(ss, acts) && Holding(ss[|acts|], 1, r.resource)
    ensures var s := ss[|acts|];
            |s.clients| == 2 && s.clients[0].InCall? && s.clients[0].req == h && !Holding(s, 0, r.resource)
  {
    var late := 1000 * h.exp;
    var s0 := State(0, map[], [Idle, Idle], 0, {});
    var s1 := s0.(clients := [Trying(h, 0, None), Idle], nextToken := 1);
    var s2 := s1.(locks := map[r.resource := Lease(0, late)], granted := {0}, clients := [Answering(h, 0, None, late), Idle]);
    var s3 := s2.(now := late);
    var s4 := s3.(clients := [s2.clients[0], Trying(r, 1, None)], nextToken := 2);
    var until := late + 1000 * r.exp;
    var s5 := s4.(locks := map[r.resource := Lease(1, until)], granted := {0, 1},
                  clients := [s2.clients[0], Answering(r, 1, None, until)]);
    var s6 := s5.(clients := [s2.clients[0], InCall(r, 1, until)]);
    var s7 := s6.(clients := [InCall(h, 0, late), InCall(r, 1, until)]);
    ss := [s0, s1, s2, s3, s4, s5, s6, s7];
    acts := [Start(0, h), Try(0, Answered), Tick(late), Start(1, r), Try(1, Answered), Enter(1), Enter(0)];
    assert Step(s0, Start(0, h), s1);
    assert Step(s1, Try(0, Answered), s2);
    assert Step(s2, Tick(late), s3);
    assert Step(s3, Start(1, r), s4);
    assert Step(s4, Try(1, Answered), s5) by {
      assert s4.locks[r.resource := Lease(1, until)] == map[r.resource := Lease(1, until)];
    }
    assert Step(s5, Enter(1), s6);
    assert Step(s6, Enter(0), s7);
    assert Init(s0);
    hide Step, Init;
  }
}
