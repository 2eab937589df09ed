/** The snowflake ID source (utils/snowflake/id_worker.go): 41 bits of time, 10 of node, 12 of step, in an int64. */
module Snowflake {
  import opened Powers

  const EPOCH: nat := 1288834974657
  const NODE_BITS: nat := 10
  const STEP_BITS: nat := 12
  const TIME_SHIFT: nat := 22

  // Bit operations on non-negative numbers.

  function BitOr(a: nat, b: nat): nat {
    if a == 0 then b
    else if b == 0 then a
    else 2 * BitOr(a / 2, b / 2) + if a % 2 == 1 || b % 2 == 1 then 1 else 0
  }

  function BitAnd(a: nat, b: nat): nat {
    if a == 0 || b == 0 then 0
    else 2 * BitAnd(a / 2, b / 2) + if a % 2 == 1 && b % 2 == 1 then 1 else 0
  }

  function Shl(a: nat, k: nat): nat {
    Mul(a, Pow(2, k))
  }

  /** k ones. */
  function Ones(k: nat): nat {
    PowPositive(2, k);
    Pow(2, k) - 1
  }

  lemma HalfShift(a: nat, k: nat)
    requires k > 0
    ensures Shl(a, k) == 2 * Shl(a, k - 1)
  {
    DoubleMul(a, Pow(2, k - 1));
  }

  lemma DoubleMul(a: nat, p: nat)
    ensures a * (2 * p) == 2 * (a * p)
  {
  }

  /** Disjoint fields: or is plus. */
  lemma {:induction false} OrDisjoint(a: nat, b: nat, k: nat)
    requires b < Pow(2, k)
    ensures BitOr(Shl(a, k), b) == Shl(a, k) + b
  {
    if k == 0 {
      assert BitOr(Shl(a, 0), 0) == Shl(a, 0);
    } else {
      HalfShift(a, k);
      assert b / 2 < Pow(2, k - 1);
      hide Shl, Pow;
      OrDisjoint(a, b / 2, k - 1);
    }
  }

  /** And with k ones is the remainder. */
  lemma {:induction false} AndOnes(x: nat, k: nat)
    ensures BitAnd(x, Ones(k)) == x - Shl(Shr(x, k), k)
    ensures BitAnd(x, Ones(k)) < Pow(2, k)
  {
    PowPositive(2, k);
    if k == 0 {
      assert Shl(Shr(x, 0), 0) == x;
    } else {
      PowPositive(2, k - 1);
      AndOnes(x / 2, k - 1);
      HalfShift(Shr(x, k), k);
      ShrHalf(x, k);
      assert Ones(k) == 2 * Ones(k - 1) + 1;
      hide Shl, Shr, Pow;
    }
  }

  lemma ShrHalf(x: nat, k: nat)
    requires k > 0
    ensures Shr(x, k) == Shr(x / 2, k - 1)
  {
    PowPositive(2, k - 1);
    DivTwice(x, Pow(2, k - 1));
  }

  lemma HalfOf(x: nat, m: nat, p: nat, q: nat, r: nat)
    requires m == 2 * p && x == Mul(m, q) + r
    ensures x / 2 == Mul(p, q) + r / 2
  {
    var n := p * q;
    assert m * q == 2 * n;
  }

  lemma DivMod(x: nat, m: nat) returns (r: nat)
    requires m > 0
    ensures x == Mul(m, Quotient(x, m)) + r && r < m
  {
    r := x % m;
  }

  lemma QuotientMul(n: nat, p: nat, q: nat, r: nat)
    requires p > 0 && n == Mul(p, q) + r && r < p
    ensures Quotient(n, p) == q
  {
    QuotientIs(n, p, q, r);
  }

  lemma DivTwice(x: nat, p: nat)
    requires p > 0
    ensures Quotient(x, 2 * p) == Quotient(x / 2, p)
  {
    hide *;
    var m := 2 * p;
    var r := DivMod(x, m);
    HalfOf(x, m, p, Quotient(x, m), r);
    QuotientMul(x / 2, p, Quotient(x, m), r / 2);
  }

  /** And with ones further up: the field, in place. */
  lemma {:induction false} AndField(x: nat, m: nat, k: nat)
    ensures BitAnd(x, Shl(m, k)) == Shl(BitAnd(Shr(x, k), m), k)
  {
    if k == 0 {
      assert Shl(m, 0) == m && Shr(x, 0) == x;
      assert Shl(BitAnd(x, m), 0) == BitAnd(x, m);
    } else {
      AndField(x / 2, m, k - 1);
      HalfShift(m, k);
      ShrHalf(x, k);
      HalfShift(BitAnd(Shr(x, k), m), k);
      EvenAnd(x, Shl(m, k - 1));
      hide Shl, Shr, BitAnd;
    }
  }

  lemma EvenAnd(x: nat, y: nat)
    ensures BitAnd(x, 2 * y) == 2 * BitAnd(x / 2, y)
  {
  }

  lemma ShiftBack(a: nat, b: nat, k: nat)
    requires b < Pow(2, k)
    ensures Shr(Shl(a, k) + b, k) == a
  {
    PowPositive(2, k);
    QuotientIs(Shl(a, k) + b, Pow(2, k), a, b);
  }

  // Identifiers.

  function Pack(time: int, node: nat, step: nat): nat
    requires time >= EPOCH
  {
    BitOr(BitOr(Shl(time - EPOCH, TIME_SHIFT), Shl(node, STEP_BITS)), step)
  }

  function Time(id: nat): int {
    Shr(id, TIME_SHIFT) + EPOCH
  }

  function NodeOf(id: nat): nat {
    Shr(BitAnd(id, Shl(Ones(NODE_BITS), STEP_BITS)), STEP_BITS)
  }

  function Step(id: nat): nat {
    BitAnd(id, Ones(STEP_BITS))
  }

  ghost predicate InEra(time: int) {
    EPOCH <= time < EPOCH + Pow(2, 41)
  }

  ghost predicate Fits(node: nat, step: nat) {
    node < Pow(2, NODE_BITS) && step < Pow(2, STEP_BITS)
  }

  lemma ShlSum(a: nat, b: nat, i: nat, j: nat)
    ensures Shl(a, i + j) + Shl(b, j) == Shl(Shl(a, i) + b, j)
  {
    PowAdd(2, i, j);
    hide Pow;
    SumArith(a, b, Pow(2, i), Pow(2, j));
  }

  lemma SumArith(a: nat, b: nat, p: nat, q: nat)
    ensures a * (p * q) + b * q == (a * p + b) * q
  {
    assert a * (p * q) == (a * p) * q;
  }

  lemma ShlBelow(a: nat, k: nat, n: nat)
    requires a < Pow(2, n)
    ensures Shl(a, k) + Pow(2, k) <= Pow(2, n + k)
  {
    PowAdd(2, n, k);
    hide Pow;
    BelowArith(a, Pow(2, n), Pow(2, k));
  }

  lemma BelowArith(a: nat, p: nat, q: nat)
    requires a < p
    ensures a * q + q <= p * q
  {
    MulLe(a + 1, p, q);
  }

  /** The parts of an identifier stand side by side. */
  lemma PackSum(time: int, node: nat, step: nat)
    requires InEra(time) && Fits(node, step)
    ensures Pack(time, node, step) == Shl(time - EPOCH, TIME_SHIFT) + Shl(node, STEP_BITS) + step
    ensures Shl(node, STEP_BITS) + step < Pow(2, TIME_SHIFT)
    ensures Pack(time, node, step) == Shl(Shl(time - EPOCH, NODE_BITS) + node, STEP_BITS) + step
    ensures Pack(time, node, step) < Pow(2, 63)
  {
    hide *;
    Bounds(time, node, step);
    var t: nat := time - EPOCH;
    PackIs(time, node, step);
    ShlBelow(node, STEP_BITS, NODE_BITS);
    ShlBelow(t, TIME_SHIFT, 41);
    OrDisjoint(t, Shl(node, STEP_BITS), TIME_SHIFT);
    ShlSum(t, node, NODE_BITS, STEP_BITS);
    OrDisjoint(Shl(t, NODE_BITS) + node, step, STEP_BITS);
  }

  lemma PackIs(time: int, node: nat, step: nat)
    requires time >= EPOCH
    ensures Pack(time, node, step) == BitOr(BitOr(Shl(time - EPOCH, TIME_SHIFT), Shl(node, STEP_BITS)), step)
  {
    hide BitOr, Shl;
  }

  lemma Bounds(time: int, node: nat, step: nat)
    requires InEra(time) && Fits(node, step)
    ensures time >= EPOCH && time - EPOCH < Pow(2, 41)
    ensures node < Pow(2, NODE_BITS) && step < Pow(2, STEP_BITS)
    ensures NODE_BITS + STEP_BITS == TIME_SHIFT && 41 + TIME_SHIFT == 63
  {
    hide Pow;
  }

  /** Time, Node and Step recover the packed fields, and the sign bit stays clear. */
  lemma FieldsRecovered(time: int, node: nat, step: nat)
    requires InEra(time) && Fits(node, step)
    ensures var id := Pack(time, node, step);
            Time(id) == time && NodeOf(id) == node && Step(id) == step && id < Pow(2, 63)
  {
    hide *;
    Bounds(time, node, step);
    var id := Pack(time, node, step);
    var t: nat := time - EPOCH;
    var high := Shl(t, NODE_BITS) + node;
    PackSum(time, node, step);
    ShiftBack(t, Shl(node, STEP_BITS) + step, TIME_SHIFT);
    ShiftBack(high, step, STEP_BITS);
    AndOnes(id, STEP_BITS);
    AndField(id, Ones(NODE_BITS), STEP_BITS);
    AndOnes(high, NODE_BITS);
    ShiftBack(t, node, NODE_BITS);
    ShiftZero(BitAnd(high, Ones(NODE_BITS)), STEP_BITS);
    FieldsAre(id);
  }

  lemma FieldsAre(id: nat)
    ensures Time(id) == Shr(id, TIME_SHIFT) + EPOCH
    ensures NodeOf(id) == Shr(BitAnd(id, Shl(Ones(NODE_BITS), STEP_BITS)), STEP_BITS)
    ensures Step(id) == BitAnd(id, Ones(STEP_BITS))
  {
    hide BitAnd, Shl, Shr, Ones;
  }

  lemma ShiftZero(a: nat, k: nat)
    ensures Shr(Shl(a, k), k) == a
  {
    PowPositive(2, k);
    ShiftBack(a, 0, k);
  }

  /** IDs of different nodes never collide, whatever their times and steps. */
  lemma NodesApart(t: int, node: nat, s: nat, t': int, node': nat, s': nat)
    requires InEra(t) && InEra(t') && Fits(node, s) && Fits(node', s') && node != node'
    ensures Pack(t, node, s) != Pack(t', node', s')
  {
    hide *;
    FieldsRecovered(t, node, s);
    FieldsRecovered(t', node', s');
  }

  /** IDs of one node are ordered by time, then step. */
  lemma Ordered(t: int, s: nat, t': int, s': nat, node: nat)
    requires InEra(t) && InEra(t') && Fits(node, s) && Fits(node, s')
    ensures Pack(t, node, s) < Pack(t', node, s') <==> t < t' || (t == t' && s < s')
  {
    hide Pow, Pack, Fits, Mul;
    PackSum(t, node, s);
    PackSum(t', node, s');
    OrderArith(t - EPOCH, Shl(node, STEP_BITS) + s, t' - EPOCH, Shl(node, STEP_BITS) + s', Pow(2, TIME_SHIFT));
  }

  lemma OrderArith(a: nat, x: nat, b: nat, y: nat, p: nat)
    requires x < p && y < p
    ensures Mul(a, p) + x < Mul(b, p) + y <==> a < b || (a == b && x < y)
  {
    if a < b {
      MulLe(a + 1, b, p);
    } else if b < a {
      MulLe(b + 1, a, p);
    }
  }

  // The source of identifiers.

  datatype State = State(time: int, node: nat, step: nat)

  /** The first reading that has moved past the given time. */
  function FirstAfter(readings: seq<int>, time: int): int
    requires exists i :: 0 <= i < |readings| && readings[i] > time
  {
    if readings[0] > time then readings[0]
    else
      assert exists i :: 0 <= i < |readings| - 1 && readings[1..][i] > time by {
        var i :| 0 <= i < |readings| && readings[i] > time;
        assert readings[1..][i - 1] == readings[i];
      }
      FirstAfter(readings[1..], time)
  }

  function NextStep(step: nat): nat {
    BitAnd(step + 1, Ones(STEP_BITS))
  }

  /** One ID: used is the clock reading taken, waited the readings of the wait for the next millisecond. */
  function Next(s: State, used: int, waited: seq<int>): State
    requires used == s.time && NextStep(s.step) == 0 ==> exists i :: 0 <= i < |waited| && waited[i] > s.time
  {
    if used != s.time then State(used, s.node, 0)
    else if NextStep(s.step) != 0 then State(used, s.node, NextStep(s.step))
    else State(FirstAfter(waited, s.time), s.node, 0)
  }

  /** The reading Generate goes by: the clock's, or the one taken after sleeping if the clock was behind. */
  function Used(time: int, now: int, afterSleep: int): int {
    if time > now then afterSleep else now
  }

  class Node {
    var time: int
    const node: nat
    var step: nat

    constructor (n: nat)
      requires n < Pow(2, NODE_BITS)
      ensures View() == State(0, n, 0)
    {
      time, node, step := 0, n, 0;
    }

    function View(): State
      reads this
    {
      State(time, node, step)
    }

    /** now is the first clock reading, afterSleep the one taken after the sleep, waited those of the wait for the next
        millisecond, which has to come. */
    method Generate(now: int, afterSleep: int, waited: seq<int>) returns (id: nat)
      requires Used(time, now, afterSleep) == time && NextStep(step) == 0 ==> exists i :: 0 <= i < |waited| && waited[i] > time
      requires now >= EPOCH && afterSleep >= EPOCH && forall i :: 0 <= i < |waited| ==> waited[i] >= EPOCH
      modifies this
      ensures View() == Next(old(View()), Used(old(time), now, afterSleep), waited)
      ensures time >= EPOCH && id == Pack(time, node, step)
    {
      hide Ones, BitAnd, Pack;
      var now := now;
      if time > now {
        now := afterSleep;
      }
      if time == now {
        step := NextStep(step);
        if step == 0 {
          now := Wait(now, waited);
        }
      } else {
        step := 0;
      }
      time := now;
      id := Pack(time, node, step);
    }

    /** Read the clock until it has moved past the last time. */
    method Wait(now: int, waited: seq<int>) returns (later: int)
      requires now == time && exists i :: 0 <= i < |waited| && waited[i] > time
      requires forall i :: 0 <= i < |waited| ==> waited[i] >= EPOCH
      ensures later == FirstAfter(waited, time) && later >= EPOCH
    {
      later := now;
      var k := 0;
      assert waited[0..] == waited;
      while later <= time
        invariant 0 <= k <= |waited|
        invariant later <= time ==> (exists i :: 0 <= i < |waited[k..]| && waited[k..][i] > time)
                                    && FirstAfter(waited, time) == FirstAfter(waited[k..], time)
        invariant later > time ==> later == FirstAfter(waited, time) && later >= EPOCH
        decreases |waited| - k, if later <= time then 1 else 0
      {
        later := waited[k];
        assert waited[k..][1..] == waited[k + 1..];
        k := k + 1;
      }
    }
  }

  // Runs of one node.

  lemma FirstAfterIsLater(readings: seq<int>, time: int)
    requires exists i :: 0 <= i < |readings| && readings[i] > time
    ensures FirstAfter(readings, time) > time && FirstAfter(readings, time) in readings
  {
  }

  lemma NextStepIs(step: nat)
    requires step < Pow(2, STEP_BITS)
    ensures NextStep(step) < Pow(2, STEP_BITS)
    ensures NextStep(step) == if step + 1 < Pow(2, STEP_BITS) then step + 1 else 0
  {
    hide *;
    NextMasked(step, STEP_BITS);
    NextStepMask(step);
  }

  lemma NextStepMask(step: nat)
    ensures NextStep(step) == BitAnd(step + 1, Ones(STEP_BITS))
  {
    hide BitAnd, Ones;
  }

  lemma NextMasked(step: nat, k: nat)
    requires step < Pow(2, k)
    ensures BitAnd(step + 1, Ones(k)) < Pow(2, k)
    ensures BitAnd(step + 1, Ones(k)) == if step + 1 < Pow(2, k) then step + 1 else 0
  {
    hide *;
    AndOnes(step + 1, k);
    if step + 1 < Pow(2, k) {
      ShiftBack(0, step + 1, k);
      ShlSmall(k);
    } else {
      ShlSmall(k);
      ShiftBack(1, 0, k);
    }
  }

  lemma ShlSmall(k: nat)
    ensures Shl(0, k) == 0 && Shl(1, k) == Pow(2, k) && Pow(2, k) > 0
  {
    PowPositive(2, k);
    hide Pow;
  }

  /** The first reading past a time: all before it were not. */
  lemma {:induction false} FirstAfterAt(readings: seq<int>, time: int) returns (i: nat)
    requires exists i :: 0 <= i < |readings| && readings[i] > time
    ensures i < |readings| && readings[i] == FirstAfter(readings, time) > time && forall j :: 0 <= j < i ==> readings[j] <= time
  {
    if readings[0] > time {
      i := 0;
    } else {
      var k :| 0 <= k < |readings| && readings[k] > time;
      assert readings[1..][k - 1] == readings[k];
      i := FirstAfterAt(readings[1..], time);
      i := i + 1;
    }
  }

  /** What comes next, by the clock: the reading is the first, or the one after the sleep if the first is behind. A new
      millisecond starts at step zero; within one the steps count up, all 4096 of them, and then the wait ends with the first
      reading past it, at step zero again. */
  lemma NextIs(s: State, now: int, afterSleep: int, waited: seq<int>)
    requires Fits(s.node, s.step)
    requires Used(s.time, now, afterSleep) == s.time && NextStep(s.step) == 0 ==>
               exists i :: 0 <= i < |waited| && waited[i] > s.time
    ensures var used := if now < s.time then afterSleep else now;
            var s' := Next(s, Used(s.time, now, afterSleep), waited);
            && (used != s.time ==> s' == State(used, s.node, 0))
            && (used == s.time && s.step < 4095 ==> s' == State(s.time, s.node, s.step + 1))
            && (used == s.time && s.step == 4095 ==>
                 s'.node == s.node && s'.step == 0
                 && exists i :: 0 <= i < |waited| && s'.time == waited[i] > s.time && forall j :: 0 <= j < i ==> waited[j] <= s.time)
  {
    NextStepIs(s.step);
    assert Pow(2, STEP_BITS) == 4096 by { StepsPerMillisecond(); }
    hide NextStep, Pow, FirstAfter;
    if Used(s.time, now, afterSleep) == s.time && s.step == 4095 {
      var i := FirstAfterAt(waited, s.time);
    }
  }

  lemma StepsPerMillisecond()
    ensures Pow(2, STEP_BITS) == 4096
  {
  }

  /** The new ID is above the last one exactly if the reading used is not behind it. */
  lemma AboveExactly(s: State, used: int, waited: seq<int>)
    requires InEra(s.time) && Fits(s.node, s.step)
    requires used == s.time && NextStep(s.step) == 0 ==> exists i :: 0 <= i < |waited| && waited[i] > s.time
    requires InEra(Next(s, used, waited).time)
    ensures var s' := Next(s, used, waited);
            && s'.node == s.node && Fits(s'.node, s'.step)
            && (Pack(s.time, s.node, s.step) < Pack(s'.time, s'.node, s'.step) <==> used >= s.time)
  {
    var s' := Next(s, used, waited);
    NextStepIs(s.step);
    PowPositive(2, STEP_BITS);
    if used == s.time && NextStep(s.step) == 0 {
      FirstAfterIsLater(waited, s.time);
    }
    hide Pow, Pack, NextStep, InEra;
    Ordered(s.time, s.step, s'.time, s'.step, s.node);
  }

  /** A run: states after each ID, the readings used, and those of the waits. */
  ghost predicate Run(ss: seq<State>, used: seq<int>, waited: seq<seq<int>>) {
    && |ss| == |used| + 1 && |waited| == |used| && Fits(ss[0].node, ss[0].step)
    && forall i :: 0 <= i < |used| ==>
         && (used[i] == ss[i].time && NextStep(ss[i].step) == 0 ==> exists k :: 0 <= k < |waited[i]| && waited[i][k] > ss[i].time)
         && ss[i + 1] == Next(ss[i], used[i], waited[i])
  }

  lemma EraStart(time: int)
    requires InEra(time)
    ensures time >= EPOCH
  {
    hide Pow;
  }

  lemma {:induction false} StrictlyIncreasing(ss: seq<State>, used: seq<int>, waited: seq<seq<int>>, i: nat, j: nat)
    requires Run(ss, used, waited) && i < j < |ss|
    requires forall k :: 0 <= k < |ss| ==> InEra(ss[k].time)
    requires forall k :: 0 <= k < |used| ==> used[k] >= ss[k].time
    ensures ss[i].time >= EPOCH && ss[j].time >= EPOCH
    ensures Fits(ss[j].node, ss[j].step) && Fits(ss[i].node, ss[i].step) && ss[j].node == ss[0].node
    ensures Pack(ss[i].time, ss[i].node, ss[i].step) < Pack(ss[j].time, ss[j].node, ss[j].step)
  {
    EraStart(ss[i].time);
    EraStart(ss[j].time);
    hide Pack, InEra, Next, NextStep;
    if i + 1 < j {
      StrictlyIncreasing(ss, used, waited, i, j - 1);
    } else if i > 0 {
      StrictlyIncreasing(ss, used, waited, i - 1, i);
    }
    assert ss[j - 1 + 1] == Next(ss[j - 1], used[j - 1], waited[j - 1]);
    AboveExactly(ss[j - 1], used[j - 1], waited[j - 1]);
  }
}
