/** The CFS scheduler of proc.c, with the tick charging of trap.c, on one CPU.

    `Machine` is the process table and the global minimum as a value; `Apply` is one atomic kernel
    step on it.  The class at the end does the same steps in place. */
module Scheduler {

  const NPROC: nat := 64
  const NICE_0_LOAD: nat := 1024
  const CFS_WMULT: nat := 0x10_0000
  const CFS_WAKEUP_BONUS: nat := 1000000
  const MAXDELTA: nat := 89478485  // cfs_vdelta(20)
  const INIT_PRIORITY: int := -5

  const CFS_WEIGHT: seq<nat> := [
    88761, 71755, 56483, 46273, 36291,
    29154, 23254, 18705, 14949, 11916,
    9548, 7620, 6100, 4904, 3906,
    3121, 2501, 1991, 1586, 1277,
    1024, 820, 655, 526, 423,
    335, 272, 215, 172, 137,
    110, 87, 70, 56, 45,
    36, 29, 23, 18, 15,
    12]

  function IndexOf(priority: int): nat {
    if priority + 20 < 0 then 0 else if priority + 20 > 40 then 40 else priority + 20
  }

  /** cfs_vdelta: what one tick costs. */
  function VDelta(priority: int): (d: nat)
    ensures 0 < d <= MAXDELTA
  {
    WeightRange(IndexOf(priority));
    CFS_WMULT * NICE_0_LOAD / CFS_WEIGHT[IndexOf(priority)]
  }

  lemma WeightRange(idx: nat)
    requires idx < 41
    ensures 12 <= CFS_WEIGHT[idx] <= 88761
  {
  }

  /** A tick costs the scaled unit divided by the weight of the priority, rounded down. */
  lemma VDeltaIsQuotient(priority: int)
    requires -20 <= priority <= 20
    ensures VDelta(priority) * CFS_WEIGHT[priority + 20] <= 0x4000_0000
    ensures 0x4000_0000 < (VDelta(priority) + 1) * CFS_WEIGHT[priority + 20]
    ensures forall p :: p < -20 ==> VDelta(p) == VDelta(-20)
    ensures forall p :: p > 20 ==> VDelta(p) == VDelta(20)
  {
    WeightRange(priority + 20);
    var w := CFS_WEIGHT[priority + 20];
    assert VDelta(priority) == 0x4000_0000 / w;
    assert forall p :: p < -20 ==> IndexOf(p) == IndexOf(-20);
    assert forall p :: p > 20 ==> IndexOf(p) == IndexOf(20);
    QuotientBounds(0x4000_0000, w);
    hide *;
  }

  lemma QuotientBounds(a: nat, v: nat)
    requires v > 0
    ensures a / v * v <= a < (a / v + 1) * v
  {
    var q, r := a / v, a % v;
    assert a == q * v + r;
    assert (q + 1) * v == q * v + v;
  }

  /** Each step up in priority number has a smaller weight. */
  lemma WeightsDescend(i: nat)
    requires i < 40
    ensures CFS_WEIGHT[i + 1] < CFS_WEIGHT[i]
  {
  }

  lemma {:induction false} QuotientFits(a: nat, v: nat, q: nat)
    requires 0 < v && q * v <= a
    ensures q <= a / v
    decreases q
  {
    if q > 0 {
      AtLeastOne(q, v);
      assert (q - 1) * v == q * v - v;
      QuotientFits(a - v, v, q - 1);
      DivideStep(a, v);
    }
  }

  lemma QuotientOrder(a: nat, v: nat, w: nat)
    requires 0 < v <= w
    ensures a / w <= a / v
  {
    var q := a / w;
    MoreOf(q, v, w);
    assert q * w <= a;
    QuotientFits(a, v, q);
  }

  lemma MoreOf(q: nat, v: nat, w: nat)
    requires v <= w
    ensures q * v <= q * w
  {
  }

  /** A tick never costs a task less than one of a lower priority number. */
  lemma {:induction false} LowerNumberCostsLess(p: int, q: int)
    requires p <= q
    ensures VDelta(p) <= VDelta(q)
    decreases q - p
  {
    if p < q {
      LowerNumberCostsLess(p, q - 1);
      if IndexOf(q - 1) < IndexOf(q) {
        WeightsDescend(IndexOf(q - 1));
        WeightRange(IndexOf(q));
        QuotientOrder(CFS_WMULT * NICE_0_LOAD, CFS_WEIGHT[IndexOf(q)], CFS_WEIGHT[IndexOf(q - 1)]);
      }
    }
  }

  datatype State = UNUSED | SLEEPING | RUNNABLE | RUNNING | ZOMBIE

  datatype Proc = Proc(state: State, priority: int, vruntime: nat, created: nat, chan: nat) {
    predicate Ready() {
      state.RUNNABLE? || state.RUNNING?
    }
  }

  /** `cur` is c->proc, or -1 while the CPU is in the scheduler. */
  datatype Machine = Machine(procs: seq<Proc>, minV: nat, cur: int)

  // The pick

  /** p is scanned as better than q: smaller vruntime, then older, then lower in the table. */
  predicate Before(procs: seq<Proc>, b: nat, j: nat)
    requires b < |procs| && j < |procs|
  {
    var p, q := procs[b], procs[j];
    || p.vruntime < q.vruntime
    || (p.vruntime == q.vruntime && p.created < q.created)
    || (p.vruntime == q.vruntime && p.created == q.created && b <= j)
  }

  ghost predicate IsBest(procs: seq<Proc>, b: nat) {
    && b < |procs| && procs[b].state.RUNNABLE?
    && forall j :: 0 <= j < |procs| && procs[j].state.RUNNABLE? ==> Before(procs, b, j)
  }

  ghost predicate SomeRunnable(procs: seq<Proc>) {
    exists j :: 0 <= j < |procs| && procs[j].state.RUNNABLE?
  }

  lemma BestUnique(procs: seq<Proc>, a: nat, b: nat)
    requires IsBest(procs, a) && IsBest(procs, b)
    ensures a == b
  {
  }

  lemma {:induction false} BestExists(procs: seq<Proc>)
    requires SomeRunnable(procs)
    ensures exists b :: IsBest(procs, b)
  {
    var n := |procs| - 1;
    var front := procs[..n];
    if SomeRunnable(front) {
      BestExists(front);
      var b :| IsBest(front, b);
      if procs[n].state.RUNNABLE? && !Before(procs, b, n) {
        assert IsBest(procs, n);
      } else {
        assert IsBest(procs, b);
      }
    } else {
      var j :| 0 <= j < |procs| && procs[j].state.RUNNABLE?;
      assert forall k :: 0 <= k < n ==> front[k] == procs[k];
      assert IsBest(procs, n);
    }
  }

  ghost function Picked(procs: seq<Proc>): (b: nat)
    requires SomeRunnable(procs)
    ensures IsBest(procs, b)
  {
    BestExists(procs);
    var b :| IsBest(procs, b); b
  }

  // The steps

  datatype Step =
    | Userinit(now: nat)
    | Dispatch
    | Tick
    | Sleep(chan: nat)
    | Wakeup(chan: nat)
    | Fork(slot: nat, now: nat)
    | Exit
    | Reap(slot: nat)
    | SetPriority(slot: nat, priority: int)
    | Kill(slot: nat)

  /** Exactly the current process is RUNNING. */
  ghost predicate OneCpu(m: Machine) {
    && -1 <= m.cur < |m.procs|
    && forall i :: 0 <= i < |m.procs| ==> (m.procs[i].state.RUNNING? <==> i == m.cur)
  }

  ghost predicate Enabled(m: Machine, s: Step) {
    match s
    case Userinit(_) => m.cur == -1 && |m.procs| > 0 && forall i :: 0 <= i < |m.procs| ==> m.procs[i].state.UNUSED?
    case Dispatch => m.cur == -1 && SomeRunnable(m.procs)
    case Tick => m.cur >= 0
    case Sleep(_) => m.cur >= 0
    case Wakeup(_) => true
    case Fork(slot, _) => m.cur >= 0 && slot < |m.procs| && m.procs[slot].state.UNUSED?
    case Exit => m.cur >= 0
    case Reap(slot) => slot < |m.procs| && m.procs[slot].state.ZOMBIE?
    case SetPriority(slot, p) => slot < |m.procs| && !m.procs[slot].state.UNUSED? && -20 <= p <= 20
    case Kill(slot) => slot < |m.procs| && !m.procs[slot].state.UNUSED?
  }

  function Max(a: nat, b: nat): nat {
    if a < b then b else a
  }

  /** Where wakeup puts a sleeper: no earlier than the minimum, less the bonus. */
  function Placed(p: Proc, minV: nat): Proc {
    var base := Max(p.vruntime, minV);
    p.(state := RUNNABLE, vruntime := if base > CFS_WAKEUP_BONUS then base - CFS_WAKEUP_BONUS else 0)
  }

  function Woken(p: Proc, chan: nat, minV: nat): Proc {
    if p.state.SLEEPING? && p.chan == chan then Placed(p, minV) else p
  }

  /** What kfork gives the child; a kernel-class parent's child drops to the user range. */
  function Child(p: Proc, now: nat): Proc {
    Proc(RUNNABLE, if p.priority < 0 then 10 else p.priority, p.vruntime, now, 0)
  }

  function Charged(p: Proc): Proc {
    p.(vruntime := p.vruntime + VDelta(p.priority), state := RUNNABLE)
  }

  ghost function Apply(m: Machine, s: Step): (n: Machine)
    requires OneCpu(m) && Enabled(m, s)
    ensures |n.procs| == |m.procs|
  {
    match s
    case Userinit(now) => m.(procs := m.procs[0 := Proc(RUNNABLE, INIT_PRIORITY, m.minV, now, 0)])
    case Dispatch =>
      var b := Picked(m.procs);
      Machine(m.procs[b := m.procs[b].(state := RUNNING)], Max(m.minV, m.procs[b].vruntime), b)
    case Tick => m.(procs := m.procs[m.cur := Charged(m.procs[m.cur])], cur := -1)
    case Sleep(chan) => m.(procs := m.procs[m.cur := m.procs[m.cur].(state := SLEEPING, chan := chan)], cur := -1)
    case Wakeup(chan) =>
      m.(procs := seq(|m.procs|, i requires 0 <= i < |m.procs| => Woken(m.procs[i], chan, m.minV)))
    case Fork(slot, now) => m.(procs := m.procs[slot := Child(m.procs[m.cur], now)])
    case Exit => m.(procs := m.procs[m.cur := m.procs[m.cur].(state := ZOMBIE)], cur := -1)
    case Reap(slot) => m.(procs := m.procs[slot := Proc(UNUSED, 0, 0, 0, 0)])
    case SetPriority(slot, p) => m.(procs := m.procs[slot := m.procs[slot].(priority := p)])
    case Kill(slot) =>
      if m.procs[slot].state.SLEEPING? then m.(procs := m.procs[slot := m.procs[slot].(state := RUNNABLE)]) else m
  }

  lemma ApplyKeepsOneCpu(m: Machine, s: Step)
    requires OneCpu(m) && Enabled(m, s)
    ensures OneCpu(Apply(m, s))
  {
  }

  // Runs

  ghost predicate IsRun(m: Machine, steps: seq<Step>)
    decreases |steps|
  {
    OneCpu(m) && (steps == [] || (Enabled(m, steps[0]) && IsRun(Apply(m, steps[0]), steps[1..])))
  }

  ghost function After(m: Machine, steps: seq<Step>): (n: Machine)
    requires IsRun(m, steps)
    ensures OneCpu(n) && |n.procs| == |m.procs|
    decreases |steps|
  {
    if steps == [] then m else After(Apply(m, steps[0]), steps[1..])
  }

  /** Task i is runnable or running, at one priority, in every state of the run. */
  ghost predicate StaysReady(m: Machine, steps: seq<Step>, i: nat, priority: int)
    requires IsRun(m, steps)
    decreases |steps|
  {
    && i < |m.procs| && m.procs[i].Ready() && m.procs[i].priority == priority
    && (steps == [] || StaysReady(Apply(m, steps[0]), steps[1..], i, priority))
  }

  /** How many ticks of the run were charged to task i. */
  ghost function Ticks(m: Machine, steps: seq<Step>, i: nat): nat
    requires IsRun(m, steps)
    decreases |steps|
  {
    if steps == [] then 0
    else (if steps[0].Tick? && m.cur == i then 1 else 0) + Ticks(Apply(m, steps[0]), steps[1..], i)
  }

  // Fairness of any two tasks that stay ready

  function Lead(m: Machine, i: nat, j: nat): int
    requires i < |m.procs| && j < |m.procs|
  {
    m.procs[i].vruntime - m.procs[j].vruntime
  }

  /** What the tick in progress may still add to the vruntime of i. */
  function Underway(m: Machine, i: nat): nat
    requires i < |m.procs|
  {
    if m.cur == i then VDelta(m.procs[i].priority) else 0
  }

  /** The lead of i over j is at most `bound`, even once the tick in progress is charged. */
  ghost predicate LeadWithin(m: Machine, i: nat, j: nat, bound: int) {
    i < |m.procs| && j < |m.procs| && Lead(m, i, j) + Underway(m, i) <= bound
  }

  lemma LeadStep(m: Machine, s: Step, i: nat, j: nat, bound: int)
    requires OneCpu(m) && Enabled(m, s) && LeadWithin(m, i, j, bound) && i != j
    requires m.procs[i].Ready() && m.procs[j].Ready() && VDelta(m.procs[i].priority) <= bound
    requires Apply(m, s).procs[i].Ready() && Apply(m, s).procs[j].Ready()
    requires Apply(m, s).procs[i].priority == m.procs[i].priority
    ensures LeadWithin(Apply(m, s), i, j, bound)
  {
    if s.Dispatch? && Picked(m.procs) == i {
      assert Before(m.procs, i, j);
    }
  }

  /** Whatever the other tasks do, the lead of i over j stays within what it is once the tick in
      progress is charged, or one tick of i, whichever is larger. */
  lemma {:induction false} Fairness(m: Machine, steps: seq<Step>, i: nat, j: nat, pi: int, pj: int, bound: int)
    requires IsRun(m, steps) && i != j
    requires StaysReady(m, steps, i, pi) && StaysReady(m, steps, j, pj)
    requires LeadWithin(m, i, j, bound) && VDelta(pi) <= bound
    ensures LeadWithin(After(m, steps), i, j, bound)
    decreases |steps|
  {
    if steps != [] {
      LeadStep(m, steps[0], i, j, bound);
      Fairness(Apply(m, steps[0]), steps[1..], i, j, pi, pj, bound);
    }
  }

  /** On every run from m on which both stay ready at their priorities, the lead of i over j stays
      within its value at m or one tick of i. */
  ghost predicate KeepsLead(m: Machine, i: nat, j: nat)
    requires i < |m.procs| && j < |m.procs|
  {
    forall steps: seq<Step> ::
      IsRun(m, steps) && StaysReady(m, steps, i, m.procs[i].priority)
          && StaysReady(m, steps, j, m.procs[j].priority) ==>
        Lead(After(m, steps), i, j) <= Larger(Lead(m, i, j), VDelta(m.procs[i].priority))
  }

  function Larger(a: int, b: int): int {
    if a < b then b else a
  }

  /** That stronger bound holds from exactly the states where i is not running ahead of j. */
  lemma LeadKeptExactly(m: Machine, i: nat, j: nat)
    requires OneCpu(m) && i < |m.procs| && j < |m.procs| && i != j && m.procs[i].Ready() && m.procs[j].Ready()
    ensures KeepsLead(m, i, j) <==> !(m.cur == i && m.procs[i].vruntime > m.procs[j].vruntime)
  {
    var pi, pj := m.procs[i].priority, m.procs[j].priority;
    if m.cur == i && Lead(m, i, j) > 0 {
      var steps := [Tick];
      var n := Apply(m, Tick);
      assert OneCpu(n) && steps[1..] == [];
      assert IsRun(n, steps[1..]) && IsRun(m, steps) && After(m, steps) == n;
      assert StaysReady(n, steps[1..], i, pi) && StaysReady(m, steps, i, pi);
      assert StaysReady(n, steps[1..], j, pj) && StaysReady(m, steps, j, pj);
      assert Lead(n, i, j) == Lead(m, i, j) + VDelta(pi);
    } else {
      forall steps: seq<Step> | IsRun(m, steps) && StaysReady(m, steps, i, pi) && StaysReady(m, steps, j, pj)
        ensures Lead(After(m, steps), i, j) <= Larger(Lead(m, i, j), VDelta(pi))
      {
        Fairness(m, steps, i, j, pi, pj, Larger(Lead(m, i, j), VDelta(pi)));
      }
    }
  }

  lemma ChargeStep(m: Machine, s: Step, i: nat)
    requires OneCpu(m) && Enabled(m, s) && i < |m.procs| && m.procs[i].Ready() && Apply(m, s).procs[i].Ready()
    ensures Apply(m, s).procs[i].vruntime ==
            m.procs[i].vruntime + if s.Tick? && m.cur == i then VDelta(m.procs[i].priority) else 0
  {
  }

  lemma OneMore(n: nat, d: nat)
    ensures (1 + n) * d == d + n * d
  {
  }

  lemma {:induction false} TicksAreVruntime(m: Machine, steps: seq<Step>, i: nat, priority: int)
    requires IsRun(m, steps) && StaysReady(m, steps, i, priority)
    ensures i < |After(m, steps).procs|
    ensures After(m, steps).procs[i].vruntime == m.procs[i].vruntime + Ticks(m, steps, i) * VDelta(priority)
    decreases |steps|
  {
    if steps != [] {
      var n := Apply(m, steps[0]);
      ChargeStep(m, steps[0], i);
      TicksAreVruntime(n, steps[1..], i, priority);
      OneMore(Ticks(n, steps[1..], i), VDelta(priority));
    }
  }

  /** Two tasks that stay ready get weighted CPU shares that differ by a constant for all time: each
      bound mentions only the initial lead and one tick. */
  lemma WeightedSharesStayClose(m: Machine, steps: seq<Step>, i: nat, j: nat, pi: int, pj: int)
    requires IsRun(m, steps) && i != j
    requires StaysReady(m, steps, i, pi) && StaysReady(m, steps, j, pj)
    ensures var gap := Ticks(m, steps, i) * VDelta(pi) - Ticks(m, steps, j) * VDelta(pj);
            && gap <= Larger(Underway(m, i), VDelta(pi) - Lead(m, i, j))
            && -gap <= Larger(Underway(m, j), VDelta(pj) - Lead(m, j, i))
  {
    Fairness(m, steps, i, j, pi, pj, Larger(Lead(m, i, j) + Underway(m, i), VDelta(pi)));
    Fairness(m, steps, j, i, pj, pi, Larger(Lead(m, j, i) + Underway(m, j), VDelta(pj)));
    TicksAreVruntime(m, steps, i, pi);
    TicksAreVruntime(m, steps, j, pj);
  }

  // No starvation

  /** One scheduling round over tasks that only compute: pick the best, run it for one tick. */
  ghost function Round(procs: seq<Proc>): (r: seq<Proc>)
    requires SomeRunnable(procs)
    ensures |r| == |procs| && SomeRunnable(r)
  {
    var b := Picked(procs);
    var r := procs[b := Charged(procs[b])];
    assert r[b].state.RUNNABLE?;
    r
  }

  /** A round is exactly a dispatch followed by a tick. */
  lemma RoundIsDispatchTick(m: Machine)
    requires OneCpu(m) && m.cur == -1 && SomeRunnable(m.procs)
    ensures OneCpu(Apply(m, Dispatch)) && Enabled(Apply(m, Dispatch), Tick)
    ensures Apply(Apply(m, Dispatch), Tick).procs == Round(m.procs)
    ensures Apply(Apply(m, Dispatch), Tick).cur == -1
  {
    ApplyKeepsOneCpu(m, Dispatch);
  }

  /** How many rounds task j can still take before task i, now at v: the ticks that carry j past v. */
  function Turns(p: Proc, v: nat): nat {
    if p.state.RUNNABLE? && p.vruntime <= v then Quotient(v - p.vruntime, VDelta(p.priority)) + 1 else 0
  }

  function Quotient(x: nat, d: nat): nat
    requires d > 0
  {
    x / d
  }

  /** The turns of the first n tasks other than i. */
  function Debt(procs: seq<Proc>, i: nat, n: nat): nat
    requires i < |procs| && n <= |procs|
  {
    if n == 0 then 0
    else Debt(procs, i, n - 1) + if n - 1 == i then 0 else Turns(procs[n - 1], procs[i].vruntime)
  }

  lemma DivideStep(x: nat, d: nat)
    requires 0 < d
    ensures x >= d ==> Quotient(x - d, d) + 1 == Quotient(x, d)
    ensures x < d ==> Quotient(x, d) == 0
  {
    if x >= d {
      var q := x / d;
      assert x - d == (q - 1) * d + x % d;
      DivideUnique(x - d, d, q - 1, x % d);
    } else {
      DivideUnique(x, d, 0, x);
    }
  }

  lemma DivideUnique(x: nat, d: nat, q: int, r: nat)
    requires 0 <= r < d && x == q * d + r
    ensures x / d == q
  {
    var p := x / d;
    assert (p - q) * d == r - x % d;
    if p != q {
      AtLeastOne(if p > q then p - q else q - p, d);
    }
  }

  lemma AtLeastOne(k: nat, d: nat)
    requires k >= 1
    ensures k * d >= d
  {
    assert k * d == d + (k - 1) * d;
  }

  lemma TurnsStep(p: Proc, v: nat)
    requires p.state.RUNNABLE? && p.vruntime <= v
    ensures Turns(Charged(p), v) + 1 == Turns(p, v)
  {
    DivideStep(v - p.vruntime, VDelta(p.priority));
  }

  lemma {:induction false} DebtStep(procs: seq<Proc>, i: nat, b: nat, n: nat)
    requires i < |procs| && b < |procs| && b != i && n <= |procs|
    requires procs[b].state.RUNNABLE? && procs[b].vruntime <= procs[i].vruntime
    ensures Debt(procs[b := Charged(procs[b])], i, n) == Debt(procs, i, n) - if b < n then 1 else 0
  {
    if n > 0 {
      DebtStep(procs, i, b, n - 1);
      if n - 1 == b {
        TurnsStep(procs[b], procs[i].vruntime);
      }
    }
  }

  lemma {:induction false} DebtZero(procs: seq<Proc>, i: nat, b: nat, n: nat)
    requires i < |procs| && b < n <= |procs| && b != i
    requires procs[b].state.RUNNABLE? && procs[b].vruntime <= procs[i].vruntime
    ensures Debt(procs, i, n) > 0
  {
    if b < n - 1 {
      DebtZero(procs, i, b, n - 1);
    }
  }

  ghost predicate OnlyComputes(steps: seq<Step>) {
    forall s :: s in steps ==> s.Dispatch? || s.Tick?
  }

  /** Task i runs after the first k steps of the run. */
  ghost predicate RunsAt(m: Machine, steps: seq<Step>, k: nat, i: nat) {
    k <= |steps| && IsRun(m, steps[..k]) && After(m, steps[..k]).cur == i
  }

  lemma RunsLater(m: Machine, steps: seq<Step>, k: nat, i: nat)
    requires IsRun(m, steps) && steps != [] && RunsAt(Apply(m, steps[0]), steps[1..], k, i)
    ensures RunsAt(m, steps, k + 1, i)
  {
    assert steps[..k + 1][1..] == steps[1..][..k] && steps[..k + 1][0] == steps[0];
  }

  lemma {:induction false} PickedInTime(m: Machine, steps: seq<Step>, i: nat)
    requires IsRun(m, steps) && OnlyComputes(steps) && m.cur == -1 && i < |m.procs| && m.procs[i].state.RUNNABLE?
    requires |steps| > 2 * Debt(m.procs, i, |m.procs|)
    ensures exists k: nat :: k <= 2 * Debt(m.procs, i, |m.procs|) + 1 && RunsAt(m, steps, k, i)
    decreases |steps|
  {
    var procs := m.procs;
    var b := Picked(procs);
    assert steps[0] in steps && steps[0] == Dispatch;
    var n := Apply(m, Dispatch);
    assert IsRun(n, []);
    if b == i {
      assert n.cur == i;
      assert RunsAt(n, steps[1..], 0, i);
      RunsLater(m, steps, 0, i);
    } else {
      assert Before(procs, b, i);
      DebtZero(procs, i, b, |procs|);
      DebtStep(procs, i, b, |procs|);
      RoundIsDispatchTick(m);
      assert steps[1] == steps[1..][0] && steps[1] in steps;
      var next, rest := Apply(n, Tick), steps[1..][1..];
      assert forall s :: s in rest ==> s in steps;
      PickedInTime(next, rest, i);
      var k: nat :| k <= 2 * Debt(next.procs, i, |procs|) + 1 && RunsAt(next, rest, k, i);
      RunsLater(n, steps[1..], k, i);
      RunsLater(m, steps, k + 1, i);
    }
  }

  /** The steps task i may have to wait: finish the tick in progress, then a dispatch and a tick for
      each turn other tasks can take before it, then its own dispatch. */
  function Patience(m: Machine, i: nat): nat
    requires i < |m.procs| && m.cur < |m.procs|
  {
    if m.cur < 0 then 2 * Debt(m.procs, i, |m.procs|) + 1
    else 2 * Debt(m.procs[m.cur := Charged(m.procs[m.cur])], i, |m.procs|) + 2
  }

  /** Every runnable task gets the CPU, on every run of tasks that only compute, after at most Debt
      ticks: the sum, over the other tasks j that are not behind it, of (v_i - v_j) / delta_j + 1. */
  lemma NoStarvation(m: Machine, steps: seq<Step>, i: nat)
    requires IsRun(m, steps) && OnlyComputes(steps) && i < |m.procs| && m.procs[i].state.RUNNABLE?
    requires |steps| >= Patience(m, i)
    ensures exists k: nat :: k <= Patience(m, i) && RunsAt(m, steps, k, i)
  {
    if m.cur == -1 {
      PickedInTime(m, steps, i);
    } else {
      assert steps[0] in steps && steps[0] == Tick;
      var next, rest := Apply(m, Tick), steps[1..];
      assert forall s :: s in rest ==> s in steps;
      PickedInTime(next, rest, i);
      var k: nat :| k <= 2 * Debt(next.procs, i, |next.procs|) + 1 && RunsAt(next, rest, k, i);
      RunsLater(m, steps, k, i);
    }
  }

  /** Such runs never get stuck: while a task is ready, a dispatch or a tick is always possible. */
  lemma ComputingGoesOn(m: Machine, i: nat)
    requires OneCpu(m) && i < |m.procs| && m.procs[i].Ready()
    ensures Enabled(m, if m.cur == -1 then Dispatch else Tick)
    ensures var n := Apply(m, if m.cur == -1 then Dispatch else Tick);
            OneCpu(n) && n.procs[i].Ready()
  {
    ApplyKeepsOneCpu(m, if m.cur == -1 then Dispatch else Tick);
  }

  // Sleep and wakeup

  predicate Asleep(m: Machine, i: nat, chan: nat) {
    i < |m.procs| && m.procs[i].state == SLEEPING && m.procs[i].chan == chan
  }

  /** A task that sleeps on a channel sleeps until a wakeup of that channel, or a kill of it; no other
      step and no other wakeup changes anything of it but its priority. */
  lemma {:induction false} SleepsUntilWoken(m: Machine, steps: seq<Step>, i: nat, chan: nat)
    requires IsRun(m, steps) && Asleep(m, i, chan)
    requires forall s :: s in steps ==> s != Wakeup(chan) && s != Kill(i)
    ensures Asleep(After(m, steps), i, chan) && After(m, steps).procs[i].vruntime == m.procs[i].vruntime
    decreases |steps|
  {
    if steps != [] {
      assert steps[0] in steps && forall s :: s in steps[1..] ==> s in steps;
      SleepsUntilWoken(Apply(m, steps[0]), steps[1..], i, chan);
    }
  }

  /** The wakeup makes it runnable, no further back than the bonus behind the minimum. */
  lemma WokenAtFloor(m: Machine, i: nat, chan: nat)
    requires OneCpu(m) && Asleep(m, i, chan)
    ensures Enabled(m, Wakeup(chan))
    ensures var p := Apply(m, Wakeup(chan)).procs[i];
            p.state == RUNNABLE && p.vruntime == Larger(0, Larger(m.procs[i].vruntime, m.minV) - 1000000)
  {
    assert m.procs[i].state.SLEEPING?;
  }

  // The global minimum

  /** Every ready task is within the wakeup bonus of the global minimum. */
  ghost predicate NearMinimum(m: Machine) {
    forall i :: 0 <= i < |m.procs| && m.procs[i].Ready() ==> m.procs[i].vruntime + CFS_WAKEUP_BONUS >= m.minV
  }

  lemma NearMinimumStep(m: Machine, s: Step)
    requires OneCpu(m) && Enabled(m, s) && NearMinimum(m) && !s.Kill?
    ensures NearMinimum(Apply(m, s)) && Apply(m, s).minV >= m.minV
  {
    var n := Apply(m, s);
    forall i | 0 <= i < |n.procs| && n.procs[i].Ready()
      ensures n.procs[i].vruntime + CFS_WAKEUP_BONUS >= n.minV
    {
      if s.Dispatch? && m.procs[i].state.RUNNABLE? {
        assert Before(m.procs, Picked(m.procs), i);
      }
    }
  }

  /** Over a whole run without kill, the minimum never decreases and no ready task falls more than
      the bonus behind it. */
  lemma {:induction false} MinimumInvariant(m: Machine, steps: seq<Step>)
    requires IsRun(m, steps) && NearMinimum(m) && forall s :: s in steps ==> !s.Kill?
    ensures NearMinimum(After(m, steps)) && After(m, steps).minV >= m.minV
    decreases |steps|
  {
    if steps != [] {
      NearMinimumStep(m, steps[0]);
      MinimumInvariant(Apply(m, steps[0]), steps[1..]);
    }
  }

  /** kkill wakes a sleeper without placing it: the bound survives exactly when the victim was not
      asleep or had not fallen behind. */
  lemma KillKeepsMinimum(m: Machine, slot: nat)
    requires OneCpu(m) && Enabled(m, Kill(slot)) && NearMinimum(m)
    ensures NearMinimum(Apply(m, Kill(slot))) <==>
            !m.procs[slot].state.SLEEPING? || m.procs[slot].vruntime + CFS_WAKEUP_BONUS >= m.minV
  {
    var n := Apply(m, Kill(slot));
    if m.procs[slot].state.SLEEPING? {
      assert n.procs[slot].Ready();
    }
  }

  // Two runs from boot

  /** The table procinit leaves. */
  function Boot(n: nat): (m: Machine)
    ensures OneCpu(m)
  {
    Machine(seq(n, _ => Proc(UNUSED, 0, 0, 0, 0)), 0, -1)
  }

  /** init starts, forks a child and waits for it; then the child computes for a tick and goes on. */
  const INIT_WAITS: seq<Step> := [Userinit(0), Dispatch, Fork(1, 0), Sleep(7)]
  const CHILD_COMPUTES: seq<Step> := INIT_WAITS + [Dispatch, Tick, Dispatch]

  /** The only runnable task is the one picked. */
  lemma PicksOnly(procs: seq<Proc>, b: nat)
    requires b < |procs| && procs[b].state.RUNNABLE?
    requires forall i :: 0 <= i < |procs| && i != b ==> !procs[i].state.RUNNABLE?
    ensures SomeRunnable(procs) && Picked(procs) == b
  {
    BestUnique(procs, b, Picked(procs));
  }

  lemma {:induction false} RunJoins(m: Machine, a: seq<Step>, s: Step)
    requires IsRun(m, a) && Enabled(After(m, a), s)
    ensures IsRun(m, a + [s]) && After(m, a + [s]) == Apply(After(m, a), s)
    decreases |a|
  {
    ApplyKeepsOneCpu(After(m, a), s);
    if a == [] {
      assert [s][1..] == [] && a + [s] == [s];
      assert IsRun(Apply(m, s), []);
    } else {
      RunJoins(Apply(m, a[0]), a[1..], s);
      assert (a + [s])[1..] == a[1..] + [s];
    }
  }

  lemma InitWaits(n: nat)
    requires n >= 2
    ensures IsRun(Boot(n), INIT_WAITS)
    ensures var m := After(Boot(n), INIT_WAITS);
            && m.procs[0] == Proc(SLEEPING, INIT_PRIORITY, 0, 0, 7) && m.procs[1] == Proc(RUNNABLE, 10, 0, 0, 0)
            && m.cur == -1 && m.minV == 0 && forall i :: 2 <= i < n ==> m.procs[i].state.UNUSED?
  {
    var m, steps := Boot(n), [];
    RunJoins(m, steps, Userinit(0));
    steps := steps + [Userinit(0)];
    PicksOnly(After(m, steps).procs, 0);
    RunJoins(m, steps, Dispatch);
    steps := steps + [Dispatch];
    RunJoins(m, steps, Fork(1, 0));
    steps := steps + [Fork(1, 0)];
    RunJoins(m, steps, Sleep(7));
    assert steps + [Sleep(7)] == INIT_WAITS;
  }

  lemma ChildComputes(n: nat)
    requires n >= 2
    ensures IsRun(Boot(n), CHILD_COMPUTES)
    ensures var m := After(Boot(n), CHILD_COMPUTES);
            && m.procs[0] == Proc(SLEEPING, INIT_PRIORITY, 0, 0, 7) && m.procs[1] == Proc(RUNNING, 10, VDelta(10), 0, 0)
            && m.cur == 1 && m.minV == VDelta(10) == 9761289
  {
    var m, steps := Boot(n), INIT_WAITS;
    InitWaits(n);
    PicksOnly(After(m, steps).procs, 1);
    RunJoins(m, steps, Dispatch);
    steps := steps + [Dispatch];
    RunJoins(m, steps, Tick);
    steps := steps + [Tick];
    PicksOnly(After(m, steps).procs, 1);
    RunJoins(m, steps, Dispatch);
    assert steps + [Dispatch] == CHILD_COMPUTES;
  }

  /** A kill of init then wakes it more than the bonus behind the minimum. */
  lemma KillCanBreakMinimum(n: nat)
    requires n >= 2
    ensures IsRun(Boot(n), CHILD_COMPUTES)
    ensures var m := After(Boot(n), CHILD_COMPUTES);
            Enabled(m, Kill(0)) && NearMinimum(m) && !NearMinimum(Apply(m, Kill(0)))
  {
    ChildComputes(n);
    MinimumInvariant(Boot(n), CHILD_COMPUTES);
    KillKeepsMinimum(After(Boot(n), CHILD_COMPUTES), 0);
  }

  /** A wakeup of init instead makes two ready tasks of which the one ahead is running: its lead then
      grows past both its value at the wakeup and one tick. */
  lemma WokenBehindRunning(n: nat)
    requires n >= 2
    ensures IsRun(Boot(n), CHILD_COMPUTES + [Wakeup(7)])
    ensures var m := After(Boot(n), CHILD_COMPUTES + [Wakeup(7)]);
            && m.procs[0].Ready() && m.procs[1].Ready() && !KeepsLead(m, 1, 0)
            && Lead(m, 1, 0) == CFS_WAKEUP_BONUS && Enabled(m, Tick)
            && Lead(Apply(m, Tick), 1, 0) == CFS_WAKEUP_BONUS + VDelta(10)
  {
    ChildComputes(n);
    RunJoins(Boot(n), CHILD_COMPUTES, Wakeup(7));
    LeadKeptExactly(After(Boot(n), CHILD_COMPUTES + [Wakeup(7)]), 1, 0);
  }

  // The 64-bit counters

  ghost predicate Below(m: Machine, bound: nat) {
    m.minV <= bound && forall i :: 0 <= i < |m.procs| ==> m.procs[i].vruntime <= bound
  }

  /** A run of n steps raises the counters by at most n ticks of the lightest weight, so from zero
      they stay in 64 bits for the first 2^37 steps. */
  lemma {:induction false} CountersGrowSlowly(m: Machine, steps: seq<Step>, bound: nat)
    requires IsRun(m, steps) && Below(m, bound)
    ensures Below(After(m, steps), bound + |steps| * MAXDELTA)
    ensures bound == 0 && |steps| < 0x20_0000_0000 ==> bound + |steps| * MAXDELTA < 0x1_0000_0000_0000_0000
    decreases |steps|
  {
    if steps != [] {
      var n := Apply(m, steps[0]);
      assert Below(n, bound + MAXDELTA);
      CountersGrowSlowly(n, steps[1..], bound + MAXDELTA);
    }
  }

  // The kernel code that makes the steps

  class Kernel {
    var procs: seq<Proc>
    var minV: nat
    var cur: int

    ghost function Model(): Machine
      reads this
    {
      Machine(procs, minV, cur)
    }

    ghost predicate Valid()
      reads this
    {
      |procs| == NPROC && OneCpu(Model())
    }

    constructor ()
      ensures Valid() && Model() == Boot(NPROC)
    {
      procs := seq(NPROC, _ => Proc(UNUSED, 0, 0, 0, 0));
      minV, cur := 0, -1;
    }

    /** userinit: init gets the first slot of the empty table, at a kernel-class priority. */
    method Userinit(now: nat)
      requires Valid() && Enabled(Model(), Step.Userinit(now))
      modifies this
      ensures Valid() && Model() == Apply(old(Model()), Step.Userinit(now))
    {
      procs := procs[0 := Proc(RUNNABLE, INIT_PRIORITY, minV, now, 0)];
    }

    /** cfs_advance_min */
    method AdvanceMin(v: nat)
      modifies this`minV
      ensures minV == Max(old(minV), v)
    {
      if v > minV {
        minV := v;
      }
    }

    /** The scan of scheduler(): -1 when nothing is runnable, else the minimum by
        (vruntime, creation_tick), the lowest slot breaking the last tie. */
    method Scan() returns (best: int)
      requires Valid()
      ensures best == -1 <==> !SomeRunnable(procs)
      ensures best != -1 ==> 0 <= best && IsBest(procs, best)
      ensures best == -1 <==> forall j :: 0 <= j < NPROC ==> procs[j].state != RUNNABLE
      ensures best != -1 ==> procs[best].state == RUNNABLE
      ensures best != -1 ==> forall j :: 0 <= j < NPROC && procs[j].state == RUNNABLE && j != best ==>
                var p, q := procs[best], procs[j];
                p.vruntime < q.vruntime ||
                (p.vruntime == q.vruntime && (p.created < q.created || (p.created == q.created && best < j)))
    {
      best := -1;
      var bestV, bestCt := 0xFFFF_FFFF_FFFF_FFFF, 0;
      var p := 0;
      while p < NPROC
        invariant 0 <= p <= NPROC && -1 <= best < p
        invariant best == -1 ==> forall j :: 0 <= j < p ==> !procs[j].state.RUNNABLE?
        invariant best != -1 ==>
                    && procs[best].state.RUNNABLE? && bestV == procs[best].vruntime && bestCt == procs[best].created
                    && forall j :: 0 <= j < p && procs[j].state.RUNNABLE? ==> Before(procs, best, j)
      {
        if procs[p].state.RUNNABLE? {
          if best == -1 || procs[p].vruntime < bestV || (procs[p].vruntime == bestV && procs[p].created < bestCt) {
            best, bestV, bestCt := p, procs[p].vruntime, procs[p].created;
          }
        }
        p := p + 1;
      }
    }

    /** One turn of scheduler() on an idle CPU. */
    method Schedule() returns (ran: bool)
      requires Valid() && cur == -1
      modifies this
      ensures Valid() && ran == Enabled(old(Model()), Dispatch)
      ensures ran ==>
                && 0 <= cur < NPROC && old(procs)[cur].state == RUNNABLE
                && procs == old(procs)[cur := old(procs)[cur].(state := RUNNING)]
                && minV == (if procs[cur].vruntime > old(minV) then procs[cur].vruntime else old(minV))
      ensures Model() == if ran then Apply(old(Model()), Dispatch) else old(Model())
    {
      var best := Scan();
      if best == -1 { return false; }
      BestUnique(procs, best, Picked(procs));
      AdvanceMin(procs[best].vruntime);
      procs := procs[best := procs[best].(state := RUNNING)];
      cur := best;
      return true;
    }

    /** A timer interrupt in usertrap or kerneltrap: charge the tick, then yield. */
    method TimerTick()
      requires Valid()
      modifies this
      ensures Valid() && Model() == if old(cur) >= 0 then Apply(old(Model()), Tick) else old(Model())
      ensures old(cur) >= 0 ==>
                && cur == -1 && minV == old(minV)
                && var p := old(procs)[old(cur)];
                   procs == old(procs)[old(cur) := p.(state := RUNNABLE, vruntime := p.vruntime + VDelta(p.priority))]
    {
      if cur >= 0 {
        procs := procs[cur := procs[cur].(vruntime := procs[cur].vruntime + VDelta(procs[cur].priority))];
        procs := procs[cur := procs[cur].(state := RUNNABLE)];
        cur := -1;
      }
    }

    method SleepOn(chan: nat)
      requires Valid() && cur >= 0
      modifies this
      ensures Valid() && Model() == Apply(old(Model()), Sleep(chan))
      ensures cur == -1 && procs[old(cur)].state == SLEEPING && procs[old(cur)].chan == chan
      ensures procs[old(cur)].vruntime == old(procs)[old(cur)].vruntime
    {
      procs := procs[cur := procs[cur].(state := SLEEPING, chan := chan)];
      cur := -1;
    }

    /** wakeup(chan) */
    method WakeupAll(chan: nat)
      requires Valid()
      modifies this
      ensures Valid() && Model() == Apply(old(Model()), Wakeup(chan))
      ensures minV == old(minV) && cur == old(cur)
      ensures forall i :: 0 <= i < NPROC && !(old(procs)[i].state == SLEEPING && old(procs)[i].chan == chan) ==>
                procs[i] == old(procs)[i]
      ensures forall i :: 0 <= i < NPROC && old(procs)[i].state == SLEEPING && old(procs)[i].chan == chan ==>
                var p, q := old(procs)[i], procs[i];
                && q.state == RUNNABLE && q.priority == p.priority && q.created == p.created && q.chan == p.chan
                && q.vruntime == Larger(0, Larger(p.vruntime, minV) - 1000000)
    {
      var mvr := minV;
      var p := 0;
      while p < NPROC
        invariant 0 <= p <= NPROC && |procs| == NPROC && minV == mvr && cur == old(cur)
        invariant forall i :: 0 <= i < p ==> procs[i] == Woken(old(procs)[i], chan, mvr)
        invariant forall i :: p <= i < NPROC ==> procs[i] == old(procs)[i]
      {
        if p != cur {
          if procs[p].state.SLEEPING? && procs[p].chan == chan {
            var base := if procs[p].vruntime > mvr then procs[p].vruntime else mvr;
            procs := procs[p := procs[p].(state := RUNNABLE,
                                          vruntime := if base > CFS_WAKEUP_BONUS then base - CFS_WAKEUP_BONUS else 0)];
          }
        }
        p := p + 1;
      }
      assert procs == Apply(old(Model()), Wakeup(chan)).procs;
      ApplyKeepsOneCpu(old(Model()), Wakeup(chan));
    }

    /** The scheduling part of kfork: -1 when the table is full, else the child's slot. */
    method ForkChild(now: nat) returns (slot: int)
      requires Valid() && cur >= 0
      modifies this
      ensures Valid()
      ensures slot == -1 <==> forall i :: 0 <= i < NPROC ==> !old(procs)[i].state.UNUSED?
      ensures slot != -1 ==> 0 <= slot < NPROC && old(procs)[slot].state.UNUSED? &&
                             Model() == Apply(old(Model()), Fork(slot, now))
      ensures slot == -1 ==> Model() == old(Model())
      ensures slot != -1 ==>
                var p, q := old(procs)[old(cur)], procs[slot];
                && q.state == RUNNABLE && q.vruntime == p.vruntime && q.created == now
                && q.priority == (if p.priority >= 0 then p.priority else 10)
                && procs == old(procs)[slot := q] && minV == old(minV) && cur == old(cur)
    {
      slot := 0;
      while slot < NPROC && !procs[slot].state.UNUSED?
        invariant 0 <= slot <= NPROC && forall i :: 0 <= i < slot ==> !procs[i].state.UNUSED?
      {
        slot := slot + 1;
      }
      if slot == NPROC { return -1; }
      var p := procs[cur];
      procs := procs[slot := Proc(RUNNABLE, if p.priority < 0 then 10 else p.priority, p.vruntime, now, 0)];
    }
  }
}
