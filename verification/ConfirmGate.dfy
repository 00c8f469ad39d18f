/** confirm.c and the gate in syscall.c: a blocked agent system call waits for one answer of the host.

    Every step below is what one holder of confirm_lock does; any interleaving of steps is a run. */
module ConfirmGate {

  const SYS_kill: int := 6
  const SYS_exec: int := 7
  const SYS_mknod: int := 17
  const CONFIRM_TIMEOUT_TICKS: nat := 150
  const UINT: nat := 0x1_0000_0000

  /** agent_blocked */
  predicate AgentBlocked(num: int) {
    num == SYS_exec || num == SYS_kill || num == SYS_mknod
  }

  /** confirm_pending_pid (0 is idle) and confirm_result (-1 pending, 1 allow, 0 deny). */
  datatype Gate = Gate(pending: nat, result: int)

  /** Where a process stands in a gated system call. */
  datatype Phase =
    | Outside
    | Registered           // holds the pending slot, has not read the clock
    | Waiting(t0: nat)     // in the loop of confirm_request
    | Approved             // confirm_request returned 1; the body is next

  datatype System = System(gate: Gate, ticks: nat, phase: map<nat, Phase>)

  datatype Step =
    | Request(pid: nat, num: int)   // the gate in syscall(), then confirm_request up to its first release
    | ReadClock(pid: nat)
    | Answer(pid: nat, allow: bool) // confirm_resolve
    | Tick                          // clockintr
    | Check(pid: nat)               // one turn of the waiting loop
    | Body(pid: nat)                // the system call itself runs

  function PhaseOf(s: System, pid: nat): Phase {
    if pid in s.phase then s.phase[pid] else Outside
  }

  // The shared variables

  /** The pending slot is taken only when it is free. */
  function Register(g: Gate, pid: nat): Gate {
    if g.pending != 0 then g else Gate(pid, -1)
  }

  function Resolve(g: Gate, pid: nat, allow: bool): Gate {
    if g.pending == pid && g.result == -1 then g.(result := if allow then 1 else 0) else g
  }

  predicate TimedOut(ticks: nat, t0: nat) {
    (ticks - t0) % UINT >= CONFIRM_TIMEOUT_TICKS
  }

  /** The loop is left when an answer is in or the time is up. */
  predicate Leaves(g: Gate, ticks: nat, t0: nat) {
    g.result != -1 || TimedOut(ticks, t0)
  }

  // The system

  predicate Enabled(s: System, e: Step) {
    match e
    case Request(pid, num) => pid > 0 && PhaseOf(s, pid).Outside? && AgentBlocked(num)
    case ReadClock(pid) => PhaseOf(s, pid).Registered?
    case Answer(pid, _) => pid > 0
    case Tick => true
    case Check(pid) => PhaseOf(s, pid).Waiting?
    case Body(pid) => PhaseOf(s, pid).Approved?
  }

  function Apply(s: System, e: Step): System
    requires Enabled(s, e)
  {
    match e
    case Request(pid, _) =>
      if s.gate.pending != 0 then s
      else s.(gate := Register(s.gate, pid), phase := s.phase[pid := Registered])
    case ReadClock(pid) => s.(phase := s.phase[pid := Waiting(s.ticks)])
    case Answer(pid, allow) => s.(gate := Resolve(s.gate, pid, allow))
    case Tick => s.(ticks := (s.ticks + 1) % UINT)
    case Check(pid) =>
      if !Leaves(s.gate, s.ticks, s.phase[pid].t0) then s
      else System(Gate(0, -1), s.ticks, s.phase[pid := if s.gate.result == 1 then Approved else Outside])
    case Body(pid) => s.(phase := s.phase[pid := Outside])
  }

  const START: System := System(Gate(0, -1), 0, map[])

  ghost predicate IsRun(steps: seq<Step>)
    decreases |steps|, 0
  {
    steps == [] ||
    (IsRun(steps[..|steps| - 1]) && Enabled(After(steps[..|steps| - 1]), steps[|steps| - 1]))
  }

  ghost function After(steps: seq<Step>): System
    requires IsRun(steps)
    decreases |steps|, 1
  {
    if steps == [] then START else Apply(After(steps[..|steps| - 1]), steps[|steps| - 1])
  }

  lemma {:induction false} PrefixIsRun(steps: seq<Step>, k: nat)
    requires IsRun(steps) && k <= |steps|
    ensures IsRun(steps[..k])
    ensures k < |steps| ==> Enabled(After(steps[..k]), steps[k])
    decreases |steps|
  {
    var n := |steps| - 1;
    if k == |steps| {
      assert steps[..k] == steps;
    } else if k < n {
      PrefixIsRun(steps[..n], k);
      assert steps[..n][..k] == steps[..k];
    }
  }

  // What a grant is

  /** Of the steps so far, step r took the slot for pid's latest request, and step a is a "y" for pid
      that arrived while that request was pending and before any other answer to it; no body of pid
      ran since r. */
  ghost predicate Granted(steps: seq<Step>, pid: nat, r: nat, a: nat)
    requires IsRun(steps)
  {
    && Asked(steps, pid, r) && r < a < |steps| && steps[a] == Answer(pid, true)
    && (forall x :: r < x < a ==> !Answers(steps[x], pid))
    && IsRun(steps[..a]) && After(steps[..a]).gate == Gate(pid, -1)
  }

  predicate Answers(e: Step, pid: nat) {
    e.Answer? && e.pid == pid
  }

  predicate Requests(e: Step, pid: nat) {
    e.Request? && e.pid == pid
  }

  /** Step r is a request of pid that found the slot free, and neither a request nor a body of pid
      came after it. */
  ghost predicate Asked(steps: seq<Step>, pid: nat, r: nat) {
    && r < |steps| && Requests(steps[r], pid)
    && IsRun(steps[..r]) && After(steps[..r]).gate.pending == 0
    && forall x :: r < x < |steps| ==> steps[x] != Body(pid) && !Requests(steps[x], pid)
  }

  ghost predicate Unanswered(steps: seq<Step>, pid: nat, r: nat) {
    Asked(steps, pid, r) && forall x :: r < x < |steps| ==> !Answers(steps[x], pid)
  }

  ghost predicate HasGrant(steps: seq<Step>, pid: nat)
    requires IsRun(steps)
  {
    exists r: nat, a: nat :: Granted(steps, pid, r, a)
  }

  ghost predicate IsUnanswered(steps: seq<Step>, pid: nat) {
    exists r: nat :: Unanswered(steps, pid, r)
  }

  predicate InRequest(s: System, pid: nat) {
    PhaseOf(s, pid).Registered? || PhaseOf(s, pid).Waiting?
  }

  /** The slot belongs to exactly the process that waits. */
  ghost predicate SlotOwned(s: System) {
    forall p: nat :: InRequest(s, p) <==> p == s.gate.pending && p != 0
  }

  lemma SlotOwnedStep(s: System, e: Step)
    requires SlotOwned(s) && Enabled(s, e)
    ensures SlotOwned(Apply(s, e))
  {
    var t := Apply(s, e);
    forall p: nat
      ensures InRequest(t, p) <==> p == t.gate.pending && p != 0
    {
      assert InRequest(s, p) <==> p == s.gate.pending && p != 0;
      match e {
        case Request(pid, _) =>
        case ReadClock(pid) => assert InRequest(s, pid);
        case Answer(pid, _) =>
        case Tick =>
        case Check(pid) => assert InRequest(s, pid);
        case Body(pid) =>
      }
    }
  }

  /** The slot belongs to the waiter, and every approval, given or on its way,
      goes back to a grant. */
  ghost predicate Inv(steps: seq<Step>)
    requires IsRun(steps)
  {
    var s := After(steps);
    && SlotOwned(s)
    && (s.gate.pending == 0 ==> s.gate.result == -1)
    && s.gate.result in {-1, 0, 1}
    && (s.gate.pending != 0 && s.gate.result == -1 ==> IsUnanswered(steps, s.gate.pending))
    && (s.gate.pending != 0 && s.gate.result == 1 ==> HasGrant(steps, s.gate.pending))
    && (forall p: nat :: PhaseOf(s, p).Approved? ==> HasGrant(steps, p))
  }

  lemma GrantSurvives(steps: seq<Step>, e: Step, pid: nat)
    requires IsRun(steps) && Enabled(After(steps), e) && IsRun(steps + [e]) && HasGrant(steps, pid)
    requires e != Body(pid) && !Requests(e, pid)
    ensures HasGrant(steps + [e], pid)
  {
    var r: nat, a: nat :| Granted(steps, pid, r, a);
    assert (steps + [e])[..a] == steps[..a] && (steps + [e])[..r] == steps[..r];
    assert Granted(steps + [e], pid, r, a);
  }

  lemma UnansweredSurvives(steps: seq<Step>, e: Step, pid: nat)
    requires IsUnanswered(steps, pid) && e != Body(pid) && !Answers(e, pid) && !Requests(e, pid)
    ensures IsUnanswered(steps + [e], pid)
  {
    var r: nat :| Unanswered(steps, pid, r);
    assert (steps + [e])[..r] == steps[..r];
    assert Unanswered(steps + [e], pid, r);
  }

  lemma AnswerGrants(steps: seq<Step>, pid: nat)
    requires IsRun(steps) && IsRun(steps + [Answer(pid, true)])
    requires IsUnanswered(steps, pid) && After(steps).gate == Gate(pid, -1)
    ensures HasGrant(steps + [Answer(pid, true)], pid)
  {
    var now := steps + [Answer(pid, true)];
    var r: nat :| Unanswered(steps, pid, r);
    assert now[..|steps|] == steps && now[..r] == steps[..r];
    assert Granted(now, pid, r, |steps|);
  }

  lemma RequestOpens(steps: seq<Step>, pid: nat, num: int)
    requires IsRun(steps) && After(steps).gate.pending == 0
    ensures IsUnanswered(steps + [Request(pid, num)], pid)
  {
    assert (steps + [Request(pid, num)])[..|steps|] == steps;
    assert Unanswered(steps + [Request(pid, num)], pid, |steps|);
  }

  lemma InvStep(steps: seq<Step>, e: Step)
    requires IsRun(steps) && Inv(steps) && Enabled(After(steps), e)
    ensures IsRun(steps + [e]) && Inv(steps + [e])
  {
    var now := steps + [e];
    assert now[..|now| - 1] == steps;
    var s, t := After(steps), After(now);
    assert t == Apply(s, e);
    SlotOwnedStep(s, e);
    var p := t.gate.pending;
    assert InRequest(s, p) <==> p == s.gate.pending && p != 0;
    if p != 0 && t.gate.result == -1 {
      if e.Request? && s.gate.pending == 0 {
        RequestOpens(steps, p, e.num);
      } else {
        UnansweredSurvives(steps, e, p);
      }
    }
    if p != 0 && t.gate.result == 1 {
      if s.gate.result == 1 {
        GrantSurvives(steps, e, p);
      } else {
        AnswerGrants(steps, p);
      }
    }
    forall q | PhaseOf(t, q).Approved?
      ensures HasGrant(now, q)
    {
      assert InRequest(s, q) <==> q == s.gate.pending && q != 0;
      GrantSurvives(steps, e, q);
    }
  }

  lemma {:induction false} RunsKeepInv(steps: seq<Step>)
    requires IsRun(steps)
    ensures Inv(steps)
    decreases |steps|
  {
    if steps != [] {
      var front := steps[..|steps| - 1];
      RunsKeepInv(front);
      assert steps == front + [steps[|steps| - 1]];
      InvStep(front, steps[|steps| - 1]);
    }
  }

  // The promises

  /** At most one request is pending, in any reachable state. */
  lemma OnePending(steps: seq<Step>, p: nat, q: nat)
    requires IsRun(steps)
    requires InRequest(After(steps), p) && InRequest(After(steps), q)
    ensures p == q
  {
    RunsKeepInv(steps);
  }

  /** A gated body runs only after a "y" for its pid that arrived while the very request it belongs
      to, the latest of that pid and one that held the slot, was pending, and before any "n"; no other
      body of that pid ran in between. */
  lemma BodyNeedsGrant(steps: seq<Step>, k: nat)
    requires IsRun(steps) && k < |steps| && steps[k].Body?
    ensures IsRun(steps[..k]) && HasGrant(steps[..k], steps[k].pid)
  {
    PrefixIsRun(steps, k);
    RunsKeepInv(steps[..k]);
  }

  /** The request and the "y" behind a grant are determined by the run. */
  lemma OneGrant(steps: seq<Step>, pid: nat, r: nat, a: nat, q: nat, b: nat)
    requires IsRun(steps) && Granted(steps, pid, r, a) && Granted(steps, pid, q, b)
    ensures r == q && a == b
  {
    assert Requests(steps[r], pid) && Requests(steps[q], pid);
    assert Answers(steps[a], pid) && Answers(steps[b], pid);
  }

  /** Each "y" authorises at most one system call: no answer grants two bodies, of one pid or of two. */
  lemma OneBodyPerAnswer(steps: seq<Step>, j: nat, k: nat, r: nat, q: nat, a: nat)
    requires IsRun(steps) && j < k < |steps| && steps[j].Body? && steps[k].Body?
    ensures IsRun(steps[..j]) && IsRun(steps[..k])
    ensures !(Granted(steps[..j], steps[j].pid, r, a) && Granted(steps[..k], steps[k].pid, q, a))
  {
    PrefixIsRun(steps, j);
    PrefixIsRun(steps, k);
    assert steps[..k][j] == steps[j];
    assert a < j ==> steps[..j][a] == steps[..k][a];
  }

  /** A waiter that looks at the clock once the time is up gives the slot back, so no request holds
      it for more than CONFIRM_TIMEOUT_TICKS plus the delay of its own next turn. */
  lemma TimeoutFreesSlot(steps: seq<Step>, pid: nat)
    requires IsRun(steps) && PhaseOf(After(steps), pid).Waiting?
    requires TimedOut(After(steps).ticks, PhaseOf(After(steps), pid).t0)
    ensures var next := Apply(After(steps), Check(pid));
            next.gate == Gate(0, -1) && forall p: nat :: !InRequest(next, p)
  {
    RunsKeepInv(steps);
    SlotOwnedStep(After(steps), Check(pid));
  }

  // What the waiter is owed

  /** Process pid is in its request, and the answer to it is `allow`. */
  predicate Answered(s: System, pid: nat, allow: bool) {
    InRequest(s, pid) && s.gate == Gate(pid, if allow then 1 else 0)
  }

  lemma {:induction false} AnswerStays(steps: seq<Step>, pid: nat, allow: bool, more: seq<Step>)
    requires IsRun(steps) && pid > 0 && Answered(After(steps), pid, allow)
    requires IsRun(steps + more) && forall e :: e in more ==> e != Check(pid)
    ensures Answered(After(steps + more), pid, allow)
    decreases |more|
  {
    if more == [] {
      assert steps + more == steps;
    } else {
      var k := |more| - 1;
      assert more[k] in more && forall e :: e in more[..k] ==> e in more;
      assert (steps + more)[..|steps + more| - 1] == steps + more[..k];
      AnswerStays(steps, pid, allow, more[..k]);
      RunsKeepInv(steps + more[..k]);
      var s, e := After(steps + more[..k]), more[k];
      assert Enabled(s, e) && After(steps + more) == Apply(s, e);
      assert forall q: nat :: InRequest(s, q) <==> q == s.gate.pending && q != 0;
      if e.Check? {
        assert InRequest(s, e.pid);
      }
    }
  }

  /** The first answer decides: whatever happens before the waiter looks, its next look ends the
      request, and the system call is enabled exactly when the answer was "y". */
  lemma AnswerDecides(steps: seq<Step>, pid: nat, allow: bool, more: seq<Step>)
    requires IsRun(steps) && pid > 0 && InRequest(After(steps), pid) && After(steps).gate == Gate(pid, -1)
    requires IsRun(steps + [Answer(pid, allow)] + more) && forall e :: e in more ==> e != Check(pid)
    ensures var s := After(steps + [Answer(pid, allow)] + more);
            && InRequest(s, pid)
            && (PhaseOf(s, pid).Waiting? ==>
                  && Enabled(s, Check(pid))
                  && var next := Apply(s, Check(pid));
                     && next.gate == Gate(0, -1)
                     && PhaseOf(next, pid) == (if allow then Approved else Outside)
                     && (Enabled(next, Body(pid)) <==> allow))
  {
    var then' := steps + [Answer(pid, allow)];
    assert (then' + more)[..|then'|] == then';
    PrefixIsRun(then' + more, |then'|);
    assert then'[..|steps|] == steps && then'[..|then'| - 1] == steps;
    AnswerStays(then', pid, allow, more);
  }

  function TicksIn(steps: seq<Step>): nat {
    if steps == [] then 0 else TicksIn(steps[..|steps| - 1]) + (if steps[|steps| - 1].Tick? then 1 else 0)
  }

  lemma NextTick(t: nat)
    ensures (t % UINT + 1) % UINT == (t + 1) % UINT
  {
  }

  lemma Elapsed(t0: nat, n: nat)
    requires n < UINT
    ensures ((t0 + n) % UINT - t0) % UINT == n
  {
  }

  /** Process pid waits, unanswered, since the clock read t0. */
  predicate WaitsSince(s: System, pid: nat, t0: nat) {
    PhaseOf(s, pid) == Waiting(t0) && s.gate == Gate(pid, -1)
  }

  lemma WaitStep(s: System, e: Step, pid: nat, t0: nat)
    requires pid > 0 && WaitsSince(s, pid, t0) && SlotOwned(s) && Enabled(s, e) && e != Check(pid) && !Answers(e, pid)
    ensures WaitsSince(Apply(s, e), pid, t0)
    ensures Apply(s, e).ticks == if e.Tick? then (s.ticks + 1) % UINT else s.ticks
  {
    if e.Check? {
      assert InRequest(s, e.pid);
    }
  }

  lemma {:induction false} WaitingTime(steps: seq<Step>, pid: nat, t0: nat, more: seq<Step>)
    requires IsRun(steps) && pid > 0 && WaitsSince(After(steps), pid, t0) && After(steps).ticks == t0 < UINT
    requires IsRun(steps + more) && forall e :: e in more ==> e != Check(pid) && !Answers(e, pid)
    ensures WaitsSince(After(steps + more), pid, t0) && After(steps + more).ticks == (t0 + TicksIn(more)) % UINT
    decreases |more|
  {
    if more == [] {
      assert steps + more == steps;
    } else {
      var k := |more| - 1;
      var front := steps + more[..k];
      assert more[k] in more && forall e :: e in more[..k] ==> e in more;
      assert (steps + more)[..|steps + more| - 1] == front && steps + more == front + [more[k]];
      hide WaitsSince, After;
      WaitingTime(steps, pid, t0, more[..k]);
      WaitingOne(front, more[k], pid, t0, TicksIn(more[..k]));
    }
  }

  lemma WaitingOne(steps: seq<Step>, e: Step, pid: nat, t0: nat, n: nat)
    requires IsRun(steps) && IsRun(steps + [e]) && pid > 0 && WaitsSince(After(steps), pid, t0)
    requires After(steps).ticks == (t0 + n) % UINT && e != Check(pid) && !Answers(e, pid)
    ensures WaitsSince(After(steps + [e]), pid, t0)
    ensures After(steps + [e]).ticks == (t0 + (n + if e.Tick? then 1 else 0)) % UINT
  {
    var now := steps + [e];
    assert now[..|now| - 1] == steps && now[|now| - 1] == e;
    assert Enabled(After(steps), e) && After(now) == Apply(After(steps), e);
    RunsKeepInv(steps);
    hide After, IsRun, Apply, Enabled, WaitsSince, SlotOwned;
    WaitStep(After(steps), e, pid, t0);
    NextTick(t0 + n);
  }

  lemma {:induction false} TicksBounded(steps: seq<Step>)
    requires IsRun(steps)
    ensures After(steps).ticks < UINT
    decreases |steps|
  {
    if steps != [] {
      TicksBounded(steps[..|steps| - 1]);
    }
  }

  /** Without an answer the waiter gives up at its first look at least 150 ticks after it read the
      clock, denied, and not before: every earlier look changes nothing. */
  lemma TimeoutExactly(steps: seq<Step>, pid: nat, more: seq<Step>)
    requires IsRun(steps) && pid > 0 && Enabled(After(steps), ReadClock(pid)) && After(steps).gate == Gate(pid, -1)
    requires IsRun(steps + [ReadClock(pid)] + more) && TicksIn(more) < UINT
    requires forall e :: e in more ==> e != Check(pid) && !Answers(e, pid)
    ensures var s := After(steps + [ReadClock(pid)] + more);
            && Enabled(s, Check(pid))
            && (TicksIn(more) < 150 ==> Apply(s, Check(pid)) == s)
            && (TicksIn(more) >= 150 ==>
                  Apply(s, Check(pid)).gate == Gate(0, -1) && PhaseOf(Apply(s, Check(pid)), pid) == Outside)
  {
    var then' := steps + [ReadClock(pid)];
    assert (then' + more)[..|then'|] == then';
    PrefixIsRun(then' + more, |then'|);
    assert then'[..|steps|] == steps && then'[..|then'| - 1] == steps;
    TicksBounded(steps);
    var t0, n := After(steps).ticks, TicksIn(more);
    WaitingTime(then', pid, t0, more);
    Elapsed(t0, n);
  }

  // The kernel code that makes the steps

  class Confirm {
    var pendingPid: nat
    var result: int
    var ticks: nat

    ghost function Model(): Gate
      reads this
    {
      Gate(pendingPid, result)
    }

    constructor ()
      ensures Model() == START.gate && ticks == 0
    {
      pendingPid, result, ticks := 0, -1, 0;
    }

    /** The first critical section of confirm_request: false is the immediate denial. */
    method TryRegister(pid: nat) returns (registered: bool)
      requires pid > 0
      modifies this`pendingPid, this`result
      ensures registered == (old(pendingPid) == 0) && Model() == Register(old(Model()), pid)
      ensures pendingPid == (if registered then pid else old(pendingPid))
      ensures result == (if registered then -1 else old(result))
    {
      if pendingPid != 0 { return false; }
      pendingPid := pid;
      result := -1;
      return true;
    }

    /** One turn of the waiting loop, entered with confirm_lock held: either it sleeps again, or the
        slot is given back and rc is what confirm_request returns. */
    method Turn(t0: nat) returns (leaves: bool, rc: int)
      modifies this`pendingPid, this`result
      ensures leaves == Leaves(old(Model()), ticks, t0)
      ensures leaves <==> old(result) != -1 || (ticks - t0) % 0x1_0000_0000 >= 150
      ensures leaves ==> Model() == Gate(0, -1) && rc == if old(result) == 1 then 1 else 0
      ensures !leaves ==> Model() == old(Model())
    {
      rc := 0;
      if result != -1 {
        rc := if result == 1 then 1 else 0;
      } else {
        var elapsed := (ticks - t0) % UINT;
        if elapsed < CONFIRM_TIMEOUT_TICKS {
          return false, 0;
        }
      }
      pendingPid := 0;
      result := -1;
      return true, rc;
    }

    /** The gate in syscall(): `known` says that the number names a system call, `answer` is what
        confirm_request would return.  Only exec, kill and mknod of an agent ask, and a call that asks
        runs exactly when the answer allows it. */
    method Syscall(num: int, known: bool, isAgent: bool, answer: bool) returns (asks: bool, runs: bool)
      ensures asks <==> known && isAgent && (num == 6 || num == 7 || num == 17)
      ensures runs <==> known && (!asks || answer)
    {
      asks, runs := false, false;
      if known {
        if isAgent && AgentBlocked(num) {
          asks := true;
          if !answer { return; }
        }
        runs := true;
      }
    }

    /** confirm_resolve */
    method ResolveAnswer(pid: nat, allow: bool)
      modifies this`result
      ensures Model() == Resolve(old(Model()), pid, allow)
      ensures pendingPid == old(pendingPid)
      ensures result == if pendingPid == pid && old(result) == -1 then (if allow then 1 else 0) else old(result)
    {
      if pendingPid == pid && result == -1 {
        result := if allow then 1 else 0;
      }
    }

    method ClockTick()
      modifies this`ticks
      ensures ticks == (old(ticks) + 1) % UINT
    {
      ticks := (ticks + 1) % UINT;
    }
  }
}
