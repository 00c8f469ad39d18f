/** The way of an agent command: the wire built by agent.py, the intake ring and routing of
    agentcmd.c, the queue to the jailed runtime, and its WRITE handler in agentd.c.

    Lines are C strings without their NUL; arithmetic on lengths does not wrap. */
module CommandPath {
  import opened BlockBytes
  import opened Escape
  import opened Wrappers
  import Console

  const AGENT_LINE_MAX: nat := 1280
  const AGENT_Q_LEN: nat := 8
  const AGENTQ_N: nat := 16
  const AGENTQ_LEN: nat := 256
  const DENY_MAX: nat := 16
  const DENY_NAMELEN: nat := 24

  const BAR: Byte := 124
  const COLON: Byte := 58

  type Str = seq<Byte>

  const REQ: Str := [82, 69, 81, 124]
  const AGENTROLE: Str := [97, 103, 101, 110, 116, 58]
  const WRITE: Str := [87, 82, 73, 84, 69]
  const ASK: Str := [65, 83, 75]
  const LLM_RESP: Str := [76, 76, 77, 95, 82, 69, 83, 80]
  const CACHE_GET: Str := [67, 65, 67, 72, 69, 95, 71, 69, 84]
  const CACHE_SET: Str := [67, 65, 67, 72, 69, 95, 83, 69, 84]
  const CONFIRM_RES: Str := [67, 79, 78, 70, 73, 82, 77, 95, 82, 69, 83]

  /** safestrcpy into a buffer of n + 1 bytes. */
  function Cut(s: Str, n: nat): (r: Str)
    ensures r <= s && |r| == (if |s| <= n then |s| else n)
  {
    if |s| <= n then s else s[..n]
  }

  predicate Starts(s: Str, p: Str) {
    |p| <= |s| && s[..|p|] == p
  }

  /** The part of s before the first c, all of it when there is none. */
  function Before(s: Str, c: Byte): Str {
    if s == [] || s[0] == c then [] else [s[0]] + Before(s[1..], c)
  }

  function After(s: Str, c: Byte): Str {
    if s == [] then [] else if s[0] == c then s[1..] else After(s[1..], c)
  }

  lemma {:induction false} SplitAtFirst(a: Str, c: Byte, b: Str)
    requires c !in a
    ensures Before(a + [c] + b, c) == a && After(a + [c] + b, c) == b && c in a + [c] + b
  {
    var s := a + [c] + b;
    assert s[|a|] == c;
    if a == [] {
      assert s[1..] == b;
    } else {
      assert a[0] in a && s[1..] == a[1..] + [c] + b;
      SplitAtFirst(a[1..], c, b);
    }
  }

  method FindByte(s: Str, c: Byte) returns (k: nat)
    ensures k <= |s| && (k < |s| <==> c in s) && s[..k] == Before(s, c)
    ensures k < |s| ==> s[k + 1..] == After(s, c)
    ensures k == |s| ==> After(s, c) == []
  {
    k := 0;
    while k < |s| && s[k] != c
      invariant k <= |s| && c !in s[..k]
    {
      assert s[..k + 1] == s[..k] + [s[k]];
      k := k + 1;
    }
    FirstIsAt(s, c, k);
  }

  lemma FirstIsAt(s: Str, c: Byte, k: nat)
    requires k <= |s| && c !in s[..k] && (k < |s| ==> s[k] == c)
    ensures (k < |s| <==> c in s) && s[..k] == Before(s, c) && After(s, c) == if k < |s| then s[k + 1..] else []
  {
    if k < |s| {
      SplitAtFirst(s[..k], c, s[k + 1..]);
      assert s == s[..k] + [c] + s[k + 1..];
    } else {
      assert s[..k] == s;
      NoneIsThere(s, c);
    }
  }

  lemma {:induction false} NoneIsThere(s: Str, c: Byte)
    requires c !in s
    ensures Before(s, c) == s && After(s, c) == []
  {
    if s != [] {
      assert s[0] in s && forall b :: b in s[1..] ==> b in s;
      NoneIsThere(s[1..], c);
    }
  }

  // Ring buffers

  ghost predicate AtIndex(k: nat) {
    true
  }

  /** The place k steps round from `first` in a ring of n. */
  function Place(n: nat, first: nat, k: nat): nat {
    if first + k < n then first + k else if first + k < 2 * n then first + k - n else 0
  }

  lemma PlaceIsMod(n: nat, first: nat)
    requires first < n && (n == AGENT_Q_LEN || n == AGENTQ_N)
    ensures Place(n, first, 1) == (first + 1) % n
  {
  }

  /** The ring b holds the lines s from place `first` on. */
  ghost predicate Ring(b: seq<Str>, first: nat, s: seq<Str>) {
    && |s| <= |b| && first < |b|
    && forall k: nat {:trigger AtIndex(k)} :: AtIndex(k) && k < |s| ==> b[Place(|b|, first, k)] == s[k]
  }

  lemma RingPop(b: seq<Str>, first: nat, s: seq<Str>)
    requires Ring(b, first, s) && s != []
    ensures b[first] == s[0] && Ring(b, Place(|b|, first, 1), s[1..])
    ensures Place(|b|, Place(|b|, first, 1), |s| - 1) == Place(|b|, first, |s|)
  {
    assert AtIndex(0);
    forall k: nat {:trigger AtIndex(k)} | AtIndex(k) && k < |s[1..]|
      ensures b[Place(|b|, Place(|b|, first, 1), k)] == s[1..][k]
    {
      assert AtIndex(k + 1);
    }
  }

  lemma RingPush(b: seq<Str>, first: nat, s: seq<Str>, x: Str)
    requires Ring(b, first, s) && |s| < |b|
    ensures var place := Place(|b|, first, |s|);
            && place < |b| && Ring(b[place := x], first, s + [x])
            && Place(|b|, place, 1) == Place(|b|, first, |s| + 1) && (Place(|b|, place, 1) == first <==> |s| == |b| - 1)
  {
  }

  // The intake ring

  class Intake {
    const lines: array<Str>
    var head: nat
    var tail: nat
    ghost var contents: seq<Str>

    ghost predicate Valid()
      reads this, lines
    {
      lines.Length == AGENT_Q_LEN && Ring(lines[..], head, contents) && tail == Place(AGENT_Q_LEN, head, |contents|)
          && |contents| < AGENT_Q_LEN
    }

    constructor ()
      ensures Valid() && fresh(lines) && contents == []
    {
      lines := new Str[AGENT_Q_LEN](_ => []);
      head, tail, contents := 0, 0, [];
    }

    /** agent_dispatch: a confirm answer is taken at once; any other line joins the queue, cut to 1279
        bytes, unless seven lines wait already. */
    method AgentDispatch(line: Str) returns (answer: Confirm)
      requires Valid()
      modifies this, lines
      ensures Valid() && answer == InlineConfirm(line)
      ensures contents ==
              if answer.NotConfirm? && |old(contents)| < AGENT_Q_LEN - 1
              then old(contents) + [Cut(line, AGENT_LINE_MAX - 1)] else old(contents)
    {
      answer := InlineConfirm(line);
      if !answer.NotConfirm? { return; }
      ghost var b, x := lines[..], Cut(line, AGENT_LINE_MAX - 1);
      RingPush(b, head, contents, x);
      PlaceIsMod(AGENT_Q_LEN, tail);
      hide Ring, Cut, InlineConfirm;
      var next := (tail + 1) % AGENT_Q_LEN;
      if next != head {
        lines[tail] := Cut(line, AGENT_LINE_MAX - 1);
        assert lines[..] == b[tail := x];
        tail := next;
        contents := contents + [x];
      }
    }

    /** One turn of agent_drain_locked: the oldest line leaves the queue. */
    method Take() returns (line: Option<Str>)
      requires Valid()
      modifies this
      ensures Valid()
      ensures if old(contents) == [] then line == None && contents == []
                  else line == Some(old(contents)[0]) && contents == old(contents)[1..]
    {
      assert head < AGENT_Q_LEN && |lines[..]| == AGENT_Q_LEN && (head == tail <==> contents == []);
      if contents != [] {
        RingPop(lines[..], head, contents);
        PlaceIsMod(AGENT_Q_LEN, head);
      }
      hide Ring;
      if head == tail { return None; }
      line := Some(lines[head]);
      head := (head + 1) % AGENT_Q_LEN;
      contents := contents[1..];
    }
  }

  // The queue to the jailed runtime

  class AgentQueue {
    const buf: array<Str>
    var r: nat
    var w: nat
    var count: nat
    ghost var contents: seq<Str>

    ghost predicate Valid()
      reads this, buf
    {
      buf.Length == AGENTQ_N && Ring(buf[..], r, contents) && count == |contents| <= AGENTQ_N
          && w == Place(AGENTQ_N, r, count)
    }

    constructor ()
      ensures Valid() && fresh(buf) && contents == []
    {
      buf := new Str[AGENTQ_N](_ => []);
      r, w, count, contents := 0, 0, 0, [];
    }

    /** forward_wire_to_agentd: REQ| is put in front, the line cut to 255 bytes, and queued unless
        sixteen lines wait already. */
    method ForwardWire(wire: Str)
      requires Valid()
      modifies this, buf
      ensures Valid()
      ensures contents == if |old(contents)| < AGENTQ_N then old(contents) + [Cut(REQ + wire, AGENTQ_LEN - 1)]
                  else old(contents)
    {
      if count == AGENTQ_N { return; }
      ghost var b, x := buf[..], Cut(REQ + wire, AGENTQ_LEN - 1);
      RingPush(b, r, contents, x);
      PlaceIsMod(AGENTQ_N, w);
      hide Ring, Cut;
      buf[w] := Cut(REQ + wire, AGENTQ_LEN - 1);
      assert buf[..] == b[w := x];
      contents := contents + [x];
      w := (w + 1) % AGENTQ_N;
      count := count + 1;
    }

    /** agentq_get without its sleep: the oldest line. */
    method Get() returns (line: Option<Str>)
      requires Valid()
      modifies this
      ensures Valid()
      ensures if old(contents) == [] then line == None && contents == []
                  else line == Some(old(contents)[0]) && contents == old(contents)[1..]
    {
      if count == 0 { return None; }
      assert r < AGENTQ_N && |buf[..]| == AGENTQ_N;
      RingPop(buf[..], r, contents);
      PlaceIsMod(AGENTQ_N, r);
      hide Ring;
      line := Some(buf[r]);
      r := (r + 1) % AGENTQ_N;
      count := count - 1;
      contents := contents[1..];
    }
  }

  // The deny list

  class DenyList {
    var names: seq<Str>

    ghost predicate Valid()
      reads this
    {
      |names| <= DENY_MAX && forall k :: 0 <= k < |names| ==> |names[k]| < DENY_NAMELEN
    }

    constructor ()
      ensures Valid() && names == []
    {
      names := [];
    }

    /** deny_listed: strncmp over DENY_NAMELEN bytes with a stored name, which is shorter, is equality. */
    method Listed(cmd: Str) returns (found: bool)
      requires Valid()
      ensures found <==> cmd in names
    {
      for i := 0 to |names|
        invariant cmd !in names[..i]
      {
        if names[i] == cmd { return true; }
      }
      return false;
    }

    /** deny_reset: the default list, which is there from boot. */
    method Reset()
      modifies this
      ensures Valid() && names == [[75, 73, 76, 76], [69, 88, 69, 67]]
    {
      names := [[75, 73, 76, 76], [69, 88, 69, 67]];
    }

    /** deny_add: afterwards the command is refused exactly when its name fits; a name of 24 bytes or
        more is stored cut and never matches the command it was meant for. */
    method Add(cmd: Str) returns (r: int)
      requires Valid()
      modifies this
      ensures Valid() && (r == 0 || r == -1)
      ensures r == -1 <==> cmd !in old(names) && |old(names)| == DENY_MAX
      ensures names == if r == 0 && cmd !in old(names) then old(names) + [Cut(cmd, DENY_NAMELEN - 1)] else old(names)
      ensures r == 0 ==> (cmd in names <==> |cmd| < DENY_NAMELEN)
    {
      var found := Listed(cmd);
      if found { return 0; }
      if |names| >= DENY_MAX { return -1; }
      names := names + [Cut(cmd, DENY_NAMELEN - 1)];
      return 0;
    }

    /** deny_remove: the first such name goes, the others close up. */
    method Remove(cmd: Str) returns (r: int)
      requires Valid()
      modifies this
      ensures Valid() && r == if cmd in old(names) then 0 else -1
      ensures r == -1 ==> names == old(names)
      ensures r == 0 ==>
                  exists i ::
                      0 <= i < |old(names)| && old(names)[i] == cmd && cmd !in old(names)[..i]
                          && names == old(names)[..i] + old(names)[i + 1..]
    {
      for i := 0 to |names|
        invariant cmd !in names[..i] && names == old(names)
      {
        if names[i] == cmd {
          names := names[..i] + names[i + 1..];
          return 0;
        }
      }
      return -1;
    }
  }

  // Routing

  /** What follows REQ| and an optional agent:<role>| on a line. */
  function Command(line: Str): Option<Str> {
    if !Starts(line, REQ) then None
    else
      var s := line[4..];
      if Starts(s, AGENTROLE) then (if BAR in s[6..] then Some(After(s[6..], BAR)) else None) else Some(s)
  }

  datatype Routed = Dropped | Meta(cmd: Str, arg: Str) | Denied(cmd: Str) | ToAgent(wire: Str)

  predicate IsMeta(cmd: Str) {
    cmd == ASK || cmd == LLM_RESP || cmd == CACHE_GET || cmd == CACHE_SET || cmd == CONFIRM_RES
  }

  /** Where a line goes, given the deny list. */
  function Route(line: Str, deny: seq<Str>): Routed {
    match Command(line)
    case None => Dropped
    case Some(s) =>
      var cmd := Before(s, BAR);
      if IsMeta(cmd) then Meta(cmd, After(s, BAR))
      else if cmd in deny then Denied(cmd)
      else ToAgent(s)
  }

  method ParseCommand(line: Str) returns (s: Option<Str>)
    ensures s == Command(line)
  {
    if !Starts(line, REQ) { return None; }
    var cmd := line[4..];
    if !Starts(cmd, AGENTROLE) { return Some(cmd); }
    var b := FindByte(cmd[6..], BAR);
    return if b == |cmd[6..]| then None else Some(cmd[6..][b + 1..]);
  }

  /** agent_dispatch_now: a line reaches the jailed runtime only if it is no meta command and its
      command is not denied. */
  method DispatchNow(line: Str, deny: DenyList, q: AgentQueue) returns (to: Routed)
    requires deny.Valid() && q.Valid()
    modifies q, q.buf
    ensures q.Valid() && to == Route(line, deny.names)
    ensures !to.ToAgent? ==> q.contents == old(q.contents)
    ensures to.ToAgent? ==> forall k :: 0 <= k <= |to.wire| && (k == |to.wire| || to.wire[k] == 124) ==>
                              124 in to.wire[..k] || to.wire[..k] !in deny.names
    ensures q.contents ==
            if to.ToAgent? && |old(q.contents)| < AGENTQ_N
            then old(q.contents) + [Cut(REQ + to.wire, AGENTQ_LEN - 1)] else old(q.contents)
  {
    var start := ParseCommand(line);
    if start == None { return Dropped; }
    hide Command, IsMeta;
    var s := start.value;
    var bar := FindByte(s, BAR);
    var cmd, arg := s[..bar], if bar < |s| then s[bar + 1..] else [];
    if IsMeta(cmd) { return Meta(cmd, arg); }
    var denied := deny.Listed(cmd);
    if denied { return Denied(cmd); }
    assert forall k :: 0 <= k <= |s| && (k == |s| || s[k] == BAR) ==> BAR in s[..k] || s[..k] !in deny.names by {
      forall k | 0 <= k <= |s| && (k == |s| || s[k] == BAR) && BAR !in s[..k]
        ensures s[..k] !in deny.names
      {
        FirstIsAt(s, BAR, k);
      }
    }
    q.ForwardWire(s);
    return ToAgent(s);
  }

  /** What routing owes a command: the five meta commands stay in the kernel, a denied one goes
      nowhere, and any other goes on. */
  function Owed(cmd: Str, arg: Str, wire: Str, deny: seq<Str>): Routed {
    if cmd in [ASK, LLM_RESP, CACHE_GET, CACHE_SET, CONFIRM_RES] then Meta(cmd, arg)
    else if cmd in deny then Denied(cmd)
    else ToAgent(wire)
  }

  lemma OwedRoute(line: Str, s: Str, cmd: Str, arg: Str, deny: seq<Str>)
    requires Command(line) == Some(s) && BAR !in cmd && (s == cmd + [BAR] + arg || (s == cmd && arg == []))
    ensures Route(line, deny) == Owed(cmd, arg, s, deny)
  {
    if s == cmd + [BAR] + arg {
      SplitAtFirst(cmd, BAR, arg);
    } else {
      NoneIsThere(cmd, BAR);
    }
  }

  /** Every line REQ|<cmd>|<arg> or REQ|<cmd>, where <cmd> does not look like a role, and every such
      line behind a role prefix, whatever its command looks like. */
  lemma RoutesAsOwed(cmd: Str, arg: Str, role: Str, deny: seq<Str>)
    requires 124 !in cmd && 124 !in role
    ensures !Starts(cmd, AGENTROLE) ==>
              && Route(REQ + (cmd + [124] + arg), deny) == Owed(cmd, arg, cmd + [124] + arg, deny)
              && Route(REQ + cmd, deny) == Owed(cmd, [], cmd, deny)
    ensures Route(REQ + (AGENTROLE + role + [124] + (cmd + [124] + arg)), deny) ==
            Owed(cmd, arg, cmd + [124] + arg, deny)
    ensures Route(REQ + (AGENTROLE + role + [124] + cmd), deny) == Owed(cmd, [], cmd, deny)
  {
    var s := cmd + [BAR] + arg;
    hide Route, Owed;
    if !Starts(cmd, AGENTROLE) {
      NotARole(cmd, arg);
      CommandPlain(s);
      CommandPlain(cmd);
      OwedRoute(REQ + s, s, cmd, arg, deny);
      OwedRoute(REQ + cmd, cmd, cmd, [], deny);
    }
    CommandBehindRole(role, s);
    CommandBehindRole(role, cmd);
    OwedRoute(REQ + (AGENTROLE + role + [BAR] + s), s, cmd, arg, deny);
    OwedRoute(REQ + (AGENTROLE + role + [BAR] + cmd), cmd, cmd, [], deny);
  }

  /** A denied command is refused in each of those four lines, whatever its argument. */
  lemma DeniedIsRefused(cmd: Str, arg: Str, role: Str, deny: seq<Str>)
    requires 124 !in cmd && 124 !in role && cmd in deny
    requires cmd != ASK && cmd != LLM_RESP && cmd != CACHE_GET && cmd != CACHE_SET && cmd != CONFIRM_RES
    ensures !Starts(cmd, AGENTROLE) ==>
              Route(REQ + (cmd + [124] + arg), deny) == Denied(cmd) && Route(REQ + cmd, deny) == Denied(cmd)
    ensures Route(REQ + (AGENTROLE + role + [124] + (cmd + [124] + arg)), deny) == Denied(cmd)
    ensures Route(REQ + (AGENTROLE + role + [124] + cmd), deny) == Denied(cmd)
  {
    hide Route;
    RoutesAsOwed(cmd, arg, role, deny);
  }

  /** And what is forwarded is never a denied command: its first part is not on the list. */
  lemma ForwardedIsAllowed(line: Str, deny: seq<Str>, cmd: Str, rest: Str)
    requires Route(line, deny).ToAgent? && 124 !in cmd
    requires Route(line, deny).wire == cmd || Route(line, deny).wire == cmd + [124] + rest
    ensures cmd !in deny
    ensures cmd != ASK && cmd != LLM_RESP && cmd != CACHE_GET && cmd != CACHE_SET && cmd != CONFIRM_RES
  {
    var s := Route(line, deny).wire;
    OwedRoute(line, s, cmd, if s == cmd then [] else rest, deny);
  }

  lemma NotARole(cmd: Str, arg: Str)
    requires !Starts(cmd, AGENTROLE)
    ensures !Starts(cmd + [BAR] + arg, AGENTROLE)
  {
    var s := cmd + [BAR] + arg;
    if |cmd| >= 6 {
      assert s[..6] == cmd[..6];
    } else if |s| >= 6 {
      assert s[..6][|cmd|] == BAR && AGENTROLE[|cmd|] != BAR;
    }
  }

  lemma CommandPlain(s: Str)
    requires !Starts(s, AGENTROLE)
    ensures Command(REQ + s) == Some(s)
  {
    assert (REQ + s)[..4] == REQ && (REQ + s)[4..] == s;
  }

  lemma CommandBehindRole(role: Str, s: Str)
    requires BAR !in role
    ensures Command(REQ + (AGENTROLE + role + [BAR] + s)) == Some(s)
  {
    var t := AGENTROLE + role + [BAR] + s;
    assert (REQ + t)[..4] == REQ && (REQ + t)[4..] == t && t[..6] == AGENTROLE && t[6..] == role + [BAR] + s;
    SplitAtFirst(role, BAR, s);
  }

  /** A name on the deny list that looks like a role is not refused: REQ|agent:x|LIST sends LIST on. */
  lemma RoleLikeNameEscapes()
    ensures var cmd, arg := AGENTROLE + [120], [76, 73, 83, 84];
            Route(REQ + (cmd + [124] + arg), [cmd]) == ToAgent(arg)
  {
    var arg: Str := [76, 73, 83, 84];
    assert AGENTROLE + [120] + [124] + arg == AGENTROLE + [120] + [BAR] + arg;
    CommandBehindRole([120], arg);
    OwedRoute(REQ + (AGENTROLE + [120] + [BAR] + arg), arg, arg, [], [AGENTROLE + [120]]);
  }

  /** Lines without REQ| in front, or with a role prefix that does not end, go nowhere. */
  lemma OtherLinesDropped(line: Str, deny: seq<Str>)
    ensures !Starts(line, REQ) ==> Route(line, deny) == Dropped
    ensures 124 !in line ==> Route(REQ + (AGENTROLE + line), deny) == Dropped
  {
    var t := AGENTROLE + line;
    assert (REQ + t)[..4] == REQ && (REQ + t)[4..] == t && t[..6] == AGENTROLE && t[6..] == line;
  }

  datatype Confirm = NotConfirm | Malformed | Answer(pid: nat, allow: bool)

  predicate IsDigit(c: Byte) {
    48 <= c <= 57
  }

  /** The number the leading digits of s spell, after v. */
  function Digits10(s: Str, v: nat): (nat, Str) {
    if s == [] || !IsDigit(s[0]) then (v, s) else Digits10(s[1..], v * 10 + (s[0] - 48))
  }

  /** try_inline_confirm_res. */
  function InlineConfirm(line: Str): Confirm {
    match Command(line)
    case None => NotConfirm
    case Some(s) =>
      if !Starts(s, CONFIRM_RES + [BAR]) then NotConfirm
      else
        var (pid, rest) := Digits10(s[12..], 0);
        if rest == [] || rest[0] != BAR || pid == 0 then Malformed
        else Answer(pid, |rest| > 1 && (rest[1] == 121 || rest[1] == 89))
  }

  // The runtime

  datatype Effect = Nothing | Wrote(file: Str, data: seq<Byte>) | Other(cmd: Str, arg: Str)

  /** execute, with do_write spelled out; allowed is the whitelist of its table. */
  function Execute(line: Str, allowed: set<Str>): Effect {
    if !Starts(line, REQ) || BAR !in line[4..] then Nothing
    else
      var cmd, arg := Before(line[4..], BAR), After(line[4..], BAR);
      if cmd !in allowed then Nothing
      else if cmd == WRITE then
          (if COLON in arg then Wrote(Before(arg, COLON), Unescaped(After(arg, COLON))) else Nothing)
      else Other(cmd, arg)
  }

  /** What the runtime owes a command: nothing unless its table allows it, and a WRITE only with a
      file name. */
  lemma ExecutesAllowed(cmd: Str, arg: Str, allowed: set<Str>)
    requires 124 !in cmd
    ensures var did := Execute(REQ + (cmd + [124] + arg), allowed);
            && (cmd !in allowed ==> did == Nothing)
            && (cmd in allowed && cmd != WRITE ==> did == Other(cmd, arg))
            && (cmd in allowed && cmd == WRITE ==> (did == Nothing <==> 58 !in arg))
    ensures Execute(REQ + cmd, allowed) == Nothing
  {
    var s := cmd + [BAR] + arg;
    assert (REQ + s)[..4] == REQ && (REQ + s)[4..] == s && (REQ + cmd)[4..] == cmd;
    SplitAtFirst(cmd, BAR, arg);
  }

  method ExecuteLine(line: Str, allowed: set<Str>) returns (did: Effect)
    requires 0 !in line
    ensures did == Execute(line, allowed)
  {
    if !Starts(line, REQ) { return Nothing; }
    var s := line[4..];
    var bar := FindByte(s, BAR);
    if bar == |s| { return Nothing; }
    var cmd, arg := s[..bar], s[bar + 1..];
    if cmd !in allowed { return Nothing; }
    if cmd != WRITE { return Other(cmd, arg); }
    var c := FindByte(arg, COLON);
    if c == |arg| { return Nothing; }
    var rest := arg[c + 1..];
    var data := new Byte[|rest| + 1](i requires 0 <= i => if i < |rest| then rest[i] else 0);
    assert 0 !in rest by { assert rest == line[|line| - |rest|..]; }
    assert data[|rest|] == 0;
    StrFromWritten(data[..], 0, rest);
    UnescapeInplace(data);
    return Wrote(arg[..c], StrFrom(data[..], 0));
  }

  // The whole way of a WRITE

  /** wire_for("write", ...) of agent.py, with REQ| in front. */
  function WriteLine(file: Str, text: Str): Str {
    REQ + (WRITE + [BAR] + (Escaped(file) + [COLON] + Escaped(text)))
  }

  /** No byte the console would act on, but line ends, which the escape removes. */
  predicate Typeable(s: Str) {
    forall i :: 0 <= i < |s| ==> !Console.Edits(s[i]) && s[i] != Console.CTRLD
  }

  lemma {:induction false} EscapedIsText(s: Str)
    requires Typeable(s)
    ensures Console.Text(Escaped(s))
  {
    if s != [] {
      assert Typeable(s[1..]);
      EscapedIsText(s[1..]);
    }
  }

  lemma {:induction false} EscapedKeepsOut(s: Str, c: Byte)
    requires c !in s && c != BACKSLASH && c != LETTERN
    ensures c !in Escaped(s)
  {
    if s != [] {
      assert c != s[0] && c !in s[1..];
      EscapedKeepsOut(s[1..], c);
    }
  }

  lemma {:induction false} OneLineUnchanged(s: Str)
    requires LF !in s && CR !in s
    ensures Escaped(s) == s
  {
    if s != [] {
      assert s[0] in s && LF !in s[1..] && CR !in s[1..];
      OneLineUnchanged(s[1..]);
    }
  }

  /** A line of text that is a request goes to the agent whole, and nothing of it to the shell. */
  lemma RequestIsTyped(keys: Str, l: Str)
    requires Console.Text(l) && Console.IsReq(l + [LF]) && Console.Typed(keys).line == []
    ensures var ed := Console.Typed(keys);
            Console.Typed(keys + l + [LF]) == Console.Editor(ed.shown, [], ed.asked + [l])
  {
    var ed := Console.Typed(keys);
    Console.TypedText(keys, l);
    hide Console.IsReq, Console.Press, Console.Typed;
    assert [] + l == l;
    Console.TypedOne(keys + l, LF);
    Console.FinishLine(ed.shown, l, ed.asked);
  }

  lemma WriteIsTyped(keys: Str, file: Str, text: Str)
    requires Typeable(file) && Typeable(text) && Console.Typed(keys).line == []
    ensures var ed := Console.Typed(keys);
            Console.Typed(keys + WriteLine(file, text) + [LF]) ==
                Console.Editor(ed.shown, [], ed.asked + [WriteLine(file, text)])
  {
    var l := WriteLine(file, text);
    EscapedIsText(file);
    EscapedIsText(text);
    hide Escaped;
    assert Console.Text(l);
    assert (l + [LF])[..4] == REQ;
    RequestIsTyped(keys, l);
  }

  /** Routing leaves the line whole, and the queue keeps it when it is at most 255 bytes. */
  lemma WriteIsRouted(file: Str, text: Str, deny: seq<Str>)
    requires WRITE !in deny && |WriteLine(file, text)| <= AGENTQ_LEN - 1
    ensures var l := WriteLine(file, text);
            && InlineConfirm(l) == NotConfirm && Cut(l, AGENT_LINE_MAX - 1) == l
            && Route(l, deny).ToAgent? && Cut(REQ + Route(l, deny).wire, AGENTQ_LEN - 1) == l
  {
    var rest := Escaped(file) + [COLON] + Escaped(text);
    var l, s := WriteLine(file, text), WRITE + [BAR] + rest;
    assert l[..4] == REQ && l[4..] == s;
    SplitAtFirst(WRITE, BAR, rest);
    assert s[0] == 87;
    assert !Starts(s, AGENTROLE) by { assert AGENTROLE[0] == 97; }
    assert !Starts(s, CONFIRM_RES + [BAR]) by { assert (CONFIRM_RES + [BAR])[0] == 67; }
    assert WRITE[0] == 87 && ASK[0] == 65 && LLM_RESP[0] == 76 && CACHE_GET[0] == 67 && CACHE_SET[0] == 67
        && CONFIRM_RES[0] == 67;
  }

  /** The runtime writes the text it unescapes to the file named before the first colon. */
  lemma WriteIsExecuted(file: Str, text: Str, allowed: set<Str>)
    requires WRITE in allowed && COLON !in file
    ensures Execute(WriteLine(file, text), allowed) == Wrote(Escaped(file), Unescaped(Escaped(text)))
  {
    var rest := Escaped(file) + [COLON] + Escaped(text);
    var l, s := WriteLine(file, text), WRITE + [BAR] + rest;
    assert l[..4] == REQ && l[4..] == s;
    SplitAtFirst(WRITE, BAR, rest);
    EscapedKeepsOut(file, COLON);
    SplitAtFirst(Escaped(file), COLON, Escaped(text));
  }

  /** From end to end: typed at the console, routed, queued and executed, a WRITE of at most 255 bytes
      that is not denied reaches its file, and the file holds the original text exactly when the text
      has no carriage return and no backslash followed by n. */
  lemma WriteArrives(keys: Str, file: Str, text: Str, deny: seq<Str>, allowed: set<Str>)
    requires Typeable(file) && Typeable(text) && Console.Typed(keys).line == []
    requires LF !in file && CR !in file && COLON !in file
    requires |WriteLine(file, text)| <= AGENTQ_LEN - 1 && WRITE !in deny && WRITE in allowed
    ensures var before, after := Console.Typed(keys), Console.Typed(keys + WriteLine(file, text) + [LF]);
            && after.shown == before.shown && |after.asked| == |before.asked| + 1
                && after.asked[..|before.asked|] == before.asked
            && var line := Cut(after.asked[|before.asked|], AGENT_LINE_MAX - 1);
            && Route(line, deny).ToAgent?
            && var did := Execute(Cut(REQ + Route(line, deny).wire, AGENTQ_LEN - 1), allowed);
            && did.Wrote? && did.file == file
            && (did.data == text <==> CR !in text && !SpellsNewline(text))
  {
    WriteIsTyped(keys, file, text);
    WriteIsRouted(file, text, deny);
    WriteIsExecuted(file, text, allowed);
    OneLineUnchanged(file);
    RoundTripExactly(text);
    hide Console.Typed, Route, Execute, WriteLine, Escaped, Unescaped;
  }

  // CACHE_SET

  /** The decimal digits of a number, as Python prints them. */
  function Decimal(n: nat): Str {
    if n < 10 then [48 + n] else Decimal(n / 10) + [48 + n % 10]
  }

  /** handle_cache_set: the key and the value of its argument. */
  function SplitCacheSet(arg: Str): Option<(Str, Str)> {
    var (klen, p) := Digits10(arg, 0);
    if p == [] || p[0] != COLON || klen == 0 || |p| - 1 < klen then None else Some((p[1..klen + 1], p[klen + 1..]))
  }

  function Power(k: nat): (p: nat)
    ensures p > 0
  {
    if k == 0 then 1 else 10 * Power(k - 1)
  }

  function Width(n: nat): (k: nat)
    ensures k > 0
  {
    if n < 10 then 1 else Width(n / 10) + 1
  }

  lemma Shift(v: nat, p: nat, q: nat, d: nat)
    ensures (v * p + q) * 10 + d == v * (10 * p) + (10 * q + d)
  {
  }

  /** Reading the digits of n after v, whatever follows. */
  lemma {:induction false} DecimalPrefix(n: nat, rest: Str, v: nat)
    ensures n < Power(Width(n)) && Digits10(Decimal(n) + rest, v) == Digits10(rest, v * Power(Width(n)) + n)
    decreases n
  {
    if n < 10 {
      assert (Decimal(n) + rest)[1..] == rest && Power(1) == 10 * Power(0);
    } else {
      var d: Byte := 48 + n % 10;
      DecimalPrefix(n / 10, [d] + rest, v);
      assert Decimal(n) + rest == Decimal(n / 10) + ([d] + rest) && ([d] + rest)[1..] == rest;
      var p := Power(Width(n / 10));
      assert Power(Width(n)) == 10 * p;
      Shift(v, p, n / 10, n % 10);
      assert n == 10 * (n / 10) + n % 10;
    }
  }

  /** CONFIRM_RES|<pid>|<answer>, as the host types it, is that answer: "y" or "Y" allows. */
  lemma ConfirmIsParsed(pid: nat, answer: Byte, more: Str)
    requires pid > 0
    ensures InlineConfirm(REQ + (CONFIRM_RES + [124] + (Decimal(pid) + ([124, answer] + more)))) ==
            Answer(pid, answer == 121 || answer == 89)
  {
    var rest := [BAR, answer] + more;
    var arg := Decimal(pid) + rest;
    var s := CONFIRM_RES + [BAR] + arg;
    DecimalPrefix(pid, rest, 0);
    assert Digits10(rest, pid) == (pid, rest);
    hide Decimal, Digits10, Power, Width, InlineConfirm;
    assert s[0] == 67 && !Starts(s, AGENTROLE) by { assert AGENTROLE[0] == 97; }
    CommandPlain(s);
    assert s[..12] == CONFIRM_RES + [BAR] && s[12..] == arg;
    ConfirmOf(REQ + s, s, pid, rest);
  }

  lemma ConfirmOf(line: Str, s: Str, pid: nat, rest: Str)
    requires Command(line) == Some(s) && Starts(s, CONFIRM_RES + [BAR]) && Digits10(s[12..], 0) == (pid, rest)
    requires pid > 0 && |rest| > 1 && rest[0] == BAR
    ensures InlineConfirm(line) == Answer(pid, rest[1] == 121 || rest[1] == 89)
  {
    hide Command, Digits10;
  }

  lemma {:induction false} DecimalOfMore(n: nat, d: nat)
    requires d < 10 && n > 0
    ensures Decimal(d) == [48 + d] && Decimal(10 * n + d) == Decimal(n) + [48 + d]
  {
    assert (10 * n + d) / 10 == n && (10 * n + d) % 10 == d;
  }

  /** The argument _cache_store builds. */
  function CacheSetArg(key: Str, val: Str): Str {
    Decimal(|key|) + ([COLON] + (key + val))
  }

  /** It splits back into its key and its value, whatever they hold. */
  lemma CacheSetSplitsBack(key: Str, val: Str)
    requires key != []
    ensures SplitCacheSet(CacheSetArg(key, val)) == Some((key, val))
  {
    var rest := [COLON] + (key + val);
    DecimalPrefix(|key|, rest, 0);
    assert Digits10(rest, |key|) == (|key|, rest);
    hide Decimal, Digits10, Power, Width;
    assert rest[1..|key| + 1] == key && rest[|key| + 1..] == val;
  }

  /** handle_cache_set as it runs. */
  method HandleCacheSet(arg: Str) returns (r: Option<(Str, Str)>)
    ensures r == SplitCacheSet(arg)
  {
    var p: nat, klen: nat := 0, 0;
    assert arg[0..] == arg;
    while p < |arg| && IsDigit(arg[p])
      invariant p <= |arg| && Digits10(arg, 0) == Digits10(arg[p..], klen)
    {
      assert arg[p..][1..] == arg[p + 1..];
      klen := klen * 10 + (arg[p] as nat - 48);
      p := p + 1;
    }
    assert Digits10(arg[p..], klen) == (klen, arg[p..]);
    if p == |arg| || arg[p] != COLON || klen <= 0 { return None; }
    p := p + 1;
    if |arg| - p < klen { return None; }
    assert arg[p - 1..][1..klen + 1] == arg[p..p + klen] && arg[p - 1..][klen + 1..] == arg[p + klen..];
    return Some((arg[p..p + klen], arg[p + klen..]));
  }

  /** The whole CACHE_SET line, routed to its handler, denied or not. */
  lemma CacheSetArrives(key: Str, val: Str, deny: seq<Str>)
    requires key != []
    ensures var to := Route(REQ + (CACHE_SET + [BAR] + CacheSetArg(key, val)), deny);
            to.Meta? && to.cmd == CACHE_SET && SplitCacheSet(to.arg) == Some((key, val))
  {
    CacheSetSplitsBack(key, val);
    RouteCacheSet(CacheSetArg(key, val), deny);
  }

  lemma RouteCacheSet(arg: Str, deny: seq<Str>)
    ensures Route(REQ + (CACHE_SET + [BAR] + arg), deny) == Meta(CACHE_SET, arg)
  {
    var l, s := REQ + (CACHE_SET + [BAR] + arg), CACHE_SET + [BAR] + arg;
    assert l[..4] == REQ && l[4..] == s && s[0] == 67;
    assert !Starts(s, AGENTROLE) by { assert AGENTROLE[0] == 97; }
    SplitAtFirst(CACHE_SET, BAR, arg);
    hide Before, After;
  }
}
