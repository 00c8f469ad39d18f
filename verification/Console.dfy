/** Line editing on the console: consoleintr and consoleread of console.c, with the mirror of the line
    being typed that agent commands are taken from.

    Indices grow without wrapping; a run ends before they reach 2^32. */
module Console {
  import opened BlockBytes

  const INPUT_BUF_SIZE: nat := 2048
  const AGENT_BUF_SIZE: nat := 2048

  const NUL: Byte := 0
  const CTRLD: Byte := 4
  const CTRLH: Byte := 8
  const LF: Byte := 10
  const CR: Byte := 13
  const CTRLP: Byte := 16
  const CTRLU: Byte := 21
  const DEL: Byte := 127

  predicate IsReq(line: seq<Byte>) {
    |line| > 4 && line[..4] == [82, 69, 81, 124]
  }

  /** The text handed to agent_dispatch for a finished line. */
  function Request(line: seq<Byte>): seq<Byte> {
    if line != [] && line[|line| - 1] == LF then line[..|line| - 1] else line
  }

  // The line editor without limits

  /** Everything made readable so far, the line being typed, and the agent commands, in order. */
  datatype Editor = Editor(shown: seq<Byte>, line: seq<Byte>, asked: seq<seq<Byte>>)

  function Plain(c: Byte): Byte {
    if c == CR then LF else c
  }

  predicate Edits(c: Byte) {
    c == CTRLP || c == CTRLU || c == CTRLH || c == DEL || c == NUL
  }

  function Finish(ed: Editor, line: seq<Byte>): Editor {
    if IsReq(line) then Editor(ed.shown, [], ed.asked + [Request(line)])
    else Editor(ed.shown + line, [], ed.asked)
  }

  function Press(ed: Editor, c: Byte): Editor {
    if c == CTRLU then Editor(ed.shown, [], ed.asked)
    else if c == CTRLH || c == DEL then
      Editor(ed.shown, if ed.line == [] then [] else ed.line[..|ed.line| - 1], ed.asked)
    else if c == CTRLP || c == NUL then ed
    else if Plain(c) == LF || c == CTRLD then Finish(ed, ed.line + [Plain(c)])
    else Editor(ed.shown, ed.line + [Plain(c)], ed.asked)
  }

  function Typed(keys: seq<Byte>): Editor {
    if keys == [] then Editor([], [], []) else Press(Typed(keys[..|keys| - 1]), keys[|keys| - 1])
  }

  // What the editor does with whole lines

  predicate Text(s: seq<Byte>) {
    forall i :: 0 <= i < |s| ==> !Edits(s[i]) && Plain(s[i]) != LF && s[i] != CTRLD
  }

  function Lines(ls: seq<seq<Byte>>): seq<Byte> {
    if ls == [] then [] else Lines(ls[..|ls| - 1]) + ls[|ls| - 1] + [LF]
  }

  function ShownOf(ls: seq<seq<Byte>>): seq<Byte> {
    if ls == [] then []
    else ShownOf(ls[..|ls| - 1]) + (if IsReq(ls[|ls| - 1] + [LF]) then [] else ls[|ls| - 1] + [LF])
  }

  function AskedOf(ls: seq<seq<Byte>>): seq<seq<Byte>> {
    if ls == [] then []
    else AskedOf(ls[..|ls| - 1]) + (if IsReq(ls[|ls| - 1] + [LF]) then [ls[|ls| - 1]] else [])
  }

  lemma TypedOne(keys: seq<Byte>, c: Byte)
    ensures Typed(keys + [c]) == Press(Typed(keys), c)
  {
    assert (keys + [c])[..|keys|] == keys;
  }

  lemma {:induction false} TypedText(keys: seq<Byte>, s: seq<Byte>)
    requires Text(s)
    ensures var ed := Typed(keys); Typed(keys + s) == Editor(ed.shown, ed.line + s, ed.asked)
    decreases |s|
  {
    hide Finish;
    var ed := Typed(keys);
    if s == [] {
      assert keys + s == keys && ed.line + s == ed.line;
    } else {
      var front, c := s[..|s| - 1], s[|s| - 1];
      TypedText(keys, front);
      assert (keys + s)[..|keys + s| - 1] == keys + front;
      assert ed.line + front + [c] == ed.line + s;
    }
  }

  lemma FinishLine(shown: seq<Byte>, l: seq<Byte>, asked: seq<seq<Byte>>)
    ensures Press(Editor(shown, l, asked), LF) ==
            if IsReq(l + [LF]) then Editor(shown, [], asked + [l]) else Editor(shown + (l + [LF]), [], asked)
  {
    hide IsReq;
    assert (l + [LF])[..|l|] == l;
  }

  /** Lines of plain text: those that begin with REQ| go to the agent, each once and without its
      newline, the others become readable, each in the order typed. */
  lemma {:induction false} WholeLines(ls: seq<seq<Byte>>)
    requires forall k :: 0 <= k < |ls| ==> Text(ls[k])
    ensures Typed(Lines(ls)) == Editor(ShownOf(ls), [], AskedOf(ls))
  {
    if ls != [] {
      var front, l := ls[..|ls| - 1], ls[|ls| - 1];
      WholeLines(front);
      var keys := Lines(front);
      TypedText(keys, l);
      TypedOne(keys + l, LF);
      FinishLine(ShownOf(front), l, AskedOf(front));
      assert [] + l == l && Lines(ls) == keys + l + [LF];
      assert ShownOf(front) + [] == ShownOf(front) && AskedOf(front) + [] == AskedOf(front);
      hide Typed, IsReq, Request, Press;
    }
  }

  /** What each key does to the line: ^U empties it, ^H and DEL take its last character, NUL and ^P do
      nothing, newline, return and ^D end it, and any other character joins it. */
  lemma EveryKey(keys: seq<Byte>, c: Byte)
    ensures var ed, now := Typed(keys), Typed(keys + [c]);
            && (c == 21 ==> now == Editor(ed.shown, [], ed.asked))
            && (c == 8 || c == 127 ==>
                  now.shown == ed.shown && now.asked == ed.asked && |now.line| <= |ed.line| <= |now.line| + 1
                  && now.line <= ed.line && (ed.line != [] ==> now.line != ed.line))
            && (c == 0 || c == 16 ==> now == ed)
            && (c !in {0, 4, 8, 10, 13, 16, 21, 127} ==> now == Editor(ed.shown, ed.line + [c], ed.asked))
    ensures c in {4, 10, 13} ==>
              var ed, now := Typed(keys), Typed(keys + [c]);
              var l := ed.line + [if c == 4 then 4 else 10];
              && now.line == []
              && (if |l| > 4 && l[..4] == [82, 69, 81, 124]
                  then now.shown == ed.shown && now.asked == ed.asked + [if c == 4 then l else ed.line]
                  else now.shown == ed.shown + l && now.asked == ed.asked)
  {
    TypedOne(keys, c);
    var ed := Typed(keys);
    var l := ed.line + [Plain(c)];
    assert l[..|l| - 1] == ed.line;
    hide Typed;
  }

  /** Erasing what was typed leaves no trace. */
  lemma BackspaceUndoes(keys: seq<Byte>, c: Byte)
    requires !Edits(c) && Plain(c) != LF && c != CTRLD
    ensures Typed(keys + [c] + [CTRLH]) == Typed(keys) == Typed(keys + [c] + [DEL])
  {
    var ed := Typed(keys);
    assert (keys + [c])[..|keys|] == keys;
    forall e | e == CTRLH || e == DEL
      ensures Typed(keys + [c] + [e]) == ed
    {
      assert (keys + [c] + [e])[..|keys| + 1] == keys + [c];
      assert (ed.line + [c])[..|ed.line|] == ed.line;
    }
  }

  // The console

  ghost predicate AtIndex(k: nat) {
    true
  }

  /** The ring buffer holds this window of the input stream from index r on. */
  ghost predicate Holds(b: seq<Byte>, r: nat, window: seq<Byte>) {
    && |b| == INPUT_BUF_SIZE && |window| <= INPUT_BUF_SIZE
    && forall k: nat {:trigger AtIndex(k)} :: AtIndex(k) && k < |window| ==> b[(r + k) % INPUT_BUF_SIZE] == window[k]
  }

  /** The pieces of the console state as values: the readable bytes, the unfinished line, and the
      record of the run: the keys, the bytes made readable, the commands handed over, and whether the
      buffer was ever full. */
  datatype View = View(ready: seq<Byte>, line: seq<Byte>, keys: seq<Byte>, shown: seq<Byte>, asked: seq<seq<Byte>>,
                       filled: bool)

  function Size(v: View): nat {
    |v.ready| + |v.line|
  }

  ghost predicate Ring(b: seq<Byte>, r: nat, v: View) {
    Holds(b, r, v.ready + v.line)
  }

  lemma RingAdd(b: seq<Byte>, r: nat, v: View, c: Byte)
    requires Ring(b, r, v) && Size(v) < INPUT_BUF_SIZE
    ensures |b| == INPUT_BUF_SIZE && Holds(b[(r + Size(v)) % INPUT_BUF_SIZE := c], r, v.ready + (v.line + [c]))
  {
    var window := v.ready + v.line;
    assert v.ready + (v.line + [c]) == window + [c];
    forall k: nat {:trigger AtIndex(k)} | AtIndex(k) && k < |window|
      ensures (r + k) % INPUT_BUF_SIZE != (r + |window|) % INPUT_BUF_SIZE
    {
      var d := |window| - k;
      assert r + |window| == (r + k) + d && 0 < d < INPUT_BUF_SIZE;
    }
  }

  lemma HoldsLess(b: seq<Byte>, r: nat, window: seq<Byte>, less: seq<Byte>)
    requires Holds(b, r, window) && less <= window
    ensures Holds(b, r, less)
  {
  }

  lemma RingFirst(b: seq<Byte>, r: nat, v: View)
    requires Ring(b, r, v) && v.ready != []
    ensures |b| == INPUT_BUF_SIZE && b[r % INPUT_BUF_SIZE] == v.ready[0] && Ring(b, r + 1, Consumed(v, 1))
  {
    var window := v.ready + v.line;
    assert AtIndex(0) && v.ready[1..] + v.line == window[1..];
    forall k: nat {:trigger AtIndex(k)} | AtIndex(k) && k < |window[1..]|
      ensures b[(r + 1 + k) % INPUT_BUF_SIZE] == window[1..][k]
    {
      assert AtIndex(k + 1);
    }
  }

  lemma RingLast(b: seq<Byte>, r: nat, v: View, k: nat)
    requires Ring(b, r, v) && k < |v.line|
    ensures |b| == INPUT_BUF_SIZE && b[(r + |v.ready| + k) % INPUT_BUF_SIZE] == v.line[k]
  {
    assert AtIndex(|v.ready| + k);
  }

  /** What the agent is handed: the mirror, which misses the last byte of a line of 2048. */
  function Mirrored(line: seq<Byte>): seq<Byte> {
    if |line| < AGENT_BUF_SIZE then line else line[..AGENT_BUF_SIZE - 1]
  }

  predicate EndsWith(s: seq<Byte>, t: seq<Byte>) {
    |t| <= |s| && s[|s| - |t|..] == t
  }

  ghost predicate Ok(v: View) {
    && Size(v) <= INPUT_BUF_SIZE && (v.line == [] || Size(v) < INPUT_BUF_SIZE)
    && EndsWith(v.shown, v.ready) && LF !in v.line
    && (!v.filled ==> Size(v) < INPUT_BUF_SIZE && Typed(v.keys) == Editor(v.shown, v.line, v.asked))
  }

  /** One key, with the limits of the buffers. */
  function Keyed(v: View, c: Byte): View {
    var keys := v.keys + [c];
    if c == CTRLU then View(v.ready, [], keys, v.shown, v.asked, v.filled)
    else if c == CTRLH || c == DEL then
      View(v.ready, if v.line == [] then [] else v.line[..|v.line| - 1], keys, v.shown, v.asked, v.filled)
    else if c == CTRLP || c == NUL || Size(v) >= INPUT_BUF_SIZE then
      View(v.ready, v.line, keys, v.shown, v.asked, v.filled)
    else
      var now := v.line + [Plain(c)];
      var full := Size(v) + 1 == INPUT_BUF_SIZE;
      if Plain(c) == LF || c == CTRLD || full then
        if IsReq(now) then View(v.ready, [], keys, v.shown, v.asked + [Request(Mirrored(now))], v.filled || full)
        else View(v.ready + now, [], keys, v.shown + now, v.asked, v.filled || full)
      else View(v.ready, now, keys, v.shown, v.asked, v.filled)
  }

  lemma KeyedOk(v: View, c: Byte)
    requires Ok(v)
    ensures Ok(Keyed(v, c))
  {
    TypedOne(v.keys, c);
    hide Typed, IsReq, Request;
    var now := v.line + [Plain(c)];
    assert EndsWith(v.shown + now, v.ready + now);
    assert v.filled || |now| < AGENT_BUF_SIZE || Size(v) + 1 == INPUT_BUF_SIZE;
  }

  /** At the limit: the character that fills the buffer ends the line as a newline would, and once the
      buffer is full characters are dropped until something is read or erased. */
  lemma FullBuffer(v: View, c: Byte)
    requires Ok(v) && c !in {0, 4, 8, 10, 13, 16, 21, 127}
    ensures Size(v) == 2048 ==>
              Keyed(v, c).ready == v.ready && Keyed(v, c).line == v.line && Keyed(v, c).asked == v.asked
    ensures Size(v) == 2047 && v.line[..if |v.line| < 4 then |v.line| else 4] != [82, 69, 81, 124] ==>
              Keyed(v, c).ready == v.ready + (v.line + [c]) && Keyed(v, c).line == [] && Keyed(v, c).asked == v.asked
    ensures Size(v) < 2047 ==>
              Keyed(v, c).ready == v.ready && Keyed(v, c).line == v.line + [c] && Keyed(v, c).asked == v.asked
  {
    hide Typed;
    var l := v.line + [c];
    assert |v.line| >= 4 ==> l[..4] == v.line[..4];
  }

  // Reading

  function Consumed(v: View, k: nat): View
    requires k <= |v.ready|
  {
    View(v.ready[k..], v.line, v.keys, v.shown, v.asked, v.filled)
  }

  lemma ConsumedOk(v: View, k: nat)
    requires Ok(v) && k <= |v.ready|
    ensures Ok(Consumed(v, k))
  {
    hide Typed;
  }

  /** How many of the readable bytes a read of n takes. */
  function ReadLen(s: seq<Byte>, n: nat): (k: nat)
    ensures k <= n && k <= |s|
  {
    if n == 0 || s == [] || s[0] == CTRLD then 0 else if s[0] == LF then 1 else 1 + ReadLen(s[1..], n - 1)
  }

  /** A read stops at an end-of-file, after a newline, or when it has enough, and not before. */
  lemma {:induction false} ReadLenIs(s: seq<Byte>, n: nat)
    ensures var k := ReadLen(s, n);
            && (forall i :: 0 <= i < k ==> s[i] != 4) && (forall i :: 0 <= i < k - 1 ==> s[i] != 10)
            && (k == n || k == |s| || s[k] == 4 || (k > 0 && s[k - 1] == 10))
    decreases n
  {
    if n > 0 && s != [] && s[0] != CTRLD && s[0] != LF {
      ReadLenIs(s[1..], n - 1);
      var k := ReadLen(s[1..], n - 1);
      forall i | 0 <= i < k + 1
        ensures s[i] != 4 && (i < k ==> s[i] != 10)
      {
        assert i > 0 ==> s[i] == s[1..][i - 1];
      }
      assert k < |s| - 1 ==> s[k + 1] == s[1..][k];
      assert k > 0 ==> s[k] == s[1..][k - 1];
    }
  }

  /** The same of what a read returns and leaves. */
  ghost predicate ReadsLine(was: seq<Byte>, out: seq<Byte>, left: seq<Byte>, n: nat) {
    if n > 0 && was != [] && was[0] == 4 then out == [] && left == was[1..]
    else
      && was == out + left && |out| <= n && 4 !in out && (forall i :: 0 <= i < |out| - 1 ==> out[i] != 10)
      && (|out| == n || left == [] || left[0] == 4 || (out != [] && out[|out| - 1] == 10))
  }

  lemma ReadResultIs(start: View, v: View, out: seq<Byte>, n: nat)
    requires ReadResult(start, v, out, n)
    ensures ReadsLine(start.ready, out, v.ready, n)
  {
    ReadLenIs(start.ready, n);
  }

  /** What a read of n leaves: the bytes it returns, and an end-of-file when that comes first. */
  ghost predicate ReadResult(start: View, v: View, out: seq<Byte>, n: nat) {
    var eof := if n > 0 && start.ready != [] && start.ready[0] == CTRLD then 1 else 0;
    && out == start.ready[..ReadLen(start.ready, n)] && ReadLen(start.ready, n) + eof <= |start.ready|
    && v == Consumed(start, ReadLen(start.ready, n) + eof)
  }

  /** Halfway: these bytes are read, and the read goes on as one of the remaining bytes would. */
  ghost predicate Reading(start: View, v: View, out: seq<Byte>, n: nat) {
    && |out| <= n && out + v.ready == start.ready && v == Consumed(start, |out|)
    && ReadLen(start.ready, n) == |out| + ReadLen(v.ready, n - |out|)
    && (out != [] ==> out[0] != CTRLD)
  }

  lemma ReadStart(v: View, n: nat)
    ensures Reading(v, v, [], n)
  {
    assert v.ready[0..] == v.ready && [] + v.ready == v.ready;
  }

  lemma ReadEnds(start: View, v: View, out: seq<Byte>, n: nat)
    requires Reading(start, v, out, n) && (|out| == n || v.ready == [])
    ensures ReadResult(start, v, out, n)
  {
    assert ReadLen(v.ready, n - |out|) == 0 && start.ready[..|out|] == out;
  }

  lemma ReadOne(start: View, v: View, out: seq<Byte>, n: nat)
    requires Reading(start, v, out, n) && |out| < n && v.ready != []
    ensures var c, u := v.ready[0], Consumed(v, 1);
            && (c == CTRLD && out != [] ==> ReadResult(start, v, out, n))
            && (c == CTRLD && out == [] ==> ReadResult(start, u, out, n))
            && (c == LF ==> ReadResult(start, u, out + [c], n))
            && (c != CTRLD && c != LF ==> Reading(start, u, out + [c], n))
  {
    var c, u := v.ready[0], Consumed(v, 1);
    assert out + [c] + u.ready == start.ready && start.ready[|out| + 1..] == u.ready && start.ready[..|out|] == out;
    assert start.ready[..|out| + 1] == out + [c];
    assert ReadLen(v.ready, n - |out|) == if c == CTRLD then 0 else if c == LF then 1
        else 1 + ReadLen(u.ready, n - |out| - 1);
    hide ReadLen;
  }

  class Cons {
    const buf: array<Byte>
    var r: nat
    var w: nat
    var e: nat
    const agentBuf: array<Byte>
    var agentLen: nat
    ghost var v: View

    /** At rest the mirror is exactly the unfinished line, whatever was typed; unless the buffer was
        ever full, everything is as the unlimited editor has it. */
    ghost predicate Valid()
      reads this, buf, agentBuf
    {
      && buf != agentBuf && buf.Length == INPUT_BUF_SIZE && agentBuf.Length == AGENT_BUF_SIZE
          && agentLen < AGENT_BUF_SIZE
      && Ok(v) && Ring(buf[..], r, v) && w == r + |v.ready| && e == w + |v.line|
      && agentBuf[..agentLen] == v.line
    }

    constructor ()
      ensures Valid() && fresh(buf) && fresh(agentBuf) && v == View([], [], [], [], [], false)
    {
      buf, agentBuf := new Byte[INPUT_BUF_SIZE](_ => 0), new Byte[AGENT_BUF_SIZE](_ => 0);
      r, w, e, agentLen := 0, 0, 0, 0;
      v := View([], [], [], [], [], false);
    }

    /** consoleintr: one input character; cmd is what it hands to agent_dispatch, if isCmd. */
    method ConsoleIntr(c: Byte) returns (isCmd: bool, cmd: seq<Byte>)
      requires Valid()
      modifies this, buf, agentBuf
      ensures Valid() && v == Keyed(old(v), c) && r == old(r)
      ensures v.asked == old(v).asked + (if isCmd then [cmd] else [])
    {
      isCmd, cmd := false, [];
      hide Ok, IsReq, Request, Ring, Keyed;
      if c == CTRLP {
        Ignore(c);
      } else if c == CTRLU {
        Kill();
      } else if c == CTRLH || c == DEL {
        Erase(c);
      } else if c != NUL && e - r < INPUT_BUF_SIZE {
        isCmd, cmd := Store(c);
      } else {
        Ignore(c);
      }
    }

    /** A key that leaves no trace in the buffers. */
    method Ignore(c: Byte)
      requires Valid() && (c == CTRLP || c == NUL || (!Edits(c) && e - r >= INPUT_BUF_SIZE))
      modifies this`v
      ensures Valid() && v == Keyed(old(v), c) && v.asked == old(v).asked
    {
      KeyedOk(v, c);
      hide Ok, Ring;
      RingSame(buf[..], r, v, Keyed(v, c));
      v := Keyed(v, c);
    }

    /** The kill key: back to the start of the unfinished line. */
    method Kill()
      requires Valid()
      modifies this
      ensures Valid() && v == Keyed(old(v), CTRLU) && r == old(r) && v.asked == old(v).asked
    {
      KeyedOk(v, CTRLU);
      assert LF !in v.line;
      hide Ok, IsReq, Request;
      Rewind();
      HoldsLess(buf[..], r, v.ready + v.line, v.ready + []);
      v := Keyed(v, CTRLU);
      agentLen := 0;
    }

    method Rewind()
      requires buf.Length == INPUT_BUF_SIZE && Ring(buf[..], r, v) && w == r + |v.ready| && e == w + |v.line|
      requires LF !in v.line
      modifies this`e
      ensures e == w
    {
      while e != w && buf[(e - 1) % INPUT_BUF_SIZE] != LF
        invariant w <= e <= w + |v.line|
      {
        e := e - 1;
      }
      if e != w {
        RingLast(buf[..], r, v, e - 1 - w);
        assert false;
      }
    }

    /** Backspace and delete. */
    method Erase(c: Byte)
      requires Valid() && (c == CTRLH || c == DEL)
      modifies this
      ensures Valid() && v == Keyed(old(v), c) && r == old(r) && v.asked == old(v).asked
    {
      KeyedOk(v, c);
      hide Ok, IsReq, Request, Holds;
      if e != w {
        HoldsLess(buf[..], r, v.ready + v.line, v.ready + v.line[..|v.line| - 1]);
        e := e - 1;
        if agentLen > 0 { agentLen := agentLen - 1; }
      }
      v := Keyed(v, c);
    }

    /** The default case of consoleintr. */
    method Store(key: Byte) returns (isCmd: bool, cmd: seq<Byte>)
      requires Valid() && !Edits(key) && e - r < INPUT_BUF_SIZE
      modifies this, buf, agentBuf
      ensures Valid() && v == Keyed(old(v), key) && r == old(r)
      ensures v.asked == old(v).asked + (if isCmd then [cmd] else [])
    {
      isCmd, cmd := false, [];
      KeyedOk(v, key);
      hide Ok, IsReq, Request, Holds;
      var c := Plain(key);
      ghost var line := v.line + [c];
      Put(c);
      if c == LF || c == CTRLD || e - r == INPUT_BUF_SIZE {
        isCmd := SniffReq(line);
        if isCmd {
          cmd := TakeCmd(line);
          HoldsLess(buf[..], r, v.ready + line, v.ready + []);
          e := w;
        } else {
          assert v.ready + line == v.ready + line + [];
          w := e;
        }
        agentLen := 0;
      }
      v := Keyed(v, key);
    }

    /** The character goes into the ring, and into the mirror if it has room. */
    method Put(c: Byte)
      requires Valid() && e - r < INPUT_BUF_SIZE
      modifies buf, agentBuf, this`e, this`agentLen
      ensures e == old(e) + 1 && agentLen < AGENT_BUF_SIZE
      ensures Holds(buf[..], r, v.ready + (v.line + [c])) && agentBuf[..agentLen] == Mirrored(v.line + [c])
    {
      ghost var b: seq<Byte> := buf[..];
      RingAdd(b, r, v, c);
      hide Ok, Holds, Ring;
      buf[e % INPUT_BUF_SIZE] := c;
      assert buf[..] == b[e % INPUT_BUF_SIZE := c];
      e := e + 1;
      PutMirror(c, v.line);
    }

    method PutMirror(c: Byte, ghost line: seq<Byte>)
      requires agentBuf.Length == AGENT_BUF_SIZE && agentLen < AGENT_BUF_SIZE && agentBuf[..agentLen] == Mirrored(line)
      modifies agentBuf, this`agentLen
      ensures agentLen < AGENT_BUF_SIZE && agentBuf[..agentLen] == Mirrored(line + [c])
    {
      if agentLen < AGENT_BUF_SIZE - 1 {
        agentBuf[agentLen] := c;
        agentLen := agentLen + 1;
      }
      assert agentBuf[..agentLen] == Mirrored(line + [c]);
    }

    /** Does the mirror start with REQ| and hold more? */
    method SniffReq(ghost line: seq<Byte>) returns (isReq: bool)
      requires agentBuf.Length == AGENT_BUF_SIZE && agentLen < AGENT_BUF_SIZE && agentBuf[..agentLen] == Mirrored(line)
      ensures (isReq <==> IsReq(line)) && (isReq ==> agentLen > 0)
    {
      isReq := agentLen > 4 && agentBuf[0] == 82 && agentBuf[1] == 69 && agentBuf[2] == 81 && agentBuf[3] == 124;
      MirrorReq(line, agentBuf[..agentLen]);
    }

    /** The command text: the mirror without a closing newline. */
    method TakeCmd(ghost line: seq<Byte>) returns (cmd: seq<Byte>)
      requires agentBuf.Length == AGENT_BUF_SIZE && 0 < agentLen < AGENT_BUF_SIZE
      requires agentBuf[..agentLen] == Mirrored(line)
      modifies this`agentLen
      ensures cmd == Request(Mirrored(line))
    {
      if agentBuf[agentLen - 1] == LF { agentLen := agentLen - 1; }
      cmd := agentBuf[..agentLen];
      assert cmd == Request(Mirrored(line));
    }

    /** consoleread as far as the bytes at hand go: up to n bytes, stopping after a newline and before
        an end-of-file, which is taken only when nothing came before it.  blocked means consoleread
        would now sleep for more. */
    method ConsoleRead(n: nat) returns (out: seq<Byte>, blocked: bool)
      requires Valid()
      modifies this`r, this`v
      ensures Valid() && (blocked ==> v.ready == []) && ReadResult(old(v), v, out, n)
      ensures ReadsLine(old(v).ready, out, v.ready, n) && v.line == old(v).line
    {
      out, blocked := [], false;
      ghost var start := v;
      ReadStart(start, n);
      hide Ok, Ring, ReadResult;
      while |out| < n
        invariant Valid() && Reading(start, v, out, n)
      {
        if r == w {
          ReadEnds(start, v, out, n);
          ReadResultIs(start, v, out, n);
          return out, true;
        }
        ReadOne(start, v, out, n);
        RingFirst(buf[..], r, v);
        ConsumedOk(v, 1);
        hide Reading;
        var c := buf[r % INPUT_BUF_SIZE];
        if c == CTRLD && out != [] {
          ReadResultIs(start, v, out, n);
          return;
        }
        r := r + 1;
        v := Consumed(v, 1);
        if c == CTRLD {
          ReadResultIs(start, v, out, n);
          return;
        }
        out := out + [c];
        if c == LF {
          ReadResultIs(start, v, out, n);
          return;
        }
      }
      ReadEnds(start, v, out, n);
      ReadResultIs(start, v, out, n);
    }
  }

  lemma RingSame(b: seq<Byte>, r: nat, v: View, w: View)
    requires Ring(b, r, v) && w.ready == v.ready && w.line == v.line
    ensures Ring(b, r, w)
  {
  }

  /** The mirror is long enough to tell a request. */
  lemma MirrorReq(line: seq<Byte>, m: seq<Byte>)
    requires m == Mirrored(line)
    ensures IsReq(line) ==> m != []
    ensures IsReq(line) <==> |m| > 4 && m[0] == 82 && m[1] == 69 && m[2] == 81 && m[3] == 124
  {
    assert |line| >= 4 ==> line[..4] == [line[0], line[1], line[2], line[3]];
  }
}
