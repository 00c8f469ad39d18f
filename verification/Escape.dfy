/** The newline escape of agent.py (_wire_escape) and its undoing in agentd.c (unescape_inplace), on
    bytes: both touch ASCII characters only. */
module Escape {
  import opened BlockBytes

  const LF: Byte := 10
  const CR: Byte := 13
  const BACKSLASH: Byte := 92
  const LETTERN: Byte := 110

  /** Carriage returns dropped, newlines spelled as backslash and n. */
  function Escaped(s: seq<Byte>): seq<Byte> {
    if s == [] then []
    else if s[0] == CR then Escaped(s[1..])
    else if s[0] == LF then [BACKSLASH, LETTERN] + Escaped(s[1..])
    else [s[0]] + Escaped(s[1..])
  }

  function Unescaped(s: seq<Byte>): seq<Byte> {
    if s == [] then []
    else if s[0] == BACKSLASH && |s| > 1 && s[1] == LETTERN then [LF] + Unescaped(s[2..])
    else [s[0]] + Unescaped(s[1..])
  }

  /** A backslash directly followed by an n. */
  predicate SpellsNewline(s: seq<Byte>) {
    exists i :: 0 <= i && i + 1 < |s| && s[i] == BACKSLASH && s[i + 1] == LETTERN
  }

  lemma {:induction false} EscapedIsOneLine(s: seq<Byte>)
    ensures CR !in Escaped(s) && LF !in Escaped(s)
  {
    if s != [] {
      EscapedIsOneLine(s[1..]);
    }
  }

  /** Without a carriage return, the head of the text is an n when the head of its escape is. */
  lemma EscapedStartsWithN(s: seq<Byte>)
    requires CR !in s && Escaped(s) != [] && Escaped(s)[0] == LETTERN
    ensures s != [] && s[0] == LETTERN
  {
  }

  lemma {:induction false} RoundTripHolds(s: seq<Byte>)
    requires CR !in s && !SpellsNewline(s)
    ensures Unescaped(Escaped(s)) == s
  {
    if s != [] {
      var t := Escaped(s[1..]);
      assert |s| > 1 && s[0] == BACKSLASH ==> s[0 + 1] != LETTERN;
      forall i | 0 <= i && i + 1 < |s[1..]|
        ensures !(s[1..][i] == BACKSLASH && s[1..][i + 1] == LETTERN)
      {
        assert s[i + 1] == s[1..][i] && s[i + 2] == s[1..][i + 1];
      }
      RoundTripHolds(s[1..]);
      if s[0] == LF {
        assert Escaped(s)[2..] == t;
      } else {
        assert Escaped(s)[1..] == t;
        if s[0] == BACKSLASH && t != [] && t[0] == LETTERN {
          EscapedStartsWithN(s[1..]);
        }
      }
    }
  }

  lemma {:induction false} UnescapedShrinks(s: seq<Byte>)
    ensures |Unescaped(s)| <= |s|
    ensures CR !in s ==> CR !in Unescaped(s)
    ensures |Unescaped(s)| == |s| ==> Unescaped(s) == s
    decreases |s|
  {
    if s != [] {
      if s[0] == BACKSLASH && |s| > 1 && s[1] == LETTERN {
        UnescapedShrinks(s[2..]);
      } else {
        UnescapedShrinks(s[1..]);
      }
    }
  }

  /** Escaping and undoing it never makes a text longer, and makes one with a spelled newline shorter. */
  lemma {:induction false} RoundTripLength(s: seq<Byte>)
    requires CR !in s
    ensures |Unescaped(Escaped(s))| <= |s|
    ensures SpellsNewline(s) ==> |Unescaped(Escaped(s))| < |s|
    decreases |s|
  {
    if s == [] {
    } else if s[0] == LF {
      RoundTripLength(s[1..]);
      assert Escaped(s)[2..] == Escaped(s[1..]);
      if SpellsNewline(s) {
        SpelledLater(s);
      }
    } else if s[0] == BACKSLASH && |s| > 1 && s[1] == LETTERN {
      RoundTripLength(s[2..]);
      assert Escaped(s[1..])[1..] == Escaped(s[2..]);
      assert Escaped(s)[2..] == Escaped(s[2..]);
    } else {
      RoundTripLength(s[1..]);
      assert Escaped(s)[1..] == Escaped(s[1..]);
      if SpellsNewline(s) {
        SpelledLater(s);
      }
      if s[0] == BACKSLASH && Escaped(s[1..]) != [] && Escaped(s[1..])[0] == LETTERN {
        EscapedStartsWithN(s[1..]);
        assert false;
      }
    }
  }

  lemma SpelledLater(s: seq<Byte>)
    requires s != [] && SpellsNewline(s) && !(s[0] == BACKSLASH && |s| > 1 && s[1] == LETTERN)
    ensures SpellsNewline(s[1..])
  {
    var i :| 0 <= i && i + 1 < |s| && s[i] == BACKSLASH && s[i + 1] == LETTERN;
    assert s[1..][i - 1] == BACKSLASH && s[1..][i] == LETTERN;
  }

  /** The text survives exactly when it holds no carriage return and no backslash followed by n. */
  lemma RoundTripExactly(s: seq<Byte>)
    ensures Unescaped(Escaped(s)) == s <==> CR !in s && !SpellsNewline(s)
  {
    EscapedIsOneLine(s);
    UnescapedShrinks(Escaped(s));
    if CR !in s {
      RoundTripLength(s);
      if !SpellsNewline(s) {
        RoundTripHolds(s);
      }
    }
  }

  /** No wire payload can deliver a backslash followed by an n, however it is spelled. */
  lemma {:induction false} NeverDelivered(t: seq<Byte>)
    ensures !SpellsNewline(Unescaped(t))
    decreases |t|
  {
    if t != [] {
      var pair := t[0] == BACKSLASH && |t| > 1 && t[1] == LETTERN;
      var rest := if pair then t[2..] else t[1..];
      NeverDelivered(rest);
      var u := Unescaped(t);
      assert u[1..] == Unescaped(rest);
      forall i | 0 <= i && i + 1 < |u|
        ensures !(u[i] == BACKSLASH && u[i + 1] == LETTERN)
      {
        if i > 0 {
          assert u[i] == u[1..][i - 1] && u[i + 1] == u[1..][i];
        } else {
          assert u[1] == u[1..][0] && rest != [];
        }
      }
    }
  }

  // In place, in a NUL-terminated buffer

  /** The string a buffer holds from position i on. */
  function StrFrom(b: seq<Byte>, i: nat): seq<Byte>
    requires i <= |b|
    decreases |b| - i
  {
    if i == |b| || b[i] == 0 then [] else [b[i]] + StrFrom(b, i + 1)
  }

  lemma {:induction false} StrFromWritten(b: seq<Byte>, i: nat, done: seq<Byte>)
    requires i + |done| < |b| && b[i + |done|] == 0 && 0 !in done && forall k :: 0 <= k < |done| ==> b[i + k] == done[k]
    ensures StrFrom(b, i) == done
    decreases |done|
  {
    if done != [] {
      assert done[0] in done && b[i + 0] == done[0];
      forall k | 0 <= k < |done[1..]|
        ensures b[i + 1 + k] == done[1..][k]
      {
        assert b[i + (k + 1)] == done[k + 1];
      }
      StrFromWritten(b, i + 1, done[1..]);
    }
  }

  /** Halfway: the output so far stands before position w, the input from r on is untouched. */
  ghost predicate Midway(b: seq<Byte>, was: seq<Byte>, end: nat, r: nat, w: nat, done: seq<Byte>) {
    && |b| == |was| && w <= r <= end < |was| && was[end] == 0 && (forall k :: 0 <= k < end ==> was[k] != 0)
    && (forall k :: r <= k < |was| ==> b[k] == was[k])
    && |done| == w && 0 !in done && (forall k :: 0 <= k < w ==> b[k] == done[k])
    && done + Unescaped(StrFrom(was, r)) == Unescaped(StrFrom(was, 0))
  }

  lemma MidwayPair(b: seq<Byte>, was: seq<Byte>, end: nat, r: nat, w: nat, done: seq<Byte>)
    requires Midway(b, was, end, r, w, done) && b[r] == BACKSLASH
    ensures r + 1 < |b|
    ensures b[r + 1] == LETTERN ==> Midway(b[w := LF], was, end, r + 2, w + 1, done + [LF])
  {
    if b[r + 1] == LETTERN {
      var rest := StrFrom(was, r);
      assert was[r] == b[r] && was[r + 1] == b[r + 1];
      assert StrFrom(was, r + 1) == [LETTERN] + StrFrom(was, r + 2);
      assert rest == [BACKSLASH] + StrFrom(was, r + 1);
      assert rest[2..] == StrFrom(was, r + 2);
      assert done + [LF] + Unescaped(rest[2..]) == done + Unescaped(rest);
    }
  }

  lemma MidwayOne(b: seq<Byte>, was: seq<Byte>, end: nat, r: nat, w: nat, done: seq<Byte>)
    requires Midway(b, was, end, r, w, done) && b[r] != 0 && r + 1 < |b| && !(b[r] == BACKSLASH && b[r + 1] == LETTERN)
    ensures Midway(b[w := b[r]], was, end, r + 1, w + 1, done + [b[r]])
  {
    var rest := StrFrom(was, r);
    assert rest[1..] == StrFrom(was, r + 1);
    assert done + [b[r]] + Unescaped(rest[1..]) == done + Unescaped(rest);
  }

  lemma MidwayDone(b: seq<Byte>, was: seq<Byte>, end: nat, r: nat, w: nat, done: seq<Byte>)
    requires Midway(b, was, end, r, w, done) && b[r] == 0
    ensures StrFrom(b[w := 0], 0) == Unescaped(StrFrom(was, 0))
  {
    assert done + [] == done;
    StrFromWritten(b[w := 0], 0, done);
  }

  lemma {:induction false} FirstZero(b: seq<Byte>) returns (end: nat)
    requires 0 in b
    ensures end < |b| && b[end] == 0 && forall k :: 0 <= k < end ==> b[k] != 0
  {
    if b[0] == 0 {
      end := 0;
    } else {
      var e := FirstZero(b[1..]);
      end := e + 1;
      assert b[1..][e] == b[end];
      forall k | 0 <= k < end
        ensures b[k] != 0
      {
        assert k > 0 ==> b[k] == b[1..][k - 1];
      }
    }
  }

  /** unescape_inplace. */
  method UnescapeInplace(s: array<Byte>)
    requires 0 in s[..]
    modifies s
    ensures StrFrom(s[..], 0) == Unescaped(old(StrFrom(s[..], 0)))
  {
    ghost var was, done: seq<Byte> := s[..], [];
    ghost var end := FirstZero(was);
    var r, w := 0, 0;
    hide Unescaped, StrFrom;
    while s[r] != 0
      invariant w <= r < s.Length && Midway(s[..], was, end, r, w, done)
      decreases s.Length - r
    {
      ghost var b := s[..];
      assert r + 1 < s.Length;
      if s[r] == BACKSLASH && s[r + 1] == LETTERN {
        MidwayPair(b, was, end, r, w, done);
        s[w] := LF;
        assert s[..] == b[w := LF];
        done := done + [LF];
        w, r := w + 1, r + 2;
      } else {
        MidwayOne(b, was, end, r, w, done);
        s[w] := s[r];
        assert s[..] == b[w := b[r]];
        done := done + [b[r]];
        w, r := w + 1, r + 1;
      }
    }
    ghost var b := s[..];
    MidwayDone(b, was, end, r, w, done);
    s[w] := 0;
    assert s[..] == b[w := 0];
  }
}
