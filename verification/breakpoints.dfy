/** Script breakpoints: one list holding user breakpoints and the silent
    ones the engine plants for "run to line". Both kinds sit on the line that
    NextIp picks for the requested line, so never on a label or comment. */
module Breakpoints {
  import opened ScriptLines
  import opened LineMap

  /** SCRIPTBP: a silent breakpoint is not shown in the GUI. */
  datatype Bp = Bp(line: nat, silent: bool)

  /** scriptInternalBpGet: any breakpoint, silent or not, on `line`. */
  predicate InternalBpGet(bps: seq<Bp>, line: nat) {
    exists i :: 0 <= i < |bps| && bps[i].line == line
  }

  /** ScriptBpGetLocked: a user (non-silent) breakpoint on `line`. */
  predicate BpGet(bps: seq<Bp>, line: nat) {
    exists i :: 0 <= i < |bps| && bps[i].line == line && !bps[i].silent
  }

  /** Index of the first breakpoint on `line` (only user ones when
      `userOnly`), |bps| if there is none. */
  function FindBp(bps: seq<Bp>, line: nat, userOnly: bool): (r: nat)
    ensures r <= |bps|
    ensures r < |bps| ==> bps[r].line == line && (userOnly ==> !bps[r].silent)
    ensures forall i :: 0 <= i < r ==> !(bps[i].line == line && (userOnly ==> !bps[i].silent))
  {
    if |bps| == 0 then 0
    else if bps[0].line == line && (userOnly ==> !bps[0].silent) then 0
    else 1 + FindBp(bps[1..], line, userOnly)
  }

  function RemoveAt(bps: seq<Bp>, i: nat): (r: seq<Bp>)
    requires i < |bps|
    ensures |r| == |bps| - 1
    ensures forall k :: 0 <= k < |r| ==> r[k] == if k < i then bps[k] else bps[k + 1]
  {
    bps[..i] + bps[i + 1..]
  }

  /** A toggle's outcome: whether the line was accepted, and the new list. */
  datatype Toggle = Toggle(ok: bool, bps: seq<Bp>)

  /** The line a breakpoint request for `line` lands on. */
  function BpLine(m: seq<Line>, line: nat): nat
    requires line > 0
  {
    NextIp(m, line - 1)
  }

  /** scriptInternalBpToggle: removes the first breakpoint of either kind on
      the landing line, or adds a silent one. */
  function InternalBpToggle(m: seq<Line>, bps: seq<Bp>, line: nat): Toggle {
    if line == 0 || line > |m| then Toggle(false, bps)
    else
      var l := BpLine(m, line);
      if InternalBpGet(bps, l) then Toggle(true, RemoveAt(bps, FindBp(bps, l, false)))
      else Toggle(true, bps + [Bp(l, true)])
  }

  /** ScriptBpToggleLocked: removes the first user breakpoint on the landing
      line, or adds a user breakpoint there. */
  function BpToggle(m: seq<Line>, bps: seq<Bp>, line: nat): Toggle {
    if line == 0 || line > |m| then Toggle(false, bps)
    else
      var l := BpLine(m, line);
      if BpGet(bps, l) then Toggle(true, RemoveAt(bps, FindBp(bps, l, true)))
      else Toggle(true, bps + [Bp(l, false)])
  }

  /** The silent breakpoints, in order. */
  function Silent(bps: seq<Bp>): (r: seq<Bp>)
    ensures |r| <= |bps|
  {
    if |bps| == 0 then [] else (if bps[0].silent then [bps[0]] else []) + Silent(bps[1..])
  }

  /** `Silent` keeps exactly the entries flagged silent, and a list of only
      silent entries whole. */
  lemma {:induction false} SilentSelects(bps: seq<Bp>)
    ensures forall k :: 0 <= k < |Silent(bps)| ==> Silent(bps)[k].silent && Silent(bps)[k] in bps
    ensures forall k :: 0 <= k < |bps| && bps[k].silent ==> bps[k] in Silent(bps)
    ensures (forall k :: 0 <= k < |bps| ==> bps[k].silent) ==> Silent(bps) == bps
  {
    if |bps| > 0 {
      SilentSelects(bps[1..]);
      var h := if bps[0].silent then [bps[0]] else [];
      assert Silent(bps) == h + Silent(bps[1..]);
      forall k | 0 <= k < |bps| && bps[k].silent
        ensures bps[k] in Silent(bps)
      {
        if k > 0 {
          assert bps[k] == bps[1..][k - 1];
        }
      }
    }
  }

  /** At most one user breakpoint per line: the toggles keep it so. */
  predicate UserBpsUnique(bps: seq<Bp>) {
    forall i, j :: 0 <= i < j < |bps| && !bps[i].silent && !bps[j].silent ==> bps[i].line != bps[j].line
  }

  lemma {:induction false} SilentAppend(a: seq<Bp>, b: seq<Bp>)
    ensures Silent(a + b) == Silent(a) + Silent(b)
  {
    if |a| == 0 {
      assert a + b == b;
    } else {
      assert (a + b)[0] == a[0];
      assert (a + b)[1..] == a[1..] + b;
      SilentAppend(a[1..], b);
      var h := if a[0].silent then [a[0]] else [];
      assert Silent(a + b) == h + Silent(a[1..] + b);
      assert Silent(a) == h + Silent(a[1..]);
    }
  }

  lemma {:induction false} SilentRemoveUser(bps: seq<Bp>, i: nat)
    requires i < |bps| && !bps[i].silent
    ensures Silent(RemoveAt(bps, i)) == Silent(bps)
  {
    assert bps == bps[..i] + [bps[i]] + bps[i + 1..];
    SilentAppend(bps[..i] + [bps[i]], bps[i + 1..]);
    SilentAppend(bps[..i], [bps[i]]);
    SilentAppend(bps[..i], bps[i + 1..]);
  }

  /** A user toggle on a valid line flips the user breakpoint on the landing
      line, leaves every other line's user breakpoint as it was, and never
      touches a silent breakpoint. An invalid line changes nothing. */
  lemma BpToggleFlips(m: seq<Line>, bps: seq<Bp>, line: nat)
    requires UserBpsUnique(bps)
    ensures var t := BpToggle(m, bps, line);
      t.ok <==> 0 < line <= |m|
    ensures var t := BpToggle(m, bps, line);
      !t.ok ==> t.bps == bps
    ensures var t := BpToggle(m, bps, line);
      t.ok ==> (UserBpsUnique(t.bps) &&
                BpGet(t.bps, BpLine(m, line)) == !BpGet(bps, BpLine(m, line)) &&
                (forall x :: x != BpLine(m, line) ==> BpGet(t.bps, x) == BpGet(bps, x)) &&
                Silent(t.bps) == Silent(bps))
  {
    if 0 < line <= |m| {
      var l := BpLine(m, line);
      if BpGet(bps, l) {
        RemoveUserFlips(bps, l);
      } else {
        AddUserFlips(bps, l);
      }
    }
  }

  lemma RemoveUserFlips(bps: seq<Bp>, l: nat)
    requires UserBpsUnique(bps) && BpGet(bps, l)
    ensures var r := RemoveAt(bps, FindBp(bps, l, true));
      UserBpsUnique(r) && !BpGet(r, l) &&
      (forall x :: x != l ==> BpGet(r, x) == BpGet(bps, x)) &&
      Silent(r) == Silent(bps)
  {
    var i := FindBp(bps, l, true);
    var r := RemoveAt(bps, i);
    RemoveKeepsUnique(bps, i);
    RemoveDropsLine(bps, i);
    forall x | x != l ensures BpGet(r, x) == BpGet(bps, x) {
      RemoveKeepsOther(bps, i, x);
    }
    SilentRemoveUser(bps, i);
  }

  /** Removing the only user breakpoint on its line clears that line. */
  lemma RemoveDropsLine(bps: seq<Bp>, i: nat)
    requires UserBpsUnique(bps) && i < |bps| && !bps[i].silent
    ensures !BpGet(RemoveAt(bps, i), bps[i].line)
  {
    var r := RemoveAt(bps, i);
    forall k | 0 <= k < |r| && !r[k].silent ensures r[k].line != bps[i].line {
      if k < i {
        assert r[k] == bps[k];
      } else {
        assert r[k] == bps[k + 1];
      }
    }
  }

  /** Removing a breakpoint on another line keeps the user breakpoint on `x`. */
  lemma RemoveKeepsOther(bps: seq<Bp>, i: nat, x: nat)
    requires i < |bps| && bps[i].line != x
    ensures BpGet(RemoveAt(bps, i), x) == BpGet(bps, x)
  {
    var r := RemoveAt(bps, i);
    if BpGet(bps, x) {
      var k :| 0 <= k < |bps| && bps[k].line == x && !bps[k].silent;
      if k < i { assert r[k] == bps[k]; } else { assert r[k - 1] == bps[k]; }
    }
    if BpGet(r, x) {
      var k :| 0 <= k < |r| && r[k].line == x && !r[k].silent;
      if k < i { assert r[k] == bps[k]; } else { assert r[k] == bps[k + 1]; }
    }
  }

  lemma RemoveKeepsUnique(bps: seq<Bp>, i: nat)
    requires UserBpsUnique(bps) && i < |bps|
    ensures UserBpsUnique(RemoveAt(bps, i))
  {
    var r := RemoveAt(bps, i);
    forall a, b | 0 <= a < b < |r| && !r[a].silent && !r[b].silent ensures r[a].line != r[b].line {
      var a' := if a < i then a else a + 1;
      var b' := if b < i then b else b + 1;
      assert r[a] == bps[a'] && r[b] == bps[b'] && a' < b';
    }
  }

  lemma AddUserFlips(bps: seq<Bp>, l: nat)
    requires UserBpsUnique(bps) && !BpGet(bps, l)
    ensures var r := bps + [Bp(l, false)];
      UserBpsUnique(r) && BpGet(r, l) &&
      (forall x :: x != l ==> BpGet(r, x) == BpGet(bps, x)) &&
      Silent(r) == Silent(bps)
  {
    var r := bps + [Bp(l, false)];
    assert r[|bps|] == Bp(l, false);
    forall x | x != l ensures BpGet(r, x) == BpGet(bps, x) {
      if BpGet(r, x) {
        var k :| 0 <= k < |r| && r[k].line == x && !r[k].silent;
        assert k < |bps| && r[k] == bps[k];
      }
      if BpGet(bps, x) {
        var k :| 0 <= k < |bps| && bps[k].line == x && !bps[k].silent;
        assert r[k] == bps[k];
      }
    }
    SilentAppend(bps, [Bp(l, false)]);
  }

  /** Toggling the same valid line twice restores the breakpoint list: exactly
      when the line had no user breakpoint, and up to order otherwise. */
  lemma BpToggleTwice(m: seq<Line>, bps: seq<Bp>, line: nat)
    requires UserBpsUnique(bps) && 0 < line <= |m|
    ensures var twice := BpToggle(m, BpToggle(m, bps, line).bps, line).bps;
      multiset(twice) == multiset(bps) &&
      (!BpGet(bps, BpLine(m, line)) ==> twice == bps)
  {
    var l := BpLine(m, line);
    if BpGet(bps, l) {
      var i := FindBp(bps, l, true);
      var once := RemoveAt(bps, i);
      assert BpToggle(m, bps, line).bps == once;
      RemoveUserFlips(bps, l);
      assert BpToggle(m, once, line).bps == once + [Bp(l, false)];
      RemoveThenAppend(bps, i);
    } else {
      var once := bps + [Bp(l, false)];
      assert BpToggle(m, bps, line).bps == once;
      AppendThenRemove(bps, l);
      assert BpToggle(m, once, line).bps == bps;
    }
  }

  /** Taking the first user breakpoint on a line out and appending it again
      gives the same breakpoints in another order. */
  lemma RemoveThenAppend(bps: seq<Bp>, i: nat)
    requires i < |bps|
    ensures multiset(RemoveAt(bps, i) + [bps[i]]) == multiset(bps)
  {
    assert bps == bps[..i] + [bps[i]] + bps[i + 1..];
  }

  /** Appending a user breakpoint on a line that had none, then removing the
      first user breakpoint on that line, restores the list. */
  lemma AppendThenRemove(bps: seq<Bp>, l: nat)
    requires !BpGet(bps, l)
    ensures var once := bps + [Bp(l, false)];
      BpGet(once, l) && FindBp(once, l, true) == |bps| && RemoveAt(once, |bps|) == bps
  {
    var once := bps + [Bp(l, false)];
    assert once[|bps|] == Bp(l, false);
    var j := FindBp(once, l, true);
    assert forall k :: 0 <= k < |bps| ==> once[k] == bps[k];
    assert j == |bps|;
    assert once[..|bps|] == bps;
  }

  /** The internal toggle that "run to line" uses always adds a silent
      breakpoint when none is on the landing line, and leaves every user
      breakpoint in place. */
  lemma InternalToggleAddsSilent(m: seq<Line>, bps: seq<Bp>, line: nat)
    requires 0 < line <= |m| && !InternalBpGet(bps, BpLine(m, line))
    ensures InternalBpToggle(m, bps, line) == Toggle(true, bps + [Bp(BpLine(m, line), true)])
    ensures forall x :: BpGet(InternalBpToggle(m, bps, line).bps, x) == BpGet(bps, x)
  {
    var r := bps + [Bp(BpLine(m, line), true)];
    forall x ensures BpGet(r, x) == BpGet(bps, x) {
      if BpGet(r, x) {
        var k :| 0 <= k < |r| && r[k].line == x && !r[k].silent;
        assert k < |bps| && r[k] == bps[k];
      }
      if BpGet(bps, x) {
        var k :| 0 <= k < |bps| && bps[k].line == x && !bps[k].silent;
        assert r[k] == bps[k];
      }
    }
  }

  /** Breakpoints of a compiled map sit on executable lines. */
  predicate BpsOnCode(m: seq<Line>, bps: seq<Bp>) {
    forall i :: 0 <= i < |bps| ==> 0 < bps[i].line <= |m| && IsExecutable(m[bps[i].line - 1])
  }

  /** On a compiled map (last line executable) both toggles keep every
      breakpoint on an executable line. */
  lemma TogglesKeepBpsOnCode(m: seq<Line>, bps: seq<Bp>, line: nat)
    requires m == [] || IsExecutable(m[|m| - 1])
    requires BpsOnCode(m, bps)
    ensures BpsOnCode(m, BpToggle(m, bps, line).bps)
    ensures BpsOnCode(m, InternalBpToggle(m, bps, line).bps)
  {
    if 0 < line <= |m| {
      var l := BpLine(m, line);
      NextIpInside(m, line - 1);
      RemoveKeepsOnCode(m, bps, FindBp(bps, l, true));
      RemoveKeepsOnCode(m, bps, FindBp(bps, l, false));
    }
  }

  lemma RemoveKeepsOnCode(m: seq<Line>, bps: seq<Bp>, i: nat)
    requires BpsOnCode(m, bps)
    ensures i < |bps| ==> BpsOnCode(m, RemoveAt(bps, i))
  {
    if i < |bps| {
      var r := RemoveAt(bps, i);
      forall k | 0 <= k < |r| ensures 0 < r[k].line <= |m| && IsExecutable(m[r[k].line - 1]) {
        if k < i { assert r[k] == bps[k]; } else { assert r[k] == bps[k + 1]; }
      }
    }
  }
}
