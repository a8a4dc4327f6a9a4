/** The script engine's entry points: loading and unloading a script, the
    run loop, single steps, commands typed by the user, moving the ip, and
    the GUI's line queries.

    Every entry point runs on the engine's one worker queue, so each is a
    function from engine to engine.  What happens concurrently while the run
    loop spins (the user's abort, the 30-second timeout prompt) and what the
    debugger answers for each line arrive as a sequence of `Tick`s, one per
    loop iteration; running out of ticks is an abort. */
module ScriptApi {
  import opened Text
  import opened ScriptLines
  import opened LineMap
  import opened Breakpoints
  import opened Interpreter

  /** The engine before any script is loaded. */
  const Initial: Engine := Engine([], 0, 0, [], [], Error, Paused)

  /** One run-loop iteration's environment: whether an abort is pending when
      the loop condition is tested, the debugger's answers for the line, and
      whether the timeout prompt fired and the user chose to terminate. */
  datatype Tick = Tick(abort: bool, host: Host, terminate: bool)

  /** Why the run loop ended. */
  datatype Stop =
    | Aborted
    | OutOfRange
    | Stopped(result: CmdResult)
    | AtBreakpoint
    | Terminated

  datatype Ran = Ran(e: Engine, stop: Stop)

  /** The run loop of scriptRun: one line per tick, until a line stops, a
      breakpoint is reached, the user terminates or aborts.  The breakpoint
      test comes after the line ran, so the line the run starts on executes
      even when a breakpoint sits on it. */
  function RunLoop(e: Engine, ticks: seq<Tick>): (r: Ran)
    ensures r.e.lines == e.lines && r.e.bps == e.bps && r.e.mode == e.mode
    ensures r.stop == AtBreakpoint ==> InternalBpGet(r.e.bps, r.e.ip)
    ensures r.stop.Stopped? ==> r.stop.result in {Error, Exit, Pause} && r.e.last == r.stop.result
    ensures r.stop == OutOfRange ==> !InRange(r.e)
    decreases |ticks|
  {
    if |ticks| == 0 || ticks[0].abort then Ran(e, Aborted)
    else
      var s := InternalCmd(e, Running, ticks[0].host);
      StopResult(e, ticks[0].host);
      if !s.cont then Ran(s.e, if InRange(e) then Stopped(s.e.last) else OutOfRange)
      else if InternalBpGet(s.e.bps, s.e.ip) then Ran(s.e, AtBreakpoint)
      else if ticks[0].terminate then Ran(s.e, Terminated)
      else RunLoop(s.e, ticks[1..])
  }

  /** A line that ends the loop ran a command whose result is a failure, the
      end of the script or a pause; an ip outside the map ends it unchanged. */
  lemma StopResult(e: Engine, host: Host)
    ensures var s := InternalCmd(e, Running, host);
      !s.cont && InRange(e) ==> s.e.last in {Error, Exit, Pause}
    ensures !InRange(e) ==> InternalCmd(e, Running, host) == Stepped(e, false)
  {
    if InRange(e) {
      var l := e.lines[e.ip - 1];
      if l.Command? {
        CommandStepContinues(e, Running, host);
      } else if l.Branch? {
        BranchStepContinues(e, Running, host);
      } else {
        assert InternalCmd(e, Running, host) == LineStep(Advance(e), l, Running, host);
      }
    }
  }

  /** A line that continues (any line but a command, or a command whose
      result is Continue or ContinueBranch) does not end the loop unless a
      breakpoint, an abort or the user's termination does: the loop goes on
      with the next tick. */
  lemma ContinuingLineKeepsLooping(e: Engine, ticks: seq<Tick>)
    requires |ticks| > 0 && !ticks[0].abort && !ticks[0].terminate && InRange(e)
    requires var l := e.lines[e.ip - 1];
      l.Command? ==> CmdExec(Advance(e), l.text, Running, ticks[0].host).result in {Continue, ContinueBranch}
    requires !InternalBpGet(e.bps, InternalCmd(e, Running, ticks[0].host).e.ip)
    ensures RunLoop(e, ticks) == RunLoop(InternalCmd(e, Running, ticks[0].host).e, ticks[1..])
  {
    var host := ticks[0].host;
    var l := e.lines[e.ip - 1];
    if l.Command? {
      CommandStepContinues(e, Running, host);
    } else if l.Branch? {
      BranchStepContinues(e, Running, host);
    } else {
      assert InternalCmd(e, Running, host) == LineStep(Advance(e), l, Running, host);
    }
  }

  /** The outcome of scriptRun: the engine afterwards, its verdict, and why
      the loop ended (None when the run was refused). */
  datatype Finished = Finished(e: Engine, ok: bool, stop: Option<Stop>)

  /** The line "run to line" lands on, 0 for none. */
  function RunTarget(m: seq<Line>, destline: nat): nat {
    if destline == 0 || destline > |m| then 0 else NextIp(m, destline - 1)
  }

  /** The breakpoint list once "run to line" has planted its silent
      breakpoint (it is never taken away again). */
  function PlantTarget(m: seq<Line>, bps: seq<Bp>, dest: nat): seq<Bp> {
    if dest != 0 && !InternalBpGet(bps, dest) then InternalBpToggle(m, bps, dest).bps else bps
  }

  /** The engine a run starts from: the run-to-line breakpoint planted, the
      ip on the first executable line at or after the current one. */
  function RunStart(e: Engine, destline: nat): (r: Engine)
    ensures r.lines == e.lines && r.stack == e.stack && r.ipOld == e.ipOld && r.last == e.last
    ensures r.mode == Running && r.bps == PlantTarget(e.lines, e.bps, RunTarget(e.lines, destline))
  {
    e.(bps := PlantTarget(e.lines, e.bps, RunTarget(e.lines, destline)),
       ip := NextIp(e.lines, if e.ip > 0 then e.ip - 1 else 0), mode := Running)
  }

  /** scriptRun: refused while the debuggee runs or the script is not
      paused; otherwise plants the run-to-line breakpoint, resumes at the
      first executable line at or after the ip, loops, and pauses again.  It
      reports success when the script ended back on its first line with a
      last result that is not a failure or a pause. */
  function Run(e: Engine, destline: nat, debuggeeRunning: bool, ticks: seq<Tick>): (r: Finished)
    ensures r.e.lines == e.lines && (r.stop.Some? ==> r.e.mode == Paused)
    ensures r.stop.None? <==> debuggeeRunning || e.mode != Paused
    ensures r.stop.None? ==> r.e == e && !r.ok
    ensures r.ok ==> r.e.ip == NextIp(e.lines, 0) && r.e.last in {Exit, Continue, ContinueBranch}
    ensures r.stop.Some? && r.e.ip == NextIp(e.lines, 0) && r.e.last in {Exit, Continue, ContinueBranch} ==> r.ok
  {
    if debuggeeRunning || e.mode != Paused then Finished(e, false, None)
    else
      var r := RunLoop(RunStart(e, destline), ticks);
      var done := r.e.(mode := Paused);
      Finished(done, done.ip == NextIp(e.lines, 0) && done.last in {Exit, Continue, ContinueBranch}, Some(r.stop))
  }

  /** The run loop's end, read off by scriptRun's verdict: a script that
      finished (a `ret` with nothing on the stack, or the `error` built-in)
      is a success, a failing or pausing command is not, and a breakpoint
      stop leaves the ip on the breakpoint. */
  lemma RunVerdict(e: Engine, destline: nat, ticks: seq<Tick>)
    requires e.mode == Paused
    ensures var r := Run(e, destline, false, ticks);
      (r.stop == Some(Stopped(Exit)) ==> r.ok) &&
      (r.stop == Some(Stopped(Error)) || r.stop == Some(Stopped(Pause)) ==> !r.ok) &&
      (r.stop == Some(AtBreakpoint) ==> InternalBpGet(r.e.bps, r.e.ip))
  {
    var bps := PlantTarget(e.lines, e.bps, RunTarget(e.lines, destline));
    var start := NextIp(e.lines, if e.ip > 0 then e.ip - 1 else 0);
    LoopStopRecorded(e.(bps := bps, ip := start, mode := Running), ticks);
  }

  /** A loop ended by a stopping command has that command's result as the
      last result, and a finished script sits on its first line. */
  lemma {:induction false} LoopStopRecorded(e: Engine, ticks: seq<Tick>)
    ensures var r := RunLoop(e, ticks);
      r.stop.Stopped? ==> (r.e.last == r.stop.result &&
                           (r.stop.result == Exit ==> r.e.ip == NextIp(e.lines, 0)))
    decreases |ticks|
  {
    if |ticks| > 0 && !ticks[0].abort {
      var s := InternalCmd(e, Running, ticks[0].host);
      if !s.cont {
        if InRange(e) {
          if e.lines[e.ip - 1].Command? {
            CommandStepContinues(e, Running, ticks[0].host);
          } else {
            assert false;
          }
        }
      } else if !InternalBpGet(s.e.bps, s.e.ip) && !ticks[0].terminate {
        LoopStopRecorded(s.e, ticks[1..]);
      }
    }
  }

  /** The run loop keeps the engine invariant. */
  lemma {:induction false} RunLoopKeepsInv(e: Engine, ticks: seq<Tick>)
    requires Inv(e)
    ensures Inv(RunLoop(e, ticks).e)
    decreases |ticks|
  {
    if |ticks| > 0 && !ticks[0].abort {
      var s := InternalCmd(e, Running, ticks[0].host);
      InternalCmdKeepsInv(e, Running, ticks[0].host);
      if s.cont && !InternalBpGet(s.e.bps, s.e.ip) && !ticks[0].terminate {
        RunLoopKeepsInv(s.e, ticks[1..]);
      }
    }
  }

  /** A run keeps the engine invariant. */
  lemma RunKeepsInv(e: Engine, destline: nat, debuggeeRunning: bool, ticks: seq<Tick>)
    requires Inv(e)
    ensures Inv(Run(e, destline, debuggeeRunning, ticks).e)
  {
    if !debuggeeRunning && e.mode == Paused {
      RunStartKeepsInv(e, destline);
      RunLoopKeepsInv(RunStart(e, destline), ticks);
    }
  }

  lemma RunStartKeepsInv(e: Engine, destline: nat)
    requires Inv(e)
    ensures Inv(RunStart(e, destline))
  {
    TogglesKeepBpsOnCode(e.lines, e.bps, RunTarget(e.lines, destline));
    NextIpOk(e.lines, if e.ip > 0 then e.ip - 1 else 0);
  }

  /** "Run to line" on a loaded script leaves a silent breakpoint on the
      line it ran to, after the run as well, and no user breakpoint appears
      or disappears. */
  lemma RunToLineLeavesSilentBp(e: Engine, destline: nat, ticks: seq<Tick>)
    requires Inv(e) && e.mode == Paused && 0 < destline <= |e.lines|
    ensures var r := Run(e, destline, false, ticks);
      InternalBpGet(r.e.bps, NextIp(e.lines, destline - 1)) &&
      forall x :: BpGet(r.e.bps, x) == BpGet(e.bps, x)
  {
    var m := e.lines;
    var dest := NextIp(m, destline - 1);
    NextIpInside(m, destline - 1);
    assert RunTarget(m, destline) == dest;
    PlantTargetLeavesSilent(m, e.bps, dest);
    var r := RunLoop(RunStart(e, destline), ticks);
    assert Run(e, destline, false, ticks).e.bps == r.e.bps == PlantTarget(m, e.bps, dest);
  }

  /** Planting the run-to-line breakpoint leaves one on its line and no user
      breakpoint changes. */
  lemma PlantTargetLeavesSilent(m: seq<Line>, bps: seq<Bp>, dest: nat)
    requires 0 < dest <= |m| && NextIp(m, dest - 1) == dest
    ensures InternalBpGet(PlantTarget(m, bps, dest), dest)
    ensures forall x :: BpGet(PlantTarget(m, bps, dest), x) == BpGet(bps, x)
  {
    if !InternalBpGet(bps, dest) {
      InternalToggleAddsSilent(m, bps, dest);
      var planted := bps + [Bp(dest, true)];
      assert planted[|bps|] == Bp(dest, true);
    }
  }

  /** ScriptStepAsync: one line in stepping mode, only when paused. */
  function Step(e: Engine, host: Host): (r: Engine)
    ensures r.lines == e.lines && r.bps == e.bps && r.mode == e.mode
    ensures e.mode != Paused ==> r == e
  {
    if e.mode != Paused then e
    else InternalCmd(e.(mode := Stepping), Stepping, host).e.(mode := Paused)
  }

  /** A step moves the ip exactly as the same line moves it inside a run;
      only the pause decision and the mode a call remembers differ. */
  lemma StepMovesLikeRun(e: Engine, host: Host)
    requires e.mode == Paused
    ensures Step(e, host).ip == InternalCmd(e, Running, host).e.ip
    ensures |Step(e, host).stack| == |InternalCmd(e, Running, host).e.stack|
  {
    var es := e.(mode := Stepping);
    if InRange(e) {
      var l := e.lines[e.ip - 1];
      if l.Command? {
        CommandStepContinues(es, Stepping, host);
        CommandStepContinues(e, Running, host);
        StepSameMove(e, host);
      } else if l.Branch? {
        BranchStepContinues(es, Stepping, host);
        BranchStepContinues(e, Running, host);
      }
    }
  }

  lemma StepSameMove(e: Engine, host: Host)
    requires InRange(e) && e.lines[e.ip - 1].Command?
    ensures var a := CmdExec(Advance(e.(mode := Stepping)), e.lines[e.ip - 1].text, Stepping, host);
      var b := CmdExec(Advance(e), e.lines[e.ip - 1].text, Running, host);
      a.e.ip == b.e.ip && |a.e.stack| == |b.e.stack| && (a.result == Error <==> b.result == Error)
  {
    SameMove(Advance(e.(mode := Stepping)), Advance(e), e.lines[e.ip - 1].text, host);
  }

  /** Two engines that differ only in their mode move alike under the same
      command, whether it runs stepping or running. */
  lemma SameMove(a: Engine, b: Engine, cmd: string, host: Host)
    requires a.lines == b.lines && a.ip == b.ip && a.stack == b.stack
    ensures var x := CmdExec(a, cmd, Stepping, host);
      var y := CmdExec(b, cmd, Running, host);
      x.e.ip == y.e.ip && |x.e.stack| == |y.e.stack| && (x.result == Error <==> y.result == Error)
  {
    if IsInternalCommand(cmd, "ret") {
      SameMoveRet(a, b, cmd, host);
    } else if Builtin(cmd, Running) {
      SameMoveBuiltin(a, b, cmd, host);
    } else {
      SameMoveOther(a, b, cmd, host);
    }
  }

  lemma SameMoveRet(a: Engine, b: Engine, cmd: string, host: Host)
    requires a.stack == b.stack && a.lines == b.lines && IsInternalCommand(cmd, "ret")
    ensures var x := CmdExec(a, cmd, Stepping, host);
      var y := CmdExec(b, cmd, Running, host);
      x.e.ip == y.e.ip && x.e.stack == y.e.stack && x.result != Error && y.result != Error
  {
    assert CmdExec(a, cmd, Stepping, host) == Ret(a, Stepping);
    assert CmdExec(b, cmd, Running, host) == Ret(b, Running);
  }

  lemma SameMoveOther(a: Engine, b: Engine, cmd: string, host: Host)
    requires a.lines == b.lines && a.ip == b.ip && a.stack == b.stack
    requires !Builtin(cmd, Running)
    ensures var x := CmdExec(a, cmd, Stepping, host);
      var y := CmdExec(b, cmd, Running, host);
      x.e.ip == y.e.ip && |x.e.stack| == |y.e.stack| && (x.result == Error <==> y.result == Error)
  {
    assert !Builtin(cmd, Stepping);
    CmdExecOrdinary(a, cmd, Stepping, host);
    CmdExecOrdinary(b, cmd, Running, host);
    OrdinarySameMove(a, b, cmd, host);
  }

  lemma CmdExecOrdinary(e: Engine, cmd: string, state: Mode, host: Host)
    requires !Builtin(cmd, state)
    ensures CmdExec(e, cmd, state, host) == Ordinary(e, cmd, state, host)
  {
  }

  lemma OrdinarySameMove(a: Engine, b: Engine, cmd: string, host: Host)
    requires a.lines == b.lines && a.ip == b.ip && a.stack == b.stack
    ensures var x := Ordinary(a, cmd, Stepping, host);
      var y := Ordinary(b, cmd, Running, host);
      x.e.ip == y.e.ip && |x.e.stack| == |y.e.stack| && (x.result == Error <==> y.result == Error)
  {
    var kind := GetBranchType(cmd);
    if kind != NoBranch {
      assert Ordinary(a, cmd, Stepping, host) == DirectBranch(a, cmd, kind, Stepping, host);
      assert Ordinary(b, cmd, Running, host) == DirectBranch(b, cmd, kind, Running, host);
      DirectSameMove(a, b, cmd, kind, host);
    }
  }

  lemma DirectSameMove(a: Engine, b: Engine, cmd: string, kind: BranchType, host: Host)
    requires a.lines == b.lines && a.ip == b.ip && a.stack == b.stack && kind != NoBranch
    ensures var x := DirectBranch(a, cmd, kind, Stepping, host);
      var y := DirectBranch(b, cmd, kind, Running, host);
      x.e.ip == y.e.ip && |x.e.stack| == |y.e.stack| && (x.result == Error <==> y.result == Error)
  {
  }

  lemma SameMoveBuiltin(a: Engine, b: Engine, cmd: string, host: Host)
    requires a.lines == b.lines && a.ip == b.ip && a.stack == b.stack
    requires Builtin(cmd, Running) && !IsInternalCommand(cmd, "ret")
    ensures var x := CmdExec(a, cmd, Stepping, host);
      var y := CmdExec(b, cmd, Running, host);
      x.e.ip == y.e.ip && x.e.stack == y.e.stack && (x.result == Error <==> y.result == Error)
  {
  }

  /** A step keeps the engine invariant. */
  lemma StepKeepsInv(e: Engine, host: Host)
    requires Inv(e)
    ensures Inv(Step(e, host))
  {
    InternalCmdKeepsInv(e.(mode := Stepping), Stepping, host);
  }

  /** What a command typed by the user did: the engine, the verdict, and the
      `destline` of the run it queues, if any. A branch typed while paused
      queues `ScriptRunAsync(scriptIp)`; that run, like any run to a line,
      plants a silent breakpoint on the line's next executable line before
      it loops (see `RunToLineLeavesSilentBp`). */
  datatype Direct = Direct(e: Engine, ok: bool, runFrom: Option<nat>)

  /** ScriptCmdExecAwait: one command in the mode captured when it was
      typed. */
  function ExecDirect(e: Engine, cmd: string, state: Mode, host: Host): (r: Direct)
    ensures r.e.lines == e.lines && r.e.bps == e.bps && r.e.mode == e.mode && r.e.ipOld == e.ip
    ensures r.ok <==> r.e.last != Error
    ensures r.runFrom.Some? ==> r.runFrom.value == r.e.ip && r.e.last == ContinueBranch && state == Paused
    ensures r.e.last == ContinueBranch && state == Paused ==> r.runFrom == Some(r.e.ip)
  {
    var o := CmdExec(e.(ipOld := e.ip), cmd, state, host);
    var e2 := o.e.(last := o.result);
    if o.result == Error then Direct(e2, false, None)
    else if o.result == ContinueBranch && state == Paused then Direct(e2, true, Some(e2.ip))
    else Direct(e2, true, None)
  }

  /** `call <label>` typed while paused pushes a paused frame, moves to the
      label and queues a run from there; the `ret` that ends that run pauses
      on the line the script was on. */
  lemma DirectCallStartsRun(e: Engine, name: string, host: Host)
    requires IsWord(name) && LabelFind(e.lines, name) != 0
    ensures var r := ExecDirect(e, CallCommand(name), Paused, host);
      r.ok && r.e.stack == e.stack + [Frame(e.ip, Paused)] &&
      r.runFrom == Some(NextIp(e.lines, LabelFind(e.lines, name)))
    ensures var r := ExecDirect(e, CallCommand(name), Paused, host);
      var o := CmdExec(r.e, "ret", Running, host);
      o.e.ip == e.ip && o.e.stack == e.stack && o.result == Pause
  {
    var cmd := CallCommand(name);
    CallCommandParts(name);
    var e0 := e.(ipOld := e.ip);
    var labelIp := LabelFind(e.lines, name);
    DirectBranchSemantics(e0, cmd, Paused, host);
    var o := CmdExec(e0, cmd, Paused, host);
    assert BranchTaken(Call, host.ez, host.bs);
    assert o.e == TakeBranch(e0, Call, labelIp, Paused) && o.result == ContinueBranch;
    var r := ExecDirect(e, cmd, Paused, host);
    assert r == Direct(o.e.(last := ContinueBranch), true, Some(o.e.ip));
    RetPops(r.e, e.stack, Frame(e.ip, Paused), Running, host);
  }

  /** The pieces of `call <label>`: not a built-in, a call, and its label. */
  lemma CallCommandParts(name: string)
    requires IsWord(name)
    ensures GetBranchType(CallCommand(name)) == Call
    ensures DirectBranchLabel(CallCommand(name)) == name
    ensures !Builtin(CallCommand(name), Paused)
  {
    CallIsCall(name);
    CallOperand(name);
    CallNotBuiltin(name);
  }

  /** The command `call <name>`. */
  function CallCommand(name: string): string {
    Mnemonics(Call)[0] + " " + name
  }

  lemma CallIsCall(name: string)
    ensures GetBranchType(CallCommand(name)) == Call
  {
    MnemonicClassifies(Call, 0, name);
  }

  lemma CallOperand(name: string)
    requires IsWord(name)
    ensures DirectBranchLabel(CallCommand(name)) == name
  {
    var cmd := CallCommand(name);
    assert cmd == "call " + name;
    assert cmd[4] == ' ' && ' ' !in cmd[..4];
    assert IndexOf(cmd, ' ') == Some(4);
    assert cmd[4..] == " " + name;
    TrimSpacedWord(name);
  }

  lemma CallNotBuiltin(name: string)
    ensures !Builtin(CallCommand(name), Paused)
  {
    var cmd := CallCommand(name);
    FirstTokenOfCall(name);
    InternalCommandIsFirstToken(cmd, "ret");
    InternalCommandIsFirstToken(cmd, "error");
    InternalCommandIsFirstToken(cmd, "invalid");
    InternalCommandIsFirstToken(cmd, "pause");
    InternalCommandIsFirstToken(cmd, "nop");
  }

  lemma FirstTokenOfCall(name: string)
    ensures FirstToken(CallCommand(name)) == "call"
  {
    var cmd := CallCommand(name);
    assert cmd == "call " + name;
    assert cmd[4] == ' ' && ' ' !in cmd[..4];
    assert IndexOf(cmd, ' ') == Some(4);
  }

  lemma TrimSpacedWord(w: string)
    requires IsWord(w)
    ensures Trim(" " + w) == w
  {
    assert RTrim(" " + w) == " " + w;
    assert (" " + w)[1..] == w;
    assert LTrim(w) == w;
  }

  /** A typed command keeps the engine invariant. */
  lemma ExecDirectKeepsInv(e: Engine, cmd: string, state: Mode, host: Host)
    requires Inv(e)
    ensures Inv(ExecDirect(e, cmd, state, host).e)
  {
    CmdExecKeepsInv(e.(ipOld := e.ip), cmd, state, host);
  }

  /** What a load did: the engine and the verdict. */
  datatype Loaded = Loaded(e: Engine, ok: bool)

  /** scriptLoad: clears the ip, breakpoints and stack, then builds the line
      map from the file's contents (None when the file cannot be read).  A
      read failure keeps the old lines; a compile error leaves none. */
  function Load(e: Engine, contents: Option<string>): (r: Loaded)
    ensures r.e.bps == [] && r.e.stack == [] && r.e.ipOld == 0
    ensures r.e.last == e.last && r.e.mode == e.mode
    ensures contents.None? ==> !r.ok && r.e.lines == e.lines && r.e.ip == 0
    ensures contents.Some? ==> (r.ok <==> Compile(contents.value).Ok?)
    ensures contents.Some? && !r.ok ==> r.e.lines == [] && r.e.ip == 0
    ensures r.ok ==> r.e.lines == Compile(contents.value).value
  {
    var e0 := e.(ip := 0, ipOld := 0, bps := [], stack := []);
    match contents
    case None => Loaded(e0, false)
    case Some(text) =>
      match Compile(text)
      case Err(_) => Loaded(e0.(lines := []), false)
      case Ok(m) => Loaded(e0.(lines := m, ip := NextIp(m, 0)), true)
  }

  /** A loaded script starts on its first executable line. */
  lemma LoadStartsOnCode(e: Engine, text: string)
    requires Load(e, Some(text)).ok
    ensures var r := Load(e, Some(text)).e;
      r.lines == [] || (1 <= r.ip <= |r.lines| && IsExecutable(r.lines[r.ip - 1]) &&
                        forall k :: 0 <= k < r.ip - 1 ==> !IsExecutable(r.lines[k]))
  {
    var raws := DropTrailingEmpty(Split(text));
    CompiledEndsExecutable(ClassifyAll(raws));
    var m := Load(e, Some(text)).e.lines;
    if m != [] {
      NextIpInside(m, 0);
    }
  }

  /** A load keeps the engine invariant: a fresh map ends on code. */
  lemma LoadKeepsInv(e: Engine, contents: Option<string>)
    requires MapOk(e.lines)
    ensures Inv(Load(e, contents).e)
  {
    if contents.Some? && Compile(contents.value).Ok? {
      var raws := DropTrailingEmpty(Split(contents.value));
      CompiledEndsExecutable(ClassifyAll(raws));
      NextIpOk(Compile(contents.value).value, 0);
    }
  }

  /** ScriptUnloadAwait: forgets the script. */
  function Unload(e: Engine): (r: Engine)
    ensures Inv(r) && r.lines == [] && r.bps == [] && r.stack == [] && r.ip == 0
    ensures r.last == e.last && r.mode == e.mode
  {
    e.(lines := [], bps := [], stack := [], ip := 0, ipOld := 0)
  }

  /** ScriptSetIpAwait: line 0 means the start. */
  function SetIp(e: Engine, line: nat): (r: Engine)
    ensures r.lines == e.lines && r.stack == e.stack && r.bps == e.bps && r.last == e.last && r.mode == e.mode
  {
    e.(ip := if line != 0 then NextIp(e.lines, line - 1) else NextIp(e.lines, 0))
  }

  /** Setting the ip to a line of a loaded script lands on the first
      executable line at or after it, and setting it there again changes
      nothing. */
  lemma SetIpLands(e: Engine, line: nat)
    requires MapOk(e.lines) && 0 < line <= |e.lines|
    ensures var r := SetIp(e, line);
      line <= r.ip <= |e.lines| && IsExecutable(e.lines[r.ip - 1]) &&
      (forall k :: line - 1 <= k < r.ip - 1 ==> !IsExecutable(e.lines[k])) &&
      SetIp(r, r.ip) == r
  {
    NextIpInside(e.lines, line - 1);
    var r := SetIp(e, line);
    assert NextIp(e.lines, r.ip - 1) == r.ip;
  }

  /** Setting the ip keeps the engine invariant. */
  lemma SetIpKeepsInv(e: Engine, line: nat)
    requires Inv(e)
    ensures Inv(SetIp(e, line))
  {
    NextIpOk(e.lines, if line != 0 then line - 1 else 0);
  }

  /** A user breakpoint toggle keeps the engine invariant. */
  lemma BpToggleKeepsInv(e: Engine, line: nat)
    requires Inv(e)
    ensures Inv(e.(bps := BpToggle(e.lines, e.bps, line).bps))
  {
    TogglesKeepBpsOnCode(e.lines, e.bps, line);
  }

  /** SCRIPTLINETYPE. */
  datatype LineType = LineCommand | LineBranch | LineLabel | LineComment | LineEmpty

  function TypeOf(l: Line): LineType {
    match l
    case Command(_) => LineCommand
    case Branch(_, _, _) => LineBranch
    case Label(_) => LineLabel
    case Comment(_) => LineComment
    case Empty => LineEmpty
  }

  /** ScriptGetLineTypeLocked as written: only lines past the end are
      checked, so line 0 reads before the map (None: an out-of-range
      exception). */
  function GetLineTypeAsWritten(m: seq<Line>, line: nat): Option<LineType> {
    if line > |m| then Some(LineEmpty)
    else if line == 0 then None
    else Some(TypeOf(m[line - 1]))
  }

  /** The line type with line 0 treated like any other invalid line, as the
      branch query treats it. */
  function GetLineType(m: seq<Line>, line: nat): (r: LineType)
    ensures (line == 0 || line > |m|) ==> r == LineEmpty
  {
    if line == 0 || line > |m| then LineEmpty else TypeOf(m[line - 1])
  }

  /** Asking for the type of line 0 throws, even on a loaded script. */
  lemma LineZeroThrows()
    ensures GetLineTypeAsWritten([Command("ret")], 0) == None
    ensures GetLineType([Command("ret")], 0) == LineEmpty
  {
  }

  /** ScriptGetBranchInfoLocked: the branch on a valid line. */
  function BranchInfo(m: seq<Line>, line: nat): (r: Option<Line>)
    ensures r.Some? ==> 0 < line <= |m| && r.value == m[line - 1] && r.value.Branch?
  {
    if line == 0 || line > |m| then None
    else if !m[line - 1].Branch? then None
    else Some(m[line - 1])
  }

  /** The corrected line type agrees with the source wherever the source
      answers, and the two GUI queries agree: a line is a branch exactly when
      there is branch information for it. */
  lemma LineQueriesAgree(m: seq<Line>, line: nat)
    ensures GetLineTypeAsWritten(m, line).Some? ==> GetLineTypeAsWritten(m, line).value == GetLineType(m, line)
    ensures GetLineTypeAsWritten(m, line).None? <==> line == 0
    ensures GetLineType(m, line) == LineBranch <==> BranchInfo(m, line).Some?
  {
  }

  /** The initial engine and an unloaded one satisfy the invariant; every
      entry point keeps it (see the *KeepsInv lemmas). */
  lemma InitialInv()
    ensures Inv(Initial)
  {
  }
}
