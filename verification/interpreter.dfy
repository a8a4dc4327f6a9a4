/** The script engine's execution step: the flag-driven branch decision, the
    built-in commands and the hand-off of everything else to the debugger's
    command executor, and the single-line step the run loop repeats.

    The engine keeps its state in one immutable record.  What the debugger
    answers while a command runs (the $_EZ_FLAG and $_BS_FLAG variables, the
    executor's verdict) is a `Host` parameter. */
module Interpreter {
  import opened Text
  import opened ScriptLines
  import opened LineMap
  import opened Breakpoints

  /** SCRIPTSTATE. */
  datatype Mode = Paused | Stepping | Running

  /** CMDRESULT as the script engine uses it. */
  datatype CmdResult = Error | Continue | Exit | Pause | ContinueBranch

  /** A call frame: where `ret` resumes, and the mode the call ran in. */
  datatype Frame = Frame(ip: nat, mode: Mode)

  /** The engine's globals: the line map, the 1-based instruction pointer
      (0 = none), the previous ip, the call stack, the breakpoint list, the
      last command result and the script mode. */
  datatype Engine = Engine(
    lines: seq<Line>,
    ip: nat,
    ipOld: nat,
    stack: seq<Frame>,
    bps: seq<Bp>,
    last: CmdResult,
    mode: Mode)

  /** The debugger's answers during one command: the two comparison flags
      and whether the command executor accepted the command. */
  datatype Host = Host(ez: bool, bs: bool, execOk: bool)

  /** scriptBranchTaken: EZ set means "equal", BS set means "above". */
  function BranchTaken(kind: BranchType, ez: bool, bs: bool): bool {
    match kind
    case Call => true
    case Jmp => true
    case Jne => !ez
    case Je => ez
    case Jb => !bs && !ez
    case Ja => bs && !ez
    case Jbe => !bs || ez
    case Jae => bs || ez
    case NoBranch => false
  }

  /** With the flags a comparison of `a` with `b` leaves behind, every branch
      family is taken exactly when its unsigned comparison holds. */
  lemma BranchTakenMatchesComparison(kind: BranchType, a: int, b: int)
    ensures BranchTaken(kind, a == b, a > b) <==>
      match kind
      case Call => true
      case Jmp => true
      case Jne => a != b
      case Je => a == b
      case Jb => a < b
      case Ja => a > b
      case Jbe => a <= b
      case Jae => a >= b
      case NoBranch => false
  {
  }

  /** What one command did: the new engine, its result, whether it reached
      the debugger's command executor, and whether it ran with script
      logging switched on (the `log` command). */
  datatype Outcome = Outcome(e: Engine, result: CmdResult, executed: bool, logged: bool)

  /** Only the instruction pointer and the call stack change during a command. */
  predicate SameFrame(a: Engine, b: Engine) {
    a.lines == b.lines && a.ipOld == b.ipOld && a.bps == b.bps && a.last == b.last && a.mode == b.mode
  }

  /** Commands the engine handles itself in the given mode. */
  predicate Builtin(cmd: string, state: Mode) {
    IsInternalCommand(cmd, "ret") || IsInternalCommand(cmd, "error") ||
    IsInternalCommand(cmd, "invalid") || IsInternalCommand(cmd, "pause") ||
    IsInternalCommand(cmd, "nop") ||
    (state != Paused && (IsInternalCommand(cmd, "scriptrun") || IsInternalCommand(cmd, "scriptexec")))
  }

  /** A taken branch: a call pushes where to resume, then the ip moves to the
      first executable line after the label. */
  function TakeBranch(e: Engine, kind: BranchType, labelIp: nat, state: Mode): (r: Engine)
    ensures SameFrame(e, r)
    ensures r.ip == NextIp(e.lines, labelIp)
    ensures r.stack == if kind == Call then e.stack + [Frame(e.ip, state)] else e.stack
  {
    e.(stack := if kind == Call then e.stack + [Frame(e.ip, state)] else e.stack,
       ip := NextIp(e.lines, labelIp))
  }

  /** The `ret` built-in: an empty stack ends the script and rewinds to the
      first line; otherwise the top frame is popped and the script pauses when
      stepping or when the call was not made while running. */
  function Ret(e: Engine, state: Mode): (o: Outcome)
    ensures SameFrame(e, o.e) && !o.executed && !o.logged
    ensures o.result == Exit <==> e.stack == []
    ensures e.stack == [] ==> o.e.stack == [] && o.e.ip == NextIp(e.lines, 0)
    ensures e.stack != [] ==>
      o.e.stack + [e.stack[|e.stack| - 1]] == e.stack && o.e.ip == e.stack[|e.stack| - 1].ip &&
      (o.result == ContinueBranch <==> state != Stepping && e.stack[|e.stack| - 1].mode == Running) &&
      (o.result != ContinueBranch ==> o.result == Pause)
  {
    if |e.stack| == 0 then Outcome(e.(ip := NextIp(e.lines, 0)), Exit, false, false)
    else
      var f := e.stack[|e.stack| - 1];
      Outcome(e.(ip := f.ip, stack := e.stack[..|e.stack| - 1]),
              if state == Stepping || f.mode != Running then Pause else ContinueBranch,
              false, false)
  }

  /** The label operand of a branch typed as a command: everything after the
      first space, trimmed.  A bare mnemonic has no operand (see
      DirectBranchLabelAsWritten for what the source does then). */
  function DirectBranchLabel(cmd: string): (r: string)
    ensures ' ' !in cmd ==> r == []
  {
    match IndexOf(cmd, ' ')
    case None => []
    case Some(k) => Trim(cmd[k..])
  }

  /** The same operand as the source computes it: `substr(find(' '))` with no
      space in the command is an out-of-range exception (None). */
  function DirectBranchLabelAsWritten(cmd: string): Option<string> {
    match IndexOf(cmd, ' ')
    case None => None
    case Some(k) => Some(Trim(cmd[k..]))
  }

  /** A bare mnemonic is classified as a branch, yet has no operand to cut:
      as written the engine throws on the command `jmp`. */
  lemma BareBranchCommandThrows()
    ensures GetBranchType("jmp") == Jmp
    ensures DirectBranchLabelAsWritten("jmp") == None
    ensures DirectBranchLabel("jmp") == []
  {
    var j := Mnemonics(Jmp)[0];
    assert j == "jmp";
    MnemonicClassifies(Jmp, 0, "");
    assert ' ' !in j by {
      assert j[0] == 'j' && j[1] == 'm' && j[2] == 'p';
    }
    DirectBranchLabelAgrees(j);
  }

  /** Wherever a branch command has an operand, the corrected label is the
      source's label. */
  lemma DirectBranchLabelAgrees(cmd: string)
    ensures ' ' in cmd ==> DirectBranchLabelAsWritten(cmd) == Some(DirectBranchLabel(cmd))
    ensures ' ' !in cmd ==> DirectBranchLabelAsWritten(cmd) == None
  {
  }

  /** The branch hack for branches typed as commands. */
  function DirectBranch(e: Engine, cmd: string, kind: BranchType, state: Mode, host: Host): (o: Outcome)
    requires kind != NoBranch
    ensures SameFrame(e, o.e) && !o.executed && !o.logged
    ensures o.result == Error <==> LabelFind(e.lines, DirectBranchLabel(cmd)) == 0
    ensures o.result == Error ==> o.e == e
    ensures o.result != Error ==> o.result == (if state == Stepping then Pause else ContinueBranch)
  {
    var labelIp := LabelFind(e.lines, DirectBranchLabel(cmd));
    if labelIp == 0 then Outcome(e, Error, false, false)
    else
      Outcome(if BranchTaken(kind, host.ez, host.bs) then TakeBranch(e, kind, labelIp, state) else e,
              if state == Stepping then Pause else ContinueBranch, false, false)
  }

  /** scriptInternalCmdExec: one command, in the given mode.  Built-ins are
      handled by the engine; everything else is a branch typed as a command
      or goes to the debugger's command executor. */
  function CmdExec(e: Engine, cmd: string, state: Mode, host: Host): (o: Outcome)
    ensures SameFrame(e, o.e)
    ensures o.executed ==> o.e == e && !Builtin(cmd, state) && GetBranchType(cmd) == NoBranch
    ensures o.logged ==> o.executed && IsInternalCommand(cmd, "log")
    ensures o.result == Exit ==> o.e.ip == NextIp(e.lines, 0) && o.e.stack == e.stack
    ensures o.result == Error ==> o.e == e
  {
    if Builtin(cmd, state) then BuiltinExec(e, cmd, state) else Ordinary(e, cmd, state, host)
  }

  /** The built-ins, tested in the source's order; the last one left is `nop`. */
  function BuiltinExec(e: Engine, cmd: string, state: Mode): (o: Outcome)
    ensures SameFrame(e, o.e) && !o.executed && !o.logged
    ensures o.result == Exit ==> o.e.ip == NextIp(e.lines, 0) && o.e.stack == e.stack
    ensures o.result == Error ==> o.e == e
  {
    if IsInternalCommand(cmd, "ret") then Ret(e, state)
    else if IsInternalCommand(cmd, "error") then Outcome(e.(ip := NextIp(e.lines, 0)), Exit, false, false)
    else if IsInternalCommand(cmd, "invalid") then Outcome(e, Error, false, false)
    else if state != Paused && (IsInternalCommand(cmd, "scriptrun") || IsInternalCommand(cmd, "scriptexec")) then
      Outcome(e, Error, false, false)
    else if IsInternalCommand(cmd, "pause") then Outcome(e, Pause, false, false)
    else Outcome(e, if state == Running then Continue else Pause, false, false)
  }

  /** A command that is no built-in: a branch typed as a command, or one for
      the command executor, whose verdict decides the result. */
  function Ordinary(e: Engine, cmd: string, state: Mode, host: Host): (o: Outcome)
    ensures SameFrame(e, o.e) && o.result != Exit
    ensures o.executed ==> o.e == e && GetBranchType(cmd) == NoBranch
    ensures o.logged ==> o.executed && IsInternalCommand(cmd, "log")
    ensures o.result == Error ==> o.e == e
  {
    var kind := GetBranchType(cmd);
    if kind != NoBranch then DirectBranch(e, cmd, kind, state, host)
    else
      Outcome(e, if !host.execOk then Error else if state == Running then Continue else Pause,
              true, IsInternalCommand(cmd, "log"))
  }

  /** The command executor sees exactly the commands that are neither
      built-ins nor branches, and its verdict decides the result. */
  lemma ExecutorSeesOrdinaryCommands(e: Engine, cmd: string, state: Mode, host: Host)
    ensures var o := CmdExec(e, cmd, state, host);
      o.executed <==> !Builtin(cmd, state) && GetBranchType(cmd) == NoBranch
    ensures var o := CmdExec(e, cmd, state, host);
      o.executed ==> o.result == (if !host.execOk then Error else if state == Running then Continue else Pause)
  {
  }

  /** What each built-in answers, tested in the source's order: `ret`
      returns from a call, `error` ends the script at the first line,
      `invalid` fails, `scriptrun`/`scriptexec` fail unless the script is
      paused, `pause` pauses and `nop` continues only while running.  Any
      other command goes on to `log`, which turns logging on for the
      command executor. */
  lemma BuiltinResults(e: Engine, cmd: string, state: Mode, host: Host)
    ensures var o := CmdExec(e, cmd, state, host);
      IsInternalCommand(cmd, "ret") ==> o == Ret(e, state)
    ensures var o := CmdExec(e, cmd, state, host);
      !IsInternalCommand(cmd, "ret") && IsInternalCommand(cmd, "error") ==>
        o.result == Exit && o.e == e.(ip := NextIp(e.lines, 0))
    ensures var o := CmdExec(e, cmd, state, host);
      !IsInternalCommand(cmd, "ret") && !IsInternalCommand(cmd, "error") &&
      IsInternalCommand(cmd, "invalid") ==>
        o.result == Error && o.e == e
    ensures var o := CmdExec(e, cmd, state, host);
      !IsInternalCommand(cmd, "ret") && !IsInternalCommand(cmd, "error") &&
      !IsInternalCommand(cmd, "invalid") &&
      state != Paused && (IsInternalCommand(cmd, "scriptrun") || IsInternalCommand(cmd, "scriptexec")) ==>
        o.result == Error && o.e == e
    ensures var o := CmdExec(e, cmd, state, host);
      !IsInternalCommand(cmd, "ret") && !IsInternalCommand(cmd, "error") &&
      !IsInternalCommand(cmd, "invalid") &&
      !(state != Paused && (IsInternalCommand(cmd, "scriptrun") || IsInternalCommand(cmd, "scriptexec"))) &&
      IsInternalCommand(cmd, "pause") ==>
        o.result == Pause && o.e == e
    ensures var o := CmdExec(e, cmd, state, host);
      !IsInternalCommand(cmd, "ret") && !IsInternalCommand(cmd, "error") &&
      !IsInternalCommand(cmd, "invalid") &&
      !(state != Paused && (IsInternalCommand(cmd, "scriptrun") || IsInternalCommand(cmd, "scriptexec"))) &&
      !IsInternalCommand(cmd, "pause") && IsInternalCommand(cmd, "nop") ==>
        o.result == (if state == Running then Continue else Pause) && o.e == e
    ensures var o := CmdExec(e, cmd, state, host);
      !Builtin(cmd, state) && GetBranchType(cmd) == NoBranch ==>
        o.executed && o.logged == IsInternalCommand(cmd, "log")
  {
  }

  /** A branch typed as a command jumps like a branch line when its label
      exists and fails without moving otherwise; a bare mnemonic always
      fails on a compiled map, because no label is named by the empty string. */
  lemma DirectBranchSemantics(e: Engine, cmd: string, state: Mode, host: Host)
    requires !Builtin(cmd, state) && GetBranchType(cmd) != NoBranch
    ensures var o := CmdExec(e, cmd, state, host);
      var labelIp := LabelFind(e.lines, DirectBranchLabel(cmd));
      (labelIp == 0 ==> o.result == Error && o.e == e) &&
      (labelIp != 0 ==> o.result == (if state == Stepping then Pause else ContinueBranch)) &&
      (labelIp != 0 && BranchTaken(GetBranchType(cmd), host.ez, host.bs) ==>
         o.e == TakeBranch(e, GetBranchType(cmd), labelIp, state))
    ensures LabelsWellFormed(e.lines) && ' ' !in cmd ==> CmdExec(e, cmd, state, host).result == Error
  {
    assert CmdExec(e, cmd, state, host) == DirectBranch(e, cmd, GetBranchType(cmd), state, host);
    if LabelsWellFormed(e.lines) && ' ' !in cmd {
      NoEmptyLabel(e.lines);
    }
  }

  lemma NoEmptyLabel(m: seq<Line>)
    requires LabelsWellFormed(m)
    ensures LabelFind(m, []) == 0
  {
    forall k | 0 <= k < |m| ensures m[k] != Label([]) {
      assert LabelOk(m, k);
    }
  }

  /** What one step did: the new engine and whether the run loop goes on. */
  datatype Stepped = Stepped(e: Engine, cont: bool)

  predicate InRange(e: Engine) {
    0 < e.ip <= |e.lines|
  }

  /** The ip moves to the next executable line before the line runs. */
  function Advance(e: Engine): (r: Engine)
    ensures r.lines == e.lines && r.stack == e.stack && r.bps == e.bps && r.last == e.last && r.mode == e.mode
    ensures r.ipOld == e.ip && r.ip == NextIp(e.lines, e.ip)
  {
    e.(ipOld := e.ip, ip := NextIp(e.lines, e.ip))
  }

  /** How a command's outcome ends the step: the result is recorded, a
      failure puts the ip back on the failing line. */
  function Record(o: Outcome): (s: Stepped)
    ensures s.cont <==> o.result == Continue || o.result == ContinueBranch
    ensures s.e == (if o.result == Error then o.e.(last := Error, ip := o.e.ipOld) else o.e.(last := o.result))
  {
    var e2 := o.e.(last := o.result);
    if o.result == Error then Stepped(e2.(ip := e2.ipOld), false)
    else Stepped(e2, o.result == Continue || o.result == ContinueBranch)
  }

  /** A branch line: a taken branch jumps, an untaken one falls through. */
  function BranchStep(e1: Engine, kind: BranchType, target: string, state: Mode, host: Host): Engine {
    if BranchTaken(kind, host.ez, host.bs) then TakeBranch(e1, kind, LabelFind(e1.lines, target), state) else e1
  }

  /** scriptInternalCmd: executes the line at the ip.  The ip first moves to
      the next executable line; a command's result is recorded (a failed
      command leaves the ip on itself), a taken branch line jumps. */
  function InternalCmd(e: Engine, state: Mode, host: Host): (s: Stepped)
    ensures s.e.lines == e.lines && s.e.bps == e.bps && s.e.mode == e.mode
    ensures !InRange(e) ==> s == Stepped(e, false)
    ensures InRange(e) ==> s.e.ipOld == e.ip
  {
    if !InRange(e) then Stepped(e, false)
    else LineStep(Advance(e), e.lines[e.ip - 1], state, host)
  }

  /** One line run on the engine whose ip has already moved past it. */
  function LineStep(e1: Engine, line: Line, state: Mode, host: Host): (s: Stepped)
    ensures s.e.lines == e1.lines && s.e.bps == e1.bps && s.e.mode == e1.mode && s.e.ipOld == e1.ipOld
  {
    match line
    case Command(text) => Record(CmdExec(e1, text, state, host))
    case Branch(kind, target, _) => Stepped(BranchStep(e1, kind, target, state, host), true)
    case _ => Stepped(e1, true)
  }

  /** The run loop goes on after a command line exactly when the command
      continued.  The command's result is recorded; a failing command leaves
      the ip on itself, a finished script rewinds to the first line. */
  lemma CommandStepContinues(e: Engine, state: Mode, host: Host)
    requires InRange(e) && e.lines[e.ip - 1].Command?
    ensures var s := InternalCmd(e, state, host);
      var r := CmdExec(Advance(e), e.lines[e.ip - 1].text, state, host).result;
      (s.cont <==> r == Continue || r == ContinueBranch) && s.e.last == r &&
      (r == Error ==> s.e.ip == e.ip && s.e.stack == e.stack) &&
      (r == Exit ==> s.e.ip == NextIp(e.lines, 0) && s.e.stack == e.stack)
  {
    CommandStepIs(e, state, host);
  }

  lemma CommandStepIs(e: Engine, state: Mode, host: Host)
    requires InRange(e) && e.lines[e.ip - 1].Command?
    ensures InternalCmd(e, state, host) == Record(CmdExec(Advance(e), e.lines[e.ip - 1].text, state, host))
  {
    var l := e.lines[e.ip - 1];
    assert l == Command(l.text);
    assert InternalCmd(e, state, host) == LineStep(Advance(e), l, state, host);
  }

  /** A branch line never stops the run loop and leaves the last result
      alone: a taken one jumps behind its label (a call remembers the line
      after it), an untaken one falls through to the next executable line. */
  lemma BranchStepContinues(e: Engine, state: Mode, host: Host)
    requires InRange(e) && e.lines[e.ip - 1].Branch?
    ensures var s := InternalCmd(e, state, host);
      var l := e.lines[e.ip - 1];
      s.cont && s.e.last == e.last &&
      (BranchTaken(l.kind, host.ez, host.bs) ==>
         s.e.ip == NextIp(e.lines, LabelFind(e.lines, l.target)) &&
         s.e.stack == if l.kind == Call then e.stack + [Frame(NextIp(e.lines, e.ip), state)] else e.stack) &&
      (!BranchTaken(l.kind, host.ez, host.bs) ==> s.e.ip == NextIp(e.lines, e.ip) && s.e.stack == e.stack)
  {
    var l := e.lines[e.ip - 1];
    BranchStepIs(e, state, host);
    var b := BranchStep(Advance(e), l.kind, l.target, state, host);
  }

  lemma BranchStepIs(e: Engine, state: Mode, host: Host)
    requires InRange(e) && e.lines[e.ip - 1].Branch?
    ensures InternalCmd(e, state, host) ==
      Stepped(BranchStep(Advance(e), e.lines[e.ip - 1].kind, e.lines[e.ip - 1].target, state, host), true)
  {
    var l := e.lines[e.ip - 1];
    assert l == Branch(l.kind, l.target, l.dest);
    assert InternalCmd(e, state, host) == LineStep(Advance(e), l, state, host);
  }

  /** A call line followed, at any depth of later work, by the `ret` that
      finds its frame on top: the ret resumes on the line after the call with
      the caller's stack, and keeps running only if both ran while running. */
  lemma CallThenRet(e: Engine, state: Mode, host: Host, later: Engine, retState: Mode, retHost: Host)
    requires InRange(e) && e.lines[e.ip - 1].Branch? && e.lines[e.ip - 1].kind == Call
    requires later.stack == InternalCmd(e, state, host).e.stack
    ensures var s := InternalCmd(e, state, host);
      s.cont && s.e.stack == e.stack + [Frame(NextIp(e.lines, e.ip), state)] &&
      s.e.ip == NextIp(e.lines, LabelFind(e.lines, e.lines[e.ip - 1].target))
    ensures var o := CmdExec(later, "ret", retState, retHost);
      o.e.ip == NextIp(e.lines, e.ip) && o.e.stack == e.stack &&
      o.result == (if state == Running && retState != Stepping then ContinueBranch else Pause)
  {
    BranchStepContinues(e, state, host);
    RetPops(later, e.stack, Frame(NextIp(e.lines, e.ip), state), retState, retHost);
  }

  /** `ret` pops exactly the top frame and resumes where it says. */
  lemma RetPops(later: Engine, below: seq<Frame>, top: Frame, retState: Mode, retHost: Host)
    requires later.stack == below + [top]
    ensures var o := CmdExec(later, "ret", retState, retHost);
      o.e.ip == top.ip && o.e.stack == below &&
      o.result == (if top.mode == Running && retState != Stepping then ContinueBranch else Pause)
  {
    assert IsInternalCommand("ret", "ret");
    assert CmdExec(later, "ret", retState, retHost) == Ret(later, retState);
    assert later.stack[..|later.stack| - 1] == below;
  }

  /** The map ends on an executable line (what compilation guarantees), so
      the next-ip scan never runs off a label or comment. */
  predicate MapOk(m: seq<Line>) {
    m == [] || IsExecutable(m[|m| - 1])
  }

  /** An instruction pointer is either none, past the end, or on code. */
  predicate IpOk(m: seq<Line>, ip: nat) {
    ip == 0 || ip > |m| || IsExecutable(m[ip - 1])
  }

  /** The engine invariant: the ip, the previous ip and every return address
      sit on code (or nowhere), and so does every breakpoint. */
  predicate Inv(e: Engine) {
    MapOk(e.lines) && IpOk(e.lines, e.ip) && IpOk(e.lines, e.ipOld) &&
    (forall i :: 0 <= i < |e.stack| ==> IpOk(e.lines, e.stack[i].ip)) &&
    BpsOnCode(e.lines, e.bps)
  }

  lemma NextIpOk(m: seq<Line>, from: nat)
    requires MapOk(m)
    ensures IpOk(m, NextIp(m, from))
  {
  }

  lemma TakeBranchKeepsInv(e: Engine, kind: BranchType, labelIp: nat, state: Mode)
    requires Inv(e)
    ensures Inv(TakeBranch(e, kind, labelIp, state))
  {
    NextIpOk(e.lines, labelIp);
  }

  lemma RetKeepsInv(e: Engine, state: Mode)
    requires Inv(e)
    ensures Inv(Ret(e, state).e)
  {
    NextIpOk(e.lines, 0);
    if |e.stack| > 0 {
      var r := Ret(e, state).e;
      assert forall i :: 0 <= i < |r.stack| ==> r.stack[i] == e.stack[i];
    }
  }

  /** Every command keeps the engine invariant. */
  lemma CmdExecKeepsInv(e: Engine, cmd: string, state: Mode, host: Host)
    requires Inv(e)
    ensures Inv(CmdExec(e, cmd, state, host).e)
  {
    var o := CmdExec(e, cmd, state, host);
    if IsInternalCommand(cmd, "ret") {
      RetKeepsInv(e, state);
    } else if IsInternalCommand(cmd, "error") {
      NextIpOk(e.lines, 0);
    } else if o.e != e {
      var labelIp := LabelFind(e.lines, DirectBranchLabel(cmd));
      assert o.e == TakeBranch(e, GetBranchType(cmd), labelIp, state);
      TakeBranchKeepsInv(e, GetBranchType(cmd), labelIp, state);
    }
  }

  /** Every step keeps the engine invariant. */
  lemma InternalCmdKeepsInv(e: Engine, state: Mode, host: Host)
    requires Inv(e)
    ensures Inv(InternalCmd(e, state, host).e)
  {
    if InRange(e) {
      var e1 := Advance(e);
      NextIpOk(e.lines, e.ip);
      assert Inv(e1);
      match e.lines[e.ip - 1]
      case Command(text) =>
        CmdExecKeepsInv(e1, text, state, host);
      case Branch(kind, target, _) =>
        TakeBranchKeepsInv(e1, kind, LabelFind(e1.lines, target), state);
      case _ =>
    }
  }
}
