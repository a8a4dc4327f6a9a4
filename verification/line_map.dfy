/** The compiled line map: skipping to the next executable line, label
    lookup, the compiler's label and branch checks, and the synthetic `ret`
    that closes a script. Line numbers are 1-based as in the engine; `from`
    arguments are 0-based indices. */
module LineMap {
  import opened Text
  import opened ScriptLines

  // ---------------------------------------------------------------------
  // Next executable line

  /** Index of the first executable line at or after `i`, or |m| if none. */
  function Skip(m: seq<Line>, i: nat): (r: nat)
    requires i <= |m|
    ensures i <= r <= |m|
    ensures r < |m| ==> IsExecutable(m[r])
    ensures forall k :: i <= k < r ==> !IsExecutable(m[k])
    decreases |m| - i
  {
    if i == |m| || IsExecutable(m[i]) then i else Skip(m, i + 1)
  }

  /** scriptNextIp with the bound tested before the line is read: the 1-based
      number of the first executable line at index `from` or later, one past
      the end when there is none, and `from` itself when it is already at or
      past the end. */
  function NextIp(m: seq<Line>, from: nat): (r: nat)
    ensures from >= |m| ==> r == from
    ensures from < |m| ==> from < r <= |m| + 1
    ensures from < |m| && r <= |m| ==> IsExecutable(m[r - 1])
    ensures from < |m| ==> forall k :: from <= k < r - 1 ==> !IsExecutable(m[k])
  {
    if from >= |m| then from else Skip(m, from) + 1
  }

  /** The skip loop as written: it reads the line before testing the bound,
      so running off the end is an out-of-range access (None). */
  function SkipAsWritten(m: seq<Line>, i: nat): Option<nat>
    requires i <= |m|
    decreases |m| - i
  {
    if i == |m| then None
    else if IsExecutable(m[i]) then Some(i)
    else SkipAsWritten(m, i + 1)
  }

  /** scriptNextIp as written (None: the out-of-range access). */
  function NextIpAsWritten(m: seq<Line>, from: nat): Option<nat> {
    if from >= |m| then Some(from)
    else match SkipAsWritten(m, from)
      case None => None
      case Some(k) => Some(k + 1)
  }

  lemma {:induction false} SkipAsWrittenAgrees(m: seq<Line>, i: nat)
    requires i <= |m|
    ensures SkipAsWritten(m, i) == if Skip(m, i) < |m| then Some(Skip(m, i)) else None
    decreases |m| - i
  {
    if i < |m| && !IsExecutable(m[i]) {
      SkipAsWrittenAgrees(m, i + 1);
    }
  }

  /** The as-written scan fails exactly when only non-executable lines follow
      `from`; otherwise it agrees with NextIp. */
  lemma NextIpAsWrittenAgrees(m: seq<Line>, from: nat)
    ensures NextIpAsWritten(m, from).None? <==>
      from < |m| && forall k :: from <= k < |m| ==> !IsExecutable(m[k])
    ensures NextIpAsWritten(m, from).Some? ==> NextIpAsWritten(m, from).value == NextIp(m, from)
  {
    if from < |m| {
      SkipAsWrittenAgrees(m, from);
    }
  }

  /** A branch to a label that only comments follow: the compiler resolves
      the destination with the scan starting after the label line, which as
      written reads past the end; with the bound tested first it yields the
      line after the end, where the synthetic `ret` is appended. */
  lemma LabelBeforeOnlyCommentsThrows()
    ensures var m := [Branch(Jmp, "a", 0), Label("a"), Comment("//x")];
      NextIpAsWritten(m, 2) == None && NextIp(m, 2) == 4
  {
    var m := [Branch(Jmp, "a", 0), Label("a"), Comment("//x")];
    NextIpAsWrittenAgrees(m, 2);
  }

  // ---------------------------------------------------------------------
  // Labels

  function LabelFindFrom(m: seq<Line>, name: string, i: nat): (r: nat)
    requires i <= |m|
    ensures r == 0 || (i < r <= |m| && m[r - 1] == Label(name))
    ensures r == 0 ==> forall k :: i <= k < |m| ==> m[k] != Label(name)
    ensures r > 0 ==> forall k :: i <= k < r - 1 ==> m[k] != Label(name)
    decreases |m| - i
  {
    if i == |m| then 0
    else if m[i] == Label(name) then i + 1
    else LabelFindFrom(m, name, i + 1)
  }

  /** scriptLabelFind: the 1-based line of the first label called `name`,
      0 when there is none. */
  function LabelFind(m: seq<Line>, name: string): (r: nat)
    ensures r <= |m|
    ensures r == 0 <==> forall k :: 0 <= k < |m| ==> m[k] != Label(name)
    ensures r > 0 ==> m[r - 1] == Label(name) && forall k :: 0 <= k < r - 1 ==> m[k] != Label(name)
  {
    LabelFindFrom(m, name, 0)
  }

  /** Why compiling a script fails; `line` is the 1-based line reported. */
  datatype CompileError =
    | EmptyLabel(line: nat)
    | DuplicateLabel(name: string, first: nat, line: nat)
    | InvalidBranchLabel(target: string, line: nat)

  /** Label text the compiler rejects: empty, or a bare pair of quotes. */
  predicate BadLabelName(name: string) {
    name == [] || name == "\"\""
  }

  /** The label checks of line `k`: an empty name first, then an earlier
      label of the same name. */
  function LabelCheck(m: seq<Line>, k: nat): Option<CompileError>
    requires k < |m|
  {
    if !m[k].Label? then None
    else if BadLabelName(m[k].name) then Some(EmptyLabel(k + 1))
    else
      var first := LabelFind(m[..k], m[k].name);
      if first != 0 then Some(DuplicateLabel(m[k].name, first, k + 1)) else None
  }

  /** The first label error at line index `i` or later. */
  function FirstLabelError(m: seq<Line>, i: nat): Option<CompileError>
    requires i <= |m|
    decreases |m| - i
  {
    if i == |m| then None
    else if LabelCheck(m, i).Some? then LabelCheck(m, i)
    else FirstLabelError(m, i + 1)
  }

  /** Reference condition on one line: not a label, or a label with a usable
      name that no earlier line already defines. */
  predicate LabelOk(m: seq<Line>, k: nat)
    requires k < |m|
  {
    m[k].Label? ==> !BadLabelName(m[k].name) && forall j :: 0 <= j < k ==> m[j] != m[k]
  }

  predicate LabelsWellFormed(m: seq<Line>) {
    forall k :: 0 <= k < |m| ==> LabelOk(m, k)
  }

  lemma LabelCheckIsLabelOk(m: seq<Line>, k: nat)
    requires k < |m|
    ensures LabelCheck(m, k).None? <==> LabelOk(m, k)
    ensures LabelCheck(m, k).Some? ==> LabelCheck(m, k).value.line == k + 1
    ensures LabelCheck(m, k).Some? ==>
      (LabelCheck(m, k).value.EmptyLabel? <==> BadLabelName(m[k].name))
  {
    if m[k].Label? && !BadLabelName(m[k].name) {
      var first := LabelFind(m[..k], m[k].name);
      if first == 0 {
        forall j | 0 <= j < k ensures m[j] != m[k] {
          assert m[..k][j] == m[j];
        }
      } else {
        assert m[..k][first - 1] == m[first - 1];
      }
    }
  }

  /** The label check reports the first offending line, and passes exactly
      when every line from `i` on is fine. */
  lemma {:induction false} FirstLabelErrorIsFirst(m: seq<Line>, i: nat)
    requires i <= |m|
    ensures FirstLabelError(m, i).None? <==> forall k :: i <= k < |m| ==> LabelOk(m, k)
    ensures FirstLabelError(m, i).Some? ==>
      var n := FirstLabelError(m, i).value.line;
      i < n <= |m| && !LabelOk(m, n - 1) && FirstLabelError(m, i) == LabelCheck(m, n - 1) &&
      forall k :: i <= k < n - 1 ==> LabelOk(m, k)
    decreases |m| - i
  {
    if i < |m| {
      LabelCheckIsLabelOk(m, i);
      if LabelCheck(m, i).None? {
        FirstLabelErrorIsFirst(m, i + 1);
      }
    }
  }

  // ---------------------------------------------------------------------
  // Branch resolution

  /** Index of the first branch, at `i` or later, whose label does not exist;
      |m| if every branch resolves. */
  function FirstUnresolved(m: seq<Line>, i: nat): (r: nat)
    requires i <= |m|
    ensures i <= r <= |m|
    ensures r < |m| ==> m[r].Branch? && LabelFind(m, m[r].target) == 0
    ensures forall k :: i <= k < r ==> !(m[k].Branch? && LabelFind(m, m[k].target) == 0)
    decreases |m| - i
  {
    if i == |m| || (m[i].Branch? && LabelFind(m, m[i].target) == 0) then i
    else FirstUnresolved(m, i + 1)
  }

  /** A line with its branch destination filled in: the first executable
      line after the target label. */
  function Resolved(m: seq<Line>, l: Line): Line {
    if l.Branch? then l.(dest := NextIp(m, LabelFind(m, l.target))) else l
  }

  /** The branch pass: fails on the first unknown label, otherwise resolves
      every branch. */
  function Resolve(m: seq<Line>): Result<seq<Line>, CompileError> {
    var k := FirstUnresolved(m, 0);
    if k < |m| then Err(InvalidBranchLabel(m[k].target, k + 1))
    else Ok(seq(|m|, j requires 0 <= j < |m| => Resolved(m, m[j])))
  }

  /** Reference condition: every branch names a label that exists. */
  predicate BranchesResolve(m: seq<Line>) {
    forall k :: 0 <= k < |m| && m[k].Branch? ==> exists j :: 0 <= j < |m| && m[j] == Label(m[k].target)
  }

  lemma ResolveOkIff(m: seq<Line>)
    ensures Resolve(m).Ok? <==> BranchesResolve(m)
  {
    var k := FirstUnresolved(m, 0);
    if k < |m| {
      assert !(exists j :: 0 <= j < |m| && m[j] == Label(m[k].target));
    } else {
      forall i | 0 <= i < |m| && m[i].Branch?
        ensures exists j :: 0 <= j < |m| && m[j] == Label(m[i].target)
      {
        var f := LabelFind(m, m[i].target);
        assert m[f - 1] == Label(m[i].target);
      }
    }
  }

  // ---------------------------------------------------------------------
  // The synthetic ret and the whole compile step

  /** A last line after which the script cannot fall off the end: a `ret`,
      `invalid` or `error` command, or an unconditional jump. */
  predicate EndsScript(l: Line) {
    (l.Command? &&
      (IsInternalCommand(l.text, "ret") || IsInternalCommand(l.text, "invalid") ||
       IsInternalCommand(l.text, "error")))
    || (l.Branch? && l.kind == Jmp)
  }

  /** The `ret` appended to a script that could fall off its end. */
  const SyntheticRet: Line := Command("ret")

  function AppendRet(m: seq<Line>): seq<Line> {
    if m != [] && !EndsScript(m[|m| - 1]) then m + [SyntheticRet] else m
  }

  /** The compile step on classified lines: label checks in line order, then
      branch resolution, then the synthetic `ret`. */
  function CompileLines(m: seq<Line>): Result<seq<Line>, CompileError> {
    match FirstLabelError(m, 0)
    case Some(e) => Err(e)
    case None =>
      match Resolve(m)
      case Err(e) => Err(e)
      case Ok(resolved) => Ok(AppendRet(resolved))
  }

  /** Each raw line classified on its own. */
  function ClassifyAll(raws: seq<string>): (m: seq<Line>)
    ensures |m| == |raws|
  {
    seq(|raws|, k requires 0 <= k < |raws| => ClassifyLine(raws[k]))
  }

  /** scriptCreateLineMap after the file has been read. */
  function Compile(text: string): Result<seq<Line>, CompileError> {
    CompileLines(ClassifyAll(DropTrailingEmpty(Split(text))))
  }

  /** Compilation succeeds exactly when every label has a usable, unique
      name and every branch names an existing label. */
  lemma CompileOkIff(m: seq<Line>)
    ensures CompileLines(m).Ok? <==> LabelsWellFormed(m) && BranchesResolve(m)
  {
    FirstLabelErrorIsFirst(m, 0);
    ResolveOkIff(m);
  }

  /** A failed compile names the first bad label if there is one, otherwise
      the first branch whose label is missing. */
  lemma CompileErrorIsFirst(m: seq<Line>)
    requires CompileLines(m).Err?
    ensures var e := CompileLines(m).error;
      0 < e.line <= |m| &&
      (e.InvalidBranchLabel? ==>
        LabelsWellFormed(m) && m[e.line - 1].Branch? && e.target == m[e.line - 1].target &&
        LabelFind(m, e.target) == 0 &&
        forall k :: 0 <= k < e.line - 1 && m[k].Branch? ==> LabelFind(m, m[k].target) != 0) &&
      (!e.InvalidBranchLabel? ==>
        !LabelOk(m, e.line - 1) && forall k :: 0 <= k < e.line - 1 ==> LabelOk(m, k))
  {
    FirstLabelErrorIsFirst(m, 0);
    if FirstLabelError(m, 0).Some? {
      var n := FirstLabelError(m, 0).value.line;
      LabelCheckIsLabelOk(m, n - 1);
    }
  }

  /** What a successful compile produces: the lines in order with branch
      destinations filled in, plus a trailing `ret` exactly when the last
      line could fall off the end. */
  lemma CompiledShape(m: seq<Line>)
    requires CompileLines(m).Ok?
    ensures var r := CompileLines(m).value;
      (m == [] <==> r == []) &&
      |m| <= |r| <= |m| + 1 &&
      (|r| == |m| + 1 <==> m != [] && !EndsScript(Resolved(m, m[|m| - 1]))) &&
      (|r| == |m| + 1 ==> r[|m|] == SyntheticRet) &&
      forall k :: 0 <= k < |m| ==> r[k] == Resolved(m, m[k])
  {
    assert |Resolve(m).value| == |m|;
  }

  /** A compiled script cannot fall off its end: its last line is executable. */
  lemma CompiledEndsExecutable(m: seq<Line>)
    requires CompileLines(m).Ok?
    ensures CompileLines(m).value == [] || IsExecutable(CompileLines(m).value[|CompileLines(m).value| - 1])
  {
    var resolved := Resolve(m).value;
    if resolved != [] {
      var last := resolved[|resolved| - 1];
      if EndsScript(last) {
        assert last.Command? || last.Branch?;
      }
    }
  }

  /** Resolution keeps each line's kind, so NextIp and LabelFind read the
      same answers from the resolved lines. */
  predicate SameKinds(a: seq<Line>, b: seq<Line>) {
    |a| == |b| &&
    forall k :: 0 <= k < |a| ==>
      IsExecutable(a[k]) == IsExecutable(b[k]) && a[k].Label? == b[k].Label? &&
      (a[k].Label? ==> a[k] == b[k])
  }

  lemma ResolvedKinds(m: seq<Line>)
    requires Resolve(m).Ok?
    ensures SameKinds(m, Resolve(m).value)
  {
  }

  lemma {:induction false} SkipSameKinds(a: seq<Line>, b: seq<Line>, i: nat)
    requires SameKinds(a, b) && i <= |a|
    ensures Skip(a, i) == Skip(b, i)
    decreases |a| - i
  {
    if i < |a| && !IsExecutable(a[i]) {
      SkipSameKinds(a, b, i + 1);
    }
  }

  lemma LabelFindSameKinds(a: seq<Line>, b: seq<Line>, name: string)
    requires SameKinds(a, b)
    ensures LabelFind(a, name) == LabelFind(b, name)
  {
    var fa := LabelFind(a, name);
    var fb := LabelFind(b, name);
    if fa != 0 {
      assert b[fa - 1] == Label(name);
    }
    if fb != 0 {
      assert a[fb - 1] == Label(name);
    }
  }

  /** Looking a label up in the compiled map finds the same line as in the
      classified lines: the synthetic `ret` is not a label. */
  lemma LabelFindAfterCompile(m: seq<Line>, name: string)
    requires CompileLines(m).Ok?
    ensures LabelFind(CompileLines(m).value, name) == LabelFind(m, name)
  {
    var resolved := Resolve(m).value;
    ResolvedKinds(m);
    LabelFindSameKinds(m, resolved, name);
    var r := CompileLines(m).value;
    if r != resolved {
      assert r == resolved + [SyntheticRet];
      var f := LabelFind(resolved, name);
      var g := LabelFind(r, name);
      if f != 0 {
        assert r[f - 1] == Label(name);
      }
      if g != 0 {
        assert g - 1 < |resolved|;
        assert resolved[g - 1] == Label(name);
      }
    }
  }

  /** In a map whose last line is executable, the scan from any line inside
      the map ends on an executable line inside the map. */
  lemma NextIpInside(r: seq<Line>, from: nat)
    requires r != [] && IsExecutable(r[|r| - 1]) && from < |r|
    ensures 1 <= NextIp(r, from) <= |r| && IsExecutable(r[NextIp(r, from) - 1])
  {
  }

  /** A branch target found in a map ending in an executable line leads to
      an executable line. */
  lemma TargetInside(r: seq<Line>, name: string)
    requires r != [] && IsExecutable(r[|r| - 1]) && LabelFind(r, name) != 0
    ensures 1 <= NextIp(r, LabelFind(r, name)) <= |r| && IsExecutable(r[NextIp(r, LabelFind(r, name)) - 1])
  {
    var f := LabelFind(r, name);
    assert r[f - 1].Label?;
    NextIpInside(r, f);
  }

  /** Every branch of a compiled map names a label of that map. */
  lemma CompiledBranchResolves(m: seq<Line>, k: nat)
    requires CompileLines(m).Ok?
    requires k < |CompileLines(m).value| && CompileLines(m).value[k].Branch?
    ensures LabelFind(CompileLines(m).value, CompileLines(m).value[k].target) != 0
  {
    var r := CompileLines(m).value;
    CompiledShape(m);
    assert k < |m|;
    assert r[k] == Resolved(m, m[k]);
    assert FirstUnresolved(m, 0) == |m|;
    assert LabelFind(m, m[k].target) != 0;
    LabelFindAfterCompile(m, m[k].target);
  }

  /** At run time a taken branch continues at NextIp after its label in the
      compiled map; for every branch of a compiled script that is an
      executable line of the map. */
  lemma RuntimeTargetExecutable(m: seq<Line>, k: nat)
    requires CompileLines(m).Ok?
    requires k < |CompileLines(m).value| && CompileLines(m).value[k].Branch?
    ensures var r := CompileLines(m).value;
      var d := NextIp(r, LabelFind(r, r[k].target));
      1 <= d <= |r| && IsExecutable(r[d - 1])
  {
    CompiledBranchResolves(m, k);
    CompiledEndsExecutable(m);
    TargetInside(CompileLines(m).value, CompileLines(m).value[k].target);
  }

  lemma NoOutOfRangeWhenEndsExecutable(r: seq<Line>, from: nat)
    requires r == [] || IsExecutable(r[|r| - 1])
    ensures NextIpAsWritten(r, from) == Some(NextIp(r, from))
  {
    NextIpAsWrittenAgrees(r, from);
    if from < |r| {
      assert IsExecutable(r[|r| - 1]);
    }
  }

  /** After a successful compile the as-written scan never runs off the end. */
  lemma NoOutOfRangeAfterCompile(m: seq<Line>, from: nat)
    requires CompileLines(m).Ok?
    ensures NextIpAsWritten(CompileLines(m).value, from) == Some(NextIp(CompileLines(m).value, from))
  {
    CompiledEndsExecutable(m);
    NoOutOfRangeWhenEndsExecutable(CompileLines(m).value, from);
  }

  /** The destination stored at compile time is the one the engine takes at
      run time, except for a label on the last classified line: there the
      stored value is the label's own line, while the run-time scan reaches
      the synthetic `ret` after it. */
  lemma StoredDestMatchesRuntime(m: seq<Line>, k: nat)
    requires CompileLines(m).Ok?
    requires k < |m| && m[k].Branch?
    ensures var r := CompileLines(m).value;
      LabelFind(m, m[k].target) < |m| ==>
        r[k].dest == NextIp(r, LabelFind(r, r[k].target))
    ensures var r := CompileLines(m).value;
      LabelFind(m, m[k].target) == |m| ==>
        r[k].dest == |m| && NextIp(r, LabelFind(r, r[k].target)) == |m| + 1
  {
    var r := CompileLines(m).value;
    CompiledShape(m);
    CompileOkIff(m);
    LabelFindAfterCompile(m, m[k].target);
    var f := LabelFind(m, m[k].target);
    assert f != 0;
    assert r[k] == Resolved(m, m[k]);
    assert r[k].dest == NextIp(m, f) && r[k].target == m[k].target;
    if f < |m| {
      CompiledNextIpInside(m, f);
    } else {
      CompiledNextIpAtEnd(m);
    }
  }

  /** From a line inside the map, the compiled map's NextIp agrees with the
      classified lines'. */
  lemma CompiledNextIpInside(m: seq<Line>, f: nat)
    requires CompileLines(m).Ok? && f < |m|
    ensures NextIp(CompileLines(m).value, f) == NextIp(m, f)
  {
    var r := CompileLines(m).value;
    var resolved := Resolve(m).value;
    CompiledShape(m);
    ResolvedKinds(m);
    SkipSameKinds(m, resolved, f);
    if Skip(m, f) == |m| {
      assert !IsExecutable(m[|m| - 1]);
      assert |r| == |m| + 1;
      assert Skip(r, f) == |m|;
    } else {
      SkipPrefix(resolved, r, f);
    }
  }

  /** A map whose last line is a label gets the synthetic `ret`, which the
      run-time scan from one past the last line reaches. */
  lemma CompiledNextIpAtEnd(m: seq<Line>)
    requires CompileLines(m).Ok? && m != [] && m[|m| - 1].Label?
    ensures NextIp(CompileLines(m).value, |m|) == |m| + 1
  {
    var r := CompileLines(m).value;
    CompiledShape(m);
    assert |r| == |m| + 1;
    assert Skip(r, |m|) == |m|;
  }

  /** Skip gives the same index in a longer map when it stops inside the shorter one. */
  lemma {:induction false} SkipPrefix(a: seq<Line>, b: seq<Line>, i: nat)
    requires |a| <= |b| && a == b[..|a|] && i <= |a| && Skip(a, i) < |a|
    ensures Skip(b, i) == Skip(a, i)
    decreases |a| - i
  {
    assert a[i] == b[i];
    if !IsExecutable(a[i]) {
      SkipPrefix(a, b, i + 1);
    }
  }
}
