/** The function-discovery loop of `ExceptionDirectoryAnalysis::Analyse`
    (src/dbg/analysis/exceptiondirectoryanalysis.cpp): every entry of a
    64-bit module's exception directory becomes a function range, kept only
    when both ends lie inside the analysed region.

    `Analysis::inRange` belongs to the analysis base class, which is not part
    of this model; it is a parameter here. */
module ExceptionDirectory {
  import opened Machine

  /** `duint` on the 64-bit build. */
  type Duint = x: nat | x < Word

  /** `DWORD`, the type of the RVAs in a `RUNTIME_FUNCTION`. */
  type Dword = x: nat | x < 0x1_0000_0000

  /** The two RVAs of a `RUNTIME_FUNCTION` the loop reads. */
  datatype RuntimeFunction = RuntimeFunction(beginAddress: Dword, endAddress: Dword)

  /** One discovered function: first and last byte address. */
  datatype Range = Range(start: Duint, end: Duint)

  /** `mModuleBase + BeginAddress`, wrapping. */
  function Start(base: Duint, f: RuntimeFunction): Duint {
    (base + f.beginAddress) % Word
  }

  /** `mModuleBase + EndAddress - 1`, wrapping (below zero too). */
  function End(base: Duint, f: RuntimeFunction): Duint {
    (base + f.endAddress - 1) % Word
  }

  /** The loop's filter: both ends in range and the start not after the end. */
  predicate Kept(base: Duint, f: RuntimeFunction, inRange: Duint -> bool) {
    inRange(Start(base, f)) && inRange(End(base, f)) && Start(base, f) <= End(base, f)
  }

  /** Reference definition: the kept entries, mapped to ranges, in order. */
  function Discovered(base: Duint, fs: seq<RuntimeFunction>, inRange: Duint -> bool): seq<Range> {
    if fs == [] then []
    else
      Discovered(base, fs[..|fs| - 1], inRange)
      + (if Kept(base, fs[|fs| - 1], inRange) then [Range(Start(base, fs[|fs| - 1]), End(base, fs[|fs| - 1]))] else [])
  }

  /** `Analyse`: the loop over `mRuntimeFunctions` pushing onto `mFunctions`. */
  method Analyse(base: Duint, runtimeFunctions: seq<RuntimeFunction>, inRange: Duint -> bool)
    returns (functions: seq<Range>)
    ensures functions == Discovered(base, runtimeFunctions, inRange)
    ensures |functions| <= |runtimeFunctions|
    ensures forall k :: 0 <= k < |functions| ==>
      inRange(functions[k].start) && inRange(functions[k].end) && functions[k].start <= functions[k].end
  {
    functions := [];
    for i := 0 to |runtimeFunctions|
      invariant functions == Discovered(base, runtimeFunctions[..i], inRange)
      invariant |functions| <= i
      invariant forall k :: 0 <= k < |functions| ==>
        inRange(functions[k].start) && inRange(functions[k].end) && functions[k].start <= functions[k].end
    {
      assert runtimeFunctions[..i + 1][..i] == runtimeFunctions[..i];
      var f := runtimeFunctions[i];
      var funcAddr := (base + f.beginAddress) % Word;
      var funcEnd := (base + f.endAddress - 1) % Word;
      if inRange(funcAddr) && inRange(funcEnd) && funcAddr <= funcEnd {
        functions := functions + [Range(funcAddr, funcEnd)];
      }
    }
    assert runtimeFunctions[..|runtimeFunctions|] == runtimeFunctions;
  }

  /** Discovery distributes over concatenation: kept entries keep the order
      of the exception directory. */
  lemma {:induction false} DiscoveredAppend(base: Duint, a: seq<RuntimeFunction>, b: seq<RuntimeFunction>, inRange: Duint -> bool)
    ensures Discovered(base, a + b, inRange) == Discovered(base, a, inRange) + Discovered(base, b, inRange)
    decreases |b|
  {
    if b == [] {
      assert a + b == a;
    } else {
      var n := |b| - 1;
      assert (a + b)[..|a + b| - 1] == a + b[..n];
      assert (a + b)[|a + b| - 1] == b[n];
      DiscoveredAppend(base, a, b[..n], inRange);
    }
  }

  /** One entry yields its range exactly when the filter keeps it. */
  lemma DiscoveredOne(base: Duint, f: RuntimeFunction, inRange: Duint -> bool)
    ensures Discovered(base, [f], inRange) == if Kept(base, f, inRange) then [Range(Start(base, f), End(base, f))] else []
  {
    assert [f][..0] == [];
  }

  /** Without wrap-around, the start-before-end test is exactly
      `BeginAddress < EndAddress`, and a kept range covers
      `EndAddress - BeginAddress` bytes. */
  lemma NoWrapExtent(base: Duint, f: RuntimeFunction)
    requires base + f.beginAddress < Word
    requires 1 <= base + f.endAddress <= Word
    ensures Start(base, f) == base + f.beginAddress
    ensures End(base, f) == base + f.endAddress - 1
    ensures Start(base, f) <= End(base, f) <==> f.beginAddress < f.endAddress
    ensures Start(base, f) <= End(base, f) ==> End(base, f) - Start(base, f) + 1 == f.endAddress - f.beginAddress
  {
    var e := base + f.endAddress - 1;
    assert 0 <= e < Word;
    assert e % Word == e;
  }

  /** With a zero base an empty `EndAddress` wraps to the top of the address
      space, so the start-before-end test alone does not reject the entry. */
  lemma ZeroEndWraps(f: RuntimeFunction)
    requires f.endAddress == 0
    ensures End(0, f) == Word - 1
    ensures Start(0, f) <= End(0, f)
  {
  }
}
