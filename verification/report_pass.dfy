/** The classification and bookkeeping logic of the automated analysis report
    pass (src/dbg/analysis/AutoAnalysisReportPass.cpp): which strings count as
    printable, which byte runs look like strings, which strings are
    indicators of compromise (IOCs), and the report's statistics.

    The three regular expressions of the pass (IP address, URL and the domain
    grammar) are parameters: the model fixes the order in which they are
    tried and the guards around them, not the regular-expression engine. */
module ReportPass {
  import opened Text
  import opened Machine

  /** One `StringFinding` of the report: where a string was found and its text. */
  datatype StringFinding = StringFinding(address: nat, value: string, length: nat, isWide: bool, isPrintable: bool)

  /** One `IOCFinding`: `kind` is the type name ("ip", "url", ...). */
  datatype IocFinding = IocFinding(address: nat, kind: string, value: string, context: string)

  /** One `FunctionCallFinding`; the call scan that produces these is not modelled. */
  datatype CallFinding = CallFinding(address: nat, target: nat, functionName: string, moduleName: string, isImport: bool, isDynamic: bool)

  /** The parts of a basic block the statistics read: its call target, its
      instruction count and whether it carries the call flag. */
  datatype Block = Block(target: nat, instrCount: nat, isCall: bool)

  datatype Stats = Stats(
    totalStrings: nat, totalIOCs: nat, totalCalls: nat,
    totalBlocks: nat, totalInstructions: nat, totalFunctions: nat)

  // ---------------------------------------------------------------------
  // Printable strings
  // ---------------------------------------------------------------------

  /** `isprint(c) || isspace(c)`. */
  predicate Printable(c: char) {
    IsPrint(c) || IsSpace(c)
  }

  /** Number of printable-or-space characters of `s`. */
  function PrintableCount(s: string): (n: nat)
    ensures n <= |s|
    ensures n == |s| <==> forall k :: 0 <= k < |s| ==> Printable(s[k])
  {
    if s == [] then 0
    else PrintableCount(s[..|s| - 1]) + (if Printable(s[|s| - 1]) then 1 else 0)
  }

  /** `IsPrintableString`: at least four characters, of which at least 80%
      (rounded down, as in the integer division of the source) are
      printable or whitespace. */
  method IsPrintableString(s: string) returns (r: bool)
    ensures r <==> |s| >= 4 && 5 * PrintableCount(s) >= 4 * |s|
  {
    if |s| < 4 {
      return false;
    }
    var printableCount := 0;
    for i := 0 to |s|
      invariant printableCount == PrintableCount(s[..i])
    {
      assert s[..i + 1][..i] == s[..i];
      if Printable(s[i]) {
        printableCount := printableCount + 1;
      }
    }
    assert s[..|s|] == s;
    Threshold(printableCount, |s|);
    r := printableCount * 100 / |s| >= 80;
  }

  /** `count * 100 / n >= 80` with truncating division is the exact
      four-in-five ratio. */
  lemma Threshold(count: nat, n: nat)
    requires n > 0
    ensures count * 100 / n >= 80 <==> 5 * count >= 4 * n
  {
    var q := count * 100 / n;
    var r := count * 100 % n;
    assert count * 100 == q * n + r && 0 <= r < n;
    if q >= 80 {
      MulLe(80, q, n);
    } else {
      MulLe(q, 79, n);
    }
  }

  /** Multiplying by a natural number keeps the order. */
  lemma {:induction false} MulLe(a: int, b: int, n: nat)
    requires a <= b
    ensures a * n <= b * n
    decreases n
  {
    if n > 0 {
      MulLe(a, b, n - 1);
      assert a * n == a * (n - 1) + a;
      assert b * n == b * (n - 1) + b;
    }
  }

  /** A string of four or more characters that are all printable passes. */
  lemma AllPrintablePasses(s: string)
    requires |s| >= 4
    requires forall k :: 0 <= k < |s| ==> Printable(s[k])
    ensures 5 * PrintableCount(s) >= 4 * |s|
  {
  }

  // ---------------------------------------------------------------------
  // String candidates in raw memory
  // ---------------------------------------------------------------------

  /** The encoding `IsStringCandidate` recognised. */
  datatype StringKind = Narrow | Wide

  /** A byte that is printable or whitespace (and therefore not 0). */
  predicate TextByte(b: bv8) {
    Printable((b as int) as char)
  }

  /** The `k`-th little-endian UTF-16 code unit of `data`. */
  function WideUnit(data: seq<bv8>, k: nat): nat
    requires 2 * k + 1 < |data|
  {
    data[2 * k] as int + 256 * data[2 * k + 1] as int
  }

  /** A code unit below 256 whose `char` value is printable or whitespace. */
  predicate TextUnit(u: nat) {
    u < 256 && Printable(u as char)
  }

  /** The first four bytes are text and the scan limit allows four. */
  predicate NarrowHead(data: seq<bv8>, maxLength: nat) {
    4 <= maxLength && 4 <= |data| && forall k :: 0 <= k < 4 ==> TextByte(data[k])
  }

  /** The first four UTF-16 code units are text and the limit allows four. */
  predicate WideHead(data: seq<bv8>, maxLength: nat) {
    4 <= maxLength / 2 && 8 <= |data| && forall k :: 0 <= k < 4 ==> TextUnit(WideUnit(data, k))
  }

  /** `IsStringCandidate` over the bytes at an address.  The source reads
      raw memory; here the end of `data` ends the scan like a terminator.
      The narrow check wins whenever its run reaches four, before any wide
      check is made. */
  method IsStringCandidate(data: seq<bv8>, maxLength: nat) returns (r: Option<StringKind>)
    ensures r == Some(Narrow) <==> NarrowHead(data, maxLength)
    ensures r == Some(Wide) <==> !NarrowHead(data, maxLength) && WideHead(data, maxLength)
  {
    var asciiCount := 0;
    var i := 0;
    while i < maxLength && i < |data| && data[i] != 0
      invariant asciiCount == i <= |data|
      invariant forall k :: 0 <= k < i ==> TextByte(data[k])
      invariant i <= maxLength
      invariant i < 4 ==> !NarrowHead(data, maxLength) || TextByte(data[i])
    {
      if TextByte(data[i]) {
        asciiCount := asciiCount + 1;
      } else {
        break;
      }
      i := i + 1;
    }
    if asciiCount >= 4 {
      return Some(Narrow);
    }

    var wideCount := 0;
    var j := 0;
    while j < maxLength / 2 && 2 * j + 1 < |data| && WideUnit(data, j) != 0
      invariant wideCount == j && 2 * j <= |data|
      invariant forall k :: 0 <= k < j ==> TextUnit(WideUnit(data, k))
      invariant j <= maxLength / 2
    {
      if TextUnit(WideUnit(data, j)) {
        wideCount := wideCount + 1;
      } else {
        break;
      }
      j := j + 1;
    }
    if wideCount >= 4 {
      return Some(Wide);
    }
    return None;
  }

  // ---------------------------------------------------------------------
  // Indicators of compromise
  // ---------------------------------------------------------------------

  /** The regular-expression matchers the pass uses. */
  datatype Matchers = Matchers(ip: string -> bool, url: string -> bool, domain: string -> bool)

  datatype IocType = Ip | Url | Domain | Registry | FilePath

  /** The type string stored in an `IOCFinding`. */
  function TypeName(t: IocType): string {
    match t
    case Ip => "ip"
    case Url => "url"
    case Domain => "domain"
    case Registry => "registry"
    case FilePath => "file_path"
  }

  /** Position of `t` in the order the checks are tried. */
  function Rank(t: IocType): nat {
    match t
    case Ip => 0
    case Url => 1
    case Domain => 2
    case Registry => 3
    case FilePath => 4
  }

  /** `std::string::find(p, from)`: the first occurrence of `p` at or after `from`. */
  function FindFrom(s: string, p: string, from: nat): (r: Option<nat>)
    ensures r.Some? ==> from <= r.value && OccursAt(s, p, r.value)
    ensures r.Some? ==> forall k :: from <= k < r.value ==> !OccursAt(s, p, k)
    ensures r.None? ==> forall k :: from <= k ==> !OccursAt(s, p, k)
    decreases |s| - from
  {
    if from + |p| > |s| then None
    else if s[from..from + |p|] == p then Some(from)
    else FindFrom(s, p, from + 1)
  }

  /** `std::string::find(p)`. */
  function Find(s: string, p: string): Option<nat> {
    FindFrom(s, p, 0)
  }

  /** `s.find(p) == 0` holds exactly when `p` is a prefix of `s`. */
  lemma FindAtZero(s: string, p: string)
    ensures Find(s, p) == Some(0) <==> StartsWith(s, p)
  {
    if StartsWith(s, p) {
      assert OccursAt(s, p, 0);
    }
  }

  const RegistryPrefixes: seq<string> := ["HKEY_", "\\Registry\\", "SOFTWARE\\", "SYSTEM\\"]

  /** `IsRegistryPath`: the string starts with one of the registry roots. */
  function IsRegistryPath(s: string): (r: bool)
    ensures r <==> exists i :: 0 <= i < |RegistryPrefixes| && StartsWith(s, RegistryPrefixes[i])
  {
    FindAtZero(s, RegistryPrefixes[0]);
    FindAtZero(s, RegistryPrefixes[1]);
    FindAtZero(s, RegistryPrefixes[2]);
    FindAtZero(s, RegistryPrefixes[3]);
    Find(s, "HKEY_") == Some(0) || Find(s, "\\Registry\\") == Some(0)
    || Find(s, "SOFTWARE\\") == Some(0) || Find(s, "SYSTEM\\") == Some(0)
  }

  /** `IsFilePath`: longer than three characters and either a drive form
      (any character, then `:\`), a UNC prefix `\\`, or a string holding
      both a `%` and a backslash.  A one-character `find` is `IndexOf`. */
  function IsFilePath(s: string): (r: bool)
    ensures r <==> |s| > 3 && ((s[1] == ':' && s[2] == '\\') || StartsWith(s, "\\\\") || ('%' in s && '\\' in s))
  {
    FindAtZero(s, "\\\\");
    |s| > 3
    && ((s[1] == ':' && s[2] == '\\')
        || Find(s, "\\\\") == Some(0)
        || (IndexOf(s, '%').Some? && IndexOf(s, '\\').Some?))
  }

  /** `IsDomainName`: the length and dot guards in front of the domain grammar. */
  function IsDomainName(s: string, rx: Matchers): (r: bool)
    ensures r <==> |s| > 4 && '.' in s && rx.domain(s)
  {
    |s| > 4 && IndexOf(s, '.').Some? && rx.domain(s)
  }

  /** Whether `s` is an IOC of type `t`. */
  predicate Matches(s: string, t: IocType, rx: Matchers) {
    match t
    case Ip => rx.ip(s)
    case Url => rx.url(s)
    case Domain => IsDomainName(s, rx)
    case Registry => IsRegistryPath(s)
    case FilePath => IsFilePath(s)
  }

  /** `IsIOCCandidate`: the type of the first check that accepts `s`, trying
      ip, url, domain, registry and file path in that order. */
  function IsIOCCandidate(s: string, rx: Matchers): (r: Option<IocType>)
    ensures r.Some? ==> Matches(s, r.value, rx)
    ensures r.Some? ==> forall t :: Rank(t) < Rank(r.value) ==> !Matches(s, t, rx)
    ensures r.None? <==> forall t :: !Matches(s, t, rx)
  {
    NoCheckAccepts(s, rx);
    if rx.ip(s) then Some(Ip)
    else if rx.url(s) then Some(Url)
    else if IsDomainName(s, rx) then Some(Domain)
    else if IsRegistryPath(s) then Some(Registry)
    else if IsFilePath(s) then Some(FilePath)
    else None
  }

  lemma NoCheckAccepts(s: string, rx: Matchers)
    ensures (forall t :: !Matches(s, t, rx)) <==>
      !Matches(s, Ip, rx) && !Matches(s, Url, rx) && !Matches(s, Domain, rx)
      && !Matches(s, Registry, rx) && !Matches(s, FilePath, rx)
  {
    if !Matches(s, Ip, rx) && !Matches(s, Url, rx) && !Matches(s, Domain, rx)
       && !Matches(s, Registry, rx) && !Matches(s, FilePath, rx) {
      forall t ensures !Matches(s, t, rx) {
        match t
        case Ip =>
        case Url =>
        case Domain =>
        case Registry =>
        case FilePath =>
      }
    }
  }

  /** A string accepted by any check is a candidate, and its reported type
      is tried no later than that check. */
  lemma CandidateIsHighestPriority(s: string, rx: Matchers, t: IocType)
    requires Matches(s, t, rx)
    ensures IsIOCCandidate(s, rx).Some?
    ensures Rank(IsIOCCandidate(s, rx).value) <= Rank(t)
  {
  }

  /** The finding recorded for a string finding classified as `t`. */
  function IocOf(f: StringFinding, t: IocType): IocFinding {
    IocFinding(f.address, TypeName(t), f.value, "String at " + DecimalString(f.address))
  }

  /** The IOC, if any, produced by one string finding. */
  function IocsOf(f: StringFinding, rx: Matchers): seq<IocFinding> {
    match IsIOCCandidate(f.value, rx)
    case None => []
    case Some(t) => [IocOf(f, t)]
  }

  /** `AnalyzeIOCs`: one IOC per string finding that classifies, in order. */
  function AnalyzeIOCs(strings: seq<StringFinding>, rx: Matchers): (r: seq<IocFinding>)
    ensures |r| <= |strings|
    ensures forall k :: 0 <= k < |r| ==> r[k].context == "String at " + DecimalString(r[k].address)
  {
    if strings == [] then [] else IocsOf(strings[0], rx) + AnalyzeIOCs(strings[1..], rx)
  }

  /** The extraction distributes over concatenation, so the IOCs of earlier
      findings come first. */
  lemma {:induction false} AnalyzeIOCsAppend(a: seq<StringFinding>, b: seq<StringFinding>, rx: Matchers)
    ensures AnalyzeIOCs(a + b, rx) == AnalyzeIOCs(a, rx) + AnalyzeIOCs(b, rx)
    decreases |a|
  {
    if a == [] {
      assert a + b == b;
    } else {
      assert (a + b)[1..] == a[1..] + b;
      AnalyzeIOCsAppend(a[1..], b, rx);
    }
  }

  /** Every IOC copies the address and value of a string finding that
      classifies with that type, and every classifying finding yields one. */
  lemma {:induction false} AnalyzeIOCsSound(strings: seq<StringFinding>, rx: Matchers)
    ensures forall ioc :: ioc in AnalyzeIOCs(strings, rx) ==>
      exists f :: f in strings && IsIOCCandidate(f.value, rx).Some? && ioc == IocOf(f, IsIOCCandidate(f.value, rx).value)
    ensures forall f :: f in strings && IsIOCCandidate(f.value, rx).Some? ==>
      IocOf(f, IsIOCCandidate(f.value, rx).value) in AnalyzeIOCs(strings, rx)
  {
    if strings != [] {
      AnalyzeIOCsSound(strings[1..], rx);
      assert forall f :: f in strings ==> f == strings[0] || f in strings[1..];
    }
  }

  // ---------------------------------------------------------------------
  // Statistics
  // ---------------------------------------------------------------------

  /** Sum of the blocks' instruction counts. */
  function InstrSum(blocks: seq<Block>): nat {
    if blocks == [] then 0 else InstrSum(blocks[..|blocks| - 1]) + blocks[|blocks| - 1].instrCount
  }

  /** The distinct targets of call-flagged blocks. */
  function CallTargets(blocks: seq<Block>): set<nat> {
    set b | b in blocks && b.isCall :: b.target
  }

  /** Number of call-flagged blocks. */
  function CallBlocks(blocks: seq<Block>): nat {
    if blocks == [] then 0 else CallBlocks(blocks[..|blocks| - 1]) + (if blocks[|blocks| - 1].isCall then 1 else 0)
  }

  lemma CallTargetsStep(blocks: seq<Block>, i: nat)
    requires i < |blocks|
    ensures CallTargets(blocks[..i + 1]) == CallTargets(blocks[..i]) + (if blocks[i].isCall then {blocks[i].target} else {})
  {
    assert blocks[..i + 1] == blocks[..i] + [blocks[i]];
  }

  lemma WrapAdd(a: nat, x: nat)
    ensures (a % Word + x) % Word == (a + x) % Word
  {
  }

  /** `GatherStatistics`: the list sizes, the instruction total (a `size_t`
      accumulator, so it wraps at 2^64) and the number of distinct call
      targets. */
  method GatherStatistics(strings: seq<StringFinding>, iocs: seq<IocFinding>, calls: seq<CallFinding>, blocks: seq<Block>)
    returns (st: Stats)
    ensures st.totalStrings == |strings| && st.totalIOCs == |iocs|
    ensures st.totalCalls == |calls| && st.totalBlocks == |blocks|
    ensures st.totalInstructions == InstrSum(blocks) % Word
    ensures st.totalFunctions == |CallTargets(blocks)|
  {
    var uniqueFunctions: set<nat> := {};
    var totalInstructions := 0;
    for i := 0 to |blocks|
      invariant totalInstructions == InstrSum(blocks[..i]) % Word
      invariant uniqueFunctions == CallTargets(blocks[..i])
    {
      assert blocks[..i + 1][..i] == blocks[..i];
      WrapAdd(InstrSum(blocks[..i]), blocks[i].instrCount);
      totalInstructions := (totalInstructions + blocks[i].instrCount) % Word;
      CallTargetsStep(blocks, i);
      if blocks[i].isCall {
        uniqueFunctions := uniqueFunctions + {blocks[i].target};
      }
    }
    assert blocks[..|blocks|] == blocks;
    st := Stats(|strings|, |iocs|, |calls|, |blocks|, totalInstructions, |uniqueFunctions|);
  }

  /** There are never more distinct functions than call-flagged blocks, nor
      more of those than blocks. */
  lemma {:induction false} FunctionsBounded(blocks: seq<Block>)
    ensures |CallTargets(blocks)| <= CallBlocks(blocks) <= |blocks|
    decreases |blocks|
  {
    if blocks != [] {
      var n := |blocks| - 1;
      FunctionsBounded(blocks[..n]);
      CallTargetsStep(blocks, n);
      assert blocks[..n + 1] == blocks;
    }
  }
}
