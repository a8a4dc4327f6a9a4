/** Character classes and small string helpers shared by the script engine and
    the analysis passes.  Characters follow the C locale: `IsSpace` is `isspace`
    and `IsPrint` is `isprint`; characters above 0x7F belong to neither class. */
module Text {

  datatype Option<+T> = None | Some(value: T)

  /** An operation that either yields a value or fails with an error. */
  datatype Result<+T, +E> = Ok(value: T) | Err(error: E)

  /** C `isspace` in the "C" locale: space, \t, \n, \v, \f, \r. */
  predicate IsSpace(c: char) {
    c == ' ' || ('\t' <= c <= '\r')
  }

  /** C `isprint` in the "C" locale: 0x20 ..= 0x7E. */
  predicate IsPrint(c: char) {
    ' ' <= c <= '~'
  }

  predicate StartsWith(s: string, prefix: string) {
    |prefix| <= |s| && s[..|prefix|] == prefix
  }

  /** `p` occurs in `s` starting at index `k`. */
  predicate OccursAt<T(==)>(s: seq<T>, p: seq<T>, k: nat) {
    k + |p| <= |s| && s[k..k + |p|] == p
  }

  /** Drops trailing whitespace. */
  function RTrim(s: string): (r: string)
    ensures |r| <= |s| && r == s[..|r|]
    ensures r == [] || !IsSpace(r[|r| - 1])
    ensures forall k :: |r| <= k < |s| ==> IsSpace(s[k])
  {
    if |s| == 0 || !IsSpace(s[|s| - 1]) then s else RTrim(s[..|s| - 1])
  }

  /** Drops leading whitespace. */
  function LTrim(s: string): (r: string)
    ensures |r| <= |s| && r == s[|s| - |r|..]
    ensures r == [] || !IsSpace(r[0])
    ensures forall k :: 0 <= k < |s| - |r| ==> IsSpace(s[k])
  {
    if |s| == 0 || !IsSpace(s[0]) then s else LTrim(s[1..])
  }

  /** `StringUtils::Trim` as used with no explicit character set: both ends
      lose the characters `IsSpace` accepts. The definition of `StringUtils`
      is not part of this model, so its default set is taken to be C's
      `isspace`. */
  function Trim(s: string): string {
    LTrim(RTrim(s))
  }

  /** Trim with an explicit set of characters to drop at both ends. */
  function TrimChars(s: string, drop: string): (r: string)
    ensures r == [] || (r[0] !in drop && r[|r| - 1] !in drop)
    ensures |r| <= |s|
    decreases |s|
  {
    if |s| == 0 then s
    else if s[0] in drop then TrimChars(s[1..], drop)
    else if s[|s| - 1] in drop then TrimChars(s[..|s| - 1], drop)
    else s
  }

  /** ASCII `tolower`. */
  function Lower(c: char): char {
    if 'A' <= c <= 'Z' then (c as int - 'A' as int + 'a' as int) as char else c
  }

  /** ASCII case-insensitive equality (`_stricmp(a, b) == 0`). */
  predicate EqualsIgnoreCase(a: string, b: string) {
    |a| == |b| && forall k :: 0 <= k < |a| ==> Lower(a[k]) == Lower(b[k])
  }

  /** Case folding fixes the space character and nothing else maps to it. */
  lemma LowerSpace(c: char)
    ensures Lower(c) == ' ' <==> c == ' '
  {
  }

  /** Index of the first occurrence of `c`, if any. */
  function IndexOf(s: string, c: char): (r: Option<nat>)
    ensures r.None? <==> c !in s
    ensures r.Some? ==> r.value < |s| && s[r.value] == c && c !in s[..r.value]
  {
    if |s| == 0 then None
    else if s[0] == c then Some(0)
    else match IndexOf(s[1..], c)
      case None => None
      case Some(k) => assert s[..k + 1] == [s[0]] + s[1..][..k]; Some(k + 1)
  }

  /** Decimal rendering of a natural number (`std::to_string`). */
  function DecimalString(n: nat): (r: string)
    ensures |r| >= 1
    ensures forall k :: 0 <= k < |r| ==> '0' <= r[k] <= '9'
    decreases n
  {
    var d := ['0' + (n % 10) as char];
    if n < 10 then d else DecimalString(n / 10) + d
  }
}
