/** The byte-pattern language of the trace memory search: hex digits and
    `?` wildcards, one nibble per character, whitespace ignored, parsed into
    parallel data and mask bytes; and the short form of a pattern shown in
    the search's title. */
module MemPattern {
  import opened Text

  /** The trace search's inclusive range test. */
  predicate InRange(value: nat, start: nat, end: nat) {
    value >= start && value <= end
  }

  /** Both ends belong to a non-empty range; an inverted range is empty. */
  lemma InRangeInclusive(value: nat, start: nat, end: nat)
    ensures start <= end ==> InRange(start, start, end) && InRange(end, start, end)
    ensures start > end ==> !InRange(value, start, end)
    ensures InRange(value, start, end) <==> start <= value && !(value > end)
  {
  }

  /** The value of a hex digit (either case). */
  function HexValue(c: char): (r: Option<bv8>)
    ensures r.Some? ==> r.value < 16
  {
    if '0' <= c <= '9' then Some((c as int - '0' as int) as bv8)
    else if 'A' <= c <= 'F' then Some((c as int - 'A' as int + 10) as bv8)
    else if 'a' <= c <= 'f' then Some((c as int - 'a' as int + 10) as bv8)
    else None
  }

  /** A character that stands for one nibble. */
  predicate IsNibble(c: char) {
    c == '?' || HexValue(c).Some?
  }

  /** The pattern's nibble characters, in order: everything but whitespace. */
  function NibbleChars(p: string): (r: seq<char>)
    ensures |r| <= |p|
  {
    if |p| == 0 then []
    else NibbleChars(p[..|p| - 1]) + (if IsSpace(p[|p| - 1]) then [] else [p[|p| - 1]])
  }

  /** A pattern parses when every character is whitespace or a nibble. */
  predicate Parses(p: string) {
    forall k :: 0 <= k < |p| ==> IsSpace(p[k]) || IsNibble(p[k])
  }

  function NibData(c: char): bv8
    requires IsNibble(c)
  {
    if c == '?' then 0 else HexValue(c).value
  }

  function NibMask(c: char): bv8 {
    if c == '?' then 0 else 0xF
  }

  /** Byte `i` of a nibble string: nibble 2i is its high half, nibble 2i+1
      (when there is one) its low half. */
  function DataAt(ns: seq<char>, i: nat): bv8
    requires 2 * i < |ns| && forall k :: 0 <= k < |ns| ==> IsNibble(ns[k])
  {
    (NibData(ns[2 * i]) << 4) | (if 2 * i + 1 < |ns| then NibData(ns[2 * i + 1]) else 0)
  }

  function MaskAt(ns: seq<char>, i: nat): bv8
    requires 2 * i < |ns|
  {
    (NibMask(ns[2 * i]) << 4) | (if 2 * i + 1 < |ns| then NibMask(ns[2 * i + 1]) else 0)
  }

  /** Parallel data and mask bytes. */
  datatype Pattern = Pattern(data: seq<bv8>, mask: seq<bv8>)

  lemma NibbleCharsAreNibbles(p: string)
    requires Parses(p)
    ensures forall k :: 0 <= k < |NibbleChars(p)| ==> IsNibble(NibbleChars(p)[k])
  {
    if |p| > 0 {
      assert Parses(p[..|p| - 1]);
      NibbleCharsAreNibbles(p[..|p| - 1]);
    }
  }

  /** What a pattern means: one byte per two nibbles, the last one
      half-filled when the count is odd. */
  function Expected(p: string): (r: Pattern)
    requires Parses(p)
    ensures |r.data| == |r.mask| == (|NibbleChars(p)| + 1) / 2
  {
    var ns := NibbleChars(p);
    NibbleCharsAreNibbles(p);
    Pattern(seq((|ns| + 1) / 2, i requires 0 <= i < (|ns| + 1) / 2 => DataAt(ns, i)),
            seq((|ns| + 1) / 2, i requires 0 <= i < (|ns| + 1) / 2 => MaskAt(ns, i)))
  }

  lemma NibbleCharsStep(p: string, i: nat)
    requires i < |p|
    ensures NibbleChars(p[..i + 1]) == NibbleChars(p[..i]) + (if IsSpace(p[i]) then [] else [p[i]])
  {
    assert p[..i + 1][..i] == p[..i];
  }

  /** The bytes built so far agree with the nibbles read so far. */
  predicate ByteInv(ns: seq<char>, data: seq<bv8>, mask: seq<bv8>) {
    (forall k :: 0 <= k < |ns| ==> IsNibble(ns[k])) &&
    |data| == |mask| == (|ns| + 1) / 2 &&
    forall j :: 0 <= j < |data| ==> data[j] == DataAt(ns, j) && mask[j] == MaskAt(ns, j)
  }

  /** The parsing loop of TraceFileSearchMemPattern: a character above 0x80
      or any other character that is neither whitespace nor a nibble fails
      the parse; a high nibble pushes a new byte, a low nibble is ORed into
      the last one. */
  method ParsePattern(p: string) returns (r: Option<Pattern>)
    ensures r.Some? <==> Parses(p)
    ensures r.Some? ==> r.value == Expected(p)
  {
    var data: seq<bv8> := [];
    var mask: seq<bv8> := [];
    var high := true;
    ghost var ns: seq<char> := [];
    for i := 0 to |p|
      invariant Parses(p[..i]) && ns == NibbleChars(p[..i])
      invariant ByteInv(ns, data, mask) && high == (|ns| % 2 == 0)
    {
      var c := p[i];
      NibbleCharsStep(p, i);
      ParsesStep(p, i);
      if c as int > 0x80 {
        return None;
      }
      if IsSpace(c) {
        continue;
      }
      if !IsNibble(c) {
        return None;
      }
      data, mask := PushNibble(ns, data, mask, high, c);
      ParityFlips(ns, c, high);
      ns := ns + [c];
      high := !high;
    }
    assert p[..|p|] == p;
    ByteInvIsExpected(p, data, mask);
    r := Some(Pattern(data, mask));
  }

  lemma ParsesStep(p: string, i: nat)
    requires i < |p| && Parses(p[..i])
    ensures Parses(p[..i + 1]) <==> IsSpace(p[i]) || IsNibble(p[i])
    ensures !(IsSpace(p[i]) || IsNibble(p[i])) ==> !Parses(p)
    ensures p[i] as int > 0x80 ==> !Parses(p)
  {
    assert p[..i + 1][i] == p[i];
    assert forall k :: 0 <= k < i ==> p[..i + 1][k] == p[..i][k];
  }

  lemma ParityFlips(ns: seq<char>, c: char, high: bool)
    requires high == (|ns| % 2 == 0)
    ensures !high == (|ns + [c]| % 2 == 0)
  {
  }

  /** One nibble character: a high one starts a byte, a low one completes it. */
  method PushNibble(ghost ns: seq<char>, data: seq<bv8>, mask: seq<bv8>, high: bool, c: char)
    returns (data': seq<bv8>, mask': seq<bv8>)
    requires ByteInv(ns, data, mask) && high == (|ns| % 2 == 0) && IsNibble(c)
    ensures ByteInv(ns + [c], data', mask')
  {
    if high {
      var d: bv8 := if c == '?' then 0 else HexValue(c).value << 4;
      var m: bv8 := if c == '?' then 0 else 0xF0;
      data', mask' := data + [d], mask + [m];
      HighStep(ns, c, data', mask');
    } else {
      var last := |data| - 1;
      data', mask' := data, mask;
      if c != '?' {
        data' := data[last := data[last] | HexValue(c).value];
        mask' := mask[last := mask[last] | 0xF];
      }
      LowStep(ns, c, data', mask');
    }
  }

  lemma ByteInvIsExpected(p: string, data: seq<bv8>, mask: seq<bv8>)
    requires Parses(p) && ByteInv(NibbleChars(p), data, mask)
    ensures Pattern(data, mask) == Expected(p)
  {
    var r := Expected(p);
    assert forall j :: 0 <= j < |data| ==> r.data[j] == data[j] && r.mask[j] == mask[j];
  }

  lemma HighStep(ns: seq<char>, c: char, data: seq<bv8>, mask: seq<bv8>)
    requires |ns| % 2 == 0 && IsNibble(c) && |data| == |mask| == |ns| / 2 + 1
    requires forall k :: 0 <= k < |ns| ==> IsNibble(ns[k])
    requires forall j :: 0 <= j < |data| - 1 ==> data[j] == DataAt(ns, j) && mask[j] == MaskAt(ns, j)
    requires data[|data| - 1] == (if c == '?' then 0 else HexValue(c).value << 4)
    requires mask[|mask| - 1] == (if c == '?' then 0 else 0xF0)
    ensures forall k :: 0 <= k < |ns + [c]| ==> IsNibble((ns + [c])[k])
    ensures forall j :: 0 <= j < |data| ==> data[j] == DataAt(ns + [c], j) && mask[j] == MaskAt(ns + [c], j)
  {
    var ns' := ns + [c];
    forall j | 0 <= j < |data| ensures data[j] == DataAt(ns', j) && mask[j] == MaskAt(ns', j) {
      if j < |data| - 1 {
        assert ns'[2 * j] == ns[2 * j] && ns'[2 * j + 1] == ns[2 * j + 1];
      } else {
        assert ns'[2 * j] == c && 2 * j + 1 == |ns'|;
      }
    }
  }

  lemma LowStep(ns: seq<char>, c: char, data: seq<bv8>, mask: seq<bv8>)
    requires |ns| % 2 == 1 && IsNibble(c) && |data| == |mask| == (|ns| + 1) / 2
    requires forall k :: 0 <= k < |ns| ==> IsNibble(ns[k])
    requires forall j :: 0 <= j < |data| - 1 ==> data[j] == DataAt(ns, j) && mask[j] == MaskAt(ns, j)
    requires data[|data| - 1] == DataAt(ns, |data| - 1) | (if c == '?' then 0 else HexValue(c).value)
    requires mask[|mask| - 1] == MaskAt(ns, |mask| - 1) | (if c == '?' then 0 else 0xF)
    ensures forall k :: 0 <= k < |ns + [c]| ==> IsNibble((ns + [c])[k])
    ensures forall j :: 0 <= j < |data| ==> data[j] == DataAt(ns + [c], j) && mask[j] == MaskAt(ns + [c], j)
  {
    var ns' := ns + [c];
    forall j | 0 <= j < |data| ensures data[j] == DataAt(ns', j) && mask[j] == MaskAt(ns', j) {
      if j < |data| - 1 {
        assert ns'[2 * j] == ns[2 * j] && ns'[2 * j + 1] == ns[2 * j + 1];
      } else {
        assert ns'[2 * j] == ns[2 * j] && ns'[2 * j + 1] == c;
      }
    }
  }

  /** The two nibbles of a mask byte are each all-or-nothing, and the data
      byte is zero wherever the mask is: every parsed pattern is so. */
  predicate Canonical(pat: Pattern) {
    |pat.data| == |pat.mask| &&
    forall i :: 0 <= i < |pat.data| ==>
      (pat.mask[i] & 0xF0 == 0 || pat.mask[i] & 0xF0 == 0xF0) &&
      (pat.mask[i] & 0x0F == 0 || pat.mask[i] & 0x0F == 0x0F) &&
      pat.data[i] & pat.mask[i] == pat.data[i]
  }

  lemma ExpectedCanonical(p: string)
    requires Parses(p)
    ensures Canonical(Expected(p))
  {
    var ns := NibbleChars(p);
    NibbleCharsAreNibbles(p);
    var r := Expected(p);
    forall i | 0 <= i < |r.data|
      ensures (r.mask[i] & 0xF0 == 0 || r.mask[i] & 0xF0 == 0xF0) &&
              (r.mask[i] & 0x0F == 0 || r.mask[i] & 0x0F == 0x0F) &&
              r.data[i] & r.mask[i] == r.data[i]
    {
      assert r.data[i] == DataAt(ns, i) && r.mask[i] == MaskAt(ns, i);
      ByteCanonical(ns, i);
    }
  }

  lemma ByteCanonical(ns: seq<char>, i: nat)
    requires 2 * i < |ns| && forall k :: 0 <= k < |ns| ==> IsNibble(ns[k])
    ensures var d := DataAt(ns, i); var m := MaskAt(ns, i);
      (m & 0xF0 == 0 || m & 0xF0 == 0xF0) && (m & 0x0F == 0 || m & 0x0F == 0x0F) && d & m == d
  {
    var lo := if 2 * i + 1 < |ns| then ns[2 * i + 1] else '?';
    NibbleBits(ns[2 * i], lo);
    assert 2 * i + 1 < |ns| ==> lo == ns[2 * i + 1];
  }

  lemma NibbleBits(hi: char, lo: char)
    requires IsNibble(hi) && IsNibble(lo)
    ensures var d := (NibData(hi) << 4) | NibData(lo); var m := (NibMask(hi) << 4) | NibMask(lo);
      (m & 0xF0 == 0 || m & 0xF0 == 0xF0) && (m & 0x0F == 0 || m & 0x0F == 0x0F) && d & m == d
  {
  }

  /** Upper-case hex digit of a nibble (ToByteString prints two of them). */
  function HexDigit(n: bv8): (c: char)
    requires n < 16
    ensures HexValue(c) == Some(n)
  {
    "0123456789ABCDEF"[n as int]
  }

  /** One byte of the short form: each nibble as a hex digit, or `?` where
      the mask nibble is clear. */
  function ShortByte(d: bv8, m: bv8): string {
    [if m & 0xF0 == 0 then '?' else HexDigit(d >> 4),
     if m & 0x0F == 0 then '?' else HexDigit(d & 0x0F)]
  }

  /** The shown bytes of a pattern, at most the first `n`. */
  function ShortBytes(pat: Pattern, n: nat): (r: string)
    requires n <= |pat.data| && n <= |pat.mask|
    ensures |r| == 2 * n
  {
    if n == 0 then [] else ShortBytes(pat, n - 1) + ShortByte(pat.data[n - 1], pat.mask[n - 1])
  }

  /** The title's pattern text: at most 16 bytes, then `...` if there were
      more. */
  function PatternShort(pat: Pattern): (r: string)
    requires |pat.data| == |pat.mask|
  {
    var n := if |pat.data| > 16 then 16 else |pat.data|;
    ShortBytes(pat, n) + (if |pat.data| > 16 then "..." else "")
  }

  /** The reference view's title. */
  function PatternTitle(pat: Pattern): string
    requires |pat.data| == |pat.mask|
  {
    "Pattern: " + PatternShort(pat)
  }

  lemma {:induction false} ShortBytesAt(pat: Pattern, n: nat, i: nat)
    requires n <= |pat.data| && n <= |pat.mask| && i < n
    ensures ShortBytes(pat, n)[2 * i] == ShortByte(pat.data[i], pat.mask[i])[0]
    ensures ShortBytes(pat, n)[2 * i + 1] == ShortByte(pat.data[i], pat.mask[i])[1]
  {
    if i < n - 1 {
      ShortBytesAt(pat, n - 1, i);
    }
  }

  /** The title shows two characters per byte for at most 16 bytes, a `?`
      exactly where a mask nibble is clear, and `...` exactly when bytes were
      left out. */
  lemma PatternShortShape(pat: Pattern)
    requires |pat.data| == |pat.mask|
    ensures var n := if |pat.data| > 16 then 16 else |pat.data|;
      var s := PatternShort(pat);
      |s| == 2 * n + (if |pat.data| > 16 then 3 else 0) &&
      (|pat.data| > 16 ==> s[32..] == "...") &&
      forall i :: 0 <= i < n ==>
        (s[2 * i] == '?' <==> pat.mask[i] & 0xF0 == 0) &&
        (s[2 * i + 1] == '?' <==> pat.mask[i] & 0x0F == 0)
  {
    var n := if |pat.data| > 16 then 16 else |pat.data|;
    forall i | 0 <= i < n
      ensures (PatternShort(pat)[2 * i] == '?' <==> pat.mask[i] & 0xF0 == 0) &&
              (PatternShort(pat)[2 * i + 1] == '?' <==> pat.mask[i] & 0x0F == 0)
    {
      ShortBytesAt(pat, n, i);
    }
  }

  lemma ShortByteBits(d: bv8, m: bv8)
    requires (m & 0xF0 == 0 || m & 0xF0 == 0xF0) && (m & 0x0F == 0 || m & 0x0F == 0x0F) && d & m == d
    ensures var s := ShortByte(d, m);
      IsNibble(s[0]) && IsNibble(s[1]) &&
      (NibData(s[0]) << 4) | NibData(s[1]) == d && (NibMask(s[0]) << 4) | NibMask(s[1]) == m
  {
  }

  /** A string of nibble characters is its own nibble string. */
  lemma {:induction false} NibblesOnly(s: string)
    requires forall k :: 0 <= k < |s| ==> IsNibble(s[k])
    ensures NibbleChars(s) == s && Parses(s)
  {
    if |s| > 0 {
      NibblesOnly(s[..|s| - 1]);
      assert s[..|s| - 1] + [s[|s| - 1]] == s;
    }
  }

  lemma ShortBytesAreNibbles(pat: Pattern, n: nat)
    requires n <= |pat.data| && n <= |pat.mask| && Canonical(pat)
    ensures forall k :: 0 <= k < |ShortBytes(pat, n)| ==> IsNibble(ShortBytes(pat, n)[k])
  {
    forall k | 0 <= k < 2 * n ensures IsNibble(ShortBytes(pat, n)[k]) {
      ShortBytesAt(pat, n, k / 2);
      ShortByteBits(pat.data[k / 2], pat.mask[k / 2]);
      assert k == 2 * (k / 2) || k == 2 * (k / 2) + 1;
    }
  }

  /** Parsing the bytes a title shows gives back those bytes of any parsed
      pattern: the short form loses nothing but the bytes after the 16th. */
  lemma ShortFormRoundTrip(pat: Pattern)
    requires Canonical(pat)
    ensures var n := if |pat.data| > 16 then 16 else |pat.data|;
      var s := PatternShort(pat)[..2 * n];
      Parses(s) && Expected(s) == Pattern(pat.data[..n], pat.mask[..n])
  {
    var n := if |pat.data| > 16 then 16 else |pat.data|;
    var s := ShortBytes(pat, n);
    assert PatternShort(pat)[..2 * n] == s;
    ShortBytesAreNibbles(pat, n);
    NibblesOnly(s);
    var r := Expected(s);
    assert |r.data| == n;
    forall i | 0 <= i < n ensures r.data[i] == pat.data[i] && r.mask[i] == pat.mask[i] {
      ShortByteDecodes(pat, n, i);
    }
    assert r.data == pat.data[..n];
    assert r.mask == pat.mask[..n];
  }

  lemma ShortByteDecodes(pat: Pattern, n: nat, i: nat)
    requires n <= |pat.data| && n <= |pat.mask| && Canonical(pat) && i < n
    requires forall k :: 0 <= k < |ShortBytes(pat, n)| ==> IsNibble(ShortBytes(pat, n)[k])
    ensures DataAt(ShortBytes(pat, n), i) == pat.data[i] && MaskAt(ShortBytes(pat, n), i) == pat.mask[i]
  {
    var s := ShortBytes(pat, n);
    var d, m := pat.data[i], pat.mask[i];
    var b := ShortByte(d, m);
    ShortBytesAt(pat, n, i);
    assert (m & 0xF0 == 0 || m & 0xF0 == 0xF0) && (m & 0x0F == 0 || m & 0x0F == 0x0F) && d & m == d;
    ShortByteBits(d, m);
    assert 2 * i + 1 < |s| && s[2 * i] == b[0] && s[2 * i + 1] == b[1];
    assert DataAt(s, i) == (NibData(b[0]) << 4) | NibData(b[1]);
    assert MaskAt(s, i) == (NibMask(b[0]) << 4) | NibMask(b[1]);
  }
}
