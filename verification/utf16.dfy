/** UTF-16 code units as Qt's `QChar` holds them, and the units the
    release-notes fixups insert or look for. */
module Utf16 {

  /** One UTF-16 code unit (`QChar::unicode()`). */
  newtype Unit = x: int | 0 <= x < 0x1_0000

  /** ZERO WIDTH SPACE, the unit both fixups insert. */
  const Zwsp: Unit := 0x200B

  /** `QChar::isHighSurrogate`. */
  predicate IsHigh(u: Unit) {
    0xD800 <= u <= 0xDBFF
  }

  predicate IsAscii(u: Unit) {
    u < 0x80
  }

  predicate AllAscii(s: seq<Unit>) {
    forall k :: 0 <= k < |s| ==> IsAscii(s[k])
  }

  /** The code units of a string whose characters are all in the Basic
      Multilingual Plane. */
  function Units(s: string): (r: seq<Unit>)
    requires forall k :: 0 <= k < |s| ==> s[k] as int < 0x1_0000
    ensures |r| == |s|
    ensures forall k :: 0 <= k < |s| ==> r[k] as int == s[k] as int
    ensures (forall k :: 0 <= k < |s| ==> s[k] < 0x80 as char) ==>
      AllAscii(r) && forall k :: 0 <= k < |r| ==> !IsHigh(r[k])
  {
    seq(|s|, i requires 0 <= i < |s| => s[i] as int as Unit)
  }
}
