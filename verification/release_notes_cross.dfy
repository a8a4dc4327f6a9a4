/** `fixupHtmlEmojiBug` of the cross-platform release-notes viewer
    (src/cross/release_notes/ReleaseNotesDialog.cpp): a zero-width space goes
    in front of every high surrogate except one in the last position. */
module ReleaseNotesCross {
  import opened Utf16

  /** The units emitted for `u`; `more` says whether a unit follows it. */
  function Emit(u: Unit, more: bool): seq<Unit> {
    if IsHigh(u) && more then [Zwsp, u] else [u]
  }

  /** Number of high surrogates that are not the last unit. */
  function Prefixed(html: seq<Unit>): nat {
    if |html| <= 1 then 0 else (if IsHigh(html[0]) then 1 else 0) + Prefixed(html[1..])
  }

  /** The fixup, one input unit at a time. */
  function Fixup(html: seq<Unit>): (r: seq<Unit>)
    ensures |r| == |html| + Prefixed(html)
    ensures html != [] ==> r != [] && r[|r| - 1] == html[|html| - 1]
  {
    if html == [] then [] else Emit(html[0], |html| > 1) + Fixup(html[1..])
  }

  /** Every high surrogate prefixed, with no special case for the last unit. */
  function PrefixAll(s: seq<Unit>): seq<Unit> {
    if s == [] then [] else Emit(s[0], true) + PrefixAll(s[1..])
  }

  /** The fixup is "prefix every high surrogate" on all units but the last,
      which is copied as it is. */
  lemma {:induction false} FixupAllButLast(html: seq<Unit>)
    requires html != []
    ensures Fixup(html) == PrefixAll(html[..|html| - 1]) + [html[|html| - 1]]
    decreases |html|
  {
    var n := |html| - 1;
    if n > 0 {
      FixupAllButLast(html[1..]);
      assert html[1..][..n - 1] == html[..n][1..];
      assert html[1..][n - 1] == html[n];
    }
  }

  /** Removes a zero-width space that stands before a high surrogate which
      is not the final unit: exactly the spaces the fixup inserts. */
  function Unfix(r: seq<Unit>): seq<Unit> {
    if r == [] then []
    else if r[0] == Zwsp && |r| >= 3 && IsHigh(r[1]) then Unfix(r[1..])
    else [r[0]] + Unfix(r[1..])
  }

  lemma FixupHead(html: seq<Unit>)
    requires html != []
    ensures IsHigh(Fixup(html)[0]) ==> |html| == 1
  {
  }

  lemma UnfixInserted(h: Unit, rest: seq<Unit>)
    requires IsHigh(h) && rest != []
    ensures Unfix([Zwsp, h] + rest) == [h] + Unfix(rest)
  {
    assert ([Zwsp, h] + rest)[1..] == [h] + rest;
    assert ([h] + rest)[1..] == rest;
  }

  lemma UnfixCopied(u: Unit, rest: seq<Unit>)
    requires !(u == Zwsp && |rest| >= 2 && IsHigh(rest[0]))
    ensures Unfix([u] + rest) == [u] + Unfix(rest)
  {
    assert ([u] + rest)[1..] == rest;
  }

  /** Every input unit is in the output, in order: removing the inserted
      spaces gives the input back. */
  lemma {:induction false} FixupRoundTrip(html: seq<Unit>)
    ensures Unfix(Fixup(html)) == html
    decreases |html|
  {
    if html != [] {
      var rest := Fixup(html[1..]);
      FixupRoundTrip(html[1..]);
      if IsHigh(html[0]) && |html| > 1 {
        UnfixInserted(html[0], rest);
      } else {
        if html[1..] != [] {
          FixupHead(html[1..]);
        }
        UnfixCopied(html[0], rest);
      }
      assert html == [html[0]] + html[1..];
    }
  }

  /** Without a high surrogate before the last position the text is unchanged. */
  lemma {:induction false} NoSurrogateUnchanged(html: seq<Unit>)
    requires forall k :: 0 <= k < |html| - 1 ==> !IsHigh(html[k])
    ensures Fixup(html) == html
    decreases |html|
  {
    if html != [] {
      NoSurrogateUnchanged(html[1..]);
    }
  }
}
