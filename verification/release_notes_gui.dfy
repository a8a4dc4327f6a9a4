/** `fixupHtmlEmojiBug` of the Qt debugger front end
    (src/gui/Src/Gui/ReleaseNotesDialog.cpp).  On Windows a table of emoji
    is first wrapped in `<span class="emoji">`; then a zero-width space is
    put in front of each high surrogate the outer scan reaches, and the run
    that follows is copied up to and including the next ASCII unit. */
module ReleaseNotesGui {
  import opened Text
  import opened Utf16
  import ReleaseNotesCross

  // ---------------------------------------------------------------------
  // Emoji wrapping (Windows only)
  // ---------------------------------------------------------------------

  /** A code point above the ASCII range. */
  type EmojiPoint = x: int | 0x80 <= x < 0x11_0000 witness 0x80

  /** The `badEmojis` table: the code point each UTF-8 source literal
      decodes to (every literal is one code point), in table order. */
  const BadEmojis: seq<EmojiPoint> := [
    0x263A, 0x2639, 0x2620, 0x2763, 0x2764, 0x1F5E8, 0x270C, 0x261D,
    0x270D, 0x2668, 0x2708, 0x2600, 0x2601, 0x2744, 0x2604, 0x2660,
    0x2665, 0x2666, 0x2663, 0x265F, 0x270F, 0x2712, 0x2702, 0x2622,
    0x2623, 0x2197, 0x27A1, 0x2198, 0x2199, 0x2196, 0x2195, 0x2194,
    0x21A9, 0x21AA, 0x2934, 0x2935, 0x2721, 0x2638, 0x262F, 0x271D,
    0x2626, 0x262A, 0x262E, 0x2648, 0x2649, 0x264A, 0x264B, 0x264C,
    0x264D, 0x264E, 0x264F, 0x2650, 0x2651, 0x2652, 0x2653, 0x25B6,
    0x25C0, 0x2640, 0x2642, 0x26A7, 0x2716, 0x203C, 0x2049, 0x3030,
    0x2611, 0x2714, 0x303D, 0x2733, 0x2734, 0x2747, 0x2122, 0x24C2,
    0x1F201, 0x1F202, 0x1F237, 0x1F236, 0x1F22F, 0x1F250, 0x1F239, 0x1F21A,
    0x1F232, 0x1F251, 0x1F238, 0x1F234, 0x1F233, 0x3297, 0x3299, 0x1F23A,
    0x1F235, 0x25FC, 0x2602, 0x2709, 0x25AB, 0x25AA, 0x25FD, 0x25FE
  ]

  /** UTF-16 encoding of one code point, as `QString::fromUtf8` produces it. */
  function Encode(cp: EmojiPoint): (r: seq<Unit>)
    ensures 1 <= |r| <= 2 && !IsAscii(r[0])
    ensures |r| == 2 <==> cp >= 0x1_0000
    ensures |r| == 2 ==> IsHigh(r[0]) && 0xDC00 <= r[1] <= 0xDFFF
    ensures |r| == 2 ==> cp == 0x1_0000 + (r[0] as int - 0xD800) * 0x400 + (r[1] as int - 0xDC00)
  {
    if cp < 0x1_0000 then [cp as Unit]
    else [(0xD800 + (cp - 0x1_0000) / 0x400) as Unit, (0xDC00 + (cp - 0x1_0000) % 0x400) as Unit]
  }

  const SpanOpen: string := "<span class=\"emoji\">"
  const SpanClose: string := "</span>"

  /** `BadEmoji::replacement`: the emoji inside an `emoji` span. */
  function Replacement(emoji: seq<Unit>): seq<Unit> {
    Units(SpanOpen) + emoji + Units(SpanClose)
  }

  /** `QString::replace(before, after)`: every occurrence of `before`,
      scanning left to right without overlap, becomes `after`. */
  function ReplaceAll(s: seq<Unit>, before: seq<Unit>, after: seq<Unit>): (r: seq<Unit>)
    requires before != []
    ensures (forall k :: !OccursAt(s, before, k)) ==> r == s
    decreases |s|
  {
    if |s| < |before| then s
    else if s[..|before|] == before then
      assert OccursAt(s, before, 0);
      after + ReplaceAll(s[|before|..], before, after)
    else
      NoneInTail(s, before);
      [s[0]] + ReplaceAll(s[1..], before, after)
  }

  lemma NoneInTail(s: seq<Unit>, p: seq<Unit>)
    requires s != []
    ensures (forall k :: !OccursAt(s, p, k)) ==> forall k :: !OccursAt(s[1..], p, k)
  {
    forall k: nat | OccursAt(s[1..], p, k)
      ensures OccursAt(s, p, k + 1)
    {
      ShiftOccurrence(s, p, k);
    }
  }

  /** An occurrence in the tail is an occurrence one place later in `s`. */
  lemma ShiftOccurrence(s: seq<Unit>, p: seq<Unit>, k: nat)
    requires s != []
    ensures OccursAt(s[1..], p, k) <==> OccursAt(s, p, k + 1)
  {
    if k + |p| <= |s[1..]| {
      assert s[1..][k..k + |p|] == s[k + 1..k + 1 + |p|];
    }
  }

  /** The wrapping loop: each table entry in turn, applied to the result of
      the previous one. */
  function WrapEmojis(html: seq<Unit>, from: nat): seq<Unit>
    requires from <= |BadEmojis|
    decreases |BadEmojis| - from
  {
    if from == |BadEmojis| then html
    else
      var emoji := Encode(BadEmojis[from]);
      WrapEmojis(ReplaceAll(html, emoji, Replacement(emoji)), from + 1)
  }

  // ---------------------------------------------------------------------
  // Surrogate runs
  // ---------------------------------------------------------------------

  /** How many units the inner loop copies from the start of `s`: up to and
      including the first ASCII unit, or all of `s`. */
  function RunLength(s: seq<Unit>): (n: nat)
    ensures n <= |s| && (s != [] ==> n >= 1)
    ensures forall j :: 0 <= j < n - 1 ==> !IsAscii(s[j])
    ensures n < |s| ==> IsAscii(s[n - 1])
  {
    if s == [] then 0 else if IsAscii(s[0]) then 1 else 1 + RunLength(s[1..])
  }

  /** The surrogate loop of the fixup. */
  function SurrogatePass(html: seq<Unit>): (r: seq<Unit>)
    ensures |r| >= |html|
    decreases |html|
  {
    if html == [] then []
    else if IsHigh(html[0]) then
      var n := RunLength(html);
      [Zwsp] + html[..n] + SurrogatePass(html[n..])
    else [html[0]] + SurrogatePass(html[1..])
  }

  /** Removes the zero-width space the surrogate loop puts before each run,
      skipping over the run itself as the loop does. */
  function Unfix(r: seq<Unit>): seq<Unit>
    decreases |r|
  {
    if r == [] then []
    else if r[0] == Zwsp && |r| > 1 && IsHigh(r[1]) then
      var n := RunLength(r[1..]);
      r[1..1 + n] + Unfix(r[1 + n..])
    else [r[0]] + Unfix(r[1..])
  }

  /** A run followed by more output is still measured as the same run. */
  lemma {:induction false} RunLengthPrefix(p: seq<Unit>, x: seq<Unit>)
    requires p != [] && (IsAscii(p[|p| - 1]) || x == [])
    requires forall j :: 0 <= j < |p| - 1 ==> !IsAscii(p[j])
    ensures RunLength(p + x) == |p|
    decreases |p|
  {
    if |p| > 1 {
      assert (p + x)[1..] == p[1..] + x;
      RunLengthPrefix(p[1..], x);
    } else if x == [] {
      assert p + x == p;
    }
  }

  /** The output never starts with a high surrogate. */
  lemma OutputHead(html: seq<Unit>)
    requires html != []
    ensures !IsHigh(SurrogatePass(html)[0])
  {
  }

  lemma UnfixInserted(p: seq<Unit>, x: seq<Unit>)
    requires p != [] && IsHigh(p[0]) && RunLength(p + x) == |p|
    ensures Unfix([Zwsp] + p + x) == p + Unfix(x)
  {
    var r := [Zwsp] + p + x;
    assert r[1..] == p + x;
    assert r[1..1 + |p|] == p;
    assert r[1 + |p|..] == x;
  }

  lemma UnfixCopied(u: Unit, x: seq<Unit>)
    requires !(u == Zwsp && x != [] && IsHigh(x[0]))
    ensures Unfix([u] + x) == [u] + Unfix(x)
  {
    assert ([u] + x)[1..] == x;
  }

  /** The inner loop, run again over the output, stops where it stopped
      over the input. */
  lemma RunMeasuredAgain(html: seq<Unit>)
    requires html != []
    ensures RunLength(html[..RunLength(html)] + SurrogatePass(html[RunLength(html)..])) == RunLength(html)
  {
    var n := RunLength(html);
    if n == |html| {
      assert html[n..] == [];
    } else {
      assert html[..n][n - 1] == html[n - 1];
    }
    RunLengthPrefix(html[..n], SurrogatePass(html[n..]));
  }

  lemma RoundTripRun(html: seq<Unit>)
    requires html != [] && IsHigh(html[0])
    requires Unfix(SurrogatePass(html[RunLength(html)..])) == html[RunLength(html)..]
    ensures Unfix(SurrogatePass(html)) == html
  {
    var n := RunLength(html);
    var rest := SurrogatePass(html[n..]);
    RunMeasuredAgain(html);
    UnfixInserted(html[..n], rest);
    assert SurrogatePass(html) == [Zwsp] + html[..n] + rest;
    assert html[..n] + html[n..] == html;
  }

  lemma RoundTripCopy(html: seq<Unit>)
    requires html != [] && !IsHigh(html[0])
    requires Unfix(SurrogatePass(html[1..])) == html[1..]
    ensures Unfix(SurrogatePass(html)) == html
  {
    var rest := SurrogatePass(html[1..]);
    if html[1..] != [] {
      OutputHead(html[1..]);
    }
    UnfixCopied(html[0], rest);
    assert html == [html[0]] + html[1..];
  }

  /** Every input unit is copied, in order: removing the inserted spaces
      gives the input back. */
  lemma {:induction false} SurrogatePassRoundTrip(html: seq<Unit>)
    ensures Unfix(SurrogatePass(html)) == html
    decreases |html|
  {
    if html != [] {
      if IsHigh(html[0]) {
        SurrogatePassRoundTrip(html[RunLength(html)..]);
        RoundTripRun(html);
      } else {
        SurrogatePassRoundTrip(html[1..]);
        RoundTripCopy(html);
      }
    }
  }

  /** A run of non-ASCII units that starts with a high surrogate gets one
      zero-width space in front and none inside, however many surrogate
      pairs it holds. */
  lemma OneSpacePerRun(html: seq<Unit>)
    requires html != [] && IsHigh(html[0])
    requires forall k :: 0 <= k < |html| ==> !IsAscii(html[k])
    ensures SurrogatePass(html) == [Zwsp] + html
  {
    RunLengthPrefix(html, []);
    assert html + [] == html;
    assert html[..|html|] == html && html[|html|..] == [];
  }

  /** ASCII-only text passes through the surrogate loop unchanged. */
  lemma {:induction false} AsciiPassesSurrogateLoop(html: seq<Unit>)
    requires AllAscii(html)
    ensures SurrogatePass(html) == html
    decreases |html|
  {
    if html != [] {
      AsciiPassesSurrogateLoop(html[1..]);
    }
  }

  lemma ReplaceAtStart(before: seq<Unit>, after: seq<Unit>, b: seq<Unit>)
    requires before != []
    ensures ReplaceAll(before + b, before, after) == after + ReplaceAll(b, before, after)
  {
    var s := before + b;
    assert s[..|before|] == before;
    assert s[|before|..] == b;
  }

  lemma ReplaceSkip(s: seq<Unit>, before: seq<Unit>, after: seq<Unit>)
    requires before != [] && |before| <= |s| && !OccursAt(s, before, 0)
    ensures ReplaceAll(s, before, after) == [s[0]] + ReplaceAll(s[1..], before, after)
  {
  }

  lemma LeftmostStep(a: seq<Unit>, before: seq<Unit>, after: seq<Unit>, b: seq<Unit>)
    requires before != [] && a != []
    requires !OccursAt(a + before + b, before, 0)
    requires ReplaceAll(a[1..] + before + b, before, after) == a[1..] + after + ReplaceAll(b, before, after)
    ensures ReplaceAll(a + before + b, before, after) == a + after + ReplaceAll(b, before, after)
  {
    var t := a[1..] + before + b;
    var rb := ReplaceAll(b, before, after);
    ConsSplit(a, before, b);
    ConsSkip(a[0], t, before, after);
    ConsSplit(a, after, rb);
  }

  /** `a + x + y` is `a[0]` in front of `a[1..] + x + y`. */
  lemma ConsSplit(a: seq<Unit>, x: seq<Unit>, y: seq<Unit>)
    requires a != []
    ensures a + x + y == [a[0]] + (a[1..] + x + y)
  {
    assert a == [a[0]] + a[1..];
  }

  lemma ConsSkip(u: Unit, t: seq<Unit>, before: seq<Unit>, after: seq<Unit>)
    requires before != [] && |before| <= |t| + 1 && !OccursAt([u] + t, before, 0)
    ensures ReplaceAll([u] + t, before, after) == [u] + ReplaceAll(t, before, after)
  {
    assert ([u] + t)[1..] == t;
    ReplaceSkip([u] + t, before, after);
  }

  lemma ShiftedNoOccurrence(a: seq<Unit>, before: seq<Unit>, b: seq<Unit>)
    requires a != []
    requires forall k: nat :: k < |a| ==> !OccursAt(a + before + b, before, k)
    ensures forall k: nat :: k < |a[1..]| ==> !OccursAt(a[1..] + before + b, before, k)
  {
    var s := a + before + b;
    assert s[1..] == a[1..] + before + b;
    forall k: nat | k < |a[1..]|
      ensures !OccursAt(a[1..] + before + b, before, k)
    {
      ShiftOccurrence(s, before, k);
    }
  }

  /** `ReplaceAll` rewrites the leftmost occurrence and carries on after it. */
  lemma {:induction false} ReplaceLeftmost(a: seq<Unit>, before: seq<Unit>, after: seq<Unit>, b: seq<Unit>)
    requires before != []
    requires forall k: nat :: k < |a| ==> !OccursAt(a + before + b, before, k)
    ensures ReplaceAll(a + before + b, before, after) == a + after + ReplaceAll(b, before, after)
    decreases |a|
  {
    if a == [] {
      assert a + before + b == before + b;
      ReplaceAtStart(before, after, b);
    } else {
      ShiftedNoOccurrence(a, before, b);
      ReplaceLeftmost(a[1..], before, after, b);
      LeftmostStep(a, before, after, b);
    }
  }

  /** ASCII-only text holds none of the table's emoji, so the wrapping
      loop leaves it unchanged. */
  lemma {:induction false} AsciiHasNoEmoji(html: seq<Unit>, from: nat)
    requires from <= |BadEmojis| && AllAscii(html)
    ensures WrapEmojis(html, from) == html
    decreases |BadEmojis| - from
  {
    if from < |BadEmojis| {
      var emoji := Encode(BadEmojis[from]);
      forall k: nat
        ensures !OccursAt(html, emoji, k)
      {
        if k + |emoji| <= |html| {
          assert html[k..k + |emoji|][0] == html[k];
        }
      }
      AsciiHasNoEmoji(html, from + 1);
    }
  }

  /** On ASCII-only text the whole fixup is the identity, on every platform. */
  lemma AsciiUnchanged(html: seq<Unit>, windows: bool)
    requires AllAscii(html)
    ensures Fixup(html, windows) == html
  {
    AsciiHasNoEmoji(html, 0);
    AsciiPassesSurrogateLoop(html);
  }

  /** The two fixups disagree on a final high surrogate: this one prefixes
      it, the cross-platform one does not. */
  lemma FinalSurrogateDiffers(h: Unit)
    requires IsHigh(h)
    ensures SurrogatePass([h]) == [Zwsp, h]
    ensures ReleaseNotesCross.Fixup([h]) == [h]
  {
  }

  /** The whole fixup; `windows` selects the emoji wrapping. */
  function Fixup(html: seq<Unit>, windows: bool): seq<Unit> {
    SurrogatePass(if windows then WrapEmojis(html, 0) else html)
  }
}
