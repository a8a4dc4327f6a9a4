/** Lexical layer of the script compiler: splitting script text into raw
    lines, branch mnemonic families, the built-in command token rule, trailing
    comment removal and the classification of a single line. */
module ScriptLines {
  import opened Text

  /** SCRIPTBRANCHTYPE: the eight branch kinds plus "not a branch". */
  datatype BranchType = NoBranch | Jmp | Jne | Je | Jb | Ja | Jbe | Jae | Call

  /** The mnemonics of each branch family, each followed by a space in the source. */
  function Mnemonics(t: BranchType): seq<string> {
    match t
    case NoBranch => []
    case Jmp => ["jmp", "goto"]
    case Jbe => ["jbe", "ifbe", "ifbeq", "jle", "ifle", "ifleq"]
    case Jae => ["jae", "ifae", "ifaeq", "jge", "ifge", "ifgeq"]
    case Jne => ["jne", "ifne", "ifneq", "jnz", "ifnz"]
    case Je => ["je", "ife", "ifeq", "jz", "ifz"]
    case Jb => ["jb", "ifb", "jl", "ifl"]
    case Ja => ["ja", "ifa", "jg", "ifg"]
    case Call => ["call"]
  }

  /** The order in which the source tests the families. */
  const FamilyOrder: seq<BranchType> := [Jmp, Jbe, Jae, Jne, Je, Jb, Ja, Call]

  /** Reverse lookup: the family a mnemonic belongs to (NoBranch for any other word). */
  function FamilyOf(m: string): BranchType {
    if m in ["jmp", "goto"] then Jmp
    else if m in ["jbe", "ifbe", "ifbeq", "jle", "ifle", "ifleq"] then Jbe
    else if m in ["jae", "ifae", "ifaeq", "jge", "ifge", "ifgeq"] then Jae
    else if m in ["jne", "ifne", "ifneq", "jnz", "ifnz"] then Jne
    else if m in ["je", "ife", "ifeq", "jz", "ifz"] then Je
    else if m in ["jb", "ifb", "jl", "ifl"] then Jb
    else if m in ["ja", "ifa", "jg", "ifg"] then Ja
    else if m == "call" then Call
    else NoBranch
  }

  /** Every mnemonic belongs to exactly the family that lists it. */
  lemma MnemonicFamily(t: BranchType, i: nat)
    requires i < |Mnemonics(t)|
    ensures FamilyOf(Mnemonics(t)[i]) == t
  {
    match t
    case Jmp => ListedInJmp(i);
    case Jbe => ListedInJbe(i);
    case Jae => ListedInJae(i);
    case Jne => ListedInJne(i);
    case Je => ListedInJe(i);
    case Jb => ListedInJb(i);
    case Ja => ListedInJa(i);
    case Call => ListedInCall(i);
  }

  lemma ListedInJmp(i: nat)
    requires i < |Mnemonics(Jmp)|
    ensures FamilyOf(Mnemonics(Jmp)[i]) == Jmp
  {
  }

  lemma ListedInJbe(i: nat)
    requires i < |Mnemonics(Jbe)|
    ensures FamilyOf(Mnemonics(Jbe)[i]) == Jbe
  {
  }

  lemma ListedInJae(i: nat)
    requires i < |Mnemonics(Jae)|
    ensures FamilyOf(Mnemonics(Jae)[i]) == Jae
  {
  }

  lemma ListedInJne(i: nat)
    requires i < |Mnemonics(Jne)|
    ensures FamilyOf(Mnemonics(Jne)[i]) == Jne
  {
  }

  lemma ListedInJe(i: nat)
    requires i < |Mnemonics(Je)|
    ensures FamilyOf(Mnemonics(Je)[i]) == Je
  {
  }

  lemma ListedInJb(i: nat)
    requires i < |Mnemonics(Jb)|
    ensures FamilyOf(Mnemonics(Jb)[i]) == Jb
  {
  }

  lemma ListedInJa(i: nat)
    requires i < |Mnemonics(Ja)|
    ensures FamilyOf(Mnemonics(Ja)[i]) == Ja
  {
  }

  lemma ListedInCall(i: nat)
    requires i < |Mnemonics(Call)|
    ensures FamilyOf(Mnemonics(Call)[i]) == Call
  {
  }


  /** A mnemonic is a non-empty word of lower-case letters. */
  lemma MnemonicLetters(t: BranchType, i: nat)
    requires i < |Mnemonics(t)|
    ensures |Mnemonics(t)[i]| > 0
    ensures forall k :: 0 <= k < |Mnemonics(t)[i]| ==> 'a' <= Mnemonics(t)[i][k] <= 'z'
  {
    match t
    case Jmp =>
    case Jbe =>
    case Jae =>
    case Jne =>
    case Je =>
    case Jb =>
    case Ja =>
    case Call =>
  }

  /** Every mnemonic names its family and holds no whitespace. */
  lemma MnemonicsWellFormed(t: BranchType, i: nat)
    requires i < |Mnemonics(t)|
    ensures FamilyOf(Mnemonics(t)[i]) == t
    ensures |Mnemonics(t)[i]| > 0 && ' ' !in Mnemonics(t)[i]
    ensures forall k :: 0 <= k < |Mnemonics(t)[i]| ==> !IsSpace(Mnemonics(t)[i][k])
  {
    MnemonicFamily(t, i);
    MnemonicLetters(t, i);
  }

  /** Text as the branch classifier sees it: trimmed, with a space appended
      when it contains none (so a bare `jmp` still classifies). */
  function BranchNormal(text: string): (n: string)
    ensures ' ' in n
  {
    var t := Trim(text);
    if ' ' in t then t else t + " "
  }

  /** Some mnemonic of `ms`, followed by a space, is a prefix of `n`. */
  predicate HasMnemonicPrefix(n: string, ms: seq<string>) {
    exists i :: 0 <= i < |ms| && StartsWith(n, ms[i] + " ")
  }

  function FirstFamily(n: string, families: seq<BranchType>): BranchType {
    if |families| == 0 then NoBranch
    else if HasMnemonicPrefix(n, Mnemonics(families[0])) then families[0]
    else FirstFamily(n, families[1..])
  }

  /** scriptGetBranchType. */
  function GetBranchType(text: string): BranchType {
    FirstFamily(BranchNormal(text), FamilyOrder)
  }

  /** Two space-free words that both prefix `n` followed by a space are equal. */
  lemma {:induction false} SpacedPrefixUnique(n: string, a: string, b: string)
    requires ' ' !in a && ' ' !in b
    requires StartsWith(n, a + " ") && StartsWith(n, b + " ")
    ensures a == b
  {
    var m := if |a| < |b| then |a| else |b|;
    assert n[m] == (a + " ")[m];
    assert n[m] == (b + " ")[m];
    assert |a| == |b|;
    assert forall k :: 0 <= k < |a| ==> a[k] == (a + " ")[k] == n[k] == (b + " ")[k] == b[k];
  }

  /** At most one family can match a normalised text. */
  lemma FamiliesDisjoint(n: string, s: BranchType, t: BranchType)
    requires HasMnemonicPrefix(n, Mnemonics(s)) && HasMnemonicPrefix(n, Mnemonics(t))
    ensures s == t
  {
    var i :| 0 <= i < |Mnemonics(s)| && StartsWith(n, Mnemonics(s)[i] + " ");
    var j :| 0 <= j < |Mnemonics(t)| && StartsWith(n, Mnemonics(t)[j] + " ");
    MnemonicsWellFormed(s, i);
    MnemonicsWellFormed(t, j);
    SpacedPrefixUnique(n, Mnemonics(s)[i], Mnemonics(t)[j]);
  }

  lemma {:induction false} FirstFamilyExact(n: string, families: seq<BranchType>, t: BranchType)
    requires t in families && NoBranch !in families
    requires HasMnemonicPrefix(n, Mnemonics(t))
    ensures FirstFamily(n, families) == t
  {
    if HasMnemonicPrefix(n, Mnemonics(families[0])) {
      FamiliesDisjoint(n, families[0], t);
    } else {
      FirstFamilyExact(n, families[1..], t);
    }
  }

  lemma {:induction false} FirstFamilySound(n: string, families: seq<BranchType>)
    ensures FirstFamily(n, families) == NoBranch || HasMnemonicPrefix(n, Mnemonics(FirstFamily(n, families)))
    ensures FirstFamily(n, families) == NoBranch ==> forall t :: t in families ==> !HasMnemonicPrefix(n, Mnemonics(t))
  {
    if |families| > 0 && !HasMnemonicPrefix(n, Mnemonics(families[0])) {
      FirstFamilySound(n, families[1..]);
    }
  }

  lemma InFamilyOrder(f: BranchType)
    ensures f != NoBranch <==> f in FamilyOrder
  {
  }

  /** scriptGetBranchType yields a family exactly when one of that family's
      mnemonics, followed by a space, starts the normalised text. */
  lemma BranchTypeIsFamily(text: string, t: BranchType)
    requires t != NoBranch
    ensures GetBranchType(text) == t <==> HasMnemonicPrefix(BranchNormal(text), Mnemonics(t))
  {
    var n := BranchNormal(text);
    InFamilyOrder(t);
    InFamilyOrder(NoBranch);
    FirstFamilySound(n, FamilyOrder);
    if HasMnemonicPrefix(n, Mnemonics(t)) {
      FirstFamilyExact(n, FamilyOrder, t);
    }
  }

  /** scriptGetBranchType yields NoBranch exactly when no family matches. */
  lemma NoBranchIsNoFamily(text: string)
    ensures GetBranchType(text) == NoBranch <==>
      forall f :: f != NoBranch ==> !HasMnemonicPrefix(BranchNormal(text), Mnemonics(f))
  {
    var n := BranchNormal(text);
    FirstFamilySound(n, FamilyOrder);
    if GetBranchType(text) == NoBranch {
      forall f | f != NoBranch
        ensures !HasMnemonicPrefix(n, Mnemonics(f))
      {
        InFamilyOrder(f);
      }
    } else {
      InFamilyOrder(NoBranch);
      InFamilyOrder(GetBranchType(text));
    }
  }

  lemma {:induction false} RTrimKeepsNonSpaceTail(a: string, b: string)
    requires exists k :: 0 <= k < |b| && !IsSpace(b[k])
    ensures RTrim(a + b) == a + RTrim(b)
    decreases |b|
  {
    assert |b| > 0;
    var ab := a + b;
    assert ab[|ab| - 1] == b[|b| - 1];
    if !IsSpace(b[|b| - 1]) {
      assert RTrim(ab) == ab && RTrim(b) == b;
    } else {
      var b' := b[..|b| - 1];
      assert ab[..|ab| - 1] == a + b';
      var k :| 0 <= k < |b| && !IsSpace(b[k]);
      assert k < |b'| && b'[k] == b[k];
      RTrimKeepsNonSpaceTail(a, b');
      assert RTrim(ab) == RTrim(a + b');
      assert RTrim(b) == RTrim(b');
    }
  }

  lemma {:induction false} RTrimAllSpace(a: string, b: string)
    requires a != [] && !IsSpace(a[|a| - 1])
    requires forall k :: 0 <= k < |b| ==> IsSpace(b[k])
    ensures RTrim(a + b) == a
    decreases |b|
  {
    if |b| == 0 {
      assert a + b == a;
    } else {
      assert (a + b)[..|a + b| - 1] == a + b[..|b| - 1];
      RTrimAllSpace(a, b[..|b| - 1]);
    }
  }

  lemma FamilyOfListed(m: string)
    ensures FamilyOf(m) != NoBranch ==> m in Mnemonics(FamilyOf(m))
  {
  }

  /** A text holding a space starts with its first token followed by a space. */
  lemma FirstTokenSpaced(n: string)
    requires ' ' in n
    ensures StartsWith(n, FirstToken(n) + " ")
  {
    var tok := FirstToken(n);
    assert IndexOf(n, ' ').Some?;
    assert n[..|tok| + 1] == tok + " ";
  }

  lemma NormalFirstToken(text: string)
    ensures StartsWith(BranchNormal(text), FirstToken(BranchNormal(text)) + " ")
  {
    FirstTokenSpaced(BranchNormal(text));
  }

  lemma ListedTokenClassifies(text: string)
    requires FamilyOf(FirstToken(BranchNormal(text))) != NoBranch
    ensures GetBranchType(text) == FamilyOf(FirstToken(BranchNormal(text)))
  {
    var n := BranchNormal(text);
    var tok := FirstToken(n);
    var f := FamilyOf(tok);
    NormalFirstToken(text);
    FamilyOfListed(tok);
    var i :| 0 <= i < |Mnemonics(f)| && Mnemonics(f)[i] == tok;
    assert HasMnemonicPrefix(n, Mnemonics(f));
    BranchTypeIsFamily(text, f);
  }

  lemma UnlistedTokenClassifies(text: string)
    requires FamilyOf(FirstToken(BranchNormal(text))) == NoBranch
    ensures GetBranchType(text) == NoBranch
  {
    var n := BranchNormal(text);
    var tok := FirstToken(n);
    var g := GetBranchType(text);
    if g != NoBranch {
      NormalFirstToken(text);
      BranchTypeIsFamily(text, g);
      var i :| 0 <= i < |Mnemonics(g)| && StartsWith(n, Mnemonics(g)[i] + " ");
      MnemonicsWellFormed(g, i);
      SpacedPrefixUnique(n, Mnemonics(g)[i], tok);
      assert false;
    }
  }

  /** Closed form of scriptGetBranchType: the family of the first token of the
      normalised text. */
  lemma BranchTypeByFirstToken(text: string)
    ensures GetBranchType(text) == FamilyOf(FirstToken(BranchNormal(text)))
  {
    if FamilyOf(FirstToken(BranchNormal(text))) != NoBranch {
      ListedTokenClassifies(text);
    } else {
      UnlistedTokenClassifies(text);
    }
  }

  lemma FirstTokenOfSpaced(n: string, w: string)
    requires ' ' !in w && StartsWith(n, w + " ")
    ensures FirstToken(n) == w
  {
    var tok := FirstToken(n);
    assert n[|w|] == ' ';
    if |tok| < |n| {
      assert n[..|tok| + 1] == tok + " ";
      SpacedPrefixUnique(n, tok, w);
    }
  }

  /** A non-empty run of non-whitespace characters. */
  predicate IsWord(w: string) {
    |w| > 0 && forall k :: 0 <= k < |w| ==> !IsSpace(w[k])
  }

  lemma WordHasNoSpace(w: string)
    requires IsWord(w)
    ensures ' ' !in w
  {
    if ' ' in w {
      assert false;
    }
  }

  lemma TrimWord(w: string)
    requires IsWord(w)
    ensures Trim(w) == w
  {
    assert RTrim(w) == w;
  }

  /** Trimming a word followed by a space and an operand either keeps the
      word and the space, or (for a blank operand) leaves the bare word. */
  lemma TrimWordOperand(w: string, operand: string)
    requires IsWord(w)
    ensures StartsWith(Trim(w + " " + operand), w + " ") || Trim(w + " " + operand) == w
  {
    if exists k :: 0 <= k < |operand| && !IsSpace(operand[k]) {
      RTrimKeepsNonSpaceTail(w + " ", operand);
      var r := (w + " ") + RTrim(operand);
      assert r[0] == w[0];
      assert LTrim(r) == r;
      assert r[..|w + " "|] == w + " ";
    } else {
      assert w + " " + operand == w + (" " + operand);
      RTrimAllSpace(w, " " + operand);
      TrimWord(w);
    }
  }

  lemma NormalWordOperand(w: string, operand: string)
    requires IsWord(w)
    ensures StartsWith(BranchNormal(w + " " + operand), w + " ")
  {
    WordHasNoSpace(w);
    TrimWordOperand(w, operand);
    var t := Trim(w + " " + operand);
    if t == w {
      assert BranchNormal(w + " " + operand) == w + " ";
    } else {
      assert t[|w|] == (w + " ")[|w|] == ' ';
    }
  }

  /** A word followed by a space and any operand is classified as the family
      of that word: every mnemonic of a family yields that family, and any
      other word, such as `retrieve_x` or the upper-case `JMP`, yields
      NoBranch. */
  lemma WordOperandClassifies(w: string, operand: string)
    requires IsWord(w)
    ensures GetBranchType(w + " " + operand) == FamilyOf(w)
  {
    WordHasNoSpace(w);
    NormalWordOperand(w, operand);
    FirstTokenOfSpaced(BranchNormal(w + " " + operand), w);
    BranchTypeByFirstToken(w + " " + operand);
  }

  /** A bare word is classified as its family too (so a bare `jmp` is a Jmp). */
  lemma BareWordClassifies(w: string)
    requires IsWord(w)
    ensures GetBranchType(w) == FamilyOf(w)
  {
    WordHasNoSpace(w);
    TrimWord(w);
    assert BranchNormal(w) == w + " ";
    assert StartsWith(w + " ", w + " ");
    FirstTokenOfSpaced(w + " ", w);
    BranchTypeByFirstToken(w);
  }

  /** Every mnemonic of a family, bare or with an operand, classifies as that family. */
  lemma MnemonicClassifies(t: BranchType, i: nat, operand: string)
    requires i < |Mnemonics(t)|
    ensures GetBranchType(Mnemonics(t)[i] + " " + operand) == t
    ensures GetBranchType(Mnemonics(t)[i]) == t
  {
    MnemonicsWellFormed(t, i);
    WordOperandClassifies(Mnemonics(t)[i], operand);
    BareWordClassifies(Mnemonics(t)[i]);
  }

  // ---------------------------------------------------------------------
  // Built-in command token rule

  /** scriptIsInternalCommand: `cmd` matches the whole text, or a prefix of it
      that is followed by a space; both comparisons ignore ASCII case. */
  predicate IsInternalCommand(text: string, cmd: string) {
    if |cmd| > |text| then false
    else if |cmd| == |text| then EqualsIgnoreCase(text, cmd)
    else text[|cmd|] == ' ' && EqualsIgnoreCase(text[..|cmd|], cmd)
  }

  /** The text up to (excluding) its first space. */
  function FirstToken(text: string): (r: string)
    ensures StartsWith(text, r) && ' ' !in r
    ensures |r| < |text| ==> text[|r|] == ' '
  {
    match IndexOf(text, ' ')
    case None => text
    case Some(k) => text[..k]
  }

  lemma NoSpaceNoMatch(a: string, b: string)
    requires ' ' in a && ' ' !in b
    ensures !EqualsIgnoreCase(a, b)
  {
    if EqualsIgnoreCase(a, b) {
      var k :| 0 <= k < |a| && a[k] == ' ';
      LowerSpace(b[k]);
      assert false;
    }
  }

  /** Token-boundary rule: for a built-in name without spaces, the text
      matches it exactly when its first space-delimited token equals the
      name up to case. */
  lemma InternalCommandIsFirstToken(text: string, cmd: string)
    requires ' ' !in cmd
    ensures IsInternalCommand(text, cmd) <==> EqualsIgnoreCase(FirstToken(text), cmd)
  {
    var tok := FirstToken(text);
    if |cmd| > |text| {
    } else if |cmd| == |text| {
      if ' ' in text {
        NoSpaceNoMatch(text, cmd);
      } else {
        assert IndexOf(text, ' ').None?;
      }
    } else {
      if ' ' in text[..|cmd|] {
        NoSpaceNoMatch(text[..|cmd|], cmd);
        var k :| 0 <= k < |cmd| && text[..|cmd|][k] == ' ';
        assert |tok| <= k;
      } else if text[|cmd|] == ' ' {
        assert |tok| >= |cmd|;
        assert |tok| == |cmd|;
        assert tok == text[..|cmd|];
      } else {
        assert |tok| != |cmd|;
      }
    }
  }

  /** `retrieve_x` is not the `ret` built-in; `ret`, `RET` and `ret 1` are. */
  lemma RetTokenBoundary()
    ensures !IsInternalCommand("retrieve_x", "ret")
    ensures IsInternalCommand("ret", "ret") && IsInternalCommand("RET", "ret")
    ensures IsInternalCommand("ret 1", "ret")
  {
    assert "ret 1"[..3] == "ret";
  }

  // ---------------------------------------------------------------------
  // Trailing comment removal

  /** The quote/escape state machine: the index of the first `//` that lies
      outside a double-quoted string, if any. */
  function ScanComment(raw: string, i: nat, inQuote: bool, inEscape: bool): (r: Option<nat>)
    requires i <= |raw|
    ensures r.Some? ==> i <= r.value && r.value + 1 < |raw| && raw[r.value] == '/' && raw[r.value + 1] == '/'
    decreases |raw| - i
  {
    if i == |raw| then None
    else
      var ch := raw[i];
      var quote := if ch == '"' && !inEscape then !inQuote else inQuote;
      var escape := if ch == '\\' then !inEscape else false;
      if !quote && ch == '/' && i + 1 < |raw| && raw[i + 1] == '/' then Some(i)
      else ScanComment(raw, i + 1, quote, escape)
  }

  function CommentStart(raw: string): Option<nat> {
    ScanComment(raw, 0, false, false)
  }

  predicate SlashesAt(raw: string, k: int) {
    0 <= k && k + 1 < |raw| && raw[k] == '/' && raw[k + 1] == '/'
  }

  lemma {:induction false} ScanWithoutQuotes(raw: string, i: nat, inEscape: bool)
    requires i <= |raw| && '"' !in raw
    ensures ScanComment(raw, i, false, inEscape).None? <==> forall k :: i <= k < |raw| ==> !SlashesAt(raw, k)
    ensures ScanComment(raw, i, false, inEscape).Some? ==>
      forall k :: i <= k < ScanComment(raw, i, false, inEscape).value ==> !SlashesAt(raw, k)
    decreases |raw| - i
  {
    if i < |raw| {
      assert raw[i] != '"';
      var escape := if raw[i] == '\\' then !inEscape else false;
      if SlashesAt(raw, i) {
        assert ScanComment(raw, i, false, inEscape) == Some(i);
      } else {
        assert ScanComment(raw, i, false, inEscape) == ScanComment(raw, i + 1, false, escape);
        ScanWithoutQuotes(raw, i + 1, escape);
      }
    }
  }

  /** Outside quoted text the comment starts at the first `//`; with no `//`
      at all there is no comment. */
  lemma CommentStartIsFirstSlashes(raw: string)
    requires '"' !in raw
    ensures CommentStart(raw).None? <==> forall k :: 0 <= k < |raw| ==> !SlashesAt(raw, k)
    ensures CommentStart(raw).Some? ==>
      SlashesAt(raw, CommentStart(raw).value) &&
      forall k :: 0 <= k < CommentStart(raw).value ==> !SlashesAt(raw, k)
  {
    ScanWithoutQuotes(raw, 0, false);
  }

  /** Inside a quoted string, everything up to the closing quote is skipped:
      a `//` there does not start a comment. */
  lemma {:induction false} QuotedSpanSkipped(raw: string, i: nat, j: nat)
    requires i <= j < |raw| && raw[j] == '"'
    requires forall k :: i <= k < j ==> raw[k] != '"' && raw[k] != '\\'
    ensures ScanComment(raw, i, true, false) == ScanComment(raw, j + 1, false, false)
    decreases j - i
  {
    if i < j {
      assert raw[i] != '"' && raw[i] != '\\';
      assert ScanComment(raw, i, true, false) == ScanComment(raw, i + 1, true, false);
      QuotedSpanSkipped(raw, i + 1, j);
    }
  }

  /** A backslash-escaped quote inside a quoted string does not close it. */
  lemma EscapedQuoteStaysQuoted(raw: string, i: nat)
    requires i + 1 < |raw| && raw[i] == '\\' && raw[i + 1] == '"'
    ensures ScanComment(raw, i, true, false) == ScanComment(raw, i + 2, true, false)
  {
    assert ScanComment(raw, i, true, false) == ScanComment(raw, i + 1, true, true);
  }

  /** The line without its trailing comment.  A line that starts with `//`
      keeps it (it is a comment line).  Otherwise the line is cut where the
      comment starts, together with one space right before it, and what is
      left holds no comment at all. */
  function StripComment(raw: string): (r: string)
    ensures |r| <= |raw| && r == raw[..|r|]
    ensures CommentStart(raw).None? || CommentStart(raw) == Some(0) ==> r == raw
    ensures CommentStart(raw).Some? && CommentStart(raw).value > 0 ==>
      var c := CommentStart(raw).value;
      |r| == (if raw[c - 1] == ' ' then c - 1 else c) && CommentStart(r).None?
  {
    match CommentStart(raw)
    case None => raw
    case Some(c) =>
      if c == 0 then raw
      else
        var n := if raw[c - 1] == ' ' then c - 1 else c;
        ScanPrefixNone(raw, n, 0, false, false);
        raw[..n]
  }

  /** The scan over a prefix that ends at most one character after the
      first comment's first slash finds no comment: the prefix cannot hold
      both slashes. */
  lemma {:induction false} ScanPrefixNone(raw: string, n: nat, i: nat, inQuote: bool, inEscape: bool)
    requires i <= n <= |raw|
    requires ScanComment(raw, i, inQuote, inEscape).Some? ==> n <= ScanComment(raw, i, inQuote, inEscape).value + 1
    ensures ScanComment(raw[..n], i, inQuote, inEscape).None?
    decreases n - i
  {
    var p := raw[..n];
    if i < n {
      var ch := raw[i];
      assert p[i] == ch;
      var quote := if ch == '"' && !inEscape then !inQuote else inQuote;
      var escape := if ch == '\\' then !inEscape else false;
      if !quote && ch == '/' && i + 1 < |raw| && raw[i + 1] == '/' {
        assert n == i + 1;
        assert ScanComment(p, i, inQuote, inEscape) == ScanComment(p, i + 1, quote, escape);
      } else {
        assert i + 1 < n ==> p[i + 1] == raw[i + 1];
        assert ScanComment(p, i, inQuote, inEscape) == ScanComment(p, i + 1, quote, escape);
        assert ScanComment(raw, i, inQuote, inEscape) == ScanComment(raw, i + 1, quote, escape);
        ScanPrefixNone(raw, n, i + 1, quote, escape);
      }
    }
  }

  // ---------------------------------------------------------------------
  // One line of the line map

  /** LINEMAPENTRY with its tagged payload.  A branch's `dest` is 0 until the
      compiler resolves it. */
  datatype Line =
    | Empty
    | Comment(text: string)
    | Label(name: string)
    | Branch(kind: BranchType, target: string, dest: nat)
    | Command(text: string)

  /** isEmptyLine inverted: only commands and branches execute. */
  predicate IsExecutable(l: Line) {
    l.Branch? || l.Command?
  }

  /** Label text: the part before the `:` with trailing whitespace removed
      (the source formats it behind a two-character fake command, trims and
      drops the prefix again, so leading whitespace survives; when the part
      is non-empty whitespace only, the stale buffer bytes after the fake
      prefix are that whitespace). */
  function LabelName(beforeColon: string): string {
    var t := RTrim(beforeColon);
    if t == [] && beforeColon != [] then beforeColon else t
  }

  /** The branch operand: everything after the first space of the trimmed
      text, or nothing when there is no space. */
  function BranchTarget(text: string): (r: string)
    ensures |r| <= |text|
  {
    var t := Trim(text);
    match IndexOf(t, ' ')
    case None => []
    case Some(k) => t[k + 1..]
  }

  /** The text a line is classified by: the line without its trailing
      comment and without trailing whitespace. */
  function Cleaned(raw: string): (t: string)
    ensures |t| <= |raw| && StartsWith(raw, t)
  {
    RTrim(StripComment(raw))
  }

  /** A comment line: it starts with `//` or with `;`. */
  predicate IsCommentText(t: string) {
    |t| > 0 && ((|t| >= 2 && t[0] == '/' && t[1] == '/') || t[0] == ';')
  }

  /** Classification of one raw line, by its cleaned text: empty, then
      comment, then a label (the text ends in `:`), then a branch (a branch
      mnemonic starts it), then a command. */
  function ClassifyLine(raw: string): (l: Line)
    ensures var t := Cleaned(raw);
      (l.Empty? <==> t == []) &&
      (l.Comment? <==> IsCommentText(t)) &&
      (l.Label? <==> t != [] && !IsCommentText(t) && t[|t| - 1] == ':') &&
      (l.Branch? <==> t != [] && !IsCommentText(t) && t[|t| - 1] != ':' && GetBranchType(t) != NoBranch) &&
      (l.Command? <==> t != [] && !IsCommentText(t) && t[|t| - 1] != ':' && GetBranchType(t) == NoBranch)
    ensures l.Label? ==> |l.name| < |raw|
    ensures (l.Command? || l.Comment?) ==> l.text == Cleaned(raw) != [] && StartsWith(raw, l.text)
    ensures l.Branch? ==> l.kind == GetBranchType(Cleaned(raw)) != NoBranch && l.dest == 0
  {
    ClassifyText(Cleaned(raw))
  }

  /** Classification of the cleaned text of a line. */
  function ClassifyText(t: string): (l: Line)
    ensures l.Empty? <==> t == []
    ensures l.Comment? <==> IsCommentText(t)
    ensures l.Label? <==> t != [] && !IsCommentText(t) && t[|t| - 1] == ':'
    ensures l.Branch? <==> t != [] && !IsCommentText(t) && t[|t| - 1] != ':' && GetBranchType(t) != NoBranch
    ensures l.Command? <==> t != [] && !IsCommentText(t) && t[|t| - 1] != ':' && GetBranchType(t) == NoBranch
    ensures l.Label? ==> |l.name| < |t|
    ensures (l.Command? || l.Comment?) ==> l.text == t
    ensures l.Branch? ==> l.kind == GetBranchType(t) && l.dest == 0
  {
    if |t| == 0 then Empty
    else if IsCommentText(t) then Comment(t)
    else if t[|t| - 1] == ':' then Label(LabelName(t[..|t| - 1]))
    else if GetBranchType(t) != NoBranch then Branch(GetBranchType(t), BranchTarget(t), 0)
    else Command(t)
  }

  /** A trailing comment after a space changes nothing: code without quotes
      or `//` is classified alike with and without ` //...` after it. */
  lemma TrailingCommentIgnored(code: string, comment: string)
    requires '"' !in code && '"' !in comment
    requires forall k :: 0 <= k < |code| ==> !SlashesAt(code, k)
    ensures ClassifyLine(code + " //" + comment) == ClassifyLine(code)
  {
    var raw := code + " //" + comment;
    assert '"' !in raw by {
      forall k | 0 <= k < |raw| ensures raw[k] != '"' {
        if k < |code| { assert raw[k] == code[k]; }
        else if k >= |code| + 3 { assert raw[k] == comment[k - |code| - 3]; }
      }
    }
    var c := |code| + 1;
    assert raw[|code|] == ' ' && raw[c] == '/' && raw[c + 1] == '/';
    forall k | 0 <= k < c ensures !SlashesAt(raw, k) {
      if k + 1 < |code| {
        assert raw[k] == code[k] && raw[k + 1] == code[k + 1];
        assert !SlashesAt(code, k);
      }
    }
    assert SlashesAt(raw, c);
    CommentStartIsFirstSlashes(raw);
    var v := CommentStart(raw).value;
    assert !(v < c);
    assert !(v > c);
    assert CommentStart(raw) == Some(c);
    assert raw[..c - 1] == code;
    CommentStartIsFirstSlashes(code);
    assert StripComment(code) == code;
  }

  /** A line whose first character is `;` is a comment line. */
  lemma ClassifySemicolonComment()
    ensures ClassifyLine("; note") == Comment("; note")
  {
    assert CommentStart("; note") == None;
    assert RTrim("; note") == "; note";
  }

  /** A line ending in `:` is a label named by the text before the colon. */
  lemma ClassifyLabelLine()
    ensures ClassifyLine("start:") == Label("start")
  {
    assert CommentStart("start:") == None;
    assert RTrim("start:") == "start:";
    assert "start:"[..5] == "start";
    assert RTrim("start") == "start";
  }

  // ---------------------------------------------------------------------
  // Splitting the text into raw lines

  /** Lines longer than this are force-split. */
  const MaxLineChars: nat := 254

  /** The raw-line splitter exactly as written: CRLF or LF ends a line; when
      254 characters are buffered the buffer is emitted and the current
      character is skipped; every emitted line loses its leading whitespace
      except the final unterminated one. */
  function SplitFromAsWritten(rest: string, temp: string): seq<string>
    decreases |rest|
  {
    if |rest| == 0 then (if |temp| > 0 then [temp] else [])
    else if rest[0] == '\r' && |rest| > 1 && rest[1] == '\n' then [LTrim(temp)] + SplitFromAsWritten(rest[2..], [])
    else if rest[0] == '\n' then [LTrim(temp)] + SplitFromAsWritten(rest[1..], [])
    else if |temp| >= MaxLineChars then [LTrim(temp)] + SplitFromAsWritten(rest[1..], [])
    else SplitFromAsWritten(rest[1..], temp + [rest[0]])
  }

  function SplitAsWritten(text: string): seq<string> {
    SplitFromAsWritten(text, [])
  }

  /** The splitter as evidently intended: the character that triggers a
      forced split starts the next line, and the final line is stripped of
      leading whitespace like every other line. */
  function SplitFrom(rest: string, temp: string): seq<string>
    decreases |rest|, if |temp| >= MaxLineChars then 1 else 0
  {
    if |rest| == 0 then (if |temp| > 0 then [LTrim(temp)] else [])
    else if rest[0] == '\r' && |rest| > 1 && rest[1] == '\n' then [LTrim(temp)] + SplitFrom(rest[2..], [])
    else if rest[0] == '\n' then [LTrim(temp)] + SplitFrom(rest[1..], [])
    else if |temp| >= MaxLineChars then [LTrim(temp)] + SplitFrom(rest, [])
    else SplitFrom(rest[1..], temp + [rest[0]])
  }

  function Split(text: string): seq<string> {
    SplitFrom(text, [])
  }

  /** Removes empty raw lines from the end. */
  function DropTrailingEmpty(raws: seq<string>): (r: seq<string>)
    ensures |r| <= |raws| && r == raws[..|r|]
    ensures r == [] || r[|r| - 1] != []
    ensures forall k :: |r| <= k < |raws| ==> raws[k] == []
  {
    if |raws| == 0 || raws[|raws| - 1] != [] then raws else DropTrailingEmpty(raws[..|raws| - 1])
  }

  function Concat(ss: seq<string>): string {
    if |ss| == 0 then [] else ss[0] + Concat(ss[1..])
  }

  /** The non-whitespace characters of a text, in order. */
  function Visible(s: string): string {
    if |s| == 0 then [] else (if IsSpace(s[0]) then [] else [s[0]]) + Visible(s[1..])
  }

  lemma {:induction false} VisibleAppend(a: string, b: string)
    ensures Visible(a + b) == Visible(a) + Visible(b)
  {
    if |a| > 0 {
      assert (a + b)[1..] == a[1..] + b;
      VisibleAppend(a[1..], b);
    } else {
      assert a + b == b;
    }
  }

  lemma {:induction false} VisibleLTrim(s: string)
    ensures Visible(LTrim(s)) == Visible(s)
    decreases |s|
  {
    if |s| > 0 && IsSpace(s[0]) {
      VisibleLTrim(s[1..]);
    }
  }

  /** A raw line as the splitter emits it: at most 254 characters and no
      leading whitespace. */
  predicate GoodSegment(x: string) {
    |x| <= MaxLineChars && (x == [] || !IsSpace(x[0]))
  }

  lemma EmitVisible(temp: string, tail: seq<string>)
    ensures Visible(Concat([LTrim(temp)] + tail)) == Visible(temp) + Visible(Concat(tail))
  {
    assert ([LTrim(temp)] + tail)[1..] == tail;
    assert Concat([LTrim(temp)] + tail) == LTrim(temp) + Concat(tail);
    VisibleAppend(LTrim(temp), Concat(tail));
    VisibleLTrim(temp);
  }

  /** The end of the text emits a non-empty buffer. */
  lemma EndVisible(temp: string)
    ensures Visible(Concat(SplitFrom([], temp))) == Visible(temp) + Visible([])
  {
    if |temp| > 0 {
      EmitVisible(temp, []);
      assert [LTrim(temp)] + [] == [LTrim(temp)];
    }
  }

  /** A line break (CRLF or LF) emits the buffer. */
  lemma BreakVisible(rest: string, temp: string, skip: nat)
    requires skip == 1 || skip == 2
    requires skip == 1 ==> |rest| > 0 && rest[0] == '\n'
    requires skip == 2 ==> |rest| > 1 && rest[0] == '\r' && rest[1] == '\n'
    requires Visible(Concat(SplitFrom(rest[skip..], []))) == Visible(rest[skip..])
    ensures Visible(Concat(SplitFrom(rest, temp))) == Visible(temp) + Visible(rest)
  {
    assert SplitFrom(rest, temp) == [LTrim(temp)] + SplitFrom(rest[skip..], []);
    EmitVisible(temp, SplitFrom(rest[skip..], []));
    assert Visible(rest) == Visible(rest[1..]);
    if skip == 2 {
      assert rest[1..][1..] == rest[2..];
      assert Visible(rest[1..]) == Visible(rest[2..]);
    }
  }

  /** A full buffer is emitted before the current character. */
  lemma OverflowVisible(rest: string, temp: string)
    requires |rest| > 0 && rest[0] != '\n' && !(rest[0] == '\r' && |rest| > 1 && rest[1] == '\n')
    requires |temp| >= MaxLineChars
    requires Visible(Concat(SplitFrom(rest, []))) == Visible(rest)
    ensures Visible(Concat(SplitFrom(rest, temp))) == Visible(temp) + Visible(rest)
  {
    assert SplitFrom(rest, temp) == [LTrim(temp)] + SplitFrom(rest, []);
    EmitVisible(temp, SplitFrom(rest, []));
  }

  /** An ordinary character moves into the buffer. */
  lemma BufferVisible(rest: string, temp: string)
    requires |rest| > 0 && rest[0] != '\n' && !(rest[0] == '\r' && |rest| > 1 && rest[1] == '\n')
    requires |temp| < MaxLineChars
    requires Visible(Concat(SplitFrom(rest[1..], temp + [rest[0]]))) == Visible(temp + [rest[0]]) + Visible(rest[1..])
    ensures Visible(Concat(SplitFrom(rest, temp))) == Visible(temp) + Visible(rest)
  {
    SplitStep(rest, temp);
    VisibleShift(temp, rest);
  }

  /** Splitting loses no visible character. */
  lemma {:induction false} SplitFromVisible(rest: string, temp: string)
    ensures Visible(Concat(SplitFrom(rest, temp))) == Visible(temp) + Visible(rest)
    decreases |rest|, if |temp| >= MaxLineChars then 1 else 0
  {
    if |rest| == 0 {
      EndVisible(temp);
    } else if rest[0] == '\r' && |rest| > 1 && rest[1] == '\n' {
      SplitFromVisible(rest[2..], []);
      BreakVisible(rest, temp, 2);
    } else if rest[0] == '\n' {
      SplitFromVisible(rest[1..], []);
      BreakVisible(rest, temp, 1);
    } else if |temp| >= MaxLineChars {
      SplitFromVisible(rest, []);
      OverflowVisible(rest, temp);
    } else {
      SplitFromVisible(rest[1..], temp + [rest[0]]);
      BufferVisible(rest, temp);
    }
  }

  lemma VisibleShift(temp: string, rest: string)
    requires |rest| > 0
    ensures Visible(temp + [rest[0]]) + Visible(rest[1..]) == Visible(temp) + Visible(rest)
  {
    var c, tail := [rest[0]], rest[1..];
    VisibleAppend(temp, c);
    assert rest == c + tail;
    VisibleAppend(c, tail);
    var vt, vc, vr := Visible(temp), Visible(c), Visible(tail);
    assert vt + vc + vr == vt + (vc + vr);
  }

  /** Every emitted line is a good segment. */
  lemma {:induction false} SplitFromSegments(rest: string, temp: string)
    requires |temp| <= MaxLineChars
    ensures forall k :: 0 <= k < |SplitFrom(rest, temp)| ==> GoodSegment(SplitFrom(rest, temp)[k])
    decreases |rest|, if |temp| >= MaxLineChars then 1 else 0
  {
    assert GoodSegment(LTrim(temp));
    if |rest| == 0 {
    } else if rest[0] == '\r' && |rest| > 1 && rest[1] == '\n' {
      SplitFromSegments(rest[2..], []);
    } else if rest[0] == '\n' {
      SplitFromSegments(rest[1..], []);
    } else if |temp| >= MaxLineChars {
      SplitFromSegments(rest, []);
    } else {
      SplitFromSegments(rest[1..], temp + [rest[0]]);
    }
  }

  lemma SplitKeepsText(text: string)
    ensures Visible(Concat(Split(text))) == Visible(text)
    ensures forall k :: 0 <= k < |Split(text)| ==> |Split(text)[k]| <= MaxLineChars
    ensures forall k :: 0 <= k < |Split(text)| ==> Split(text)[k] == [] || !IsSpace(Split(text)[k][0])
  {
    SplitFromVisible(text, []);
    assert Visible([]) + Visible(text) == Visible(text);
    SplitFromSegments(text, []);
  }

  /** One line per entry, each terminated by LF. */
  function JoinLines(lines: seq<string>): string {
    if |lines| == 0 then [] else lines[0] + ['\n'] + JoinLines(lines[1..])
  }

  /** A script line the splitter reproduces verbatim. */
  predicate PlainLine(l: string) {
    |l| <= MaxLineChars && '\n' !in l &&
    (l == [] || (!IsSpace(l[0]) && l[|l| - 1] != '\r'))
  }

  /** One ordinary character is buffered. */
  lemma SplitStep(rest: string, temp: string)
    requires |rest| > 0 && rest[0] != '\n' && |temp| < MaxLineChars
    requires !(rest[0] == '\r' && |rest| > 1 && rest[1] == '\n')
    ensures SplitFrom(rest, temp) == SplitFrom(rest[1..], temp + [rest[0]])
  {
  }

  lemma NoNewlineInTail(l: string)
    requires '\n' !in l && |l| > 0
    ensures '\n' !in l[1..]
  {
    forall k | 0 <= k < |l[1..]| ensures l[1..][k] != '\n' {
      assert l[1..][k] == l[k + 1];
      assert l[k + 1] in l;
    }
  }

  /** The first character of a line without LF is buffered. */
  lemma LineHeadBuffered(temp: string, l: string, rest: string)
    requires '\n' !in l && |l| > 0 && |temp| < MaxLineChars
    requires l[|l| - 1] != '\r'
    ensures SplitFrom(l + ['\n'] + rest, temp) == SplitFrom(l[1..] + ['\n'] + rest, temp + [l[0]])
  {
    var s := l + ['\n'] + rest;
    assert s[0] == l[0];
    assert s[1..] == l[1..] + ['\n'] + rest;
    assert l[0] != '\n' by { assert l[0] in l; }
    assert !(s[0] == '\r' && |s| > 1 && s[1] == '\n') by {
      if |l| > 1 {
        assert s[1] == l[1];
        assert l[1] in l;
      }
    }
    SplitStep(s, temp);
  }

  /** An LF emits the buffer. */
  lemma LineFeedEmits(temp: string, rest: string)
    ensures SplitFrom(['\n'] + rest, temp) == [LTrim(temp)] + SplitFrom(rest, [])
  {
    assert (['\n'] + rest)[1..] == rest;
  }

  lemma {:induction false} SplitOneLine(temp: string, l: string, rest: string)
    requires '\n' !in l && |temp| + |l| <= MaxLineChars
    requires l != [] ==> l[|l| - 1] != '\r'
    ensures SplitFrom(l + ['\n'] + rest, temp) == [LTrim(temp + l)] + SplitFrom(rest, [])
    decreases |l|
  {
    if |l| == 0 {
      assert l + ['\n'] + rest == ['\n'] + rest;
      LineFeedEmits(temp, rest);
      assert temp + l == temp;
    } else {
      NoNewlineInTail(l);
      SplitOneLine(temp + [l[0]], l[1..], rest);
      LineHeadStep(temp, l, rest);
    }
  }

  lemma LineHeadStep(temp: string, l: string, rest: string)
    requires '\n' !in l && |l| > 0 && |temp| + |l| <= MaxLineChars
    requires l[|l| - 1] != '\r'
    requires SplitFrom(l[1..] + ['\n'] + rest, temp + [l[0]]) == [LTrim(temp + [l[0]] + l[1..])] + SplitFrom(rest, [])
    ensures SplitFrom(l + ['\n'] + rest, temp) == [LTrim(temp + l)] + SplitFrom(rest, [])
  {
    LineHeadBuffered(temp, l, rest);
    HeadMoved(temp, l);
  }

  lemma HeadMoved(temp: string, l: string)
    requires |l| > 0
    ensures temp + [l[0]] + l[1..] == temp + l
  {
    assert l == [l[0]] + l[1..];
  }

  /** Round trip: splitting LF-joined plain lines gives the lines back. */
  lemma {:induction false} SplitJoinRoundTrip(lines: seq<string>)
    requires forall k :: 0 <= k < |lines| ==> PlainLine(lines[k])
    ensures Split(JoinLines(lines)) == lines
  {
    if |lines| > 0 {
      var l := lines[0];
      var tail := JoinLines(lines[1..]);
      assert PlainLine(l);
      assert JoinLines(lines) == l + ['\n'] + tail;
      SplitOneLine([], l, tail);
      assert [] + l == l;
      assert LTrim(l) == l;
      SplitJoinRoundTrip(lines[1..]);
      assert Split(JoinLines(lines)) == [l] + lines[1..];
    }
  }

  /** One ordinary character is buffered by the splitter as written. */
  lemma SplitAsWrittenStep(rest: string, temp: string)
    requires |rest| > 0 && rest[0] != '\n' && rest[0] != '\r' && |temp| < MaxLineChars
    ensures SplitFromAsWritten(rest, temp) == SplitFromAsWritten(rest[1..], temp + [rest[0]])
  {
  }

  lemma PrefixShift(rest: string, temp: string, k: nat)
    requires 0 < k <= |rest|
    ensures rest[1..][k - 1..] == rest[k..]
    ensures temp + [rest[0]] + rest[1..][..k - 1] == temp + rest[..k]
  {
    assert [rest[0]] + rest[1..][..k - 1] == rest[..k];
  }

  lemma {:induction false} SplitAsWrittenAccumulates(rest: string, temp: string, k: nat)
    requires k <= |rest| && |temp| + k <= MaxLineChars
    requires forall j :: 0 <= j < k ==> rest[j] != '\n' && rest[j] != '\r'
    ensures SplitFromAsWritten(rest, temp) == SplitFromAsWritten(rest[k..], temp + rest[..k])
    decreases k
  {
    if k > 0 {
      assert rest[0] != '\n' && rest[0] != '\r';
      var r1, t1 := rest[1..], temp + [rest[0]];
      SplitAsWrittenStep(rest, temp);
      assert forall j :: 0 <= j < k - 1 ==> r1[j] == rest[j + 1];
      SplitAsWrittenAccumulates(r1, t1, k - 1);
      PrefixShift(rest, temp, k);
      assert r1[k - 1..] == rest[k..] && t1 + r1[..k - 1] == temp + rest[..k];
    } else {
      assert temp + rest[..0] == temp;
    }
  }

  /** As written, the 255th character of an overlong line is dropped: a line
      of 255 letters comes back as one line of 254, and one visible character
      is lost. */
  lemma OverlongLineLosesCharacter()
    ensures var text := seq(255, _ => 'a');
      SplitAsWritten(text) == [seq(254, _ => 'a')] &&
      |Visible(Concat(SplitAsWritten(text)))| == |Visible(text)| - 1
  {
    var text := seq(255, _ => 'a');
    SplitAsWrittenAccumulates(text, [], 254);
    assert text[254..] == ['a'];
    assert [] + text[..254] == seq(254, _ => 'a');
    var a := seq(254, _ => 'a');
    assert LTrim(a) == a;
    assert SplitFromAsWritten(['a'], a) == [a] + SplitFromAsWritten([], []);
    assert Concat([a]) == a;
    VisibleAppend(a, ['a']);
    assert text == a + ['a'];
    AllVisible(a);
  }

  lemma {:induction false} AllVisible(s: string)
    requires forall k :: 0 <= k < |s| ==> !IsSpace(s[k])
    ensures Visible(s) == s
  {
    if |s| > 0 {
      AllVisible(s[1..]);
    }
  }

  /** The corrected splitter keeps that character as the start of a second line. */
  lemma OverlongLineSplitKeepsCharacter()
    ensures Split(seq(255, _ => 'a')) == [seq(254, _ => 'a'), ['a']]
  {
    var text := seq(255, _ => 'a');
    var a := seq(254, _ => 'a');
    SplitKeepsPrefix(text, 254);
    assert text[..254] == a && text[254..] == ['a'];
    OverflowEmits(['a'], a);
    assert SplitFrom(['a'], []) == [['a']] by {
      SplitStep(['a'], []);
      assert ['a'][1..] == [];
      assert [] + [['a'][0]] == ['a'];
    }
  }

  /** A full buffer is emitted and the current character starts the next line. */
  lemma OverflowEmits(rest: string, temp: string)
    requires |rest| > 0 && rest[0] != '\n' && rest[0] != '\r'
    requires |temp| >= MaxLineChars && !IsSpace(temp[0])
    ensures SplitFrom(rest, temp) == [temp] + SplitFrom(rest, [])
  {
  }

  lemma {:induction false} SplitKeepsPrefixFrom(rest: string, temp: string, k: nat)
    requires k <= |rest| && |temp| + k <= MaxLineChars
    requires forall j :: 0 <= j < k ==> rest[j] != '\n' && rest[j] != '\r'
    ensures SplitFrom(rest, temp) == SplitFrom(rest[k..], temp + rest[..k])
    decreases k
  {
    if k > 0 {
      assert rest[0] != '\n' && rest[0] != '\r';
      SplitStep(rest, temp);
      SplitKeepsPrefixFrom(rest[1..], temp + [rest[0]], k - 1);
      PrefixShift(rest, temp, k);
    } else {
      assert temp + rest[..0] == temp;
    }
  }

  lemma SplitKeepsPrefix(text: string, k: nat)
    requires k <= |text| && k <= MaxLineChars
    requires forall j :: 0 <= j < k ==> text[j] != '\n' && text[j] != '\r'
    ensures Split(text) == SplitFrom(text[k..], text[..k])
  {
    SplitKeepsPrefixFrom(text, [], k);
    assert [] + text[..k] == text[..k];
  }

  /** As written, the final unterminated line keeps its indentation while
      an LF-terminated one is stripped. */
  lemma FinalLineKeepsIndentation()
    ensures SplitAsWritten("  ret") == ["  ret"]
    ensures SplitAsWritten("  ret\n") == ["ret"]
  {
    UnterminatedLineKept();
    TerminatedLineStripped();
  }

  lemma UnterminatedLineKept()
    ensures SplitAsWritten("  ret") == ["  ret"]
  {
    var t := "  ret";
    IndentedRetHasNoBreak();
    SplitAsWrittenAccumulates(t, [], 5);
    assert t[5..] == [] && [] + t[..5] == t;
    assert SplitFromAsWritten([], t) == [t];
  }

  lemma TerminatedLineStripped()
    ensures SplitAsWritten("  ret\n") == ["ret"]
  {
    var t := "  ret";
    var tn := t + "\n";
    IndentedRetHasNoBreak();
    IndentedRetTrims();
    assert tn == "  ret\n";
    assert forall j :: 0 <= j < 5 ==> tn[j] == t[j];
    SplitAsWrittenAccumulates(tn, [], 5);
    assert tn[5..] == "\n" && [] + tn[..5] == t;
    var nl := "\n";
    assert nl[0] == '\n' && nl[1..] == [];
    assert SplitFromAsWritten(nl, t) == [LTrim(t)] + SplitFromAsWritten([], []);
    assert SplitFromAsWritten([], []) == [];
  }

  /** The sample line `  ret` holds no line break. */
  lemma IndentedRetHasNoBreak()
    ensures forall j :: 0 <= j < |"  ret"| ==> "  ret"[j] != '\n' && "  ret"[j] != '\r'
  {
    var t := "  ret";
    assert t[0] == ' ' && t[1] == ' ' && t[2] == 'r' && t[3] == 'e' && t[4] == 't';
  }

  /** LTrim drops the two spaces of indentation of `  ret`. */
  lemma IndentedRetTrims()
    ensures LTrim("  ret") == "ret"
  {
    var t := "  ret";
    assert IsSpace(t[0]) && t[1..] == " ret";
    assert IsSpace(" ret"[0]) && " ret"[1..] == "ret";
    assert !IsSpace("ret"[0]);
    assert LTrim("ret") == "ret";
    assert LTrim(" ret") == LTrim("ret");
    assert LTrim(t) == LTrim(" ret");
  }

  /** A line that starts with a space never matches a built-in name. */
  lemma IndentedNeverBuiltin(text: string, cmd: string)
    requires |text| > 0 && text[0] == ' ' && |cmd| > 0 && ' ' !in cmd
    ensures !IsInternalCommand(text, cmd)
  {
    InternalCommandIsFirstToken(text, cmd);
    assert IndexOf(text, ' ') == Some(0);
  }

  lemma {:induction false} LTrimIndent(ind: string, w: string)
    requires forall k :: 0 <= k < |ind| ==> ind[k] == ' '
    requires IsWord(w)
    ensures LTrim(ind + w) == w
    decreases |ind|
  {
    if |ind| == 0 {
      assert ind + w == w;
    } else {
      assert (ind + w)[1..] == ind[1..] + w;
      LTrimIndent(ind[1..], w);
    }
  }

  /** The comment scanner finds nothing in a line without quotes or slashes. */
  lemma NoSlashNoComment(raw: string)
    requires forall k :: 0 <= k < |raw| ==> raw[k] != '/' && raw[k] != '"'
    ensures CommentStart(raw) == None
  {
    CommentStartIsFirstSlashes(raw);
  }

  /** An indented word is classified by the word alone. */
  lemma IndentedBranchType(ind: string, w: string)
    requires forall k :: 0 <= k < |ind| ==> ind[k] == ' '
    requires IsWord(w)
    ensures GetBranchType(ind + w) == FamilyOf(w)
  {
    var text := ind + w;
    TrimIndent(ind, w);
    WordHasNoSpace(w);
    assert BranchNormal(text) == w + " ";
    assert StartsWith(w + " ", w + " ");
    FirstTokenOfSpaced(w + " ", w);
    BranchTypeByFirstToken(text);
  }

  lemma TrimIndent(ind: string, w: string)
    requires forall k :: 0 <= k < |ind| ==> ind[k] == ' '
    requires IsWord(w)
    ensures Trim(ind + w) == w
  {
    var text := ind + w;
    assert text[|text| - 1] == w[|w| - 1];
    assert RTrim(text) == text;
    LTrimIndent(ind, w);
  }

  /** A line without quotes, slashes or trailing whitespace is kept whole
      by comment removal and trimming. */
  lemma PlainTextKept(text: string)
    requires forall k :: 0 <= k < |text| ==> text[k] != '/' && text[k] != '"'
    requires |text| > 0 && !IsSpace(text[|text| - 1])
    ensures RTrim(StripComment(text)) == text
  {
    NoSlashNoComment(text);
  }

  /** An indented word that names no branch family is kept verbatim as a
      command, indentation included. */
  lemma IndentedWordIsCommand(ind: string, w: string)
    requires |ind| > 0 && forall k :: 0 <= k < |ind| ==> ind[k] == ' '
    requires IsWord(w) && FamilyOf(w) == NoBranch && w[|w| - 1] != ':'
    requires forall k :: 0 <= k < |w| ==> w[k] != '/' && w[k] != '"'
    ensures ClassifyLine(ind + w) == Command(ind + w)
  {
    var text := ind + w;
    forall k | 0 <= k < |text| ensures text[k] != '/' && text[k] != '"' {
      if k < |ind| { assert text[k] == ind[k]; } else { assert text[k] == w[k - |ind|]; }
    }
    assert text[|text| - 1] == w[|w| - 1];
    PlainTextKept(text);
    IndentedBranchType(ind, w);
    assert Cleaned(text) == text;
    assert text[0] == ' ';
    assert !IsCommentText(text);
  }

  /** So an indented `ret` kept by the splitter is an ordinary command that
      the engine does not treat as the `ret` built-in. */
  lemma IndentedRetIsPlainCommand()
    ensures ClassifyLine("  ret") == Command("  ret")
    ensures !IsInternalCommand("  ret", "ret")
  {
    assert "  ret" == "  " + "ret";
    assert IsWord("ret");
    IndentedWordIsCommand("  ", "ret");
    IndentedNeverBuiltin("  ret", "ret");
  }

  /** The corrected splitter strips the final line as well. */
  lemma FinalLineStripped()
    ensures Split("  ret") == ["ret"]
  {
    var t := "  ret";
    IndentedRetHasNoBreak();
    IndentedRetTrims();
    SplitKeepsPrefix(t, 5);
    assert t[5..] == [] && t[..5] == t;
    assert SplitFrom([], t) == [LTrim(t)];
  }
}
