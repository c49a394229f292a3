/** Three classifications of a cipher name.  The tool looks for "-MODE" in the canonical name;
    the command line and the GUI look for mode letters in the spelling they were given. */
module CipherDispatch {
  import opened Basics
  import opened AlgorithmNames
  import opened CipherNames

  /** `find(p) != npos`, and Python's `p in s`. */
  predicate Contains(s: string, p: string) {
    exists i :: 0 <= i <= |s| - |p| && s[i..][..|p|] == p
  }

  // ----- The tool, on canonical names -----

  predicate ContainsMode(canonical: string, mode: string) {
    Contains(canonical, "-" + mode)
  }

  predicate IsEcb(n: string) { ContainsMode(n, "ECB") }
  predicate IsGcm(n: string) { ContainsMode(n, "GCM") && !ContainsMode(n, "GCM-SIV") }
  predicate IsCcm(n: string) { ContainsMode(n, "CCM") }
  predicate IsOcb(n: string) { ContainsMode(n, "OCB") }
  predicate IsAead(n: string) { IsGcm(n) || IsCcm(n) || IsOcb(n) }
  predicate IsWrap(n: string) { ContainsMode(n, "WRAP") }

  /** The path a name takes: the AEAD calls, or the classical calls without or with an IV. */
  datatype Route = Aead | NoIv | WithIv

  /** Which calls accept the canonical name: `aead_encrypt` refuses all but AEAD modes, `encrypt`
      refuses those, and `require_iv_len` refuses an IV just for ECB and WRAP. */
  function ToolRoute(n: string): Route {
    if IsAead(n) then Aead else if IsEcb(n) || IsWrap(n) then NoIv else WithIv
  }

  // ----- The command line, on spellings -----

  predicate IsAeadName(cipher: string) {
    var c := Lower(cipher);
    Contains(c, "gcm") || Contains(c, "ccm") || Contains(c, "ocb")
  }

  predicate ModeUsesIvClassical(cipher: string) {
    var c := Lower(cipher);
    if Contains(c, "ecb") then false else if Contains(c, "wrap") then false else !IsAeadName(c)
  }

  function CliRoute(cipher: string): Route {
    if IsAeadName(cipher) then Aead else if ModeUsesIvClassical(cipher) then WithIv else NoIv
  }

  // ----- The GUI, on spellings -----

  predicate GuiIsAeadName(cipher: string) {
    var c := Lower(cipher);
    Contains(c, "-gcm") || Contains(c, "-ccm") || Contains(c, "-ocb")
  }

  predicate IsIvlessClassical(cipher: string) {
    var c := Lower(cipher);
    Contains(c, "-ecb") || Contains(c, "-wrap")
  }

  function GuiRoute(cipher: string): Route {
    if GuiIsAeadName(cipher) then Aead else if IsIvlessClassical(cipher) then NoIv else WithIv
  }

  // ----- The tool's classification is by mode -----

  function RouteOf(mode: Mode): Route {
    if mode == GCM || mode == CCM || mode == OCB then Aead
    else if mode == ECB || mode == WRAP || mode == WRAPPAD then NoIv
    else WithIv
  }

  lemma NameTail(c: Cipher)
    ensures |NameOf(c)| == 8 + |ModeText(c.mode)| && NameOf(c)[8..] == ModeText(c.mode)
    ensures forall j :: 0 <= j < |ModeText(c.mode)| ==> NameOf(c)[8 + j] == ModeText(c.mode)[j]
  {
    NameOfParts(c);
  }

  lemma DashInMode(mode: Mode, j: nat)
    requires j < |ModeText(mode)|
    ensures ModeText(mode)[j] == '-' <==> mode == WRAPPAD && j == 4
  {
  }

  /** Where the dashes of a canonical name are. */
  lemma DashInName(c: Cipher, i: nat)
    requires Supported(c) && i < |NameOf(c)|
    ensures NameOf(c)[i] == '-' <==> i == 3 || i == 7 || (c.mode == WRAPPAD && i == 12)
  {
    NameTail(c);
    NameHead(c);
    if i >= 8 { DashInMode(c.mode, i - 8); }
  }

  lemma NameHead(c: Cipher)
    requires Supported(c)
    ensures |NameOf(c)| > 8 && NameOf(c)[0] == 'A' && NameOf(c)[1] == 'E' && NameOf(c)[2] == 'S'
    ensures NameOf(c)[3] == '-' && NameOf(c)[7] == '-'
    ensures forall i :: 4 <= i < 7 ==> '0' <= NameOf(c)[i] <= '9'
  {
  }

  lemma DashThenMode(n: string, mode: string, i: nat)
    requires i < |n|
    ensures i + 1 + |mode| <= |n| && n[i..][..|"-" + mode|] == "-" + mode <==> n[i] == '-' && mode <= n[i + 1..]
  {
    var p := "-" + mode;
    if i + |p| <= |n| {
      var w := n[i..][..|p|];
      assert w[0] == n[i] && w[1..] == n[i + 1..][..|mode|];
      assert w == p <==> w[0] == p[0] && w[1..] == p[1..] by {
        assert w == [w[0]] + w[1..] && p == [p[0]] + p[1..];
      }
    }
  }

  lemma DashedModeFound(n: string, mode: string)
    ensures ContainsMode(n, mode) <==> exists i: nat :: i < |n| && n[i] == '-' && mode <= n[i + 1..]
  {
    var p := "-" + mode;
    if ContainsMode(n, mode) {
      var i :| 0 <= i <= |n| - |p| && n[i..][..|p|] == p;
      DashThenMode(n, mode, i);
    }
    if exists i: nat :: i < |n| && n[i] == '-' && mode <= n[i + 1..] {
      var i: nat :| i < |n| && n[i] == '-' && mode <= n[i + 1..];
      DashThenMode(n, mode, i);
    }
  }

  /** "-MODE" is found in a canonical name exactly when the text behind one of its dashes begins
      with MODE: the key size, the mode, or the "PAD" of the padded wrap mode. */
  lemma ContainsModeIsPrefix(c: Cipher, mode: string)
    requires Supported(c)
    ensures ContainsMode(NameOf(c), mode)
       <==> mode <= NameOf(c)[4..] || mode <= ModeText(c.mode) || (c.mode == WRAPPAD && mode <= "PAD")
  {
    var n := NameOf(c);
    NameTail(c);
    DashedModeFound(n, mode);
    forall i: nat | i < |n|
      ensures n[i] == '-' <==> i == 3 || i == 7 || (c.mode == WRAPPAD && i == 12)
    {
      DashInName(c, i);
    }
    if c.mode == WRAPPAD { assert n[13..] == n[8..][5..] == "PAD"; }
    assert n[3] == '-' && n[7] == '-' && (c.mode == WRAPPAD ==> n[12] == '-');
  }

  /** Behind the key size, a text that begins with a capital letter other than 'P'. */
  lemma ContainsLetters(c: Cipher, mode: string)
    requires Supported(c) && mode != "" && 'A' <= mode[0] <= 'Z' && mode[0] != 'P'
    ensures ContainsMode(NameOf(c), mode) <==> mode <= ModeText(c.mode)
  {
    ContainsModeIsPrefix(c, mode);
    NameHead(c);
    PrefixStart(mode, NameOf(c)[4..]);
    PrefixStart(mode, "PAD");
  }

  lemma PrefixStart(p: string, s: string)
    requires p != ""
    ensures p <= s ==> s != "" && p[0] == s[0]
  {
  }

  lemma ToolRouteIsByMode(c: Cipher)
    requires Supported(c)
    ensures ToolRoute(NameOf(c)) == RouteOf(c.mode)
    ensures IsAead(NameOf(c)) <==> c.mode == GCM || c.mode == CCM || c.mode == OCB
    ensures IsEcb(NameOf(c)) || IsWrap(NameOf(c)) <==> c.mode == ECB || c.mode == WRAP || c.mode == WRAPPAD
  {
    ContainsLetters(c, "ECB");
    ContainsLetters(c, "GCM");
    ContainsLetters(c, "GCM-SIV");
    ContainsLetters(c, "CCM");
    ContainsLetters(c, "OCB");
    ContainsLetters(c, "WRAP");
    ModePrefixes(c.mode);
  }

  lemma ModePrefixes(mode: Mode)
    ensures "ECB" <= ModeText(mode) <==> mode == ECB
    ensures "GCM" <= ModeText(mode) <==> mode == GCM
    ensures !("GCM-SIV" <= ModeText(mode))
    ensures "CCM" <= ModeText(mode) <==> mode == CCM
    ensures "OCB" <= ModeText(mode) <==> mode == OCB
    ensures "WRAP" <= ModeText(mode) <==> mode == WRAP || mode == WRAPPAD
  {
    var m := ModeText(mode);
    assert "ECB" <= m ==> m[0] == 'E';
    assert "GCM" <= m ==> m[0] == 'G';
    assert "CCM" <= m ==> m[1] == 'C';
    assert "OCB" <= m ==> m[0] == 'O' && m[1] == 'C';
    assert "WRAP" <= m ==> m[0] == 'W';
  }

  // ----- From a spelling to the letters of its mode -----

  /** The letters by which the raw spellings of a mode are recognised. */
  function Needle(mode: Mode): string {
    match mode
    case GCM => "gcm" case CCM => "ccm" case OCB => "ocb"
    case ECB => "ecb" case WRAP => "wrap" case WRAPPAD => "wrap"
    case _ => ""
  }

  predicate IsNeedle(p: string) {
    p == "gcm" || p == "ccm" || p == "ocb" || p == "ecb" || p == "wrap"
  }

  /** The squashed spelling of a cipher: "AES", key size, mode. */
  ghost predicate Spells(q: string, c: Cipher) {
    |q| >= 6 && q[..6] == "AES" + BitsText(c.bits) && ModeLetters(q[6..]) == SquashedMode(c.mode)
  }

  lemma NamedSpells(s: string, c: Cipher)
    requires Named(s, c)
    ensures Spells(Squash(s), c)
  {
    var q := Squash(s);
    SquashOfCanonical(q);
    LettersOfName(c);
    var l := Letters(q);
    assert l[..6] == q[..6] && l[6..] == ModeLetters(q[6..]);
    assert l[..6] == "AES" + BitsText(c.bits) && l[6..] == SquashedMode(c.mode);
  }

  /** The k characters from position i follow the key size directly and are all letters or
      digits. */
  ghost predicate AdjacentAt(s: string, i: nat, k: nat) {
    i + k <= |s| && |Squash(s[..i])| == 6 && forall j :: i <= j < i + k ==> IsAlnum(s[j])
  }

  lemma WindowLetters(q: string, a: nat, p: string)
    requires |p| >= 3 && a + |p| <= |q| && Lower(q[a..a + |p|]) == p
    ensures ToLower(q[a]) == p[0] && ToLower(q[a + 1]) == p[1] && ToLower(q[a + 2]) == p[2]
  {
    var w := q[a..a + |p|];
    assert w[0] == q[a] && w[1] == q[a + 1] && w[2] == q[a + 2];
    assert Lower(w)[0] == p[0] && Lower(w)[1] == p[1] && Lower(w)[2] == p[2];
  }

  /** Where the letters of a needle can stand in a squashed name. */
  lemma LettersInName(q: string, c: Cipher, a: nat, p: string)
    requires Spells(q, c)
    requires IsNeedle(p) && a + |p| <= |q| && Lower(q[a..a + |p|]) == p
    ensures a == 6 && p == Needle(c.mode)
  {
    var m := q[6..];
    assert m == SquashedMode(c.mode) || (m == "CFB" && c.mode == CFB128);
    var head := q[..6];
    assert q[0] == head[0] && q[1] == head[1] && q[2] == head[2];
    assert q[3] == head[3] && q[4] == head[4] && q[5] == head[5];
    NeedleLetters(p);
    WindowLetters(q, a, p);
    assert a >= 6;
    assert q[a] == m[a - 6] && q[a + 1] == m[a - 5] && q[a + 2] == m[a - 4];
    MatchInMode(m, c.mode, a - 6, p);
  }

  lemma MatchInMode(m: string, mode: Mode, b: nat, p: string)
    requires m == SquashedMode(mode) || (m == "CFB" && mode == CFB128)
    requires IsNeedle(p) && b + 2 < |m|
    requires ToLower(m[b]) == p[0] && ToLower(m[b + 1]) == p[1] && ToLower(m[b + 2]) == p[2]
    ensures b == 0 && p == Needle(mode)
  {
  }

  /** The letters of a needle as they stand in the squashed name of its own mode. */
  lemma NeedleOfMode(q: string, c: Cipher)
    requires Spells(q, c)
    ensures |q| >= 6 + |Needle(c.mode)| && Lower(q[6..6 + |Needle(c.mode)|]) == Needle(c.mode)
  {
    var m, k := q[6..], |Needle(c.mode)|;
    assert m == SquashedMode(c.mode) || Needle(c.mode) == "";
    NeedleInMode(c.mode);
    assert q[6..6 + k] == m[..k];
  }

  lemma NeedleInMode(mode: Mode)
    ensures |Needle(mode)| <= |SquashedMode(mode)|
    ensures Lower(SquashedMode(mode)[..|Needle(mode)|]) == Needle(mode)
  {
  }

  ghost predicate StandsAt(s: string, p: string, i: nat) {
    i + |p| <= |s| && Lower(s)[i..][..|p|] == p
  }

  lemma StandingWindow(s: string, p: string, i: nat)
    requires i + |p| <= |s|
    ensures StandsAt(s, p, i) <==> Lower(s[i..i + |p|]) == p
  {
    assert Lower(s)[i..][..|p|] == Lower(s[i..i + |p|]);
  }

  lemma NeedleLetters(p: string)
    requires IsNeedle(p)
    ensures |p| >= 3 && forall j :: 0 <= j < |p| ==> 'a' <= p[j] <= 'z'
  {
  }

  lemma StandingIsAlnum(s: string, p: string, i: nat)
    requires IsNeedle(p) && StandsAt(s, p, i)
    ensures forall t :: i <= t < i + |p| ==> IsAlnum(s[t])
  {
    StandingWindow(s, p, i);
    NeedleLetters(p);
    var w := s[i..i + |p|];
    forall t | i <= t < i + |p| ensures IsAlnum(s[t]) {
      assert w[t - i] == s[t] && ToLower(w[t - i]) == p[t - i];
    }
  }

  lemma StandsInSquashed(s: string, p: string, i: nat)
    requires IsNeedle(p) && StandsAt(s, p, i)
    ensures var a := |Squash(s[..i])|;
            a + |p| <= |Squash(s)| && Lower(Squash(s)[a..a + |p|]) == p
  {
    StandingIsAlnum(s, p, i);
    StandingWindow(s, p, i);
    SquashWindow(s, i, |p|);
    LowerOfUpper(s[i..i + |p|]);
  }

  lemma StandsThenAdjacent(s: string, c: Cipher, p: string, i: nat)
    requires Spells(Squash(s), c) && IsNeedle(p) && StandsAt(s, p, i)
    ensures p == Needle(c.mode) && AdjacentAt(s, i, |p|)
  {
    StandingIsAlnum(s, p, i);
    StandsInSquashed(s, p, i);
    LettersInName(Squash(s), c, |Squash(s[..i])|, p);
  }

  lemma AdjacentThenStands(s: string, c: Cipher, i: nat)
    requires Spells(Squash(s), c) && AdjacentAt(s, i, |Needle(c.mode)|)
    ensures StandsAt(s, Needle(c.mode), i)
  {
    var p := Needle(c.mode);
    NeedleOfMode(Squash(s), c);
    SquashWindow(s, i, |p|);
    LowerOfUpper(s[i..i + |p|]);
    StandingWindow(s, p, i);
  }

  // ----- Main results -----

  /** The letters of the mode follow the key size side by side. */
  ghost predicate ModeAdjacent(s: string, mode: Mode) {
    exists i: nat :: AdjacentAt(s, i, |Needle(mode)|)
  }

  /** The same, with a dash right in front of them. */
  ghost predicate ModeDashed(s: string, mode: Mode) {
    exists i: nat :: 0 < i <= |s| && s[i - 1] == '-' && AdjacentAt(s, i, |Needle(mode)|)
  }

  lemma SearchPlain(s: string, c: Cipher, p: string)
    requires Spells(Squash(s), c) && IsNeedle(p)
    ensures Contains(Lower(s), p) <==> p == Needle(c.mode) && ModeAdjacent(s, c.mode)
  {
    if Contains(Lower(s), p) {
      var i :| 0 <= i <= |s| - |p| && Lower(s)[i..][..|p|] == p;
      assert StandsAt(s, p, i);
      StandsThenAdjacent(s, c, p, i);
    }
    if p == Needle(c.mode) && ModeAdjacent(s, c.mode) {
      var i: nat :| AdjacentAt(s, i, |p|);
      AdjacentThenStands(s, c, i);
    }
  }

  lemma DashThenStands(s: string, p: string, i: nat)
    requires 0 < i && i + |p| <= |s|
    ensures Lower(s)[i - 1..][..|p| + 1] == "-" + p <==> s[i - 1] == '-' && StandsAt(s, p, i)
  {
    var l := Lower(s);
    var w := l[i - 1..][..|p| + 1];
    assert l[i - 1] == '-' <==> s[i - 1] == '-';
    assert w == [l[i - 1]] + l[i..][..|p|];
    if w == "-" + p {
      assert w[0] == '-' && w[1..] == p;
    }
  }

  lemma SearchDashed(s: string, c: Cipher, p: string)
    requires Spells(Squash(s), c) && IsNeedle(p)
    ensures Contains(Lower(s), "-" + p) <==> p == Needle(c.mode) && ModeDashed(s, c.mode)
  {
    var pat := "-" + p;
    if Contains(Lower(s), pat) {
      var i :| 0 <= i <= |s| - |pat| && Lower(s)[i..][..|pat|] == pat;
      DashThenStands(s, p, i + 1);
      StandsThenAdjacent(s, c, p, i + 1);
    }
    if p == Needle(c.mode) && ModeDashed(s, c.mode) {
      var i: nat :| 0 < i <= |s| && s[i - 1] == '-' && AdjacentAt(s, i, |p|);
      AdjacentThenStands(s, c, i);
      DashThenStands(s, p, i);
    }
  }

  lemma CliRouteByNeedle(s: string, c: Cipher)
    requires Spells(Squash(s), c)
    ensures CliRoute(s) == if ModeAdjacent(s, c.mode) then RouteOf(c.mode) else WithIv
  {
    SearchPlain(s, c, "gcm");
    SearchPlain(s, c, "ccm");
    SearchPlain(s, c, "ocb");
    SearchPlain(s, c, "ecb");
    SearchPlain(s, c, "wrap");
    assert Lower(Lower(s)) == Lower(s);
  }

  lemma GuiRouteByNeedle(s: string, c: Cipher)
    requires Spells(Squash(s), c)
    ensures GuiRoute(s) == if ModeDashed(s, c.mode) then RouteOf(c.mode) else WithIv
  {
    SearchDashed(s, c, "gcm");
    SearchDashed(s, c, "ccm");
    SearchDashed(s, c, "ocb");
    SearchDashed(s, c, "ecb");
    SearchDashed(s, c, "wrap");
    assert "-" + "gcm" == "-gcm" && "-" + "ccm" == "-ccm" && "-" + "ocb" == "-ocb";
    assert "-" + "ecb" == "-ecb" && "-" + "wrap" == "-wrap";
  }

  lemma ToolRouteOfSpelling(s: string, c: Cipher)
    requires ResolveCipher(s) == Some(c)
    ensures Spells(Squash(s), c) && Canonical(s).Ok? && ToolRoute(Canonical(s).value) == RouteOf(c.mode)
  {
    ResolvesIffNamed(s, c);
    NamedSpells(s, c);
    ToolRouteIsByMode(c);
  }

  /** For every spelling that resolves: when the command line or the GUI takes it for AEAD, the
      tool does too, and when one of them leaves out the IV, the tool wants none. */
  lemma DispatchIsSound(s: string)
    requires ResolveCipher(s).Some?
    ensures Canonical(s).Ok?
    ensures CliRoute(s) == Aead ==> IsAead(Canonical(s).value)
    ensures GuiRoute(s) == Aead ==> IsAead(Canonical(s).value)
    ensures CliRoute(s) != WithIv ==> CliRoute(s) == ToolRoute(Canonical(s).value)
    ensures GuiRoute(s) != WithIv ==> GuiRoute(s) == ToolRoute(Canonical(s).value)
  {
    var c := ResolveCipher(s).value;
    ToolRouteOfSpelling(s, c);
    CliRouteByNeedle(s, c);
    GuiRouteByNeedle(s, c);
  }

  /** A mode that the classical calls use with an IV. */
  predicate TakesIv(mode: Mode) {
    mode == CBC || mode == CTR || mode == OFB || mode == CFB128 || mode == CFB1 || mode == CFB8 || mode == XTS
  }

  lemma AgreeBySpelling(s: string, c: Cipher, tool: Route)
    requires Spells(Squash(s), c) && tool == RouteOf(c.mode)
    ensures CliRoute(s) == tool <==> TakesIv(c.mode) || ModeAdjacent(s, c.mode)
    ensures GuiRoute(s) == tool <==> TakesIv(c.mode) || ModeDashed(s, c.mode)
  {
    CliRouteByNeedle(s, c);
    GuiRouteByNeedle(s, c);
    assert tool == WithIv <==> TakesIv(c.mode);
  }

  /** And exactly when they agree: for a mode that wants an IV always, for any other mode just
      when its letters follow the key size side by side (the GUI: behind a dash). */
  lemma DispatchAgreesExactly(s: string, c: Cipher)
    requires ResolveCipher(s) == Some(c)
    ensures Canonical(s).Ok?
    ensures CliRoute(s) == ToolRoute(Canonical(s).value) <==> TakesIv(c.mode) || ModeAdjacent(s, c.mode)
    ensures GuiRoute(s) == ToolRoute(Canonical(s).value) <==> TakesIv(c.mode) || ModeDashed(s, c.mode)
  {
    ToolRouteOfSpelling(s, c);
    AgreeBySpelling(s, c, ToolRoute(Canonical(s).value));
  }

  /** The entry of the GUI's list for a cipher. */
  function GuiMode(mode: Mode): string {
    match mode
    case CBC => "cbc" case ECB => "ecb" case OFB => "ofb"
    case CFB128 => "cfb" case CFB1 => "cfb1" case CFB8 => "cfb8"
    case CTR => "ctr" case GCM => "gcm" case CCM => "ccm" case OCB => "ocb"
    case WRAP => "wrap" case WRAPPAD => "wrap-pad" case XTS => "xts"
  }

  function GuiText(c: Cipher): string {
    "aes-" + BitsText(c.bits) + "-" + GuiMode(c.mode)
  }

  /** The mode of an entry in capital letters. */
  function GuiModeUpper(mode: Mode): string {
    if mode == CFB128 then "CFB" else ModeText(mode)
  }

  lemma GuiModeIsLower(mode: Mode)
    ensures GuiMode(mode) == Lower(GuiModeUpper(mode))
  {
  }

  lemma GuiTextIsLower(c: Cipher)
    ensures GuiText(c) == Lower("AES-" + BitsText(c.bits) + "-" + GuiModeUpper(c.mode))
  {
    GuiModeIsLower(c.mode);
    assert Lower("AES-") == "aes-" && Lower(BitsText(c.bits)) == BitsText(c.bits);
    LowerAppend("AES-", BitsText(c.bits));
    LowerAppend("AES-" + BitsText(c.bits), "-");
    LowerAppend("AES-" + BitsText(c.bits) + "-", GuiModeUpper(c.mode));
  }

  lemma GuiLetters(c: Cipher)
    requires Supported(c)
    ensures Squash(GuiText(c)) == "AES" + BitsText(c.bits) + if c.mode == CFB128 then "CFB" else SquashedMode(c.mode)
  {
    GuiTextIsLower(c);
    SquashIgnoresCase("AES-" + BitsText(c.bits) + "-" + GuiModeUpper(c.mode));
    SquashOfName(BitsText(c.bits), GuiModeUpper(c.mode));
    if c.mode == WRAPPAD { ModeDashes(); } else { SquashFixes(GuiModeUpper(c.mode)); }
  }

  lemma GuiNames(c: Cipher)
    requires Supported(c)
    ensures Named(GuiText(c), c)
  {
    GuiLetters(c);
    FromLettersOfName(c);
    var q, full := Squash(GuiText(c)), "AES" + BitsText(c.bits) + SquashedMode(c.mode);
    assert q[..6] == full[..6] == "AES" + BitsText(c.bits);
    assert q[6..] == (if c.mode == CFB128 then "CFB" else SquashedMode(c.mode)) && full[6..] == SquashedMode(c.mode);
    assert Letters(q) == Letters(full);
    FromLettersOfLetters(q);
    FromLettersOfLetters(full);
  }

  lemma GuiHead(c: Cipher)
    requires Supported(c)
    ensures |Squash(GuiText(c)[..8])| == 6
  {
    var head := "AES-" + BitsText(c.bits) + "-" + "";
    assert Lower(head) == GuiText(c)[..8];
    SquashIgnoresCase(head);
    SquashOfName(BitsText(c.bits), "");
  }

  /** The mode letters of an entry stand behind its second dash. */
  lemma GuiModeDashed(c: Cipher)
    requires Supported(c)
    ensures ModeDashed(GuiText(c), c.mode) && ModeAdjacent(GuiText(c), c.mode)
  {
    var s, k := GuiText(c), |Needle(c.mode)|;
    assert s[7] == '-' && s[8..] == GuiMode(c.mode);
    GuiHead(c);
    assert k <= |GuiMode(c.mode)| && forall j :: 0 <= j < k ==> IsAlnum(GuiMode(c.mode)[j]);
    assert forall j :: 8 <= j < 8 + k ==> s[j] == s[8..][j - 8];
    assert AdjacentAt(s, 8, k);
  }

  /** Every cipher has one entry in the GUI's list; it stands for that cipher, and GUI, command
      line and tool classify it alike. */
  lemma GuiListAgrees(c: Cipher)
    requires Supported(c)
    ensures ResolveCipher(GuiText(c)) == Some(c) && Canonical(GuiText(c)).Ok?
    ensures GuiRoute(GuiText(c)) == CliRoute(GuiText(c)) == ToolRoute(Canonical(GuiText(c)).value) == RouteOf(c.mode)
  {
    GuiNames(c);
    ResolvesIffNamed(GuiText(c), c);
    GuiModeDashed(c);
    ToolRouteOfSpelling(GuiText(c), c);
    CliRouteByNeedle(GuiText(c), c);
    GuiRouteByNeedle(GuiText(c), c);
  }

  /** On the command line a dot inside the mode letters of any cipher that takes no plain IV is
      enough to part the command line's test, and the GUI's, from the tool's. */
  lemma DottedModeMisroutes(c: Cipher)
    requires Supported(c) && !TakesIv(c.mode)
    ensures var s := NameOf(c)[..9] + "." + NameOf(c)[9..];
            && ResolveCipher(s) == Some(c)
            && CliRoute(s) == GuiRoute(s) == WithIv
            && Canonical(s).Ok? && ToolRoute(Canonical(s).value) != WithIv
  {
    var n := NameOf(c);
    NameOfParts(c);
    var s := n[..9] + "." + n[9..];
    DotKeepsSquash(n[..9], n[9..]);
    assert n[..9] + n[9..] == n;
    NameIsCanonical(c);
    assert Named(s, c);
    DottedRoutes(s, c);
  }

  lemma DottedRoutes(s: string, c: Cipher)
    requires Named(s, c) && Needle(c.mode) != ""
    requires |NameOf(c)| > 8 && s == NameOf(c)[..9] + "." + NameOf(c)[9..]
    ensures ResolveCipher(s) == Some(c)
    ensures CliRoute(s) == GuiRoute(s) == WithIv
    ensures Canonical(s).Ok? && ToolRoute(Canonical(s).value) != WithIv
  {
    ResolvesIffNamed(s, c);
    DottedNotAdjacent(c, s);
    ToolRouteOfSpelling(s, c);
    CliRouteByNeedle(s, c);
    GuiRouteByNeedle(s, c);
  }

  lemma DotKeepsSquash(front: string, back: string)
    ensures Squash(front + "." + back) == Squash(front + back)
  {
    SquashIgnores(front, '.');
    SquashAppend(front + ".", back);
    SquashAppend(front, back);
  }

  /** Squashing never lengthens a front part. */
  lemma SquashFrontGrows(s: string, i: nat, j: nat)
    requires i <= j <= |s|
    ensures |Squash(s[..i])| <= |Squash(s[..j])|
  {
    assert s[..j] == s[..i] + s[i..j];
    SquashAppend(s[..i], s[i..j]);
  }

  lemma DottedNotAdjacent(c: Cipher, s: string)
    requires Supported(c) && Needle(c.mode) != ""
    requires s == NameOf(c)[..9] + "." + NameOf(c)[9..]
    ensures !ModeAdjacent(s, c.mode) && !ModeDashed(s, c.mode)
  {
    var n := NameOf(c);
    NameOfParts(c);
    LettersOfName(c);
    forall i: nat ensures !AdjacentAt(s, i, |Needle(c.mode)|) {
      if AdjacentAt(s, i, |Needle(c.mode)|) {
        assert s[7] == '-' && s[9] == '.' && !IsAlnum('-') && !IsAlnum('.');
        NeedleLengths(c.mode);
        if i >= 9 {
          var first := ModeText(c.mode)[..1];
          assert first == [ModeText(c.mode)[0]] && s[..9] == "AES-" + BitsText(c.bits) + "-" + first;
          SquashOfName(BitsText(c.bits), first);
          SquashChar(ModeText(c.mode)[0]);
          SquashFrontGrows(s, 9, i);
        } else if i <= 6 {
          SquashFrontGrows(s, i, 6);
          assert s[..6] == "AES-" + BitsText(c.bits)[..2];
          FrontIsShort(s[..6], 3);
        }
      }
    }
  }

  lemma NeedleLengths(mode: Mode)
    ensures Needle(mode) != "" ==> |Needle(mode)| >= 3
  {
  }

  lemma FrontIsShort(t: string, k: nat)
    requires k < |t| && t[k] == '-'
    ensures |Squash(t)| < |t|
  {
    assert t == t[..k] + t[k..k + 1] + t[k + 1..];
    SquashAppend(t[..k] + t[k..k + 1], t[k + 1..]);
    SquashAppend(t[..k], t[k..k + 1]);
    assert t[k..k + 1] == ['-'];
    SquashChar('-');
    SquashNotLonger(t[..k]);
    SquashNotLonger(t[k + 1..]);
  }

  lemma {:induction false} SquashNotLonger(t: string)
    ensures |Squash(t)| <= |t|
  {
    if t != "" { SquashNotLonger(t[..|t| - 1]); }
  }
}
