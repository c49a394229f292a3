/** `normalize_cipher_name`, `contains_mode`, the mode predicates and `resolve_cipher` of the
    AES tool. */
module CipherNames {
  import opened Basics
  import opened AlgorithmNames

  /** The spellings of a mode that the normaliser rewrites. */
  function ModeAlias(mode: string): string {
    if mode == "CFB" then "CFB128"
    else if mode == "WRAPPAD" then "WRAP-PAD"
    else if mode == "GCMSIV" then "GCM-SIV"
    else if mode == "CBCHMACSHA1" then "CBC-HMAC-SHA1"
    else if mode == "CBCHMACSHA256" then "CBC-HMAC-SHA256"
    else mode
  }

  predicate IsKeySize(bits: string) {
    bits == "128" || bits == "192" || bits == "256"
  }

  /** The canonical name for squashed letters, or nothing when the normaliser throws. */
  function FromLetters(out: string): Result<string> {
    if !("AES" <= out) then Err
    else
      var rest := out[3..];
      if |rest| < 3 || !IsKeySize(rest[..3]) then Err
      else
        var mode := ModeAlias(rest[3..]);
        if mode == "" then Err else Ok("AES-" + rest[..3] + "-" + mode)
  }

  function Canonical(name: string): Result<string> {
    FromLetters(Squash(name))
  }

  /** The code: test and erase the prefix, test and erase the key size, rewrite the mode. */
  method NormalizeCipherName(s: string) returns (r: Result<string>)
    ensures r == Canonical(s)
  {
    var out := SquashName(s);
    if !("AES" <= out) { return Err; }
    out := out[3..];
    var bits;
    if "128" <= out {
      bits := "128";
    } else if "192" <= out {
      bits := "192";
    } else if "256" <= out {
      bits := "256";
    } else {
      assert |out| >= 3 ==> !IsKeySize(out[..3]);
      return Err;
    }
    assert out[..3] == bits;
    out := out[3..];
    var mode := out;
    if mode == "CFB" {
      mode := "CFB128";
    } else if mode == "WRAPPAD" {
      mode := "WRAP-PAD";
    } else if mode == "GCMSIV" {
      mode := "GCM-SIV";
    } else if mode == "CBCHMACSHA1" {
      mode := "CBC-HMAC-SHA1";
    } else if mode == "CBCHMACSHA256" {
      mode := "CBC-HMAC-SHA256";
    }
    if mode == "" { return Err; }
    return Ok("AES-" + bits + "-" + mode);
  }

  // ----- Canonicalisation -----

  /** The one pair of modes that the normaliser identifies. */
  function ModeLetters(mode: string): string {
    if mode == "CFB" then "CFB128" else mode
  }

  function Letters(out: string): string {
    if |out| >= 6 then out[..6] + ModeLetters(out[6..]) else out
  }

  lemma ModeDashes()
    ensures Squash("WRAP-PAD") == "WRAPPAD" && Squash("GCM-SIV") == "GCMSIV"
  {
    SquashDashed("WRAPPAD", 4, "WRAP-PAD");
    SquashDashed("GCMSIV", 3, "GCM-SIV");
  }

  lemma HmacDashes(tail: string, out: string, dashed: string)
    requires IsSquashed(tail)
    requires out == "CBCHMAC" + tail && dashed == "CBC-HMAC-" + tail
    ensures Squash(dashed) == out
  {
    SquashDashed("CBCHMAC", 3, "CBC-HMAC");
    assert "CBC-HMAC" + "-" == "CBC-HMAC-";
    SquashIgnores("CBC-HMAC", '-');
    SquashAppend("CBC-HMAC-", tail);
    SquashFixes(tail);
  }

  lemma SquashOfMode(mode: string)
    requires IsSquashed(mode)
    ensures Squash(ModeAlias(mode)) == ModeLetters(mode)
  {
    if mode == "CFB" {
      SquashFixes("CFB128");
    } else if mode == "WRAPPAD" || mode == "GCMSIV" {
      ModeDashes();
    } else if mode == "CBCHMACSHA1" {
      HmacDashes("SHA1", "CBCHMACSHA1", "CBC-HMAC-SHA1");
    } else if mode == "CBCHMACSHA256" {
      HmacDashes("SHA256", "CBCHMACSHA256", "CBC-HMAC-SHA256");
    } else {
      SquashFixes(mode);
    }
  }

  lemma AliasOfModeLetters(mode: string)
    ensures ModeAlias(ModeLetters(mode)) == ModeAlias(mode)
    ensures ModeLetters(mode) == "" <==> mode == ""
  {
  }

  lemma SquashOfName(bits: string, mode: string)
    requires IsKeySize(bits)
    ensures Squash("AES-" + bits + "-" + mode) == "AES" + bits + Squash(mode)
  {
    var prefix := "AES-" + bits;
    assert Squash(prefix) == "AES" + bits by {
      SquashFixes("AES");
      SquashFixes(bits);
      assert "AES" + "-" == "AES-";
      SquashIgnores("AES", '-');
      SquashAppend("AES-", bits);
    }
    SquashIgnores(prefix, '-');
    SquashAppend(prefix + "-", mode);
  }

  /** Squashing a canonical name gives its letters back, with "CFB" spelled out. */
  lemma SquashOfCanonical(out: string)
    requires IsSquashed(out) && FromLetters(out).Ok?
    ensures Squash(FromLetters(out).value) == Letters(out)
  {
    var bits, mode := out[3..][..3], out[3..][3..];
    assert bits == out[3..6] && mode == out[6..];
    SquashOfName(bits, ModeAlias(mode));
    SquashOfMode(mode);
    assert out[..6] == "AES" + bits;
  }

  lemma FromLettersOfLetters(out: string)
    ensures FromLetters(Letters(out)) == FromLetters(out)
  {
    if |out| >= 6 {
      var l := Letters(out);
      assert l[..6] == out[..6] && l[6..] == ModeLetters(out[6..]);
      AliasOfModeLetters(out[6..]);
      assert out[3..][..3] == out[..6][3..] && out[3..][3..] == out[6..];
      assert l[3..][..3] == l[..6][3..] && l[3..][3..] == l[6..];
      assert "AES" <= out <==> out[..6][..3] == "AES" by { assert out[..6][..3] == out[..3]; }
      assert "AES" <= l <==> l[..6][..3] == "AES" by { assert l[..6][..3] == l[..3]; }
    }
  }

  /** The normaliser never rejects its own output and leaves it as it is. */
  lemma CanonicalIsIdempotent(name: string)
    requires Canonical(name).Ok?
    ensures Canonical(Canonical(name).value) == Canonical(name)
  {
    SquashOfCanonical(Squash(name));
    FromLettersOfLetters(Squash(name));
  }

  /** Two accepted names have the same canonical name exactly when their upper-cased letters
      and digits agree, mode "CFB" counting as "CFB128". */
  lemma SameCanonical(a: string, b: string)
    requires Canonical(a).Ok? && Canonical(b).Ok?
    ensures Canonical(a) == Canonical(b) <==>
              || Squash(a) == Squash(b)
              || CfbPair(Squash(a), Squash(b)) || CfbPair(Squash(b), Squash(a))
  {
    SquashOfCanonical(Squash(a));
    SquashOfCanonical(Squash(b));
    FromLettersOfLetters(Squash(a));
    FromLettersOfLetters(Squash(b));
    LettersAgree(Squash(a), Squash(b));
  }

  ghost predicate CfbPair(p: string, q: string) {
    exists bits :: IsKeySize(bits) && p == "AES" + bits + "CFB" && q == "AES" + bits + "CFB128"
  }

  lemma LettersAgree(p: string, q: string)
    requires FromLetters(p).Ok? && FromLetters(q).Ok?
    ensures Letters(p) == Letters(q) <==> p == q || CfbPair(p, q) || CfbPair(q, p)
  {
    LettersParts(p);
    LettersParts(q);
    if Letters(p) == Letters(q) && p != q {
      assert p == p[..6] + p[6..] && q == q[..6] + q[6..];
      assert Letters(p)[..6] == Letters(q)[..6] && Letters(p)[6..] == Letters(q)[6..];
      if p[6..] == "CFB" { CfbPairs(p, q); } else { CfbPairs(q, p); }
    }
    if CfbPair(p, q) { CfbLetters(p, q); }
    if CfbPair(q, p) { CfbLetters(q, p); }
  }

  lemma CfbPairs(p: string, q: string)
    requires |p| >= 6 && |q| >= 6 && p[..6] == q[..6] == "AES" + p[3..6] && IsKeySize(p[3..6])
    requires p[6..] == "CFB" && q[6..] == "CFB128"
    ensures CfbPair(p, q)
  {
    assert p == p[..6] + p[6..] && q == q[..6] + q[6..];
  }

  lemma LettersParts(p: string)
    requires FromLetters(p).Ok?
    ensures |p| >= 6 && p[..3] == "AES" && IsKeySize(p[3..6]) && p[..6] == "AES" + p[3..6]
    ensures Letters(p)[..6] == p[..6] && Letters(p)[6..] == ModeLetters(p[6..])
  {
    assert p[3..][..3] == p[3..6];
  }

  lemma CfbLetters(p: string, q: string)
    requires CfbPair(p, q)
    ensures Letters(p) == Letters(q)
  {
    var bits :| IsKeySize(bits) && p == "AES" + bits + "CFB" && q == "AES" + bits + "CFB128";
    assert p[6..] == "CFB" && q[6..] == "CFB128" && p[..6] == q[..6];
  }

  /** A name is accepted exactly when its letters and digits are "AES", a key size and a mode;
      its canonical name has dashes between them, and five modes are respelt. */
  lemma AcceptsExactly(name: string)
    ensures var q := Squash(name);
            && (Canonical(name).Ok? <==>
                  && |q| > 6 && q[..3] == "AES"
                  && (q[3..6] == "128" || q[3..6] == "192" || q[3..6] == "256"))
            && (Canonical(name).Ok? ==>
                  exists mode :: IsModeName(q[6..], mode) && Canonical(name).value == "AES-" + q[3..6] + "-" + mode)
  {
    var q := Squash(name);
    if Canonical(name).Ok? { LettersParts(q); }
    if |q| > 6 && q[..3] == "AES" && IsKeySize(q[3..6]) {
      assert q[3..][..3] == q[3..6] && q[3..][3..] == q[6..];
      AliasIsModeName(q[6..]);
    }
  }

  /** How the normaliser writes a mode. */
  ghost predicate IsModeName(mode: string, name: string) {
    && (mode == "CFB" ==> name == "CFB128")
    && (mode == "WRAPPAD" ==> name == "WRAP-PAD")
    && (mode == "GCMSIV" ==> name == "GCM-SIV")
    && (mode == "CBCHMACSHA1" ==> name == "CBC-HMAC-SHA1")
    && (mode == "CBCHMACSHA256" ==> name == "CBC-HMAC-SHA256")
    && (mode != "CFB" && mode != "WRAPPAD" && mode != "GCMSIV" && mode != "CBCHMACSHA1" && mode != "CBCHMACSHA256"
        ==> name == mode)
  }

  lemma AliasIsModeName(mode: string)
    ensures IsModeName(mode, ModeAlias(mode)) && (mode != "" ==> ModeAlias(mode) != "")
  {
  }

  // ----- The table -----

  datatype Mode = CBC | ECB | OFB | CFB128 | CFB1 | CFB8 | CTR | GCM | CCM | OCB | WRAP | WRAPPAD | XTS

  datatype Cipher = Cipher(bits: int, mode: Mode)

  function Lookup128(n: string): Option<Mode> {
    if n == "AES-128-CBC" then Some(CBC)
    else if n == "AES-128-ECB" then Some(ECB)
    else if n == "AES-128-OFB" then Some(OFB)
    else if n == "AES-128-CFB128" then Some(CFB128)
    else if n == "AES-128-CFB1" then Some(CFB1)
    else if n == "AES-128-CFB8" then Some(CFB8)
    else if n == "AES-128-CTR" then Some(CTR)
    else if n == "AES-128-GCM" then Some(GCM)
    else if n == "AES-128-CCM" then Some(CCM)
    else if n == "AES-128-OCB" then Some(OCB)
    else if n == "AES-128-WRAP" then Some(WRAP)
    else if n == "AES-128-WRAP-PAD" then Some(WRAPPAD)
    else if n == "AES-128-XTS" then Some(XTS)
    else None
  }

  function Lookup192(n: string): Option<Mode> {
    if n == "AES-192-CBC" then Some(CBC)
    else if n == "AES-192-ECB" then Some(ECB)
    else if n == "AES-192-OFB" then Some(OFB)
    else if n == "AES-192-CFB128" then Some(CFB128)
    else if n == "AES-192-CFB1" then Some(CFB1)
    else if n == "AES-192-CFB8" then Some(CFB8)
    else if n == "AES-192-CTR" then Some(CTR)
    else if n == "AES-192-GCM" then Some(GCM)
    else if n == "AES-192-CCM" then Some(CCM)
    else if n == "AES-192-OCB" then Some(OCB)
    else if n == "AES-192-WRAP" then Some(WRAP)
    else if n == "AES-192-WRAP-PAD" then Some(WRAPPAD)
    else None
  }

  function Lookup256(n: string): Option<Mode> {
    if n == "AES-256-CBC" then Some(CBC)
    else if n == "AES-256-ECB" then Some(ECB)
    else if n == "AES-256-OFB" then Some(OFB)
    else if n == "AES-256-CFB128" then Some(CFB128)
    else if n == "AES-256-CFB1" then Some(CFB1)
    else if n == "AES-256-CFB8" then Some(CFB8)
    else if n == "AES-256-CTR" then Some(CTR)
    else if n == "AES-256-GCM" then Some(GCM)
    else if n == "AES-256-CCM" then Some(CCM)
    else if n == "AES-256-OCB" then Some(OCB)
    else if n == "AES-256-WRAP" then Some(WRAP)
    else if n == "AES-256-WRAP-PAD" then Some(WRAPPAD)
    else if n == "AES-256-XTS" then Some(XTS)
    else None
  }

  function Lookup(n: string): Option<Cipher> {
    if Lookup128(n).Some? then Some(Cipher(128, Lookup128(n).value))
    else if Lookup192(n).Some? then Some(Cipher(192, Lookup192(n).value))
    else if Lookup256(n).Some? then Some(Cipher(256, Lookup256(n).value))
    else None
  }

  function ResolveCipher(name: string): Option<Cipher> {
    var n := Canonical(name);
    if n.Err? then None else Lookup(n.value)
  }

  /** `encrypt` and `decrypt` hand the canonical name on: it stands for the same cipher. */
  lemma CanonicalResolvesAlike(name: string)
    requires Canonical(name).Ok?
    ensures ResolveCipher(Canonical(name).value) == ResolveCipher(name)
  {
    CanonicalIsIdempotent(name);
  }

  function BitsText(bits: int): string {
    if bits == 128 then "128" else if bits == 192 then "192" else "256"
  }

  function ModeText(mode: Mode): string {
    match mode
    case CBC => "CBC" case ECB => "ECB" case OFB => "OFB"
    case CFB128 => "CFB128" case CFB1 => "CFB1" case CFB8 => "CFB8"
    case CTR => "CTR" case GCM => "GCM" case CCM => "CCM" case OCB => "OCB"
    case WRAP => "WRAP" case WRAPPAD => "WRAP-PAD" case XTS => "XTS"
  }

  predicate Supported(c: Cipher) {
    (c.bits == 128 || c.bits == 192 || c.bits == 256) && !(c.mode == XTS && c.bits == 192)
  }

  function NameOf(c: Cipher): string {
    "AES-" + BitsText(c.bits) + "-" + ModeText(c.mode)
  }

  lemma ModeTextInjective(a: Mode, b: Mode)
    requires ModeText(a) == ModeText(b)
    ensures a == b
  {
    var s, t := ModeText(a), ModeText(b);
    assert |s| == |t| && s[0] == t[0] && s[1] == t[1] && s[|s| - 1] == t[|t| - 1];
  }

  lemma NameOfParts(c: Cipher)
    ensures |NameOf(c)| > 8 && NameOf(c)[4..7] == BitsText(c.bits) && NameOf(c)[8..] == ModeText(c.mode)
  {
  }

  lemma NameOfInjective(c: Cipher, d: Cipher)
    requires IsSize(c.bits, BitsText(c.bits)) && IsSize(d.bits, BitsText(d.bits)) && NameOf(c) == NameOf(d)
    ensures c == d
  {
    NameOfParts(c);
    NameOfParts(d);
    ModeTextInjective(c.mode, d.mode);
    var s, t := BitsText(c.bits), BitsText(d.bits);
    assert s[0] == t[0] && s[1] == t[1];
  }

  lemma Names128()
    ensures NameOf(Cipher(128, CBC)) == "AES-128-CBC"
    ensures NameOf(Cipher(128, ECB)) == "AES-128-ECB"
    ensures NameOf(Cipher(128, OFB)) == "AES-128-OFB"
    ensures NameOf(Cipher(128, CFB128)) == "AES-128-CFB128"
    ensures NameOf(Cipher(128, CFB1)) == "AES-128-CFB1"
    ensures NameOf(Cipher(128, CFB8)) == "AES-128-CFB8"
    ensures NameOf(Cipher(128, CTR)) == "AES-128-CTR"
    ensures NameOf(Cipher(128, GCM)) == "AES-128-GCM"
    ensures NameOf(Cipher(128, CCM)) == "AES-128-CCM"
    ensures NameOf(Cipher(128, OCB)) == "AES-128-OCB"
    ensures NameOf(Cipher(128, WRAP)) == "AES-128-WRAP"
    ensures NameOf(Cipher(128, WRAPPAD)) == "AES-128-WRAP-PAD"
    ensures NameOf(Cipher(128, XTS)) == "AES-128-XTS"
  {
    assert "AES-" + "128" + "-" == "AES-128-";
  }

  lemma Lookup128Sound(n: string)
    ensures Lookup128(n).Some? ==> n == NameOf(Cipher(128, Lookup128(n).value))
  {
    Names128();
  }

  lemma Lookup128Complete(mode: Mode)
    ensures Lookup128(NameOf(Cipher(128, mode))).Some?
  {
    Names128();
  }

  lemma Names192()
    ensures NameOf(Cipher(192, CBC)) == "AES-192-CBC"
    ensures NameOf(Cipher(192, ECB)) == "AES-192-ECB"
    ensures NameOf(Cipher(192, OFB)) == "AES-192-OFB"
    ensures NameOf(Cipher(192, CFB128)) == "AES-192-CFB128"
    ensures NameOf(Cipher(192, CFB1)) == "AES-192-CFB1"
    ensures NameOf(Cipher(192, CFB8)) == "AES-192-CFB8"
    ensures NameOf(Cipher(192, CTR)) == "AES-192-CTR"
    ensures NameOf(Cipher(192, GCM)) == "AES-192-GCM"
    ensures NameOf(Cipher(192, CCM)) == "AES-192-CCM"
    ensures NameOf(Cipher(192, OCB)) == "AES-192-OCB"
    ensures NameOf(Cipher(192, WRAP)) == "AES-192-WRAP"
    ensures NameOf(Cipher(192, WRAPPAD)) == "AES-192-WRAP-PAD"
    ensures NameOf(Cipher(192, XTS)) == "AES-192-XTS"
  {
    assert "AES-" + "192" + "-" == "AES-192-";
  }

  lemma Lookup192Sound(n: string)
    ensures Lookup192(n).Some? ==> n == NameOf(Cipher(192, Lookup192(n).value)) && Lookup192(n).value != XTS
  {
    Names192();
  }

  lemma Lookup192Complete(mode: Mode)
    requires mode != XTS
    ensures Lookup192(NameOf(Cipher(192, mode))).Some?
  {
    Names192();
  }

  lemma Names256()
    ensures NameOf(Cipher(256, CBC)) == "AES-256-CBC"
    ensures NameOf(Cipher(256, ECB)) == "AES-256-ECB"
    ensures NameOf(Cipher(256, OFB)) == "AES-256-OFB"
    ensures NameOf(Cipher(256, CFB128)) == "AES-256-CFB128"
    ensures NameOf(Cipher(256, CFB1)) == "AES-256-CFB1"
    ensures NameOf(Cipher(256, CFB8)) == "AES-256-CFB8"
    ensures NameOf(Cipher(256, CTR)) == "AES-256-CTR"
    ensures NameOf(Cipher(256, GCM)) == "AES-256-GCM"
    ensures NameOf(Cipher(256, CCM)) == "AES-256-CCM"
    ensures NameOf(Cipher(256, OCB)) == "AES-256-OCB"
    ensures NameOf(Cipher(256, WRAP)) == "AES-256-WRAP"
    ensures NameOf(Cipher(256, WRAPPAD)) == "AES-256-WRAP-PAD"
    ensures NameOf(Cipher(256, XTS)) == "AES-256-XTS"
  {
    assert "AES-" + "256" + "-" == "AES-256-";
  }

  lemma Lookup256Sound(n: string)
    ensures Lookup256(n).Some? ==> n == NameOf(Cipher(256, Lookup256(n).value))
  {
    Names256();
  }

  lemma Lookup256Complete(mode: Mode)
    ensures Lookup256(NameOf(Cipher(256, mode))).Some?
  {
    Names256();
  }

  lemma LookupNames(n: string)
    ensures Lookup(n).Some? ==> Supported(Lookup(n).value) && n == NameOf(Lookup(n).value)
  {
    if Lookup128(n).Some? { Lookup128Sound(n); }
    else if Lookup192(n).Some? { Lookup192Sound(n); }
    else if Lookup256(n).Some? { Lookup256Sound(n); }
  }

  /** The table holds all thirteen modes in three key sizes, but for XTS with 192 bits. */
  lemma LookupIsNameOf(n: string, c: Cipher)
    ensures Lookup(n) == Some(c) <==> Supported(c) && n == NameOf(c)
  {
    LookupNames(n);
    if Supported(c) && n == NameOf(c) {
      if c.bits == 128 { Lookup128Complete(c.mode); }
      else if c.bits == 192 { Lookup192Complete(c.mode); }
      else { Lookup256Complete(c.mode); }
      assert Lookup(n).Some?;
      NameOfInjective(c, Lookup(n).value);
    }
  }

  /** A spelling resolves to a cipher exactly when its canonical name is that cipher's. */
  lemma ResolvesIffNamed(s: string, c: Cipher)
    ensures ResolveCipher(s) == Some(c) <==> Named(s, c)
  {
    if Canonical(s).Ok? {
      LookupIsNameOf(Canonical(s).value, c);
    }
  }

  predicate Named(s: string, c: Cipher) {
    Supported(c) && Canonical(s) == Ok(NameOf(c))
  }

  function SquashedMode(mode: Mode): string {
    if mode == WRAPPAD then "WRAPPAD" else ModeText(mode)
  }

  lemma LettersOfName(c: Cipher)
    ensures Squash(NameOf(c)) == "AES" + BitsText(c.bits) + SquashedMode(c.mode)
  {
    SquashOfName(BitsText(c.bits), ModeText(c.mode));
    if c.mode == WRAPPAD { ModeDashes(); } else { SquashFixes(ModeText(c.mode)); }
  }

  lemma FromLettersOfName(c: Cipher)
    ensures FromLetters("AES" + BitsText(c.bits) + SquashedMode(c.mode)) == Ok(NameOf(c))
  {
    var q := "AES" + BitsText(c.bits) + SquashedMode(c.mode);
    assert q[..3] == "AES" && q[3..][..3] == BitsText(c.bits) && q[3..][3..] == SquashedMode(c.mode);
    assert ModeAlias(SquashedMode(c.mode)) == ModeText(c.mode);
  }

  lemma NameIsCanonical(c: Cipher)
    ensures Canonical(NameOf(c)) == Canonical(Lower(NameOf(c))) == Ok(NameOf(c))
  {
    LettersOfName(c);
    FromLettersOfName(c);
    SquashIgnoresCase(NameOf(c));
  }

  /** Every supported cipher is reached by its name, in either case. */
  lemma NameResolves(c: Cipher)
    requires Supported(c)
    ensures ResolveCipher(NameOf(c)) == ResolveCipher(Lower(NameOf(c))) == Some(c)
  {
    NameIsCanonical(c);
    ResolvesIffNamed(NameOf(c), c);
    ResolvesIffNamed(Lower(NameOf(c)), c);
  }

  // ----- The ciphers by name -----

  predicate IsSize(n: int, bits: string) {
    (n == 128 && bits == "128") || (n == 192 && bits == "192") || (n == 256 && bits == "256")
  }

  lemma ModeReads(n: int, bits: string, text: string, mode: Mode)
    requires IsSize(n, bits) && text == Lower(ModeText(mode))
    ensures ResolveCipher("aes-" + bits + "-" + text) ==
              if n == 192 && mode == XTS then None else Some(Cipher(n, mode))
  {
    var c := Cipher(n, mode);
    assert BitsText(n) == bits;
    LowerName(c);
    NameIsCanonical(c);
    if Supported(c) {
      LookupIsNameOf(NameOf(c), c);
    } else if Lookup(NameOf(c)).Some? {
      LookupNames(NameOf(c));
      NameOfInjective(c, Lookup(NameOf(c)).value);
    }
  }

  lemma LowerName(c: Cipher)
    ensures Lower(NameOf(c)) == "aes-" + BitsText(c.bits) + "-" + Lower(ModeText(c.mode))
  {
    assert Lower("AES-") == "aes-" && Lower(BitsText(c.bits)) == BitsText(c.bits) && Lower("-") == "-";
    LowerAppend("AES-", BitsText(c.bits));
    LowerAppend("AES-" + BitsText(c.bits), "-");
    LowerAppend("AES-" + BitsText(c.bits) + "-", ModeText(c.mode));
  }

  /** The tool reads every cipher by its name, and knows no XTS with 192 bits. */
  lemma SupportedCiphers(n: int, bits: string, mode: Mode, text: string)
    requires IsSize(n, bits)
    requires match mode
             case CBC => text == "cbc"
             case ECB => text == "ecb"
             case OFB => text == "ofb"
             case CFB128 => text == "cfb128"
             case CFB1 => text == "cfb1"
             case CFB8 => text == "cfb8"
             case CTR => text == "ctr"
             case GCM => text == "gcm"
             case CCM => text == "ccm"
             case OCB => text == "ocb"
             case WRAP => text == "wrap"
             case WRAPPAD => text == "wrap-pad"
             case XTS => text == "xts"
    ensures ResolveCipher("aes-" + bits + "-" + text) ==
              if n == 192 && mode == XTS then None else Some(Cipher(n, mode))
  {
    assert text == Lower(ModeText(mode));
    ModeReads(n, bits, text, mode);
  }
}
