/** `normalize_digest_name` and `resolve_digest` of the hash tool. */
module DigestNames {
  import opened Basics
  import opened AlgorithmNames

  /** The comparisons at the end of the normaliser. */
  function Alias(out: string): string {
    if out == "SHA" then "SHA1"
    else if out == "SHA512224" then "SHA512-224"
    else if out == "SHA512256" then "SHA512-256"
    else if out == "SHA3224" then "SHA3-224"
    else if out == "SHA3256" then "SHA3-256"
    else if out == "SHA3384" then "SHA3-384"
    else if out == "SHA3512" then "SHA3-512"
    else if out == "SHAKE128" then "SHAKE128"
    else if out == "SHAKE256" then "SHAKE256"
    else if out == "MD5SHA1" then "MD5-SHA1"
    else out
  }

  function Canonical(name: string): string {
    Alias(Squash(name))
  }

  method NormalizeDigestName(s: string) returns (canonical: string)
    ensures canonical == Canonical(s)
  {
    var out := SquashName(s);
    if out == "SHA" { return "SHA1"; }
    if out == "SHA512224" { return "SHA512-224"; }
    if out == "SHA512256" { return "SHA512-256"; }
    if out == "SHA3224" { return "SHA3-224"; }
    if out == "SHA3256" { return "SHA3-256"; }
    if out == "SHA3384" { return "SHA3-384"; }
    if out == "SHA3512" { return "SHA3-512"; }
    if out == "SHAKE128" { return "SHAKE128"; }
    if out == "SHAKE256" { return "SHAKE256"; }
    if out == "MD5SHA1" { return "MD5-SHA1"; }
    return out;
  }

  /** The one pair of letter strings that the normaliser identifies. */
  function Letters(out: string): string {
    if out == "SHA" then "SHA1" else out
  }

  lemma Sha2Dashes()
    ensures Squash("SHA512-224") == "SHA512224" && Squash("SHA512-256") == "SHA512256"
    ensures Squash("MD5-SHA1") == "MD5SHA1"
  {
    SquashDashed("SHA512224", 6, "SHA512-224");
    SquashDashed("SHA512256", 6, "SHA512-256");
    SquashDashed("MD5SHA1", 3, "MD5-SHA1");
  }

  lemma Sha3Dashes()
    ensures Squash("SHA3-224") == "SHA3224" && Squash("SHA3-256") == "SHA3256"
    ensures Squash("SHA3-384") == "SHA3384" && Squash("SHA3-512") == "SHA3512"
  {
    SquashDashed("SHA3224", 4, "SHA3-224");
    SquashDashed("SHA3256", 4, "SHA3-256");
    SquashDashed("SHA3384", 4, "SHA3-384");
    SquashDashed("SHA3512", 4, "SHA3-512");
  }

  /** Squashing a canonical name gives its letters back. */
  lemma SquashOfAlias(out: string)
    requires IsSquashed(out)
    ensures Squash(Alias(out)) == Letters(out)
  {
    if out == "SHA" {
      SquashFixes("SHA1");
    } else if out == "SHA512224" || out == "SHA512256" || out == "MD5SHA1" {
      Sha2Dashes();
    } else if out == "SHA3224" || out == "SHA3256" || out == "SHA3384" || out == "SHA3512" {
      Sha3Dashes();
    } else {
      SquashFixes(out);
    }
  }

  lemma AliasOfLetters(out: string)
    ensures Alias(Letters(out)) == Alias(out)
  {
    if out == "SHA" { assert Alias("SHA1") == "SHA1"; }
  }

  /** Two names have the same canonical name exactly when their upper-cased letters and digits
      agree, "SHA" counting as "SHA1". */
  lemma SameCanonical(a: string, b: string)
    ensures Canonical(a) == Canonical(b) <==>
              || Squash(a) == Squash(b)
              || (Squash(a) == "SHA" && Squash(b) == "SHA1")
              || (Squash(a) == "SHA1" && Squash(b) == "SHA")
  {
    SquashOfAlias(Squash(a));
    SquashOfAlias(Squash(b));
    AliasOfLetters(Squash(a));
    AliasOfLetters(Squash(b));
  }

  lemma CanonicalIsIdempotent(name: string)
    ensures Canonical(Canonical(name)) == Canonical(name)
  {
    SquashOfAlias(Squash(name));
    AliasOfLetters(Squash(name));
  }

  datatype Md =
    | Sha1 | Sha224 | Sha256 | Sha384 | Sha512 | Sha512_224 | Sha512_256
    | Sha3_224 | Sha3_256 | Sha3_384 | Sha3_512 | Shake128 | Shake256 | Md5Sha1
  {
    predicate IsXof() { Shake128? || Shake256? }
  }

  function Lookup(n: string): Option<Md> {
    if n == "SHA1" then Some(Sha1)
    else if n == "SHA224" then Some(Sha224)
    else if n == "SHA256" then Some(Sha256)
    else if n == "SHA384" then Some(Sha384)
    else if n == "SHA512" then Some(Sha512)
    else if n == "SHA512-224" then Some(Sha512_224)
    else if n == "SHA512-256" then Some(Sha512_256)
    else if n == "SHA3-224" then Some(Sha3_224)
    else if n == "SHA3-256" then Some(Sha3_256)
    else if n == "SHA3-384" then Some(Sha3_384)
    else if n == "SHA3-512" then Some(Sha3_512)
    else if n == "SHAKE128" then Some(Shake128)
    else if n == "SHAKE256" then Some(Shake256)
    else if n == "MD5-SHA1" then Some(Md5Sha1)
    else None
  }

  function ResolveDigest(name: string): Option<Md> {
    Lookup(Canonical(name))
  }

  function NameOf(md: Md): string {
    match md
    case Sha1 => "SHA1" case Sha224 => "SHA224" case Sha256 => "SHA256"
    case Sha384 => "SHA384" case Sha512 => "SHA512"
    case Sha512_224 => "SHA512-224" case Sha512_256 => "SHA512-256"
    case Sha3_224 => "SHA3-224" case Sha3_256 => "SHA3-256"
    case Sha3_384 => "SHA3-384" case Sha3_512 => "SHA3-512"
    case Shake128 => "SHAKE128" case Shake256 => "SHAKE256"
    case Md5Sha1 => "MD5-SHA1"
  }

  lemma NameOfInjective(a: Md, b: Md)
    requires NameOf(a) == NameOf(b)
    ensures a == b
  {
    var s, t := NameOf(a), NameOf(b);
    assert |s| == |t| && s[2] == t[2] && s[3] == t[3] && s[|s| - 3] == t[|t| - 3] && s[|s| - 1] == t[|t| - 1];
  }

  /** The table gives each digest its own name. */
  lemma LookupIsNameOf(n: string, md: Md)
    ensures Lookup(n) == Some(md) <==> n == NameOf(md)
  {
    if n == NameOf(md) {
      assert Lookup(n).Some?;
      assert n == NameOf(Lookup(n).value);
      NameOfInjective(md, Lookup(n).value);
    }
  }

  /** Every digest is reached by its name, in either case. */
  lemma NameResolves(md: Md)
    ensures ResolveDigest(NameOf(md)) == ResolveDigest(Lower(NameOf(md))) == Some(md)
  {
    SquashIgnoresCase(NameOf(md));
    NameIsCanonical(md);
    LookupIsNameOf(NameOf(md), md);
  }

  predicate Dashed(md: Md) {
    md.Sha512_224? || md.Sha512_256? || md.Sha3_224? || md.Sha3_256? || md.Sha3_384? || md.Sha3_512? || md.Md5Sha1?
  }

  lemma DashedIsCanonical(md: Md)
    requires Dashed(md)
    ensures Canonical(NameOf(md)) == NameOf(md)
  {
    Sha2Dashes();
    Sha3Dashes();
  }

  lemma PlainIsCanonical(md: Md)
    requires !Dashed(md)
    ensures Canonical(NameOf(md)) == NameOf(md)
  {
    assert IsSquashed(NameOf(md));
    SquashFixes(NameOf(md));
  }

  lemma NameIsCanonical(md: Md)
    ensures Canonical(NameOf(md)) == NameOf(md)
  {
    if Dashed(md) { DashedIsCanonical(md); } else { PlainIsCanonical(md); }
  }

  /** The canonical name stands for the digest that the spelling stood for. */
  lemma CanonicalResolvesAlike(name: string)
    ensures ResolveDigest(Canonical(name)) == ResolveDigest(name)
  {
    CanonicalIsIdempotent(name);
  }

  // ----- The algorithms by name -----

  /** The algorithms that the tool lists, with the names it reports for them. */
  lemma SupportedAlgorithms(md: Md, spelling: string, name: string)
    requires match md
             case Sha1 => spelling == "sha1" && name == "SHA1"
             case Sha224 => spelling == "sha224" && name == "SHA224"
             case Sha256 => spelling == "sha256" && name == "SHA256"
             case Sha384 => spelling == "sha384" && name == "SHA384"
             case Sha512 => spelling == "sha512" && name == "SHA512"
             case Sha512_224 => spelling == "sha512-224" && name == "SHA512-224"
             case Sha512_256 => spelling == "sha512-256" && name == "SHA512-256"
             case Sha3_224 => spelling == "sha3-224" && name == "SHA3-224"
             case Sha3_256 => spelling == "sha3-256" && name == "SHA3-256"
             case Sha3_384 => spelling == "sha3-384" && name == "SHA3-384"
             case Sha3_512 => spelling == "sha3-512" && name == "SHA3-512"
             case Shake128 => spelling == "shake128" && name == "SHAKE128"
             case Shake256 => spelling == "shake256" && name == "SHAKE256"
             case Md5Sha1 => spelling == "md5-sha1" && name == "MD5-SHA1"
    ensures Canonical(spelling) == name && ResolveDigest(spelling) == Some(md)
  {
    assert name == NameOf(md);
    assert spelling == Lower(NameOf(md));
    SpellingReads(md, spelling);
  }

  lemma SpellingReads(md: Md, spelling: string)
    requires spelling == Lower(NameOf(md))
    ensures Canonical(spelling) == NameOf(md) && ResolveDigest(spelling) == Some(md)
  {
    NameResolves(md);
    LookupIsNameOf(Canonical(spelling), md);
  }

  /** Only the two SHAKE algorithms are extendable. */
  lemma XofNames(md: Md)
    ensures md.IsXof() <==> NameOf(md) == "SHAKE128" || NameOf(md) == "SHAKE256"
  {
    if NameOf(md) == "SHAKE128" { NameOfInjective(md, Shake128); }
    if NameOf(md) == "SHAKE256" { NameOfInjective(md, Shake256); }
  }
}
