/** The session token of the web client: the text of the password hash, a dot, the user name. */
module SessionToken {
  import opened Basics
  import opened HexText
  import opened HexScanner
  import opened RollingHash

  /** `sha256`: with `crypto.subtle` present, the digest it returned; without, the fallback. */
  function Sha256Text(message: seq<CodeUnit>, subtle: Option<Bytes>): string {
    if subtle.None? then FallbackText(message) else BufferToHex(subtle.value)
  }

  function Token(username: string, password: seq<CodeUnit>, subtle: Option<Bytes>): string {
    Sha256Text(password, subtle) + "." + username
  }

  function FirstDot(s: string): (k: nat)
    ensures k <= |s|
  {
    if s == "" || s[0] == '.' then 0 else 1 + FirstDot(s[1..])
  }

  lemma {:induction false} FirstDotAfter(prefix: string, rest: string)
    requires forall i :: 0 <= i < |prefix| ==> prefix[i] != '.'
    ensures FirstDot(prefix + "." + rest) == |prefix|
  {
    var s := prefix + "." + rest;
    if prefix == "" {
      assert s[0] == '.';
    } else {
      assert s[1..] == prefix[1..] + "." + rest;
      FirstDotAfter(prefix[1..], rest);
    }
  }

  lemma HashTextHasNoDot(message: seq<CodeUnit>, subtle: Option<Bytes>)
    ensures forall i :: 0 <= i < |Sha256Text(message, subtle)| ==> Sha256Text(message, subtle)[i] != '.'
  {
    if subtle.None? {
      FallbackTextShape(message);
    } else {
      BufferToHexPrintsTheSame(subtle.value);
      BytesTextDigits(subtle.value, true);
    }
  }

  /** What the hash part is: the digest in lower-case hexadecimal digits, which read back as the
      digest; or the text of the fallback. */
  ghost predicate IsHashPart(part: string, password: seq<CodeUnit>, subtle: Option<Bytes>) {
    if subtle.None? then IsFallbackText(password, part)
    else PrintedAs(subtle.value, part, true) && Decode(part) == Ok(subtle.value)
  }

  lemma Sha256TextIsHashPart(password: seq<CodeUnit>, subtle: Option<Bytes>)
    ensures IsHashPart(Sha256Text(password, subtle), password, subtle)
  {
    if subtle.None? {
      FallbackTextReads(password);
    } else {
      BufferToHexPrintsTheSame(subtle.value);
      BytesTextIsPrinted(subtle.value, true);
      DecodeOfPrint(subtle.value, true);
    }
  }

  /** Cutting a token at its first dot gives back the hash part and the user name, for every
      user name (dots included) and on both branches of the hash. */
  lemma TokenSplits(username: string, password: seq<CodeUnit>, subtle: Option<Bytes>)
    ensures var t := Token(username, password, subtle);
            var k := FirstDot(t);
            && k < |t| && t[k] == '.'
            && t[..k] == Sha256Text(password, subtle) && IsHashPart(t[..k], password, subtle)
            && t[k + 1..] == username
  {
    HashTextHasNoDot(password, subtle);
    Sha256TextIsHashPart(password, subtle);
    FirstDotAfter(Sha256Text(password, subtle), username);
  }

  /** A token determines the user name and the hash text. */
  lemma TokenDetermines(u: string, p: seq<CodeUnit>, s: Option<Bytes>, v: string, q: seq<CodeUnit>, t: Option<Bytes>)
    ensures Token(u, p, s) == Token(v, q, t) <==> u == v && Sha256Text(p, s) == Sha256Text(q, t)
  {
    TokenSplits(u, p, s);
    TokenSplits(v, q, t);
  }

  /** The branch that made a token shows in the length of its hash part. */
  lemma BranchShowsInLength(password: seq<CodeUnit>, subtle: Option<Bytes>)
    requires subtle.Some? ==> |subtle.value| == 32
    ensures subtle.Some? <==> |Sha256Text(password, subtle)| == 64
    ensures subtle.None? <==> |Sha256Text(password, subtle)| <= 14
  {
    if subtle.None? {
      FallbackTextShape(password);
    } else {
      BufferToHexPrintsTheSame(subtle.value);
      BytesTextDigits(subtle.value, true);
    }
  }
}
