/** The Python reading of hexadecimal text in both GUIs (strip, delete "0x", delete everything
    that is not a digit, check the parity) beside the C++ scanner. */
module PythonHex {
  import opened Basics
  import opened HexText
  import opened HexScanner

  /** `str.isspace` on one character. */
  predicate IsPySpace(c: char) {
    || '\t' <= c <= '\r' || '\U{001C}' <= c <= ' ' || c == '\U{0085}' || c == '\U{00A0}'
    || c == '\U{1680}' || '\U{2000}' <= c <= '\U{200A}' || c == '\U{2028}' || c == '\U{2029}'
    || c == '\U{202F}' || c == '\U{205F}' || c == '\U{3000}'
  }

  function StripLeft(s: string): string {
    if s != "" && IsPySpace(s[0]) then StripLeft(s[1..]) else s
  }

  function StripRight(s: string): string {
    if s != "" && IsPySpace(s[|s| - 1]) then StripRight(s[..|s| - 1]) else s
  }

  /** `re.sub("0x", "", s, flags=re.IGNORECASE)`: leftmost matches, none overlapping. */
  function DropPrefixes(s: string): string {
    if s == "" then "" else if AtPrefix(s) then DropPrefixes(s[2..]) else [s[0]] + DropPrefixes(s[1..])
  }

  /** `re.sub("[^0-9a-fA-F]", "", s)`. */
  function KeepDigits(s: string): (digits: string)
    ensures AllHex(digits)
  {
    if s == "" then "" else if IsHexDigit(s[0]) then [s[0]] + KeepDigits(s[1..]) else KeepDigits(s[1..])
  }

  function CleanHex(s: string): (digits: string)
    ensures AllHex(digits)
  {
    KeepDigits(DropPrefixes(StripRight(StripLeft(s))))
  }

  function HexToBytesPy(s: string): Result<Bytes> {
    var digits := CleanHex(s);
    if digits == "" then Ok([]) else if |digits| % 2 != 0 then Err else Ok(Pairs(digits))
  }

  // ----- Stripping makes no difference to the digits -----

  lemma {:induction false} StripLeftKeepsDigits(s: string)
    ensures KeepDigits(DropPrefixes(StripLeft(s))) == KeepDigits(DropPrefixes(s))
  {
    if s != "" && IsPySpace(s[0]) {
      StripLeftKeepsDigits(s[1..]);
      assert ([s[0]] + DropPrefixes(s[1..]))[1..] == DropPrefixes(s[1..]);
    }
  }

  lemma Behind(s: string, k: nat, t: string)
    requires k <= |s|
    ensures (s + t)[k..] == s[k..] + t
  {
  }

  lemma Regroup(a: string, b: string, c: string)
    ensures a + (b + c) == (a + b) + c
  {
  }

  lemma {:induction false} DropPrefixesAppend(s: string, t: string)
    requires t == "" || !IsX(t[0])
    ensures DropPrefixes(s + t) == DropPrefixes(s) + DropPrefixes(t)
    decreases |s|
  {
    if s == "" {
      assert s + t == t;
    } else if AtPrefix(s) {
      DropPrefixesAppend(s[2..], t);
      Behind(s, 2, t);
    } else {
      DropPrefixesAppend(s[1..], t);
      Behind(s, 1, t);
      Regroup([s[0]], DropPrefixes(s[1..]), DropPrefixes(t));
    }
  }

  lemma {:induction false} KeepDigitsAppend(s: string, t: string)
    ensures KeepDigits(s + t) == KeepDigits(s) + KeepDigits(t)
  {
    if s == "" {
      assert s + t == t;
    } else {
      assert (s + t)[1..] == s[1..] + t;
      KeepDigitsAppend(s[1..], t);
    }
  }

  /** A character that is no digit and no x separates what stands on its sides. */
  lemma JunkSeparates(s: string, junk: char, t: string)
    requires !IsHexDigit(junk) && !IsX(junk)
    ensures KeepDigits(DropPrefixes(s + ([junk] + t))) == KeepDigits(DropPrefixes(s)) + KeepDigits(DropPrefixes(t))
  {
    DropPrefixesAppend(s, [junk] + t);
    KeepDigitsAppend(DropPrefixes(s), DropPrefixes([junk] + t));
    assert ([junk] + t)[1..] == t;
    assert DropPrefixes([junk] + t) == [junk] + DropPrefixes(t);
    assert ([junk] + DropPrefixes(t))[1..] == DropPrefixes(t);
  }

  lemma {:induction false} StripRightKeepsDigits(s: string)
    ensures KeepDigits(DropPrefixes(StripRight(s))) == KeepDigits(DropPrefixes(s))
  {
    if s != "" && IsPySpace(s[|s| - 1]) {
      var front, c := s[..|s| - 1], s[|s| - 1];
      StripRightKeepsDigits(front);
      assert s == front + [c];
      JunkSeparates(front, c, "");
      assert s == front + ([c] + "") && KeepDigits(DropPrefixes("")) == "";
    }
  }

  // ----- The two readings -----

  lemma {:induction false} PipelineFollowsScanner(s: string)
    requires Scan(s).Some?
    ensures KeepDigits(DropPrefixes(s)) == Scan(s).value
  {
    if s != "" {
      if AtPrefix(s) {
        PipelineFollowsScanner(s[2..]);
      } else {
        PipelineFollowsScanner(s[1..]);
        assert ([s[0]] + DropPrefixes(s[1..]))[1..] == DropPrefixes(s[1..]);
      }
    }
  }

  lemma StripKeepsDigits(s: string)
    ensures CleanHex(s) == KeepDigits(DropPrefixes(s))
  {
    StripRightKeepsDigits(StripLeft(s));
    StripLeftKeepsDigits(s);
  }

  lemma CleanHexFollowsScanner(s: string)
    requires Scan(s).Some?
    ensures CleanHex(s) == Scan(s).value
  {
    StripKeepsDigits(s);
    PipelineFollowsScanner(s);
  }

  /** Whatever the C++ scanner accepts, Python accepts with the same bytes. */
  lemma PythonAcceptsWhatCppAccepts(s: string)
    requires Decode(s).Ok?
    ensures HexToBytesPy(s) == Decode(s)
  {
    CleanHexFollowsScanner(s);
  }

  /** The two agree on a string, in outcome and bytes, exactly when it splits into separators,
      digits and prefixes, or else the digits Python finds are odd in number. */
  lemma AgreeExactly(s: string)
    ensures HexToBytesPy(s) == Decode(s)
       <==> (exists ts :: Valid(ts) && Text(ts) == s) || |Kept(s, 0)| % 2 != 0
  {
    PythonReads(s);
    if Scan(s).Some? {
      CleanHexFollowsScanner(s);
      ScanSplits(s);
    }
    forall ts | Valid(ts) && Text(ts) == s ensures Scan(s).Some? {
      ScanOfText(ts);
    }
  }

  // ----- What Python reads in any string -----

  /** A digit of either alphabet that is not the '0' of a prefix. */
  predicate IsKept(s: string, i: nat) {
    && i < |s|
    && (s[i] in Alphabet(true) || s[i] in Alphabet(false))
    && !(s[i] == '0' && i + 1 < |s| && (s[i + 1] == 'x' || s[i + 1] == 'X'))
  }

  /** The characters of s from position i on that are kept, in order. */
  function Kept(s: string, i: nat): string
    decreases |s| - i
  {
    if i >= |s| then "" else (if IsKept(s, i) then [s[i]] else "") + Kept(s, i + 1)
  }

  lemma {:induction false} PipelineKeeps(s: string, i: nat)
    requires i <= |s|
    ensures KeepDigits(DropPrefixes(s[i..])) == Kept(s, i)
    decreases |s| - i
  {
    if i < |s| {
      HexDigitsOfAlphabet(s[i]);
      assert s[i..][1..] == s[i + 1..];
      if AtPrefix(s[i..]) {
        PipelineKeeps(s, i + 2);
        HexDigitsOfAlphabet(s[i + 1]);
        assert s[i..][2..] == s[i + 2..];
        assert Kept(s, i) == "" + Kept(s, i + 1) && Kept(s, i + 1) == "" + Kept(s, i + 2);
      } else {
        PipelineKeeps(s, i + 1);
        var rest := DropPrefixes(s[i + 1..]);
        assert ([s[i]] + rest)[1..] == rest;
      }
    }
  }

  /** On every string, what Python takes for the digits are exactly the digits that belong to no
      prefix, in order; it refuses an odd number of them and otherwise pairs them. */
  lemma PythonReads(s: string)
    ensures CleanHex(s) == Kept(s, 0)
    ensures HexToBytesPy(s).Ok? <==> |Kept(s, 0)| % 2 == 0
    ensures HexToBytesPy(s).Ok? ==> InPairs(Kept(s, 0), HexToBytesPy(s).value)
  {
    StripKeepsDigits(s);
    PipelineKeeps(s, 0);
    assert s[0..] == s;
    if HexToBytesPy(s).Ok? { PairsInPairs(CleanHex(s), |CleanHex(s)| / 2); }
  }

  lemma BytesOfDigits(s: string, digits: string, n: nat)
    requires CleanHex(s) == digits && |digits| == 2 * n
    ensures AllHex(digits) && HexToBytesPy(s) == Ok(Pairs(digits))
  {
    assert (2 * n) % 2 == 0;
  }

  /** Python accepts strictly more: between any two accepted strings it silently deletes a
      character for which C++ refuses the whole. */
  lemma PythonDeletesJunk(s: string, junk: char, t: string)
    requires Decode(s).Ok? && Decode(t).Ok?
    requires !IsHexDigit(junk) && !IsSeparator(junk) && !IsX(junk)
    ensures Decode(s + ([junk] + t)) == Err
    ensures HexToBytesPy(s + ([junk] + t)) == Ok(Decode(s).value + Decode(t).value)
  {
    var all := s + ([junk] + t);
    var m := ScanOfDecode(s);
    var n := ScanOfDecode(t);
    ScanCuts(s, [junk] + t);
    StripKeepsDigits(all);
    JunkSeparates(s, junk, t);
    PipelineFollowsScanner(s);
    PipelineFollowsScanner(t);
    PairsAppend(Scan(s).value, m, Scan(t).value);
    BytesOfDigits(all, Scan(s).value + Scan(t).value, m + n);
  }
}
