/** The tolerant hexadecimal scanner `hex_to_bytes`, the same in both C++ tools: white space,
    ':', '-' and '_' are skipped, and so is every "0x" or "0X". */
module HexScanner {
  import opened Basics
  import opened HexText

  predicate IsSpace(c: char) {
    c == ' ' || '\t' <= c <= '\r'
  }

  predicate IsSeparator(c: char) {
    IsSpace(c) || c == ':' || c == '-' || c == '_'
  }

  predicate IsX(c: char) {
    c == 'x' || c == 'X'
  }

  predicate AllHex(digits: string) {
    forall i :: 0 <= i < |digits| ==> IsHexDigit(digits[i])
  }

  /** The lookahead of the scanner. */
  predicate AtPrefix(s: string) {
    |s| >= 2 && s[0] == '0' && IsX(s[1])
  }

  /** The digits left by the first loop, or nothing when it throws. */
  function Scan(s: string): (digits: Option<string>)
    ensures digits.Some? ==> AllHex(digits.value)
  {
    if s == "" then Some("")
    else if AtPrefix(s) then Scan(s[2..])
    else
      var rest := Scan(s[1..]);
      if rest.None? then None
      else if IsHexDigit(s[0]) then Some([s[0]] + rest.value)
      else if IsSeparator(s[0]) then rest
      else None
  }

  function Pairs(digits: string): Bytes
    requires AllHex(digits)
  {
    if |digits| < 2 then [] else [16 * HexValue(digits[0]) + HexValue(digits[1])] + Pairs(digits[2..])
  }

  function Decode(s: string): Result<Bytes> {
    var digits := Scan(s);
    if digits.None? || |digits.value| % 2 != 0 then Err else Ok(Pairs(digits.value))
  }

  lemma ScanFrom(hex: string, i: nat)
    requires i < |hex|
    ensures AtPrefix(hex[i..]) <==> i + 1 < |hex| && hex[i] == '0' && IsX(hex[i + 1])
    ensures AtPrefix(hex[i..]) ==> Scan(hex[i..]) == Scan(hex[i + 2..])
    ensures !AtPrefix(hex[i..]) && IsHexDigit(hex[i]) ==>
              Scan(hex[i..]) == match Scan(hex[i + 1..]) case None => None case Some(d) => Some([hex[i]] + d)
    ensures !AtPrefix(hex[i..]) && !IsHexDigit(hex[i]) ==>
              Scan(hex[i..]) == if IsSeparator(hex[i]) then Scan(hex[i + 1..]) else None
  {
    assert hex[i..][1..] == hex[i + 1..];
    if AtPrefix(hex[i..]) { assert hex[i..][2..] == hex[i + 2..]; }
  }

  /** The scan of the whole, given what was kept of a first part and the scan of the rest. */
  function Kept(clean: string, rest: Option<string>): Option<string> {
    if rest.None? then None else Some(clean + rest.value)
  }

  lemma KeptNothing(rest: Option<string>)
    ensures Kept("", rest) == rest
  {
    if rest.Some? { assert "" + rest.value == rest.value; }
  }

  lemma KeptDigit(clean: string, c: char, rest: string)
    ensures clean + ([c] + rest) == (clean + [c]) + rest
  {
  }

  /** The first loop. */
  method CleanHex(hex: string) returns (r: Option<string>)
    ensures r == Scan(hex)
  {
    var clean := "";
    var i := 0;
    assert hex[0..] == hex && Kept("", Scan(hex)) == Scan(hex) by { KeptNothing(Scan(hex)); }
    while i < |hex|
      invariant 0 <= i <= |hex|
      invariant Scan(hex) == Kept(clean, Scan(hex[i..]))
    {
      ScanFrom(hex, i);
      if i + 1 < |hex| && hex[i] == '0' && (hex[i + 1] == 'x' || hex[i + 1] == 'X') {
        i := i + 2;
        continue;
      }
      var c := hex[i];
      if IsHexDigit(c) {
        if Scan(hex[i + 1..]).Some? { KeptDigit(clean, c, Scan(hex[i + 1..]).value); }
        clean := clean + [c];
      } else if IsSpace(c) || c == ':' || c == '-' || c == '_' {
      } else {
        return None;
      }
      i := i + 1;
    }
    assert clean + "" == clean;
    return Some(clean);
  }

  lemma PairsFrom(clean: string, i: nat)
    requires AllHex(clean) && i + 1 < |clean|
    ensures Pairs(clean[i..]) == [16 * HexValue(clean[i]) + HexValue(clean[i + 1])] + Pairs(clean[i + 2..])
  {
    assert clean[i..][2..] == clean[i + 2..];
  }

  /** The second loop. */
  method PairUp(clean: string) returns (out: Bytes)
    requires AllHex(clean) && |clean| % 2 == 0
    ensures out == Pairs(clean)
  {
    out := [];
    var i := 0;
    assert clean[0..] == clean;
    while i < |clean|
      invariant 0 <= i <= |clean| && i % 2 == 0
      invariant out + Pairs(clean[i..]) == Pairs(clean)
    {
      PairsFrom(clean, i);
      var hi, lo := HexValue(clean[i]), HexValue(clean[i + 1]);
      assert out + ([16 * hi + lo] + Pairs(clean[i + 2..])) == (out + [16 * hi + lo]) + Pairs(clean[i + 2..]);
      out := out + [16 * hi + lo];
      i := i + 2;
    }
  }

  /** The code: clean the text, check the parity, then one byte for every two digits. */
  method HexToBytes(hex: string) returns (r: Result<Bytes>)
    ensures r == Decode(hex)
  {
    var scanned := CleanHex(hex);
    if scanned.None? || |scanned.value| % 2 != 0 { return Err; }
    var out := PairUp(scanned.value);
    return Ok(out);
  }

  // ----- The language, stated without a scanner -----

  datatype Token = Separator(c: char) | Digit(c: char) | Prefix(x: char)

  /** Blank, tab, line feed, vertical tab, form feed, carriage return, and three marks. */
  const SEPARATORS: string := " \t\n\U{0B}\U{0C}\r:-_"

  predicate ValidToken(t: Token) {
    match t
    case Separator(c) => c in SEPARATORS
    case Digit(c) => c in Alphabet(true) || c in Alphabet(false)
    case Prefix(x) => x == 'x' || x == 'X'
  }

  lemma SeparatorsListed(c: char)
    ensures IsSeparator(c) <==> c in SEPARATORS
  {
    assert c in SEPARATORS <==> c in [' ', '\t', '\n', '\U{0B}', '\U{0C}', '\r', ':', '-', '_'];
  }

  /** The tests of the scanner single out the tokens. */
  lemma TokenIsTested(t: Token)
    ensures ValidToken(t) <==>
      match t
      case Separator(c) => IsSeparator(c)
      case Digit(c) => IsHexDigit(c)
      case Prefix(x) => IsX(x)
  {
    match t
    case Separator(c) => SeparatorsListed(c);
    case Digit(c) => HexDigitsOfAlphabet(c);
    case Prefix(x) =>
  }

  predicate Valid(ts: seq<Token>) {
    forall i :: 0 <= i < |ts| ==> ValidToken(ts[i])
  }

  function Spelling(t: Token): (s: string)
    ensures s != ""
  {
    if t.Prefix? then ['0', t.x] else [t.c]
  }

  function Text(ts: seq<Token>): string {
    if ts == [] then "" else Spelling(ts[0]) + Text(ts[1..])
  }

  function Digits(ts: seq<Token>): string {
    if ts == [] then "" else (if ts[0].Digit? then [ts[0].c] else "") + Digits(ts[1..])
  }

  function FirstToken(s: string): Token
    requires s != ""
  {
    if AtPrefix(s) then Prefix(s[1]) else if IsHexDigit(s[0]) then Digit(s[0]) else Separator(s[0])
  }

  function Split(s: string): seq<Token> {
    if s == "" then [] else [FirstToken(s)] + Split(s[|Spelling(FirstToken(s))|..])
  }

  lemma ValidTail(ts: seq<Token>)
    requires Valid(ts) && ts != []
    ensures ValidToken(ts[0]) && Valid(ts[1..])
  {
  }

  lemma {:induction false} TextStart(ts: seq<Token>)
    requires Valid(ts) && ts != []
    ensures Text(ts) != "" && !IsX(Text(ts)[0])
  {
    ValidTail(ts);
    TokenIsTested(ts[0]);
    assert Text(ts)[0] == Spelling(ts[0])[0];
  }

  lemma TextOfOneMore(t: Token, ts: seq<Token>)
    ensures Text([t] + ts) == Spelling(t) + Text(ts)
    ensures Digits([t] + ts) == (if t.Digit? then [t.c] else "") + Digits(ts)
    ensures Valid(ts) && ValidToken(t) ==> Valid([t] + ts)
  {
    assert ([t] + ts)[1..] == ts;
  }

  /** What the scanner accepts splits into tokens whose digits are what it leaves. */
  lemma {:induction false} ScanSplits(s: string)
    requires Scan(s).Some?
    ensures Valid(Split(s)) && Text(Split(s)) == s && Digits(Split(s)) == Scan(s).value
  {
    if s != "" {
      var t := FirstToken(s);
      var rest := s[|Spelling(t)|..];
      ScanSplits(rest);
      TokenIsTested(t);
      TextOfOneMore(t, Split(rest));
      assert Spelling(t) + rest == s;
    }
  }

  /** Every spelled-out list of tokens is accepted, and splits only that way: the seam between
      a digit '0' and what follows never looks like a prefix. */
  lemma {:induction false} ScanOfText(ts: seq<Token>)
    requires Valid(ts)
    ensures Scan(Text(ts)) == Some(Digits(ts))
    ensures Split(Text(ts)) == ts
  {
    if ts != [] {
      ValidTail(ts);
      TokenIsTested(ts[0]);
      ScanOfText(ts[1..]);
      if ts[1..] != [] { TextStart(ts[1..]); }
      var s, t := Text(ts), ts[0];
      var rest := s[|Spelling(t)|..];
      assert rest == Text(ts[1..]);
      assert s == Spelling(t) + rest;
      assert FirstToken(s) == t;
      assert ts == [t] + ts[1..];
      assert Split(s) == [t] + Split(rest);
      if t.Prefix? { assert s[2..] == rest; } else { assert s[1..] == rest; }
      assert Scan(s) == Kept(if t.Digit? then [t.c] else "", Scan(rest)) by { KeptNothing(Scan(rest)); }
    }
  }

  ghost predicate InLanguage(s: string, ts: seq<Token>) {
    Valid(ts) && Text(ts) == s && |Digits(ts)| % 2 == 0
  }

  ghost predicate IsDigitFor(c: char, n: int) {
    0 <= n < 16 && (c == Alphabet(true)[n] || c == Alphabet(false)[n])
  }

  /** The number that two digits stand for, the upper half first. */
  ghost predicate IsByteOf(hi: char, lo: char, b: int) {
    exists h, l :: IsDigitFor(hi, h) && IsDigitFor(lo, l) && b == 16 * h + l
  }

  ghost predicate InPairs(digits: string, bytes: Bytes) {
    if bytes == [] then digits == ""
    else |digits| >= 2 && IsByteOf(digits[0], digits[1], bytes[0]) && InPairs(digits[2..], bytes[1..])
  }

  lemma PairIsByte(hi: char, lo: char)
    requires IsHexDigit(hi) && IsHexDigit(lo)
    ensures IsByteOf(hi, lo, 16 * HexValue(hi) + HexValue(lo))
  {
    ValueInAlphabet(hi);
    ValueInAlphabet(lo);
    assert IsDigitFor(hi, HexValue(hi)) && IsDigitFor(lo, HexValue(lo));
  }

  lemma {:induction false} PairsInPairs(digits: string, n: nat)
    requires AllHex(digits) && |digits| == 2 * n
    ensures InPairs(digits, Pairs(digits))
  {
    if n > 0 {
      PairsInPairs(digits[2..], n - 1);
      PairIsByte(digits[0], digits[1]);
      assert Pairs(digits)[1..] == Pairs(digits[2..]);
    }
  }

  /** The accepted strings are exactly those that split into separators, hexadecimal digits
      and prefixes with an even number of digits, and the result is the digits in pairs. */
  lemma AcceptsExactlyTheLanguage(s: string)
    ensures Decode(s).Ok? <==> exists ts :: InLanguage(s, ts)
    ensures forall ts :: InLanguage(s, ts) ==>
              && AllHex(Digits(ts)) && Decode(s) == Ok(Pairs(Digits(ts)))
              && InPairs(Digits(ts), Decode(s).value)
  {
    if Decode(s).Ok? {
      ScanSplits(s);
      assert InLanguage(s, Split(s));
    }
    forall ts | InLanguage(s, ts)
      ensures AllHex(Digits(ts)) && Decode(s) == Ok(Pairs(Digits(ts))) && InPairs(Digits(ts), Decode(s).value)
    {
      ScanOfText(ts);
      PairsInPairs(Digits(ts), |Digits(ts)| / 2);
    }
  }

  /** No string splits in two ways. */
  lemma SplitIsUnique(ts: seq<Token>, us: seq<Token>)
    requires Valid(ts) && Valid(us) && Text(ts) == Text(us)
    ensures ts == us
  {
    ScanOfText(ts);
    ScanOfText(us);
  }

  // ----- Concatenation -----

  lemma {:induction false} TextAppend(ts: seq<Token>, us: seq<Token>)
    ensures Text(ts + us) == Text(ts) + Text(us)
    ensures Digits(ts + us) == Digits(ts) + Digits(us)
  {
    if ts == [] {
      assert ts + us == us && "" + Text(us) == Text(us) && "" + Digits(us) == Digits(us);
    } else {
      assert (ts + us)[1..] == ts[1..] + us;
      TextAppend(ts[1..], us);
      var own := if ts[0].Digit? then [ts[0].c] else "";
      assert own + (Digits(ts[1..]) + Digits(us)) == (own + Digits(ts[1..])) + Digits(us);
      assert Spelling(ts[0]) + (Text(ts[1..]) + Text(us)) == (Spelling(ts[0]) + Text(ts[1..])) + Text(us);
    }
  }

  lemma PairsOfTwoMore(hi: char, lo: char, digits: string, rest: string)
    requires AllHex(digits) && |digits| >= 2
    requires digits[0] == hi && digits[1] == lo && digits[2..] == rest
    ensures AllHex(rest) && Pairs(digits) == [16 * HexValue(hi) + HexValue(lo)] + Pairs(rest)
  {
  }

  lemma {:induction false} PairsAppend(a: string, n: nat, b: string)
    requires AllHex(a) && AllHex(b) && |a| == 2 * n
    ensures AllHex(a + b) && Pairs(a + b) == Pairs(a) + Pairs(b)
  {
    if n == 0 {
      assert a + b == b;
    } else {
      var rest := a[2..];
      PairsAppend(rest, n - 1, b);
      assert (a + b)[2..] == rest + b;
      PairsOfTwoMore(a[0], a[1], a, rest);
      PairsOfTwoMore(a[0], a[1], a + b, rest + b);
    }
  }

  lemma ScanConcatenates(s: string, t: string)
    requires Scan(s).Some? && Scan(t).Some?
    ensures Scan(s + t) == Some(Scan(s).value + Scan(t).value)
  {
    ScanSplits(s);
    ScanSplits(t);
    TextAppend(Split(s), Split(t));
    ScanOfText(Split(s) + Split(t));
  }

  lemma DecodeOfScan(s: string, digits: string, n: nat)
    requires Scan(s) == Some(digits) && |digits| == 2 * n
    ensures Decode(s) == Ok(Pairs(digits))
  {
    assert (2 * n) % 2 == 0;
  }

  lemma ScanOfDecode(s: string) returns (n: nat)
    requires Decode(s).Ok?
    ensures Scan(s).Some? && |Scan(s).value| == 2 * n && Decode(s) == Ok(Pairs(Scan(s).value))
  {
    n := |Scan(s).value| / 2;
  }

  /** Accepted strings may be joined: the lookahead at the seam changes nothing. */
  lemma DecodeConcatenates(s: string, t: string)
    requires Decode(s).Ok? && Decode(t).Ok?
    ensures Decode(s + t) == Ok(Decode(s).value + Decode(t).value)
  {
    var m := ScanOfDecode(s);
    var n := ScanOfDecode(t);
    ScanConcatenates(s, t);
    PairsAppend(Scan(s).value, m, Scan(t).value);
    DecodeOfScan(s + t, Scan(s).value + Scan(t).value, m + n);
  }

  /** A string may be cut wherever it does not cut a prefix in two. */
  lemma {:induction false} ScanCuts(s: string, t: string)
    ensures Scan(s + t).Some? <==>
              || (Scan(s).Some? && Scan(t).Some?)
              || (s != "" && t != "" && AtPrefix([s[|s| - 1], t[0]])
                  && Scan(s[..|s| - 1]).Some? && Scan(t[1..]).Some?)
  {
    if s == "" {
      assert s + t == t;
    } else if AtPrefix(s) {
      assert (s + t)[2..] == s[2..] + t;
      ScanCuts(s[2..], t);
      if |s| > 2 {
        assert s[2..][..|s| - 3] == s[..|s| - 1][2..];
        if |s| == 3 { assert s[..2][2..] == ""; }
      } else {
        assert Scan(s[..1]).Some? by { assert s[..1][1..] == ""; }
      }
    } else if |s| == 1 && t != "" && AtPrefix([s[0], t[0]]) {
      assert (s + t)[2..] == t[1..];
      assert s[..0] == "";
      assert IsX(t[0]);
      assert Scan(t).None?;
    } else {
      assert (s + t)[1..] == s[1..] + t;
      ScanCuts(s[1..], t);
      if |s| > 1 {
        assert s[1..][..|s| - 2] == s[..|s| - 1][1..];
      }
    }
  }

  // ----- Round trips -----

  lemma {:induction false} ScanDigits(digits: string)
    requires AllHex(digits)
    ensures Scan(digits) == Some(digits)
  {
    if digits != "" {
      ScanDigits(digits[1..]);
      assert digits == [digits[0]] + digits[1..];
    }
  }

  lemma {:induction false} PairsOfBytesText(data: Bytes, lower: bool)
    ensures AllHex(BytesText(data, lower)) && Pairs(BytesText(data, lower)) == data
  {
    BytesTextDigits(data, lower);
    if data != [] {
      PairsOfBytesText(data[1..], lower);
      DigitCharValue(data[0] / 16, lower);
      DigitCharValue(data[0] % 16, lower);
      assert BytesText(data, lower)[2..] == BytesText(data[1..], lower);
      assert data == [data[0]] + data[1..];
    }
  }

  /** Decoding the printed form gives the bytes back, in either case. */
  lemma DecodeOfPrint(data: Bytes, lower: bool)
    ensures Decode(BytesText(data, lower)) == Ok(data)
  {
    PairsOfBytesText(data, lower);
    BytesTextDigits(data, lower);
    ScanDigits(BytesText(data, lower));
    DecodeOfScan(BytesText(data, lower), BytesText(data, lower), |data|);
  }

  function LowerCase(digits: string): (l: string)
    ensures |l| == |digits| && forall i :: 0 <= i < |l| ==> l[i] == LowerHex(digits[i])
  {
    seq(|digits|, i requires 0 <= i < |digits| => LowerHex(digits[i]))
  }

  lemma LowerCaseTwo(digits: string)
    requires |digits| >= 2
    ensures LowerCase(digits) == [LowerHex(digits[0]), LowerHex(digits[1])] + LowerCase(digits[2..])
  {
  }

  lemma PairText(hi: char, lo: char)
    requires IsHexDigit(hi) && IsHexDigit(lo)
    ensures ByteText(16 * HexValue(hi) + HexValue(lo), true) == [LowerHex(hi), LowerHex(lo)]
  {
    ValueDigitChar(hi);
    ValueDigitChar(lo);
  }

  lemma {:induction false} PrintOfPairs(digits: string)
    requires AllHex(digits) && |digits| % 2 == 0
    ensures BytesText(Pairs(digits), true) == LowerCase(digits)
  {
    if digits != "" {
      PrintOfPairs(digits[2..]);
      PairText(digits[0], digits[1]);
      LowerCaseTwo(digits);
      assert Pairs(digits)[1..] == Pairs(digits[2..]);
    }
  }

  /** Printing what was decoded gives the digits in lower case, separators and prefixes gone. */
  lemma PrintOfDecode(s: string, ts: seq<Token>)
    requires InLanguage(s, ts)
    ensures Decode(s).Ok? && BytesText(Decode(s).value, true) == LowerCase(Digits(ts))
  {
    AcceptsExactlyTheLanguage(s);
    PrintOfPairs(Digits(ts));
  }
}
