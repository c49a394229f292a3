/** Numbers and bytes as hexadecimal text, in the three ways the repository prints them. */
module HexText {
  import opened Basics

  function DigitChar(n: int, lower: bool): (c: char)
    requires 0 <= n < 16
  {
    if n < 10 then '0' + n as char else if lower then 'a' + (n - 10) as char else 'A' + (n - 10) as char
  }

  predicate IsHexDigit(c: char) {
    '0' <= c <= '9' || 'a' <= c <= 'f' || 'A' <= c <= 'F'
  }

  predicate IsLowerHex(c: char) {
    '0' <= c <= '9' || 'a' <= c <= 'f'
  }

  function HexValue(c: char): (v: int)
    ensures IsHexDigit(c) <==> 0 <= v < 16
    ensures v == -1 || 0 <= v < 16
  {
    if '0' <= c <= '9' then c as int - '0' as int
    else if 'a' <= c <= 'f' then 10 + (c as int - 'a' as int)
    else if 'A' <= c <= 'F' then 10 + (c as int - 'A' as int)
    else -1
  }

  function LowerHex(c: char): char {
    if 'A' <= c <= 'F' then c - 'A' + 'a' else c
  }

  lemma DigitCharValue(n: int, lower: bool)
    requires 0 <= n < 16
    ensures HexValue(DigitChar(n, lower)) == n
    ensures lower ==> IsLowerHex(DigitChar(n, lower))
  {
  }

  lemma ValueDigitChar(c: char)
    requires IsHexDigit(c)
    ensures DigitChar(HexValue(c), true) == LowerHex(c)
  {
  }

  /** The alphabet of base16 (section 8 of RFC 4648), and the same in lower case. */
  function Alphabet(lower: bool): string {
    if lower then "0123456789abcdef" else "0123456789ABCDEF"
  }

  lemma DigitCharOfAlphabet(n: int, lower: bool)
    requires 0 <= n < 16
    ensures DigitChar(n, lower) == Alphabet(lower)[n]
    ensures HexValue(Alphabet(lower)[n]) == n
  {
  }

  lemma HexDigitsOfAlphabet(c: char)
    ensures IsHexDigit(c) <==> c in Alphabet(true) || c in Alphabet(false)
  {
    if IsHexDigit(c) {
      ValueInAlphabet(c);
      assert c == Alphabet(true)[HexValue(c)] || c == Alphabet(false)[HexValue(c)];
    } else {
      AlphabetIsHex(true);
      AlphabetIsHex(false);
    }
  }

  lemma ValueInAlphabet(c: char)
    requires IsHexDigit(c)
    ensures c == Alphabet(true)[HexValue(c)] || c == Alphabet(false)[HexValue(c)]
  {
  }

  lemma LowerHexInAlphabet(c: char)
    ensures IsLowerHex(c) <==> c in Alphabet(true)
  {
    if IsLowerHex(c) {
      assert c == Alphabet(true)[HexValue(c)];
    } else {
      assert forall i :: 0 <= i < 16 ==> IsLowerHex(Alphabet(true)[i]);
    }
  }

  lemma AlphabetIsHex(lower: bool)
    ensures forall i :: 0 <= i < 16 ==> IsHexDigit(Alphabet(lower)[i])
  {
  }

  // ----- Numbers: `Number.prototype.toString(16)` and `std::hex`, without leading zeros -----

  function NumberText(n: nat, lower: bool): (t: string)
    ensures t != ""
  {
    if n < 16 then [DigitChar(n, lower)]
    else NumberText(n / 16, lower) + [DigitChar(n % 16, lower)]
  }

  /** Reading digits back, most significant first. */
  function NumberOf(t: string): int {
    if t == "" then 0 else 16 * NumberOf(t[..|t| - 1]) + HexValue(t[|t| - 1])
  }

  lemma {:induction false} NumberTextReadsBack(n: nat, lower: bool)
    ensures NumberOf(NumberText(n, lower)) == n
    ensures lower ==> forall i :: 0 <= i < |NumberText(n, lower)| ==> IsLowerHex(NumberText(n, lower)[i])
  {
    DigitCharValue(n % 16, lower);
    if n >= 16 {
      NumberTextReadsBack(n / 16, lower);
      assert NumberText(n, lower)[..|NumberText(n, lower)| - 1] == NumberText(n / 16, lower);
    } else {
      assert NumberOf("") == 0;
    }
  }

  /** No leading zeros. */
  lemma {:induction false} NumberTextStart(n: nat, lower: bool)
    ensures n > 0 ==> NumberText(n, lower)[0] != '0'
    ensures n == 0 ==> NumberText(n, lower) == "0"
  {
    if n >= 16 { NumberTextStart(n / 16, lower); }
  }

  function Pow16(k: nat): nat {
    if k == 0 then 1 else 16 * Pow16(k - 1)
  }

  /** The text of n has at most k digits exactly when n is below 16 to the k. */
  lemma {:induction false} NumberTextLength(n: nat, lower: bool, k: nat)
    requires k > 0
    ensures |NumberText(n, lower)| <= k <==> n < Pow16(k)
  {
    if k == 1 {
      assert Pow16(1) == 16 * Pow16(0);
    } else if n >= 16 {
      NumberTextLength(n / 16, lower, k - 1);
    } else {
      PowPositive(k - 1);
    }
  }

  lemma {:induction false} PowPositive(k: nat)
    ensures Pow16(k) >= 1
  {
    if k > 0 { PowPositive(k - 1); }
  }

  // ----- Bytes: two digits each (base16, section 8 of RFC 4648) -----

  /** `padStart(2, '0')`, and `std::setw(2)` with `std::setfill('0')`. */
  function PadTwo(t: string): string {
    if |t| >= 2 then t else if |t| == 1 then "0" + t else "00"
  }

  function ByteText(b: Byte, lower: bool): (t: string)
    ensures |t| == 2
    ensures t == [DigitChar(b / 16, lower), DigitChar(b % 16, lower)]
  {
    assert b >= 16 ==> NumberText(b / 16, lower) == [DigitChar(b / 16, lower)];
    PadTwo(NumberText(b, lower))
  }

  function BytesText(data: Bytes, lower: bool): string {
    if data == [] then "" else ByteText(data[0], lower) + BytesText(data[1..], lower)
  }

  /** `bytes_to_hex` of both C++ tools. */
  method BytesToHex(data: Bytes, lowercase: bool) returns (text: string)
    ensures text == BytesText(data, lowercase) && PrintedAs(data, text, lowercase)
  {
    text := "";
    for i := 0 to |data|
      invariant text == BytesText(data[..i], lowercase)
    {
      BytesTextAppend(data[..i], data[i], lowercase);
      assert data[..i] + [data[i]] == data[..i + 1];
      text := text + ByteText(data[i], lowercase);
    }
    assert data[..|data|] == data;
    BytesTextIsPrinted(data, lowercase);
  }

  /** `bufferToHex` of the web client: map, then join. */
  function BufferToHex(buffer: Bytes): string {
    Flatten(seq(|buffer|, i requires 0 <= i < |buffer| => PadTwo(NumberText(buffer[i], true))))
  }

  lemma {:induction false} BytesTextAppend(data: Bytes, b: Byte, lower: bool)
    ensures BytesText(data + [b], lower) == BytesText(data, lower) + ByteText(b, lower)
  {
    if data == [] {
      assert [b][1..] == [];
      assert data + [b] == [b];
    } else {
      assert (data + [b])[1..] == data[1..] + [b];
      BytesTextAppend(data[1..], b, lower);
    }
  }

  lemma {:induction false} BufferToHexPrintsTheSame(buffer: Bytes)
    ensures BufferToHex(buffer) == BytesText(buffer, true)
  {
    if buffer != [] {
      var n := |buffer| - 1;
      var front := buffer[..n];
      BufferToHexPrintsTheSame(front);
      BytesTextAppend(front, buffer[n], true);
      assert front + [buffer[n]] == buffer;
      var parts := seq(|buffer|, i requires 0 <= i < |buffer| => PadTwo(NumberText(buffer[i], true)));
      assert parts[..n] == seq(n, i requires 0 <= i < n => PadTwo(NumberText(front[i], true)));
    }
  }

  lemma {:induction false} BytesTextDigits(data: Bytes, lower: bool)
    ensures |BytesText(data, lower)| == 2 * |data|
    ensures forall i :: 0 <= i < |BytesText(data, lower)| ==> IsHexDigit(BytesText(data, lower)[i])
    ensures lower ==> forall i :: 0 <= i < |BytesText(data, lower)| ==> IsLowerHex(BytesText(data, lower)[i])
  {
    if data != [] {
      BytesTextDigits(data[1..], lower);
      DigitCharValue(data[0] / 16, lower);
      DigitCharValue(data[0] % 16, lower);
    }
  }

  /** Each byte is printed as two digits of the alphabet, the upper half first. */
  ghost predicate PrintedAs(data: Bytes, text: string, lower: bool) {
    if data == [] then text == ""
    else
      && |text| >= 2
      && text[0] == Alphabet(lower)[data[0] / 16] && text[1] == Alphabet(lower)[data[0] % 16]
      && PrintedAs(data[1..], text[2..], lower)
  }

  lemma {:induction false} BytesTextIsPrinted(data: Bytes, lower: bool)
    ensures PrintedAs(data, BytesText(data, lower), lower)
  {
    if data != [] {
      BytesTextIsPrinted(data[1..], lower);
      DigitCharOfAlphabet(data[0] / 16, lower);
      DigitCharOfAlphabet(data[0] % 16, lower);
      assert BytesText(data, lower)[2..] == BytesText(data[1..], lower);
    }
  }
}
