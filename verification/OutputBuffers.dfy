/** Results through out-pointers: what both C APIs do with a caller's buffer and length cell,
    and the two-call wrappers that the Python GUIs put around the calls that keep no state. */
module OutputBuffers {
  import opened Basics

  /** The status codes; every exception maps to one that is none of the first three. */
  datatype Status = Success | BufferTooSmall | AuthFailed | Failed

  /** What a `size_t*` points to. */
  class SizeCell {
    var value: nat

    constructor ()
      ensures value == 0
    {
      value := 0;
    }
  }

  /** A buffer has room for a text of this length; an empty one needs no buffer. */
  predicate Fits(n: nat, present: bool, capacity: nat) {
    n == 0 || (present && capacity >= n)
  }

  /** The status of a call whose core gives r, with a buffer of this capacity or none. */
  function StatusOf(r: Result<Bytes>, present: bool, capacity: nat): Status {
    if r.Err? then Failed else if Fits(|r.value|, present, capacity) then Success else BufferTooSmall
  }

  /** `memcpy` to the front of a buffer. */
  method Memcpy<T>(dst: array<T>, src: seq<T>)
    requires |src| <= dst.Length
    modifies dst
    ensures dst[..|src|] == src && dst[|src|..] == old(dst[..])[|src|..]
  {
    forall i | 0 <= i < |src| { dst[i] := src[i]; }
  }

  method CopyBytesToOutput(src: Bytes, dst: array?<Byte>, dstCapacity: nat, dstLen: SizeCell?)
    returns (status: Status)
    requires dst != null ==> dstCapacity <= dst.Length
    modifies dst, dstLen
    ensures status == StatusOf(Ok(src), dst != null, dstCapacity)
    ensures status == if src == [] || (dst != null && |src| <= dstCapacity) then Success else BufferTooSmall
    ensures dstLen != null ==> dstLen.value == |src|
    ensures dst != null && status == Success ==>
              dst[..|src|] == src && dst[|src|..] == old(dst[..])[|src|..]
    ensures dst != null && status != Success ==> dst[..] == old(dst[..])
  {
    if dstLen != null { dstLen.value := |src|; }
    if src == [] {
      return Success;
    }
    if dst == null || dstCapacity < |src| {
      return BufferTooSmall;
    }
    Memcpy(dst, src);
    return Success;
  }

  /** Texts are delivered with a terminating zero that the reported length leaves out: a buffer
      of just the reported length is too small. */
  method CopyStringToOutput(src: string, dst: array?<char>, dstCapacity: nat, dstLen: SizeCell?)
    returns (status: Status)
    requires dst != null ==> dstCapacity <= dst.Length
    modifies dst, dstLen
    ensures dstLen != null ==> dstLen.value == |src|
    ensures status == if dst != null && dstCapacity > |src| then Success else BufferTooSmall
    ensures dst != null && status == Success ==>
              dst[..|src|] == src && dst[|src|] == '\0' && dst[|src| + 1..] == old(dst[..])[|src| + 1..]
    ensures dst != null && status != Success ==> dst[..] == old(dst[..])
  {
    if dstLen != null { dstLen.value := |src|; }
    var required := |src| + 1;
    if dst == null || dstCapacity < required {
      return BufferTooSmall;
    }
    Memcpy(dst, src + "\0");
    assert dst[..|src|] == dst[..|src| + 1][..|src|] && dst[|src|] == dst[..|src| + 1][|src|];
    return Success;
  }

  // ----- Calls that keep no state -----

  /** `evpaesdirect_encrypt`, `evpaesdirect_decrypt` and `evphashdirect_digest`, given what their
      core computes or throws for the arguments of the call. */
  method StatelessCall(core: Result<Bytes>, out: array?<Byte>, capacity: nat, outLen: SizeCell?)
    returns (status: Status)
    requires out != null ==> capacity <= out.Length
    modifies out, outLen
    ensures status == StatusOf(core, out != null, capacity)
    ensures core.Err? ==> status == Failed && (outLen != null ==> outLen.value == old(outLen.value))
    ensures core.Ok? ==>
              && status == (if core.value == [] || (out != null && |core.value| <= capacity) then Success
                            else BufferTooSmall)
              && (outLen != null ==> outLen.value == |core.value|)
    ensures out != null && status == Success ==>
              out[..|core.value|] == core.value && out[|core.value|..] == old(out[..])[|core.value|..]
    ensures out != null && status != Success ==> out[..] == old(out[..])
  {
    if core.Err? { return Failed; }
    status := CopyBytesToOutput(core.value, out, capacity, outLen);
  }

  /** The Python `encrypt`, `decrypt` and `digest`: probe for the length, allocate, fetch.  They
      return what the core computes, and raise when it throws. */
  method TwoCalls(core: Result<Bytes>) returns (r: Result<Bytes>)
    ensures r == core
  {
    var outLen := new SizeCell();
    var status := StatelessCall(core, null, 0, outLen);
    if status != Success && status != BufferTooSmall { return Err; }
    if outLen.value == 0 { return Ok([]); }
    var outBuf := new Byte[outLen.value];
    status := StatelessCall(core, outBuf, outLen.value, outLen);
    if status != Success { return Err; }
    return Ok(outBuf[..outLen.value]);
  }

  // ----- Two buffers at once -----

  datatype Sealed = Sealed(ciphertext: Bytes, tag: Bytes)

  /** The ciphertext is written first, the tag second, over it if both share a buffer. */
  method WriteBoth(result: Sealed, ciphertext: array?<Byte>, tag: array?<Byte>)
    requires result.ciphertext != [] ==> ciphertext != null && |result.ciphertext| <= ciphertext.Length
    requires result.tag != [] ==> tag != null && |result.tag| <= tag.Length
    modifies ciphertext, tag
    ensures ciphertext != null && ciphertext != tag ==>
              var n := |result.ciphertext|;
              ciphertext[..n] == result.ciphertext && ciphertext[n..] == old(ciphertext[..])[n..]
    ensures tag != null ==>
              var n := |result.tag|;
              && tag[..n] == result.tag
              && tag[n..] == (if ciphertext == tag
                              then (result.ciphertext + old(tag[..])[|result.ciphertext|..])[n..]
                              else old(tag[..])[n..])
  {
    if result.ciphertext != [] {
      Memcpy(ciphertext, result.ciphertext);
      assert ciphertext[..] == result.ciphertext + old(ciphertext[..])[|result.ciphertext|..];
    }
    if result.tag != [] {
      Memcpy(tag, result.tag);
    }
  }

  /** `evpaesdirect_aead_encrypt`: both lengths are reported, and unless both buffers suffice
      neither is written. */
  method AeadEncrypt(core: Result<Sealed>,
                     ciphertext: array?<Byte>, ciphertextCapacity: nat, ciphertextLen: SizeCell?,
                     tag: array?<Byte>, tagCapacity: nat, tagLen: SizeCell?)
    returns (status: Status)
    requires ciphertext != null ==> ciphertextCapacity <= ciphertext.Length
    requires tag != null ==> tagCapacity <= tag.Length
    modifies ciphertext, ciphertextLen, tag, tagLen
    ensures core.Err? ==>
              && status == Failed
              && (ciphertextLen != null ==> ciphertextLen.value == old(ciphertextLen.value))
              && (tagLen != null ==> tagLen.value == old(tagLen.value))
    ensures core.Ok? ==>
              var c, t := core.value.ciphertext, core.value.tag;
              && status == (if (c == [] || (ciphertext != null && |c| <= ciphertextCapacity))
                               && (t == [] || (tag != null && |t| <= tagCapacity)) then Success
                            else BufferTooSmall)
              && (ciphertextLen != null && ciphertextLen != tagLen ==> ciphertextLen.value == |c|)
              && (tagLen != null ==> tagLen.value == |t|)
    ensures status != Success && ciphertext != null ==> ciphertext[..] == old(ciphertext[..])
    ensures status != Success && tag != null ==> tag[..] == old(tag[..])
    ensures status == Success && ciphertext != null && ciphertext != tag ==>
              var n := |core.value.ciphertext|;
              ciphertext[..n] == core.value.ciphertext && ciphertext[n..] == old(ciphertext[..])[n..]
    ensures status == Success && tag != null ==>
              var n := |core.value.tag|;
              && tag[..n] == core.value.tag
              && tag[n..] == (if ciphertext == tag
                              then (core.value.ciphertext + old(tag[..])[|core.value.ciphertext|..])[n..]
                              else old(tag[..])[n..])
  {
    if core.Err? { return Failed; }
    var result := core.value;
    if ciphertextLen != null { ciphertextLen.value := |result.ciphertext|; }
    if tagLen != null { tagLen.value := |result.tag|; }
    var tooSmall := false;
    if result.ciphertext != [] && (ciphertext == null || ciphertextCapacity < |result.ciphertext|) {
      tooSmall := true;
    }
    if result.tag != [] && (tag == null || tagCapacity < |result.tag|) {
      tooSmall := true;
    }
    if tooSmall { return BufferTooSmall; }
    WriteBoth(result, ciphertext, tag);
    return Success;
  }

  /** The Python `aead_encrypt`: it always calls twice, with no buffer for an empty part, and
      returns exactly the core's two parts, also when one of them is empty. */
  method AeadTwoCalls(core: Result<Sealed>) returns (r: Result<Sealed>)
    ensures r == core
  {
    var ctLen := new SizeCell();
    var tagOutLen := new SizeCell();
    var status := AeadEncrypt(core, null, 0, ctLen, null, 0, tagOutLen);
    if status != Success && status != BufferTooSmall { return Err; }
    var ctBuf: array?<Byte>, tagBuf: array?<Byte> := null, null;
    if ctLen.value != 0 { ctBuf := new Byte[ctLen.value]; }
    if tagOutLen.value != 0 { tagBuf := new Byte[tagOutLen.value]; }
    status := AeadEncrypt(core, ctBuf, ctLen.value, ctLen, tagBuf, tagOutLen.value, tagOutLen);
    if status != Success { return Err; }
    var ct: Bytes, tag: Bytes := [], [];
    if ctBuf != null { ct := ctBuf[..ctLen.value]; }
    if tagBuf != null { tag := tagBuf[..tagOutLen.value]; }
    return Ok(Sealed(ct, tag));
  }

  /** What `aead_decrypt` computes: a plaintext, or a tag that does not verify. */
  datatype Opened = Plain(plaintext: Bytes) | TagInvalid

  method AeadDecrypt(core: Result<Opened>, plaintext: array?<Byte>, capacity: nat, plaintextLen: SizeCell?)
    returns (status: Status)
    requires plaintext != null ==> capacity <= plaintext.Length
    modifies plaintext, plaintextLen
    ensures core.Err? ==> status == Failed && (plaintextLen != null ==> plaintextLen.value == old(plaintextLen.value))
    ensures core == Ok(TagInvalid) ==> status == AuthFailed && (plaintextLen != null ==> plaintextLen.value == 0)
    ensures core.Ok? && core.value.Plain? ==>
              var p := core.value.plaintext;
              && status == (if p == [] || (plaintext != null && |p| <= capacity) then Success else BufferTooSmall)
              && (plaintextLen != null ==> plaintextLen.value == |p|)
              && (plaintext != null && status == Success ==>
                    plaintext[..|p|] == p && plaintext[|p|..] == old(plaintext[..])[|p|..])
    ensures plaintext != null && status != Success ==> plaintext[..] == old(plaintext[..])
  {
    if core.Err? { return Failed; }
    if core.value == TagInvalid {
      if plaintextLen != null { plaintextLen.value := 0; }
      return AuthFailed;
    }
    status := CopyBytesToOutput(core.value.plaintext, plaintext, capacity, plaintextLen);
  }

  /** The Python `aead_decrypt` never returns bytes of a message whose tag does not verify. */
  method AeadDecryptTwoCalls(core: Result<Opened>) returns (r: Result<Bytes>)
    ensures r == if core.Ok? && core.value.Plain? then Ok(core.value.plaintext) else Err
  {
    var outLen := new SizeCell();
    var status := AeadDecrypt(core, null, 0, outLen);
    if status == AuthFailed { return Err; }
    if status != Success && status != BufferTooSmall { return Err; }
    if outLen.value == 0 { return Ok([]); }
    var outBuf := new Byte[outLen.value];
    status := AeadDecrypt(core, outBuf, outLen.value, outLen);
    if status == AuthFailed { return Err; }
    if status != Success { return Err; }
    return Ok(outBuf[..outLen.value]);
  }
}
