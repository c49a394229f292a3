/** `DirectDigestContext` and the one-shot `digest` of the hash tool, over a library whose
    digests are left uninterpreted. */
module DigestContexts {
  import opened Basics
  import opened DigestNames

  /** What the tool takes from OpenSSL: the digest sizes, the digests themselves (an extendable
      output as a stream of bytes), and whether a finalised context still takes data or may be
      finalised again.  OpenSSL 3 allows neither; results that rest on it say so. */
  datatype Library = Library(
    size: Md -> int,
    hash: (Md, Bytes) -> Bytes,
    xof: (Md, Bytes, nat) -> Byte,
    lateUpdate: bool,
    lateFinal: bool)

  /** The state of a context. */
  datatype Ctx = Ctx(md: Md, absorbed: Bytes, finalised: bool)

  // ----- The operations on values -----

  function Updated(lib: Library, c: Ctx, data: Bytes): Result<Ctx> {
    if data == [] then Ok(c)
    else if c.finalised && !lib.lateUpdate then Err
    else Ok(c.(absorbed := c.absorbed + data))
  }

  function FinalOf(lib: Library, c: Ctx): Result<Bytes> {
    if c.md.IsXof() || lib.size(c.md) <= 0 || (c.finalised && !lib.lateFinal) then Err
    else Ok(lib.hash(c.md, c.absorbed))
  }

  function XofBytes(lib: Library, md: Md, data: Bytes, n: nat): (out: Bytes)
    ensures |out| == n
  {
    seq<Byte>(n, i requires 0 <= i < n => lib.xof(md, data, i))
  }

  function XofOf(lib: Library, c: Ctx, n: nat): Result<Bytes> {
    if !c.md.IsXof() || (n == 0 && lib.size(c.md) <= 0) || (c.finalised && !lib.lateFinal) then Err
    else Ok(XofBytes(lib, c.md, c.absorbed, if n == 0 then lib.size(c.md) else n))
  }

  /** The digest of a whole input, with the argument checks of `digest`. */
  function OneShot(lib: Library, md: Md, input: Bytes, xofLen: nat): Result<Bytes> {
    if md.IsXof() then
      if xofLen == 0 && lib.size(md) <= 0 then Err
      else Ok(XofBytes(lib, md, input, if xofLen == 0 then lib.size(md) else xofLen))
    else if xofLen != 0 || lib.size(md) <= 0 then Err
    else Ok(lib.hash(md, input))
  }

  // ----- The class -----

  class DirectDigestContext {
    const lib: Library
    const canonicalName: string
    const md: Md
    var absorbed: Bytes
    var finalised: bool

    function View(): Ctx
      reads this
    {
      Ctx(md, absorbed, finalised)
    }

    constructor (lib: Library, name: string)
      requires ResolveDigest(name).Some?
      ensures this.lib == lib && canonicalName == Canonical(name)
      ensures md == ResolveDigest(name).value && absorbed == [] && !finalised
    {
      this.lib, canonicalName, md := lib, Canonical(name), ResolveDigest(name).value;
      absorbed, finalised := [], false;
    }

    constructor CopyOf(other: DirectDigestContext)
      ensures lib == other.lib && canonicalName == other.canonicalName
      ensures md == other.md && absorbed == other.absorbed && finalised == other.finalised
    {
      lib, canonicalName, md := other.lib, other.canonicalName, other.md;
      absorbed, finalised := other.absorbed, other.finalised;
    }

    /** False when the code throws. */
    method Update(data: Bytes) returns (ok: bool)
      modifies this
      ensures ok <==> Updated(lib, old(View()), data).Ok?
      ensures View() == if ok then Updated(lib, old(View()), data).value else old(View())
      ensures ok <==> data == [] || !old(finalised) || lib.lateUpdate
      ensures absorbed == (if ok then old(absorbed) + data else old(absorbed)) && finalised == old(finalised)
    {
      if |data| == 0 { return true; }
      if finalised && !lib.lateUpdate { return false; }
      absorbed := absorbed + data;
      return true;
    }

    method Final() returns (r: Result<Bytes>)
      modifies this
      ensures r == FinalOf(lib, old(View()))
      ensures r.Ok? <==> !md.IsXof() && lib.size(md) > 0 && (!old(finalised) || lib.lateFinal)
      ensures r.Ok? ==> r.value == lib.hash(md, old(absorbed))
      ensures absorbed == old(absorbed) && finalised == (old(finalised) || r.Ok?)
    {
      if md.IsXof() { return Err; }
      if lib.size(md) <= 0 { return Err; }
      if finalised && !lib.lateFinal { return Err; }
      finalised := true;
      return Ok(lib.hash(md, absorbed));
    }

    method FinalXof(outputLen: nat) returns (r: Result<Bytes>)
      modifies this
      ensures r == XofOf(lib, old(View()), outputLen)
      ensures r.Ok? <==> md.IsXof() && (outputLen != 0 || lib.size(md) > 0) && (!old(finalised) || lib.lateFinal)
      ensures r.Ok? ==>
                && |r.value| == (if outputLen != 0 then outputLen else lib.size(md))
                && forall i :: 0 <= i < |r.value| ==> r.value[i] == lib.xof(md, old(absorbed), i)
      ensures absorbed == old(absorbed) && finalised == (old(finalised) || r.Ok?)
    {
      if !md.IsXof() { return Err; }
      var n := outputLen;
      if n == 0 {
        var defaultLen := lib.size(md);
        if defaultLen <= 0 { return Err; }
        n := defaultLen;
      }
      if finalised && !lib.lateFinal { return Err; }
      finalised := true;
      return Ok(XofBytes(lib, md, absorbed, n));
    }

    method Clone() returns (c: DirectDigestContext)
      ensures fresh(c) && c.lib == lib && c.canonicalName == canonicalName
      ensures c.md == md && c.absorbed == absorbed && c.finalised == finalised
    {
      c := new DirectDigestContext.CopyOf(this);
    }
  }

  /** `digest`: a context of its own, one update, the checks, one final. */
  method Digest(lib: Library, name: string, input: Bytes, xofLen: nat) returns (r: Result<Bytes>)
    ensures r == if ResolveDigest(name).None? then Err else OneShot(lib, ResolveDigest(name).value, input, xofLen)
    ensures r.Ok? <==>
              && ResolveDigest(name).Some?
              && var md := ResolveDigest(name).value;
              if md.IsXof() then xofLen != 0 || lib.size(md) > 0 else xofLen == 0 && lib.size(md) > 0
    ensures r.Ok? ==>
              var md := ResolveDigest(name).value;
              if md.IsXof() then
                && |r.value| == (if xofLen != 0 then xofLen else lib.size(md))
                && forall i :: 0 <= i < |r.value| ==> r.value[i] == lib.xof(md, input, i)
              else r.value == lib.hash(md, input)
  {
    if ResolveDigest(name).None? { return Err; }
    var ctx := new DirectDigestContext(lib, name);
    var ok := ctx.Update(input);
    if !ok { return Err; }
    assert [] + input == input && ctx.absorbed == input;
    if ctx.md.IsXof() {
      r := ctx.FinalXof(xofLen);
      return r;
    }
    if xofLen != 0 { return Err; }
    r := ctx.Final();
  }

  // ----- Chunking -----

  function UpdatedAll(lib: Library, c: Ctx, chunks: seq<Bytes>): Result<Ctx> {
    if chunks == [] then Ok(c)
    else
      var n := |chunks| - 1;
      var before := UpdatedAll(lib, c, chunks[..n]);
      if before.Err? then Err else Updated(lib, before.value, chunks[n])
  }

  lemma {:induction false} ChunksAddUp(lib: Library, c: Ctx, chunks: seq<Bytes>)
    requires !c.finalised
    ensures UpdatedAll(lib, c, chunks) == Ok(c.(absorbed := c.absorbed + Flatten(chunks)))
  {
    if chunks == [] {
      assert c.absorbed + [] == c.absorbed;
    } else {
      var n := |chunks| - 1;
      ChunksAddUp(lib, c, chunks[..n]);
      assert c.absorbed + (Flatten(chunks[..n]) + chunks[n]) == (c.absorbed + Flatten(chunks[..n])) + chunks[n];
      if chunks[n] == [] { assert Flatten(chunks) == Flatten(chunks[..n]); }
    }
  }

  /** However the input is cut into chunks, empty ones included, finalising gives the one-shot
      digest of the whole; the streaming calls do not check the unused length argument. */
  lemma ChunkingGivesOneShot(lib: Library, md: Md, chunks: seq<Bytes>, xofLen: nat)
    requires md.IsXof() || xofLen == 0
    ensures var c := UpdatedAll(lib, Ctx(md, [], false), chunks);
            c.Ok? && OneShot(lib, md, Flatten(chunks), xofLen)
                  == if md.IsXof() then XofOf(lib, c.value, xofLen) else FinalOf(lib, c.value)
  {
    ChunksAddUp(lib, Ctx(md, [], false), chunks);
    assert [] + Flatten(chunks) == Flatten(chunks);
  }
}
