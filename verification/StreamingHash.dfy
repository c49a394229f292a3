/** The Python side of digest contexts: the wrappers around the C calls, and the streaming
    page of the GUI. */
module StreamingHash {
  import opened Basics
  import opened DigestNames
  import opened DigestContexts
  import opened OutputBuffers
  import opened HashCApi

  // ----- The wrappers: none, or an error, stands for the exception -----

  method CtxNew(dll: HashDll, algorithm: string) returns (ctx: Handle?)
    requires dll.Valid()
    modifies dll
    ensures dll.Valid() && dll.calls == old(dll.calls) + 1
    ensures ctx == null <==> algorithm == "" || ResolveDigest(algorithm).None? || dll.faults(old(dll.calls))
    ensures ctx == null ==> dll.live == old(dll.live)
    ensures ctx != null ==>
              && fresh(ctx) && fresh(ctx.impl) && dll.live == old(dll.live) + {ctx}
              && ctx.impl.View() == Ctx(ResolveDigest(algorithm).value, [], false)
  {
    var status;
    status, ctx := dll.CtxNew(algorithm);
  }

  method CtxUpdate(dll: HashDll, ctx: Handle, data: Bytes) returns (ok: bool)
    requires dll.Valid() && ctx in dll.live
    modifies dll`calls, ctx.impl
    ensures dll.Valid() && dll.calls == old(dll.calls) + 1
    ensures ok <==> (data == [] || !dll.faults(old(dll.calls))) && Updated(dll.lib, old(ctx.impl.View()), data).Ok?
    ensures ok ==> Ok(ctx.impl.View()) == Updated(dll.lib, old(ctx.impl.View()), data)
  {
    var dataArr: array?<Byte> := null;
    if data != [] { dataArr := new Byte[|data|](i requires 0 <= i < |data| => data[i]); }
    assert data == if dataArr == null then [] else dataArr[..|data|];
    var status := dll.CtxUpdate(ctx, dataArr, |data|);
    ok := status == Success;
  }

  method CtxCopy(dll: HashDll, ctx: Handle) returns (copy: Handle?)
    requires dll.Valid() && ctx in dll.live
    modifies dll
    ensures dll.Valid() && dll.calls == old(dll.calls) + 1
    ensures copy == null <==> dll.faults(old(dll.calls))
    ensures copy == null ==> dll.live == old(dll.live)
    ensures copy != null ==>
              && fresh(copy) && fresh(copy.impl) && dll.live == old(dll.live) + {copy}
              && copy.impl.View() == ctx.impl.View()
  {
    var status;
    status, copy := dll.CtxCopy(ctx);
  }

  /** What probe-then-fetch yields when the first call computes r: an empty digest is returned
      by the probe; any other is lost unless the library finalises twice. */
  function Fetched(dll: HashDll, r: Result<Bytes>, calls: nat): Result<Bytes>
  {
    if dll.faults(calls) || r.Err? then Err
    else if r.value == [] then r
    else if dll.lib.lateFinal && !dll.faults(calls + 1) then r
    else Err
  }

  method CtxFinal(dll: HashDll, ctx: Handle) returns (r: Result<Bytes>)
    requires dll.Valid() && ctx in dll.live
    modifies dll`calls, ctx.impl
    ensures dll.Valid()
    ensures r == Fetched(dll, FinalOf(dll.lib, old(ctx.impl.View())), old(dll.calls))
    ensures var digest := FinalOf(dll.lib, old(ctx.impl.View()));
            && (r.Ok? ==> r == digest)
            && (r.Ok? <==> && digest.Ok? && !dll.faults(old(dll.calls))
                           && (digest.value == [] || (dll.lib.lateFinal && !dll.faults(old(dll.calls) + 1))))
    ensures ctx.impl.absorbed == old(ctx.impl.absorbed)
    ensures !dll.lib.lateFinal && r.Ok? ==> r.value == []
  {
    var outLen := new SizeCell();
    var status := dll.CtxFinal(ctx, null, 0, outLen);
    if status != Success && status != BufferTooSmall { return Err; }
    if outLen.value == 0 { return Ok([]); }
    var outBuf := new Byte[outLen.value];
    status := dll.CtxFinal(ctx, outBuf, outLen.value, outLen);
    if status != Success { return Err; }
    return Ok(outBuf[..outLen.value]);
  }

  method CtxFinalXof(dll: HashDll, ctx: Handle, xofLen: nat) returns (r: Result<Bytes>)
    requires dll.Valid() && ctx in dll.live
    modifies dll`calls, ctx.impl
    ensures dll.Valid()
    ensures r == Fetched(dll, XofOf(dll.lib, old(ctx.impl.View()), xofLen), old(dll.calls))
    ensures var digest := XofOf(dll.lib, old(ctx.impl.View()), xofLen);
            && (r.Ok? ==> r == digest)
            && (r.Ok? <==> && digest.Ok? && !dll.faults(old(dll.calls))
                           && (digest.value == [] || (dll.lib.lateFinal && !dll.faults(old(dll.calls) + 1))))
    ensures ctx.impl.absorbed == old(ctx.impl.absorbed)
    ensures !dll.lib.lateFinal && r.Ok? ==> r.value == []
  {
    var outLen := new SizeCell();
    var status := dll.CtxFinalXof(ctx, xofLen, null, 0, outLen);
    if status != Success && status != BufferTooSmall { return Err; }
    if outLen.value == 0 { return Ok([]); }
    var outBuf := new Byte[outLen.value];
    status := dll.CtxFinalXof(ctx, xofLen, outBuf, outLen.value, outLen);
    if status != Success { return Err; }
    return Ok(outBuf[..outLen.value]);
  }

  method DigestInfo(dll: HashDll, algorithm: string) returns (isXof: Option<bool>)
    modifies dll`calls
    ensures dll.calls == old(dll.calls) + 1
    ensures isXof == if algorithm == "" || ResolveDigest(algorithm).None? || dll.faults(old(dll.calls)) then None
                     else Some(ResolveDigest(algorithm).value.IsXof())
  {
    var fault := dll.Faulty();
    if algorithm == "" || ResolveDigest(algorithm).None? || fault { return None; }
    return Some(ResolveDigest(algorithm).value.IsXof());
  }

  // ----- The streaming page -----

  /** The settings of the page: the parsed chunks (an error when a hexadecimal line does not
      parse), whether and after which chunk to clone, and the extra data for the clone, if any
      was typed. */
  datatype Page = Page(
    algorithm: string,
    chunks: Result<seq<Bytes>>,
    cloneEnabled: bool,
    cloneAfter: nat,
    extra: Option<Result<Bytes>>,
    xofLen: nat)

  /** What the clone has absorbed when it is finalised. */
  function CloneBytes(page: Page): Bytes
    requires page.chunks.Ok?
  {
    Flatten(page.chunks.value[..Min(page.cloneAfter + 1, |page.chunks.value|)])
    + if page.extra.Some? && page.extra.value.Ok? then page.extra.value.value else []
  }

  /** The loop over the chunks, and the late clone behind it.  Not ok is an exception; the two
      handles are what the variables of the caller then hold. */
  method Absorb(dll: HashDll, ctx: Handle, page: Page) returns (ok: bool, clone: Handle?)
    requires dll.Valid() && ctx in dll.live && page.chunks.Ok?
    requires ctx.impl.View().absorbed == [] && !ctx.impl.View().finalised
    modifies dll, ctx.impl
    ensures dll.Valid()
    ensures clone == null ==> dll.live == old(dll.live)
    ensures clone != null ==> fresh(clone) && fresh(clone.impl) && dll.live == old(dll.live) + {clone}
    ensures ok ==> ctx.impl.View() == old(ctx.impl.View()).(absorbed := Flatten(page.chunks.value))
    ensures ok ==> (clone != null <==> page.cloneEnabled)
    ensures ok && clone != null ==>
              clone.impl.View() == old(ctx.impl.View()).(absorbed :=
                Flatten(page.chunks.value[..Min(page.cloneAfter + 1, |page.chunks.value|)]))
    ensures (forall i: nat :: !dll.faults(i)) ==> ok
  {
    var chunks := page.chunks.value;
    ghost var base := ctx.impl.View();
    clone := null;
    for idx := 0 to |chunks|
      invariant dll.Valid() && ctx in dll.live
      invariant ctx.impl.View() == base.(absorbed := Flatten(chunks[..idx]))
      invariant clone == null ==> dll.live == old(dll.live)
      invariant clone != null ==> fresh(clone) && fresh(clone.impl) && dll.live == old(dll.live) + {clone}
      invariant clone != null <==> page.cloneEnabled && page.cloneAfter < idx
      invariant clone != null ==>
                  clone.impl.View() == base.(absorbed := Flatten(chunks[..page.cloneAfter + 1]))
    {
      assert chunks[..idx + 1][..idx] == chunks[..idx];
      ok := CtxUpdate(dll, ctx, chunks[idx]);
      if !ok { return false, clone; }
      assert Flatten(chunks[..idx + 1]) == Flatten(chunks[..idx]) + chunks[idx];
      if page.cloneEnabled && idx == page.cloneAfter {
        clone := CtxCopy(dll, ctx);
        if clone == null { return false, clone; }
      }
    }
    assert chunks[..|chunks|] == chunks;
    if page.cloneEnabled && clone == null {
      clone := CtxCopy(dll, ctx);
      if clone == null { return false, clone; }
    }
    return true, clone;
  }

  function DigestOf(lib: Library, c: Ctx, xofLen: nat): Result<Bytes> {
    if c.md.IsXof() then XofOf(lib, c, xofLen) else FinalOf(lib, c)
  }

  ghost predicate DigestsHaveBytes(lib: Library) {
    forall md, data :: |lib.hash(md, data)| > 0
  }

  /** With a library that finalises only once and digests that have bytes, probe-then-fetch
      delivers no digest of any context, whichever calls fail. */
  lemma StreamingNeverShows(dll: HashDll, c: Ctx, xofLen: nat, calls: nat)
    requires !dll.lib.lateFinal && DigestsHaveBytes(dll.lib)
    ensures Fetched(dll, DigestOf(dll.lib, c, xofLen), calls).Err?
  {
    assert |dll.lib.hash(c.md, c.absorbed)| > 0;
  }

  /** One final, by the kind of the digest. */
  method Finish(dll: HashDll, ctx: Handle, isXof: bool, xofLen: nat) returns (r: Result<Bytes>)
    requires dll.Valid() && ctx in dll.live && isXof == ctx.impl.md.IsXof()
    modifies dll`calls, ctx.impl
    ensures dll.Valid()
    ensures r == Fetched(dll, DigestOf(dll.lib, old(ctx.impl.View()), xofLen), old(dll.calls))
    ensures !dll.lib.lateFinal && DigestsHaveBytes(dll.lib) ==> r.Err?
  {
    if !dll.lib.lateFinal && DigestsHaveBytes(dll.lib) {
      StreamingNeverShows(dll, ctx.impl.View(), xofLen, dll.calls);
    }
    if isXof {
      r := CtxFinalXof(dll, ctx, xofLen);
    } else {
      r := CtxFinal(dll, ctx);
    }
  }

  /** What reaches the page of a digest, when no call faults. */
  function Shown(lib: Library, digest: Result<Bytes>): Result<Bytes> {
    if digest.Ok? && digest.value != [] && !lib.lateFinal then Err else digest
  }

  datatype Report = Report(main: Bytes, clone: Option<Bytes>)

  /** The report on the states in which the contexts are finalised. */
  function Shows(lib: Library, ctx: Ctx, clone: Option<Ctx>, xofLen: nat): Result<Report> {
    var main := Shown(lib, DigestOf(lib, ctx, xofLen));
    if main.Err? then Err
    else if clone.None? then Ok(Report(main.value, None))
    else
      var other := Shown(lib, DigestOf(lib, clone.value, xofLen));
      if other.Err? then Err else Ok(Report(main.value, Some(other.value)))
  }

  /** The result of the page when no call faults: the main context has absorbed all chunks, the
      clone the chunks up to the chosen one (or all, if there are fewer) and the extra data. */
  function Streamed(lib: Library, page: Page): Result<Report> {
    if page.chunks.Err? || page.algorithm == "" || ResolveDigest(page.algorithm).None? then Err
    else if page.cloneEnabled && page.extra == Some(Err) then Err
    else
      var md := ResolveDigest(page.algorithm).value;
      Shows(lib, Ctx(md, Flatten(page.chunks.value), false),
            if page.cloneEnabled then Some(Ctx(md, CloneBytes(page), false)) else None, page.xofLen)
  }

  /** What the page gets from a library that finalises twice: a digest of all chunks and, if a
      clone was asked for, one of the chunks up to the chosen one and the extra data; an error if
      a text does not parse, the algorithm is unknown, or it has no digest. */
  lemma StreamedReport(lib: Library, page: Page)
    requires lib.lateFinal
    ensures Streamed(lib, page).Ok? <==>
              && page.chunks.Ok? && page.algorithm != "" && ResolveDigest(page.algorithm).Some?
              && !(page.cloneEnabled && page.extra == Some(Err))
              && var md := ResolveDigest(page.algorithm).value;
              lib.size(md) > 0 || (md.IsXof() && page.xofLen != 0)
    ensures Streamed(lib, page).Ok? ==>
              var r, md, chunks := Streamed(lib, page).value, ResolveDigest(page.algorithm).value, page.chunks.value;
              var front := if page.cloneAfter < |chunks| then chunks[..page.cloneAfter + 1] else chunks;
              var typed := if page.extra.Some? && page.extra.value.Ok? then page.extra.value.value else [];
              && IsDigest(lib, md, Flatten(chunks), page.xofLen, r.main)
              && (r.clone.Some? <==> page.cloneEnabled)
              && (r.clone.Some? ==> IsDigest(lib, md, Flatten(front) + typed, page.xofLen, r.clone.value))
  {
    if page.chunks.Ok? {
      var chunks := page.chunks.value;
      assert chunks[..|chunks|] == chunks;
    }
  }

  /** These bytes are the digest of the data, at the length asked for or the usual one. */
  ghost predicate IsDigest(lib: Library, md: Md, data: Bytes, xofLen: nat, digest: Bytes) {
    if md.IsXof() then
      && |digest| == (if xofLen != 0 then xofLen else lib.size(md))
      && forall i :: 0 <= i < |digest| ==> digest[i] == lib.xof(md, data, i)
    else digest == lib.hash(md, data)
  }

  /** Everything up to finalisation: the chunks, the clone and its extra data. */
  method Fill(dll: HashDll, ctx: Handle, page: Page) returns (ok: bool, clone: Handle?)
    requires dll.Valid() && ctx in dll.live && page.chunks.Ok?
    requires ctx.impl.View().absorbed == [] && !ctx.impl.View().finalised
    modifies dll, ctx.impl
    ensures dll.Valid()
    ensures clone == null ==> dll.live == old(dll.live)
    ensures clone != null ==> fresh(clone) && fresh(clone.impl) && dll.live == old(dll.live) + {clone}
    ensures ok ==> ctx.impl.View() == old(ctx.impl.View()).(absorbed := Flatten(page.chunks.value))
    ensures ok ==> (clone != null <==> page.cloneEnabled)
    ensures ok && clone != null ==> clone.impl.View() == old(ctx.impl.View()).(absorbed := CloneBytes(page))
    ensures ok && clone != null ==>
              var front := Flatten(page.chunks.value[..Min(page.cloneAfter + 1, |page.chunks.value|)]);
              && (page.extra.None? ==> clone.impl.absorbed == front)
              && (page.extra.Some? ==> page.extra.value.Ok? && clone.impl.absorbed == front + page.extra.value.value)
    ensures (forall i: nat :: !dll.faults(i)) ==> (ok <==> !(page.cloneEnabled && page.extra == Some(Err)))
    ensures ok ==> !(page.cloneEnabled && page.extra == Some(Err))
  {
    ok, clone := Absorb(dll, ctx, page);
    if ok && clone != null && page.extra.Some? {
      if page.extra.value.Err? { return false, clone; }
      ok := CtxUpdate(dll, clone, page.extra.value.value);
    }
  }

  /** Both finals. */
  method FinishBoth(dll: HashDll, ctx: Handle, clone: Handle?, isXof: bool, xofLen: nat) returns (r: Result<Report>)
    requires dll.Valid() && ctx in dll.live && isXof == ctx.impl.md.IsXof()
    requires clone != null ==> clone in dll.live && clone != ctx && clone.impl.md == ctx.impl.md
    modifies dll`calls, ctx.impl, if clone == null then {} else {clone.impl}
    ensures dll.Valid()
    ensures !dll.lib.lateFinal && DigestsHaveBytes(dll.lib) ==> r.Err?
    ensures (forall i: nat :: !dll.faults(i)) ==>
              r == Shows(dll.lib, old(ctx.impl.View()),
                         if clone == null then None else Some(old(clone.impl.View())), xofLen)
  {
    var mainDigest := Finish(dll, ctx, isXof, xofLen);
    if mainDigest.Err? { return Err; }
    if clone == null { return Ok(Report(mainDigest.value, None)); }
    var cloneDigest := Finish(dll, clone, isXof, xofLen);
    if cloneDigest.Err? { return Err; }
    return Ok(Report(mainDigest.value, Some(cloneDigest.value)));
  }

  /** `_hash_streaming`.  Whichever call fails, the live handles afterwards are those from before:
      both contexts have been freed, each once, since a second free would not be allowed.  With a
      library that finalises only once, and digests that have bytes, the page ends in an error,
      for every input and whichever calls fail. */
  method HashStreaming(dll: HashDll, page: Page) returns (r: Result<Report>)
    requires dll.Valid()
    modifies dll
    ensures dll.Valid() && dll.live == old(dll.live)
    ensures (forall i: nat :: !dll.faults(i)) ==> r == Streamed(dll.lib, page)
    ensures !dll.lib.lateFinal && DigestsHaveBytes(dll.lib) ==> r.Err?
  {
    var ctx: Handle?, clone: Handle? := null, null;
    label Try: {
      if page.chunks.Err? { break Try; }
      ctx := CtxNew(dll, page.algorithm);
      if ctx == null { break Try; }
      var ok;
      ok, clone := Fill(dll, ctx, page);
      if !ok { break Try; }
      var isXof := DigestInfo(dll, page.algorithm);
      if isXof.None? { break Try; }
      r := FinishBoth(dll, ctx, clone, isXof.value, page.xofLen);
      if r.Err? { break Try; }
      dll.CtxFree(ctx);
      ctx := null;
      if clone != null {
        dll.CtxFree(clone);
        clone := null;
      }
      return r;
    }
    if ctx != null { dll.CtxFree(ctx); }
    if clone != null { dll.CtxFree(clone); }
    return Err;
  }
}
