/** The C interface to digest contexts: opaque handles on the heap, results through
    out-pointers. */
module HashCApi {
  import opened Basics
  import opened DigestNames
  import opened DigestContexts
  import opened OutputBuffers

  /** `EVPHASHDIRECT_CTX`: a heap cell that owns one context. */
  class Handle {
    const impl: DirectDigestContext

    constructor (impl: DirectDigestContext)
      ensures this.impl == impl
    {
      this.impl := impl;
    }
  }

  /** The loaded library.  `faults` says of every call, in order, whether OpenSSL or the
      allocator fails in it; `live` holds the handles created and not yet freed, so a call that
      frees a handle twice, or uses a freed one, does not verify. */
  class HashDll {
    const lib: Library
    const faults: nat -> bool
    var calls: nat
    ghost var live: set<Handle>

    constructor (lib: Library, faults: nat -> bool)
      ensures Valid() && live == {} && calls == 0 && this.lib == lib && this.faults == faults
    {
      this.lib, this.faults, calls, live := lib, faults, 0, {};
    }

    /** No two live handles share a context. */
    ghost predicate Valid()
      reads this
    {
      && (forall h :: h in live ==> h.impl.lib == lib)
      && (forall g, h :: g in live && h in live && g.impl == h.impl ==> g == h)
    }

    method Faulty() returns (fault: bool)
      modifies this`calls
      ensures fault == faults(old(calls)) && calls == old(calls) + 1
    {
      fault := faults(calls);
      calls := calls + 1;
    }

    method CtxNew(name: string) returns (status: Status, ctx: Handle?)
      requires Valid()
      modifies this
      ensures Valid() && calls == old(calls) + 1
      ensures status == if name == "" || ResolveDigest(name).None? || faults(old(calls)) then Failed
                        else Success
      ensures status != Success ==> ctx == null && live == old(live)
      ensures status == Success ==>
                && ctx != null && fresh(ctx) && fresh(ctx.impl) && live == old(live) + {ctx}
                && ctx.impl.View() == Ctx(ResolveDigest(name).value, [], false)
    {
      ctx := null;
      var fault := Faulty();
      if name == "" || ResolveDigest(name).None? || fault { return Failed, null; }
      var impl := new DirectDigestContext(lib, name);
      var wrapper := new Handle(impl);
      live := live + {wrapper};
      return Success, wrapper;
    }

    method CtxUpdate(ctx: Handle?, input: array?<Byte>, inputLen: nat) returns (status: Status)
      requires Valid() && (ctx != null ==> ctx in live)
      requires input != null ==> inputLen <= input.Length
      modifies this`calls, if ctx == null then {} else {ctx.impl}
      ensures Valid() && calls == old(calls) + 1
      ensures var refused := ctx == null || (inputLen != 0 && (input == null || faults(old(calls))));
              var data := if input == null then [] else input[..inputLen];
              var next := if refused then Err else Updated(lib, old(ctx.impl.View()), data);
              && status == (if next.Err? then Failed else Success)
              && (ctx != null ==> ctx.impl.View() == if next.Ok? then next.value else old(ctx.impl.View()))
    {
      var fault := Faulty();
      if ctx == null { return Failed; }
      if inputLen != 0 && (input == null || fault) { return Failed; }
      var ok;
      if input == null {
        ok := ctx.impl.Update([]);
      } else {
        ok := ctx.impl.Update(input[..inputLen]);
      }
      return if ok then Success else Failed;
    }

    method CtxCopy(src: Handle?) returns (status: Status, dst: Handle?)
      requires Valid() && (src != null ==> src in live)
      modifies this
      ensures Valid() && calls == old(calls) + 1
      ensures status == if src == null || faults(old(calls)) then Failed else Success
      ensures status != Success ==> dst == null && live == old(live)
      ensures status == Success ==>
                && dst != null && fresh(dst) && fresh(dst.impl) && live == old(live) + {dst}
                && dst.impl.View() == src.impl.View()
    {
      dst := null;
      var fault := Faulty();
      if src == null || fault { return Failed, null; }
      var copy := src.impl.Clone();
      var wrapper := new Handle(copy);
      live := live + {wrapper};
      return Success, wrapper;
    }

    /** The context is finalised before the room in the buffer is looked at. */
    method CtxFinal(ctx: Handle?, output: array?<Byte>, capacity: nat, outputLen: SizeCell?)
      returns (status: Status)
      requires Valid() && (ctx != null ==> ctx in live)
      requires output != null ==> capacity <= output.Length
      modifies this`calls, output, outputLen, if ctx == null then {} else {ctx.impl}
      ensures Valid() && calls == old(calls) + 1
      ensures var r := if ctx == null || faults(old(calls)) then Err else FinalOf(lib, old(ctx.impl.View()));
              && status == StatusOf(r, output != null, capacity)
              && status == (if r.Err? then Failed
                            else if r.value == [] || (output != null && |r.value| <= capacity) then Success
                            else BufferTooSmall)
              && (outputLen != null ==> outputLen.value == if r.Ok? then |r.value| else old(outputLen.value))
              && (output != null && status == Success ==>
                    output[..|r.value|] == r.value && output[|r.value|..] == old(output[..])[|r.value|..])
              && (output != null && status != Success ==> output[..] == old(output[..]))
              && (ctx != null ==> ctx.impl.View() == if r.Ok? then old(ctx.impl.View()).(finalised := true)
                                                     else old(ctx.impl.View()))
    {
      var fault := Faulty();
      if ctx == null || fault { return Failed; }
      var out := ctx.impl.Final();
      if out.Err? { return Failed; }
      status := CopyBytesToOutput(out.value, output, capacity, outputLen);
    }

    method CtxFinalXof(ctx: Handle?, xofLen: nat, output: array?<Byte>, capacity: nat, outputLen: SizeCell?)
      returns (status: Status)
      requires Valid() && (ctx != null ==> ctx in live)
      requires output != null ==> capacity <= output.Length
      modifies this`calls, output, outputLen, if ctx == null then {} else {ctx.impl}
      ensures Valid() && calls == old(calls) + 1
      ensures var r := if ctx == null || faults(old(calls)) then Err else XofOf(lib, old(ctx.impl.View()), xofLen);
              && status == StatusOf(r, output != null, capacity)
              && status == (if r.Err? then Failed
                            else if r.value == [] || (output != null && |r.value| <= capacity) then Success
                            else BufferTooSmall)
              && (outputLen != null ==> outputLen.value == if r.Ok? then |r.value| else old(outputLen.value))
              && (output != null && status == Success ==>
                    output[..|r.value|] == r.value && output[|r.value|..] == old(output[..])[|r.value|..])
              && (output != null && status != Success ==> output[..] == old(output[..]))
              && (ctx != null ==> ctx.impl.View() == if r.Ok? then old(ctx.impl.View()).(finalised := true)
                                                     else old(ctx.impl.View()))
    {
      var fault := Faulty();
      if ctx == null || fault { return Failed; }
      var out := ctx.impl.FinalXof(xofLen);
      if out.Err? { return Failed; }
      status := CopyBytesToOutput(out.value, output, capacity, outputLen);
    }

    /** `delete`: of a live handle or of null. */
    method CtxFree(ctx: Handle?)
      requires Valid() && (ctx != null ==> ctx in live)
      modifies this`live
      ensures Valid() && live == if ctx == null then old(live) else old(live) - {ctx}
    {
      if ctx != null { live := live - {ctx}; }
    }
  }
}
