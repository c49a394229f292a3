/** Programs over the C interface: any sequence of calls on any number of handles, executed on
    the heap and, as a reference, on plain values. */
module HandlePrograms {
  import opened Basics
  import opened DigestNames
  import opened DigestContexts
  import opened OutputBuffers
  import opened HashCApi

  /** A client keeps its handles in numbered variables; `New` and `Copy` fill the next one, with
      null if the call fails, and `Free` sets the variable to null.  `room` is the capacity of
      the output buffer, or none for a null pointer. */
  datatype Op =
    | New(name: string)
    | Update(h: nat, data: Bytes)
    | Copy(h: nat)
    | Final(h: nat, room: Option<nat>)
    | FinalXof(h: nat, xofLen: nat, room: Option<nat>)
    | Free(h: nat)

  /** What the client sees of a call: its status, and the bytes put into its buffer. */
  datatype Reply = Reply(status: Status, delivered: Option<Bytes>)

  datatype Machine = Machine(calls: nat, table: seq<Option<Ctx>>)

  // ----- On values -----

  function Slot(table: seq<Option<Ctx>>, h: nat): Option<Ctx> {
    if h < |table| then table[h] else None
  }

  function Deliver(r: Result<Bytes>, room: Option<nat>): Reply {
    var status := StatusOf(r, room.Some?, if room.Some? then room.value else 0);
    Reply(status, if status == Success then Some(r.value) else None)
  }

  /** A context after a final that gives r. */
  function Finalising(c: Ctx, r: Result<Bytes>): Ctx {
    if r.Ok? then c.(finalised := true) else c
  }

  function Finish(m: Machine, h: nat, r: Result<Bytes>, room: Option<nat>): (Machine, Reply) {
    var c := Slot(m.table, h);
    (Machine(m.calls + 1, if c.Some? then m.table[h := Some(Finalising(c.value, r))] else m.table),
     Deliver(r, room))
  }

  function StepOp(lib: Library, faults: nat -> bool, m: Machine, op: Op): (Machine, Reply) {
    var fault := faults(m.calls);
    match op
    case New(name) =>
      if name == "" || ResolveDigest(name).None? || fault then
        (Machine(m.calls + 1, m.table + [None]), Reply(Failed, None))
      else (Machine(m.calls + 1, m.table + [Some(Ctx(ResolveDigest(name).value, [], false))]), Reply(Success, None))
    case Update(h, data) =>
      var c := Slot(m.table, h);
      var next := if c.None? || (fault && data != []) then Err else Updated(lib, c.value, data);
      if next.Err? then (Machine(m.calls + 1, m.table), Reply(Failed, None))
      else (Machine(m.calls + 1, m.table[h := Some(next.value)]), Reply(Success, None))
    case Copy(h) =>
      var c := Slot(m.table, h);
      if c.None? || fault then (Machine(m.calls + 1, m.table + [None]), Reply(Failed, None))
      else (Machine(m.calls + 1, m.table + [c]), Reply(Success, None))
    case Final(h, room) =>
      var c := Slot(m.table, h);
      Finish(m, h, if c.None? || fault then Err else FinalOf(lib, c.value), room)
    case FinalXof(h, n, room) =>
      var c := Slot(m.table, h);
      Finish(m, h, if c.None? || fault then Err else XofOf(lib, c.value, n), room)
    case Free(h) =>
      (Machine(m.calls, if h < |m.table| then m.table[h := None] else m.table), Reply(Success, None))
  }

  /** A program, started with no handles, with its replies. */
  function RunOps(lib: Library, faults: nat -> bool, ops: seq<Op>): (r: (Machine, seq<Reply>))
    ensures |r.1| == |ops|
  {
    if ops == [] then (Machine(0, []), [])
    else
      var n := |ops| - 1;
      var before := RunOps(lib, faults, ops[..n]);
      var step := StepOp(lib, faults, before.0, ops[n]);
      (step.0, before.1 + [step.1])
  }

  // ----- On the heap -----

  /** The client's variables hold the live handles, no two the same, in the states of the
      table. */
  ghost predicate Mirrors(dll: HashDll, vars: seq<Handle?>, m: Machine)
    reads dll, set i | 0 <= i < |vars| && vars[i] != null :: vars[i].impl
  {
    && dll.Valid() && dll.calls == m.calls && |vars| == |m.table|
    && (forall h :: h in dll.live ==> h in vars)
    && (forall i :: 0 <= i < |vars| ==> (vars[i] == null <==> m.table[i].None?))
    && (forall i :: 0 <= i < |vars| && vars[i] != null ==>
          vars[i] in dll.live && vars[i].impl.View() == m.table[i].value)
    && (forall i, j :: 0 <= i < j < |vars| && vars[i] != null ==> vars[i] != vars[j])
  }

  method ArrayOf(data: Bytes) returns (a: array?<Byte>)
    ensures data == [] ==> a == null
    ensures data != [] ==> a != null && fresh(a) && a[..] == data
  {
    if data == [] { return null; }
    a := new Byte[|data|](i requires 0 <= i < |data| => data[i]);
  }

  function Var(vars: seq<Handle?>, h: nat): Handle? {
    if h < |vars| then vars[h] else null
  }

  method DoUpdate(dll: HashDll, vars: seq<Handle?>, h: nat, data: Bytes, ghost m: Machine) returns (reply: Reply)
    requires Mirrors(dll, vars, m)
    modifies dll, set i | 0 <= i < |vars| && vars[i] != null :: vars[i].impl
    ensures var step := StepOp(dll.lib, dll.faults, m, Update(h, data));
            Mirrors(dll, vars, step.0) && reply == step.1
    ensures dll.live == old(dll.live)
  {
    var input := ArrayOf(data);
    var status := dll.CtxUpdate(Var(vars, h), input, |data|);
    reply := Reply(status, None);
  }

  method NewOutput(room: Option<nat>) returns (output: array?<Byte>, capacity: nat)
    ensures room.None? ==> output == null && capacity == 0
    ensures room.Some? ==> output != null && fresh(output) && output.Length == room.value == capacity
  {
    if room.None? { return null, 0; }
    output := new Byte[room.value];
    capacity := room.value;
  }

  /** What the client reads from its buffer when a call succeeded. */
  method Fetch(status: Status, output: array?<Byte>, n: nat) returns (delivered: Option<Bytes>)
    requires status == Success && n != 0 ==> output != null && n <= output.Length
    ensures delivered == if status != Success then None else if n == 0 then Some([]) else Some(output[..n])
  {
    if status != Success { return None; }
    if n == 0 { return Some([]); }
    return Some(output[..n]);
  }

  /** What a final of either kind computes for a context. */
  function Outcome(lib: Library, c: Ctx, op: Op): Result<Bytes>
    requires op.Final? || op.FinalXof?
  {
    if op.Final? then FinalOf(lib, c) else XofOf(lib, c, op.xofLen)
  }

  /** One final on one handle: the call with a buffer of the chosen size, and what is in it. */
  method CallFinal(dll: HashDll, ctx: Handle?, op: Op) returns (reply: Reply)
    requires dll.Valid() && (ctx != null ==> ctx in dll.live) && (op.Final? || op.FinalXof?)
    modifies dll`calls, if ctx == null then {} else {ctx.impl}
    ensures dll.Valid() && dll.calls == old(dll.calls) + 1
    ensures var r := if ctx == null || dll.faults(old(dll.calls)) then Err
                     else Outcome(dll.lib, old(ctx.impl.View()), op);
            && reply == Deliver(r, op.room)
            && (ctx != null ==> ctx.impl.View() == Finalising(old(ctx.impl.View()), r))
  {
    var output, capacity := NewOutput(op.room);
    var outputLen := new SizeCell();
    var status;
    if op.Final? {
      status := dll.CtxFinal(ctx, output, capacity, outputLen);
    } else {
      status := dll.CtxFinalXof(ctx, op.xofLen, output, capacity, outputLen);
    }
    var delivered := Fetch(status, output, outputLen.value);
    reply := Reply(status, delivered);
  }

  method DoFinal(dll: HashDll, vars: seq<Handle?>, op: Op, ghost m: Machine) returns (reply: Reply)
    requires Mirrors(dll, vars, m) && (op.Final? || op.FinalXof?)
    modifies dll, set i | 0 <= i < |vars| && vars[i] != null :: vars[i].impl
    ensures var step := StepOp(dll.lib, dll.faults, m, op);
            Mirrors(dll, vars, step.0) && reply == step.1
    ensures dll.live == old(dll.live)
  {
    reply := CallFinal(dll, Var(vars, op.h), op);
  }

  /** Where the client's handles come from: from before, or fresh. */
  twostate predicate Known(vars: seq<Handle?>, new vars': seq<Handle?>) {
    forall i :: 0 <= i < |vars'| && vars'[i] != null ==> vars'[i] in vars || fresh(vars'[i].impl)
  }

  method DoNew(dll: HashDll, vars: seq<Handle?>, name: string, ghost m: Machine)
    returns (vars': seq<Handle?>, reply: Reply)
    requires Mirrors(dll, vars, m)
    modifies dll
    ensures var step := StepOp(dll.lib, dll.faults, m, New(name));
            Mirrors(dll, vars', step.0) && reply == step.1
    ensures Known(vars, vars')
  {
    var status, ctx := dll.CtxNew(name);
    return vars + [ctx], Reply(status, None);
  }

  method DoCopy(dll: HashDll, vars: seq<Handle?>, h: nat, ghost m: Machine)
    returns (vars': seq<Handle?>, reply: Reply)
    requires Mirrors(dll, vars, m)
    modifies dll
    ensures var step := StepOp(dll.lib, dll.faults, m, Copy(h));
            Mirrors(dll, vars', step.0) && reply == step.1
    ensures Known(vars, vars')
  {
    var status, ctx := dll.CtxCopy(Var(vars, h));
    return vars + [ctx], Reply(status, None);
  }

  method DoFree(dll: HashDll, vars: seq<Handle?>, h: nat, ghost m: Machine)
    returns (vars': seq<Handle?>, reply: Reply)
    requires Mirrors(dll, vars, m)
    modifies dll
    ensures var step := StepOp(dll.lib, dll.faults, m, Free(h));
            Mirrors(dll, vars', step.0) && reply == step.1
    ensures Known(vars, vars')
  {
    dll.CtxFree(Var(vars, h));
    return if h < |vars| then vars[h := null] else vars, Reply(Success, None);
  }

  /** For every program, with every pattern of faults, the heap ends in the state of the value
      semantics with the same replies, and the live handles are just those the client holds. */
  method Execute(dll: HashDll, ops: seq<Op>) returns (vars: seq<Handle?>, replies: seq<Reply>)
    requires dll.Valid() && dll.calls == 0 && dll.live == {}
    modifies dll
    ensures Mirrors(dll, vars, RunOps(dll.lib, dll.faults, ops).0)
    ensures replies == RunOps(dll.lib, dll.faults, ops).1
  {
    vars, replies := [], [];
    for k := 0 to |ops|
      invariant Mirrors(dll, vars, RunOps(dll.lib, dll.faults, ops[..k]).0)
      invariant replies == RunOps(dll.lib, dll.faults, ops[..k]).1
      invariant forall i :: 0 <= i < |vars| && vars[i] != null ==> fresh(vars[i].impl)
    {
      ghost var m := RunOps(dll.lib, dll.faults, ops[..k]).0;
      assert ops[..k + 1][..k] == ops[..k];
      var reply;
      match ops[k] {
        case Update(h, data) => reply := DoUpdate(dll, vars, h, data, m);
        case Final(_, _) => reply := DoFinal(dll, vars, ops[k], m);
        case FinalXof(_, _, _) => reply := DoFinal(dll, vars, ops[k], m);
        case New(name) => vars, reply := DoNew(dll, vars, name, m);
        case Copy(h) => vars, reply := DoCopy(dll, vars, h, m);
        case Free(h) => vars, reply := DoFree(dll, vars, h, m);
      }
      replies := replies + [reply];
    }
    assert ops[..|ops|] == ops;
  }

  // ----- Copy ancestry -----

  /** The variable filled by the last operation, if it fills one. */
  function Filled(ops: seq<Op>): nat {
    if ops == [] then 0
    else Filled(ops[..|ops| - 1]) + if ops[|ops| - 1].New? || ops[|ops| - 1].Copy? then 1 else 0
  }

  /** The data that went into a variable's context, found by reading the program backwards: its
      own successful updates back to the copy that made it, then those of what it was copied
      from, and so on to a `New`. */
  function Ancestry(ops: seq<Op>, replies: seq<Reply>, h: nat): Bytes
    requires |ops| == |replies|
    decreases |ops|
  {
    if ops == [] then []
    else
      var n := |ops| - 1;
      var front, said := ops[..n], replies[..n];
      match ops[n]
      case New(_) => if h == Filled(front) then [] else Ancestry(front, said, h)
      case Copy(g) => Ancestry(front, said, if h == Filled(front) then g else h)
      case Update(g, data) => Ancestry(front, said, h) + if g == h && replies[n].status == Success then data else []
      case _ => Ancestry(front, said, h)
  }

  lemma {:induction false} FilledIsTable(lib: Library, faults: nat -> bool, ops: seq<Op>)
    ensures |RunOps(lib, faults, ops).0.table| == Filled(ops)
  {
    if ops != [] {
      FilledIsTable(lib, faults, ops[..|ops| - 1]);
    }
  }

  /** The variable that held, before an operation, what h holds after it. */
  function Source(op: Op, filled: nat, h: nat): nat {
    if op.Copy? && h == filled then op.h else h
  }

  /** What an operation adds to the bytes absorbed by h. */
  lemma StepAbsorbs(lib: Library, faults: nat -> bool, m: Machine, op: Op, h: nat)
    requires Slot(StepOp(lib, faults, m, op).0.table, h).Some?
    ensures var step, n := StepOp(lib, faults, m, op), |m.table|;
            var bytes := Slot(step.0.table, h).value.absorbed;
            if op.New? && h == n then bytes == []
            else
              && Slot(m.table, Source(op, n, h)).Some?
              && bytes == Slot(m.table, Source(op, n, h)).value.absorbed
                          + if op.Update? && op.h == h && step.1.status == Success then op.data else []
  {
  }

  /** For any program on any number of handles, each live handle has absorbed exactly the updates
      along its copy ancestry, in order. */
  lemma {:induction false} AbsorbedIsAncestry(lib: Library, faults: nat -> bool, ops: seq<Op>, h: nat)
    requires Slot(RunOps(lib, faults, ops).0.table, h).Some?
    ensures Slot(RunOps(lib, faults, ops).0.table, h).value.absorbed == Ancestry(ops, RunOps(lib, faults, ops).1, h)
  {
    if ops != [] {
      var n := |ops| - 1;
      var front := ops[..n];
      var before := RunOps(lib, faults, front);
      FilledIsTable(lib, faults, front);
      assert RunOps(lib, faults, ops).1[..n] == before.1;
      StepAbsorbs(lib, faults, before.0, ops[n], h);
      if !(ops[n].New? && h == Filled(front)) {
        AbsorbedIsAncestry(lib, faults, front, Source(ops[n], Filled(front), h));
      }
    }
  }

  // ----- Final consumes -----

  function Finalised(table: seq<Option<Ctx>>, h: nat): bool {
    var c := Slot(table, h);
    c.Some? && c.value.finalised
  }

  /** An operation that may change what variable g holds. */
  predicate Touches(op: Op, g: nat) {
    !op.New? && !op.Copy? && op.h == g
  }

  ghost predicate Holds(table: seq<Option<Ctx>>, g: nat, c: Ctx) {
    g < |table| && table[g] == Some(c)
  }

  /** A call touches no variable but the one it names and the one it fills. */
  lemma OthersUntouched(lib: Library, faults: nat -> bool, m: Machine, op: Op, g: nat, c: Ctx)
    requires Holds(m.table, g, c) && !Touches(op, g)
    ensures Holds(StepOp(lib, faults, m, op).0.table, g, c)
  {
  }

  ghost predicate SpentOrFree(table: seq<Option<Ctx>>, h: nat) {
    h < |table| && (Finalised(table, h) || table[h].None?)
  }

  /** A finalised handle stays so until it is freed, and so does every copy made of it. */
  lemma StepKeepsFinalised(lib: Library, faults: nat -> bool, m: Machine, op: Op, h: nat)
    requires SpentOrFree(m.table, h)
    ensures var t := StepOp(lib, faults, m, op).0.table;
            SpentOrFree(t, h) && (op == Copy(h) ==> SpentOrFree(t, |m.table|))
  {
  }

  predicate Finishes(op: Op, h: nat) {
    (op.Final? || op.FinalXof?) && op.h == h
  }

  /** Whether variable g holds, after the rest of a program, the handle that h held before it, or
      a copy made of it since, directly or through other copies; `filled` variables were filled
      before. */
  predicate MadeFrom(filled: nat, rest: seq<Op>, h: nat, g: nat) {
    if rest == [] then g == h
    else
      var n := |rest| - 1;
      var fills := (rest[n].New? || rest[n].Copy?) && g == filled + Filled(rest[..n]);
      if !fills then MadeFrom(filled, rest[..n], h, g)
      else rest[n].Copy? && MadeFrom(filled, rest[..n], h, rest[n].h)
  }

  function Next(lib: Library, faults: nat -> bool): (Machine, Op) -> Machine {
    (m: Machine, op: Op) => StepOp(lib, faults, m, op).0
  }

  /** The machine after more operations. */
  function Then(lib: Library, faults: nat -> bool, m: Machine, rest: seq<Op>): Machine {
    Fold(Next(lib, faults), m, rest)
  }

  lemma ThenAppend(lib: Library, faults: nat -> bool, m: Machine, ops: seq<Op>, rest: seq<Op>)
    ensures Then(lib, faults, m, ops + rest) == Then(lib, faults, Then(lib, faults, m, ops), rest)
  {
    FoldAppend(Next(lib, faults), m, ops, rest);
  }

  lemma {:induction false} RunOpsIsFold(lib: Library, faults: nat -> bool, ops: seq<Op>)
    ensures RunOps(lib, faults, ops).0 == Then(lib, faults, Machine(0, []), ops)
  {
    if ops != [] { RunOpsIsFold(lib, faults, ops[..|ops| - 1]); }
  }

  lemma RunOpsThen(lib: Library, faults: nat -> bool, ops: seq<Op>, rest: seq<Op>)
    ensures RunOps(lib, faults, ops + rest).0 == Then(lib, faults, RunOps(lib, faults, ops).0, rest)
  {
    RunOpsIsFold(lib, faults, ops);
    RunOpsIsFold(lib, faults, ops + rest);
    ThenAppend(lib, faults, Machine(0, []), ops, rest);
  }

  lemma ThenOne(lib: Library, faults: nat -> bool, m: Machine, op: Op)
    ensures Then(lib, faults, m, [op]) == StepOp(lib, faults, m, op).0
  {
    assert [op][..0] == [] && Fold(Next(lib, faults), m, [op][..0]) == m;
    assert Then(lib, faults, m, [op]) == Next(lib, faults)(m, op);
  }

  lemma StepFills(lib: Library, faults: nat -> bool, m: Machine, op: Op)
    ensures |StepOp(lib, faults, m, op).0.table| == |m.table| + if op.New? || op.Copy? then 1 else 0
  {
  }

  lemma {:induction false} ThenFills(lib: Library, faults: nat -> bool, m: Machine, rest: seq<Op>)
    ensures |Then(lib, faults, m, rest).table| == |m.table| + Filled(rest)
  {
    if rest != [] {
      var n := |rest| - 1;
      ThenFills(lib, faults, m, rest[..n]);
      StepFills(lib, faults, Then(lib, faults, m, rest[..n]), rest[n]);
    }
  }

  lemma {:induction false} MadeFromFinalised(
    lib: Library, faults: nat -> bool, m: Machine, rest: seq<Op>, h: nat, g: nat)
    requires SpentOrFree(m.table, h) && MadeFrom(|m.table|, rest, h, g)
    ensures SpentOrFree(Then(lib, faults, m, rest).table, g)
    decreases |rest|
  {
    if rest != [] {
      var n := |rest| - 1;
      var before := Then(lib, faults, m, rest[..n]);
      ThenFills(lib, faults, m, rest[..n]);
      var source := Source(rest[n], |before.table|, g);
      MadeFromFinalised(lib, faults, m, rest[..n], h, source);
      StepKeepsFinalised(lib, faults, before, rest[n], source);
    }
  }

  /** Once a final has got as far as computing a digest, delivered or not, every later final on
      that handle, and on every copy made of it afterwards, fails. */
  lemma FinalConsumes(
    lib: Library, faults: nat -> bool, ops: seq<Op>, h: nat, first: Op, rest: seq<Op>, g: nat, op: Op)
    requires !lib.lateFinal
    requires Finishes(first, h) && StepOp(lib, faults, RunOps(lib, faults, ops).0, first).1.status != Failed
    requires MadeFrom(Filled(ops), rest, h, g) && Finishes(op, g)
    ensures StepOp(lib, faults, RunOps(lib, faults, ops + [first] + rest).0, op).1 == Reply(Failed, None)
  {
    var m := RunOps(lib, faults, ops).0;
    RunOpsThen(lib, faults, ops, [first]);
    RunOpsThen(lib, faults, ops + [first], rest);
    FilledIsTable(lib, faults, ops);
    ThenOne(lib, faults, m, first);
    MadeFromFinalised(lib, faults, StepOp(lib, faults, m, first).0, rest, h, g);
  }

  /** The first final of a handle works on everything absorbed along its copy ancestry: it
      delivers the digest if there is room, and consumes the context if there is not. */
  lemma FirstFinalDelivers(lib: Library, faults: nat -> bool, ops: seq<Op>, h: nat, op: Op)
    requires Finishes(op, h)
    requires var m := RunOps(lib, faults, ops).0;
             Slot(m.table, h).Some? && !Finalised(m.table, h) && !faults(m.calls)
    ensures var m, replies := RunOps(lib, faults, ops).0, RunOps(lib, faults, ops).1;
            var r := Outcome(lib, Ctx(m.table[h].value.md, Ancestry(ops, replies, h), false), op);
            var step := StepOp(lib, faults, m, op);
            && (Finalised(step.0.table, h) <==> r.Ok?)
            && step.1 == if r.Err? then Reply(Failed, None)
                         else if r.value == [] || (op.room.Some? && |r.value| <= op.room.value)
                         then Reply(Success, Some(r.value))
                         else Reply(BufferTooSmall, None)
  {
    AbsorbedIsAncestry(lib, faults, ops, h);
  }

  /** No operation touches variable g. */
  predicate LeavesAlone(ops: seq<Op>, g: nat) {
    ops == [] || (LeavesAlone(ops[..|ops| - 1], g) && !Touches(ops[|ops| - 1], g))
  }

  lemma {:induction false} UntouchedStays(
    lib: Library, faults: nat -> bool, m: Machine, rest: seq<Op>, g: nat, c: Ctx)
    requires Holds(m.table, g, c) && LeavesAlone(rest, g)
    ensures Holds(Then(lib, faults, m, rest).table, g, c)
    decreases |rest|
  {
    if rest != [] {
      var n := |rest| - 1;
      UntouchedStays(lib, faults, m, rest[..n], g, c);
      OthersUntouched(lib, faults, Then(lib, faults, m, rest[..n]), rest[n], g, c);
    }
  }

  lemma FinalOfUntouched(lib: Library, faults: nat -> bool, m: Machine, op: Op, c: Ctx)
    requires (op.Final? || op.FinalXof?) && Holds(m.table, op.h, c) && !c.finalised && !faults(m.calls)
    ensures StepOp(lib, faults, m, op).1 == Deliver(Outcome(lib, c, op), op.room)
  {
  }

  /** A copy keeps the digest within reach: whatever is done after it to other handles, finals
      of the original included, a final of the copy is that of the bytes the original held. */
  lemma CopySurvives(lib: Library, faults: nat -> bool, ops: seq<Op>, h: nat, rest: seq<Op>, op: Op)
    requires var m := RunOps(lib, faults, ops).0;
             && Slot(m.table, h).Some? && !Finalised(m.table, h) && !faults(m.calls)
             && Finishes(op, |m.table|) && LeavesAlone(rest, |m.table|)
    requires !faults(RunOps(lib, faults, ops + [Copy(h)] + rest).0.calls)
    ensures var m, replies := RunOps(lib, faults, ops).0, RunOps(lib, faults, ops).1;
            var r := Outcome(lib, Ctx(m.table[h].value.md, Ancestry(ops, replies, h), false), op);
            StepOp(lib, faults, RunOps(lib, faults, ops + [Copy(h)] + rest).0, op).1 == Deliver(r, op.room)
  {
    var m := RunOps(lib, faults, ops).0;
    AbsorbedIsAncestry(lib, faults, ops, h);
    var copied := StepOp(lib, faults, m, Copy(h)).0;
    assert copied.table == m.table + [m.table[h]];
    RunOpsThen(lib, faults, ops, [Copy(h)]);
    RunOpsThen(lib, faults, ops + [Copy(h)], rest);
    ThenOne(lib, faults, m, Copy(h));
    UntouchedStays(lib, faults, copied, rest, |m.table|, m.table[h].value);
    FinalOfUntouched(lib, faults, Then(lib, faults, copied, rest), op, m.table[h].value);
  }
}
