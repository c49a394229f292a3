/** Command lines of flags and of options with values, as both tools parse them: an option's
    value is joined to it by '=' or is the next argument.  A grammar says which names there are
    and what they assign; the rest is the same in both tools. */
module OptionGrammar {
  import opened Basics

  datatype Branch<+K, +F> = IsFlag(flag: F) | IsOption(key: K) | Unknown

  /** The chain of tests in its order, the spellings of the flags, the names of the options, and
      the assignments (an error when the value does not parse). */
  datatype Grammar<!K, !F, !O> = Grammar(
    chain: seq<Branch<K, F>>,
    spells: (F, string) -> bool,
    name: K -> string,
    setFlag: (O, F) -> O,
    setValue: (O, K, string) -> Result<O>)

  predicate StartsWith(s: string, prefix: string) {
    |s| >= |prefix| && s[..|prefix|] == prefix
  }

  predicate OptionMatches(arg: string, opt: string) {
    arg == opt || StartsWith(arg, opt + "=")
  }

  /** The test of a branch, on its own. */
  predicate Matches<K, F, O>(g: Grammar<K, F, O>, arg: string, b: Branch<K, F>) {
    match b
    case IsFlag(f) => g.spells(f, arg)
    case IsOption(k) => OptionMatches(arg, g.name(k))
    case Unknown => false
  }

  function FirstMatch<K, F, O>(g: Grammar<K, F, O>, chain: seq<Branch<K, F>>, arg: string): Branch<K, F> {
    if chain == [] then Unknown
    else if Matches(g, arg, chain[0]) then chain[0]
    else FirstMatch(g, chain[1..], arg)
  }

  /** The branch taken for an argument. */
  function Taken<K, F, O>(g: Grammar<K, F, O>, arg: string): Branch<K, F> {
    FirstMatch(g, g.chain, arg)
  }

  /** A branch is taken exactly when its own test passes, whatever its place in the chain. */
  ghost predicate Exact<K(!new), F(!new), O>(g: Grammar<K, F, O>) {
    forall arg: string, b: Branch<K, F> :: b != Unknown ==> (Matches(g, arg, b) <==> Taken(g, arg) == b)
  }

  // ----- The parser as a function -----

  function ParseFrom<K, F, O>(g: Grammar<K, F, O>, args: seq<string>, i: nat, o: O): Result<O>
    requires i <= |args|
    decreases |args| - i
  {
    if i == |args| then Ok(o)
    else
      match Taken(g, args[i])
      case Unknown => Err
      case IsFlag(f) => ParseFrom(g, args, i + 1, g.setFlag(o, f))
      case IsOption(k) =>
        var joined := StartsWith(args[i], g.name(k) + "=");
        if !joined && i + 1 == |args| then Err
        else
          var v := if joined then args[i][|g.name(k)| + 1..] else args[i + 1];
          var next := g.setValue(o, k, v);
          if next.Err? then Err
          else ParseFrom(g, args, if joined then i + 1 else i + 2, next.value)
  }

  // ----- The parser as it is written -----

  /** The value of an option, from the argument itself or from the next one, with the index of
      the argument last used; none when the code throws. */
  method RequireValue(i: nat, args: seq<string>, arg: string, opt: string)
    returns (value: Option<string>, last: nat)
    requires i < |args|
    ensures StartsWith(arg, opt + "=") ==> value == Some(arg[|opt| + 1..]) && last == i
    ensures arg == opt && i + 1 < |args| ==> value == Some(args[i + 1]) && last == i + 1
    ensures arg == opt && i + 1 == |args| ==> value == None
    ensures !OptionMatches(arg, opt) ==> value == None
  {
    var prefix := opt + "=";
    if StartsWith(arg, prefix) {
      return Some(arg[|prefix|..]), i;
    }
    if arg == opt {
      if i + 1 >= |args| { return None, i; }
      last := i + 1;
      return Some(args[last]), last;
    }
    return None, i;
  }

  /** The loop over the arguments, from index i on. */
  method ParseLoop<K(!new), F(!new), O>(g: Grammar<K, F, O>, args: seq<string>, start: nat, o: O) returns (r: Result<O>)
    requires start <= |args| && Exact(g)
    ensures r == ParseFrom(g, args, start, o)
  {
    var i, opt := start, o;
    while i < |args|
      invariant start <= i <= |args|
      invariant ParseFrom(g, args, start, o) == ParseFrom(g, args, i, opt)
    {
      var arg := args[i];
      var branch := Taken(g, arg);
      if branch.IsFlag? {
        opt := g.setFlag(opt, branch.flag);
      } else if branch.IsOption? {
        assert Matches(g, arg, branch);
        var value, last := RequireValue(i, args, arg, g.name(branch.key));
        if value.None? { return Err; }
        var next := g.setValue(opt, branch.key, value.value);
        if next.Err? { return Err; }
        opt, i := next.value, last;
      } else {
        return Err;
      }
      i := i + 1;
    }
    return Ok(opt);
  }

  // ----- Printing options -----

  /** One option as a user may write it: a flag in any of its spellings, or a key with an
      arbitrary value, joined by '=' or as two arguments. */
  datatype Item<+K, +F> = Word(flag: F, word: string) | Joined(key: K, value: string) | Spaced(key: K, value: string)

  predicate ValidItem<K, F, O>(g: Grammar<K, F, O>, t: Item<K, F>) {
    t.Word? ==> g.spells(t.flag, t.word)
  }

  predicate ValidItems<K, F, O>(g: Grammar<K, F, O>, items: seq<Item<K, F>>) {
    forall i :: 0 <= i < |items| ==> ValidItem(g, items[i])
  }

  function Words<K, F, O>(g: Grammar<K, F, O>, t: Item<K, F>): (words: seq<string>)
    ensures 1 <= |words| <= 2
  {
    match t
    case Word(_, word) => [word]
    case Joined(k, v) => [g.name(k) + "=" + v]
    case Spaced(k, v) => [g.name(k), v]
  }

  function Render<K, F, O>(g: Grammar<K, F, O>, items: seq<Item<K, F>>): seq<string> {
    if items == [] then [] else Words(g, items[0]) + Render(g, items[1..])
  }

  function Apply<K, F, O>(g: Grammar<K, F, O>, t: Item<K, F>, o: O): Result<O> {
    if t.Word? then Ok(g.setFlag(o, t.flag)) else g.setValue(o, t.key, t.value)
  }

  /** The assignments from left to right. */
  function ApplyAll<K, F, O>(g: Grammar<K, F, O>, items: seq<Item<K, F>>, o: O): Result<O> {
    if items == [] then Ok(o)
    else
      var next := Apply(g, items[0], o);
      if next.Err? then Err else ApplyAll(g, items[1..], next.value)
  }

  /** What the parser does where an item is written. */
  lemma ReadsItem<K(!new), F(!new), O>(g: Grammar<K, F, O>, args: seq<string>, i: nat, t: Item<K, F>, o: O)
    requires Exact(g) && ValidItem(g, t)
    requires i + |Words(g, t)| <= |args| && args[i..i + |Words(g, t)|] == Words(g, t)
    ensures ParseFrom(g, args, i, o) ==
              var next := Apply(g, t, o);
              if next.Err? then Err else ParseFrom(g, args, i + |Words(g, t)|, next.value)
  {
    var arg := args[i];
    assert arg == args[i..i + |Words(g, t)|][0] == Words(g, t)[0];
    match t
    case Word(f, word) =>
      assert Matches(g, arg, IsFlag(f));
    case Joined(k, v) =>
      assert arg[..|g.name(k)| + 1] == g.name(k) + "=" && arg[|g.name(k)| + 1..] == v;
      assert Matches(g, arg, IsOption(k));
    case Spaced(k, v) =>
      assert args[i + 1] == args[i..i + 2][1] == v;
      assert Matches(g, arg, IsOption(k));
      assert !StartsWith(arg, g.name(k) + "=");
  }

  lemma RenderHead<K, F, O>(g: Grammar<K, F, O>, args: seq<string>, i: nat, items: seq<Item<K, F>>)
    requires ValidItems(g, items) && items != [] && i <= |args| && args[i..] == Render(g, items)
    ensures ValidItem(g, items[0]) && ValidItems(g, items[1..]) && i + |Words(g, items[0])| <= |args|
    ensures args[i..i + |Words(g, items[0])|] == Words(g, items[0])
    ensures args[i + |Words(g, items[0])|..] == Render(g, items[1..])
  {
    var n := |Words(g, items[0])|;
    assert args[i..][..n] == Words(g, items[0]) && args[i..][n..] == Render(g, items[1..]);
    assert args[i..i + n] == args[i..][..n] && args[i + n..] == args[i..][n..];
  }

  /** Whatever the options, their values and the way each is written: the parser's result is the
      assignments from left to right. */
  lemma {:induction false} ParseInvertsRender<K(!new), F(!new), O>(
    g: Grammar<K, F, O>, args: seq<string>, i: nat, items: seq<Item<K, F>>, o: O)
    requires Exact(g) && ValidItems(g, items)
    requires i <= |args| && args[i..] == Render(g, items)
    ensures ParseFrom(g, args, i, o) == ApplyAll(g, items, o)
    decreases |items|
  {
    if items != [] {
      var t := items[0];
      RenderHead(g, args, i, items);
      ReadsItem(g, args, i, t, o);
      if Apply(g, t, o).Ok? {
        ParseInvertsRender(g, args, i + |Words(g, t)|, items[1..], Apply(g, t, o).value);
      }
    }
  }

  // ----- Nothing else is accepted -----

  lemma ItemAt<K(!new), F(!new), O>(g: Grammar<K, F, O>, args: seq<string>, i: nat, o: O) returns (t: Item<K, F>)
    requires Exact(g) && i < |args| && ParseFrom(g, args, i, o).Ok?
    ensures ValidItem(g, t) && i + |Words(g, t)| <= |args| && args[i..i + |Words(g, t)|] == Words(g, t)
  {
    var arg := args[i];
    assert Matches(g, arg, Taken(g, arg));
    match Taken(g, arg)
    case IsFlag(f) =>
      t := Word(f, arg);
    case IsOption(k) =>
      if StartsWith(arg, g.name(k) + "=") {
        t := Joined(k, arg[|g.name(k)| + 1..]);
        assert arg == g.name(k) + "=" + arg[|g.name(k)| + 1..];
      } else {
        t := Spaced(k, args[i + 1]);
      }
  }

  lemma RenderMore<K, F, O>(g: Grammar<K, F, O>, t: Item<K, F>, rest: seq<Item<K, F>>)
    requires ValidItem(g, t) && ValidItems(g, rest)
    ensures ValidItems(g, [t] + rest) && Render(g, [t] + rest) == Words(g, t) + Render(g, rest)
  {
    assert ([t] + rest)[1..] == rest;
  }

  lemma {:induction false} AcceptedIsRendered<K(!new), F(!new), O>(
    g: Grammar<K, F, O>, args: seq<string>, i: nat, o: O)
    returns (items: seq<Item<K, F>>)
    requires Exact(g) && i <= |args| && ParseFrom(g, args, i, o).Ok?
    ensures ValidItems(g, items) && args[i..] == Render(g, items)
    decreases |args| - i
  {
    if i == |args| {
      items := [];
    } else {
      var t := ItemAt(g, args, i, o);
      var j := i + |Words(g, t)|;
      ReadsItem(g, args, i, t, o);
      var rest := AcceptedIsRendered(g, args, j, Apply(g, t, o).value);
      items := [t] + rest;
      RenderMore(g, t, rest);
      assert args[i..] == args[i..j] + args[j..];
    }
  }

  /** The accepted argument lists are exactly the printed lists of options whose values parse. */
  lemma AcceptsExactlyRendered<K(!new), F(!new), O>(g: Grammar<K, F, O>, args: seq<string>, i: nat, o: O)
    requires Exact(g) && i <= |args|
    ensures ParseFrom(g, args, i, o).Ok?
       <==> exists items :: ValidItems(g, items) && args[i..] == Render(g, items) && ApplyAll(g, items, o).Ok?
  {
    if ParseFrom(g, args, i, o).Ok? {
      var items := AcceptedIsRendered(g, args, i, o);
      ParseInvertsRender(g, args, i, items, o);
    }
    if exists items :: ValidItems(g, items) && args[i..] == Render(g, items) && ApplyAll(g, items, o).Ok? {
      var items :| ValidItems(g, items) && args[i..] == Render(g, items) && ApplyAll(g, items, o).Ok?;
      ParseInvertsRender(g, args, i, items, o);
    }
  }

  // ----- Order of assignments -----

  lemma {:induction false} ApplyAllAppend<K, F, O>(
    g: Grammar<K, F, O>, items: seq<Item<K, F>>, more: seq<Item<K, F>>, o: O)
    ensures ApplyAll(g, items + more, o) ==
              var mid := ApplyAll(g, items, o);
              if mid.Err? then Err else ApplyAll(g, more, mid.value)
  {
    if items == [] {
      assert items + more == more;
    } else {
      assert (items + more)[1..] == items[1..] + more;
      var next := Apply(g, items[0], o);
      if next.Ok? { ApplyAllAppend(g, items[1..], more, next.value); }
    }
  }

  lemma ApplyOne<K, F, O>(g: Grammar<K, F, O>, t: Item<K, F>, o: O)
    ensures ApplyAll(g, [t], o) == Apply(g, t, o)
  {
    assert [t][1..] == [];
  }

  lemma RenderOne<K, F, O>(g: Grammar<K, F, O>, t: Item<K, F>)
    ensures Render(g, [t]) == Words(g, t)
  {
    assert [t][1..] == [] && Words(g, t) + [] == Words(g, t);
  }

  /** One assignment, then another. */
  function ApplyTwo<K, F, O>(g: Grammar<K, F, O>, t: Item<K, F>, u: Item<K, F>, o: O): Result<O> {
    var mid := Apply(g, t, o);
    if mid.Err? then Err else Apply(g, u, mid.value)
  }

  lemma ApplyPair<K, F, O>(g: Grammar<K, F, O>, t: Item<K, F>, u: Item<K, F>, o: O)
    ensures ApplyAll(g, [t, u], o) == ApplyTwo(g, t, u, o)
  {
    assert [t, u][1..] == [u];
    var mid := Apply(g, t, o);
    if mid.Ok? { ApplyOne(g, u, mid.value); }
  }

  /** Swapping neighbours whose assignments commute changes nothing. */
  lemma SwapNeighbours<K, F, O(!new)>(
    g: Grammar<K, F, O>, front: seq<Item<K, F>>, t: Item<K, F>, u: Item<K, F>, back: seq<Item<K, F>>, o: O)
    requires forall mid: O :: ApplyTwo(g, t, u, mid) == ApplyTwo(g, u, t, mid)
    ensures ApplyAll(g, front + [t, u] + back, o) == ApplyAll(g, front + [u, t] + back, o)
  {
    ApplyAllAppend(g, front + [t, u], back, o);
    ApplyAllAppend(g, front + [u, t], back, o);
    ApplyAllAppend(g, front, [t, u], o);
    ApplyAllAppend(g, front, [u, t], o);
    var mid := ApplyAll(g, front, o);
    if mid.Ok? {
      ApplyPair(g, t, u, mid.value);
      ApplyPair(g, u, t, mid.value);
    }
  }

  lemma ValidSwap<K, F, O>(
    g: Grammar<K, F, O>, front: seq<Item<K, F>>, t: Item<K, F>, u: Item<K, F>, back: seq<Item<K, F>>)
    requires ValidItems(g, front + [t, u] + back)
    ensures ValidItems(g, front + [u, t] + back)
  {
    var items, n := front + [t, u] + back, |front|;
    assert items[n] == t && items[n + 1] == u;
    forall i | 0 <= i < |items| ensures ValidItem(g, (front + [u, t] + back)[i]) {
      assert ValidItem(g, items[if i == n then n + 1 else if i == n + 1 then n else i]);
    }
  }

  // ----- The last assignment wins -----

  /** What the last item that writes a member writes to it, or the default. */
  function LastWrite<K, F, V>(items: seq<Item<K, F>>, writes: Item<K, F> -> Option<V>, default: V): V {
    if items == [] then default
    else
      var n := |items| - 1;
      if writes(items[n]).Some? then writes(items[n]).value else LastWrite(items[..n], writes, default)
  }

  ghost predicate SomeWrites<K, F, V>(items: seq<Item<K, F>>, writes: Item<K, F> -> Option<V>) {
    exists i :: 0 <= i < |items| && writes(items[i]).Some?
  }

  /** `get` reads a member of the options record, and `writes` says what an item puts there. */
  ghost predicate IsMember<K(!new), F(!new), O(!new), V>(
    g: Grammar<K, F, O>, get: O -> V, writes: Item<K, F> -> Option<V>)
  {
    forall t: Item<K, F>, o: O :: Apply(g, t, o).Ok? ==>
      get(Apply(g, t, o).value) == if writes(t).Some? then writes(t).value else get(o)
  }

  lemma {:induction false} LastWriteWins<K(!new), F(!new), O(!new), V>(
    g: Grammar<K, F, O>, items: seq<Item<K, F>>, o: O, get: O -> V, writes: Item<K, F> -> Option<V>)
    requires IsMember(g, get, writes) && ApplyAll(g, items, o).Ok?
    ensures get(ApplyAll(g, items, o).value) == LastWrite(items, writes, get(o))
  {
    if items != [] {
      var n := |items| - 1;
      ApplyAllLast(g, items, o);
      LastWriteWins(g, items[..n], o, get, writes);
    }
  }

  lemma ApplyAllLast<K, F, O>(g: Grammar<K, F, O>, items: seq<Item<K, F>>, o: O)
    requires items != []
    ensures var n := |items| - 1;
            var mid := ApplyAll(g, items[..n], o);
            ApplyAll(g, items, o) == if mid.Err? then Err else Apply(g, items[n], mid.value)
  {
    var n := |items| - 1;
    assert items == items[..n] + [items[n]];
    ApplyAllAppend(g, items[..n], [items[n]], o);
    var mid := ApplyAll(g, items[..n], o);
    if mid.Ok? { ApplyOne(g, items[n], mid.value); }
  }

  /** A member that is only ever set to true is true when some item sets it. */
  lemma {:induction false} LastWriteOfSwitch<K, F>(
    items: seq<Item<K, F>>, writes: Item<K, F> -> Option<bool>, default: bool)
    requires forall i :: 0 <= i < |items| ==> writes(items[i]) != Some(false)
    ensures LastWrite(items, writes, default) <==> default || SomeWrites(items, writes)
  {
    if items != [] {
      var n := |items| - 1;
      LastWriteOfSwitch(items[..n], writes, default);
      assert SomeWrites(items, writes) <==> SomeWrites(items[..n], writes) || writes(items[n]).Some?;
    }
  }

  /** The assignments go through exactly when each value parses. */
  lemma {:induction false} AllParse<K(!new), F(!new), O(!new)>(
    g: Grammar<K, F, O>, items: seq<Item<K, F>>, o: O, parses: Item<K, F> -> bool)
    requires forall t: Item<K, F>, mid: O :: Apply(g, t, mid).Ok? <==> parses(t)
    ensures ApplyAll(g, items, o).Ok? <==> forall i :: 0 <= i < |items| ==> parses(items[i])
  {
    if items != [] {
      var n := |items| - 1;
      ApplyAllLast(g, items, o);
      AllParse(g, items[..n], o, parses);
      assert (forall i :: 0 <= i < |items| ==> parses(items[i]))
        <==> (forall i :: 0 <= i < n ==> parses(items[..n][i])) && parses(items[n]);
    }
  }

  // ----- Telling names apart -----

  /** The part of an argument before its first '='. */
  function Head(arg: string): string {
    if arg == "" || arg[0] == '=' then "" else [arg[0]] + Head(arg[1..])
  }

  predicate HasNoEquals(s: string) {
    forall i :: 0 <= i < |s| ==> s[i] != '='
  }

  lemma {:induction false} HeadOfJoined(opt: string, v: string)
    requires HasNoEquals(opt)
    ensures Head(opt) == opt && Head(opt + "=" + v) == opt
  {
    var s := opt + "=" + v;
    if opt == "" {
      assert s[0] == '=';
    } else {
      assert s[1..] == opt[1..] + "=" + v;
      HeadOfJoined(opt[1..], v);
      assert opt == [opt[0]] + opt[1..];
    }
  }

  lemma MatchIsHead(arg: string, opt: string)
    requires HasNoEquals(opt) && OptionMatches(arg, opt)
    ensures Head(arg) == opt
  {
    if arg == opt {
      HeadOfJoined(opt, "");
    } else {
      HeadOfJoined(opt, arg[|opt| + 1..]);
      assert arg == opt + "=" + arg[|opt| + 1..];
    }
  }

  /** Names without '=' that a decoder tells apart, each with its test in the chain. */
  ghost predicate Decodes<K(!new), F(!new), O>(g: Grammar<K, F, O>, decode: string -> Branch<K, F>) {
    && (forall f: F, word: string :: g.spells(f, word) ==> HasNoEquals(word) && decode(word) == IsFlag(f))
    && (forall k: K :: HasNoEquals(g.name(k)) && decode(g.name(k)) == IsOption(k))
    && (forall f: F :: IsFlag(f) in g.chain)
    && (forall k: K :: IsOption(k) in g.chain)
  }

  lemma MatchIsDecoded<K(!new), F(!new), O>(
    g: Grammar<K, F, O>, decode: string -> Branch<K, F>, arg: string, b: Branch<K, F>)
    requires Decodes(g, decode) && Matches(g, arg, b)
    ensures b == decode(Head(arg))
  {
    match b
    case IsFlag(f) => HeadOfJoined(arg, "");
    case IsOption(k) => MatchIsHead(arg, g.name(k));
  }

  lemma {:induction false} FirstMatchPasses<K, F, O>(g: Grammar<K, F, O>, chain: seq<Branch<K, F>>, arg: string)
    ensures FirstMatch(g, chain, arg) == Unknown || Matches(g, arg, FirstMatch(g, chain, arg))
    ensures forall b :: b in chain && Matches(g, arg, b) ==> FirstMatch(g, chain, arg) != Unknown
  {
    if chain != [] { FirstMatchPasses(g, chain[1..], arg); }
  }

  /** When the names can be told apart, no argument passes the tests of two branches, and the
      chain takes the one whose test passes, whatever its order. */
  lemma DecodedIsExact<K(!new), F(!new), O>(g: Grammar<K, F, O>, decode: string -> Branch<K, F>)
    requires Decodes(g, decode)
    ensures Exact(g)
    ensures forall arg, b, b' :: Matches(g, arg, b) && Matches(g, arg, b') ==> b == b'
  {
    forall arg, b | Matches(g, arg, b) ensures b == decode(Head(arg)) && b in g.chain {
      MatchIsDecoded(g, decode, arg, b);
    }
    forall arg: string, b: Branch<K, F> | b != Unknown ensures Matches(g, arg, b) <==> Taken(g, arg) == b {
      FirstMatchPasses(g, g.chain, arg);
    }
  }
}
