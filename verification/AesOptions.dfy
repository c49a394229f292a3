/** The command line of the AES tool. */
module AesOptions {
  import opened Basics
  import opened OptionGrammar

  datatype Key = Cipher | KeyHex | IvHex | NonceHex | AadHex | AadText
    | TagLen | TagHex | TagIn | TagOut | In | Out | HexInput | TextInput

  datatype Flag = Encrypt | Decrypt | Help | List | Available | EmptyInput | OutHex | Padding | NoPad

  function KeyName(k: Key): string {
    match k
    case Cipher => "--cipher"
    case KeyHex => "--key"
    case IvHex => "--iv"
    case NonceHex => "--nonce"
    case AadHex => "--aad-hex"
    case AadText => "--aad-text"
    case TagLen => "--tag-len"
    case TagHex => "--tag"
    case TagIn => "--tag-in"
    case TagOut => "--tag-out"
    case In => "--in"
    case Out => "--out"
    case HexInput => "--hex-input"
    case TextInput => "--text"
  }

  predicate IsSpelling(f: Flag, word: string) {
    match f
    case Encrypt => word == "enc" || word == "encrypt" || word == "-e" || word == "--encrypt"
    case Decrypt => word == "dec" || word == "decrypt" || word == "-d" || word == "--decrypt"
    case Help => word == "--help" || word == "-h" || word == "/?"
    case List => word == "--list"
    case Available => word == "--available"
    case EmptyInput => word == "--empty-input"
    case OutHex => word == "--out-hex"
    case Padding => word == "--padding"
    case NoPad => word == "--nopad"
  }

  /** The tests of the loop, in their order. */
  const CHAIN: seq<Branch<Key, Flag>> := [
    IsFlag(Encrypt), IsFlag(Decrypt), IsFlag(Help), IsFlag(List), IsFlag(Available),
    IsOption(Cipher), IsOption(KeyHex), IsOption(IvHex), IsOption(NonceHex), IsOption(AadHex),
    IsOption(AadText), IsOption(TagLen), IsOption(TagHex), IsOption(TagIn), IsOption(TagOut),
    IsOption(In), IsOption(Out), IsOption(HexInput), IsOption(TextInput),
    IsFlag(EmptyInput), IsFlag(OutHex), IsFlag(Padding), IsFlag(NoPad)]

  // ----- The assignments -----

  /** The options record: the set of boolean members that are true (all start false), the two
      padding members, the tag length, and one text member for every other key, empty until it
      is assigned. */
  datatype CLIOptions = CLIOptions(
    switches: set<Flag>, padding: bool, paddingSet: bool, tagLen: nat, texts: map<Key, string>)

  function TextOf(o: CLIOptions, k: Key): string {
    if k in o.texts then o.texts[k] else ""
  }

  const DEFAULTS: CLIOptions := CLIOptions({}, false, false, 16, map[])

  /** What `parse_size` makes of a text; none when it throws. */
  type SizeParser = string -> Option<nat>

  function SetFlag(o: CLIOptions, f: Flag): CLIOptions {
    match f
    case Padding => o.(padding := true, paddingSet := true)
    case NoPad => o.(padding := false, paddingSet := true)
    case _ => o.(switches := o.switches + {f})
  }

  function SetValue(o: CLIOptions, k: Key, v: string, size: SizeParser): Result<CLIOptions> {
    if k == TagLen then
      var n := size(v);
      if n.None? then Err else Ok(o.(tagLen := n.value))
    else Ok(o.(texts := o.texts[k := v]))
  }

  function Syntax(size: SizeParser): Grammar<Key, Flag, CLIOptions> {
    Grammar(CHAIN, IsSpelling, KeyName, SetFlag, (o: CLIOptions, k: Key, v: string) => SetValue(o, k, v, size))
  }

  // ----- The parser -----

  const HELP: CLIOptions := SetFlag(DEFAULTS, Help)

  function Parse(args: seq<string>, size: SizeParser): Result<CLIOptions> {
    if |args| <= 1 then Ok(HELP) else ParseFrom(Syntax(size), args, 1, DEFAULTS)
  }

  method ParseArgs(args: seq<string>, size: SizeParser) returns (r: Result<CLIOptions>)
    ensures r == Parse(args, size)
  {
    var opt := DEFAULTS;
    if |args| <= 1 {
      opt := SetFlag(opt, Help);
      return Ok(opt);
    }
    GrammarIsExact(size);
    r := ParseLoop(Syntax(size), args, 1, opt);
  }

  // ----- The names and the chain of tests -----

  /** Which name this is, by its length and then by a letter or two. */
  function DecodeName(w: string): Branch<Key, Flag> {
    match |w|
    case 2 => if w[1] == 'e' then IsFlag(Encrypt) else if w[1] == 'd' then IsFlag(Decrypt) else IsFlag(Help)
    case 3 => if w[0] == 'e' then IsFlag(Encrypt) else IsFlag(Decrypt)
    case 4 => if w[3] == 'n' then IsOption(In) else IsOption(IvHex)
    case 5 => if w[2] == 'k' then IsOption(KeyHex) else if w[2] == 'o' then IsOption(Out) else IsOption(TagHex)
    case 6 => if w[2] == 'h' then IsFlag(Help) else if w[2] == 'l' then IsFlag(List) else IsOption(TextInput)
    case 7 =>
      if w[0] == 'e' then IsFlag(Encrypt)
      else if w[0] == 'd' then IsFlag(Decrypt)
      else if w[4] == 'n' then IsOption(NonceHex)
      else IsFlag(NoPad)
    case 8 => if w[2] == 'c' then IsOption(Cipher) else IsOption(TagIn)
    case 9 =>
      if w[2] == 'e' then IsFlag(Encrypt)
      else if w[2] == 'd' then IsFlag(Decrypt)
      else if w[2] == 'a' then IsOption(AadHex)
      else if w[2] == 'o' then IsFlag(OutHex)
      else if w[2] == 'p' then IsFlag(Padding)
      else if w[6] == 'l' then IsOption(TagLen)
      else IsOption(TagOut)
    case 10 => IsOption(AadText)
    case 11 => if w[2] == 'a' then IsFlag(Available) else IsOption(HexInput)
    case 13 => IsFlag(EmptyInput)
    case _ => Unknown
  }

  lemma SpellingDecodes(f: Flag, word: string)
    requires IsSpelling(f, word)
    ensures HasNoEquals(word) && DecodeName(word) == IsFlag(f)
  {
  }

  lemma KeyDecodes(k: Key)
    ensures HasNoEquals(KeyName(k)) && DecodeName(KeyName(k)) == IsOption(k)
  {
  }

  lemma FlagInChain(f: Flag)
    ensures IsFlag(f) in CHAIN
  {
  }

  lemma KeyInChain(k: Key)
    ensures IsOption(k) in CHAIN
  {
  }

  /** No argument passes the tests of two branches, and the chain takes a branch exactly when
      that branch's own test passes, whatever its place in the chain. */
  lemma GrammarIsExact(size: SizeParser)
    ensures Exact(Syntax(size))
    ensures forall arg, b, b' :: Matches(Syntax(size), arg, b) && Matches(Syntax(size), arg, b') ==> b == b'
  {
    var g := Syntax(size);
    forall f: Flag, word: string | g.spells(f, word) ensures HasNoEquals(word) && DecodeName(word) == IsFlag(f) {
      SpellingDecodes(f, word);
    }
    forall k: Key ensures HasNoEquals(g.name(k)) && DecodeName(g.name(k)) == IsOption(k) { KeyDecodes(k); }
    forall f: Flag ensures IsFlag(f) in g.chain { FlagInChain(f); }
    forall k: Key ensures IsOption(k) in g.chain { KeyInChain(k); }
    DecodedIsExact(g, DecodeName);
  }

  // ----- Main results -----

  /** Parsing a printed list of options gives the assignments from left to right, for arbitrary
      values, also such as look like options.  No option at all is a request for help. */
  lemma ParseInverts(program: string, items: seq<Item<Key, Flag>>, size: SizeParser)
    requires ValidItems(Syntax(size), items)
    ensures Parse([program] + Render(Syntax(size), items), size)
         == if items == [] then Ok(HELP) else ApplyAll(Syntax(size), items, DEFAULTS)
  {
    var g := Syntax(size);
    var args := [program] + Render(g, items);
    GrammarIsExact(size);
    assert args[1..] == Render(g, items);
    if items != [] {
      assert |args| > 1;
      ParseInvertsRender(g, args, 1, items, DEFAULTS);
    }
  }

  /** The accepted command lines are exactly the printed lists of options whose sizes parse. */
  lemma AcceptsExactly(args: seq<string>, size: SizeParser)
    requires |args| > 1
    ensures Parse(args, size).Ok?
       <==> exists items :: ValidItems(Syntax(size), items) && args[1..] == Render(Syntax(size), items)
                            && ApplyAll(Syntax(size), items, DEFAULTS).Ok?
  {
    GrammarIsExact(size);
    AcceptsExactlyRendered(Syntax(size), args, 1, DEFAULTS);
  }

  // ----- The options by name -----

  /** One option with a value, and one flag, on an otherwise empty command line. */
  lemma OneOption(program: string, k: Key, v: string, size: SizeParser)
    ensures Parse([program, KeyName(k), v], size) == SetValue(DEFAULTS, k, v, size)
  {
    var g, items := Syntax(size), [Spaced(k, v)];
    ParseInverts(program, items, size);
    ApplyOne(g, items[0], DEFAULTS);
    RenderOne(g, items[0]);
    assert [program] + Words(g, items[0]) == [program, KeyName(k), v];
  }

  lemma OneFlag(program: string, f: Flag, word: string, size: SizeParser)
    requires IsSpelling(f, word)
    ensures Parse([program, word], size) == Ok(SetFlag(DEFAULTS, f))
  {
    var g, items := Syntax(size), [Word(f, word)];
    assert ValidItem(g, items[0]);
    ParseInverts(program, items, size);
    ApplyOne(g, items[0], DEFAULTS);
    RenderOne(g, items[0]);
    assert [program] + Words(g, items[0]) == [program, word];
  }

  /** Which name sets which member. */
  lemma OptionNames(program: string, name: string, k: Key, v: string, size: SizeParser)
    requires match k
             case Cipher => name == "--cipher"
             case KeyHex => name == "--key"
             case IvHex => name == "--iv"
             case NonceHex => name == "--nonce"
             case AadHex => name == "--aad-hex"
             case AadText => name == "--aad-text"
             case TagLen => name == "--tag-len"
             case TagHex => name == "--tag"
             case TagIn => name == "--tag-in"
             case TagOut => name == "--tag-out"
             case In => name == "--in"
             case Out => name == "--out"
             case HexInput => name == "--hex-input"
             case TextInput => name == "--text"
    ensures k != TagLen ==>
              Parse([program, name, v], size) == Ok(CLIOptions({}, false, false, 16, map[k := v]))
    ensures k == TagLen ==>
              Parse([program, name, v], size) ==
              if size(v).None? then Err else Ok(CLIOptions({}, false, false, size(v).value, map[]))
  {
    assert name == KeyName(k);
    OneOption(program, k, v, size);
  }

  /** Which word sets which switch. */
  lemma FlagNames(program: string, word: string, f: Flag, size: SizeParser)
    requires match f
             case Encrypt => word == "enc" || word == "encrypt" || word == "-e" || word == "--encrypt"
             case Decrypt => word == "dec" || word == "decrypt" || word == "-d" || word == "--decrypt"
             case Help => word == "--help" || word == "-h" || word == "/?"
             case List => word == "--list"
             case Available => word == "--available"
             case EmptyInput => word == "--empty-input"
             case OutHex => word == "--out-hex"
             case Padding => word == "--padding"
             case NoPad => word == "--nopad"
    ensures Parse([program, word], size) ==
              Ok(if f == Padding then CLIOptions({}, true, true, 16, map[])
                 else if f == NoPad then CLIOptions({}, false, true, 16, map[])
                 else CLIOptions({f}, false, false, 16, map[]))
  {
    OneFlag(program, f, word, size);
    assert DEFAULTS.switches + {f} == {f};
  }

  // ----- What each item writes -----

  function TextWrites(k: Key): Item<Key, Flag> -> Option<string> {
    (t: Item<Key, Flag>) => if !t.Word? && t.key == k then Some(t.value) else None
  }

  function SizeWrites(size: SizeParser): Item<Key, Flag> -> Option<nat> {
    (t: Item<Key, Flag>) => if !t.Word? && t.key == TagLen then size(t.value) else None
  }

  function PaddingWrites(t: Item<Key, Flag>): Option<bool> {
    if t.Word? && t.flag == Padding then Some(true)
    else if t.Word? && t.flag == NoPad then Some(false)
    else None
  }

  function PaddingSetWrites(t: Item<Key, Flag>): Option<bool> {
    if PaddingWrites(t).Some? then Some(true) else None
  }

  predicate IsSwitch(f: Flag) {
    f != Padding && f != NoPad
  }

  function SwitchWrites(f: Flag): Item<Key, Flag> -> Option<bool> {
    (t: Item<Key, Flag>) => if t.Word? && t.flag == f && IsSwitch(f) then Some(true) else None
  }

  predicate SizeParses(t: Item<Key, Flag>, size: SizeParser) {
    !t.Word? && t.key == TagLen ==> size(t.value).Some?
  }

  /** The whole options record, member by member: a text or the tag length is the last one given
      for its key, or the default; padding is what the last `--padding` or `--nopad` says, and
      counts as set when one was given; a switch is set when one of its spellings was given. */
  ghost predicate AssignedBy(r: CLIOptions, items: seq<Item<Key, Flag>>, size: SizeParser) {
    && (forall k: Key :: k != TagLen ==> TextOf(r, k) == LastWrite(items, TextWrites(k), ""))
    && r.tagLen == LastWrite(items, SizeWrites(size), 16)
    && r.padding == LastWrite(items, PaddingWrites, false)
    && (r.paddingSet <==> SomeWrites(items, PaddingWrites))
    && (forall f: Flag :: f in r.switches <==> SomeWrites(items, SwitchWrites(f)))
  }

  lemma FlagKeepsText(o: CLIOptions, f: Flag, k: Key)
    ensures TextOf(SetFlag(o, f), k) == TextOf(o, k)
  {
  }

  lemma ValueSetsText(o: CLIOptions, j: Key, v: string, size: SizeParser, k: Key)
    requires k != TagLen && SetValue(o, j, v, size).Ok?
    ensures TextOf(SetValue(o, j, v, size).value, k) == if j == k then v else TextOf(o, k)
  {
  }

  lemma ApplyText(t: Item<Key, Flag>, o: CLIOptions, size: SizeParser, k: Key)
    requires k != TagLen && Apply(Syntax(size), t, o).Ok?
    ensures TextOf(Apply(Syntax(size), t, o).value, k)
         == if TextWrites(k)(t).Some? then TextWrites(k)(t).value else TextOf(o, k)
  {
    if t.Word? { FlagKeepsText(o, t.flag, k); } else { ValueSetsText(o, t.key, t.value, size, k); }
  }

  lemma TextIsLast(items: seq<Item<Key, Flag>>, size: SizeParser, k: Key)
    requires k != TagLen && ApplyAll(Syntax(size), items, DEFAULTS).Ok?
    ensures TextOf(ApplyAll(Syntax(size), items, DEFAULTS).value, k) == LastWrite(items, TextWrites(k), "")
  {
    var g, get := Syntax(size), (o: CLIOptions) => TextOf(o, k);
    forall t: Item<Key, Flag>, o: CLIOptions | Apply(g, t, o).Ok?
      ensures get(Apply(g, t, o).value) == if TextWrites(k)(t).Some? then TextWrites(k)(t).value else get(o)
    {
      ApplyText(t, o, size, k);
    }
    LastWriteWins(g, items, DEFAULTS, get, TextWrites(k));
  }

  lemma SizeIsLast(items: seq<Item<Key, Flag>>, size: SizeParser)
    requires ApplyAll(Syntax(size), items, DEFAULTS).Ok?
    ensures ApplyAll(Syntax(size), items, DEFAULTS).value.tagLen == LastWrite(items, SizeWrites(size), 16)
  {
    LastWriteWins(Syntax(size), items, DEFAULTS, (o: CLIOptions) => o.tagLen, SizeWrites(size));
  }

  lemma PaddingIsLast(items: seq<Item<Key, Flag>>, size: SizeParser)
    requires ApplyAll(Syntax(size), items, DEFAULTS).Ok?
    ensures ApplyAll(Syntax(size), items, DEFAULTS).value.padding == LastWrite(items, PaddingWrites, false)
  {
    LastWriteWins(Syntax(size), items, DEFAULTS, (o: CLIOptions) => o.padding, PaddingWrites);
  }

  lemma PaddingSetIfGiven(items: seq<Item<Key, Flag>>, size: SizeParser)
    requires ApplyAll(Syntax(size), items, DEFAULTS).Ok?
    ensures ApplyAll(Syntax(size), items, DEFAULTS).value.paddingSet <==> SomeWrites(items, PaddingWrites)
  {
    LastWriteWins(Syntax(size), items, DEFAULTS, (o: CLIOptions) => o.paddingSet, PaddingSetWrites);
    LastWriteOfSwitch(items, PaddingSetWrites, false);
    assert SomeWrites(items, PaddingSetWrites) <==> SomeWrites(items, PaddingWrites) by {
      assert forall t :: PaddingSetWrites(t).Some? == PaddingWrites(t).Some?;
    }
  }

  lemma ApplySwitch(t: Item<Key, Flag>, o: CLIOptions, size: SizeParser, f: Flag)
    requires Apply(Syntax(size), t, o).Ok?
    ensures f in Apply(Syntax(size), t, o).value.switches <==> SwitchWrites(f)(t).Some? || f in o.switches
  {
    if !t.Word? { assert SetValue(o, t.key, t.value, size).value.switches == o.switches; }
  }

  lemma SwitchIfGiven(items: seq<Item<Key, Flag>>, size: SizeParser, f: Flag)
    requires ApplyAll(Syntax(size), items, DEFAULTS).Ok?
    ensures f in ApplyAll(Syntax(size), items, DEFAULTS).value.switches <==> SomeWrites(items, SwitchWrites(f))
  {
    var g, get := Syntax(size), (o: CLIOptions) => f in o.switches;
    forall t: Item<Key, Flag>, o: CLIOptions | Apply(g, t, o).Ok?
      ensures get(Apply(g, t, o).value) == if SwitchWrites(f)(t).Some? then SwitchWrites(f)(t).value else get(o)
    {
      ApplySwitch(t, o, size, f);
    }
    LastWriteWins(g, items, DEFAULTS, get, SwitchWrites(f));
    LastWriteOfSwitch(items, SwitchWrites(f), false);
  }

  lemma AllAssigned(items: seq<Item<Key, Flag>>, size: SizeParser)
    requires ApplyAll(Syntax(size), items, DEFAULTS).Ok?
    ensures AssignedBy(ApplyAll(Syntax(size), items, DEFAULTS).value, items, size)
  {
    var r := ApplyAll(Syntax(size), items, DEFAULTS).value;
    forall k: Key | k != TagLen ensures TextOf(r, k) == LastWrite(items, TextWrites(k), "") {
      TextIsLast(items, size, k);
    }
    SizeIsLast(items, size);
    PaddingIsLast(items, size);
    PaddingSetIfGiven(items, size);
    forall f: Flag ensures f in r.switches <==> SomeWrites(items, SwitchWrites(f)) {
      SwitchIfGiven(items, size, f);
    }
  }

  lemma AppliesIfSizesParse(items: seq<Item<Key, Flag>>, size: SizeParser)
    ensures ApplyAll(Syntax(size), items, DEFAULTS).Ok?
       <==> forall i :: 0 <= i < |items| ==> SizeParses(items[i], size)
  {
    AllParse(Syntax(size), items, DEFAULTS, (t: Item<Key, Flag>) => SizeParses(t, size));
  }

  /** A printed command line is accepted exactly when its tag lengths parse, and every member of
      the result is the last assignment to it, or its default. */
  lemma LastAssignmentWins(program: string, items: seq<Item<Key, Flag>>, size: SizeParser)
    requires ValidItems(Syntax(size), items) && items != []
    ensures var r := Parse([program] + Render(Syntax(size), items), size);
            && (r.Ok? <==> forall i :: 0 <= i < |items| ==> SizeParses(items[i], size))
            && (r.Ok? ==> AssignedBy(r.value, items, size))
  {
    ParseInverts(program, items, size);
    AppliesIfSizesParse(items, size);
    if ApplyAll(Syntax(size), items, DEFAULTS).Ok? { AllAssigned(items, size); }
  }

  /** The member of the options record that an item assigns. */
  datatype Member = FlagMember(flag: Flag) | KeyMember(key: Key)

  function MemberOf(t: Item<Key, Flag>): Member {
    if t.Word? then FlagMember(if t.flag == NoPad then Padding else t.flag) else KeyMember(t.key)
  }

  lemma FlagsCommute(o: CLIOptions, f: Flag, h: Flag)
    requires IsSwitch(f) || IsSwitch(h)
    ensures SetFlag(SetFlag(o, f), h) == SetFlag(SetFlag(o, h), f)
  {
    assert o.switches + {f} + {h} == o.switches + {h} + {f};
  }

  lemma TextsCommute(o: CLIOptions, j: Key, v: string, k: Key, w: string)
    requires j != k
    ensures o.texts[j := v][k := w] == o.texts[k := w][j := v]
  {
  }

  lemma MembersCommute(t: Item<Key, Flag>, u: Item<Key, Flag>, o: CLIOptions, size: SizeParser)
    requires MemberOf(t) != MemberOf(u)
    ensures ApplyTwo(Syntax(size), t, u, o) == ApplyTwo(Syntax(size), u, t, o)
  {
    if t.Word? && u.Word? {
      FlagsCommute(o, t.flag, u.flag);
    } else if !t.Word? && !u.Word? {
      TextsCommute(o, t.key, t.value, u.key, u.value);
    }
  }

  /** On the command line, swapping neighbouring options that set different members changes
      nothing. */
  lemma SwapChangesNothing(
    program: string, front: seq<Item<Key, Flag>>, t: Item<Key, Flag>, u: Item<Key, Flag>, back: seq<Item<Key, Flag>>,
    size: SizeParser)
    requires ValidItems(Syntax(size), front + [t, u] + back) && MemberOf(t) != MemberOf(u)
    ensures Parse([program] + Render(Syntax(size), front + [t, u] + back), size)
         == Parse([program] + Render(Syntax(size), front + [u, t] + back), size)
  {
    var g := Syntax(size);
    forall mid: CLIOptions ensures ApplyTwo(g, t, u, mid) == ApplyTwo(g, u, t, mid) {
      MembersCommute(t, u, mid, size);
    }
    SwapNeighbours(g, front, t, u, back, DEFAULTS);
    ValidSwap(g, front, t, u, back);
    ParseInverts(program, front + [t, u] + back, size);
    ParseInverts(program, front + [u, t] + back, size);
  }
}
