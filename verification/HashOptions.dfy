/** The command line of the hash tool, with its leading positional command. */
module HashOptions {
  import opened Basics
  import opened AlgorithmNames
  import opened OptionGrammar

  datatype Key = Alg | Algorithm | In | Out | HexInput | TextInput
    | XofLen

  datatype Flag = Help | List | EmptyInput | OutHex

  function KeyName(k: Key): string {
    match k
    case Alg => "--alg"
    case Algorithm => "--algorithm"
    case In => "--in"
    case Out => "--out"
    case HexInput => "--hex-input"
    case TextInput => "--text"
    case XofLen => "--xof-len"
  }

  predicate IsSpelling(f: Flag, word: string) {
    match f
    case Help => word == "--help" || word == "-h" || word == "/?"
    case List => word == "--list"
    case EmptyInput => word == "--empty-input"
    case OutHex => word == "--out-hex"
  }

  /** The tests of the loop, in their order. */
  const CHAIN: seq<Branch<Key, Flag>> := [
    IsFlag(Help), IsFlag(List), IsOption(Alg), IsOption(Algorithm), IsOption(In), IsOption(Out),
    IsOption(HexInput), IsOption(TextInput), IsFlag(EmptyInput), IsFlag(OutHex), IsOption(XofLen)]

  // ----- The assignments -----

  datatype CLIOptions = CLIOptions(
    help: bool, list: bool, command: string, algorithm: string,
    inputFile: string, outputFile: string, hexInput: string, textInput: string,
    emptyInput: bool, outHex: bool, xofLen: nat)

  /** The start values; no option changes `outHex`. */
  const DEFAULTS: CLIOptions := CLIOptions(false, false, "hash", "sha256", "", "", "", "", false, true, 0)

  /** What `parse_size` makes of a text; none when it throws. */
  type SizeParser = string -> Option<nat>

  function SetFlag(o: CLIOptions, f: Flag): CLIOptions {
    match f
    case Help => o.(help := true)
    case List => o.(list := true)
    case EmptyInput => o.(emptyInput := true)
    case OutHex => o.(outHex := true)
  }

  function SetValue(o: CLIOptions, k: Key, v: string, size: SizeParser): Result<CLIOptions> {
    match k
    case Alg => Ok(o.(algorithm := v))
    case Algorithm => Ok(o.(algorithm := v))
    case In => Ok(o.(inputFile := v))
    case Out => Ok(o.(outputFile := v))
    case HexInput => Ok(o.(hexInput := v))
    case TextInput => Ok(o.(textInput := v))
    case XofLen => if size(v).None? then Err else Ok(o.(xofLen := size(v).value))
  }

  function Syntax(size: SizeParser): Grammar<Key, Flag, CLIOptions> {
    Grammar(CHAIN, IsSpelling, KeyName, SetFlag, (o: CLIOptions, k: Key, v: string) => SetValue(o, k, v, size))
  }

  // ----- The parser -----

  /** A first argument that is taken for the command. */
  predicate IsCommand(first: string) {
    !IsSpelling(Help, first) && !StartsWith(first, "-")
  }

  function Parse(args: seq<string>, size: SizeParser): Result<CLIOptions> {
    if |args| <= 1 then Ok(DEFAULTS.(help := true))
    else if IsSpelling(Help, args[1]) then Ok(DEFAULTS.(help := true))
    else if IsCommand(args[1]) then ParseFrom(Syntax(size), args, 2, DEFAULTS.(command := Lower(args[1])))
    else ParseFrom(Syntax(size), args, 1, DEFAULTS)
  }

  method ParseArgs(args: seq<string>, size: SizeParser) returns (r: Result<CLIOptions>)
    ensures r == Parse(args, size)
  {
    var opt := DEFAULTS;
    if |args| <= 1 { return Ok(opt.(help := true)); }
    var i := 1;
    var first := args[i];
    if first == "-h" || first == "--help" || first == "/?" { return Ok(opt.(help := true)); }
    if !StartsWith(first, "-") {
      opt := opt.(command := Lower(first));
      i := i + 1;
    }
    GrammarIsExact(size);
    r := ParseLoop(Syntax(size), args, i, opt);
  }

  // ----- The names and the chain of tests -----

  /** Which name this is, by its length and then by a letter. */
  function DecodeName(w: string): Branch<Key, Flag> {
    match |w|
    case 2 => IsFlag(Help)
    case 4 => IsOption(In)
    case 5 => if w[2] == 'a' then IsOption(Alg) else IsOption(Out)
    case 6 => if w[2] == 'h' then IsFlag(Help) else if w[2] == 'l' then IsFlag(List) else IsOption(TextInput)
    case 9 => if w[2] == 'o' then IsFlag(OutHex) else IsOption(XofLen)
    case 11 => if w[2] == 'a' then IsOption(Algorithm) else IsOption(HexInput)
    case 13 => IsFlag(EmptyInput)
    case _ => Unknown
  }

  lemma SpellingDecodes(f: Flag, word: string)
    requires IsSpelling(f, word)
    ensures HasNoEquals(word) && DecodeName(word) == IsFlag(f)
  {
  }

  lemma KeyDecodes(k: Key)
    ensures HasNoEquals(KeyName(k)) && DecodeName(KeyName(k)) == IsOption(k)
  {
  }

  lemma FlagInChain(f: Flag)
    ensures IsFlag(f) in CHAIN
  {
  }

  lemma KeyInChain(k: Key)
    ensures IsOption(k) in CHAIN
  {
  }

  /** No argument passes the tests of two branches, and the chain takes a branch exactly when
      that branch's own test passes, whatever its place in the chain. */
  lemma GrammarIsExact(size: SizeParser)
    ensures Exact(Syntax(size))
    ensures forall arg, b, b' :: Matches(Syntax(size), arg, b) && Matches(Syntax(size), arg, b') ==> b == b'
  {
    var g := Syntax(size);
    forall f: Flag, word: string | g.spells(f, word) ensures HasNoEquals(word) && DecodeName(word) == IsFlag(f) {
      SpellingDecodes(f, word);
    }
    forall k: Key ensures HasNoEquals(g.name(k)) && DecodeName(g.name(k)) == IsOption(k) { KeyDecodes(k); }
    forall f: Flag ensures IsFlag(f) in g.chain { FlagInChain(f); }
    forall k: Key ensures IsOption(k) in g.chain { KeyInChain(k); }
    DecodedIsExact(g, DecodeName);
  }

  // ----- Main results -----

  lemma ItemsStartWithDash(items: seq<Item<Key, Flag>>, size: SizeParser)
    requires ValidItems(Syntax(size), items) && items != []
    ensures !IsCommand(Render(Syntax(size), items)[0])
    ensures IsSpelling(Help, Render(Syntax(size), items)[0]) <==> items[0].Word? && items[0].flag == Help
  {
    var g, t := Syntax(size), items[0];
    var arg := Render(g, items)[0];
    assert arg == Words(g, t)[0] && ValidItem(g, t);
    GrammarIsExact(size);
    if t.Word? {
      assert Matches(g, arg, IsFlag(t.flag));
    } else {
      if t.Joined? { assert arg[..|KeyName(t.key)| + 1] == KeyName(t.key) + "="; }
      assert Matches(g, arg, IsOption(t.key));
      assert arg[0] == KeyName(t.key)[0] == '-';
    }
    if IsSpelling(Help, arg) { assert Matches(g, arg, IsFlag(Help)); }
  }

  /** The options with which the loop starts. */
  function Start(command: Option<string>): CLIOptions {
    if command.Some? then DEFAULTS.(command := Lower(command.value)) else DEFAULTS
  }

  predicate IsHelp(t: Item<Key, Flag>) {
    t.Word? && t.flag == Help
  }

  /** Without a command, no option at all is a request for help, and a request for help in the
      first place hides everything behind it. */
  predicate OnlyHelps(command: Option<string>, items: seq<Item<Key, Flag>>) {
    command.None? && (items == [] || IsHelp(items[0]))
  }

  const HELP: CLIOptions := DEFAULTS.(help := true)

  function CommandLine(
    program: string, command: Option<string>, items: seq<Item<Key, Flag>>, size: SizeParser): seq<string>
  {
    [program] + (if command.Some? then [command.value] else []) + Render(Syntax(size), items)
  }

  /** A command is any text, the empty one too, that is no request for help and begins with no
      dash. */
  ghost predicate ValidLine(command: Option<string>, items: seq<Item<Key, Flag>>, size: SizeParser) {
    && ValidItems(Syntax(size), items)
    && (command.Some? ==>
          && command.value != "--help" && command.value != "-h" && command.value != "/?"
          && (command.value != "" ==> command.value[0] != '-'))
  }

  lemma CommandByStart(first: string)
    ensures IsCommand(first) <==>
              && first != "--help" && first != "-h" && first != "/?"
              && (first != "" ==> first[0] != '-')
  {
    if first != "" { assert first[..1] == [first[0]]; }
  }

  /** Parsing a printed command line gives the assignments from left to right, unless it only
      asks for help. */
  lemma ParseInverts(program: string, command: Option<string>, items: seq<Item<Key, Flag>>, size: SizeParser)
    requires ValidLine(command, items, size)
    ensures Parse(CommandLine(program, command, items, size), size)
         == if OnlyHelps(command, items) then Ok(HELP) else ApplyAll(Syntax(size), items, Start(command))
  {
    var g := Syntax(size);
    var words := Render(g, items);
    var args := CommandLine(program, command, items, size);
    GrammarIsExact(size);
    if command.Some? {
      CommandByStart(command.value);
      assert args[1] == command.value && args[2..] == words;
      ParseInvertsRender(g, args, 2, items, Start(command));
    } else {
      assert args[1..] == words;
      if items != [] {
        ItemsStartWithDash(items, size);
        assert args[1] == words[0];
        ParseInvertsRender(g, args, 1, items, DEFAULTS);
      }
    }
  }

  predicate IsHelpWord(first: string) {
    first == "--help" || first == "-h" || first == "/?"
  }

  /** A first request for help is granted whatever stands behind it; otherwise the accepted
      command lines are exactly the printed ones whose output lengths parse. */
  lemma AcceptsExactly(args: seq<string>, size: SizeParser)
    requires |args| > 1
    ensures IsHelpWord(args[1]) ==> Parse(args, size) == Ok(HELP)
    ensures !IsHelpWord(args[1]) ==>
              (Parse(args, size).Ok? <==>
               exists command, items :: IsLine(args, command, items, size)
                                        && ApplyAll(Syntax(size), items, Start(command)).Ok?)
  {
    var g := Syntax(size);
    GrammarIsExact(size);
    CommandByStart(args[1]);
    if !IsHelpWord(args[1]) && Parse(args, size).Ok? {
      if IsCommand(args[1]) {
        AcceptsExactlyRendered(g, args, 2, Start(Some(args[1])));
        var items :| ValidItems(g, items) && args[2..] == Render(g, items)
                     && ApplyAll(g, items, Start(Some(args[1]))).Ok?;
        assert args == [args[0]] + [args[1]] + args[2..];
        assert IsLine(args, Some(args[1]), items, size);
      } else {
        AcceptsExactlyRendered(g, args, 1, DEFAULTS);
        var items :| ValidItems(g, items) && args[1..] == Render(g, items) && ApplyAll(g, items, DEFAULTS).Ok?;
        assert args == [args[0]] + [] + args[1..];
        assert IsLine(args, None, items, size);
      }
    }
    forall command, items | IsLine(args, command, items, size) && ApplyAll(g, items, Start(command)).Ok?
      ensures Parse(args, size).Ok?
    {
      ParseInverts(args[0], command, items, size);
    }
  }

  ghost predicate IsLine(args: seq<string>, command: Option<string>, items: seq<Item<Key, Flag>>, size: SizeParser)
    requires args != []
  {
    ValidLine(command, items, size) && args == CommandLine(args[0], command, items, size)
  }

  // ----- The options by name -----

  lemma OneOption(program: string, k: Key, v: string, size: SizeParser)
    ensures Parse([program, KeyName(k), v], size) == SetValue(DEFAULTS, k, v, size)
  {
    var g, items := Syntax(size), [Spaced(k, v)];
    ParseInverts(program, None, items, size);
    ApplyOne(g, items[0], DEFAULTS);
    RenderOne(g, items[0]);
    assert CommandLine(program, None, items, size) == [program, KeyName(k), v];
  }

  lemma OneFlag(program: string, f: Flag, word: string, size: SizeParser)
    requires IsSpelling(f, word)
    ensures Parse([program, word], size) == Ok(SetFlag(DEFAULTS, f))
  {
    var g, items := Syntax(size), [Word(f, word)];
    assert ValidItem(g, items[0]);
    ParseInverts(program, None, items, size);
    ApplyOne(g, items[0], DEFAULTS);
    RenderOne(g, items[0]);
    assert CommandLine(program, None, items, size) == [program, word];
  }

  /** Which name sets which member. */
  lemma OptionNames(program: string, name: string, k: Key, v: string, size: SizeParser)
    requires match k
             case Alg => name == "--alg"
             case Algorithm => name == "--algorithm"
             case In => name == "--in"
             case Out => name == "--out"
             case HexInput => name == "--hex-input"
             case TextInput => name == "--text"
             case XofLen => name == "--xof-len"
    ensures var r := Parse([program, name, v], size);
            match k
            case Alg => r == Ok(DEFAULTS.(algorithm := v))
            case Algorithm => r == Ok(DEFAULTS.(algorithm := v))
            case In => r == Ok(DEFAULTS.(inputFile := v))
            case Out => r == Ok(DEFAULTS.(outputFile := v))
            case HexInput => r == Ok(DEFAULTS.(hexInput := v))
            case TextInput => r == Ok(DEFAULTS.(textInput := v))
            case XofLen => r == if size(v).None? then Err else Ok(DEFAULTS.(xofLen := size(v).value))
  {
    assert name == KeyName(k);
    OneOption(program, k, v, size);
  }

  /** Which word sets which switch, and what the members are at the start. */
  lemma FlagNames(program: string, word: string, f: Flag, size: SizeParser)
    requires match f
             case Help => word == "--help" || word == "-h" || word == "/?"
             case List => word == "--list"
             case EmptyInput => word == "--empty-input"
             case OutHex => word == "--out-hex"
    ensures Parse([program, word], size) ==
              Ok(CLIOptions(f == Help, f == List, "hash", "sha256", "", "", "", "", f == EmptyInput, true, 0))
    ensures Parse([program], size) == Parse([program, "--help"], size)
  {
    OneFlag(program, f, word, size);
    OneFlag(program, Help, "--help", size);
  }

  // ----- What each item writes -----

  /** The two names of one member count as one. */
  function MemberKey(k: Key): Key {
    if k == Algorithm then Alg else k
  }

  function TextOf(o: CLIOptions, k: Key): string {
    match MemberKey(k)
    case Alg => o.algorithm
    case In => o.inputFile
    case Out => o.outputFile
    case HexInput => o.hexInput
    case TextInput => o.textInput
    case _ => ""
  }

  function FlagOf(o: CLIOptions, f: Flag): bool {
    match f
    case Help => o.help
    case List => o.list
    case EmptyInput => o.emptyInput
    case OutHex => o.outHex
  }

  function DefaultOf(k: Key): string {
    if k == Alg || k == Algorithm then "sha256" else ""
  }

  function TextWrites(k: Key): Item<Key, Flag> -> Option<string> {
    (t: Item<Key, Flag>) => if !t.Word? && MemberKey(t.key) == MemberKey(k) then Some(t.value) else None
  }

  function SizeWrites(size: SizeParser): Item<Key, Flag> -> Option<nat> {
    (t: Item<Key, Flag>) => if !t.Word? && t.key == XofLen then size(t.value) else None
  }

  function SwitchWrites(f: Flag): Item<Key, Flag> -> Option<bool> {
    (t: Item<Key, Flag>) => if t.Word? && t.flag == f then Some(true) else None
  }

  predicate SizeParses(t: Item<Key, Flag>, size: SizeParser) {
    !t.Word? && t.key == XofLen ==> size(t.value).Some?
  }

  /** The whole options record, member by member: every value is the last one given, `--alg` and
      `--algorithm` counting as one, or the default. */
  ghost predicate AssignedBy(
    r: CLIOptions, command: Option<string>, items: seq<Item<Key, Flag>>, size: SizeParser)
  {
    && r.command == (if command.Some? then Lower(command.value) else "hash")
    && r.xofLen == LastWrite(items, SizeWrites(size), 0)
    && (forall k: Key :: k != XofLen ==> TextOf(r, k) == LastWrite(items, TextWrites(k), DefaultOf(k)))
    && (forall f: Flag :: FlagOf(r, f) <==> f == OutHex || SomeWrites(items, SwitchWrites(f)))
  }

  lemma ApplyText(t: Item<Key, Flag>, o: CLIOptions, size: SizeParser, k: Key)
    requires k != XofLen && Apply(Syntax(size), t, o).Ok?
    ensures TextOf(Apply(Syntax(size), t, o).value, k)
         == if TextWrites(k)(t).Some? then TextWrites(k)(t).value else TextOf(o, k)
  {
    if t.Word? { FlagKeepsText(o, t.flag, k); } else { ValueSetsText(o, t.key, t.value, size, k); }
  }

  lemma FlagKeepsText(o: CLIOptions, f: Flag, k: Key)
    ensures TextOf(SetFlag(o, f), k) == TextOf(o, k)
  {
  }

  lemma ValueSetsText(o: CLIOptions, j: Key, v: string, size: SizeParser, k: Key)
    requires k != XofLen && SetValue(o, j, v, size).Ok?
    ensures TextOf(SetValue(o, j, v, size).value, k) == if MemberKey(j) == MemberKey(k) then v else TextOf(o, k)
  {
  }

  lemma TextIsLast(command: Option<string>, items: seq<Item<Key, Flag>>, size: SizeParser, k: Key)
    requires k != XofLen && ApplyAll(Syntax(size), items, Start(command)).Ok?
    ensures TextOf(ApplyAll(Syntax(size), items, Start(command)).value, k)
         == LastWrite(items, TextWrites(k), DefaultOf(k))
  {
    var g, get := Syntax(size), (o: CLIOptions) => TextOf(o, k);
    forall t: Item<Key, Flag>, o: CLIOptions | Apply(g, t, o).Ok?
      ensures get(Apply(g, t, o).value) == if TextWrites(k)(t).Some? then TextWrites(k)(t).value else get(o)
    {
      ApplyText(t, o, size, k);
    }
    LastWriteWins(g, items, Start(command), get, TextWrites(k));
  }

  lemma ApplySwitch(t: Item<Key, Flag>, o: CLIOptions, size: SizeParser, f: Flag)
    requires Apply(Syntax(size), t, o).Ok?
    ensures FlagOf(Apply(Syntax(size), t, o).value, f) <==> SwitchWrites(f)(t).Some? || FlagOf(o, f)
  {
    if !t.Word? { assert FlagOf(SetValue(o, t.key, t.value, size).value, f) == FlagOf(o, f); }
  }

  lemma SwitchIfGiven(command: Option<string>, items: seq<Item<Key, Flag>>, size: SizeParser, f: Flag)
    requires ApplyAll(Syntax(size), items, Start(command)).Ok?
    ensures FlagOf(ApplyAll(Syntax(size), items, Start(command)).value, f)
       <==> f == OutHex || SomeWrites(items, SwitchWrites(f))
  {
    var g, get := Syntax(size), (o: CLIOptions) => FlagOf(o, f);
    forall t: Item<Key, Flag>, o: CLIOptions | Apply(g, t, o).Ok?
      ensures get(Apply(g, t, o).value) == if SwitchWrites(f)(t).Some? then SwitchWrites(f)(t).value else get(o)
    {
      ApplySwitch(t, o, size, f);
    }
    LastWriteWins(g, items, Start(command), get, SwitchWrites(f));
    LastWriteOfSwitch(items, SwitchWrites(f), f == OutHex);
  }

  function NeverWrites(t: Item<Key, Flag>): Option<string> {
    None
  }

  lemma {:induction false} NothingWritten(items: seq<Item<Key, Flag>>, default: string)
    ensures LastWrite(items, NeverWrites, default) == default
  {
    if items != [] { NothingWritten(items[..|items| - 1], default); }
  }

  lemma AllAssigned(command: Option<string>, items: seq<Item<Key, Flag>>, size: SizeParser)
    requires ApplyAll(Syntax(size), items, Start(command)).Ok?
    ensures AssignedBy(ApplyAll(Syntax(size), items, Start(command)).value, command, items, size)
  {
    var g, o := Syntax(size), Start(command);
    var r := ApplyAll(g, items, o).value;
    forall k: Key | k != XofLen ensures TextOf(r, k) == LastWrite(items, TextWrites(k), DefaultOf(k)) {
      TextIsLast(command, items, size, k);
    }
    forall f: Flag ensures FlagOf(r, f) <==> f == OutHex || SomeWrites(items, SwitchWrites(f)) {
      SwitchIfGiven(command, items, size, f);
    }
    CommandStays(command, items, size);
    LengthIsLast(command, items, size);
  }

  lemma ApplyLength(t: Item<Key, Flag>, o: CLIOptions, size: SizeParser)
    requires Apply(Syntax(size), t, o).Ok?
    ensures var r := Apply(Syntax(size), t, o).value;
            && r.command == o.command
            && r.xofLen == if SizeWrites(size)(t).Some? then SizeWrites(size)(t).value else o.xofLen
  {
  }

  lemma LengthIsLast(command: Option<string>, items: seq<Item<Key, Flag>>, size: SizeParser)
    requires ApplyAll(Syntax(size), items, Start(command)).Ok?
    ensures ApplyAll(Syntax(size), items, Start(command)).value.xofLen == LastWrite(items, SizeWrites(size), 0)
  {
    var g, get := Syntax(size), (o: CLIOptions) => o.xofLen;
    forall t: Item<Key, Flag>, o: CLIOptions | Apply(g, t, o).Ok?
      ensures get(Apply(g, t, o).value) == if SizeWrites(size)(t).Some? then SizeWrites(size)(t).value else get(o)
    {
      ApplyLength(t, o, size);
    }
    LastWriteWins(g, items, Start(command), get, SizeWrites(size));
  }

  lemma CommandStays(command: Option<string>, items: seq<Item<Key, Flag>>, size: SizeParser)
    requires ApplyAll(Syntax(size), items, Start(command)).Ok?
    ensures ApplyAll(Syntax(size), items, Start(command)).value.command == Start(command).command
  {
    var g, get := Syntax(size), (o: CLIOptions) => o.command;
    forall t: Item<Key, Flag>, o: CLIOptions | Apply(g, t, o).Ok? ensures get(Apply(g, t, o).value) == get(o) {
      ApplyLength(t, o, size);
    }
    LastWriteWins(g, items, Start(command), get, NeverWrites);
    NothingWritten(items, Start(command).command);
  }

  lemma AppliesIfSizesParse(command: Option<string>, items: seq<Item<Key, Flag>>, size: SizeParser)
    ensures ApplyAll(Syntax(size), items, Start(command)).Ok?
       <==> forall i :: 0 <= i < |items| ==> SizeParses(items[i], size)
  {
    AllParse(Syntax(size), items, Start(command), (t: Item<Key, Flag>) => SizeParses(t, size));
  }

  /** A printed command line that does not only ask for help is accepted exactly when its output
      lengths parse, and every member of the result is the last assignment to it, or its
      default. */
  lemma LastAssignmentWins(program: string, command: Option<string>, items: seq<Item<Key, Flag>>, size: SizeParser)
    requires ValidLine(command, items, size) && !OnlyHelps(command, items)
    ensures var r := Parse(CommandLine(program, command, items, size), size);
            && (r.Ok? <==> forall i :: 0 <= i < |items| ==> SizeParses(items[i], size))
            && (r.Ok? ==> AssignedBy(r.value, command, items, size))
  {
    ParseInverts(program, command, items, size);
    AppliesIfSizesParse(command, items, size);
    if ApplyAll(Syntax(size), items, Start(command)).Ok? { AllAssigned(command, items, size); }
  }

  // ----- Swapping neighbours -----

  /** The member of the options record that an item assigns. */
  datatype Member = FlagMember(flag: Flag) | KeyMember(key: Key)

  function MemberOf(t: Item<Key, Flag>): Member {
    if t.Word? then FlagMember(t.flag) else KeyMember(MemberKey(t.key))
  }

  lemma FlagsCommute(o: CLIOptions, f: Flag, h: Flag)
    ensures SetFlag(SetFlag(o, f), h) == SetFlag(SetFlag(o, h), f)
  {
  }

  lemma FlagAndValueCommute(o: CLIOptions, f: Flag, k: Key, v: string, size: SizeParser)
    ensures SetValue(SetFlag(o, f), k, v, size)
         == if SetValue(o, k, v, size).Err? then Err else Ok(SetFlag(SetValue(o, k, v, size).value, f))
  {
  }

  /** Both assignments, in this order. */
  function SetTwo(o: CLIOptions, j: Key, v: string, k: Key, w: string, size: SizeParser): Result<CLIOptions> {
    var mid := SetValue(o, j, v, size);
    if mid.Err? then Err else SetValue(mid.value, k, w, size)
  }

  lemma ValuesCommute(o: CLIOptions, j: Key, v: string, k: Key, w: string, size: SizeParser)
    requires MemberKey(j) != MemberKey(k)
    ensures SetTwo(o, j, v, k, w, size) == SetTwo(o, k, w, j, v, size)
  {
  }

  lemma MembersCommute(t: Item<Key, Flag>, u: Item<Key, Flag>, o: CLIOptions, size: SizeParser)
    requires MemberOf(t) != MemberOf(u)
    ensures ApplyTwo(Syntax(size), t, u, o) == ApplyTwo(Syntax(size), u, t, o)
  {
    if t.Word? && u.Word? {
      FlagsCommute(o, t.flag, u.flag);
    } else if t.Word? {
      FlagAndValueCommute(o, t.flag, u.key, u.value, size);
    } else if u.Word? {
      FlagAndValueCommute(o, u.flag, t.key, t.value, size);
    } else {
      ValuesCommute(o, t.key, t.value, u.key, u.value, size);
    }
  }

  /** Two neighbours that set different members may be swapped, unless one of them is a request
      for help in the first place, with no command before it. */
  predicate MaySwap(command: Option<string>, front: seq<Item<Key, Flag>>, t: Item<Key, Flag>, u: Item<Key, Flag>) {
    command.Some? || front != [] || (!IsHelp(t) && !IsHelp(u))
  }

  function TwoIn(
    front: seq<Item<Key, Flag>>, t: Item<Key, Flag>, u: Item<Key, Flag>, back: seq<Item<Key, Flag>>)
    : seq<Item<Key, Flag>>
  {
    front + [t, u] + back
  }

  lemma SwapApplied(
    command: Option<string>, front: seq<Item<Key, Flag>>, t: Item<Key, Flag>, u: Item<Key, Flag>,
    back: seq<Item<Key, Flag>>, size: SizeParser)
    requires ValidItems(Syntax(size), TwoIn(front, t, u, back)) && MemberOf(t) != MemberOf(u)
    ensures ValidItems(Syntax(size), TwoIn(front, u, t, back))
    ensures ApplyAll(Syntax(size), TwoIn(front, t, u, back), Start(command))
         == ApplyAll(Syntax(size), TwoIn(front, u, t, back), Start(command))
  {
    var g := Syntax(size);
    forall mid: CLIOptions ensures ApplyTwo(g, t, u, mid) == ApplyTwo(g, u, t, mid) {
      MembersCommute(t, u, mid, size);
    }
    SwapNeighbours(g, front, t, u, back, Start(command));
    ValidSwap(g, front, t, u, back);
  }

  lemma SwapAllowed(
    program: string, command: Option<string>, front: seq<Item<Key, Flag>>, t: Item<Key, Flag>, u: Item<Key, Flag>,
    back: seq<Item<Key, Flag>>, size: SizeParser)
    requires ValidLine(command, TwoIn(front, t, u, back), size) && MemberOf(t) != MemberOf(u)
    requires MaySwap(command, front, t, u)
    ensures Parse(CommandLine(program, command, TwoIn(front, t, u, back), size), size)
         == Parse(CommandLine(program, command, TwoIn(front, u, t, back), size), size)
  {
    SwapApplied(command, front, t, u, back, size);
    var items, swapped := TwoIn(front, t, u, back), TwoIn(front, u, t, back);
    assert front != [] ==> items[0] == front[0] == swapped[0];
    assert front == [] ==> items[0] == t && swapped[0] == u;
    ParseInverts(program, command, items, size);
    ParseInverts(program, command, swapped, size);
  }

  lemma HelpFirst(program: string, u: Item<Key, Flag>, help: Item<Key, Flag>, size: SizeParser)
    requires ValidItems(Syntax(size), [help, u]) && IsHelp(help) && !IsHelp(u)
    ensures var back := [Joined(In, "x")];
            && Parse(CommandLine(program, None, TwoIn([], help, u, back), size), size) == Ok(HELP)
            && Parse(CommandLine(program, None, TwoIn([], u, help, back), size), size) != Ok(HELP)
  {
    var g, back := Syntax(size), [Joined(In, "x")];
    var items := TwoIn([], u, help, back);
    assert ValidItem(g, [help, u][0]) && ValidItem(g, [help, u][1]);
    assert items == [u, help] + back && items[2] == back[0];
    ParseInverts(program, None, TwoIn([], help, u, back), size);
    ParseInverts(program, None, items, size);
    if ApplyAll(g, items, DEFAULTS).Ok? {
      TextIsLast(None, items, size, In);
      assert LastWrite(items, TextWrites(In), "") == "x";
    }
  }

  /** On the command line, swapping neighbouring options that set different members changes
      nothing whatever comes behind them, exactly when neither is a leading request for help. */
  lemma SwapChangesNothing(
    program: string, command: Option<string>, front: seq<Item<Key, Flag>>, t: Item<Key, Flag>, u: Item<Key, Flag>,
    size: SizeParser)
    requires ValidLine(command, front + [t, u], size) && MemberOf(t) != MemberOf(u)
    ensures MaySwap(command, front, t, u)
       <==> (forall back :: ValidItems(Syntax(size), back) ==> (
               Parse(CommandLine(program, command, TwoIn(front, t, u, back), size), size)
               == Parse(CommandLine(program, command, TwoIn(front, u, t, back), size), size)))
  {
    var g := Syntax(size);
    forall back | MaySwap(command, front, t, u) && ValidItems(g, back)
      ensures Parse(CommandLine(program, command, TwoIn(front, t, u, back), size), size)
           == Parse(CommandLine(program, command, TwoIn(front, u, t, back), size), size)
    {
      SwapAllowed(program, command, front, t, u, back, size);
    }
    if !MaySwap(command, front, t, u) {
      assert front + [t, u] == [t, u];
      var back := [Joined(In, "x")];
      assert ValidItems(g, back);
      if IsHelp(t) {
        HelpFirst(program, u, t, size);
      } else {
        ValidSwap(g, [], t, u, []);
        assert [] + [u, t] + [] == [u, t] && [] + [t, u] + [] == [t, u];
        HelpFirst(program, t, u, size);
      }
    }
  }
}
