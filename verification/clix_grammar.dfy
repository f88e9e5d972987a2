/**
 The command tree, the tokens and the parse as a function. Strings are Go
 strings: every char stands for one byte. A command is named by its path of
 child indices from the root, a flag by its command's path and its index.
 */
module ClixGrammar {
  import opened Wrappers

  datatype Kind = KString | KInt | KBool | KFloat | KDuration | KTime

  /** A parsed flag value; text identifies the values of the kinds strconv and time parse. */
  datatype Value = Bool(b: bool) | Parsed(kind: Kind, text: string)

  datatype Flag = Flag(name: string, short: string, kind: Kind, required: bool, enums: seq<Value>,
                       target: nat, def: Value)

  /** names maps command names and aliases to children; hasAction tells routing nodes apart. */
  datatype Command = Command(flags: seq<Flag>, kids: seq<Command>, names: map<string, nat>, hasAction: bool)

  /** parse is strconv and time parsing of the kinds other than bool. */
  datatype Grammar = Grammar(root: Command, hasVersion: bool, parse: (Kind, string) -> Option<Value>)

  type Path = seq<nat>

  datatype FlagId = FlagId(path: Path, index: nat)

  datatype Error =
    | Help
    | Version
    | UnknownFlag(token: string)
    | UnknownCommand(token: string)
    | MissingValue(token: string)
    | InvalidValue(name: string, raw: string)
    | EnumViolated(name: string, raw: string)
    | Required(name: string)

  /** What parsing writes: positionals, set marks, bound targets and the matched command. */
  datatype State = State(args: map<Path, seq<string>>, marks: set<FlagId>, targets: map<nat, Value>, matched: Path)

  // ----- the tree

  predicate WellNamed(cmd: Command) {
    (forall n :: n in cmd.names ==> cmd.names[n] < |cmd.kids|)
    && forall i :: 0 <= i < |cmd.kids| ==> WellNamed(cmd.kids[i])
  }

  predicate IsPath(root: Command, path: Path)
    decreases |path|, 0
  {
    path == [] ||
    (IsPath(root, path[..|path| - 1]) && path[|path| - 1] < |At(root, path[..|path| - 1]).kids|)
  }

  function At(root: Command, path: Path): Command
    requires IsPath(root, path)
    decreases |path|, 1
  {
    if path == [] then root else At(root, path[..|path| - 1]).kids[path[|path| - 1]]
  }

  lemma {:induction false} SubtreeWellNamed(root: Command, path: Path)
    requires WellNamed(root) && IsPath(root, path)
    ensures WellNamed(At(root, path))
  {
    if path != [] {
      SubtreeWellNamed(root, path[..|path| - 1]);
    }
  }

  /** flagMap: the flag of this name, names being unique within a command. */
  function FlagNamed(flags: seq<Flag>, name: string): (r: Option<nat>)
    ensures r.Some? ==> r.value < |flags| && flags[r.value].name == name
  {
    if flags == [] then None
    else if flags[|flags| - 1].name == name then Some(|flags| - 1)
    else FlagNamed(flags[..|flags| - 1], name)
  }

  /** shortMap: the long name behind a short alias. */
  function NameOfShort(flags: seq<Flag>, short: string): Option<string> {
    if flags == [] then None
    else if flags[|flags| - 1].short != "" && flags[|flags| - 1].short == short then Some(flags[|flags| - 1].name)
    else NameOfShort(flags[..|flags| - 1], short)
  }

  /** resolveFlag: this command first, then its ancestors. */
  function ResolveFlag(root: Command, path: Path, name: string): (r: Option<FlagId>)
    requires IsPath(root, path)
    ensures r.Some? ==> InTree(root, r.value)
  {
    var here := FlagNamed(At(root, path).flags, name);
    if here.Some? then Some(FlagId(path, here.value))
    else if path == [] then None
    else ResolveFlag(root, path[..|path| - 1], name)
  }

  function ResolveShort(root: Command, path: Path, short: string): Option<string>
    requires IsPath(root, path)
  {
    var here := NameOfShort(At(root, path).flags, short);
    if here.Some? then here
    else if path == [] then None
    else ResolveShort(root, path[..|path| - 1], short)
  }

  predicate InTree(root: Command, id: FlagId) {
    IsPath(root, id.path) && id.index < |At(root, id.path).flags|
  }

  function MetaOf(root: Command, id: FlagId): Flag
    requires InTree(root, id)
  {
    At(root, id.path).flags[id.index]
  }

  /** The flag a short alias stands for. */
  function ByShort(root: Command, path: Path, short: string): (r: Option<FlagId>)
    requires IsPath(root, path)
    ensures r.Some? ==> InTree(root, r.value)
  {
    var name := ResolveShort(root, path, short);
    if name.Some? then ResolveFlag(root, path, name.value) else None
  }

  // ----- tokens

  predicate HasPrefix(s: string, p: string) {
    p <= s
  }

  predicate TokenIs(arg: string, long: string, short: string) {
    arg == long || arg == short || HasPrefix(arg, long + "=") || HasPrefix(arg, short + "=")
  }

  predicate IsHelpToken(arg: string) {
    TokenIs(arg, "--help", "-h")
  }

  predicate IsVersionToken(arg: string) {
    TokenIs(arg, "--version", "-V")
  }

  function IndexOf(s: string, c: char): (i: nat)
    ensures i <= |s| && (i < |s| ==> s[i] == c) && forall j :: 0 <= j < i ==> s[j] != c
  {
    if s == [] || s[0] == c then 0 else 1 + IndexOf(s[1..], c)
  }

  /** The name and the inline value of a flag token. */
  function SplitFlag(arg: string): (string, Option<string>) {
    var raw := if HasPrefix(arg, "--") then arg[2..] else if HasPrefix(arg, "-") then arg[1..] else arg;
    var i := IndexOf(raw, '=');
    if i < |raw| then (raw[..i], Some(raw[i + 1..])) else (raw, None)
  }

  predicate IsGroup(arg: string) {
    HasPrefix(arg, "-") && !HasPrefix(arg, "--") && '=' !in arg && |arg| > 2
  }

  predicate LooksLikeFlag(arg: string) {
    if arg == "" || arg == "-" then false
    else if HasPrefix(arg, "--") then true
    else if arg[0] != '-' || |arg| < 2 then false
    else !('0' <= arg[1] <= '9')
  }

  /** string(b) of one byte: itself when ASCII, else the two-byte encoding of that code point. */
  function StringOfByte(c: char): string {
    if c < 128 as char then [c]
    else [(192 + (c as int / 64) % 32) as char, (128 + c as int % 64) as char]
  }

  // ----- setting flags

  function ParseBool(s: string): Option<Value> {
    if s in ["1", "t", "T", "TRUE", "true", "True"] then Some(Bool(true))
    else if s in ["0", "f", "F", "FALSE", "false", "False"] then Some(Bool(false))
    else None
  }

  function ParseValue(g: Grammar, kind: Kind, s: string): Option<Value> {
    if kind == KBool then ParseBool(s) else g.parse(kind, s)
  }

  /** A result state and the error that stops the parse, if any. */
  datatype Outcome = Outcome(state: State, error: Option<Error>)

  /** setFunc */
  function SetFlag(g: Grammar, st: State, id: FlagId, raw: string): Outcome
    requires InTree(g.root, id)
  {
    var meta := MetaOf(g.root, id);
    var v := ParseValue(g, meta.kind, raw);
    if v.None? then Outcome(st, Some(InvalidValue(meta.name, raw)))
    else if meta.enums != [] && v.value !in meta.enums then Outcome(st, Some(EnumViolated(meta.name, raw)))
    else Outcome(st.(targets := st.targets[meta.target := v.value], marks := st.marks + {id}), None)
  }

  function ApplyNegation(g: Grammar, st: State, id: FlagId, name: string, inline: Option<string>): Outcome
    requires InTree(g.root, id)
  {
    if inline.None? then
      SetFlag(g, st, id, "false")
    else
      var v := ParseBool(inline.value);
      if v.None? then Outcome(st, Some(InvalidValue(name, inline.value)))
      else SetFlag(g, st, id, if v == Some(Bool(true)) then "false" else "true")
  }

  /** A flag token has been handled: the tokens still to parse, or an error. */
  datatype Flow = Flow(state: State, rest: seq<string>, error: Option<Error>)

  function Stop(st: State, e: Error): Flow {
    Flow(st, [], Some(e))
  }

  /** Go on with rest after o. */
  function Then(o: Outcome, rest: seq<string>): Flow {
    if o.error.Some? then Stop(o.state, o.error.value) else Flow(o.state, rest, None)
  }

  /** takeNextFlagValue and setFunc: the value of flag id is the next token. */
  function SetFromNext(g: Grammar, st: State, id: FlagId, token: string, rest: seq<string>): Flow
    requires InTree(g.root, id)
  {
    if rest == [] || LooksLikeFlag(rest[0]) then Stop(st, MissingValue(token))
    else Then(SetFlag(g, st, id, rest[0]), rest[1..])
  }

  /** parseShortGroup on the characters after the dash. */
  function Group(g: Grammar, path: Path, chars: string, rest: seq<string>, st: State): Flow
    requires IsPath(g.root, path)
  {
    if chars == [] then
      Flow(st, rest, None)
    else
      var short := StringOfByte(chars[0]);
      if short == "h" then
        Stop(st.(matched := path), Help)
      else if g.hasVersion && short == "V" then
        Stop(st.(matched := path), Version)
      else
        var id := ByShort(g.root, path, short);
        if id.None? then
          Stop(st, UnknownFlag("-" + short))
        else if MetaOf(g.root, id.value).kind == KBool then
          var o := SetFlag(g, st, id.value, "true");
          if o.error.Some? then Stop(o.state, o.error.value) else Group(g, path, chars[1..], rest, o.state)
        else if |chars| > 1 then
          Then(SetFlag(g, st, id.value, chars[1..]), rest)
        else
          SetFromNext(g, st, id.value, "-" + short, rest)
  }

  /** parseLongOrShort */
  function LongOrShort(g: Grammar, path: Path, arg: string, rest: seq<string>, st: State): Flow
    requires IsPath(g.root, path)
  {
    var (given, inline) := SplitFlag(arg);
    var long := HasPrefix(arg, "--");
    var name := if long then Some(given) else ResolveShort(g.root, path, given);
    if name.None? then
      Stop(st, UnknownFlag(arg))
    else
      var id := ResolveFlag(g.root, path, name.value);
      if id.None? then
        var negated := if long && HasPrefix(name.value, "no-") then ResolveFlag(g.root, path, name.value[3..]) else None;
        if negated.Some? && MetaOf(g.root, negated.value).kind == KBool then
          Then(ApplyNegation(g, st, negated.value, name.value, inline), rest)
        else
          Stop(st, UnknownFlag(arg))
      else if inline.Some? then
        Then(SetFlag(g, st, id.value, inline.value), rest)
      else if MetaOf(g.root, id.value).kind == KBool then
        Then(SetFlag(g, st, id.value, "true"), rest)
      else
        SetFromNext(g, st, id.value, arg, rest)
  }

  // ----- the parse

  function ArgsOf(st: State, path: Path): seq<string> {
    if path in st.args then st.args[path] else []
  }

  function AddArgs(st: State, path: Path, more: seq<string>): State {
    st.(args := st.args[path := ArgsOf(st, path) + more])
  }

  /** The first required flag of one command that was not set. */
  function MissingIn(flags: seq<Flag>, path: Path, marks: set<FlagId>, i: nat): Option<Error>
    requires i <= |flags|
    decreases |flags| - i
  {
    if i == |flags| then None
    else if flags[i].required && FlagId(path, i) !in marks then Some(Required(flags[i].name))
    else MissingIn(flags, path, marks, i + 1)
  }

  /** checkRequired: the command first, then its ancestors. */
  function CheckRequired(root: Command, path: Path, marks: set<FlagId>): Option<Error>
    requires IsPath(root, path)
  {
    var here := MissingIn(At(root, path).flags, path, marks, 0);
    if here.Some? then here
    else if path == [] then None
    else CheckRequired(root, path[..|path| - 1], marks)
  }

  /** A routing node has subcommands and no action of its own. */
  predicate Routes(cmd: Command) {
    cmd.names != map[] && !cmd.hasAction
  }

  predicate Descends(g: Grammar, path: Path, arg: string)
    requires IsPath(g.root, path)
  {
    !HasPrefix(arg, "-") && arg in At(g.root, path).names
  }

  /** One flag token. */
  function FlagToken(g: Grammar, path: Path, arg: string, rest: seq<string>, st: State): Flow
    requires IsPath(g.root, path) && HasPrefix(arg, "-")
  {
    if IsGroup(arg) then Group(g, path, arg[1..], rest, st) else LongOrShort(g, path, arg, rest, st)
  }

  /** A flag token takes at most the token after it, and that one is never the delimiter. */
  predicate TakesAtMostOne(f: Flow, rest: seq<string>) {
    f.error.None? ==> f.rest == rest || (rest != [] && rest[0] != "--" && f.rest == rest[1..])
  }

  lemma {:induction false} GroupTakesAtMostOne(g: Grammar, path: Path, chars: string, rest: seq<string>, st: State)
    requires IsPath(g.root, path)
    ensures TakesAtMostOne(Group(g, path, chars, rest, st), rest)
    decreases |chars|
  {
    hide IsPath, StringOfByte, ByShort, SetFlag, MetaOf, At;
    if chars != [] {
      var short := StringOfByte(chars[0]);
      var id := ByShort(g.root, path, short);
      if id.Some? && MetaOf(g.root, id.value).kind == KBool {
        GroupTakesAtMostOne(g, path, chars[1..], rest, SetFlag(g, st, id.value, "true").state);
      }
    }
  }

  lemma LongOrShortTakesAtMostOne(g: Grammar, path: Path, arg: string, rest: seq<string>, st: State)
    requires IsPath(g.root, path)
    ensures TakesAtMostOne(LongOrShort(g, path, arg, rest, st), rest)
  {
    hide IsPath, SplitFlag, ResolveShort, ResolveFlag, SetFlag, MetaOf, At, ApplyNegation;
  }

  lemma FlagTokenTakesAtMostOne(g: Grammar, path: Path, arg: string, rest: seq<string>, st: State)
    requires IsPath(g.root, path) && HasPrefix(arg, "-")
    ensures TakesAtMostOne(FlagToken(g, path, arg, rest, st), rest)
  {
    hide IsPath, Group, LongOrShort, IsGroup;
    if IsGroup(arg) {
      GroupTakesAtMostOne(g, path, arg[1..], rest, st);
    } else {
      LongOrShortTakesAtMostOne(g, path, arg, rest, st);
    }
  }

  /** parseArgs of the command at path. */
  function ParseFrom(g: Grammar, path: Path, args: seq<string>, st: State): Outcome
    requires WellNamed(g.root) && IsPath(g.root, path)
    decreases |args|
  {
    if args == [] then
      Outcome(st, CheckRequired(g.root, path, st.marks))
    else
      var arg, rest, cmd := args[0], args[1..], At(g.root, path);
      if arg == "--" then
        Outcome(AddArgs(st, path, rest), CheckRequired(g.root, path, st.marks))
      else if IsHelpToken(arg) then
        Outcome(st.(matched := path), Some(Help))
      else if g.hasVersion && IsVersionToken(arg) then
        Outcome(st.(matched := path), Some(Version))
      else if Descends(g, path, arg) then
        SubtreeWellNamed(g.root, path);
        var sub := path + [cmd.names[arg]];
        assert sub[..|sub| - 1] == path;
        ParseFrom(g, sub, rest, st.(matched := sub))
      else if arg == "-" || !HasPrefix(arg, "-") then
        if Routes(cmd) then Outcome(st, Some(UnknownCommand(arg)))
        else ParseFrom(g, path, rest, AddArgs(st, path, [arg]))
      else
        FlagTokenTakesAtMostOne(g, path, arg, rest, st);
        var f := FlagToken(g, path, arg, rest, st);
        if f.error.Some? then Outcome(f.state, f.error) else ParseFrom(g, path, f.rest, f.state)
  }
}
