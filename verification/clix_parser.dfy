/** The parser object: loops over the tokens that write commands, flags and targets in place. */
module ClixParser {
  import opened Wrappers
  import opened ClixGrammar
  import opened ClixDefaults
  import opened ClixRegistration

  /** resolveFlag: the loop up the parent chain. */
  method FindFlag(root: Command, path: Path, name: string) returns (id: Option<FlagId>)
    requires IsPath(root, path)
    ensures id == ResolveFlag(root, path, name)
  {
    var cur := path;
    while true
      invariant IsPath(root, cur) && ResolveFlag(root, cur, name) == ResolveFlag(root, path, name)
      decreases |cur|
    {
      var here := FlagNamed(At(root, cur).flags, name);
      if here.Some? {
        return Some(FlagId(cur, here.value));
      }
      if cur == [] {
        return None;
      }
      cur := cur[..|cur| - 1];
    }
  }

  /** resolveShort */
  method FindShort(root: Command, path: Path, short: string) returns (name: Option<string>)
    requires IsPath(root, path)
    ensures name == ResolveShort(root, path, short)
  {
    var cur := path;
    while true
      invariant IsPath(root, cur) && ResolveShort(root, cur, short) == ResolveShort(root, path, short)
      decreases |cur|
    {
      var here := NameOfShort(At(root, cur).flags, short);
      if here.Some? || cur == [] {
        return here;
      }
      cur := cur[..|cur| - 1];
    }
  }

  /** checkRequired: nested loops over the chain and over each command's flags. */
  method FindMissing(root: Command, path: Path, marks: set<FlagId>) returns (err: Option<Error>)
    requires IsPath(root, path)
    ensures err == CheckRequired(root, path, marks)
  {
    var cur := path;
    while true
      invariant IsPath(root, cur) && CheckRequired(root, cur, marks) == CheckRequired(root, path, marks)
      decreases |cur|
    {
      var flags := At(root, cur).flags;
      for i := 0 to |flags|
        invariant MissingIn(flags, cur, marks, i) == MissingIn(flags, cur, marks, 0)
      {
        if flags[i].required && FlagId(cur, i) !in marks {
          return Some(Required(flags[i].name));
        }
      }
      if cur == [] {
        return None;
      }
      cur := cur[..|cur| - 1];
    }
  }

  /** takeNextFlagValue: the token after i, unless there is none or it looks like a flag. */
  method TakeNextFlagValue(args: seq<string>, i: nat, token: string)
    returns (next: nat, val: string, err: Option<Error>)
    requires i < |args|
    ensures err.None? <==> i + 1 < |args| && !LooksLikeFlag(args[i + 1])
    ensures err.None? ==> next == i + 1 && val == args[i + 1]
    ensures err.Some? ==> next == i && err.value == MissingValue(token)
  {
    if i + 1 >= |args| || LooksLikeFlag(args[i + 1]) {
      return i, "", Some(MissingValue(token));
    }
    return i + 1, args[i + 1], None;
  }

  /** The state, the index of the last token taken and the error are those of f. */
  predicate Follows(f: Flow, args: seq<string>, i: nat, now: State, next: nat, err: Option<Error>) {
    now == f.state && err == f.error && (err.None? ==> i <= next < |args| && args[next + 1..] == f.rest)
  }

  /** name is the long name of the flag seen from path or, when it is none, the short one. */
  predicate Names(root: Command, path: Path, name: string, id: FlagId)
    requires IsPath(root, path)
  {
    var long := ResolveFlag(root, path, name);
    var short := ResolveShort(root, path, name);
    long == Some(id) || (long.None? && short.Some? && ResolveFlag(root, path, short.value) == Some(id))
  }

  class Parser {
    const g: Grammar
    var args: map<Path, seq<string>>
    var marks: set<FlagId>
    var targets: map<nat, Value>
    var matched: Path
    var parseErr: Option<Error>

    function Now(): State
      reads this
    {
      State(args, marks, targets, matched)
    }

    ghost predicate Valid()
      reads this
    {
      WellNamed(g.root) && StateInTree(g.root, Now())
    }

    /** New: defaults are written in the order in which the options ran, then osArgs are parsed. */
    constructor (g: Grammar, registered: seq<Flag>, osArgs: seq<string>)
      requires WellNamed(g.root) && RegistersAll(g.root, registered)
      ensures this.g == g && Valid()
      ensures Outcome(Now(), parseErr) ==
        ParseFrom(g, [], osArgs, InitState(g.root).(targets := Assign(registered, map[])))
      ensures OrderNeverShows(g.root) ==>
        Outcome(Now(), parseErr) == ParseFrom(g, [], osArgs, InitState(g.root))
    {
      hide ParseFrom, WellNamed, ResetOrder, RegistersAll, OrderNeverShows;
      this.g := g;
      args, marks, targets, matched, parseErr := map[], {}, map[], [], None;
      new;
      for i := 0 to |registered|
        invariant this.g == g && args == map[] && marks == {} && matched == []
        invariant targets == Assign(registered[..i], map[])
      {
        assert registered[..i + 1][..i] == registered[..i];
        targets := targets[registered[i].target := registered[i].def];
      }
      assert registered[..|registered|] == registered;
      ResetRegisters(g.root);
      SameTargets(g.root, registered, ResetOrder(g.root));
      if OrderNeverShows(g.root) {
        SettledStart(g.root, registered, ResetOrder(g.root));
      }
      var err := ParseArgs([], osArgs);
      parseErr := err;
    }

    /** Reset: whatever the parser did before, it ends as a fresh parser of osArgs. */
    method Reset(osArgs: seq<string>) returns (err: Option<Error>)
      requires Valid()
      modifies this
      ensures Valid() && parseErr == err
      ensures Outcome(Now(), err) == ParseFrom(g, [], osArgs, InitState(g.root))
    {
      hide ParseFrom, WellNamed, ResetOrder, Assign;
      ResetCommand(g.root, []);
      AssignForgets(ResetOrder(g.root), old(targets));
      matched := [];
      assert args == map[] && marks == {};
      err := ParseArgs([], osArgs);
      parseErr := err;
    }

    /** resetCommand: one command's positionals, marks and targets, then its subcommands. */
    method ResetCommand(cmd: Command, path: Path)
      requires IsPath(g.root, path) && cmd == At(g.root, path) && KeysInTree(g.root, Now())
      modifies this`args, this`marks, this`targets
      ensures ClearedUnder(old(Now()), Now(), path)
      ensures targets == Assign(ResetOrder(cmd), old(targets))
      decreases cmd
    {
      hide Below, KeysInTree, Cleared, ClearedUnder, Assign;
      args := args - {path};
      ResetFlags(cmd.flags, path);
      ClearedNone(g.root, old(Now()), Now(), path);
      assert cmd.flags == cmd.flags + KidsOrder(cmd, 0);
      for k := 0 to |cmd.kids|
        invariant Cleared(old(Now()), Now(), path, k) && KeysInTree(g.root, Now())
        invariant targets == Assign(cmd.flags + KidsOrder(cmd, k), old(targets))
      {
        ghost var mid := Now();
        var sub := path + [k];
        assert sub[..|sub| - 1] == path;
        ResetCommand(cmd.kids[k], sub);
        ClearedNext(old(Now()), mid, Now(), path, k);
        StillInTree(g.root, mid, Now(), sub);
        AssignConcat(cmd.flags + KidsOrder(cmd, k), ResetOrder(cmd.kids[k]), old(targets));
        assert cmd.flags + KidsOrder(cmd, k) + ResetOrder(cmd.kids[k]) == cmd.flags + KidsOrder(cmd, k + 1);
      }
      ClearedAll(g.root, old(Now()), Now(), path);
    }

    method ResetFlags(flags: seq<Flag>, path: Path)
      modifies this`marks, this`targets
      ensures targets == Assign(flags, old(targets))
      ensures OnlyUnmarked(old(marks), marks, path, |flags|)
    {
      for i := 0 to |flags|
        invariant OnlyUnmarked(old(marks), marks, path, i)
        invariant targets == Assign(flags[..i], old(targets))
      {
        assert flags[..i + 1][..i] == flags[..i];
        marks := marks - {FlagId(path, i)};
        targets := targets[flags[i].target := flags[i].def];
      }
      assert flags[..|flags|] == flags;
    }

    /** IsSet: by long name first, then by short alias. */
    method IsSet(name: string) returns (given: bool)
      requires Valid()
      ensures given <==> (exists id :: id in marks && Names(g.root, matched, name, id))
    {
      var id := FindFlag(g.root, matched, name);
      if id.None? {
        var long := FindShort(g.root, matched, name);
        if long.Some? {
          id := FindFlag(g.root, matched, long.value);
        }
      }
      return id.Some? && id.value in marks;
    }

    /** setFunc of one flag */
    method SetFunc(id: FlagId, raw: string) returns (err: Option<Error>)
      requires Valid() && InTree(g.root, id)
      modifies this`marks, this`targets
      ensures Valid() && Outcome(Now(), err) == SetFlag(g, old(Now()), id, raw)
    {
      hide WellNamed, StateInTree, ParseValue;
      SetFlagStaysInTree(g, Now(), id, raw);
      var meta := MetaOf(g.root, id);
      var parsed := ParseValue(g, meta.kind, raw);
      if parsed.None? {
        return Some(InvalidValue(meta.name, raw));
      }
      if |meta.enums| > 0 && parsed.value !in meta.enums {
        return Some(EnumViolated(meta.name, raw));
      }
      targets := targets[meta.target := parsed.value];
      marks := marks + {id};
      return None;
    }

    method ApplyBoolNegation(id: FlagId, name: string, inline: Option<string>) returns (err: Option<Error>)
      requires Valid() && InTree(g.root, id)
      modifies this`marks, this`targets
      ensures Valid() && Outcome(Now(), err) == ApplyNegation(g, old(Now()), id, name, inline)
    {
      hide SetFlag, Valid;
      if inline.None? {
        err := SetFunc(id, "false");
        return;
      }
      var parsed := ParseBool(inline.value);
      if parsed.None? {
        return Some(InvalidValue(name, inline.value));
      }
      if parsed.value == Bool(true) {
        err := SetFunc(id, "false");
      } else {
        err := SetFunc(id, "true");
      }
    }

    /** parseShortGroup: next is the index of the last token taken. */
    method ParseShortGroup(path: Path, args: seq<string>, i: nat) returns (next: nat, err: Option<Error>)
      requires Valid() && IsPath(g.root, path) && i < |args| && HasPrefix(args[i], "-")
      modifies this
      ensures Valid() && parseErr == old(parseErr)
      ensures Follows(Group(g, path, args[i][1..], args[i + 1..], old(Now())), args, i, Now(), next, err)
    {
      hide SetFlag, WellNamed, StateInTree, ResolveFlag, ResolveShort, StringOfByte, IsPath;
      next, err := i, None;
      var chars := args[i][1..];
      var ci := 0;
      while ci < |chars|
        invariant ci <= |chars| && Valid() && parseErr == old(parseErr) && next == i && err == None
        invariant Group(g, path, chars[ci..], args[i + 1..], Now()) == Group(g, path, chars, args[i + 1..], old(Now()))
      {
        assert chars[ci..][1..] == chars[ci + 1..];
        var short := StringOfByte(chars[ci]);
        if short == "h" {
          MatchedStaysInTree(g.root, Now(), path);
          matched := path;
          return next, Some(Help);
        }
        if g.hasVersion && short == "V" {
          MatchedStaysInTree(g.root, Now(), path);
          matched := path;
          return next, Some(Version);
        }
        var canonical := FindShort(g.root, path, short);
        if canonical.None? {
          return next, Some(UnknownFlag("-" + short));
        }
        var id := FindFlag(g.root, path, canonical.value);
        if id.None? {
          return next, Some(UnknownFlag("-" + short));
        }
        if MetaOf(g.root, id.value).kind == KBool {
          err := SetFunc(id.value, "true");
          if err.Some? {
            return;
          }
          ci := ci + 1;
        } else if ci + 1 < |chars| {
          err := SetFunc(id.value, chars[ci + 1..]);
          return;
        } else {
          var val;
          next, val, err := TakeNextFlagValue(args, i, "-" + short);
          if err.None? {
            err := SetFunc(id.value, val);
          }
          return;
        }
      }
      assert chars[ci..] == [];
    }

    /** parseLongOrShort: next is the index of the last token taken. */
    method ParseLongOrShort(path: Path, args: seq<string>, i: nat) returns (next: nat, err: Option<Error>)
      requires Valid() && IsPath(g.root, path) && i < |args|
      modifies this`marks, this`targets
      ensures Valid()
      ensures Follows(LongOrShort(g, path, args[i], args[i + 1..], old(Now())), args, i, Now(), next, err)
    {
      hide SetFlag, Valid, ResolveFlag, ResolveShort, SplitFlag, IsPath, ApplyNegation;
      next := i;
      var arg := args[i];
      var (name, inline) := SplitFlag(arg);
      if !HasPrefix(arg, "--") {
        var canonical := FindShort(g.root, path, name);
        if canonical.None? {
          return next, Some(UnknownFlag(arg));
        }
        name := canonical.value;
      }
      var id := FindFlag(g.root, path, name);
      if id.None? && HasPrefix(arg, "--") && HasPrefix(name, "no-") {
        var negated := FindFlag(g.root, path, name[3..]);
        if negated.Some? && MetaOf(g.root, negated.value).kind == KBool {
          err := ApplyBoolNegation(negated.value, name, inline);
          return;
        }
      }
      if id.None? {
        return next, Some(UnknownFlag(arg));
      }
      if inline.Some? {
        err := SetFunc(id.value, inline.value);
        return;
      }
      if MetaOf(g.root, id.value).kind == KBool {
        err := SetFunc(id.value, "true");
        return;
      }
      var val;
      next, val, err := TakeNextFlagValue(args, i, arg);
      if err.None? {
        err := SetFunc(id.value, val);
      }
    }

    /** parseArgs: one command's loop over its tokens, left by recursion into a subcommand. */
    method ParseArgs(path: Path, argv: seq<string>) returns (err: Option<Error>)
      requires Valid() && IsPath(g.root, path)
      modifies this
      ensures Valid() && parseErr == old(parseErr)
      ensures Outcome(Now(), err) == ParseFrom(g, path, argv, old(Now()))
      decreases |argv|
    {
      hide WellNamed, StateInTree, IsPath, Group, LongOrShort, CheckRequired, IsHelpToken, IsVersionToken, LooksLikeFlag;
      var cmd := At(g.root, path);
      var i := 0;
      while i < |argv|
        invariant i <= |argv| && Valid() && parseErr == old(parseErr)
        invariant ParseFrom(g, path, argv[i..], Now()) == ParseFrom(g, path, argv, old(Now()))
      {
        var arg := argv[i];
        assert argv[i..][0] == arg && argv[i..][1..] == argv[i + 1..];
        if arg == "--" {
          AddArgsStaysInTree(g.root, Now(), path, argv[i + 1..]);
          args := args[path := ArgsOf(Now(), path) + argv[i + 1..]];
          err := FindMissing(g.root, path, marks);
          return;
        }
        if IsHelpToken(arg) {
          MatchedStaysInTree(g.root, Now(), path);
          matched := path;
          return Some(Help);
        }
        if g.hasVersion && IsVersionToken(arg) {
          MatchedStaysInTree(g.root, Now(), path);
          matched := path;
          return Some(Version);
        }
        if arg == "-" || !HasPrefix(arg, "-") {
          if arg in cmd.names && arg != "-" {
            SubIsPath(g.root, path, arg);
            var sub := path + [cmd.names[arg]];
            MatchedStaysInTree(g.root, Now(), sub);
            matched := sub;
            err := ParseArgs(sub, argv[i + 1..]);
            return;
          }
          if Routes(cmd) {
            return Some(UnknownCommand(arg));
          }
          AddArgsStaysInTree(g.root, Now(), path, [arg]);
          args := args[path := ArgsOf(Now(), path) + [arg]];
          i := i + 1;
        } else {
          if IsGroup(arg) {
            i, err := ParseShortGroup(path, argv, i);
          } else {
            i, err := ParseLongOrShort(path, argv, i);
          }
          if err.Some? {
            return;
          }
          i := i + 1;
        }
      }
      err := FindMissing(g.root, path, marks);
    }
  }

  /** Reset forgets: after any earlier parses p ends as a new parser of the same tree and arguments. */
  method ResetIsAFreshParse(p: Parser, registered: seq<Flag>, argv: seq<string>) returns (other: Parser)
    requires p.Valid() && RegistersAll(p.g.root, registered) && OrderNeverShows(p.g.root)
    modifies p
    ensures fresh(other) && other.g == p.g && other.Now() == p.Now() && other.parseErr == p.parseErr
    ensures Outcome(p.Now(), p.parseErr) == ParseFrom(p.g, [], argv, InitState(p.g.root))
  {
    hide ParseFrom, ResetOrder, RegistersAll, OrderNeverShows, StateInTree;
    other := new Parser(p.g, registered, argv);
    var err := p.Reset(argv);
  }
}
