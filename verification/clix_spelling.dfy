/** Which flag a token names, and what every spelling of a flag, a word and a control token does. */
module ClixSpelling {
  import opened Wrappers
  import opened ClixGrammar
  import opened ClixDefaults
  import opened ClixGrouping
  import opened ClixValues

  // ----- inheritance: the nearest command that knows the name

  predicate HasName(flags: seq<Flag>, name: string) {
    exists i :: 0 <= i < |flags| && flags[i].name == name
  }

  predicate HasAlias(flags: seq<Flag>, short: string) {
    short != "" && exists i :: 0 <= i < |flags| && flags[i].short == short
  }

  lemma {:induction false} FlagNamedFinds(flags: seq<Flag>, name: string)
    ensures FlagNamed(flags, name).Some? <==> HasName(flags, name)
  {
    if flags != [] {
      var front := flags[..|flags| - 1];
      FlagNamedFinds(front, name);
      assert forall i :: 0 <= i < |front| ==> front[i] == flags[i];
    }
  }

  lemma {:induction false} NameOfShortFinds(flags: seq<Flag>, short: string)
    ensures var r := NameOfShort(flags, short);
      && (r.Some? <==> HasAlias(flags, short))
      && (r.Some? ==> exists i :: 0 <= i < |flags| && flags[i].short == short && flags[i].name == r.value)
  {
    if flags != [] {
      var front := flags[..|flags| - 1];
      NameOfShortFinds(front, short);
      assert forall i :: 0 <= i < |front| ==> front[i] == flags[i];
    }
  }

  lemma ProperPrefix(p: Path, q: Path)
    requires p != []
    ensures q <= p <==> q == p || q <= p[..|p| - 1]
    ensures q <= p[..|p| - 1] ==> q != p
  {
    if q <= p && q != p {
      assert q == p[..|q|] == p[..|p| - 1][..|q|];
    }
  }

  /** A flag is found at the nearest command on the way up that has its name, and if any has it. */
  lemma {:induction false} NearestFlag(root: Command, path: Path, name: string)
    requires IsPath(root, path)
    ensures var r := ResolveFlag(root, path, name);
      && (r.Some? ==> r.value.path <= path && MetaOf(root, r.value).name == name)
      && forall q :: IsPath(root, q) && q <= path && (r.Some? ==> |q| > |r.value.path|) ==> !HasName(At(root, q).flags, name)
    decreases |path|
  {
    hide HasName;
    FlagNamedFinds(At(root, path).flags, name);
    if FlagNamed(At(root, path).flags, name).None? && path != [] {
      var up := path[..|path| - 1];
      NearestFlag(root, up, name);
      forall q {:trigger IsPath(root, q)} | IsPath(root, q) ensures q <= path <==> q == path || q <= up {
        ProperPrefix(path, q);
      }
    }
  }

  /** So is a short alias. */
  lemma {:induction false} NearestAlias(root: Command, path: Path, short: string) returns (at: Path)
    requires IsPath(root, path)
    ensures var r := ResolveShort(root, path, short);
      && (r.Some? ==>
            && IsPath(root, at) && at <= path
            && exists i :: 0 <= i < |At(root, at).flags| && At(root, at).flags[i].short == short
                           && At(root, at).flags[i].name == r.value)
      && forall q :: IsPath(root, q) && q <= path && (r.Some? ==> |q| > |at|) ==> !HasAlias(At(root, q).flags, short)
    decreases |path|
  {
    hide HasAlias;
    at := path;
    NameOfShortFinds(At(root, path).flags, short);
    if NameOfShort(At(root, path).flags, short).None? && path != [] {
      var up := path[..|path| - 1];
      at := NearestAlias(root, up, short);
      forall q {:trigger IsPath(root, q)} | IsPath(root, q) ensures q <= path <==> q == path || q <= up {
        ProperPrefix(path, q);
      }
    }
  }

  // ----- what tokens look like

  /** A token looks like a flag when it starts with a dash that neither stands alone nor signs a number. */
  lemma LooksLikeFlagMeans(arg: string)
    ensures LooksLikeFlag(arg) <==> |arg| >= 2 && arg[0] == '-' && !('0' <= arg[1] <= '9')
  {
    if HasPrefix(arg, "--") {
      assert arg[0] == arg[1] == '-';
    }
  }

  /** A group is one dash and at least two characters, none of them '='. */
  lemma IsGroupMeans(chars: string)
    ensures IsGroup("-" + chars) <==> |chars| >= 2 && chars[0] != '-' && '=' !in chars
  {
    var arg := "-" + chars;
    assert |chars| >= 1 ==> arg[1] == chars[0];
    assert HasPrefix(arg, "--") == (|chars| >= 1 && chars[0] == '-');
    assert '=' in arg <==> '=' in chars by {
      assert forall i :: 0 <= i < |chars| ==> arg[i + 1] == chars[i];
    }
  }

  /** A byte of a group is looked up as the UTF-8 form of its code point, section 3 of RFC 3629: decoding gives it back. */
  lemma ByteIsUtf8(c: char)
    requires c < 256 as char
    ensures c < 128 as char ==> StringOfByte(c) == [c]
    ensures c >= 128 as char ==>
      var s := StringOfByte(c);
      && |s| == 2 && 0xC0 <= s[0] as int < 0xE0 && 0x80 <= s[1] as int < 0xC0
      && (s[0] as int - 0xC0) * 64 + (s[1] as int - 0x80) == c as int
  {
  }

  /** A word is not read as a flag: it has no dash in front, or is nothing but a dash. */
  predicate IsWord(arg: string) {
    arg == "-" || arg == "" || arg[0] != '-'
  }

  lemma WordIsNoFlag(arg: string)
    requires IsWord(arg)
    ensures arg != "--" && !IsHelpToken(arg) && !IsVersionToken(arg) && (arg == "-" || !HasPrefix(arg, "-"))
  {
    if arg != "-" && arg != "" {
      assert forall p: string :: p != "" && p[0] == '-' ==> !HasPrefix(arg, p);
    }
  }

  // ----- words

  /** Following names of subcommands from the command at path. */
  function Follow(root: Command, path: Path, names: seq<string>): (r: Option<Path>)
    requires WellNamed(root) && IsPath(root, path)
    ensures r.Some? ==> IsPath(root, r.value)
    decreases |names|
  {
    if names == [] then Some(path)
    else if names[0] !in At(root, path).names then None
    else
      SubIsPath(root, path, names[0]);
      Follow(root, path + [At(root, path).names[names[0]]], names[1..])
  }

  /** Names of subcommands lead to the command they name, and parsing goes on there. */
  lemma {:induction false} NamesLeadDown(g: Grammar, path: Path, names: seq<string>, rest: seq<string>, st: State)
    requires WellNamed(g.root) && IsPath(g.root, path) && st.matched == path
    requires forall i :: 0 <= i < |names| ==> IsWord(names[i]) && names[i] != "-"
    requires Follow(g.root, path, names).Some?
    ensures var p := Follow(g.root, path, names).value;
      ParseFrom(g, path, names + rest, st) == ParseFrom(g, p, rest, st.(matched := p))
    decreases |names|
  {
    hide WellNamed, IsPath, IsHelpToken, IsVersionToken, FlagToken, CheckRequired, At;
    if names == [] {
      assert names + rest == rest;
      assert st.(matched := path) == st;
    } else {
      WordIsNoFlag(names[0]);
      SubIsPath(g.root, path, names[0]);
      var sub := path + [At(g.root, path).names[names[0]]];
      assert (names + rest)[1..] == names[1..] + rest;
      NamesLeadDown(g, sub, names[1..], rest, st.(matched := sub));
    }
  }

  /** Other words are positionals of a command that runs or has no subcommands, in order and all of them. */
  lemma {:induction false} WordsArePositionals(g: Grammar, path: Path, words: seq<string>, rest: seq<string>, st: State)
    requires WellNamed(g.root) && IsPath(g.root, path) && words != []
    requires At(g.root, path).names == map[] || At(g.root, path).hasAction
    requires forall i :: 0 <= i < |words| ==> IsWord(words[i]) && words[i] !in At(g.root, path).names
    ensures ParseFrom(g, path, words + rest, st) == ParseFrom(g, path, rest, AddArgs(st, path, words))
    decreases |words|
  {
    hide WellNamed, IsPath, IsHelpToken, IsVersionToken, FlagToken, CheckRequired, At, AddArgs;
    var more := words[1..];
    WordIsNoFlag(words[0]);
    assert (words + rest)[1..] == more + rest;
    if more == [] {
      assert words == [words[0]] && more + rest == rest;
    } else {
      WordsArePositionals(g, path, more, rest, AddArgs(st, path, [words[0]]));
      AddTwice(st, path, words);
    }
  }

  lemma AddTwice(st: State, path: Path, words: seq<string>)
    requires words != []
    ensures AddArgs(AddArgs(st, path, [words[0]]), path, words[1..]) == AddArgs(st, path, words)
  {
    assert ArgsOf(st, path) + [words[0]] + words[1..] == ArgsOf(st, path) + words;
  }

  /** A command that only routes refuses a word that names none of its subcommands. */
  lemma RouterRefuses(g: Grammar, path: Path, word: string, rest: seq<string>, st: State)
    requires WellNamed(g.root) && IsPath(g.root, path) && IsWord(word)
    requires At(g.root, path).names != map[] && !At(g.root, path).hasAction
    requires word == "-" || word !in At(g.root, path).names
    ensures ParseFrom(g, path, [word] + rest, st) == Outcome(st, Some(UnknownCommand(word)))
  {
    hide WellNamed, IsPath, IsHelpToken, IsVersionToken, FlagToken, CheckRequired, At;
    WordIsNoFlag(word);
  }

  // ----- control tokens

  /** --help and -h, bare or with a value, stop with help for the command reached. */
  lemma HelpStopsHere(g: Grammar, path: Path, v: string, rest: seq<string>, st: State)
    requires WellNamed(g.root) && IsPath(g.root, path)
    ensures forall arg :: arg in {"--help", "-h", "--help=" + v, "-h=" + v} ==>
      ParseFrom(g, path, [arg] + rest, st) == Outcome(st.(matched := path), Some(Help))
  {
    hide WellNamed, IsPath, FlagToken, CheckRequired, At;
    assert ("--help=" + v)[2] == 'h' && ("-h=" + v)[1] == 'h';
    assert HasPrefix("--help=" + v, "--help=") && HasPrefix("-h=" + v, "-h=");
  }

  /** So do --version and -V in a program with a version. */
  lemma VersionStopsHere(g: Grammar, path: Path, v: string, rest: seq<string>, st: State)
    requires WellNamed(g.root) && IsPath(g.root, path) && g.hasVersion
    ensures forall arg :: arg in {"--version", "-V", "--version=" + v, "-V=" + v} ==>
      ParseFrom(g, path, [arg] + rest, st) == Outcome(st.(matched := path), Some(Version))
  {
    hide WellNamed, IsPath, FlagToken, CheckRequired, At;
    assert ("--version=" + v)[2] == 'v' && ("-V=" + v)[1] == 'V';
    assert HasPrefix("--version=" + v, "--version=") && HasPrefix("-V=" + v, "-V=");
    assert !IsHelpToken("--version=" + v) && !IsHelpToken("-V=" + v);
  }

  // ----- flags: every spelling comes down to --name=value

  /** --name=v gives the flag a value: it is marked and its target holds v, or the value is refused and nothing changes. */
  lemma InlineValueSets(g: Grammar, path: Path, name: string, v: string, rest: seq<string>, st: State)
    requires WellNamed(g.root) && IsPath(g.root, path) && OwnName(g, name) && ResolveFlag(g.root, path, name).Some?
    ensures var id := ResolveFlag(g.root, path, name).value;
      var meta := MetaOf(g.root, id);
      var parsed, o := ParseValue(g, meta.kind, v), ParseFrom(g, path, ["--" + name + "=" + v] + rest, st);
      && (parsed.None? ==> o == Outcome(st, Some(InvalidValue(name, v))))
      && (parsed.Some? && meta.enums != [] && parsed.value !in meta.enums ==> o == Outcome(st, Some(EnumViolated(name, v))))
      && (parsed.Some? && (meta.enums == [] || parsed.value in meta.enums) ==>
            o == ParseFrom(g, path, rest,
              State(st.args, st.marks + {id}, st.targets[meta.target := parsed.value], st.matched)))
  {
    hide WellNamed, IsPath, ParseFrom, SplitFlag, ParseValue, ResolveFlag, At;
    LongIsParsed(g, path, name, v, rest, st);
    LongTokenSplits(name, v);
    assert ("--" + name + "=" + v)[..2] == "--";
    NameOfResolved(g.root, path, name);
  }

  lemma NameOfResolved(root: Command, path: Path, name: string)
    requires IsPath(root, path) && ResolveFlag(root, path, name).Some?
    ensures MetaOf(root, ResolveFlag(root, path, name).value).name == name
  {
    NearestFlag(root, path, name);
  }

  /** A bare switch means =true. */
  lemma BareSwitchMeansTrue(g: Grammar, path: Path, name: string, rest: seq<string>, st: State)
    requires WellNamed(g.root) && IsPath(g.root, path) && OwnName(g, name)
    requires var id := ResolveFlag(g.root, path, name); id.Some? && MetaOf(g.root, id.value).kind == KBool
    ensures ParseFrom(g, path, ["--" + name] + rest, st) == ParseFrom(g, path, ["--" + name + "=" + "true"] + rest, st)
  {
    hide WellNamed, IsPath, ParseFrom, SplitFlag, SetFlag, ResolveFlag, MetaOf;
    LongIsParsed(g, path, name, "true", rest, st);
    LongTokenSplits(name, "true");
    assert ("--" + name)[..2] == "--" && ("--" + name + "=" + "true")[..2] == "--";
  }

  /** A short alias of one ASCII character, none of help's or version's. */
  predicate OwnAlias(g: Grammar, path: Path, c: char, name: string)
    requires IsPath(g.root, path)
  {
    c < 128 as char && c != '-' && c != '=' && IsOwn(g, [c]) && OwnName(g, name)
    && ResolveShort(g.root, path, [c]) == Some(name) && ResolveFlag(g.root, path, name).Some?
  }

  lemma ShortTokenIsOwn(g: Grammar, c: char, v: string)
    requires c != '-' && c != '=' && IsOwn(g, [c])
    ensures forall arg :: arg == ['-', c] || arg == ['-', c, '='] + v ==>
      arg != "-" && arg != "--" && HasPrefix(arg, "-") && !HasPrefix(arg, "--")
      && !IsHelpToken(arg) && !(g.hasVersion && IsVersionToken(arg)) && !IsGroup(arg)
  {
    forall arg | arg == ['-', c] || arg == ['-', c, '='] + v
      ensures arg != "-" && arg != "--" && HasPrefix(arg, "-") && !HasPrefix(arg, "--")
        && !IsHelpToken(arg) && !(g.hasVersion && IsVersionToken(arg)) && !IsGroup(arg)
    {
      assert arg[0] == '-' && arg[1] == c && [arg[1]] == [c];
      if |arg| > 2 {
        assert arg[2] == '=';
      }
    }
  }

  /** -c=v means --name=v. */
  lemma ShortInlineMeansLong(g: Grammar, path: Path, c: char, name: string, v: string, rest: seq<string>, st: State)
    requires WellNamed(g.root) && IsPath(g.root, path) && OwnAlias(g, path, c, name)
    ensures ParseFrom(g, path, [['-', c, '='] + v] + rest, st) == ParseFrom(g, path, ["--" + name + "=" + v] + rest, st)
  {
    hide WellNamed, IsPath, ParseFrom, SplitFlag, SetFlag, ResolveFlag, ResolveShort, MetaOf, IsGroup, IsHelpToken,
      IsVersionToken;
    var arg := ['-', c, '='] + v;
    LongIsParsed(g, path, name, v, rest, st);
    LongTokenSplits(name, v);
    ShortTokenIsOwn(g, c, v);
    SplitShort(c, v);
    FlagTokenIsParsed(g, path, arg, rest, st);
    assert ("--" + name + "=" + v)[..2] == "--";
  }

  /** -c means --name=true for a switch; any other flag takes the next token as -c=v would, unless it looks like a flag. */
  lemma ShortMeansLong(g: Grammar, path: Path, c: char, name: string, v: string, rest: seq<string>, st: State)
    requires WellNamed(g.root) && IsPath(g.root, path) && OwnAlias(g, path, c, name)
    ensures var switch := MetaOf(g.root, ResolveFlag(g.root, path, name).value).kind == KBool;
      && (switch ==>
            ParseFrom(g, path, [['-', c]] + rest, st) == ParseFrom(g, path, ["--" + name + "=" + "true"] + rest, st))
      && (!switch && !LooksLikeFlag(v) ==>
            ParseFrom(g, path, [['-', c], v] + rest, st) == ParseFrom(g, path, ["--" + name + "=" + v] + rest, st))
      && (!switch && LooksLikeFlag(v) ==>
            ParseFrom(g, path, [['-', c], v] + rest, st) == Outcome(st, Some(MissingValue(['-', c]))))
  {
    hide WellNamed, IsPath, ParseFrom, SplitFlag, SetFlag, ResolveFlag, ResolveShort, MetaOf, IsGroup, IsHelpToken,
      IsVersionToken, LooksLikeFlag;
    LongIsParsed(g, path, name, "true", rest, st);
    LongIsParsed(g, path, name, v, rest, st);
    LongTokenSplits(name, "true");
    LongTokenSplits(name, v);
    ShortTokenIsOwn(g, c, v);
    SplitShort(c, v);
    FlagTokenIsParsed(g, path, ['-', c], rest, st);
    FlagTokenIsParsed(g, path, ['-', c], [v] + rest, st);
    assert [['-', c], v] + rest == [['-', c]] + ([v] + rest) && ([v] + rest)[1..] == rest;
    assert ("--" + name + "=" + "true")[..2] == "--" == ("--" + name + "=" + v)[..2];
  }

  /** The last token wants a value: nothing is set. */
  lemma ValueMissing(g: Grammar, path: Path, name: string, st: State)
    requires WellNamed(g.root) && IsPath(g.root, path) && OwnName(g, name)
    requires var id := ResolveFlag(g.root, path, name); id.Some? && MetaOf(g.root, id.value).kind != KBool
    ensures ParseFrom(g, path, ["--" + name], st) == Outcome(st, Some(MissingValue("--" + name)))
  {
    hide WellNamed, IsPath, ParseFrom, SplitFlag, SetFlag, ResolveFlag, MetaOf;
    LongIsParsed(g, path, name, "", [], st);
    LongTokenSplits(name, "");
    assert ["--" + name] + [] == ["--" + name] && ("--" + name)[..2] == "--";
  }

  /** A long flag that no command on the way up knows, and that negates none either, is an error and changes nothing. */
  lemma UnknownFlagStops(g: Grammar, path: Path, name: string, rest: seq<string>, st: State)
    requires WellNamed(g.root) && IsPath(g.root, path) && OwnName(g, name) && ResolveFlag(g.root, path, name).None?
    requires HasPrefix(name, "no-") ==>
      var id := ResolveFlag(g.root, path, name[3..]); id.None? || MetaOf(g.root, id.value).kind != KBool
    ensures ParseFrom(g, path, ["--" + name] + rest, st) == Outcome(st, Some(UnknownFlag("--" + name)))
  {
    hide WellNamed, IsPath, ParseFrom, SplitFlag, SetFlag, ResolveFlag, MetaOf;
    LongIsParsed(g, path, name, "", rest, st);
    LongTokenSplits(name, "");
    assert ("--" + name)[..2] == "--";
  }
}
