/** Grouped short flags mean what the same flags mean one by one. */
module ClixGrouping {
  import opened Wrappers
  import opened ClixGrammar

  /** What parsing does with the flow a flag token leaves. */
  function Continue(g: Grammar, path: Path, f: Flow): Outcome
    requires WellNamed(g.root) && IsPath(g.root, path)
  {
    if f.error.Some? then Outcome(f.state, f.error) else ParseFrom(g, path, f.rest, f.state)
  }

  /** A short alias that -h and -V do not shadow. */
  predicate IsOwn(g: Grammar, short: string) {
    short != "h" && !(g.hasVersion && short == "V")
  }

  /** The character names a flag that takes a value. */
  predicate TakesValue(g: Grammar, path: Path, c: char)
    requires IsPath(g.root, path)
  {
    IsOwn(g, [c]) && ByShort(g.root, path, [c]).Some?
    && MetaOf(g.root, ByShort(g.root, path, [c]).value).kind != KBool
  }

  /** The character names a bool flag, after which a group goes on. */
  predicate IsSwitch(g: Grammar, path: Path, c: char)
    requires IsPath(g.root, path)
  {
    IsOwn(g, [c]) && ByShort(g.root, path, [c]).Some?
    && MetaOf(g.root, ByShort(g.root, path, [c]).value).kind == KBool
  }

  /** -abc one flag per token; a flag that takes a value keeps the rest of the group as its value. */
  function Expand(g: Grammar, path: Path, chars: string): seq<string>
    requires IsPath(g.root, path)
  {
    if chars == [] then []
    else if TakesValue(g, path, chars[0]) && |chars| > 1 then [['-', chars[0], '='] + chars[1..]]
    else [['-', chars[0]]] + Expand(g, path, chars[1..])
  }

  /**
   The characters of a group that are read as flags: it goes on past a switch that accepts "true" and stops at
   anything else.
   */
  function FlagsRead(g: Grammar, path: Path, chars: string, st: State): string
    requires IsPath(g.root, path)
  {
    if chars == [] then []
    else if IsSwitch(g, path, chars[0]) then
      var o := SetFlag(g, st, ByShort(g.root, path, [chars[0]]).value, "true");
      [chars[0]] + (if o.error.None? then FlagsRead(g, path, chars[1..], o.state) else [])
    else [chars[0]]
  }

  predicate PlainChar(c: char) {
    c < 128 as char && c != '-'
  }

  predicate Plain(s: string) {
    forall c :: c in s ==> PlainChar(c)
  }

  /** Every short alias in scope is one ASCII character other than the dash. */
  ghost predicate PlainAliases(g: Grammar, path: Path)
    requires IsPath(g.root, path)
  {
    forall short :: ByShort(g.root, path, short).Some? ==> |short| == 1 && PlainChar(short[0])
  }

  lemma FlagTokenIsParsed(g: Grammar, path: Path, arg: string, rest: seq<string>, st: State)
    requires WellNamed(g.root) && IsPath(g.root, path)
    requires HasPrefix(arg, "-") && arg != "-" && arg != "--"
    requires !IsHelpToken(arg) && !(g.hasVersion && IsVersionToken(arg))
    ensures ParseFrom(g, path, [arg] + rest, st) == Continue(g, path, FlagToken(g, path, arg, rest, st))
  {
    hide WellNamed, IsPath, IsHelpToken, IsVersionToken, FlagToken, At, CheckRequired;
    assert ([arg] + rest)[1..] == rest;
  }

  lemma HelpStops(g: Grammar, path: Path, arg: string, rest: seq<string>, st: State)
    requires WellNamed(g.root) && IsPath(g.root, path)
    requires arg == "-h" || (g.hasVersion && arg == "-V")
    ensures ParseFrom(g, path, [arg] + rest, st)
      == Outcome(st.(matched := path), Some(if arg == "-h" then Help else Version))
  {
    hide WellNamed, IsPath, FlagToken, At, CheckRequired;
    assert ([arg] + rest)[1..] == rest;
  }

  lemma IndexOfFirst(s: string, t: string, c: char)
    requires c !in s
    ensures IndexOf(s, c) == |s| && IndexOf(s + [c] + t, c) == |s|
  {
    assert forall j :: 0 <= j < |s| ==> (s + [c] + t)[j] == s[j] != c;
    assert (s + [c] + t)[|s|] == c;
  }

  lemma SplitShort(c: char, v: string)
    requires c != '=' && c != '-'
    ensures SplitFlag(['-', c]) == ([c], None)
    ensures SplitFlag(['-', c, '='] + v) == ([c], Some(v))
  {
    IndexOfFirst([c], v, '=');
    var arg := ['-', c, '='] + v;
    assert arg[1..] == [c] + ['='] + v;
    assert ([c] + ['='] + v)[2..] == v && ([c] + ['='] + v)[..1] == [c];
    assert arg[1] == c;
    assert ['-', c][1..] == [c];
  }

  /** One flag on its own is a group of one. */
  lemma SingleIsGroupOfOne(g: Grammar, path: Path, c: char, tail: seq<string>, st: State)
    requires WellNamed(g.root) && IsPath(g.root, path) && c < 128 as char && c != '-' && c != '='
    ensures ParseFrom(g, path, [['-', c]] + tail, st) == Continue(g, path, Group(g, path, [c], tail, st))
  {
    hide WellNamed, IsPath, SetFlag, SplitFlag, LooksLikeFlag, ResolveFlag, ResolveShort, ParseFrom, At;
    var arg := ['-', c];
    SplitShort(c, []);
    if IsOwn(g, [c]) {
      FlagTokenIsParsed(g, path, arg, tail, st);
      assert FlagToken(g, path, arg, tail, st) == LongOrShort(g, path, arg, tail, st);
      assert "-" + [c] == arg;
      assert [c][1..] == [];
    } else {
      HelpStops(g, path, arg, tail, st);
    }
  }

  /** -pVALUE is -p=VALUE. */
  lemma AttachedIsInline(g: Grammar, path: Path, c: char, v: string, rest: seq<string>, st: State)
    requires WellNamed(g.root) && IsPath(g.root, path) && c < 128 as char && c != '-' && c != '='
    requires TakesValue(g, path, c) && v != []
    ensures ParseFrom(g, path, [['-', c, '='] + v] + rest, st)
      == Continue(g, path, Group(g, path, [c] + v, rest, st))
  {
    hide WellNamed, IsPath, SetFlag, SplitFlag, LooksLikeFlag, ResolveFlag, ResolveShort, ParseFrom, At;
    var arg := ['-', c, '='] + v;
    SplitShort(c, v);
    assert arg[1] == c && arg[2] == '=';
    FlagTokenIsParsed(g, path, arg, rest, st);
    assert ([c] + v)[1..] == v && ([c] + v)[0] == c;
  }

  /** The first character is read, and more only after a switch that accepts "true". */
  lemma ReadsFirst(g: Grammar, path: Path, chars: string, st: State)
    requires IsPath(g.root, path)
    ensures chars == [] ==> FlagsRead(g, path, chars, st) == []
    ensures chars != [] ==> chars[0] in FlagsRead(g, path, chars, st)
    ensures chars != [] && IsSwitch(g, path, chars[0]) ==>
      var o := SetFlag(g, st, ByShort(g.root, path, [chars[0]]).value, "true");
      o.error.None? ==> forall c :: c in FlagsRead(g, path, chars[1..], o.state) ==> c in FlagsRead(g, path, chars, st)
  {
    hide IsPath, IsSwitch, SetFlag;
  }

  lemma ReadBeyondFirst(g: Grammar, path: Path, chars: string, st: State, c: char)
    requires IsPath(g.root, path) && chars != [] && c in FlagsRead(g, path, chars, st) && c != chars[0]
    ensures IsSwitch(g, path, chars[0])
    ensures var o := SetFlag(g, st, ByShort(g.root, path, [chars[0]]).value, "true");
      o.error.None? && c in FlagsRead(g, path, chars[1..], o.state)
  {
    hide IsPath, SetFlag;
  }

  lemma {:induction false} GroupUnrolls(g: Grammar, path: Path, chars: string, rest: seq<string>, st: State)
    requires WellNamed(g.root) && IsPath(g.root, path) && '=' !in chars
    requires Plain(FlagsRead(g, path, chars, st))
    ensures ParseFrom(g, path, Expand(g, path, chars) + rest, st)
      == Continue(g, path, Group(g, path, chars, rest, st))
    decreases |chars|
  {
    hide WellNamed, IsPath, SetFlag, ByShort, ParseFrom, At, SetFromNext, FlagsRead;
    if chars == [] {
      assert Expand(g, path, chars) + rest == rest;
    } else {
      var c, more := chars[0], chars[1..];
      assert chars == [c] + more;
      ReadsFirst(g, path, chars, st);
      if TakesValue(g, path, c) && more != [] {
        AttachedIsInline(g, path, c, more, rest, st);
      } else {
        var tail := Expand(g, path, more) + rest;
        assert Expand(g, path, chars) + rest == [['-', c]] + tail;
        SingleIsGroupOfOne(g, path, c, tail, st);
        if IsSwitch(g, path, c) {
          var o := SetFlag(g, st, ByShort(g.root, path, [c]).value, "true");
          assert [c][1..] == [];
          if o.error.None? {
            GroupUnrolls(g, path, more, rest, o.state);
          }
        } else if more == [] {
          assert tail == rest;
        }
      }
    }
  }

  lemma GroupIsParsed(g: Grammar, path: Path, chars: string, rest: seq<string>, st: State)
    requires WellNamed(g.root) && IsPath(g.root, path) && IsGroup("-" + chars)
    ensures |chars| >= 2 && chars[0] != '-' && '=' !in chars
    ensures ParseFrom(g, path, ["-" + chars] + rest, st) == Continue(g, path, Group(g, path, chars, rest, st))
  {
    hide WellNamed, IsPath, Group, LongOrShort, ParseFrom;
    var arg := "-" + chars;
    assert arg[0] == '-' && arg[1] == chars[0] && arg[1..] == chars && arg[2] == chars[1];
    assert forall c :: c in chars ==> c in arg;
    assert HasPrefix(arg, "--") == (arg[0] == '-' && arg[1] == '-');
    FlagTokenIsParsed(g, path, arg, rest, st);
  }

  /** A group token parses exactly as its expansion: same flags, targets, positionals, command and error. */
  lemma GroupExpansionKeepsMeaning(g: Grammar, path: Path, chars: string, rest: seq<string>, st: State)
    requires WellNamed(g.root) && IsPath(g.root, path) && IsGroup("-" + chars)
    requires Plain(FlagsRead(g, path, chars, st))
    ensures ParseFrom(g, path, ["-" + chars] + rest, st)
      == ParseFrom(g, path, Expand(g, path, chars) + rest, st)
  {
    hide WellNamed, IsPath, Group, ParseFrom, Expand, FlagsRead, IsGroup;
    GroupIsParsed(g, path, chars, rest, st);
    GroupUnrolls(g, path, chars, rest, st);
  }

  function Singles(chars: string): seq<string> {
    if chars == [] then [] else [['-', chars[0]]] + Singles(chars[1..])
  }

  /** When only the last flag may take a value, the expansion is one token per character. */
  lemma {:induction false} ExpandIsSingles(g: Grammar, path: Path, chars: string)
    requires IsPath(g.root, path)
    requires forall i :: 0 <= i < |chars| - 1 ==> !TakesValue(g, path, chars[i])
    ensures Expand(g, path, chars) == Singles(chars)
    decreases |chars|
  {
    if chars != [] {
      assert forall i :: 0 <= i < |chars[1..]| - 1 ==> chars[1..][i] == chars[i + 1];
      ExpandIsSingles(g, path, chars[1..]);
    }
  }

  /** A byte above 127 that no alias matches, on its own, is an unknown flag under its own spelling. */
  lemma OddSingle(g: Grammar, path: Path, c: char, tail: seq<string>, st: State)
    requires WellNamed(g.root) && IsPath(g.root, path) && c >= 128 as char && ByShort(g.root, path, [c]).None?
    ensures ParseFrom(g, path, [['-', c]] + tail, st).error == Some(UnknownFlag(['-', c]))
  {
    hide WellNamed, IsPath, SetFlag, SplitFlag, LooksLikeFlag, ResolveFlag, ResolveShort, ParseFrom, At;
    var arg := ['-', c];
    SplitShort(c, []);
    FlagTokenIsParsed(g, path, arg, tail, st);
    assert FlagToken(g, path, arg, tail, st) == LongOrShort(g, path, arg, tail, st);
  }

  /** In a group the same byte is re-encoded as two, and the unknown flag is spelled with both. */
  lemma OddInGroup(g: Grammar, path: Path, chars: string, rest: seq<string>, st: State)
    requires IsPath(g.root, path) && PlainAliases(g, path) && chars != [] && !PlainChar(chars[0])
    ensures Group(g, path, chars, rest, st).error == Some(UnknownFlag("-" + StringOfByte(chars[0])))
  {
    hide IsPath, ByShort, SetFlag, At;
    var short := StringOfByte(chars[0]);
    assert |short| == 2 || short == "-";
  }

  /** A character that is not plain, once read as a flag, splits a group from its expansion. */
  lemma {:induction false} OddSplitsThem(g: Grammar, path: Path, chars: string, rest: seq<string>, st: State, odd: char)
    requires WellNamed(g.root) && IsPath(g.root, path) && '=' !in chars && PlainAliases(g, path)
    requires odd in FlagsRead(g, path, chars, st) && !PlainChar(odd)
    ensures var e := Group(g, path, chars, rest, st).error;
      e.Some? && e != ParseFrom(g, path, Expand(g, path, chars) + rest, st).error
    decreases |chars|
  {
    hide WellNamed, IsPath, SetFlag, ByShort, ParseFrom, At, SetFromNext, FlagsRead;
    ReadsFirst(g, path, chars, st);
    var c, more := chars[0], chars[1..];
    var tail := Expand(g, path, more) + rest;
    if !PlainChar(c) {
      OddInGroup(g, path, chars, rest, st);
      assert !TakesValue(g, path, c);
      assert Expand(g, path, chars) + rest == [['-', c]] + tail;
      if c == '-' {
        assert ['-', c] == "--";
        DelimiterEnds(g, path, tail, st);
      } else {
        OddSingle(g, path, c, tail, st);
      }
    } else {
      ReadBeyondFirst(g, path, chars, st, odd);
      assert Expand(g, path, chars) + rest == [['-', c]] + tail;
      SingleIsGroupOfOne(g, path, c, tail, st);
      var o := SetFlag(g, st, ByShort(g.root, path, [c]).value, "true");
      assert [c][1..] == [];
      OddSplitsThem(g, path, more, rest, o.state, odd);
    }
  }

  /**
   Where aliases are plain, a group means its expansion if and only if every character it reads as a flag is plain:
   a dash is an unknown flag in the group and the delimiter on its own, a byte above 127 is spelled differently.
   */
  lemma GroupMeansExpansionIff(g: Grammar, path: Path, chars: string, rest: seq<string>, st: State)
    requires WellNamed(g.root) && IsPath(g.root, path) && IsGroup("-" + chars) && PlainAliases(g, path)
    ensures ParseFrom(g, path, ["-" + chars] + rest, st) == ParseFrom(g, path, Expand(g, path, chars) + rest, st)
      <==> Plain(FlagsRead(g, path, chars, st))
  {
    hide WellNamed, IsPath, Group, ParseFrom, Expand, FlagsRead, IsGroup, ByShort, PlainAliases, PlainChar;
    GroupIsParsed(g, path, chars, rest, st);
    if Plain(FlagsRead(g, path, chars, st)) {
      GroupExpansionKeepsMeaning(g, path, chars, rest, st);
    } else {
      var odd :| odd in FlagsRead(g, path, chars, st) && !PlainChar(odd);
      OddSplitsThem(g, path, chars, rest, st, odd);
    }
  }

  lemma DelimiterEnds(g: Grammar, path: Path, rest: seq<string>, st: State)
    requires WellNamed(g.root) && IsPath(g.root, path)
    ensures ParseFrom(g, path, ["--"] + rest, st)
      == Outcome(AddArgs(st, path, rest), CheckRequired(g.root, path, st.marks))
    ensures var e := CheckRequired(g.root, path, st.marks); e.None? || e.value.Required?
  {
    assert (["--"] + rest)[1..] == rest;
    CheckRequiredError(g.root, path, st.marks);
  }

  lemma {:induction false} CheckRequiredError(root: Command, path: Path, marks: set<FlagId>)
    requires IsPath(root, path)
    ensures var e := CheckRequired(root, path, marks); e.None? || e.value.Required?
    decreases |path|
  {
    MissingInError(At(root, path).flags, path, marks, 0);
    if path != [] {
      CheckRequiredError(root, path[..|path| - 1], marks);
    }
  }

  lemma {:induction false} MissingInError(flags: seq<Flag>, path: Path, marks: set<FlagId>, i: nat)
    requires i <= |flags|
    ensures var e := MissingIn(flags, path, marks, i); e.None? || e.value.Required?
    decreases |flags| - i
  {
    if i < |flags| {
      MissingInError(flags, path, marks, i + 1);
    }
  }

  /** A program with the one bool flag --all, -a. */
  function OneSwitch(parse: (Kind, string) -> Option<Value>): Grammar {
    Grammar(Command([Flag("all", "a", KBool, false, [], 0, Bool(false))], [], map[], true), false, parse)
  }

  lemma OneSwitchAliases(parse: (Kind, string) -> Option<Value>)
    ensures var g := OneSwitch(parse);
      && WellNamed(g.root) && PlainAliases(g, []) && IsSwitch(g, [], 'a') && ByShort(g.root, [], "-").None?
      && ByShort(g.root, [], "a") == Some(FlagId([], 0))
  {
    var g := OneSwitch(parse);
    var flags := At(g.root, []).flags;
    assert flags[..0] == [];
    forall short | ByShort(g.root, [], short).Some? ensures short == "a" {
      assert NameOfShort(flags[..0], short) == None;
    }
    assert ResolveShort(g.root, [], "a") == Some("all");
    assert FlagNamed(flags, "all") == Some(0);
    assert ByShort(g.root, [], "-").None?;
  }

  /** The command line -a- of that program is not -a --: the one is an error, the other sets the flag and ends. */
  lemma DashedGroupDiffers(parse: (Kind, string) -> Option<Value>, st: State)
    ensures var g := OneSwitch(parse);
      && WellNamed(g.root) && Expand(g, [], "a-") == ["-a", "--"]
      && ParseFrom(g, [], ["-a-"], st) != ParseFrom(g, [], ["-a", "--"], st)
  {
    hide ParseFrom, PlainAliases, ByShort;
    var g := OneSwitch(parse);
    OneSwitchAliases(parse);
    assert "a-"[1..] == "-" && "-"[1..] == [];
    var o := SetFlag(g, st, ByShort(g.root, [], "a").value, "true");
    assert o.error.None?;
    assert FlagsRead(g, [], "-", o.state) == "-";
    assert FlagsRead(g, [], "a-", st) == "a" + "-";
    assert ("a" + "-")[1] == '-';
    assert Expand(g, [], "-") == ["--"] by {
      assert "-"[1..] == [] && ['-', '-'] == "--";
    }
    assert Expand(g, [], "a-") == [['-', 'a']] + Expand(g, [], "-");
    assert IsGroup("-" + "a-") by {
      assert ("-" + "a-")[1] == 'a' && ("-" + "a-") == ['-', 'a', '-'];
    }
    assert !Plain(FlagsRead(g, [], "a-", st)) by {
      assert FlagsRead(g, [], "a-", st)[1] == '-' && !PlainChar('-');
    }
    assert ["-" + "a-"] + [] == ["-a-"] by {
      assert "-" + "a-" == "-a-";
    }
    assert Expand(g, [], "a-") + [] == ["-a", "--"];
    GroupMeansExpansionIff(g, [], "a-", [], st);
  }
}
