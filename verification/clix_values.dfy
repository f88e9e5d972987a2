/** What the bound targets hold after a parse, and spellings of a flag that mean the same. */
module ClixValues {
  import opened Wrappers
  import opened ClixGrammar
  import opened ClixDefaults
  import opened ClixGrouping

  // ----- targets

  ghost predicate DistinctTargets(root: Command) {
    forall a, b :: InTree(root, a) && InTree(root, b) && MetaOf(root, a).target == MetaOf(root, b).target ==> a == b
  }

  /** Distinct targets agree on their defaults. */
  lemma DistinctIsAgreeing(root: Command)
    requires DistinctTargets(root)
    ensures Agreeing(ResetOrder(root))
  {
    hide ResetOrder, InTree, MetaOf;
    forall f, h | f in ResetOrder(root) && h in ResetOrder(root) && f.target == h.target ensures f.def == h.def {
      var a := OrderHasFlag(root, [], root, f);
      var b := OrderHasFlag(root, [], root, h);
    }
  }

  predicate Allowed(meta: Flag, v: Value) {
    meta.enums == [] || v in meta.enums
  }

  /** The flag's target holds its default, or a permitted value if the flag was set. */
  predicate HonestAt(root: Command, st: State, id: FlagId)
    requires InTree(root, id)
  {
    var meta := MetaOf(root, id);
    meta.target in st.targets
    && if id in st.marks then Allowed(meta, st.targets[meta.target]) else st.targets[meta.target] == meta.def
  }

  ghost predicate Honest(root: Command, st: State) {
    forall id :: InTree(root, id) ==> HonestAt(root, st, id)
  }

  lemma HonestByTargets(root: Command, a: State, b: State)
    requires Honest(root, a) && a.targets == b.targets && a.marks == b.marks
    ensures Honest(root, b)
  {
    hide InTree, MetaOf;
    forall id | InTree(root, id) ensures HonestAt(root, b, id) {
      assert HonestAt(root, a, id);
    }
  }

  lemma SetFlagStaysHonest(g: Grammar, st: State, id: FlagId, raw: string)
    requires InTree(g.root, id) && DistinctTargets(g.root) && Honest(g.root, st)
    ensures Honest(g.root, SetFlag(g, st, id, raw).state)
  {
    hide ParseValue, InTree, MetaOf;
    var after := SetFlag(g, st, id, raw).state;
    forall other | InTree(g.root, other) ensures HonestAt(g.root, after, other) {
      assert HonestAt(g.root, st, other);
    }
  }

  lemma NegationStaysHonest(g: Grammar, st: State, id: FlagId, name: string, inline: Option<string>)
    requires InTree(g.root, id) && DistinctTargets(g.root) && Honest(g.root, st)
    ensures Honest(g.root, ApplyNegation(g, st, id, name, inline).state)
  {
    hide SetFlag, InTree, Honest, DistinctTargets;
    SetFlagStaysHonest(g, st, id, "false");
    SetFlagStaysHonest(g, st, id, "true");
  }

  lemma FromNextStaysHonest(g: Grammar, st: State, id: FlagId, token: string, rest: seq<string>)
    requires InTree(g.root, id) && DistinctTargets(g.root) && Honest(g.root, st)
    ensures Honest(g.root, SetFromNext(g, st, id, token, rest).state)
  {
    hide SetFlag, InTree, Honest, DistinctTargets, LooksLikeFlag;
    if rest != [] {
      SetFlagStaysHonest(g, st, id, rest[0]);
    }
  }

  lemma {:induction false} GroupStaysHonest(g: Grammar, path: Path, chars: string, rest: seq<string>, st: State)
    requires IsPath(g.root, path) && DistinctTargets(g.root) && Honest(g.root, st)
    ensures Honest(g.root, Group(g, path, chars, rest, st).state)
    decreases |chars|
  {
    hide IsPath, InTree, StringOfByte, ByShort, SetFlag, SetFromNext, Honest, DistinctTargets, MetaOf;
    if chars != [] {
      var id := ByShort(g.root, path, StringOfByte(chars[0]));
      HonestByTargets(g.root, st, st.(matched := path));
      if id.Some? {
        var o := SetFlag(g, st, id.value, "true");
        SetFlagStaysHonest(g, st, id.value, "true");
        SetFlagStaysHonest(g, st, id.value, chars[1..]);
        FromNextStaysHonest(g, st, id.value, "-" + StringOfByte(chars[0]), rest);
        if MetaOf(g.root, id.value).kind == KBool {
          GroupStaysHonest(g, path, chars[1..], rest, o.state);
        }
      }
    }
  }

  lemma LongOrShortStaysHonest(g: Grammar, path: Path, arg: string, rest: seq<string>, st: State)
    requires IsPath(g.root, path) && DistinctTargets(g.root) && Honest(g.root, st)
    ensures Honest(g.root, LongOrShort(g, path, arg, rest, st).state)
  {
    hide IsPath, InTree, SplitFlag, ResolveFlag, ResolveShort, SetFlag, SetFromNext, ApplyNegation, Honest,
      DistinctTargets, MetaOf;
    var (given, inline) := SplitFlag(arg);
    var name := if HasPrefix(arg, "--") then Some(given) else ResolveShort(g.root, path, given);
    if name.Some? {
      var id := ResolveFlag(g.root, path, name.value);
      if id.Some? {
        SetFlagStaysHonest(g, st, id.value, "true");
        SetFlagStaysHonest(g, st, id.value, if inline.Some? then inline.value else "");
        FromNextStaysHonest(g, st, id.value, arg, rest);
      } else if HasPrefix(name.value, "no-") {
        var negated := ResolveFlag(g.root, path, name.value[3..]);
        if negated.Some? {
          NegationStaysHonest(g, st, negated.value, name.value, inline);
        }
      }
    }
  }

  lemma {:induction false} ParseStaysHonest(g: Grammar, path: Path, args: seq<string>, st: State)
    requires WellNamed(g.root) && IsPath(g.root, path) && DistinctTargets(g.root) && Honest(g.root, st)
    ensures Honest(g.root, ParseFrom(g, path, args, st).state)
    decreases |args|
  {
    hide WellNamed, IsPath, DistinctTargets, Honest, CheckRequired, Group, LongOrShort, IsHelpToken, IsVersionToken, At;
    if args != [] {
      var arg, rest := args[0], args[1..];
      HonestByTargets(g.root, st, st.(matched := path));
      if arg == "--" {
        HonestByTargets(g.root, st, AddArgs(st, path, rest));
      } else if IsHelpToken(arg) || (g.hasVersion && IsVersionToken(arg)) {
      } else if Descends(g, path, arg) {
        SubIsPath(g.root, path, arg);
        var sub := path + [At(g.root, path).names[arg]];
        HonestByTargets(g.root, st, st.(matched := sub));
        ParseStaysHonest(g, sub, rest, st.(matched := sub));
      } else if arg == "-" || !HasPrefix(arg, "-") {
        if !Routes(At(g.root, path)) {
          HonestByTargets(g.root, st, AddArgs(st, path, [arg]));
          ParseStaysHonest(g, path, rest, AddArgs(st, path, [arg]));
        }
      } else {
        GroupStaysHonest(g, path, arg[1..], rest, st);
        LongOrShortStaysHonest(g, path, arg, rest, st);
        FlagTokenTakesAtMostOne(g, path, arg, rest, st);
        var f := FlagToken(g, path, arg, rest, st);
        if f.error.None? {
          ParseStaysHonest(g, path, f.rest, f.state);
        }
      }
    }
  }

  lemma FreshIsHonest(root: Command)
    requires Agreeing(ResetOrder(root))
    ensures Honest(root, InitState(root))
  {
    hide Assign, At, IsPath;
    AssignWrites(ResetOrder(root), map[]);
    forall id | InTree(root, id) ensures HonestAt(root, InitState(root), id) {
      FlagIsReset(root, id);
    }
  }

  lemma FlagIsReset(root: Command, id: FlagId)
    requires InTree(root, id)
    ensures MetaOf(root, id) in ResetOrder(root)
  {
    assert MetaOf(root, id) in ResetOrder(At(root, id.path));
    FlagInOrder(root, id.path, MetaOf(root, id));
  }

  /**
   After any parse, failed or not, a flag that IsSet denies still holds its default, and a flag with an
   enumeration that was set holds one of its values.
   */
  lemma TargetsAreHonest(g: Grammar, argv: seq<string>, id: FlagId)
    requires WellNamed(g.root) && DistinctTargets(g.root) && InTree(g.root, id)
    ensures var st := ParseFrom(g, [], argv, InitState(g.root)).state;
      MetaOf(g.root, id).target in st.targets
      && (id !in st.marks ==> st.targets[MetaOf(g.root, id).target] == MetaOf(g.root, id).def)
      && (id in st.marks ==> Allowed(MetaOf(g.root, id), st.targets[MetaOf(g.root, id).target]))
  {
    hide WellNamed, InTree, ParseFrom, DistinctTargets, Agreeing, InitState, MetaOf;
    DistinctIsAgreeing(g.root);
    FreshIsHonest(g.root);
    ParseStaysHonest(g, [], argv, InitState(g.root));
    assert HonestAt(g.root, ParseFrom(g, [], argv, InitState(g.root)).state, id);
  }

  // ----- equal spellings

  /** A long name that is not help or version and holds no '='. */
  predicate OwnName(g: Grammar, name: string) {
    '=' !in name && name != "" && name != "help" && !(g.hasVersion && name == "version")
  }

  lemma LongTokenSplits(name: string, v: string)
    requires '=' !in name
    ensures SplitFlag("--" + name) == (name, None)
    ensures SplitFlag("--" + name + "=" + v) == (name, Some(v))
  {
    IndexOfFirst(name, v, '=');
    assert ("--" + name)[2..] == name;
    assert ("--" + name + "=" + v)[2..] == name + ['='] + v;
    assert (name + ['='] + v)[..|name|] == name && (name + ['='] + v)[|name| + 1..] == v;
  }

  /** A string that starts with b= and whose first '=' follows a has a for b. */
  lemma BeforeEquals(a: string, v: string, b: string)
    ensures '=' !in a && '=' !in b && HasPrefix(a + "=" + v, b + "=") ==> a == b
  {
    if '=' !in a && '=' !in b && HasPrefix(a + "=" + v, b + "=") {
      var w := (a + "=" + v)[|b| + 1..];
      assert a + "=" + v == b + "=" + w;
      IndexOfFirst(a, v, '=');
      IndexOfFirst(b, w, '=');
      assert (a + "=" + v)[..|a|] == a && (b + "=" + w)[..|b|] == b;
    }
  }

  lemma PrefixHas(s: string, p: string, c: char)
    ensures HasPrefix(s, p) && c in p ==> c in s
  {
  }

  lemma DashesFirst(s: string, t: string)
    ensures ("--" + s == "--" + t) == (s == t) && HasPrefix("--" + s, "--" + t) == HasPrefix(s, t)
  {
    assert ("--" + s)[2..] == s && ("--" + t)[2..] == t;
    assert forall i :: 0 <= i < |s| ==> ("--" + s)[i + 2] == s[i];
    assert forall i :: 0 <= i < |t| ==> ("--" + t)[i + 2] == t[i];
    if HasPrefix("--" + s, "--" + t) {
      assert forall i :: 0 <= i < |t| ==> t[i] == ("--" + t)[i + 2] == ("--" + s)[i + 2] == s[i];
    }
  }

  lemma LongIsNot(name: string, v: string, long: string, short: char)
    requires '=' !in name && '=' !in long && name != long && short != '-'
    ensures !TokenIs("--" + name, "--" + long, ['-', short])
    ensures !TokenIs("--" + name + "=" + v, "--" + long, ['-', short])
  {
    var full := name + "=" + v;
    assert ("--" + name)[1] == ("--" + full)[1] == '-' && "--" + name + "=" + v == "--" + full;
    assert "--" + long + "=" == "--" + (long + "=");
    assert '=' in long + "=" && '=' in full by {
      assert (long + "=")[|long|] == '=' && full[|name|] == '=';
    }
    DashesFirst(name, long);
    DashesFirst(name, long + "=");
    PrefixHas(name, long + "=", '=');
    DashesFirst(full, long);
    DashesFirst(full, long + "=");
    BeforeEquals(name, v, long);
  }

  /** A long flag token with a name of its own is handed to parseLongOrShort. */
  lemma LongIsParsed(g: Grammar, path: Path, name: string, v: string, rest: seq<string>, st: State)
    requires WellNamed(g.root) && IsPath(g.root, path) && OwnName(g, name)
    ensures ParseFrom(g, path, ["--" + name] + rest, st)
      == Continue(g, path, LongOrShort(g, path, "--" + name, rest, st))
    ensures ParseFrom(g, path, ["--" + name + "=" + v] + rest, st)
      == Continue(g, path, LongOrShort(g, path, "--" + name + "=" + v, rest, st))
  {
    hide WellNamed, IsPath, ParseFrom, LongOrShort, TokenIs;
    var bare, full := "--" + name, "--" + name + "=" + v;
    assert "--" + "help" == "--help" && "--" + "version" == "--version";
    LongIsNot(name, v, "help", 'h');
    if g.hasVersion {
      LongIsNot(name, v, "version", 'V');
    }
    assert |bare| > 2 && |full| > 2 && bare[..2] == "--" && full[..2] == "--";
    FlagTokenIsParsed(g, path, bare, rest, st);
    FlagTokenIsParsed(g, path, full, rest, st);
  }

  /**
   --name v means --name=v for every value that does not look like a flag; one that does is a missing value,
   and only the inline form can bind it.
   */
  lemma InlineMeansNext(g: Grammar, path: Path, name: string, v: string, rest: seq<string>, st: State)
    requires WellNamed(g.root) && IsPath(g.root, path) && OwnName(g, name)
    requires var id := ResolveFlag(g.root, path, name); id.Some? && MetaOf(g.root, id.value).kind != KBool
    ensures !LooksLikeFlag(v) ==>
      ParseFrom(g, path, ["--" + name, v] + rest, st) == ParseFrom(g, path, ["--" + name + "=" + v] + rest, st)
    ensures LooksLikeFlag(v) ==>
      ParseFrom(g, path, ["--" + name, v] + rest, st) == Outcome(st, Some(MissingValue("--" + name)))
  {
    hide WellNamed, IsPath, ParseFrom, SplitFlag, SetFlag, LooksLikeFlag, ResolveFlag, MetaOf;
    LongIsParsed(g, path, name, v, [v] + rest, st);
    LongIsParsed(g, path, name, v, rest, st);
    LongTokenSplits(name, v);
    assert ["--" + name, v] + rest == ["--" + name] + ([v] + rest);
    assert ([v] + rest)[1..] == rest;
    assert ("--" + name)[..2] == "--" && ("--" + name + "=" + v)[..2] == "--";
  }

  /** --no-name means --name=false and --no-name=v means --name with v turned over. */
  lemma NegationMeansInverse(g: Grammar, path: Path, name: string, v: string, rest: seq<string>, st: State)
    requires WellNamed(g.root) && IsPath(g.root, path) && OwnName(g, name)
    requires var id := ResolveFlag(g.root, path, name); id.Some? && MetaOf(g.root, id.value).kind == KBool
    requires ResolveFlag(g.root, path, "no-" + name).None?
    ensures ParseFrom(g, path, ["--no-" + name] + rest, st) == ParseFrom(g, path, ["--" + name + "=" + "false"] + rest, st)
    ensures ParseBool(v).Some? ==>
      ParseFrom(g, path, ["--no-" + name + "=" + v] + rest, st)
      == ParseFrom(g, path, ["--" + name + "=" + (if ParseBool(v) == Some(Bool(true)) then "false" else "true")] + rest, st)
  {
    hide WellNamed, IsPath, ParseFrom, SplitFlag, SetFlag, ParseBool, ResolveFlag, MetaOf;
    var no, turned := "no-" + name, if ParseBool(v) == Some(Bool(true)) then "false" else "true";
    assert no[0] == 'n' && no[..3] == "no-" && no[3..] == name;
    assert "--" + no == "--no-" + name;
    LongIsParsed(g, path, no, v, rest, st);
    LongIsParsed(g, path, name, "false", rest, st);
    LongIsParsed(g, path, name, turned, rest, st);
    LongTokenSplits(no, v);
    LongTokenSplits(name, "false");
    LongTokenSplits(name, turned);
    assert ("--" + name + "=" + "false")[..2] == "--" == ("--" + name + "=" + turned)[..2];
    assert ("--" + no)[..2] == "--" == ("--" + no + "=" + v)[..2];
  }
}
