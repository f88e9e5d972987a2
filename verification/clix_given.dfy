/**
 The values a command line gives to flags, read off its tokens without any state, and what a parse leaves in marks
 and targets told from them: each flag holds the last value it was given.
 */
module ClixGiven {
  import opened Wrappers
  import opened ClixGrammar
  import opened ClixDefaults
  import opened ClixGrouping
  import opened ClixValues
  import opened ClixSpelling

  /** A token gave flag id the text raw. */
  datatype Setting = Setting(id: FlagId, raw: string)

  /** What one flag token gives, the tokens left to read, and whether the parse stops at it. */
  datatype Reading = Reading(settings: seq<Setting>, rest: seq<string>, stopped: bool)

  const Stopped := Reading([], [], true)

  /** The text parses as a value of the flag, and its enumeration, if any, has that value. */
  predicate Accepted(g: Grammar, s: Setting) {
    InTree(g.root, s.id)
    && var meta := MetaOf(g.root, s.id);
       var v := ParseValue(g, meta.kind, s.raw);
       v.Some? && (meta.enums == [] || v.value in meta.enums)
  }

  predicate AllAccepted(g: Grammar, settings: seq<Setting>) {
    forall s :: s in settings ==> Accepted(g, s)
  }

  // ----- reading tokens

  function Gives(g: Grammar, id: FlagId, raw: string, rest: seq<string>): (r: Reading)
    requires InTree(g.root, id)
    ensures AllAccepted(g, r.settings)
  {
    if Accepted(g, Setting(id, raw)) then Reading([Setting(id, raw)], rest, false) else Stopped
  }

  function NextGives(g: Grammar, id: FlagId, rest: seq<string>): (r: Reading)
    requires InTree(g.root, id)
    ensures AllAccepted(g, r.settings)
  {
    if rest == [] || LooksLikeFlag(rest[0]) then Stopped else Gives(g, id, rest[0], rest[1..])
  }

  function GroupGives(g: Grammar, path: Path, chars: string, rest: seq<string>): (r: Reading)
    requires IsPath(g.root, path)
    ensures AllAccepted(g, r.settings)
  {
    if chars == [] then
      Reading([], rest, false)
    else
      var short := StringOfByte(chars[0]);
      var id := if IsOwn(g, short) then ByShort(g.root, path, short) else None;
      if id.None? then
        Stopped
      else if MetaOf(g.root, id.value).kind == KBool then
        var first := Gives(g, id.value, "true", rest);
        if first.stopped then first
        else
          var more := GroupGives(g, path, chars[1..], rest);
          more.(settings := first.settings + more.settings)
      else if |chars| > 1 then
        Gives(g, id.value, chars[1..], rest)
      else
        NextGives(g, id.value, rest)
  }

  function NegationGives(g: Grammar, id: FlagId, inline: Option<string>, rest: seq<string>): (r: Reading)
    requires InTree(g.root, id)
    ensures AllAccepted(g, r.settings)
  {
    if inline.None? then Gives(g, id, "false", rest)
    else if ParseBool(inline.value).None? then Stopped
    else Gives(g, id, if ParseBool(inline.value) == Some(Bool(true)) then "false" else "true", rest)
  }

  function LongOrShortGives(g: Grammar, path: Path, arg: string, rest: seq<string>): (r: Reading)
    requires IsPath(g.root, path)
    ensures AllAccepted(g, r.settings)
  {
    var (given, inline) := SplitFlag(arg);
    var long := HasPrefix(arg, "--");
    var name := if long then Some(given) else ResolveShort(g.root, path, given);
    var id := if name.Some? then ResolveFlag(g.root, path, name.value) else None;
    var negated := if long && HasPrefix(given, "no-") then ResolveFlag(g.root, path, given[3..]) else None;
    if id.Some? then
      if inline.Some? then Gives(g, id.value, inline.value, rest)
      else if MetaOf(g.root, id.value).kind == KBool then Gives(g, id.value, "true", rest)
      else NextGives(g, id.value, rest)
    else if negated.Some? && MetaOf(g.root, negated.value).kind == KBool then
      NegationGives(g, negated.value, inline, rest)
    else
      Stopped
  }

  function TokenGives(g: Grammar, path: Path, arg: string, rest: seq<string>): (r: Reading)
    requires IsPath(g.root, path) && HasPrefix(arg, "-")
    ensures AllAccepted(g, r.settings)
  {
    if IsGroup(arg) then GroupGives(g, path, arg[1..], rest) else LongOrShortGives(g, path, arg, rest)
  }

  // ----- holding what was given

  datatype Held = Held(marks: set<FlagId>, targets: map<nat, Value>)

  function HeldBy(st: State): Held {
    Held(st.marks, st.targets)
  }

  function Hold(g: Grammar, h: Held, s: Setting): Held
    requires Accepted(g, s)
  {
    var meta := MetaOf(g.root, s.id);
    Held(h.marks + {s.id}, h.targets[meta.target := ParseValue(g, meta.kind, s.raw).value])
  }

  function HoldAll(g: Grammar, h: Held, settings: seq<Setting>): Held
    requires AllAccepted(g, settings)
    decreases |settings|
  {
    if settings == [] then h else HoldAll(g, Hold(g, h, settings[0]), settings[1..])
  }

  lemma {:induction false} HoldJoin(g: Grammar, h: Held, a: seq<Setting>, b: seq<Setting>)
    requires AllAccepted(g, a) && AllAccepted(g, b)
    ensures AllAccepted(g, a + b) && HoldAll(g, h, a + b) == HoldAll(g, HoldAll(g, h, a), b)
    decreases |a|
  {
    hide Accepted, Hold;
    if a == [] {
      assert a + b == b;
    } else {
      HoldJoin(g, Hold(g, h, a[0]), a[1..], b);
      assert (a + b)[1..] == a[1..] + b;
    }
  }

  lemma HoldOne(g: Grammar, h: Held, s: Setting)
    requires Accepted(g, s)
    ensures AllAccepted(g, [s]) && HoldAll(g, h, [s]) == Hold(g, h, s)
  {
    hide Hold, Accepted;
    assert [s][1..] == [];
  }

  // ----- a token leaves what it gives

  /** The flow f of a token read as r, from state st. */
  ghost predicate Leaves(g: Grammar, st: State, f: Flow, r: Reading) {
    && AllAccepted(g, r.settings)
    && HeldBy(f.state) == HoldAll(g, HeldBy(st), r.settings)
    && (f.error.Some? <==> r.stopped) && (f.error.None? ==> f.rest == r.rest)
  }

  lemma SetLeaves(g: Grammar, st: State, id: FlagId, raw: string, rest: seq<string>)
    requires InTree(g.root, id)
    ensures Leaves(g, st, Then(SetFlag(g, st, id, raw), rest), Gives(g, id, raw, rest))
    ensures SetFlag(g, st, id, raw).error.Some? <==> Gives(g, id, raw, rest).stopped
    ensures HeldBy(SetFlag(g, st, id, raw).state) == HoldAll(g, HeldBy(st), Gives(g, id, raw, rest).settings)
  {
    hide ParseValue, MetaOf, InTree;
    if Accepted(g, Setting(id, raw)) {
      HoldOne(g, HeldBy(st), Setting(id, raw));
    }
  }

  lemma NextLeaves(g: Grammar, st: State, id: FlagId, token: string, rest: seq<string>)
    requires InTree(g.root, id)
    ensures Leaves(g, st, SetFromNext(g, st, id, token, rest), NextGives(g, id, rest))
  {
    hide InTree, SetFlag, Gives, LooksLikeFlag, Accepted;
    if rest != [] && !LooksLikeFlag(rest[0]) {
      SetLeaves(g, st, id, rest[0], rest[1..]);
    }
  }

  lemma StopLeaves(g: Grammar, st: State, after: State, e: Error)
    requires HeldBy(after) == HeldBy(st)
    ensures Leaves(g, st, Stop(after, e), Stopped)
  {
  }

  lemma {:induction false} GroupLeaves(g: Grammar, path: Path, chars: string, rest: seq<string>, st: State)
    requires IsPath(g.root, path)
    ensures Leaves(g, st, Group(g, path, chars, rest, st), GroupGives(g, path, chars, rest))
    decreases |chars|
  {
    hide IsPath, InTree, StringOfByte, ByShort, SetFlag, SetFromNext, MetaOf, Gives, NextGives, Leaves, AllAccepted, HoldAll;
    if chars == [] {
      NothingLeft(g, st, rest);
    } else {
      var short := StringOfByte(chars[0]);
      var id := ByShort(g.root, path, short);
      StopLeaves(g, st, st.(matched := path), Help);
      StopLeaves(g, st, st.(matched := path), Version);
      StopLeaves(g, st, st, UnknownFlag("-" + short));
      if IsOwn(g, short) && id.Some? {
        if MetaOf(g.root, id.value).kind == KBool {
          var o := SetFlag(g, st, id.value, "true");
          SetLeaves(g, st, id.value, "true", rest);
          if o.error.None? {
            GroupLeaves(g, path, chars[1..], rest, o.state);
            SwitchThenMore(g, st, o.state, Gives(g, id.value, "true", rest),
                           Group(g, path, chars[1..], rest, o.state), GroupGives(g, path, chars[1..], rest));
          }
        } else if |chars| > 1 {
          SetLeaves(g, st, id.value, chars[1..], rest);
        } else {
          NextLeaves(g, st, id.value, "-" + short, rest);
        }
      }
    }
  }

  lemma NothingLeft(g: Grammar, st: State, rest: seq<string>)
    ensures Leaves(g, st, Flow(st, rest, None), Reading([], rest, false))
  {
  }

  lemma SwitchThenMore(g: Grammar, st: State, mid: State, first: Reading, f: Flow, more: Reading)
    requires AllAccepted(g, first.settings) && HeldBy(mid) == HoldAll(g, HeldBy(st), first.settings)
    requires Leaves(g, mid, f, more)
    ensures Leaves(g, st, f, more.(settings := first.settings + more.settings))
  {
    hide HoldAll, AllAccepted;
    HoldJoin(g, HeldBy(st), first.settings, more.settings);
  }

  lemma NegationLeaves(g: Grammar, st: State, id: FlagId, name: string, inline: Option<string>, rest: seq<string>)
    requires InTree(g.root, id)
    ensures Leaves(g, st, Then(ApplyNegation(g, st, id, name, inline), rest), NegationGives(g, id, inline, rest))
  {
    hide InTree, SetFlag, Gives, ParseBool, Leaves;
    SetLeaves(g, st, id, "false", rest);
    SetLeaves(g, st, id, "true", rest);
    if inline.Some? {
      StopLeaves(g, st, st, InvalidValue(name, inline.value));
    }
  }

  lemma LongOrShortLeaves(g: Grammar, path: Path, arg: string, rest: seq<string>, st: State)
    requires IsPath(g.root, path)
    ensures Leaves(g, st, LongOrShort(g, path, arg, rest, st), LongOrShortGives(g, path, arg, rest))
  {
    hide IsPath, InTree, SplitFlag, ResolveFlag, ResolveShort, SetFlag, SetFromNext, ApplyNegation, MetaOf, Gives, NextGives,
      NegationGives, Leaves;
    var (given, inline) := SplitFlag(arg);
    var long := HasPrefix(arg, "--");
    var name := if long then Some(given) else ResolveShort(g.root, path, given);
    StopLeaves(g, st, st, UnknownFlag(arg));
    if name.Some? {
      var id := ResolveFlag(g.root, path, name.value);
      if id.Some? {
        SetLeaves(g, st, id.value, "true", rest);
        SetLeaves(g, st, id.value, if inline.Some? then inline.value else "", rest);
        NextLeaves(g, st, id.value, arg, rest);
      } else if long && HasPrefix(name.value, "no-") {
        var negated := ResolveFlag(g.root, path, name.value[3..]);
        if negated.Some? {
          NegationLeaves(g, st, negated.value, name.value, inline, rest);
        }
      }
    }
  }

  lemma TokenLeaves(g: Grammar, path: Path, arg: string, rest: seq<string>, st: State)
    requires IsPath(g.root, path) && HasPrefix(arg, "-")
    ensures Leaves(g, st, FlagToken(g, path, arg, rest, st), TokenGives(g, path, arg, rest))
  {
    hide IsPath, Group, GroupGives, LongOrShort, LongOrShortGives, IsGroup, Leaves;
    if IsGroup(arg) {
      GroupLeaves(g, path, arg[1..], rest, st);
    } else {
      LongOrShortLeaves(g, path, arg, rest, st);
    }
  }

  /** A token leaves at most the tokens behind it. */
  lemma TokenShrinks(g: Grammar, path: Path, arg: string, rest: seq<string>)
    requires IsPath(g.root, path) && HasPrefix(arg, "-")
    ensures var r := TokenGives(g, path, arg, rest); !r.stopped ==> |r.rest| <= |rest|
  {
    hide IsPath, FlagToken, TokenGives, AllAccepted, HoldAll;
    var st := State(map[], {}, map[], []);
    TokenLeaves(g, path, arg, rest, st);
    FlagTokenTakesAtMostOne(g, path, arg, rest, st);
  }

  // ----- whole command lines

  /** Everything the arguments give, in order, up to where the parse stops. */
  function Given(g: Grammar, path: Path, args: seq<string>): (r: seq<Setting>)
    requires WellNamed(g.root) && IsPath(g.root, path)
    ensures AllAccepted(g, r)
    decreases |args|
  {
    if args == [] || args[0] == "--" then
      []
    else
      var arg, rest, cmd := args[0], args[1..], At(g.root, path);
      if IsHelpToken(arg) || (g.hasVersion && IsVersionToken(arg)) then []
      else if Descends(g, path, arg) then
        SubIsPath(g.root, path, arg);
        Given(g, path + [cmd.names[arg]], rest)
      else if arg == "-" || !HasPrefix(arg, "-") then
        if Routes(cmd) then [] else Given(g, path, rest)
      else
        TokenShrinks(g, path, arg, rest);
        var r := TokenGives(g, path, arg, rest);
        if r.stopped then r.settings else r.settings + Given(g, path, r.rest)
  }

  /** A parse leaves in marks and targets exactly what the arguments give. */
  lemma {:induction false} ParseHoldsGiven(g: Grammar, path: Path, args: seq<string>, st: State)
    requires WellNamed(g.root) && IsPath(g.root, path)
    ensures HeldBy(ParseFrom(g, path, args, st).state) == HoldAll(g, HeldBy(st), Given(g, path, args))
    decreases |args|
  {
    hide WellNamed, IsPath, CheckRequired, FlagToken, TokenGives, IsHelpToken, IsVersionToken, At, AllAccepted, HoldAll;
    HoldNothing(g, HeldBy(st));
    if args != [] && args[0] != "--" {
      var arg, rest := args[0], args[1..];
      if IsHelpToken(arg) || (g.hasVersion && IsVersionToken(arg)) {
      } else if Descends(g, path, arg) {
        SubIsPath(g.root, path, arg);
        var sub := path + [At(g.root, path).names[arg]];
        ParseHoldsGiven(g, sub, rest, st.(matched := sub));
      } else if arg == "-" || !HasPrefix(arg, "-") {
        ParseHoldsGiven(g, path, rest, AddArgs(st, path, [arg]));
      } else {
        var f, r := FlagToken(g, path, arg, rest, st), TokenGives(g, path, arg, rest);
        TokenLeaves(g, path, arg, rest, st);
        TokenShrinks(g, path, arg, rest);
        if f.error.None? {
          ParseHoldsGiven(g, path, f.rest, f.state);
          HoldJoin(g, HeldBy(st), r.settings, Given(g, path, r.rest));
        }
      }
    }
  }

  lemma HoldNothing(g: Grammar, h: Held)
    ensures AllAccepted(g, []) && HoldAll(g, h, []) == h
  {
  }

  /** The text flag id was given last, if any. */
  function LastGiven(settings: seq<Setting>, id: FlagId): Option<string> {
    if settings == [] then None
    else
      var later := LastGiven(settings[1..], id);
      if later.Some? then later else if settings[0].id == id then Some(settings[0].raw) else None
  }

  lemma {:induction false} LastGivenFinds(settings: seq<Setting>, id: FlagId)
    ensures LastGiven(settings, id).Some? <==> exists s :: s in settings && s.id == id
    ensures LastGiven(settings, id).Some? ==> Setting(id, LastGiven(settings, id).value) in settings
  {
    if settings != [] {
      LastGivenFinds(settings[1..], id);
      assert settings == [settings[0]] + settings[1..];
    }
  }

  lemma {:induction false} HoldMarks(g: Grammar, h: Held, settings: seq<Setting>, id: FlagId)
    requires AllAccepted(g, settings)
    ensures id in HoldAll(g, h, settings).marks <==> id in h.marks || LastGiven(settings, id).Some?
    decreases |settings|
  {
    hide Accepted;
    if settings != [] {
      HoldMarks(g, Hold(g, h, settings[0]), settings[1..], id);
    }
  }

  // Two assignments hold the same value at a target, or none at all.
  ghost predicate SameAt(m: map<nat, Value>, n: map<nat, Value>, t: nat) {
    && (t in m <==> t in n)
    && (t in m ==> m[t] == n[t])
  }

  lemma {:induction false} HoldTargets(g: Grammar, h: Held, settings: seq<Setting>, id: FlagId)
    requires AllAccepted(g, settings) && DistinctTargets(g.root) && InTree(g.root, id)
    ensures var meta, m := MetaOf(g.root, id), HoldAll(g, h, settings).targets;
      match LastGiven(settings, id)
      case Some(raw) => meta.target in m && Some(m[meta.target]) == ParseValue(g, meta.kind, raw)
      case None => SameAt(m, h.targets, meta.target)
    decreases |settings|
  {
    hide ParseValue, MetaOf, InTree;
    if settings != [] {
      var next := Hold(g, h, settings[0]);
      assert Accepted(g, settings[0]);
      HoldTargets(g, next, settings[1..], id);
      LastGivenFinds(settings[1..], id);
    }
  }

  /**
   After any command line, failing ones included: a flag is marked if and only if a token gave it a value, and, with
   distinct targets, its target holds the last such value, or the default if there was none.
   */
  lemma FlagsHoldLastGiven(g: Grammar, argv: seq<string>, id: FlagId)
    requires WellNamed(g.root) && DistinctTargets(g.root) && InTree(g.root, id)
    ensures var st, given := ParseFrom(g, [], argv, InitState(g.root)).state, Given(g, [], argv);
      var meta := MetaOf(g.root, id);
      && (id in st.marks <==> exists s :: s in given && s.id == id)
      && meta.target in st.targets
      && match LastGiven(given, id)
         case Some(raw) => Some(st.targets[meta.target]) == ParseValue(g, meta.kind, raw)
         case None => st.targets[meta.target] == meta.def
  {
    hide WellNamed, ParseFrom, Given, HoldAll, ParseValue, DistinctTargets, AllAccepted, Agreeing, Honest;
    var init := InitState(g.root);
    var given := Given(g, [], argv);
    ParseHoldsGiven(g, [], argv, init);
    HoldMarks(g, HeldBy(init), given, id);
    HoldTargets(g, HeldBy(init), given, id);
    LastGivenFinds(given, id);
    DistinctIsAgreeing(g.root);
    FreshIsHonest(g.root);
    assert HonestAt(g.root, init, id) by {
      HonestHere(g.root, init, id);
    }
  }

  lemma HonestHere(root: Command, st: State, id: FlagId)
    requires Honest(root, st) && InTree(root, id)
    ensures HonestAt(root, st, id)
  {
  }

  /** --name=v gives v to the flag that name is, and nothing else; refused, it ends the giving. */
  lemma InlineGives(g: Grammar, path: Path, name: string, v: string, rest: seq<string>)
    requires WellNamed(g.root) && IsPath(g.root, path) && OwnName(g, name) && ResolveFlag(g.root, path, name).Some?
    ensures var s := Setting(ResolveFlag(g.root, path, name).value, v);
      Given(g, path, ["--" + name + "=" + v] + rest) == if Accepted(g, s) then [s] + Given(g, path, rest) else []
  {
    hide WellNamed, IsPath, SplitFlag, ResolveFlag, ResolveShort, Accepted, At, TokenIs;
    var arg := "--" + name + "=" + v;
    LongTokenSplits(name, v);
    assert "--" + "help" == "--help" && "--" + "version" == "--version";
    LongIsNot(name, v, "help", 'h');
    if g.hasVersion {
      LongIsNot(name, v, "version", 'V');
    }
    assert |arg| > 2 && arg[..2] == "--" && ([arg] + rest)[1..] == rest && arg[0] == '-';
    assert !IsGroup(arg) && HasPrefix(arg, "-");
  }
}
