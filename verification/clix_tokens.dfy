/** Where tokens end up: positionals, the delimiter, required flags and values that stay honest. */
module ClixTokens {
  import opened Wrappers
  import opened ClixGrammar
  import opened ClixDefaults
  import opened ClixGrouping

  // ----- what one flag token leaves alone

  lemma {:induction false} GroupKeepsArgs(g: Grammar, path: Path, chars: string, rest: seq<string>, st: State)
    requires IsPath(g.root, path) && st.matched == path
    ensures var f := Group(g, path, chars, rest, st);
      f.state.args == st.args && f.state.matched == path && (f.error.Some? ==> !f.error.value.Required?)
    decreases |chars|
  {
    hide IsPath, StringOfByte, ByShort, LooksLikeFlag, ParseValue, At;
    if chars != [] {
      var id := ByShort(g.root, path, StringOfByte(chars[0]));
      if id.Some? && MetaOf(g.root, id.value).kind == KBool {
        GroupKeepsArgs(g, path, chars[1..], rest, SetFlag(g, st, id.value, "true").state);
      }
    }
  }

  lemma LongOrShortKeepsArgs(g: Grammar, path: Path, arg: string, rest: seq<string>, st: State)
    requires IsPath(g.root, path) && st.matched == path
    ensures var f := LongOrShort(g, path, arg, rest, st);
      f.state.args == st.args && f.state.matched == path && (f.error.Some? ==> !f.error.value.Required?)
  {
    hide IsPath, SplitFlag, ResolveFlag, ResolveShort, LooksLikeFlag, ParseValue, At, ParseBool;
  }

  lemma FlagTokenKeepsArgs(g: Grammar, path: Path, arg: string, rest: seq<string>, st: State)
    requires IsPath(g.root, path) && HasPrefix(arg, "-") && st.matched == path
    ensures var f := FlagToken(g, path, arg, rest, st);
      f.state.args == st.args && f.state.matched == path && (f.error.Some? ==> !f.error.value.Required?)
  {
    hide IsPath, Group, LongOrShort, IsGroup;
    if IsGroup(arg) {
      GroupKeepsArgs(g, path, arg[1..], rest, st);
    } else {
      LongOrShortKeepsArgs(g, path, arg, rest, st);
    }
  }

  // ----- positionals are an in-order part of the arguments

  predicate Subsequence(a: seq<string>, b: seq<string>) {
    a == [] || (b != [] && ((a[0] == b[0] && Subsequence(a[1..], b[1..])) || Subsequence(a, b[1..])))
  }

  lemma {:induction false} SubsequenceSelf(a: seq<string>)
    ensures Subsequence(a, a)
  {
    if a != [] {
      SubsequenceSelf(a[1..]);
    }
  }

  lemma SubsequenceTake(x: string, a: seq<string>, b: seq<string>)
    requires Subsequence(a, b)
    ensures Subsequence([x] + a, [x] + b) && Subsequence(a, [x] + b)
  {
    assert ([x] + a)[1..] == a && ([x] + b)[1..] == b;
  }

  /** The positionals of the commands from the root to path, joined. */
  function Positionals(st: State, path: Path): seq<string> {
    if path == [] then ArgsOf(st, []) else Positionals(st, path[..|path| - 1]) + ArgsOf(st, path)
  }

  /** Only commands from the root to path have positionals. */
  predicate OnChain(st: State, path: Path) {
    st.matched == path && forall p :: p in st.args ==> p <= path
  }

  lemma {:induction false} PositionalsAgree(a: State, b: State, path: Path)
    requires forall p :: p <= path ==> ArgsOf(a, p) == ArgsOf(b, p)
    ensures Positionals(a, path) == Positionals(b, path)
    decreases |path|
  {
    if path != [] {
      PositionalsAgree(a, b, path[..|path| - 1]);
    }
  }

  lemma AddArgsAppends(st: State, path: Path, more: seq<string>)
    requires OnChain(st, path)
    ensures OnChain(AddArgs(st, path, more), path)
    ensures Positionals(AddArgs(st, path, more), path) == Positionals(st, path) + more
  {
    if path != [] {
      PositionalsAgree(st, AddArgs(st, path, more), path[..|path| - 1]);
    }
  }

  lemma SubPositionals(st: State, path: Path, k: nat)
    requires OnChain(st, path)
    ensures OnChain(st.(matched := path + [k]), path + [k])
    ensures Positionals(st.(matched := path + [k]), path + [k]) == Positionals(st, path)
  {
    var sub := path + [k];
    assert sub[..|sub| - 1] == path;
    assert sub !in st.args;
    PositionalsAgree(st, st.(matched := sub), path);
  }

  /** The parse adds to the positionals an in-order part of its arguments. */
  lemma {:induction false} PositionalsGrow(g: Grammar, path: Path, args: seq<string>, st: State)
    returns (kept: seq<string>)
    requires WellNamed(g.root) && IsPath(g.root, path) && OnChain(st, path)
    ensures var o := ParseFrom(g, path, args, st);
      OnChain(o.state, o.state.matched) && path <= o.state.matched
      && Positionals(o.state, o.state.matched) == Positionals(st, path) + kept && Subsequence(kept, args)
    decreases |args|, 0
  {
    hide WellNamed, IsPath, OnChain, Positionals, AddArgs, CheckRequired, Subsequence, FlagToken, IsHelpToken,
      IsVersionToken, At;
    kept := [];
    NothingKept(args);
    SameChain(st, path);
    if args != [] {
      var arg, rest := args[0], args[1..];
      assert args == [arg] + rest;
      if arg == "--" {
        kept := rest;
        AddArgsAppends(st, path, rest);
        SubsequenceSelf(rest);
        SubsequenceTake(arg, rest, rest);
      } else if IsHelpToken(arg) || (g.hasVersion && IsVersionToken(arg)) {
      } else if Descends(g, path, arg) {
        SubIsPath(g.root, path, arg);
        var k := At(g.root, path).names[arg];
        SubPositionals(st, path, k);
        kept := PositionalsGrow(g, path + [k], rest, st.(matched := path + [k]));
        SubsequenceTake(arg, kept, rest);
      } else if arg == "-" || !HasPrefix(arg, "-") {
        if !Routes(At(g.root, path)) {
          AddArgsAppends(st, path, [arg]);
          var more := PositionalsGrow(g, path, rest, AddArgs(st, path, [arg]));
          kept := [arg] + more;
          SubsequenceTake(arg, more, rest);
          assert Positionals(st, path) + [arg] + more == Positionals(st, path) + kept;
        }
      } else {
        kept := PositionalsPast(g, path, arg, rest, st);
      }
    }
  }

  lemma NothingKept(args: seq<string>)
    ensures Subsequence([], args)
  {
  }

  lemma SameChain(st: State, path: Path)
    requires OnChain(st, path)
    ensures st.(matched := path) == st && st.matched == path && Positionals(st, path) == Positionals(st, path) + []
  {
  }

  lemma SameArgs(st: State, after: State, path: Path)
    requires OnChain(st, path) && after.args == st.args && after.matched == path
    ensures OnChain(after, path) && Positionals(after, path) == Positionals(st, path)
  {
    PositionalsAgree(st, after, path);
  }

  /** PositionalsGrow over one flag token. */
  lemma {:induction false} PositionalsPast(g: Grammar, path: Path, arg: string, rest: seq<string>, st: State)
    returns (kept: seq<string>)
    requires WellNamed(g.root) && IsPath(g.root, path) && OnChain(st, path) && HasPrefix(arg, "-")
    ensures var o := Continue(g, path, FlagToken(g, path, arg, rest, st));
      OnChain(o.state, o.state.matched) && path <= o.state.matched
      && Positionals(o.state, o.state.matched) == Positionals(st, path) + kept && Subsequence(kept, [arg] + rest)
    decreases |rest|, 1
  {
    hide WellNamed, IsPath, OnChain, Positionals, FlagToken, ParseFrom, Subsequence;
    var f := FlagToken(g, path, arg, rest, st);
    SameChain(st, path);
    FlagTokenKeepsArgs(g, path, arg, rest, st);
    FlagTokenTakesAtMostOne(g, path, arg, rest, st);
    SameArgs(st, f.state, path);
    kept := [];
    NothingKept([arg] + rest);
    if f.error.None? {
      kept := PositionalsGrow(g, path, f.rest, f.state);
      if f.rest != rest {
        assert rest == [rest[0]] + f.rest;
        SubsequenceTake(rest[0], kept, f.rest);
      }
      SubsequenceTake(arg, kept, rest);
    }
  }

  /** Tokens are conserved: what the matched chain holds after New or Reset is an in-order part of argv. */
  lemma PositionalsComeFromArgv(g: Grammar, argv: seq<string>)
    requires WellNamed(g.root)
    ensures var o := ParseFrom(g, [], argv, InitState(g.root));
      Subsequence(Positionals(o.state, o.state.matched), argv)
      && forall p :: p in o.state.args ==> p <= o.state.matched
  {
    hide ParseFrom, WellNamed, Subsequence;
    var kept := PositionalsGrow(g, [], argv, InitState(g.root));
    assert Positionals(InitState(g.root), []) + kept == kept;
  }

  // ----- the delimiter

  /** The parse reached the end of its tokens: it succeeded or only a required flag was missing. */
  predicate Finished(o: Outcome) {
    o.error.None? || o.error.value.Required?
  }

  function Tail(ps: seq<string>): seq<string> {
    ["--"] + ps
  }

  /** f, with tail behind what is left to parse. */
  function Extended(f: Flow, tail: seq<string>): Flow {
    if f.error.Some? then f else f.(rest := f.rest + tail)
  }

  lemma SetFromNextExtends(g: Grammar, st: State, id: FlagId, token: string, rest: seq<string>, ps: seq<string>)
    requires InTree(g.root, id)
    ensures SetFromNext(g, st, id, token, rest + Tail(ps)) == Extended(SetFromNext(g, st, id, token, rest), Tail(ps))
  {
    hide IsPath, At, SetFlag;
    if rest == [] {
      assert (rest + Tail(ps))[0] == "--";
    } else {
      assert (rest + Tail(ps))[0] == rest[0] && (rest + Tail(ps))[1..] == rest[1..] + Tail(ps);
    }
  }

  lemma {:induction false} GroupExtends(g: Grammar, path: Path, chars: string, rest: seq<string>, ps: seq<string>,
                                        st: State)
    requires IsPath(g.root, path)
    ensures Group(g, path, chars, rest + Tail(ps), st) == Extended(Group(g, path, chars, rest, st), Tail(ps))
    decreases |chars|
  {
    hide IsPath, StringOfByte, ByShort, SetFromNext, SetFlag, At, Tail;
    if chars != [] {
      var id := ByShort(g.root, path, StringOfByte(chars[0]));
      if id.Some? {
        SetFromNextExtends(g, st, id.value, "-" + StringOfByte(chars[0]), rest, ps);
        if MetaOf(g.root, id.value).kind == KBool {
          GroupExtends(g, path, chars[1..], rest, ps, SetFlag(g, st, id.value, "true").state);
        }
      }
    }
  }

  lemma LongOrShortExtends(g: Grammar, path: Path, arg: string, rest: seq<string>, ps: seq<string>, st: State)
    requires IsPath(g.root, path)
    ensures LongOrShort(g, path, arg, rest + Tail(ps), st) == Extended(LongOrShort(g, path, arg, rest, st), Tail(ps))
  {
    hide IsPath, SplitFlag, ResolveFlag, ResolveShort, SetFromNext, SetFlag, At, Tail, ApplyNegation;
    var (given, inline) := SplitFlag(arg);
    var name := if HasPrefix(arg, "--") then Some(given) else ResolveShort(g.root, path, given);
    if name.Some? {
      var id := ResolveFlag(g.root, path, name.value);
      if id.Some? {
        SetFromNextExtends(g, st, id.value, arg, rest, ps);
      }
    }
  }

  lemma FlagTokenExtends(g: Grammar, path: Path, arg: string, rest: seq<string>, ps: seq<string>, st: State)
    requires IsPath(g.root, path) && HasPrefix(arg, "-")
    ensures FlagToken(g, path, arg, rest + Tail(ps), st) == Extended(FlagToken(g, path, arg, rest, st), Tail(ps))
  {
    hide IsPath, Group, LongOrShort, IsGroup, Tail;
    if IsGroup(arg) {
      GroupExtends(g, path, arg[1..], rest, ps, st);
    } else {
      LongOrShortExtends(g, path, arg, rest, ps, st);
    }
  }

  /** o, with ps appended to the matched command's positionals if the parse got that far. */
  function Appended(o: Outcome, ps: seq<string>): Outcome {
    if Finished(o) then Outcome(AddArgs(o.state, o.state.matched, ps), o.error) else o
  }

  /**
   Behind arguments without a delimiter, "--" and ps change nothing but the matched command's positionals,
   which gain exactly ps: same flags, targets, command and error, success or not.
   */
  lemma {:induction false} DelimiterOnlyAppends(g: Grammar, path: Path, args: seq<string>, ps: seq<string>, st: State)
    requires WellNamed(g.root) && IsPath(g.root, path) && st.matched == path && "--" !in args
    ensures ParseFrom(g, path, args + Tail(ps), st) == Appended(ParseFrom(g, path, args, st), ps)
    decreases |args|
  {
    hide WellNamed, IsPath, AddArgs, CheckRequired, FlagToken, IsHelpToken, IsVersionToken, At, Tail;
    if args == [] {
      assert args + Tail(ps) == ["--"] + ps by { TailIs(ps); }
      DelimiterEnds(g, path, ps, st);
    } else {
      var arg, rest := args[0], args[1..];
      assert (args + Tail(ps))[1..] == rest + Tail(ps) && (args + Tail(ps))[0] == arg;
      if IsHelpToken(arg) || (g.hasVersion && IsVersionToken(arg)) {
      } else if Descends(g, path, arg) {
        SubIsPath(g.root, path, arg);
        var sub := path + [At(g.root, path).names[arg]];
        DelimiterOnlyAppends(g, sub, rest, ps, st.(matched := sub));
      } else if arg == "-" || !HasPrefix(arg, "-") {
        if !Routes(At(g.root, path)) {
          assert AddArgs(st, path, [arg]).matched == path by { AddArgsMatched(st, path, [arg]); }
          DelimiterOnlyAppends(g, path, rest, ps, AddArgs(st, path, [arg]));
        }
      } else {
        var f := FlagToken(g, path, arg, rest, st);
        FlagTokenExtends(g, path, arg, rest, ps, st);
        FlagTokenKeepsArgs(g, path, arg, rest, st);
        FlagTokenTakesAtMostOne(g, path, arg, rest, st);
        if f.error.None? {
          DelimiterOnlyAppends(g, path, f.rest, ps, f.state);
        }
      }
    }
  }

  lemma TailIs(ps: seq<string>)
    ensures [] + Tail(ps) == ["--"] + ps
  {
  }

  lemma AddArgsMatched(st: State, path: Path, more: seq<string>)
    ensures AddArgs(st, path, more).matched == st.matched && AddArgs(st, path, more).marks == st.marks
  {
  }

  // ----- required flags

  /** Every required flag from the root to path has been given. */
  predicate RequiredGiven(root: Command, path: Path, marks: set<FlagId>)
    requires IsPath(root, path)
    decreases |path|
  {
    (forall i :: 0 <= i < |At(root, path).flags| && At(root, path).flags[i].required ==> FlagId(path, i) in marks)
    && (path == [] || RequiredGiven(root, path[..|path| - 1], marks))
  }

  lemma {:induction false} MissingInFinds(flags: seq<Flag>, path: Path, marks: set<FlagId>, i: nat)
    requires i <= |flags|
    ensures MissingIn(flags, path, marks, i).None? <==>
      forall j :: i <= j < |flags| && flags[j].required ==> FlagId(path, j) in marks
    decreases |flags| - i
  {
    if i < |flags| {
      MissingInFinds(flags, path, marks, i + 1);
    }
  }

  lemma {:induction false} CheckRequiredFinds(root: Command, path: Path, marks: set<FlagId>)
    requires IsPath(root, path)
    ensures CheckRequired(root, path, marks).None? <==> RequiredGiven(root, path, marks)
    decreases |path|
  {
    hide At;
    MissingInFinds(At(root, path).flags, path, marks, 0);
    if path != [] {
      CheckRequiredFinds(root, path[..|path| - 1], marks);
    }
  }

  /** The first n flags of the command at path were given as far as they are required. */
  predicate GivenUpTo(root: Command, path: Path, marks: set<FlagId>, n: nat)
    requires IsPath(root, path) && n <= |At(root, path).flags|
  {
    forall i :: 0 <= i < n && At(root, path).flags[i].required ==> FlagId(path, i) in marks
  }

  lemma {:induction false} MissingInIsFirst(flags: seq<Flag>, path: Path, marks: set<FlagId>, i: nat) returns (k: nat)
    requires i <= |flags| && MissingIn(flags, path, marks, i).Some?
    ensures i <= k < |flags| && flags[k].required && FlagId(path, k) !in marks
    ensures MissingIn(flags, path, marks, i) == Some(Required(flags[k].name))
    ensures forall j :: i <= j < k && flags[j].required ==> FlagId(path, j) in marks
    decreases |flags| - i
  {
    k := i;
    if !flags[i].required || FlagId(path, i) in marks {
      k := MissingInIsFirst(flags, path, marks, i + 1);
    }
  }

  /** The error names the first required flag without a value of the nearest command on the way up that has one. */
  lemma {:induction false} NearestMissing(root: Command, path: Path, marks: set<FlagId>) returns (id: FlagId)
    requires IsPath(root, path) && CheckRequired(root, path, marks).Some?
    ensures InTree(root, id) && id.path <= path && MetaOf(root, id).required && id !in marks
    ensures CheckRequired(root, path, marks) == Some(Required(MetaOf(root, id).name))
    ensures GivenUpTo(root, id.path, marks, id.index)
    ensures forall q :: IsPath(root, q) && id.path <= q <= path && q != id.path ==>
      GivenUpTo(root, q, marks, |At(root, q).flags|)
    decreases |path|
  {
    hide At;
    var flags := At(root, path).flags;
    if MissingIn(flags, path, marks, 0).Some? {
      var k := MissingInIsFirst(flags, path, marks, 0);
      id := FlagId(path, k);
    } else {
      MissingInFinds(flags, path, marks, 0);
      id := NearestMissing(root, path[..|path| - 1], marks);
      forall q | IsPath(root, q) && id.path <= q <= path && q != id.path
        ensures GivenUpTo(root, q, marks, |At(root, q).flags|)
      {
        if q != path {
          assert q == path[..|q|] == path[..|path| - 1][..|q|];
        }
      }
    }
  }

  lemma {:induction false} FinishedChecksRequired(g: Grammar, path: Path, args: seq<string>, st: State)
    requires WellNamed(g.root) && IsPath(g.root, path) && st.matched == path
    ensures var o := ParseFrom(g, path, args, st);
      IsPath(g.root, o.state.matched)
      && (Finished(o) ==> o.error == CheckRequired(g.root, o.state.matched, o.state.marks))
    decreases |args|
  {
    hide WellNamed, IsPath, CheckRequired, FlagToken, IsHelpToken, IsVersionToken, At;
    if args != [] {
      var arg, rest := args[0], args[1..];
      if arg == "--" || IsHelpToken(arg) || (g.hasVersion && IsVersionToken(arg)) {
      } else if Descends(g, path, arg) {
        SubIsPath(g.root, path, arg);
        var sub := path + [At(g.root, path).names[arg]];
        FinishedChecksRequired(g, sub, rest, st.(matched := sub));
      } else if arg == "-" || !HasPrefix(arg, "-") {
        FinishedChecksRequired(g, path, rest, AddArgs(st, path, [arg]));
      } else {
        var f := FlagToken(g, path, arg, rest, st);
        FlagTokenKeepsArgs(g, path, arg, rest, st);
        FlagTokenTakesAtMostOne(g, path, arg, rest, st);
        if f.error.None? {
          FinishedChecksRequired(g, path, f.rest, f.state);
        }
      }
    }
  }

  /** A parse that reached its end succeeded exactly when every required flag in scope was given. */
  lemma SuccessIffRequiredGiven(g: Grammar, argv: seq<string>)
    requires WellNamed(g.root)
    ensures var o := ParseFrom(g, [], argv, InitState(g.root));
      IsPath(g.root, o.state.matched)
      && (Finished(o) ==> (o.error.None? <==> RequiredGiven(g.root, o.state.matched, o.state.marks)))
  {
    hide ParseFrom, WellNamed, RequiredGiven, CheckRequired;
    var o := ParseFrom(g, [], argv, InitState(g.root));
    FinishedChecksRequired(g, [], argv, InitState(g.root));
    CheckRequiredFinds(g.root, o.state.matched, o.state.marks);
  }
}
