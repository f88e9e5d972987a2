/** Writing default values: the order in which flags are registered and reset. */
module ClixDefaults {
  import opened ClixGrammar

  /** Write each flag's default to its target, first to last. */
  function Assign(flags: seq<Flag>, targets: map<nat, Value>): map<nat, Value> {
    if flags == [] then targets
    else Assign(flags[..|flags| - 1], targets)[flags[|flags| - 1].target := flags[|flags| - 1].def]
  }

  /** resetCommand's order: a command's own flags, then its subcommands. */
  function ResetOrder(cmd: Command): seq<Flag> {
    cmd.flags + KidsOrder(cmd, |cmd.kids|)
  }

  function KidsOrder(cmd: Command, n: nat): seq<Flag>
    requires n <= |cmd.kids|
    decreases cmd, 0, n
  {
    if n == 0 then [] else KidsOrder(cmd, n - 1) + ResetOrder(cmd.kids[n - 1])
  }

  /** Two flags bound to one target agree on its default; distinct targets are a special case. */
  predicate Agreeing(flags: seq<Flag>) {
    forall f, h :: f in flags && h in flags && f.target == h.target ==> f.def == h.def
  }

  /** v is the default of some flag bound to k. */
  predicate DefaultOf(flags: seq<Flag>, k: nat, v: Value) {
    exists f :: f in flags && f.target == k && f.def == v
  }

  /** What a fresh parser of this tree holds before it sees an argument. */
  function InitState(root: Command): State {
    State(map[], {}, Assign(ResetOrder(root), map[]), [])
  }

  lemma {:induction false} AssignConcat(a: seq<Flag>, b: seq<Flag>, targets: map<nat, Value>)
    ensures Assign(a + b, targets) == Assign(b, Assign(a, targets))
  {
    if b == [] {
      assert a + b == a;
    } else {
      var front := b[..|b| - 1];
      AssignConcat(a, front, targets);
      assert (a + b)[..|a + b| - 1] == a + front;
    }
  }

  /** Assign writes exactly the flags' targets, and each ends as the default of a flag bound to it. */
  lemma {:induction false} AssignWrites(flags: seq<Flag>, targets: map<nat, Value>)
    ensures var r := Assign(flags, targets);
      (forall f :: f in flags ==> f.target in r && DefaultOf(flags, f.target, r[f.target]))
      && (forall k :: k in targets ==> k in r)
      && forall k :: k in r ==> (k in targets && r[k] == targets[k]) || DefaultOf(flags, k, r[k])
  {
    if flags != [] {
      var front, last := flags[..|flags| - 1], flags[|flags| - 1];
      AssignWrites(front, targets);
      assert flags == front + [last];
      assert DefaultOf(flags, last.target, last.def);
      forall k, v | DefaultOf(front, k, v) ensures DefaultOf(flags, k, v) {
      }
    }
  }

  /** Once every target of the flags is reset, nothing is left of the earlier values. */
  lemma AssignForgets(flags: seq<Flag>, targets: map<nat, Value>)
    requires targets.Keys == Assign(flags, map[]).Keys
    ensures Assign(flags, targets) == Assign(flags, map[])
  {
    AssignOver(flags, targets);
  }

  lemma {:induction false} AssignOver(flags: seq<Flag>, targets: map<nat, Value>)
    ensures Assign(flags, targets) == targets + Assign(flags, map[])
  {
    if flags != [] {
      AssignOver(flags[..|flags| - 1], targets);
    }
  }

  /** With agreeing defaults the order does not matter. */
  lemma AgreeingDefaultsCommute(a: seq<Flag>, b: seq<Flag>)
    requires multiset(a) == multiset(b) && Agreeing(b)
    ensures Assign(a, map[]) == Assign(b, map[])
  {
    hide Assign;
    AssignWrites(a, map[]);
    AssignWrites(b, map[]);
    forall f ensures f in a <==> f in b {
      assert f in multiset(a) <==> f in multiset(b);
    }
  }

  /** A registration order that ends with f. */
  lemma EndingWith(flags: seq<Flag>, f: Flag) returns (order: seq<Flag>)
    requires f in flags
    ensures multiset(order) == multiset(flags)
    ensures f.target in Assign(order, map[]) && Assign(order, map[])[f.target] == f.def
  {
    var i :| 0 <= i < |flags| && flags[i] == f;
    var others := flags[..i] + flags[i + 1..];
    assert flags == flags[..i] + [f] + flags[i + 1..];
    order := others + [f];
    assert order[..|order| - 1] == others;
  }

  /** The flags' targets start the same in every registration order if and only if shared targets agree on the default. */
  lemma OrderIsIrrelevantIffAgreeing(flags: seq<Flag>)
    ensures Agreeing(flags) <==>
      forall order {:trigger multiset(order)} :: multiset(order) == multiset(flags) ==>
        Assign(order, map[]) == Assign(flags, map[])
  {
    if Agreeing(flags) {
      forall order {:trigger multiset(order)} | multiset(order) == multiset(flags)
        ensures Assign(order, map[]) == Assign(flags, map[])
      {
        AgreeingDefaultsCommute(order, flags);
      }
    } else {
      var f, h :| f in flags && h in flags && f.target == h.target && f.def != h.def;
      var lastF := EndingWith(flags, f);
      var lastH := EndingWith(flags, h);
      assert Assign(lastF, map[]) != Assign(lastH, map[]);
    }
  }

  // ----- the flags of the tree are the flags that are reset

  lemma {:induction false} KidInOrder(cmd: Command, n: nat, k: nat, f: Flag)
    requires k < n <= |cmd.kids| && f in ResetOrder(cmd.kids[k])
    ensures f in KidsOrder(cmd, n)
    decreases n
  {
    if k < n - 1 {
      KidInOrder(cmd, n - 1, k, f);
    }
  }

  lemma {:induction false} FlagInOrder(root: Command, path: Path, f: Flag)
    requires IsPath(root, path) && f in ResetOrder(At(root, path))
    ensures f in ResetOrder(root)
    decreases |path|
  {
    if path != [] {
      var front, k := path[..|path| - 1], path[|path| - 1];
      KidInOrder(At(root, front), |At(root, front).kids|, k, f);
      FlagInOrder(root, front, f);
    }
  }

  /** The target of every flag of the tree has a default. */
  lemma TargetHasDefault(root: Command, id: FlagId)
    requires InTree(root, id)
    ensures MetaOf(root, id).target in InitState(root).targets
  {
    var flag := MetaOf(root, id);
    assert flag in ResetOrder(At(root, id.path));
    FlagInOrder(root, id.path, flag);
    AssignWrites(ResetOrder(root), map[]);
  }

  lemma {:induction false} KidOfOrder(cmd: Command, n: nat, f: Flag) returns (k: nat)
    requires n <= |cmd.kids| && f in KidsOrder(cmd, n)
    ensures k < n && f in ResetOrder(cmd.kids[k])
    decreases n
  {
    if f in ResetOrder(cmd.kids[n - 1]) {
      k := n - 1;
    } else {
      k := KidOfOrder(cmd, n - 1, f);
    }
  }

  /** Every flag that is reset is the flag of some command of the tree. */
  lemma {:induction false} OrderHasFlag(root: Command, path: Path, cmd: Command, f: Flag) returns (id: FlagId)
    requires IsPath(root, path) && At(root, path) == cmd && f in ResetOrder(cmd)
    ensures InTree(root, id) && MetaOf(root, id) == f
    decreases cmd
  {
    if f in cmd.flags {
      var i :| 0 <= i < |cmd.flags| && cmd.flags[i] == f;
      id := FlagId(path, i);
    } else {
      var k := KidOfOrder(cmd, |cmd.kids|, f);
      var sub := path + [k];
      assert sub[..|sub| - 1] == path;
      id := OrderHasFlag(root, sub, cmd.kids[k], f);
    }
  }

  // ----- states whose every key names something of the tree

  ghost predicate KeysInTree(root: Command, st: State) {
    (forall p :: p in st.args ==> IsPath(root, p)) && forall id :: id in st.marks ==> InTree(root, id)
  }

  ghost predicate StateInTree(root: Command, st: State) {
    KeysInTree(root, st)
    && st.targets.Keys == InitState(root).targets.Keys
    && IsPath(root, st.matched)
  }

  lemma WriteStaysInTree(root: Command, st: State, id: FlagId, v: Value)
    requires StateInTree(root, st) && InTree(root, id)
    ensures StateInTree(root,
      st.(targets := st.targets[MetaOf(root, id).target := v], marks := st.marks + {id}))
  {
    TargetHasDefault(root, id);
    hide IsPath, InitState, At, MetaOf;
    assert st.targets[MetaOf(root, id).target := v].Keys == st.targets.Keys;
  }

  lemma SetFlagStaysInTree(g: Grammar, st: State, id: FlagId, raw: string)
    requires StateInTree(g.root, st) && InTree(g.root, id)
    ensures StateInTree(g.root, SetFlag(g, st, id, raw).state)
  {
    hide StateInTree, ParseValue, MetaOf;
    var v := ParseValue(g, MetaOf(g.root, id).kind, raw);
    if v.Some? {
      WriteStaysInTree(g.root, st, id, v.value);
    }
  }

  lemma AddArgsStaysInTree(root: Command, st: State, path: Path, more: seq<string>)
    requires StateInTree(root, st) && IsPath(root, path)
    ensures StateInTree(root, AddArgs(st, path, more))
  {
  }

  lemma MatchedStaysInTree(root: Command, st: State, path: Path)
    requires StateInTree(root, st) && IsPath(root, path)
    ensures StateInTree(root, st.(matched := path))
  {
  }

  lemma SubIsPath(root: Command, path: Path, name: string)
    requires WellNamed(root) && IsPath(root, path) && name in At(root, path).names
    ensures IsPath(root, path + [At(root, path).names[name]])
  {
    SubtreeWellNamed(root, path);
    var sub := path + [At(root, path).names[name]];
    assert sub[..|sub| - 1] == path;
  }

  // ----- the part of the tree that resetCommand has been through

  /** p lies at path or below one of its first n subcommands. */
  ghost predicate Below(path: Path, n: nat, p: Path) {
    path <= p && (|p| == |path| || p[|path|] < n)
  }

  lemma {:induction false} PrefixIsPath(root: Command, p: Path, n: nat)
    requires IsPath(root, p) && n < |p|
    ensures IsPath(root, p[..n]) && p[n] < |At(root, p[..n]).kids|
    decreases |p|
  {
    if n < |p| - 1 {
      PrefixIsPath(root, p[..|p| - 1], n);
      assert p[..|p| - 1][..n] == p[..n];
    }
  }

  /** Everything at or below path lies below one of its subcommands or at path itself. */
  lemma BelowAll(root: Command, path: Path, p: Path)
    requires IsPath(root, path) && IsPath(root, p)
    ensures Below(path, |At(root, path).kids|, p) <==> path <= p
  {
    if path <= p && |p| != |path| {
      PrefixIsPath(root, p, |path|);
      assert p[..|path|] == path;
    }
  }

  lemma BelowNext(path: Path, n: nat, p: Path)
    ensures Below(path, n + 1, p) <==> Below(path, n, p) || path + [n] <= p
  {
    if path + [n] <= p {
      assert p[|path|] == n && p[..|path|] == (path + [n])[..|path|] == path;
    }
    if path <= p && |p| > |path| && p[|path|] == n {
      assert p[..|path| + 1] == path + [n];
    }
  }

  /** after is before without the positionals and marks at path and below its first n subcommands. */
  ghost predicate Cleared(before: State, after: State, path: Path, n: nat) {
    (forall p :: p in after.args <==> p in before.args && !Below(path, n, p))
    && forall id :: id in after.marks <==> id in before.marks && !Below(path, n, id.path)
  }

  /** after is before without the positionals and marks at and below path. */
  ghost predicate ClearedUnder(before: State, after: State, path: Path) {
    (forall p :: p in after.args <==> p in before.args && !(path <= p))
    && forall id :: id in after.marks <==> id in before.marks && !(path <= id.path)
  }

  /** The first n flags of the command at path have lost their marks. */
  ghost predicate OnlyUnmarked(before: set<FlagId>, after: set<FlagId>, path: Path, n: nat) {
    forall id :: id in after <==> id in before && !(id.path == path && id.index < n)
  }

  lemma ClearedNone(root: Command, before: State, after: State, path: Path)
    requires IsPath(root, path) && KeysInTree(root, before)
    requires after.args == before.args - {path}
    requires OnlyUnmarked(before.marks, after.marks, path, |At(root, path).flags|)
    ensures Cleared(before, after, path, 0) && KeysInTree(root, after)
  {
    hide IsPath, At;
    forall p ensures Below(path, 0, p) <==> p == path {
    }
  }

  lemma StillInTree(root: Command, before: State, after: State, path: Path)
    requires KeysInTree(root, before) && ClearedUnder(before, after, path)
    ensures KeysInTree(root, after)
  {
  }

  lemma ClearedNext(before: State, mid: State, after: State, path: Path, n: nat)
    requires Cleared(before, mid, path, n) && ClearedUnder(mid, after, path + [n])
    ensures Cleared(before, after, path, n + 1)
  {
    hide Below;
    forall p ensures Below(path, n + 1, p) <==> Below(path, n, p) || path + [n] <= p {
      BelowNext(path, n, p);
    }
  }

  /** Being through every subcommand is being through everything. */
  lemma ClearedAll(root: Command, before: State, after: State, path: Path)
    requires IsPath(root, path) && Cleared(before, after, path, |At(root, path).kids|)
    requires KeysInTree(root, before)
    ensures ClearedUnder(before, after, path)
  {
    hide Below, At;
    forall p | IsPath(root, p) ensures Below(path, |At(root, path).kids|, p) <==> path <= p {
      BelowAll(root, path, p);
    }
  }
}
