/**
 The orders in which AddFlag can run. A command's options are applied in turn: its own flags, and as one block for
 each subcommand, all of that subcommand's options. Reset goes through own flags first, then subcommands.
 */
module ClixRegistration {
  import opened Wrappers
  import opened ClixGrammar
  import opened ClixDefaults

  /** order interleaves the first i own flags with the blocks of the first j subcommands, each kind in order. */
  ghost predicate Registers(cmd: Command, i: nat, j: nat, order: seq<Flag>)
    requires i <= |cmd.flags| && j <= |cmd.kids|
    decreases cmd, 0, i + j
  {
    || (i == 0 && j == 0 && order == [])
    || (i > 0 && EndsWithFlag(cmd, i, j, order))
    || (j > 0 && exists cut: nat :: cut <= |order| && EndsWithBlock(cmd, i, j, order, cut))
  }

  ghost predicate EndsWithFlag(cmd: Command, i: nat, j: nat, order: seq<Flag>)
    requires 0 < i <= |cmd.flags| && j <= |cmd.kids|
    decreases cmd, 0, i + j, 0
  {
    order != [] && order[|order| - 1] == cmd.flags[i - 1] && Registers(cmd, i - 1, j, order[..|order| - 1])
  }

  ghost predicate EndsWithBlock(cmd: Command, i: nat, j: nat, order: seq<Flag>, cut: nat)
    requires i <= |cmd.flags| && 0 < j <= |cmd.kids| && cut <= |order|
    decreases cmd, 0, i + j, 0
  {
    RegistersAll(cmd.kids[j - 1], order[cut..]) && Registers(cmd, i, j - 1, order[..cut])
  }

  ghost predicate RegistersAll(cmd: Command, order: seq<Flag>)
    decreases cmd, 1
  {
    Registers(cmd, |cmd.flags|, |cmd.kids|, order)
  }

  // ----- the values a target can start with

  /** The default of the last of the flags that is bound to t. */
  function LastOwn(flags: seq<Flag>, t: nat): Option<Value> {
    if flags == [] then None
    else if flags[|flags| - 1].target == t then Some(flags[|flags| - 1].def)
    else LastOwn(flags[..|flags| - 1], t)
  }

  /** Some flag of cmd or below is bound to t. */
  predicate Binds(cmd: Command, t: nat) {
    exists f :: f in ResetOrder(cmd) && f.target == t
  }

  /** The last of the first j subcommands that binds t. */
  function LastSub(cmd: Command, j: nat, t: nat): (k: Option<nat>)
    requires j <= |cmd.kids|
    ensures k.Some? ==> k.value < j && Binds(cmd.kids[k.value], t)
  {
    if j == 0 then None else if Binds(cmd.kids[j - 1], t) then Some(j - 1) else LastSub(cmd, j - 1, t)
  }

  /**
   v is the default of the last own flag bound to t in a command on the chain that leads from cmd through the last
   subcommand that binds t, over and over.
   */
  predicate MayStartWith(cmd: Command, i: nat, j: nat, t: nat, v: Value)
    requires i <= |cmd.flags| && j <= |cmd.kids|
    decreases cmd
  {
    || LastOwn(cmd.flags[..i], t) == Some(v)
    || (LastSub(cmd, j, t).Some? && var kid := cmd.kids[LastSub(cmd, j, t).value];
        MayStartWith(kid, |kid.flags|, |kid.kids|, t, v))
  }

  predicate MayStart(cmd: Command, t: nat, v: Value) {
    MayStartWith(cmd, |cmd.flags|, |cmd.kids|, t, v)
  }

  /** Along every such chain the defaults agree. */
  ghost predicate OrderNeverShows(cmd: Command) {
    forall t, v, w :: MayStart(cmd, t, v) && MayStart(cmd, t, w) ==> v == w
  }

  // ----- every order starts every target with one of those values

  /** t ends bound exactly if a flag or subcommand in question binds it, and to a value it may start with. */
  ghost predicate Starts(cmd: Command, i: nat, j: nat, order: seq<Flag>, t: nat)
    requires i <= |cmd.flags| && j <= |cmd.kids|
  {
    var m := Assign(order, map[]);
    && (t in m <==> LastOwn(cmd.flags[..i], t).Some? || LastSub(cmd, j, t).Some?)
    && (t in m ==> MayStartWith(cmd, i, j, t, m[t]))
  }

  lemma {:induction false} LastOwnFinds(flags: seq<Flag>, t: nat)
    ensures LastOwn(flags, t).Some? <==> exists f :: f in flags && f.target == t
  {
    if flags != [] {
      var front := flags[..|flags| - 1];
      LastOwnFinds(front, t);
      assert flags == front + [flags[|flags| - 1]];
    }
  }

  lemma {:induction false} LastSubFinds(cmd: Command, j: nat, t: nat)
    requires j <= |cmd.kids|
    ensures LastSub(cmd, j, t).Some? <==> exists f :: f in KidsOrder(cmd, j) && f.target == t
    decreases j
  {
    if j > 0 {
      LastSubFinds(cmd, j - 1, t);
    }
  }

  lemma BindsFinds(cmd: Command, t: nat)
    ensures Binds(cmd, t) <==> LastOwn(cmd.flags[..|cmd.flags|], t).Some? || LastSub(cmd, |cmd.kids|, t).Some?
  {
    assert cmd.flags[..|cmd.flags|] == cmd.flags;
    LastOwnFinds(cmd.flags, t);
    LastSubFinds(cmd, |cmd.kids|, t);
  }

  lemma {:induction false} OrderStarts(cmd: Command, i: nat, j: nat, order: seq<Flag>, t: nat)
    requires i <= |cmd.flags| && j <= |cmd.kids| && Registers(cmd, i, j, order)
    ensures Starts(cmd, i, j, order, t)
    decreases cmd, i + j
  {
    hide LastSub, Binds;
    if i == 0 && j == 0 && order == [] {
      NothingStarts(cmd, t);
    } else if i > 0 && EndsWithFlag(cmd, i, j, order) {
      var front := order[..|order| - 1];
      OrderStarts(cmd, i - 1, j, front, t);
      FlagStarts(cmd, i, j, order, t);
    } else {
      var cut: nat :| cut <= |order| && EndsWithBlock(cmd, i, j, order, cut);
      var kid := cmd.kids[j - 1];
      assert RegistersAll(kid, order[cut..]);
      OrderStarts(cmd, i, j - 1, order[..cut], t);
      OrderStarts(kid, |kid.flags|, |kid.kids|, order[cut..], t);
      BlockStarts(cmd, i, j, order, cut, t);
    }
  }

  lemma NothingStarts(cmd: Command, t: nat)
    ensures Starts(cmd, 0, 0, [], t)
  {
  }

  lemma FlagStarts(cmd: Command, i: nat, j: nat, order: seq<Flag>, t: nat)
    requires 0 < i <= |cmd.flags| && j <= |cmd.kids| && order != [] && order[|order| - 1] == cmd.flags[i - 1]
    requires Starts(cmd, i - 1, j, order[..|order| - 1], t)
    ensures Starts(cmd, i, j, order, t)
  {
    hide LastSub;
    assert cmd.flags[..i][..i - 1] == cmd.flags[..i - 1];
  }

  lemma BlockStarts(cmd: Command, i: nat, j: nat, order: seq<Flag>, cut: nat, t: nat)
    requires i <= |cmd.flags| && 0 < j <= |cmd.kids| && cut <= |order|
    requires Starts(cmd, i, j - 1, order[..cut], t)
    requires var kid := cmd.kids[j - 1]; Starts(kid, |kid.flags|, |kid.kids|, order[cut..], t)
    ensures Starts(cmd, i, j, order, t)
  {
    hide Binds, Assign;
    var kid := cmd.kids[j - 1];
    assert order == order[..cut] + order[cut..];
    AssignConcat(order[..cut], order[cut..], map[]);
    AssignOver(order[cut..], Assign(order[..cut], map[]));
    BindsFinds(kid, t);
  }

  // ----- every one of those values is started with in some order

  lemma OneMoreFlag(cmd: Command, i: nat, j: nat, order: seq<Flag>)
    requires 0 < i <= |cmd.flags| && j <= |cmd.kids| && Registers(cmd, i - 1, j, order)
    ensures Registers(cmd, i, j, order + [cmd.flags[i - 1]])
  {
    var more := order + [cmd.flags[i - 1]];
    assert more[..|more| - 1] == order;
    assert EndsWithFlag(cmd, i, j, more);
  }

  lemma OneMoreBlock(cmd: Command, i: nat, j: nat, order: seq<Flag>, block: seq<Flag>)
    requires i <= |cmd.flags| && 0 < j <= |cmd.kids| && Registers(cmd, i, j - 1, order)
    requires RegistersAll(cmd.kids[j - 1], block)
    ensures Registers(cmd, i, j, order + block)
  {
    var more := order + block;
    assert more[..|order|] == order && more[|order|..] == block;
    assert EndsWithBlock(cmd, i, j, more, |order|);
  }

  /** Own flags behind what is there already. */
  lemma {:induction false} FlagsBehind(cmd: Command, i: nat, j: nat, order: seq<Flag>)
    requires i <= |cmd.flags| && j <= |cmd.kids| && Registers(cmd, 0, j, order)
    ensures Registers(cmd, i, j, order + cmd.flags[..i])
    decreases i
  {
    hide Registers;
    if i == 0 {
      assert order + cmd.flags[..0] == order;
    } else {
      FlagsBehind(cmd, i - 1, j, order);
      OneMoreFlag(cmd, i, j, order + cmd.flags[..i - 1]);
      assert order + cmd.flags[..i - 1] + [cmd.flags[i - 1]] == order + cmd.flags[..i];
    }
  }

  /** The flags of subcommands from to up to j in Reset's order. */
  function KidsBetween(cmd: Command, from: nat, j: nat): seq<Flag>
    requires from <= j <= |cmd.kids|
    decreases j
  {
    if from == j then [] else KidsBetween(cmd, from, j - 1) + ResetOrder(cmd.kids[j - 1])
  }

  /** Subcommands behind what is there already, each in Reset's order. */
  lemma {:induction false} KidsBehind(cmd: Command, i: nat, from: nat, j: nat, order: seq<Flag>)
    requires i <= |cmd.flags| && from <= j <= |cmd.kids| && Registers(cmd, i, from, order)
    ensures Registers(cmd, i, j, order + KidsBetween(cmd, from, j))
    decreases cmd, 0, j
  {
    hide Registers;
    if from == j {
      assert order + [] == order;
    } else {
      KidsBehind(cmd, i, from, j - 1, order);
      ResetRegisters(cmd.kids[j - 1]);
      OneMoreBlock(cmd, i, j, order + KidsBetween(cmd, from, j - 1), ResetOrder(cmd.kids[j - 1]));
      assert order + KidsBetween(cmd, from, j - 1) + ResetOrder(cmd.kids[j - 1]) == order + KidsBetween(cmd, from, j);
    }
  }

  lemma {:induction false} KidsFromStart(cmd: Command, j: nat)
    requires j <= |cmd.kids|
    ensures KidsBetween(cmd, 0, j) == KidsOrder(cmd, j)
    decreases j
  {
    if j > 0 {
      KidsFromStart(cmd, j - 1);
    }
  }

  lemma NoFlagYet(cmd: Command)
    ensures Registers(cmd, 0, 0, [])
  {
  }

  /** Reset's own order is one of them. */
  lemma {:induction false} ResetRegisters(cmd: Command)
    ensures RegistersAll(cmd, ResetOrder(cmd))
    decreases cmd, 1
  {
    hide Registers;
    NoFlagYet(cmd);
    FlagsBehind(cmd, |cmd.flags|, 0, []);
    assert [] + cmd.flags[..|cmd.flags|] == cmd.flags;
    KidsBehind(cmd, |cmd.flags|, 0, |cmd.kids|, cmd.flags);
    KidsFromStart(cmd, |cmd.kids|);
  }

  lemma {:induction false} KidsLeaveAlone(cmd: Command, from: nat, j: nat, t: nat)
    requires from <= j <= |cmd.kids| && forall k :: from <= k < j ==> !Binds(cmd.kids[k], t)
    ensures forall f :: f in KidsBetween(cmd, from, j) ==> f.target != t
    decreases j
  {
    if from < j {
      KidsLeaveAlone(cmd, from, j - 1, t);
      assert !Binds(cmd.kids[j - 1], t);
    }
  }

  lemma {:induction false} LastSubIsLast(cmd: Command, j: nat, t: nat)
    requires j <= |cmd.kids| && LastSub(cmd, j, t).Some?
    ensures forall k :: LastSub(cmd, j, t).value < k < j ==> !Binds(cmd.kids[k], t)
    decreases j
  {
    if !Binds(cmd.kids[j - 1], t) {
      LastSubIsLast(cmd, j - 1, t);
    }
  }

  lemma {:induction false} LastOwnWins(flags: seq<Flag>, targets: map<nat, Value>, t: nat)
    requires LastOwn(flags, t).Some?
    ensures t in Assign(flags, targets) && Assign(flags, targets)[t] == LastOwn(flags, t).value
  {
    if flags[|flags| - 1].target != t {
      LastOwnWins(flags[..|flags| - 1], targets, t);
    }
  }

  lemma {:induction false} OthersLeaveAlone(flags: seq<Flag>, targets: map<nat, Value>, t: nat)
    requires forall f :: f in flags ==> f.target != t
    ensures t in Assign(flags, targets) <==> t in targets
    ensures t in targets ==> Assign(flags, targets)[t] == targets[t]
  {
    if flags != [] {
      OthersLeaveAlone(flags[..|flags| - 1], targets, t);
    }
  }

  /** An order that starts t with v. */
  lemma {:induction false} StartingWith(cmd: Command, t: nat, v: Value) returns (order: seq<Flag>)
    requires MayStart(cmd, t, v)
    ensures RegistersAll(cmd, order) && t in Assign(order, map[]) && Assign(order, map[])[t] == v
    decreases cmd
  {
    hide Registers, Binds, LastSub;
    var n, kids := |cmd.flags|, |cmd.kids|;
    NoFlagYet(cmd);
    assert cmd.flags[..n] == cmd.flags;
    if LastOwn(cmd.flags, t) == Some(v) {
      KidsBehind(cmd, 0, 0, kids, []);
      var blocks := [] + KidsBetween(cmd, 0, kids);
      FlagsBehind(cmd, n, kids, blocks);
      order := blocks + cmd.flags;
      AssignConcat(blocks, cmd.flags, map[]);
      LastOwnWins(cmd.flags, Assign(blocks, map[]), t);
    } else {
      var k := LastSub(cmd, kids, t).value;
      var block := StartingWith(cmd.kids[k], t, v);
      FlagsBehind(cmd, n, 0, []);
      KidsBehind(cmd, n, 0, k, [] + cmd.flags);
      var before, later := [] + cmd.flags + KidsBetween(cmd, 0, k), KidsBetween(cmd, k + 1, kids);
      OneMoreBlock(cmd, n, k + 1, before, block);
      KidsBehind(cmd, n, k + 1, kids, before + block);
      order := before + block + later;
      LastSubIsLast(cmd, kids, t);
      KidsLeaveAlone(cmd, k + 1, kids, t);
      BlockDecides(before, block, later, t);
    }
  }

  /** A block that binds t, with nothing behind it that does, decides what t starts with. */
  lemma BlockDecides(before: seq<Flag>, block: seq<Flag>, later: seq<Flag>, t: nat)
    requires t in Assign(block, map[]) && forall f :: f in later ==> f.target != t
    ensures var m := Assign(before + block + later, map[]); t in m && m[t] == Assign(block, map[])[t]
  {
    hide Assign;
    AssignConcat(before + block, later, map[]);
    AssignConcat(before, block, map[]);
    AssignOver(block, Assign(before, map[]));
    OthersLeaveAlone(later, Assign(before + block, map[]), t);
  }

  // ----- New and Reset

  /** Any order starts the same targets. */
  lemma SameTargets(cmd: Command, a: seq<Flag>, b: seq<Flag>)
    requires RegistersAll(cmd, a) && RegistersAll(cmd, b)
    ensures Assign(a, map[]).Keys == Assign(b, map[]).Keys
  {
    hide Registers, Assign;
    forall t ensures t in Assign(a, map[]) <==> t in Assign(b, map[]) {
      OrderStarts(cmd, |cmd.flags|, |cmd.kids|, a, t);
      OrderStarts(cmd, |cmd.flags|, |cmd.kids|, b, t);
    }
  }

  lemma SettledStart(cmd: Command, a: seq<Flag>, b: seq<Flag>)
    requires RegistersAll(cmd, a) && RegistersAll(cmd, b) && OrderNeverShows(cmd)
    ensures Assign(a, map[]) == Assign(b, map[])
  {
    hide Registers, Assign, MayStartWith;
    SameTargets(cmd, a, b);
    forall t | t in Assign(a, map[]) ensures Assign(a, map[])[t] == Assign(b, map[])[t] {
      OrderStarts(cmd, |cmd.flags|, |cmd.kids|, a, t);
      OrderStarts(cmd, |cmd.flags|, |cmd.kids|, b, t);
      assert MayStart(cmd, t, Assign(a, map[])[t]) && MayStart(cmd, t, Assign(b, map[])[t]);
    }
  }

  /**
   New starts every target as Reset restores it, whatever the order of the options, if and only if for each target
   the defaults agree along the chain of last subcommands that bind it.
   */
  lemma NewStartsAsResetIff(cmd: Command)
    ensures OrderNeverShows(cmd) <==>
      forall order :: RegistersAll(cmd, order) ==> Assign(order, map[]) == Assign(ResetOrder(cmd), map[])
  {
    hide Registers, RegistersAll, Assign, MayStart;
    ResetRegisters(cmd);
    if OrderNeverShows(cmd) {
      forall order | RegistersAll(cmd, order) ensures Assign(order, map[]) == Assign(ResetOrder(cmd), map[]) {
        SettledStart(cmd, order, ResetOrder(cmd));
      }
    } else {
      var t, v, w :| MayStart(cmd, t, v) && MayStart(cmd, t, w) && v != w;
      var a := StartingWith(cmd, t, v);
      var b := StartingWith(cmd, t, w);
      assert Assign(a, map[]) != Assign(b, map[]);
    }
  }

  /** A target may start only with a default of a flag bound to it. */
  lemma {:induction false} StartIsDefault(cmd: Command, t: nat, v: Value)
    requires MayStart(cmd, t, v)
    ensures DefaultOf(ResetOrder(cmd), t, v)
  {
    var order := StartingWith(cmd, t, v);
    AllRegistered(cmd, |cmd.flags|, |cmd.kids|, order);
    AssignWrites(order, map[]);
    var f :| f in order && f.target == t && f.def == v;
    assert cmd.flags[..|cmd.flags|] == cmd.flags;
    assert f in ResetOrder(cmd);
  }

  /** Registration and Reset handle the same flags. */
  lemma {:induction false} AllRegistered(cmd: Command, i: nat, j: nat, order: seq<Flag>)
    requires i <= |cmd.flags| && j <= |cmd.kids| && Registers(cmd, i, j, order)
    ensures forall f :: f in order ==> f in cmd.flags[..i] || f in KidsOrder(cmd, j)
    decreases cmd, i + j
  {
    if i == 0 && j == 0 && order == [] {
    } else if i > 0 && EndsWithFlag(cmd, i, j, order) {
      AllRegistered(cmd, i - 1, j, order[..|order| - 1]);
      assert order == order[..|order| - 1] + [cmd.flags[i - 1]];
    } else {
      var cut: nat :| cut <= |order| && EndsWithBlock(cmd, i, j, order, cut);
      var kid := cmd.kids[j - 1];
      assert RegistersAll(kid, order[cut..]);
      AllRegistered(cmd, i, j - 1, order[..cut]);
      AllRegistered(kid, |kid.flags|, |kid.kids|, order[cut..]);
      assert kid.flags[..|kid.flags|] == kid.flags;
      assert order == order[..cut] + order[cut..];
    }
  }

  /** Flags with distinct targets, or sharing targets with one default each, never show their order. */
  lemma AgreeingNeverShows(cmd: Command)
    requires Agreeing(ResetOrder(cmd))
    ensures OrderNeverShows(cmd)
  {
    hide MayStart, ResetOrder;
    forall t, v, w | MayStart(cmd, t, v) && MayStart(cmd, t, w) ensures v == w {
      StartIsDefault(cmd, t, v);
      StartIsDefault(cmd, t, w);
    }
  }

  lemma SecondWriteWins(f: Flag, h: Flag)
    requires f.target == h.target
    ensures Assign([f, h], map[]) == map[f.target := h.def]
  {
    assert [f, h][..1] == [f] && [f][..0] == [];
    assert Assign([f], map[]) == Assign([], map[])[f.target := f.def];
    assert Assign([f, h], map[]) == Assign([f], map[])[h.target := h.def];
  }

  /** A root with one flag and one subcommand with one flag. */
  function Pair(own: Flag, below: Flag): Command {
    Command([own], [Command([below], [], map[], true)], map["sub" := 0], true)
  }

  lemma PairResets(own: Flag, below: Flag)
    ensures ResetOrder(Pair(own, below)) == [own, below]
  {
    var root := Pair(own, below);
    var kid := root.kids[0];
    assert KidsOrder(kid, 0) == [];
    assert ResetOrder(kid) == [below];
    assert KidsOrder(root, 1) == KidsOrder(root, 0) + ResetOrder(kid) == [below];
  }

  lemma PairRegisters(own: Flag, below: Flag)
    ensures RegistersAll(Pair(own, below), [below, own])
  {
    hide Registers;
    var root := Pair(own, below);
    NoFlagYet(root.kids[0]);
    OneMoreFlag(root.kids[0], 1, 0, []);
    NoFlagYet(root);
    assert [] + [below] == [below] && [below] + [own] == [below, own];
    OneMoreBlock(root, 0, 1, [], [below]);
    OneMoreFlag(root, 1, 1, [below]);
  }

  /** A subcommand registered before a flag of the root on the same target: New starts it otherwise than Reset. */
  lemma SubcommandFirstShows(own: Flag, below: Flag)
    requires own.target == below.target && own.def != below.def
    ensures WellNamed(Pair(own, below)) && RegistersAll(Pair(own, below), [below, own])
    ensures Assign([below, own], map[]) == map[own.target := own.def]
    ensures Assign(ResetOrder(Pair(own, below)), map[]) == map[own.target := below.def]
  {
    hide RegistersAll, ResetOrder, Assign;
    PairRegisters(own, below);
    PairResets(own, below);
    SecondWriteWins(below, own);
    SecondWriteWins(own, below);
  }
}
