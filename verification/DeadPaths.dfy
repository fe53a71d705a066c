/** Merging projects whose folder is gone into the live one of the same name
    (src/shared/boot.ts, runDeadPathCheck). */
module DeadPaths {
  import opened Prelude
  import opened Merges
  import opened MergeLaws

  // ----- names -----

  /** The last segment between separators that is not empty, in lower case, or "". */
  function BaseName(path: string): string {
    Lower(LastSegment(path))
  }

  function LastSegment(path: string): string {
    if path == [] then []
    else if IsPathSeparator(path[|path| - 1]) then
      LastSegment(path[..|path| - 1])
    else Tail(path)
  }

  // What follows the last separator.
  function Tail(path: string): string {
    if path == [] || IsPathSeparator(path[|path| - 1]) then [] else Tail(path[..|path| - 1]) + [path[|path| - 1]]
  }

  /** A path may start and end in any way: what counts is its last name between separators. */
  lemma BaseNameIs(pre: string, name: string, tail: string)
    requires name != "" && NoSeparator(name) && OnlySeparators(tail)
    requires pre == "" || IsPathSeparator(pre[|pre| - 1])
    ensures LowersTo(name, BaseName(pre + name + tail))
  {
    SeparatorsDropped(pre + name, tail);
    assert (pre + name)[|pre + name| - 1] == name[|name| - 1];
    TailIs(pre, name);
    LowerIs(name);
  }

  /** A path of separators only has no name. */
  lemma NoBaseName(tail: string)
    requires OnlySeparators(tail)
    ensures BaseName(tail) == ""
  {
    SeparatorsDropped("", tail);
    assert "" + tail == tail;
  }

  predicate NoSeparator(s: string) {
    forall k :: 0 <= k < |s| ==> !IsPathSeparator(s[k])
  }

  predicate OnlySeparators(s: string) {
    forall k :: 0 <= k < |s| ==> IsPathSeparator(s[k])
  }

  lemma {:induction false} SeparatorsDropped(path: string, tail: string)
    requires OnlySeparators(tail)
    ensures LastSegment(path + tail) == LastSegment(path)
  {
    if tail == "" {
      assert path + tail == path;
    } else {
      InitConcat(path, tail);
      SeparatorsDropped(path, tail[..|tail| - 1]);
    }
  }

  lemma {:induction false} TailIs(pre: string, name: string)
    requires NoSeparator(name) && (pre == "" || IsPathSeparator(pre[|pre| - 1]))
    ensures Tail(pre + name) == name
  {
    if name == "" {
      assert pre + name == pre;
    } else {
      InitConcat(pre, name);
      TailIs(pre, name[..|name| - 1]);
    }
  }

  // ----- what the check looks at -----

  /** A project is alive if its folder exists, or that of a path merged into it. */
  predicate Alive(m: AliasMap, exist: set<string>, c: string) {
    c in exist || exists q :: q in Paths(m, c) && q in exist
  }

  /** In a flat forest a root is alive exactly when some existing path resolves to it. */
  lemma AliveIff(m: AliasMap, exist: set<string>, c: string)
    requires Flat(m) && IsRoot(m, c)
    ensures Alive(m, exist, c) <==> exists p :: p in exist && Resolve(m, p) == c
  {
    FlatResolve(m, c);
    if Alive(m, exist, c) && c !in exist {
      var q :| q in Paths(m, c) && q in exist;
      FlatResolve(m, q);
      assert FlatAt(m, c);
    }
    if p :| p in exist && Resolve(m, p) == c {
      FlatResolve(m, p);
      assert p in m ==> FlatAt(m, p);
    }
  }

  /** The named projects of the history, each once, that are not merged into another. */
  function ListRoots(m: AliasMap, history: seq<Option<string>>): (cwds: seq<string>)
    ensures NoDuplicates(cwds)
    ensures forall c :: c in cwds <==> Some(c) in history && c != "" && IsRoot(m, c)
  {
    if history == [] then []
    else
      var init, last := ListRoots(m, history[..|history| - 1]), history[|history| - 1];
      assert history == history[..|history| - 1] + [last];
      if last.None? || last.value == "" || last.value in init || !IsRoot(m, last.value) then init
      else init + [last.value]
  }

  function Living(m: AliasMap, exist: set<string>, cwds: seq<string>, alive: bool): (r: seq<string>)
    ensures forall c :: c in r <==> c in cwds && Alive(m, exist, c) == alive
    ensures NoDuplicates(cwds) ==> NoDuplicates(r)
  {
    if cwds == [] then []
    else
      var init, c := cwds[..|cwds| - 1], cwds[|cwds| - 1];
      assert cwds == init + [c];
      var r := Living(m, exist, init, alive);
      if Alive(m, exist, c) == alive then
        assert NoDuplicates(cwds) ==> c !in init;
        r + [c]
      else r
  }

  // r is what is alive of the list, or what is not, in order.
  ghost predicate LivingAt(m: AliasMap, exist: set<string>, cwds: seq<string>, alive: bool, r: seq<string>,
                           at: seq<nat>)
  {
    && ElementsAt(cwds, at, r)
    && forall i {:trigger i in at} :: 0 <= i < |cwds| ==> (i in at <==> Alive(m, exist, cwds[i]) == alive)
  }

  /** The projects keep the order of the list. */
  lemma {:induction false} LivingInOrder(m: AliasMap, exist: set<string>, cwds: seq<string>, alive: bool)
    returns (at: seq<nat>)
    ensures LivingAt(m, exist, cwds, alive, Living(m, exist, cwds, alive), at)
  {
    if cwds == [] {
      at := [];
    } else {
      var init, c := cwds[..|cwds| - 1], cwds[|cwds| - 1];
      at := LivingInOrder(m, exist, init, alive);
      LivingNext(m, exist, init, c, alive);
      at := LivingAtNext(m, exist, init, c, alive, Living(m, exist, init, alive), at);
      assert cwds == init + [c];
    }
  }

  lemma LivingAtNext(m: AliasMap, exist: set<string>, init: seq<string>, c: string, alive: bool, r: seq<string>,
                     at: seq<nat>)
    returns (at': seq<nat>)
    requires LivingAt(m, exist, init, alive, r, at)
    ensures LivingAt(m, exist, init + [c], alive, r + (if Alive(m, exist, c) == alive then [c] else []), at')
  {
    ElementsNext(init, at, r, c);
    var here := Alive(m, exist, c) == alive;
    at' := if here then at + [|init|] else at;
    assert r + [] == r;
    forall i | 0 <= i <= |init| ensures i in at' <==> Alive(m, exist, (init + [c])[i]) == alive {
      if i < |init| {
        assert (init + [c])[i] == init[i];
      }
    }
  }

  lemma LivingNext(m: AliasMap, exist: set<string>, init: seq<string>, c: string, alive: bool)
    ensures Living(m, exist, init + [c], alive) ==
      Living(m, exist, init, alive) + if Alive(m, exist, c) == alive then [c] else []
  {
    assert (init + [c])[..|init|] == init;
  }

  // Each project is listed where the history first names it.
  ghost predicate FirstNamed(history: seq<Option<string>>, cwds: seq<string>, at: seq<nat>) {
    && |at| == |cwds|
    && (forall k :: 0 <= k < |at| ==> at[k] < |history| && history[at[k]] == Some(cwds[k]))
    && (forall k :: 0 <= k < |at| ==> Some(cwds[k]) !in history[..at[k]])
    && (forall k, l :: 0 <= k < l < |at| ==> at[k] < at[l])
  }

  /** The projects are listed in the order in which the history first names them. */
  lemma {:induction false} ListRootsInOrder(m: AliasMap, history: seq<Option<string>>) returns (at: seq<nat>)
    ensures FirstNamed(history, ListRoots(m, history), at)
  {
    if history == [] {
      at := [];
    } else {
      var init, last := history[..|history| - 1], history[|history| - 1];
      at := ListRootsInOrder(m, init);
      FirstNamedNext(init, last, ListRoots(m, init), at);
      ListRootsNext(m, init, last);
      assert history == init + [last];
      at := if ListRoots(m, history) == ListRoots(m, init) then at else at + [|init|];
    }
  }

  lemma ListRootsNext(m: AliasMap, init: seq<Option<string>>, last: Option<string>)
    ensures
      var before, after := ListRoots(m, init), ListRoots(m, init + [last]);
      after == before || (last.Some? && last !in init && after == before + [last.value])
  {
    assert (init + [last])[..|init|] == init;
  }

  lemma FirstNamedNext(init: seq<Option<string>>, last: Option<string>, cwds: seq<string>, at: seq<nat>)
    requires FirstNamed(init, cwds, at)
    ensures FirstNamed(init + [last], cwds, at)
    ensures last.Some? && last !in init ==> FirstNamed(init + [last], cwds + [last.value], at + [|init|])
  {
    assert forall k :: 0 <= k < |at| ==> (init + [last])[..at[k]] == init[..at[k]];
    assert (init + [last])[..|init|] == init;
  }

  function Matches(live: seq<string>, dead: string): (r: seq<string>)
    ensures forall c :: c in r <==> c in live && BaseName(c) == BaseName(dead)
    ensures NoDuplicates(live) ==> NoDuplicates(r)
  {
    if live == [] then []
    else
      var init, l := live[..|live| - 1], live[|live| - 1];
      assert live == init + [l];
      var r := Matches(init, dead);
      if BaseName(l) == BaseName(dead) then
        assert NoDuplicates(live) ==> l !in init;
        r + [l]
      else r
  }

  /** The one live project with the dead one's name, if there is just one. */
  function Target(live: seq<string>, dead: string): (r: Option<string>)
    ensures r.Some? ==> r.value in live && BaseName(r.value) == BaseName(dead)
  {
    var matches := Matches(live, dead);
    if |matches| == 1 && matches[0] != "" then
      assert matches[0] in matches;
      Some(matches[0])
    else None
  }

  ghost predicate OnlyNamesake(live: seq<string>, dead: string, l: string) {
    && l in live && BaseName(l) == BaseName(dead)
    && forall c :: c in live && BaseName(c) == BaseName(dead) ==> c == l
  }

  /** Among distinct, named live projects, the target is the dead one's only namesake. */
  lemma TargetIff(live: seq<string>, dead: string, l: string)
    requires NoDuplicates(live) && "" !in live
    ensures Target(live, dead) == Some(l) <==> OnlyNamesake(live, dead, l)
  {
    var matches := Matches(live, dead);
    if Target(live, dead) == Some(l) {
      forall c | c in live && BaseName(c) == BaseName(dead) ensures c == l {
        assert c in matches;
      }
    }
    if OnlyNamesake(live, dead, l) {
      assert l in matches;
      assert ToSet(matches) == {l};
      NoDuplicatesSize(matches);
      assert matches[0] in matches;
    }
  }

  /** The aliases after the dead projects were merged in turn. */
  ghost function MergedAll(m: AliasMap, live: seq<string>, dead: seq<string>): AliasMap {
    if dead == [] then m
    else
      var before, d := MergedAll(m, live, dead[..|dead| - 1]), dead[|dead| - 1];
      match Target(live, d)
      case Some(l) => Merged(before, d, l, false)
      case None => before
  }

  ghost predicate Apart(m: AliasMap, live: seq<string>, dead: seq<string>) {
    && NoDuplicates(live) && NoDuplicates(dead)
    && (forall c :: c in live || c in dead ==> c != "" && IsRoot(m, c))
    && (forall c :: c in live ==> c !in dead)
  }

  /** Where a path may resolve to after the check, given where it did before: a dead project's only
      live namesake, or else what it was. */
  ghost predicate MovesTo(live: seq<string>, dead: seq<string>, root: string, r: string) {
    if root in dead && exists l :: OnlyNamesake(live, root, l) then OnlyNamesake(live, root, r) else r == root
  }

  ghost function Redirected(live: seq<string>, dead: seq<string>, root: string): string {
    if root in dead then GetOr(Target(live, root), root) else root
  }

  ghost function Unmatched(live: seq<string>, dead: seq<string>): set<string> {
    set d | d in dead && Target(live, d).None?
  }

  ghost predicate SomeMatched(live: seq<string>, dead: seq<string>) {
    exists d :: d in dead && Target(live, d).Some?
  }

  // ----- the program -----

  class DeadPathCheck {
    const store: AliasStore
    var deadPaths: set<string>

    constructor (s: AliasStore)
      ensures store == s && deadPaths == {}
    {
      store := s;
      deadPaths := {};
    }

    /** The loop body: one dead project is merged, or noted as dead. */
    method CheckOne(live: seq<string>, d: string) returns (merged: bool)
      modifies this`deadPaths, store
      ensures
        var m, target := old(store.aliases), Target(live, d);
        && merged == target.Some?
        && store.aliases == (if merged then Merged(m, d, target.value, false) else m)
        && deadPaths == old(deadPaths) + if merged then {} else {d}
    {
      var target := Target(live, d);
      merged := target.Some?;
      if merged {
        store.DoMerge(d, target.value);
      } else {
        deadPaths := deadPaths + {d};
      }
    }

    /** The projects are listed, the program waits to hear which paths exist, and the loop then finds the
        aliases as they have become in the meantime. If they are flat and the listed projects are still
        roots, whatever resolved to a dead project with a single live namesake resolves to that one
        afterwards, and the forest is flat again. */
    method Run(history: seq<Option<string>>, exist: set<string>, meanwhile: AliasMap) returns (anyMerged: bool)
      modifies this, store
      ensures
        var m := meanwhile;
        var cwds := ListRoots(old(store.aliases), history);
        var live, dead := Living(m, exist, cwds, true), Living(m, exist, cwds, false);
        && store.aliases == MergedAll(m, live, dead)
        && deadPaths == old(deadPaths) + Unmatched(live, dead)
        && (anyMerged <==> SomeMatched(live, dead))
        && (Flat(m) && StillRoots(m, cwds) ==>
              && Flat(store.aliases)
              && forall x :: MovesTo(live, dead, Resolve(m, x), Resolve(store.aliases, x)))
    {
      var cwds := ListRoots(store.aliases, history);
      store.aliases := meanwhile;
      anyMerged := MergeDead(cwds, exist);
      ListedAreApart(meanwhile, cwds, exist);
      AllMove(meanwhile, Living(meanwhile, exist, cwds, true), Living(meanwhile, exist, cwds, false));
    }

    /** After the wait: the dead projects are merged in turn, or noted. */
    method MergeDead(cwds: seq<string>, exist: set<string>) returns (anyMerged: bool)
      modifies this`deadPaths, store
      ensures
        var m := old(store.aliases);
        var live, dead := Living(m, exist, cwds, true), Living(m, exist, cwds, false);
        && store.aliases == MergedAll(m, live, dead)
        && deadPaths == old(deadPaths) + Unmatched(live, dead)
        && (anyMerged <==> SomeMatched(live, dead))
    {
      anyMerged := false;
      ghost var m, noted := store.aliases, deadPaths;
      var dead := Living(store.aliases, exist, cwds, false);
      var live := Living(store.aliases, exist, cwds, true);
      for i := 0 to |dead|
        invariant MergedUpTo(m, noted, live, dead[..i], store.aliases, deadPaths, anyMerged)
      {
        NextDead(m, noted, live, dead, i, store.aliases, deadPaths, anyMerged);
        var merged := CheckOne(live, dead[i]);
        anyMerged := anyMerged || merged;
      }
      assert dead[..|dead|] == dead;
    }
  }

  // What the loop has done once these dead projects have had their turn.
  ghost predicate MergedUpTo(m: AliasMap, noted: set<string>, live: seq<string>, done: seq<string>,
                             aliases: AliasMap, deadPaths: set<string>, anyMerged: bool)
  {
    && aliases == MergedAll(m, live, done)
    && deadPaths == noted + Unmatched(live, done)
    && (anyMerged <==> SomeMatched(live, done))
  }

  ghost predicate StillRoots(m: AliasMap, cwds: seq<string>) {
    forall c :: c in cwds ==> IsRoot(m, c)
  }

  lemma NextDead(m: AliasMap, noted: set<string>, live: seq<string>, dead: seq<string>, i: nat,
                 aliases: AliasMap, deadPaths: set<string>, anyMerged: bool)
    requires i < |dead| && MergedUpTo(m, noted, live, dead[..i], aliases, deadPaths, anyMerged)
    ensures
      var d, target := dead[i], Target(live, dead[i]);
      MergedUpTo(m, noted, live, dead[..i + 1],
                 if target.Some? then Merged(aliases, d, target.value, false) else aliases,
                 deadPaths + (if target.Some? then {} else {d}), anyMerged || target.Some?)
  {
    var done, d := dead[..i], dead[i];
    assert dead[..i + 1] == done + [d] && (done + [d])[..i] == done;
    assert forall c :: c in done + [d] <==> c in done || c == d;
  }

  // ----- main results -----

  lemma {:induction false} MergedAllKeeps(m: AliasMap, live: seq<string>, dead: seq<string>, n: nat)
    requires Flat(m) && Apart(m, live, dead) && n <= |dead|
    ensures Flat(MergedAll(m, live, dead[..n]))
    ensures forall c :: c in live || c in dead[n..] ==> IsRoot(MergedAll(m, live, dead[..n]), c)
  {
    if n > 0 {
      var d := dead[n - 1];
      MergedAllKeeps(m, live, dead, n - 1);
      assert dead[..n][..n - 1] == dead[..n - 1] && d in dead[n - 1..];
      if Target(live, d).Some? {
        var before := MergedAll(m, live, dead[..n - 1]);
        var l := Target(live, d).value;
        MergeKeepsFlat(before, d, l, false);
        forall c | c in live || c in dead[n..] ensures IsRoot(MergedAll(m, live, dead[..n]), c) {
          assert c in live || c in dead[n - 1..];
          MergedLinks(before, d, l, false, c);
          if d in before { assert FlatAt(before, d); }
        }
      } else {
        assert forall c :: c in dead[n..] ==> c in dead[n - 1..];
      }
    }
  }

  /** Whenever the loop merges, it merges a root into another, named root. */
  lemma NextCanMerge(m: AliasMap, live: seq<string>, dead: seq<string>, i: nat)
    requires Flat(m) && Apart(m, live, dead) && i < |dead| && Target(live, dead[i]).Some?
    ensures CanMerge(MergedAll(m, live, dead[..i]), dead[i], Target(live, dead[i]).value)
  {
    MergedAllKeeps(m, live, dead, i);
    assert dead[i] in dead[i..];
  }

  lemma CheckKeepsFlat(m: AliasMap, live: seq<string>, dead: seq<string>)
    requires Flat(m) && Apart(m, live, dead)
    ensures Flat(MergedAll(m, live, dead))
  {
    assert dead[..|dead|] == dead;
    MergedAllKeeps(m, live, dead, |dead|);
  }

  lemma ApartInit(m: AliasMap, live: seq<string>, init: seq<string>, d: string)
    requires Apart(m, live, init + [d])
    ensures Apart(m, live, init) && d !in init && d !in live
    ensures forall c :: c in init + [d] <==> c in init || c == d
  {
    var dead := init + [d];
    assert dead[|init|] == d;
    forall i, j | 0 <= i < j < |init| ensures init[i] != init[j] {
      assert dead[i] == init[i] && dead[j] == init[j] && dead[i] != dead[j];
    }
    forall i | 0 <= i < |init| ensures init[i] != d && init[i] in dead {
      assert dead[i] == init[i] && dead[i] != dead[|init|];
    }
  }

  lemma {:induction false} CheckRedirects(m: AliasMap, live: seq<string>, dead: seq<string>, x: string)
    requires Flat(m) && Apart(m, live, dead)
    ensures Resolve(MergedAll(m, live, dead), x) == Redirected(live, dead, Resolve(m, x))
  {
    if dead != [] {
      var n := |dead| - 1;
      var init, d := dead[..n], dead[n];
      assert dead == init + [d];
      ApartInit(m, live, init, d);
      CheckRedirects(m, live, init, x);
      if Target(live, d).Some? {
        MergedAllKeeps(m, live, dead, n);
        NextCanMerge(m, live, dead, n);
        MergeIsQuotient(MergedAll(m, live, init), d, Target(live, d).value, false, x);
      }
    }
  }

  /** The whole check keeps the forest flat, sends what resolved to a dead project with just one live
      namesake to that namesake, and moves nothing else. */
  lemma CheckIsQuotient(m: AliasMap, live: seq<string>, dead: seq<string>, x: string)
    requires Flat(m) && Apart(m, live, dead)
    ensures Flat(MergedAll(m, live, dead))
    ensures MovesTo(live, dead, Resolve(m, x), Resolve(MergedAll(m, live, dead), x))
  {
    CheckKeepsFlat(m, live, dead);
    CheckRedirects(m, live, dead, x);
    var root := Resolve(m, x);
    forall l ensures Target(live, root) == Some(l) <==> OnlyNamesake(live, root, l) {
      TargetIff(live, root, l);
    }
  }

  lemma AllMove(m: AliasMap, live: seq<string>, dead: seq<string>)
    ensures
      var m' := MergedAll(m, live, dead);
      Flat(m) && Apart(m, live, dead) ==> Flat(m') && forall x :: MovesTo(live, dead, Resolve(m, x), Resolve(m', x))
  {
    if Flat(m) && Apart(m, live, dead) {
      CheckKeepsFlat(m, live, dead);
      forall x ensures MovesTo(live, dead, Resolve(m, x), Resolve(MergedAll(m, live, dead), x)) {
        CheckIsQuotient(m, live, dead, x);
      }
    }
  }

  /** What the program passes to the loop is fit for it, as long as the listed projects are roots. */
  lemma ListedAreApart(m: AliasMap, cwds: seq<string>, exist: set<string>)
    requires NoDuplicates(cwds) && "" !in cwds
    ensures StillRoots(m, cwds) ==> Apart(m, Living(m, exist, cwds, true), Living(m, exist, cwds, false))
  {
  }

  /** They are when nothing has changed since they were listed. */
  lemma ListedAreRoots(m: AliasMap, history: seq<Option<string>>)
    ensures NoDuplicates(ListRoots(m, history)) && "" !in ListRoots(m, history) && StillRoots(m, ListRoots(m, history))
  {
  }

  /** One turn of the loop keeps a flat forest flat exactly when it merges nothing, or the dead project is
      a root still, or in its target already, and the target is a root still. */
  lemma TurnKeepsFlatIff(m: AliasMap, live: seq<string>, d: string)
    requires Flat(m)
    ensures
      var target := Target(live, d);
      Flat(if target.Some? then Merged(m, d, target.value, false) else m) <==>
        target.None? || CanMerge(m, d, target.value)
  {
    if Target(live, d).Some? {
      MergeKeepsFlatIff(m, d, Target(live, d).value, false);
    }
  }
}
