/** Merging is a quotient: exactly when it keeps the forest flat, and what it does to resolving. */
module MergeLaws {
  import opened Prelude
  import opened Merges

  // ----- lists -----

  lemma {:induction false} AppendNewMembers(ps: seq<string>, more: seq<string>)
    ensures forall c :: c in AppendNew(ps, more) <==> c in ps || c in more
    ensures NoDuplicates(ps) ==> NoDuplicates(AppendNew(ps, more))
  {
    if more != [] {
      AppendNewMembers(ps, more[..|more| - 1]);
      assert more == more[..|more| - 1] + [more[|more| - 1]];
    }
  }

  lemma {:induction false} WithoutMembers(ps: seq<string>, c: string)
    ensures forall x :: x in Without(ps, c) <==> x in ps && x != c
    ensures NoDuplicates(ps) ==> NoDuplicates(Without(ps, c))
  {
    if ps != [] {
      WithoutMembers(ps[..|ps| - 1], c);
      if NoDuplicates(ps) && ps[|ps| - 1] != c {
        DisjointConcat(Without(ps[..|ps| - 1], c), [ps[|ps| - 1]]);
      }
      assert ps == ps[..|ps| - 1] + [ps[|ps| - 1]];
    }
  }

  // ----- merging -----

  /** A path may be merged into a different, named root if it is a root, or is merged there already. */
  predicate CanMerge(m: AliasMap, from: string, into: string) {
    into != "" && from != into && IsRoot(m, into) && (IsRoot(m, from) || MergedInto(m, from) == Some(into))
  }

  // The links of the merged aliases.
  lemma MergedLinks(m: AliasMap, from: string, into: string, handName: bool, k: string)
    requires Flat(m)
    ensures
      var m' := Merged(m, from, into, handName);
      && MergedInto(m', k) == (if k == from || k in Paths(m, from) then Truthy(Some(into)) else MergedInto(m, k))
      && (k != into && k != from ==> Paths(m', k) == Paths(m, k))
      && (from != into ==> Paths(m', from) == [])
  {
    if k in Paths(m, from) {
      assert FlatAt(m, from);
      assert MergedInto(m, k).Some?;
    }
  }

  lemma MergedList(m: AliasMap, from: string, into: string, handName: bool)
    requires Flat(m) && from != into
    ensures
      var ps := Paths(Merged(m, from, into, handName), into);
      && NoDuplicates(ps)
      && forall q :: q in ps <==> q in Paths(m, into) || q == from || q in Paths(m, from)
  {
    if into in m {
      assert FlatAt(m, into);
    }
    AppendNewMembers(Paths(m, into), [from] + Paths(m, from));
  }

  lemma MergeKeepsFlat(m: AliasMap, from: string, into: string, handName: bool)
    requires Flat(m) && CanMerge(m, from, into)
    ensures Flat(Merged(m, from, into, handName))
  {
    var m' := Merged(m, from, into, handName);
    MergedList(m, from, into, handName);
    MergedLinks(m, from, into, handName, into);
    forall c | c in m' ensures FlatAt(m', c) {
      MergeKeepsFlatAt(m, from, into, handName, c);
    }
  }

  lemma MergeKeepsFlatAt(m: AliasMap, from: string, into: string, handName: bool, c: string)
    requires Flat(m) && CanMerge(m, from, into)
    ensures FlatAt(Merged(m, from, into, handName), c)
  {
    var m' := Merged(m, from, into, handName);
    assert forall k :: k in m ==> FlatAt(m, k);
    MergedList(m, from, into, handName);
    MergedLinks(m, from, into, handName, c);
    MergedLinks(m, from, into, handName, into);
    forall q | q in Paths(m', c) ensures MergedInto(m', q) == Some(c) {
      MergedLinks(m, from, into, handName, q);
    }
    if MergedInto(m', c).Some? {
      MergedLinks(m, from, into, handName, MergedInto(m', c).value);
    }
  }

  // Where the forest breaks otherwise.
  lemma MergeBreaksAt(m: AliasMap, from: string, into: string, handName: bool) returns (c: string)
    requires Flat(m) && !CanMerge(m, from, into)
    ensures c in Merged(m, from, into, handName) && !FlatAt(Merged(m, from, into, handName), c)
  {
    MergedLinks(m, from, into, handName, from);
    MergedLinks(m, from, into, handName, into);
    if into == "" {
      MergedListsFrom(m, from, into, handName);
      c := into;
    } else if from == into || !IsRoot(m, into) {
      c := from;
    } else {
      c := MergedInto(m, from).value;
      assert FlatAt(m, from);
      MergedLinks(m, from, into, handName, c);
    }
  }

  /** doMerge and doRepoint keep the flat forest exactly when the path may be merged. */
  lemma MergeKeepsFlatIff(m: AliasMap, from: string, into: string, handName: bool)
    requires Flat(m)
    ensures Flat(Merged(m, from, into, handName)) <==> CanMerge(m, from, into)
  {
    if CanMerge(m, from, into) {
      MergeKeepsFlat(m, from, into, handName);
    } else {
      var c := MergeBreaksAt(m, from, into, handName);
    }
  }

  lemma MergedListsFrom(m: AliasMap, from: string, into: string, handName: bool)
    requires Flat(m)
    ensures from in Paths(Merged(m, from, into, handName), into)
  {
    AppendNewMembers(if from == into then [] else Paths(m, into), [from] + Paths(m, from));
  }

  /** After a merge, what resolved to the merged path resolves to its new root, and nothing else
      moves. */
  lemma MergeIsQuotient(m: AliasMap, from: string, into: string, handName: bool, x: string)
    requires Flat(m) && CanMerge(m, from, into)
    ensures Resolve(Merged(m, from, into, handName), x) == if Resolve(m, x) == from then into else Resolve(m, x)
  {
    MergeKeepsFlat(m, from, into, handName);
    FlatResolve(m, x);
    FlatResolve(Merged(m, from, into, handName), x);
    MergedLinks(m, from, into, handName, x);
    if x in m { assert FlatAt(m, x); }
    if from in m { assert FlatAt(m, from); }
  }

  /** Merging touches no other project's name or emoji, and repointing hands the name on. */
  lemma MergeKeepsNames(m: AliasMap, from: string, into: string, handName: bool, x: string)
    requires from != into && x in m && x != from
    ensures
      var a := Merged(m, from, into, handName)[x];
      && a.emoji == m[x].emoji
      && (x != into || !handName ==> a.name == m[x].name)
      && (x == into && handName && from in m ==>
            a.name == if Truthy(m[x].name).Some? || Truthy(m[from].name).None? then m[x].name else m[from].name)
  {
  }

  /** A root that had no alias yet gets one, with the name that is handed on and nothing else but its
      list. */
  lemma MergeOpensRoot(m: AliasMap, from: string, into: string, handName: bool)
    requires Flat(m) && CanMerge(m, from, into) && into !in m
    ensures
      var a := Merged(m, from, into, handName)[into];
      && a.emoji == None && a.mergedInto == None
      && (a.name.Some? <==> handName && from in m && m[from].name.Some? && m[from].name.value != "")
      && (a.name.Some? ==> a.name == m[from].name)
  {
    if from in m {
      assert FlatAt(m, from);
    }
  }

  lemma {:induction false} AppendAllNew(ps: seq<string>, more: seq<string>)
    requires NoDuplicates(ps + more)
    ensures AppendNew(ps, more) == ps + more
  {
    if more != [] {
      var init, last := more[..|more| - 1], more[|more| - 1];
      assert ps + more == ps + init + [last];
      assert (ps + more)[..|ps + init|] == ps + init && (ps + more)[|ps + init|] == last;
      AppendAllNew(ps, init);
    } else {
      assert ps + more == ps;
    }
  }

  /** What a merge of one root into another writes: the merged path keeps a link and nothing else, its
      own paths are linked on, and the lists are joined in order. No other alias changes. */
  lemma MergeRewrites(m: AliasMap, from: string, into: string, handName: bool)
    requires Flat(m) && CanMerge(m, from, into) && IsRoot(m, from)
    ensures
      var m' := Merged(m, from, into, handName);
      && m'.Keys == m.Keys + {from, into}
      && m'[from] == Alias(None, None, Some(into), None)
      && Paths(m', into) == Paths(m, into) + [from] + Paths(m, from)
      && (forall q :: q in Paths(m, from) ==> q in m && m'[q] == m[q].(mergedInto := Some(into)))
      && (forall k :: k in m && k != from && k != into && k !in Paths(m, from) ==> m'[k] == m[k])
  {
    ListsAreApart(m, from, into);
    AppendAllNew(Paths(m, into), [from] + Paths(m, from));
    assert Paths(m, into) + ([from] + Paths(m, from)) == Paths(m, into) + [from] + Paths(m, from);
    assert from in m ==> FlatAt(m, from);
  }

  lemma ListsAreApart(m: AliasMap, from: string, into: string)
    requires Flat(m) && CanMerge(m, from, into) && IsRoot(m, from)
    ensures NoDuplicates(Paths(m, into) + ([from] + Paths(m, from)))
  {
    var mine, handed := Paths(m, into), Paths(m, from);
    assert (from in m ==> FlatAt(m, from)) && (into in m ==> FlatAt(m, into));
    DisjointConcat([from], handed);
    DisjointConcat(mine, [from] + handed);
  }

  // ----- unmerging -----

  /** A path may be taken out if nothing is merged into it, and it is not merged elsewhere. */
  predicate CanUnmerge(m: AliasMap, secondary: string, primary: string) {
    Paths(m, secondary) == [] && (IsRoot(m, secondary) || MergedInto(m, secondary) == Some(primary))
  }

  lemma UnmergedLinks(m: AliasMap, secondary: string, primary: string, k: string)
    ensures
      var m' := Unmerged(m, secondary, primary);
      && MergedInto(m', k) == (if k == secondary then None else MergedInto(m, k))
      && Paths(m', k) == (if k == secondary then [] else
                          if k == primary then Without(Paths(m, k), secondary) else Paths(m, k))
  {
  }

  // The paths of ps other than c, in order, are those at these places.
  ghost predicate LeftAt(ps: seq<string>, c: string, left: seq<string>, at: seq<nat>) {
    ElementsAt(ps, at, left) && forall i {:trigger i in at} :: 0 <= i < |ps| ==> (i in at <==> ps[i] != c)
  }

  lemma {:induction false} WithoutLeaves(ps: seq<string>, c: string) returns (at: seq<nat>)
    ensures LeftAt(ps, c, Without(ps, c), at)
  {
    if ps == [] {
      at := [];
    } else {
      var init, last := ps[..|ps| - 1], ps[|ps| - 1];
      at := WithoutLeaves(init, c);
      ElementsNext(init, at, Without(init, c), last);
      assert ps == init + [last];
      at := if last == c then at else at + [|init|];
    }
  }

  /** What an unmerge writes: the path's alias goes, its primary keeps its name, emoji and link and the
      rest of its list in order, with no list once nothing is left, and no other alias changes. */
  lemma UnmergeRewrites(m: AliasMap, secondary: string, primary: string) returns (at: seq<nat>)
    ensures
      var m' := Unmerged(m, secondary, primary);
      && m'.Keys == m.Keys - {secondary}
      && (forall k :: k in m' && k != primary ==> m'[k] == m[k])
      && (primary in m' ==>
            && m'[primary].name == m[primary].name && m'[primary].emoji == m[primary].emoji
            && m'[primary].mergedInto == m[primary].mergedInto
            && m'[primary].mergedPaths != Some([])
            && LeftAt(Paths(m, primary), secondary, Paths(m', primary), at))
  {
    at := WithoutLeaves(Paths(m, primary), secondary);
  }

  lemma UnmergeKeepsFlatAt(m: AliasMap, secondary: string, primary: string, c: string)
    requires Flat(m) && CanUnmerge(m, secondary, primary)
    ensures FlatAt(Unmerged(m, secondary, primary), c)
  {
    var m' := Unmerged(m, secondary, primary);
    assert forall k :: k in m ==> FlatAt(m, k);
    UnmergedLinks(m, secondary, primary, c);
    WithoutMembers(Paths(m, primary), secondary);
    forall q | q in Paths(m', c) ensures MergedInto(m', q) == Some(c) {
      UnmergedLinks(m, secondary, primary, q);
    }
    if MergedInto(m', c).Some? {
      UnmergedLinks(m, secondary, primary, MergedInto(m', c).value);
    }
  }

  lemma UnmergeBreaksAt(m: AliasMap, secondary: string, primary: string) returns (c: string)
    requires Flat(m) && !CanUnmerge(m, secondary, primary)
    ensures c in Unmerged(m, secondary, primary) && !FlatAt(Unmerged(m, secondary, primary), c)
  {
    assert FlatAt(m, secondary);
    UnmergedLinks(m, secondary, primary, secondary);
    if Paths(m, secondary) != [] {
      c := Paths(m, secondary)[0];
      assert c in Paths(m, secondary) && FlatAt(m, c);
    } else {
      c := MergedInto(m, secondary).value;
    }
    UnmergedLinks(m, secondary, primary, c);
  }

  /** doUnmerge keeps the flat forest exactly when the path may be taken out. */
  lemma UnmergeKeepsFlatIff(m: AliasMap, secondary: string, primary: string)
    requires Flat(m)
    ensures Flat(Unmerged(m, secondary, primary)) <==> CanUnmerge(m, secondary, primary)
  {
    if CanUnmerge(m, secondary, primary) {
      forall c | c in Unmerged(m, secondary, primary) ensures FlatAt(Unmerged(m, secondary, primary), c) {
        UnmergeKeepsFlatAt(m, secondary, primary, c);
      }
    } else {
      var c := UnmergeBreaksAt(m, secondary, primary);
    }
  }

  /** After an unmerge the path stands for itself again, and nothing else moves. */
  lemma UnmergeSplits(m: AliasMap, secondary: string, primary: string, x: string)
    requires Flat(m) && CanUnmerge(m, secondary, primary)
    ensures Resolve(Unmerged(m, secondary, primary), x) == if x == secondary then x else Resolve(m, x)
  {
    UnmergeKeepsFlatIff(m, secondary, primary);
    FlatResolve(m, x);
    FlatResolve(Unmerged(m, secondary, primary), x);
    UnmergedLinks(m, secondary, primary, x);
  }

  /** Merging a project nobody is merged into and unmerging it again resolves every path as before. */
  lemma UnmergeUndoesMerge(m: AliasMap, from: string, into: string, handName: bool, x: string)
    requires Flat(m) && CanMerge(m, from, into) && IsRoot(m, from) && Paths(m, from) == []
    ensures
      var m' := Merged(m, from, into, handName);
      && Flat(Unmerged(m', from, into))
      && Resolve(Unmerged(m', from, into), x) == Resolve(m, x)
  {
    var m' := Merged(m, from, into, handName);
    MergeKeepsFlat(m, from, into, handName);
    MergedLinks(m, from, into, handName, from);
    UnmergeKeepsFlatIff(m', from, into);
    UnmergeSplits(m', from, into, x);
    MergeIsQuotient(m, from, into, handName, x);
    FlatResolve(m, x);
    if x in m && MergedInto(m, x).Some? { assert FlatAt(m, x); }
  }

  // ----- every alias map there can be -----

  /** What the user and the dead-path check do to the aliases: merge or repoint one root into another,
      take out a listed path, name a project. */
  datatype Op =
    | Merge(from: string, into: string, handName: bool)
    | Unmerge(secondary: string, primary: string)
    | Rename(cwd: string, name: string)

  predicate Guarded(m: AliasMap, op: Op) {
    match op
    case Merge(from, into, _) => into != "" && from != into && IsRoot(m, from) && IsRoot(m, into)
    case Unmerge(secondary, primary) => secondary in Paths(m, primary)
    case Rename(_, _) => true
  }

  ghost function Apply(m: AliasMap, op: Op): AliasMap {
    match op
    case Merge(from, into, handName) => Merged(m, from, into, handName)
    case Unmerge(secondary, primary) => Unmerged(m, secondary, primary)
    case Rename(cwd, name) => m[cwd := (if cwd in m then m[cwd] else NO_ALIAS).(name := Some(name))]
  }

  ghost predicate AllGuarded(run: seq<Op>)
    decreases |run|, 0
  {
    run == [] || (AllGuarded(run[..|run| - 1]) && Guarded(AliasesAfter(run[..|run| - 1]), run[|run| - 1]))
  }

  ghost function AliasesAfter(run: seq<Op>): AliasMap
    decreases |run|, 1
  {
    if run == [] then map[] else Apply(AliasesAfter(run[..|run| - 1]), run[|run| - 1])
  }

  lemma GuardedKeepsFlat(m: AliasMap, op: Op)
    requires Flat(m) && Guarded(m, op)
    ensures Flat(Apply(m, op))
  {
    match op
    case Merge(from, into, handName) => MergeKeepsFlatIff(m, from, into, handName);
    case Unmerge(secondary, primary) =>
      ListedIsLeaf(m, secondary, primary);
      UnmergeKeepsFlatIff(m, secondary, primary);
    case Rename(cwd, name) => RenameKeepsFlat(m, cwd, name);
  }

  lemma OwnerIsRoot(m: AliasMap, c: string, q: string)
    requires Flat(m) && q in Paths(m, c)
    ensures IsRoot(m, c)
  {
    assert FlatAt(m, c);
    assert FlatAt(m, q);
  }

  // Nothing is merged into a listed path.
  lemma ListedIsLeaf(m: AliasMap, secondary: string, primary: string)
    requires Flat(m) && secondary in Paths(m, primary)
    ensures CanUnmerge(m, secondary, primary)
  {
    assert FlatAt(m, primary);
    forall q | q in Paths(m, secondary) ensures IsRoot(m, secondary) {
      OwnerIsRoot(m, secondary, q);
    }
    EmptyIff(Paths(m, secondary));
  }

  lemma EmptyIff(ps: seq<string>)
    ensures ps == [] <==> forall q :: q !in ps
  {
    if ps != [] {
      assert ps[0] in ps;
    }
  }

  lemma RenameKeepsFlat(m: AliasMap, cwd: string, name: string)
    requires Flat(m)
    ensures Flat(Apply(m, Rename(cwd, name)))
  {
    var m' := Apply(m, Rename(cwd, name));
    assert forall c :: MergedInto(m', c) == MergedInto(m, c) && Paths(m', c) == Paths(m, c);
    forall c | c in m' ensures FlatAt(m', c) {
      assert c in m ==> FlatAt(m, c);
    }
  }

  /** However the user and the check change the aliases, starting from none, the forest is flat. */
  lemma {:induction false} ReachableIsFlat(run: seq<Op>)
    requires AllGuarded(run)
    ensures Flat(AliasesAfter(run))
  {
    if run != [] {
      var init := run[..|run| - 1];
      ReachableIsFlat(init);
      GuardedKeepsFlat(AliasesAfter(init), run[|run| - 1]);
    }
  }
}
