/** Project aliases that merge one working directory into another (src/shared/merges.ts). */
module Merges {
  import opened Prelude

  /** An alias entry. An absent field is None; the program also takes "" for an absent string. */
  datatype Alias = Alias(
    name: Option<string>, emoji: Option<string>, mergedInto: Option<string>, mergedPaths: Option<seq<string>>)

  const NO_ALIAS := Alias(None, None, None, None)

  type AliasMap = map<string, Alias>

  function Truthy(s: Option<string>): Option<string> {
    if s == Some("") then None else s
  }

  function MergedInto(m: AliasMap, c: string): Option<string> {
    if c in m then Truthy(m[c].mergedInto) else None
  }

  function Paths(m: AliasMap, c: string): seq<string> {
    if c in m then GetOr(m[c].mergedPaths, []) else []
  }

  predicate IsRoot(m: AliasMap, c: string) {
    MergedInto(m, c).None?
  }

  /** A forest of depth one, linked both ways: what a path is merged into is a root that lists it,
      and a list has no duplicates and holds only paths merged into its owner. */
  ghost predicate Flat(m: AliasMap) {
    forall c :: c in m ==> FlatAt(m, c)
  }

  ghost predicate FlatAt(m: AliasMap, c: string) {
    && (MergedInto(m, c).Some? ==> IsRoot(m, MergedInto(m, c).value) && c in Paths(m, MergedInto(m, c).value))
    && NoDuplicates(Paths(m, c))
    && (forall q :: q in Paths(m, c) ==> MergedInto(m, q) == Some(c))
  }

  // ----- resolving -----

  /** Follows mergedInto links until a root, or a path met before. */
  function ResolveFrom(m: AliasMap, cur: string, seen: set<string>): string
    decreases m.Keys - seen
  {
    if MergedInto(m, cur).Some? && cur !in seen then
      assert cur in m.Keys - seen;
      ResolveFrom(m, MergedInto(m, cur).value, seen + {cur})
    else cur
  }

  function Resolve(m: AliasMap, cwd: string): string {
    ResolveFrom(m, cwd, {})
  }

  /** Ends on every map, cyclic ones included. */
  method ResolveMergeChain(cwd: string, aliases: AliasMap) returns (cur: string)
    ensures cur == Resolve(aliases, cwd)
  {
    cur := cwd;
    var seen: set<string> := {};
    while MergedInto(aliases, cur).Some? && cur !in seen
      invariant ResolveFrom(aliases, cur, seen) == Resolve(aliases, cwd)
      decreases aliases.Keys - seen
    {
      assert cur in aliases.Keys - seen;
      seen := seen + {cur};
      cur := MergedInto(aliases, cur).value;
    }
  }

  // The links followed from path[0] on.
  ghost predicate IsChain(m: AliasMap, path: seq<string>) {
    path != [] && forall i {:trigger path[i]} :: 0 <= i < |path| - 1 ==> MergedInto(m, path[i]) == Some(path[i + 1])
  }

  lemma {:induction false} ResolveFromEnds(m: AliasMap, done: seq<string>, cur: string) returns (done': seq<string>)
    requires IsChain(m, done + [cur]) && NoDuplicates(done)
    ensures NoDuplicates(done')
    ensures
      var end := ResolveFrom(m, cur, ToSet(done));
      done + [cur] <= done' + [end] && IsChain(m, done' + [end]) && (IsRoot(m, end) || end in done')
    decreases m.Keys - ToSet(done)
  {
    if MergedInto(m, cur).Some? && cur !in ToSet(done) {
      assert cur in m.Keys - ToSet(done);
      LongerChain(m, done, cur);
      done' := ResolveFromEnds(m, done + [cur], MergedInto(m, cur).value);
    } else {
      done' := done;
    }
  }

  lemma LongerChain(m: AliasMap, done: seq<string>, cur: string)
    requires IsChain(m, done + [cur]) && NoDuplicates(done) && cur !in done && MergedInto(m, cur).Some?
    ensures IsChain(m, done + [cur] + [MergedInto(m, cur).value])
    ensures NoDuplicates(done + [cur]) && ToSet(done + [cur]) == ToSet(done) + {cur}
  {
    DisjointConcat(done, [cur]);
    assert forall i :: 0 <= i <= |done| ==> (done + [cur] + [MergedInto(m, cur).value])[i] == (done + [cur])[i];
  }

  /** The result lies at the end of the chain of links from cwd, no path on it twice: it is a root,
      or, on a cycle, the first path met again. */
  lemma ResolveEndsTheChain(m: AliasMap, cwd: string) returns (done: seq<string>)
    ensures IsChain(m, done + [Resolve(m, cwd)]) && (done + [Resolve(m, cwd)])[0] == cwd
    ensures NoDuplicates(done)
    ensures IsRoot(m, Resolve(m, cwd)) || Resolve(m, cwd) in done
  {
    assert ToSet<string>([]) == {};
    done := ResolveFromEnds(m, [], cwd);
    assert ([] + [cwd])[0] == cwd;
  }

  lemma FlatResolve(m: AliasMap, cwd: string)
    requires Flat(m)
    ensures Resolve(m, cwd) == GetOr(MergedInto(m, cwd), cwd)
    ensures IsRoot(m, Resolve(m, cwd))
  {
    if cwd in m && MergedInto(m, cwd).Some? {
      assert FlatAt(m, cwd);
      var root := MergedInto(m, cwd).value;
      assert ResolveFrom(m, root, {} + {cwd}) == root;
    }
  }

  // ----- what the operations must do -----

  /** ps, followed by what of new it does not hold yet. */
  function AppendNew(ps: seq<string>, new_: seq<string>): seq<string> {
    if new_ == [] then ps
    else
      var q := AppendNew(ps, new_[..|new_| - 1]);
      if new_[|new_| - 1] in q then q else q + [new_[|new_| - 1]]
  }

  // The alias of k after from's alias has been replaced by a link to into.
  function Linked(m: AliasMap, from: string, into: string, k: string): Alias {
    if k == from then Alias(None, None, Some(into), None) else if k in m then m[k] else NO_ALIAS
  }

  // The name that into ends up with: doRepoint hands the old name on unless there is one.
  function NameAfter(m: AliasMap, from: string, into: string, handName: bool): Option<string> {
    var mine := Linked(m, from, into, into).name;
    var old_ := if from in m then Truthy(m[from].name) else None;
    if handName && old_.Some? && Truthy(mine).None? then old_ else mine
  }

  /** The aliases after from was merged into into, alias by alias. */
  ghost function Merged(m: AliasMap, from: string, into: string, handName: bool): AliasMap {
    map k | k in m.Keys + {from, into} ::
      var base := Linked(m, from, into, k);
      var listed := if k == into
        then base.(mergedPaths := Some(AppendNew(GetOr(base.mergedPaths, []), [from] + Paths(m, from))),
                   name := NameAfter(m, from, into, handName))
        else base;
      if k in Paths(m, from) then listed.(mergedInto := Some(into)) else listed
  }

  ghost function Unmerged(m: AliasMap, secondary: string, primary: string): AliasMap {
    map k | k in m && k != secondary ::
      if k == primary && m[k].mergedPaths.Some? then
        var kept := Without(m[k].mergedPaths.value, secondary);
        m[k].(mergedPaths := if kept == [] then None else Some(kept))
      else m[k]
  }

  function Without(ps: seq<string>, c: string): seq<string> {
    if ps == [] then []
    else Without(ps[..|ps| - 1], c) + if ps[|ps| - 1] == c then [] else [ps[|ps| - 1]]
  }

  // ----- the programs -----

  /** The caller's alias map, changed in place. */
  class AliasStore {
    var aliases: AliasMap

    constructor (m: AliasMap)
      ensures aliases == m
    {
      aliases := m;
    }

    method DoMerge(from: string, into: string)
      modifies this
      ensures aliases == Merged(old(aliases), from, into, false)
    {
      var inherited := Paths(aliases, from);
      aliases := aliases[from := NO_ALIAS.(mergedInto := Some(into))];
      if into !in aliases {
        aliases := aliases[into := NO_ALIAS];
      }
      assert aliases == Opened(old(aliases), from, into, false);
      OpenedThenAdopted(old(aliases), from, into, false);
      AdoptPaths(from, into, inherited);
    }

    method DoRepoint(from: string, into: string)
      modifies this
      ensures aliases == Merged(old(aliases), from, into, true)
    {
      var oldName := if from in aliases then Truthy(aliases[from].name) else None;
      var inherited := Paths(aliases, from);
      aliases := aliases[from := NO_ALIAS.(mergedInto := Some(into))];
      if into !in aliases {
        aliases := aliases[into := NO_ALIAS];
      }
      if oldName.Some? && Truthy(aliases[into].name).None? {
        aliases := aliases[into := aliases[into].(name := oldName)];
      }
      assert aliases == Opened(old(aliases), from, into, true);
      OpenedThenAdopted(old(aliases), from, into, true);
      AdoptPaths(from, into, inherited);
    }

    /** The end of doMerge and doRepoint: from, and every path merged into it, is listed under into. */
    method AdoptPaths(from: string, into: string, inherited: seq<string>)
      requires into in aliases
      modifies this
      ensures aliases == Adopted(old(aliases), from, into, inherited)
    {
      AddPath(into, from);
      for i := 0 to |inherited|
        invariant aliases == Adopted(old(aliases), from, into, inherited[..i])
      {
        AdoptedNext(old(aliases), from, into, inherited, i);
        var p := inherited[i];
        AddPath(into, p);
        if p in aliases {
          aliases := aliases[p := aliases[p].(mergedInto := Some(into))];
        }
      }
      assert inherited[..|inherited|] == inherited;
    }

    method AddPath(into: string, p: string)
      requires into in aliases
      modifies this
      ensures
        var m := old(aliases);
        aliases == m[into := m[into].(mergedPaths := Some(AppendNew(Paths(m, into), [p])))]
    {
      var paths := GetOr(aliases[into].mergedPaths, []);
      if p !in paths {
        paths := paths + [p];
      }
      assert [p][..0] == [];
      aliases := aliases[into := aliases[into].(mergedPaths := Some(paths))];
    }

    method DoUnmerge(secondary: string, primary: string)
      modifies this
      ensures aliases == Unmerged(old(aliases), secondary, primary)
    {
      aliases := map k | k in aliases && k != secondary :: aliases[k];
      if primary in aliases && aliases[primary].mergedPaths.Some? {
        var kept := Without(aliases[primary].mergedPaths.value, secondary);
        aliases := aliases[primary := aliases[primary].(mergedPaths := if kept == [] then None else Some(kept))];
      }
    }
  }

  // into, which has an alias, lists from and the handed paths, and these are linked to it.
  ghost function Adopted(m: AliasMap, from: string, into: string, handed: seq<string>): AliasMap
    requires into in m
  {
    map k | k in m ::
      var listed := if k == into then m[k].(mergedPaths := Some(AppendNew(Paths(m, into), [from] + handed))) else m[k];
      if k in handed then listed.(mergedInto := Some(into)) else listed
  }

  // from is a link to into, which has an alias and its name.
  ghost function Opened(m: AliasMap, from: string, into: string, handName: bool): (r: AliasMap)
    ensures into in r
  {
    map k | k in m.Keys + {from, into} ::
      var base := Linked(m, from, into, k);
      if k == into then base.(name := NameAfter(m, from, into, handName)) else base
  }

  lemma OpenedThenAdopted(m: AliasMap, from: string, into: string, handName: bool)
    ensures Adopted(Opened(m, from, into, handName), from, into, Paths(m, from)) == Merged(m, from, into, handName)
  {
  }

  lemma AdoptedNext(m: AliasMap, from: string, into: string, inherited: seq<string>, i: nat)
    requires into in m && i < |inherited|
    ensures
      var a, p := Adopted(m, from, into, inherited[..i]), inherited[i];
      var b := a[into := a[into].(mergedPaths := Some(AppendNew(Paths(a, into), [p])))];
      Adopted(m, from, into, inherited[..i + 1]) == if p in b then b[p := b[p].(mergedInto := Some(into))] else b
  {
    var p := inherited[i];
    assert inherited[..i + 1] == inherited[..i] + [p];
    assert ([from] + inherited[..i + 1])[..i + 1] == [from] + inherited[..i];
    assert [p][..0] == [];
  }
}
