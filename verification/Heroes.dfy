/** Assigning heroes to projects (src-tauri/src/characters/assign.rs). */
module Heroes {
  import opened Prelude

  datatype Avatar = NoAvatar | Character(hero: string) | OtherAvatar(value: string)

  datatype Project = Project(id: string, name: string, avatar: Avatar)

  // ----- picking one hero -----

  predicate IsLetter(c: char) {
    'a' <= c <= 'z' || 'A' <= c <= 'Z'
  }

  function FirstLetter(name: string): Option<char> {
    if name == [] then None
    else if IsLetter(name[0]) then Some(LowerChar(name[0]))
    else FirstLetter(name[1..])
  }

  predicate IsAsciiLetter(code: int) {
    97 <= code <= 122 || 65 <= code <= 90
  }

  /** The first letter of the name, of A to Z in either case, is at k, and l is it in lower case. */
  ghost predicate FirstLetterAt(name: string, k: nat, l: char) {
    && k < |name| && IsAsciiLetter(name[k] as int)
    && (forall j :: 0 <= j < k ==> !IsAsciiLetter(name[j] as int))
    && l as int == if name[k] as int <= 90 then name[k] as int + 32 else name[k] as int
  }

  /** A project's letter is the first ASCII letter of its name, in lower case; a name without letters
      has none. */
  lemma {:induction false} FirstLetterIs(name: string) returns (k: nat)
    ensures FirstLetter(name).None? <==> forall j :: 0 <= j < |name| ==> !IsAsciiLetter(name[j] as int)
    ensures FirstLetter(name).Some? ==> FirstLetterAt(name, k, FirstLetter(name).value)
  {
    k := 0;
    if name != [] && !IsLetter(name[0]) {
      k := FirstLetterIs(name[1..]);
      assert forall j :: 1 <= j < |name| ==> name[j] == name[1..][j - 1];
      k := k + 1;
    }
  }

  predicate StartsWith(hero: string, letter: Option<char>) {
    letter.Some? && hero != [] && hero[0] == letter.value
  }

  function Free(pool: seq<string>, taken: set<string>): seq<string> {
    if pool == [] then []
    else Free(pool[..|pool| - 1], taken) + if pool[|pool| - 1] in taken then [] else [pool[|pool| - 1]]
  }

  function FirstStarting(heroes: seq<string>, letter: Option<char>): (r: Option<nat>)
    ensures r.Some? ==> r.value < |heroes|
  {
    if heroes == [] then None
    else
      var init := FirstStarting(heroes[..|heroes| - 1], letter);
      if init.None? && StartsWith(heroes[|heroes| - 1], letter) then Some(|heroes| - 1) else init
  }

  lemma {:induction false} FirstStartingIs(heroes: seq<string>, letter: Option<char>)
    ensures
      var r := FirstStarting(heroes, letter);
      && (r.Some? ==> StartsWith(heroes[r.value], letter))
      && forall j :: 0 <= j < (if r.Some? then r.value else |heroes|) ==> !StartsWith(heroes[j], letter)
  {
    if heroes != [] {
      var init := heroes[..|heroes| - 1];
      FirstStartingIs(init, letter);
      assert forall j :: 0 <= j < |init| ==> init[j] == heroes[j];
    }
  }

  function PickFrom(projectName: string, pool: seq<string>, taken: set<string>): (r: Option<string>)
    ensures r.None? <==> pool == []
  {
    if pool == [] then None
    else
      var letter := FirstLetter(projectName);
      var free := Free(pool, taken);
      var from := if free != [] then free else pool;
      Some(Choice(from, letter))
  }

  /** How good a choice a hero is: not being taken counts most, then the first letter. */
  function Rank(hero: string, letter: Option<char>, taken: set<string>): nat {
    (if hero in taken then 0 else 2) + (if StartsWith(hero, letter) then 1 else 0)
  }

  ghost predicate FirstBest(pool: seq<string>, i: nat, letter: Option<char>, taken: set<string>) {
    && i < |pool|
    && (forall j :: 0 <= j < |pool| ==> Rank(pool[j], letter, taken) <= Rank(pool[i], letter, taken))
    && (forall j :: 0 <= j < i ==> Rank(pool[j], letter, taken) < Rank(pool[i], letter, taken))
  }

  lemma {:induction false} NoneFree(pool: seq<string>, n: nat, taken: set<string>)
    requires n <= |pool| && Free(pool[..n], taken) == []
    ensures forall j :: 0 <= j < n ==> pool[j] in taken
  {
    if n > 0 {
      assert pool[..n][..n - 1] == pool[..n - 1];
      NoneFree(pool, n - 1, taken);
    }
  }

  // The last hero of the pool does not change the best one, or is the best one.
  lemma BestStays(pool: seq<string>, i: nat, letter: Option<char>, taken: set<string>)
    requires pool != [] && FirstBest(pool[..|pool| - 1], i, letter, taken)
    requires Rank(pool[|pool| - 1], letter, taken) <= Rank(pool[i], letter, taken)
    ensures FirstBest(pool, i, letter, taken)
  {
    assert forall j :: 0 <= j < |pool| - 1 ==> pool[..|pool| - 1][j] == pool[j];
  }

  lemma LastIsBest(pool: seq<string>, letter: Option<char>, taken: set<string>, most: nat)
    requires pool != [] && most < Rank(pool[|pool| - 1], letter, taken)
    requires forall j :: 0 <= j < |pool| - 1 ==> Rank(pool[j], letter, taken) <= most
    ensures FirstBest(pool, |pool| - 1, letter, taken)
  {
  }

  // No hero but the last is better than the best of the others.
  lemma OthersRank(pool: seq<string>, i: nat, letter: Option<char>, taken: set<string>)
    requires pool != [] && FirstBest(pool[..|pool| - 1], i, letter, taken)
    ensures i < |pool| - 1
    ensures forall j :: 0 <= j < |pool| - 1 ==> Rank(pool[j], letter, taken) <= Rank(pool[i], letter, taken)
  {
    var init := pool[..|pool| - 1];
    forall j | 0 <= j < |pool| - 1 ensures Rank(pool[j], letter, taken) <= Rank(pool[i], letter, taken) {
      assert init[j] == pool[j] && init[i] == pool[i];
    }
  }

  /** The hero taken from a list: the first with the letter, or else the first. */
  function Choice(heroes: seq<string>, letter: Option<char>): string
    requires heroes != []
  {
    heroes[GetOr(FirstStarting(heroes, letter), 0)]
  }

  lemma ChoiceNext(heroes: seq<string>, last: string, letter: Option<char>)
    requires heroes != []
    ensures Choice(heroes + [last], letter) ==
      if FirstStarting(heroes, letter).None? && StartsWith(last, letter) then last else Choice(heroes, letter)
    ensures FirstStarting(heroes, letter).Some? <==> StartsWith(Choice(heroes, letter), letter)
  {
    FirstStartingIs(heroes, letter);
    assert (heroes + [last])[..|heroes|] == heroes;
  }

  /** The pick is the first hero of the pool among the best: free before taken, then the project's
      first letter before any other. */
  lemma PickIsFirstBest(projectName: string, pool: seq<string>, taken: set<string>) returns (i: nat)
    ensures pool == [] ==> PickFrom(projectName, pool, taken) == None
    ensures pool != [] ==>
      FirstBest(pool, i, FirstLetter(projectName), taken) && PickFrom(projectName, pool, taken) == Some(pool[i])
  {
    var letter := FirstLetter(projectName);
    if pool == [] {
      i := 0;
    } else if Free(pool, taken) == [] {
      assert pool[..|pool|] == pool;
      NoneFree(pool, |pool|, taken);
      FirstStartingIs(pool, letter);
      i := GetOr(FirstStarting(pool, letter), 0);
    } else {
      i := FreePick(pool, taken, letter);
    }
  }

  predicate LeadsWith(hero: string, letter: Option<char>) {
    letter.Some? && [letter.value] <= hero
  }

  /** hero is taken only if the other is, and leads with the letter if the other does and is as free; an
      other that comes earlier is less free, or lacks the letter. */
  predicate Prefers(hero: string, other: string, letter: Option<char>, taken: set<string>, later: bool) {
    && (hero in taken ==> other in taken)
    && (!LeadsWith(hero, letter) && (other in taken ==> hero in taken) ==> !LeadsWith(other, letter))
    && (later || (other in taken && hero !in taken) || (LeadsWith(hero, letter) && !LeadsWith(other, letter)))
  }

  /** The pick is taken only if every hero is; it leads with the project's letter if any hero as free as
      it does; and it is the first such hero of the pool. */
  lemma PickPrefers(projectName: string, pool: seq<string>, taken: set<string>) returns (i: nat)
    requires pool != []
    ensures i < |pool| && PickFrom(projectName, pool, taken) == Some(pool[i])
    ensures forall j :: 0 <= j < |pool| ==>
      Prefers(pool[i], pool[j], FirstLetter(projectName), taken, i <= j)
  {
    i := PickIsFirstBest(projectName, pool, taken);
    var letter := FirstLetter(projectName);
    forall j | 0 <= j < |pool| ensures Prefers(pool[i], pool[j], letter, taken, i <= j) {
      RankPrefers(pool, i, letter, taken, j);
    }
  }

  lemma RankPrefers(pool: seq<string>, i: nat, letter: Option<char>, taken: set<string>, j: nat)
    requires FirstBest(pool, i, letter, taken) && j < |pool|
    ensures Prefers(pool[i], pool[j], letter, taken, i <= j)
  {
    LeadsIffStarts(pool[i], letter);
    LeadsIffStarts(pool[j], letter);
  }

  lemma LeadsIffStarts(hero: string, letter: Option<char>)
    ensures LeadsWith(hero, letter) <==> StartsWith(hero, letter)
  {
    if LeadsWith(hero, letter) {
      assert hero[0] == [letter.value][0];
    }
  }

  // How the last hero of the pool changes the choice among the free ones.
  lemma ChoiceFromPool(init: seq<string>, last: string, taken: set<string>, letter: Option<char>)
    ensures
      var free, all := Free(init, taken), Free(init + [last], taken);
      && (free == [] && all != [] ==> last !in taken && Choice(all, letter) == last)
      && (free != [] ==>
            && all != []
            && Choice(all, letter) ==
                 (if last !in taken && !StartsWith(Choice(free, letter), letter) && StartsWith(last, letter) then last
                  else Choice(free, letter)))
  {
    assert (init + [last])[..|init|] == init;
    var free, all := Free(init, taken), Free(init + [last], taken);
    if free != [] {
      ChoiceNext(free, last, letter);
      assert all == if last in taken then free else free + [last];
    }
  }

  lemma {:induction false} FreePick(pool: seq<string>, taken: set<string>, letter: Option<char>) returns (i: nat)
    requires Free(pool, taken) != []
    ensures FirstBest(pool, i, letter, taken) && pool[i] !in taken
    ensures pool[i] == Choice(Free(pool, taken), letter)
  {
    var init := pool[..|pool| - 1];
    if Free(init, taken) == [] {
      i := LastFree(pool, taken, letter);
    } else {
      i := FreePick(init, taken, letter);
      i := OneMore(pool, i, taken, letter);
    }
  }

  lemma LastFree(pool: seq<string>, taken: set<string>, letter: Option<char>) returns (i: nat)
    requires Free(pool, taken) != [] && Free(pool[..|pool| - 1], taken) == []
    ensures FirstBest(pool, i, letter, taken) && pool[i] !in taken
    ensures pool[i] == Choice(Free(pool, taken), letter)
  {
    i := |pool| - 1;
    NoneFree(pool, i, taken);
    assert Free(pool, taken) == [pool[i]];
    LastIsBest(pool, letter, taken, 1);
  }

  lemma OneMore(pool: seq<string>, i0: nat, taken: set<string>, letter: Option<char>) returns (i: nat)
    requires pool != [] && Free(pool[..|pool| - 1], taken) != []
    requires FirstBest(pool[..|pool| - 1], i0, letter, taken) && pool[i0] !in taken
    requires pool[i0] == Choice(Free(pool[..|pool| - 1], taken), letter)
    ensures Free(pool, taken) != []
    ensures FirstBest(pool, i, letter, taken) && pool[i] !in taken
    ensures pool[i] == Choice(Free(pool, taken), letter)
  {
    var init, last := pool[..|pool| - 1], pool[|pool| - 1];
    assert pool == init + [last];
    ChoiceFromPool(init, last, taken, letter);
    OthersRank(pool, i0, letter, taken);
    if last !in taken && !StartsWith(pool[i0], letter) && StartsWith(last, letter) {
      LastIsBest(pool, letter, taken, 2);
      i := |pool| - 1;
    } else {
      BestStays(pool, i0, letter, taken);
      i := i0;
    }
  }

  // ----- the order projects are processed in -----

  /** By name without case, then by id. */
  predicate Before(p: Project, q: Project) {
    StrLess(Lower(p.name), Lower(q.name)) || (Lower(p.name) == Lower(q.name) && StrLess(p.id, q.id))
  }

  /** Names that differ in more than case are ordered by their lower case; names that do not, by id. */
  lemma BeforeIs(p: Project, q: Project, a: string, b: string)
    requires LowersTo(p.name, a) && LowersTo(q.name, b)
    ensures a != b ==> (Before(p, q) <==> StrLess(a, b))
    ensures a == b ==> (Before(p, q) <==> StrLess(p.id, q.id))
  {
    LowerIs(p.name);
    LowerIs(q.name);
    LowersToOne(p.name, a, Lower(p.name));
    LowersToOne(q.name, b, Lower(q.name));
    StrLessTotal(a, b);
  }

  lemma BeforeTotal(p: Project, q: Project)
    ensures !(Before(p, q) && Before(q, p))
    ensures Before(p, q) || Before(q, p) || (Lower(p.name) == Lower(q.name) && p.id == q.id)
  {
    StrLessTotal(Lower(p.name), Lower(q.name));
    StrLessTotal(p.id, q.id);
  }

  lemma BeforeTransitive(p: Project, q: Project, r: Project)
    requires !Before(q, p) && !Before(r, q)
    ensures !Before(r, p)
    ensures Before(p, q) || Before(q, r) ==> Before(p, r)
  {
    StrLessTotal(Lower(p.name), Lower(q.name));
    StrLessTotal(Lower(q.name), Lower(r.name));
    StrLessTotal(Lower(p.name), Lower(r.name));
    StrLessTotal(p.id, q.id);
    StrLessTotal(q.id, r.id);
    StrLessTotal(p.id, r.id);
    if StrLess(Lower(p.name), Lower(q.name)) && StrLess(Lower(q.name), Lower(r.name)) {
      StrLessTransitive(Lower(p.name), Lower(q.name), Lower(r.name));
    }
    if StrLess(p.id, q.id) && StrLess(q.id, r.id) {
      StrLessTransitive(p.id, q.id, r.id);
    }
  }

  ghost predicate Sorted(ps: seq<Project>, order: seq<nat>) {
    && (forall k :: 0 <= k < |order| ==> order[k] < |ps|)
    && (forall k, l :: 0 <= k < l < |order| ==> !Before(ps[order[l]], ps[order[k]]))
  }

  /** The indices 0..n in stable order of their projects, as a stable sort leaves them. */
  function Order(ps: seq<Project>, n: nat): (order: seq<nat>)
    requires n <= |ps|
    ensures Sorted(ps, order)
    ensures |order| == n && NoDuplicates(order) && forall i: nat :: i in order <==> i < n
  {
    if n == 0 then [] else Insert(ps, Order(ps, n - 1), n - 1)
  }

  // i goes after everything it does not come before.
  function Insert(ps: seq<Project>, order: seq<nat>, i: nat): (r: seq<nat>)
    requires i < |ps| && Sorted(ps, order) && NoDuplicates(order) && i !in order
    ensures Sorted(ps, r)
    ensures |r| == |order| + 1 && NoDuplicates(r) && forall j :: j in r <==> j in order || j == i
  {
    if order == [] then [i]
    else
      var init, last := order[..|order| - 1], order[|order| - 1];
      assert order == init + [last];
      if Before(ps[i], ps[last]) then
        var r := Insert(ps, init, i);
        InsertedBelow(ps, init, r, i, last);
        r + [last]
      else
        NothingBefore(ps, order, i);
        order + [i]
  }

  lemma InsertedBelow(ps: seq<Project>, init: seq<nat>, r: seq<nat>, i: nat, last: nat)
    requires i < |ps| && last < |ps| && Sorted(ps, init + [last]) && Sorted(ps, r) && NoDuplicates(r)
    requires NoDuplicates(init + [last]) && i != last && Before(ps[i], ps[last])
    requires forall j :: j in r <==> j in init || j == i
    ensures Sorted(ps, r + [last]) && NoDuplicates(r + [last])
  {
    BeforeTotal(ps[i], ps[last]);
    forall k | 0 <= k < |r| ensures !Before(ps[last], ps[r[k]]) && r[k] != last {
      assert r[k] in r;
      if r[k] != i {
        var l :| 0 <= l < |init| && init[l] == r[k];
        assert (init + [last])[l] == r[k] && (init + [last])[|init|] == last;
      }
    }
  }

  lemma NothingBefore(ps: seq<Project>, order: seq<nat>, i: nat)
    requires i < |ps| && order != [] && Sorted(ps, order) && NoDuplicates(order) && i !in order
    requires !Before(ps[i], ps[order[|order| - 1]])
    ensures Sorted(ps, order + [i]) && NoDuplicates(order + [i])
  {
    forall k | 0 <= k < |order| ensures !Before(ps[i], ps[order[k]]) {
      BeforeTotal(ps[order[k]], ps[order[k]]);
      BeforeTransitive(ps[order[k]], ps[order[|order| - 1]], ps[i]);
    }
    DisjointConcat(order, [i]);
  }

  // Projects that tie stay as they are listed.
  ghost predicate Stable(ps: seq<Project>, order: seq<nat>) {
    && (forall k :: 0 <= k < |order| ==> order[k] < |ps|)
    && forall k, l :: 0 <= k < l < |order| ==> Before(ps[order[k]], ps[order[l]]) || order[k] < order[l]
  }

  /** The order is stable, as Rust's sort_by is. */
  lemma {:induction false} OrderIsStable(ps: seq<Project>, n: nat)
    requires n <= |ps|
    ensures Stable(ps, Order(ps, n))
  {
    if n > 0 {
      OrderIsStable(ps, n - 1);
      InsertIsStable(ps, Order(ps, n - 1), n - 1);
    }
  }

  lemma {:induction false} InsertIsStable(ps: seq<Project>, order: seq<nat>, i: nat)
    requires i < |ps| && Sorted(ps, order) && NoDuplicates(order) && Stable(ps, order)
    requires forall j :: j in order ==> j < i
    ensures Stable(ps, Insert(ps, order, i))
  {
    if order != [] {
      var init, last := order[..|order| - 1], order[|order| - 1];
      assert order == init + [last];
      StableInit(ps, order, i);
      if Before(ps[i], ps[last]) {
        InsertIsStable(ps, init, i);
        StableEnd(ps, init, last, i, Insert(ps, init, i));
      } else {
        StableAfter(ps, order, i);
      }
    }
  }

  lemma StableInit(ps: seq<Project>, order: seq<nat>, i: nat)
    requires order != [] && Sorted(ps, order) && NoDuplicates(order) && Stable(ps, order)
    requires forall j :: j in order ==> j < i
    ensures
      var init := order[..|order| - 1];
      Sorted(ps, init) && NoDuplicates(init) && Stable(ps, init) && forall j :: j in init ==> j < i
  {
    var init := order[..|order| - 1];
    forall k | 0 <= k < |init| ensures init[k] == order[k] < i {
      assert order[k] in order;
    }
  }

  lemma StableEnd(ps: seq<Project>, init: seq<nat>, last: nat, i: nat, r: seq<nat>)
    requires i < |ps| && Stable(ps, init + [last]) && Stable(ps, r) && last < |ps| && Before(ps[i], ps[last])
    requires forall j :: j in r <==> j in init || j == i
    ensures Stable(ps, r + [last])
  {
    forall k | 0 <= k < |r| ensures Before(ps[r[k]], ps[last]) || r[k] < last {
      assert r[k] in r;
      if r[k] != i {
        var l :| 0 <= l < |init| && init[l] == r[k];
        assert (init + [last])[l] == r[k] && (init + [last])[|init|] == last;
      }
    }
  }

  lemma StableAfter(ps: seq<Project>, order: seq<nat>, i: nat)
    requires i < |ps| && Stable(ps, order) && forall j :: j in order ==> j < i
    ensures Stable(ps, order + [i])
  {
    forall k | 0 <= k < |order| ensures order[k] < i {
      assert order[k] in order;
    }
  }

  // ----- re-rolling every project -----

  ghost function InOrder(ps: seq<Project>): (sorted: seq<Project>)
    ensures |sorted| == |ps|
  {
    var order := Order(ps, |ps|);
    seq(|ps|, k requires 0 <= k < |ps| => ps[order[k]])
  }

  function Picks(sorted: seq<Project>, pool: seq<string>): (heroes: seq<string>)
    requires pool != []
    ensures |heroes| == |sorted|
  {
    if sorted == [] then []
    else
      var heroes := Picks(sorted[..|sorted| - 1], pool);
      heroes + [PickFrom(sorted[|sorted| - 1].name, pool, ToSet(heroes)).value]
  }

  /** The first k projects of the order have their heroes, and the others are as they were. */
  ghost predicate AssignedUpTo(before: seq<Project>, order: seq<nat>, heroes: seq<string>, after: seq<Project>, k: nat)
    requires |heroes| == |order| && (forall l :: 0 <= l < |order| ==> order[l] < |before|)
  {
    && |after| == |before|
    && forall l :: 0 <= l < |order| ==>
      after[order[l]] == if l < k then before[order[l]].(avatar := Character(heroes[l])) else before[order[l]]
  }

  ghost predicate Assigned(before: seq<Project>, pool: seq<string>, after: seq<Project>) {
    if pool == [] then after == before
    else AssignedUpTo(before, Order(before, |before|), Picks(InOrder(before), pool), after, |before|)
  }

  class Settings {
    var projects: seq<Project>

    constructor (ps: seq<Project>)
      ensures projects == ps
    {
      projects := ps;
    }

    method BackfillWithPool(pool: seq<string>) returns (count: nat)
      modifies this
      ensures Assigned(old(projects), pool, projects)
      ensures count == if pool == [] then 0 else |projects|
    {
      if pool == [] {
        return 0;
      }
      var order := Order(projects, |projects|);
      ghost var before := projects;
      ghost var heroes := Picks(InOrder(projects), pool);
      var taken: set<string> := {};
      count := 0;
      for k := 0 to |order|
        invariant count == k && taken == ToSet(heroes[..k])
        invariant AssignedUpTo(before, order, heroes, projects, k)
      {
        var idx := order[k];
        HeroAt(before, pool, k);
        var hero := PickFrom(projects[idx].name, pool, taken);
        if hero.Some? {
          taken := taken + {hero.value};
          AssignStep(before, order, heroes, projects, k);
          projects := projects[idx := projects[idx].(avatar := Character(hero.value))];
          count := count + 1;
        }
      }
    }
  }

  lemma AssignStep(before: seq<Project>, order: seq<nat>, heroes: seq<string>, after: seq<Project>, k: nat)
    requires |heroes| == |order| && k < |order| && NoDuplicates(order)
    requires forall l :: 0 <= l < |order| ==> order[l] < |before|
    requires AssignedUpTo(before, order, heroes, after, k)
    ensures
      var p := after[order[k]].(avatar := Character(heroes[k]));
      AssignedUpTo(before, order, heroes, after[order[k] := p], k + 1)
  {
  }

  lemma {:induction false} PicksPrefix(sorted: seq<Project>, pool: seq<string>, k: nat)
    requires pool != [] && k <= |sorted|
    ensures Picks(sorted[..k], pool) == Picks(sorted, pool)[..k]
  {
    if k < |sorted| {
      var init := sorted[..|sorted| - 1];
      PicksPrefix(init, pool, k);
      assert init[..k] == sorted[..k];
    } else {
      assert sorted[..k] == sorted;
    }
  }

  // Hero k is picked for project k of the order with the earlier ones taken.
  lemma HeroAt(ps: seq<Project>, pool: seq<string>, k: nat)
    requires k < |ps| && pool != []
    ensures
      var heroes := Picks(InOrder(ps), pool);
      && PickFrom(ps[Order(ps, |ps|)[k]].name, pool, ToSet(heroes[..k])) == Some(heroes[k])
      && ToSet(heroes[..k + 1]) == ToSet(heroes[..k]) + {heroes[k]}
  {
    HeroOfSorted(InOrder(ps), pool, k);
  }

  lemma HeroOfSorted(sorted: seq<Project>, pool: seq<string>, k: nat)
    requires k < |sorted| && pool != []
    ensures
      var heroes := Picks(sorted, pool);
      && PickFrom(sorted[k].name, pool, ToSet(heroes[..k])) == Some(heroes[k])
      && ToSet(heroes[..k + 1]) == ToSet(heroes[..k]) + {heroes[k]}
  {
    PicksPrefix(sorted, pool, k);
    PicksPrefix(sorted, pool, k + 1);
    LastHero(sorted[..k + 1], pool);
    assert sorted[..k + 1][..k] == sorted[..k];
    SetOfPrefix(Picks(sorted, pool), k);
  }

  lemma LastHero(sorted: seq<Project>, pool: seq<string>)
    requires sorted != [] && pool != []
    ensures
      var n := |sorted| - 1;
      PickFrom(sorted[n].name, pool, ToSet(Picks(sorted[..n], pool))) == Some(Picks(sorted, pool)[n])
  {
  }

  lemma SetOfPrefix<T>(s: seq<T>, k: nat)
    requires k < |s|
    ensures ToSet(s[..k + 1]) == ToSet(s[..k]) + {s[k]}
  {
    assert s[..k + 1] == s[..k] + [s[k]];
  }

  // ----- main results: fair, and the same in whatever order projects are listed -----

  lemma {:induction false} FreeHeroLeft(pool: seq<string>, taken: set<string>)
    requires NoDuplicates(pool) && |taken| < |pool|
    ensures exists i :: 0 <= i < |pool| && pool[i] !in taken
  {
    NoDuplicatesSize(pool);
    if forall i :: 0 <= i < |pool| ==> pool[i] in taken {
      SubsetSize(ToSet(pool), taken);
    }
  }

  lemma {:induction false} SubsetSize<T>(a: set<T>, b: set<T>)
    requires a <= b
    ensures |a| <= |b|
  {
    if a != {} {
      var x :| x in a;
      SubsetSize(a - {x}, b - {x});
    }
  }

  lemma {:induction false} PicksAreFair(sorted: seq<Project>, pool: seq<string>)
    requires pool != [] && NoDuplicates(pool)
    ensures forall k :: 0 <= k < |sorted| ==> Picks(sorted, pool)[k] in pool
    ensures |sorted| <= |pool| ==> NoDuplicates(Picks(sorted, pool))
  {
    if sorted != [] {
      var init, name := sorted[..|sorted| - 1], sorted[|sorted| - 1].name;
      PicksAreFair(init, pool);
      var i := PickIsFirstBest(name, pool, ToSet(Picks(init, pool)));
      assert pool[i] in pool;
      if |sorted| <= |pool| {
        NewPickIsFree(name, Picks(init, pool), pool);
      }
    }
  }

  // While heroes are left, the next pick is not taken.
  lemma NewPickIsFree(name: string, heroes: seq<string>, pool: seq<string>)
    requires NoDuplicates(pool) && NoDuplicates(heroes) && |heroes| < |pool|
    ensures
      var hero := PickFrom(name, pool, ToSet(heroes)).value;
      hero !in heroes && NoDuplicates(heroes + [hero])
  {
    var i := PickIsFirstBest(name, pool, ToSet(heroes));
    NoDuplicatesSize(heroes);
    FreeHeroLeft(pool, ToSet(heroes));
    DisjointConcat(heroes, [pool[i]]);
  }

  lemma PicksUseWholePool(sorted: seq<Project>, pool: seq<string>)
    requires pool != [] && NoDuplicates(pool) && |pool| <= |sorted|
    ensures NoDuplicates(Picks(sorted, pool)[..|pool|])
    ensures ToSet(Picks(sorted, pool)[..|pool|]) == ToSet(pool)
  {
    var n := |pool|;
    PicksPrefix(sorted, pool, n);
    var first := Picks(sorted[..n], pool);
    PicksAreFair(sorted[..n], pool);
    NoDuplicatesSize(first);
    NoDuplicatesSize(pool);
    assert ToSet(first) <= ToSet(pool);
    SubsetSame(ToSet(first), ToSet(pool));
  }

  // The place in the order where a project got its hero.
  lemma PickOf(ps: seq<Project>, pool: seq<string>, ps': seq<Project>, i: nat) returns (k: nat)
    requires pool != [] && Assigned(ps, pool, ps') && i < |ps|
    ensures k < |ps| && Order(ps, |ps|)[k] == i && ps'[i].avatar == Character(Picks(InOrder(ps), pool)[k])
  {
    assert i in Order(ps, |ps|);
    k :| 0 <= k < |ps| && Order(ps, |ps|)[k] == i;
  }

  /** Every project gets a hero of the pool, and as long as the pool lasts no two projects get the
      same one. */
  lemma HeroesAreDistinct(ps: seq<Project>, pool: seq<string>, ps': seq<Project>)
    requires pool != [] && NoDuplicates(pool) && Assigned(ps, pool, ps')
    ensures |ps'| == |ps| && forall i :: 0 <= i < |ps| ==> ps'[i].avatar.Character? && ps'[i].avatar.hero in pool
    ensures |ps| <= |pool| ==> forall i, j :: 0 <= i < j < |ps| ==> ps'[i].avatar != ps'[j].avatar
  {
    PicksAreFair(InOrder(ps), pool);
    forall i | 0 <= i < |ps| ensures ps'[i].avatar.Character? && ps'[i].avatar.hero in pool {
      var k := PickOf(ps, pool, ps', i);
    }
    if |ps| <= |pool| {
      forall i, j | 0 <= i < j < |ps| ensures ps'[i].avatar != ps'[j].avatar {
        var k := PickOf(ps, pool, ps', i);
        var l := PickOf(ps, pool, ps', j);
        assert k < l || l < k;
      }
    }
  }

  /** What project k of the order got. */
  ghost function Got(ps: seq<Project>, ps': seq<Project>, k: nat): Avatar
    requires k < |ps| == |ps'|
  {
    ps'[Order(ps, |ps|)[k]].avatar
  }

  lemma GotPick(ps: seq<Project>, pool: seq<string>, ps': seq<Project>, k: nat)
    requires pool != [] && Assigned(ps, pool, ps') && k < |ps|
    ensures |ps'| == |ps| && Got(ps, ps', k) == Character(Picks(InOrder(ps), pool)[k])
  {
  }

  /** With more projects than heroes, the first ones in the order use the whole pool, each hero once. */
  lemma WholePoolIsUsed(ps: seq<Project>, pool: seq<string>, ps': seq<Project>)
    requires pool != [] && NoDuplicates(pool) && Assigned(ps, pool, ps') && |pool| <= |ps| == |ps'|
    ensures forall h :: h in pool ==> exists k :: 0 <= k < |pool| && Got(ps, ps', k) == Character(h)
    ensures forall k, l :: 0 <= k < l < |pool| ==> Got(ps, ps', k) != Got(ps, ps', l)
  {
    var first := Picks(InOrder(ps), pool)[..|pool|];
    PicksUseWholePool(InOrder(ps), pool);
    forall k | 0 <= k < |pool| ensures Got(ps, ps', k) == Character(first[k]) {
      GotPick(ps, pool, ps', k);
    }
    forall h | h in pool ensures exists k :: 0 <= k < |pool| && Got(ps, ps', k) == Character(h) {
      assert h in ToSet(pool);
      var k :| 0 <= k < |first| && first[k] == h;
      assert Got(ps, ps', k) == Character(h);
    }
  }

  lemma SubsetSame<T>(a: set<T>, b: set<T>)
    requires a <= b && |a| == |b|
    ensures a == b
  {
    if x :| x in b && x !in a {
      SubsetSize(a, b - {x});
    }
  }

  ghost predicate UniqueIds(ps: seq<Project>) {
    forall i, j :: 0 <= i < j < |ps| ==> ps[i].id != ps[j].id
  }

  ghost predicate StrictlySorted(s: seq<Project>) {
    forall k, l :: 0 <= k < l < |s| ==> Before(s[k], s[l])
  }

  lemma InOrderIsStrict(ps: seq<Project>)
    requires UniqueIds(ps)
    ensures StrictlySorted(InOrder(ps)) && ToSet(InOrder(ps)) == ToSet(ps)
  {
    var order, s := Order(ps, |ps|), InOrder(ps);
    forall k, l | 0 <= k < l < |s| ensures Before(s[k], s[l]) {
      BeforeTotal(s[k], s[l]);
      assert order[k] != order[l];
    }
    forall p | p in ps ensures p in s {
      var i: nat :| i < |ps| && ps[i] == p;
      assert i in order;
      var k :| 0 <= k < |order| && order[k] == i;
      assert s[k] == p;
    }
  }

  lemma {:induction false} StrictOrderIsUnique(s: seq<Project>, t: seq<Project>)
    requires StrictlySorted(s) && StrictlySorted(t) && ToSet(s) == ToSet(t)
    ensures s == t
  {
    EmptyTogether(s, t);
    if s != [] {
      LastIsGreatest(s, t);
      LastApart(s);
      LastApart(t);
      StrictOrderIsUnique(s[..|s| - 1], t[..|t| - 1]);
    }
  }

  lemma EmptyTogether<T>(s: seq<T>, t: seq<T>)
    requires ToSet(s) == ToSet(t)
    ensures s == [] <==> t == []
  {
    if s != [] {
      assert s[0] in ToSet(s);
    }
    if t != [] {
      assert t[0] in ToSet(t);
    }
  }

  lemma LastIsGreatest(s: seq<Project>, t: seq<Project>)
    requires StrictlySorted(s) && StrictlySorted(t) && ToSet(s) == ToSet(t) && s != [] && t != []
    ensures s[|s| - 1] == t[|t| - 1]
  {
    var p, q := s[|s| - 1], t[|t| - 1];
    assert p in ToSet(t) && q in ToSet(s);
    BeforeTotal(p, q);
  }

  lemma LastApart(s: seq<Project>)
    requires StrictlySorted(s) && s != []
    ensures StrictlySorted(s[..|s| - 1]) && ToSet(s[..|s| - 1]) == ToSet(s) - {s[|s| - 1]}
  {
    var p := s[|s| - 1];
    forall k | 0 <= k < |s| - 1 ensures s[k] != p {
      BeforeTotal(s[k], p);
    }
    assert s == s[..|s| - 1] + [p];
  }

  /** With unique ids, a project's hero does not depend on the order the projects are listed in. */
  lemma BackfillIgnoresOrder(ps: seq<Project>, qs: seq<Project>, pool: seq<string>,
                             ps': seq<Project>, qs': seq<Project>, i: nat, j: nat)
    requires UniqueIds(ps) && UniqueIds(qs) && ToSet(ps) == ToSet(qs) && pool != []
    requires Assigned(ps, pool, ps') && Assigned(qs, pool, qs')
    requires i < |ps| && j < |qs| && ps[i].id == qs[j].id
    ensures ps'[i] == qs'[j]
  {
    InOrderIsStrict(ps);
    InOrderIsStrict(qs);
    StrictOrderIsUnique(InOrder(ps), InOrder(qs));
    var a, b := Order(ps, |ps|), Order(qs, |qs|);
    assert i in a && j in b;
    var k :| 0 <= k < |a| && a[k] == i;
    var l :| 0 <= l < |b| && b[l] == j;
    var s := InOrder(ps);
    assert s[k] == ps[i] && s[l] == qs[j];
    SameIdSamePlace(qs, k, l);
  }

  lemma SameIdSamePlace(qs: seq<Project>, k: nat, l: nat)
    requires UniqueIds(qs) && k < |qs| && l < |qs| && InOrder(qs)[k].id == InOrder(qs)[l].id
    ensures k == l
  {
    assert Order(qs, |qs|)[k] == Order(qs, |qs|)[l];
  }
}
