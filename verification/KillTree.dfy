/** Which processes a tree kill ends (src-tauri/src/channels/kill.rs, the Windows kill_tree). */
module KillTree {
  import opened Prelude

  // One process of the snapshot: its parent's pid, and its own.
  type Entry = (nat, nat)

  /** No two processes of the snapshot share a pid. */
  ghost predicate UniquePids(entries: seq<Entry>) {
    forall i, j :: 0 <= i < j < |entries| ==> entries[i].1 != entries[j].1
  }

  ghost predicate IsPath(entries: seq<Entry>, path: seq<nat>) {
    path != [] && forall i {:trigger path[i]} :: 0 <= i < |path| - 1 ==> (path[i], path[i + 1]) in entries
  }

  ghost predicate Reachable(entries: seq<Entry>, from: nat, to: nat) {
    exists path :: IsPath(entries, path) && path[0] == from && path[|path| - 1] == to
  }

  /** Every process but the first comes after its parent. */
  ghost predicate ParentsFirst(entries: seq<Entry>, pids: seq<nat>) {
    forall i :: 0 < i < |pids| ==> HasParentIn(entries, pids[..i], pids[i])
  }

  ghost predicate HasParentIn(entries: seq<Entry>, pids: seq<nat>, pid: nat) {
    exists p :: p in pids && (p, pid) in entries
  }

  ghost predicate IsPathTo(entries: seq<Entry>, from: nat, to: nat, path: seq<nat>) {
    IsPath(entries, path) && path[0] == from && path[|path| - 1] == to
  }

  /** p is no further from the root than q. */
  ghost predicate NoFurther(entries: seq<Entry>, root: nat, p: nat, q: nat) {
    forall path :: IsPathTo(entries, root, q, path) ==>
      exists shorter :: IsPathTo(entries, root, p, shorter) && |shorter| <= |path|
  }

  /** Level by level: whatever comes before the first place of a process is no further from the root. */
  ghost predicate LevelOrder(entries: seq<Entry>, root: nat, pids: seq<nat>) {
    forall i, j :: 0 <= i < j < |pids| && pids[j] !in pids[..j] ==> NoFurther(entries, root, pids[i], pids[j])
  }

  /** The pids to terminate, in order. Without a snapshot only the root is. The search ends on
      every snapshot, whatever cycles reused pids make of the parent links. */
  method PidsToKill(snapshot: Option<seq<Entry>>, pid: nat) returns (toKill: seq<nat>)
    ensures toKill != [] && toKill[0] == pid
    ensures snapshot.None? ==> toKill == [pid]
    ensures snapshot.Some? ==>
      && (forall p :: p in toKill <==> Reachable(snapshot.value, pid, p))
      && ParentsFirst(snapshot.value, toKill) && LevelOrder(snapshot.value, pid, toKill)
      && (UniquePids(snapshot.value) ==> NoDuplicates(toKill))
  {
    match snapshot {
      case None => toKill := [pid];
      case Some(entries) => toKill := CollectTree(entries, pid);
    }
  }

  method CollectTree(entries: seq<Entry>, pid: nat) returns (toKill: seq<nat>)
    ensures toKill != [] && toKill[0] == pid
    ensures forall p :: p in toKill <==> Reachable(entries, pid, p)
    ensures ParentsFirst(entries, toKill) && LevelOrder(entries, pid, toKill)
    ensures UniquePids(entries) ==> NoDuplicates(toKill)
  {
    toKill := [];
    var queue := [pid];
    ghost var depths: seq<nat> := [0];
    OnlyRoot(entries, pid);
    while queue != []
      invariant InSearch(entries, pid, toKill, queue, depths)
      decreases Pids(entries, pid) - ToSet(toKill), FirstFresh(queue, toKill)
    {
      depths := SearchTurn(entries, pid, toKill, queue, depths);
      var parent := queue[0];
      queue := queue[1..];
      toKill := toKill + [parent];
      queue := PushChildren(entries, parent, toKill, queue);
    }
    SearchEnds(entries, pid, toKill, depths);
  }

  // What every turn of the search keeps.
  ghost predicate InSearch(entries: seq<Entry>, pid: nat, toKill: seq<nat>, queue: seq<nat>, depths: seq<nat>) {
    && Searching(entries, pid, toKill, queue)
    && ParentsFirst(entries, toKill)
    && Levels(entries, pid, toKill + queue, depths, |toKill|)
    && (UniquePids(entries) ==> NoDuplicates(toKill + queue))
  }

  lemma SearchTurn(entries: seq<Entry>, pid: nat, toKill: seq<nat>, queue: seq<nat>, depths: seq<nat>)
    returns (depths': seq<nat>)
    requires queue != [] && InSearch(entries, pid, toKill, queue, depths)
    ensures
      var toKill', queue' := toKill + [queue[0]], NextQueue(entries, toKill, queue);
      var left, left' := Pids(entries, pid) - ToSet(toKill), Pids(entries, pid) - ToSet(toKill');
      && InSearch(entries, pid, toKill', queue', depths')
      && (left' < left || (left' == left && FirstFresh(queue', toKill') < FirstFresh(queue, toKill)))
  {
    SearchStep(entries, pid, toKill, queue);
    StepKeepsOrder(entries, pid, toKill, queue);
    depths' := StepKeepsLevels(entries, pid, toKill, queue, depths);
    StepDecreases(entries, pid, toKill, queue);
    if UniquePids(entries) {
      StepKeepsUnique(entries, pid, toKill, queue);
    }
  }

  lemma SearchEnds(entries: seq<Entry>, pid: nat, toKill: seq<nat>, depths: seq<nat>)
    requires InSearch(entries, pid, toKill, [], depths)
    ensures toKill != [] && toKill[0] == pid
    ensures forall p :: p in toKill <==> Reachable(entries, pid, p)
    ensures ParentsFirst(entries, toKill) && LevelOrder(entries, pid, toKill)
    ensures UniquePids(entries) ==> NoDuplicates(toKill)
  {
    assert toKill + [] == toKill;
    LevelsInOrder(entries, pid, toKill, depths);
    forall p | Reachable(entries, pid, p) ensures p in toKill {
      var path :| IsPath(entries, path) && path[0] == pid && path[|path| - 1] == p;
      PathStaysInside(entries, path, toKill);
    }
  }

  /** The inner loop: the parent's children not yet on the list join the queue. */
  method PushChildren(entries: seq<Entry>, parent: nat, toKill: seq<nat>, queue0: seq<nat>) returns (queue: seq<nat>)
    ensures queue == queue0 + Children(entries, parent, toKill)
    ensures exists at :: ChildrenAt(entries, parent, toKill, queue[|queue0|..], at)
  {
    queue := queue0;
    for i := 0 to |entries|
      invariant queue == queue0 + Children(entries[..i], parent, toKill)
    {
      assert entries[..i + 1][..i] == entries[..i];
      if entries[i].0 == parent && entries[i].1 !in toKill {
        queue := queue + [entries[i].1];
      }
    }
    assert entries[..|entries|] == entries;
    ghost var at := ChildrenInOrder(entries, parent, toKill);
    assert queue[|queue0|..] == Children(entries, parent, toKill);
  }

  ghost function Children(entries: seq<Entry>, parent: nat, killed: seq<nat>): seq<nat> {
    if entries == [] then []
    else
      var e := entries[|entries| - 1];
      Children(entries[..|entries| - 1], parent, killed) + (if e.0 == parent && e.1 !in killed then [e.1] else [])
  }

  // ----- the search -----

  // The list and the queue hold only descendants, each with its parent on the list, and every
  // child of a listed process is listed or queued.
  ghost predicate Searching(entries: seq<Entry>, pid: nat, toKill: seq<nat>, queue: seq<nat>) {
    && (if toKill == [] then queue == [pid] else toKill[0] == pid)
    && (forall p :: p in toKill || p in queue ==> Reachable(entries, pid, p))
    && (toKill != [] ==> forall p :: p in queue ==> HasParentIn(entries, toKill, p))
    && (forall e :: e in entries && e.0 in toKill ==> e.1 in toKill || e.1 in queue)
  }

  ghost function NextQueue(entries: seq<Entry>, toKill: seq<nat>, queue: seq<nat>): seq<nat>
    requires queue != []
  {
    queue[1..] + Children(entries, queue[0], toKill + [queue[0]])
  }

  lemma {:induction false} ChildrenMembers(entries: seq<Entry>, parent: nat, killed: seq<nat>)
    ensures forall c :: c in Children(entries, parent, killed) <==> c !in killed && (parent, c) in entries
  {
    if entries != [] {
      ChildrenMembers(entries[..|entries| - 1], parent, killed);
      assert entries == entries[..|entries| - 1] + [entries[|entries| - 1]];
    }
  }

  // The children of the parent that are not listed yet are those at these places, in snapshot order.
  ghost predicate ChildrenAt(entries: seq<Entry>, parent: nat, killed: seq<nat>, children: seq<nat>, at: seq<nat>) {
    && |children| == |at|
    && (forall k :: 0 <= k < |at| ==> at[k] < |entries| && entries[at[k]] == (parent, children[k]))
    && (forall k :: 0 <= k < |at| ==> children[k] !in killed)
    && (forall k, l :: 0 <= k < l < |at| ==> at[k] < at[l])
    && (forall i {:trigger i in at} ::
          0 <= i < |entries| && entries[i].0 == parent && entries[i].1 !in killed ==> i in at)
  }

  lemma {:induction false} ChildrenInOrder(entries: seq<Entry>, parent: nat, killed: seq<nat>) returns (at: seq<nat>)
    ensures ChildrenAt(entries, parent, killed, Children(entries, parent, killed), at)
  {
    if entries == [] {
      at := [];
    } else {
      var init, e := entries[..|entries| - 1], entries[|entries| - 1];
      at := ChildrenInOrder(init, parent, killed);
      ChildrenAtNext(init, e, parent, killed, Children(init, parent, killed), at);
      assert entries == init + [e];
      at := if e.0 == parent && e.1 !in killed then at + [|init|] else at;
    }
  }

  lemma ChildrenAtNext(init: seq<Entry>, e: Entry, parent: nat, killed: seq<nat>, children: seq<nat>, at: seq<nat>)
    requires ChildrenAt(init, parent, killed, children, at)
    ensures e.0 == parent && e.1 !in killed ==>
      ChildrenAt(init + [e], parent, killed, children + [e.1], at + [|init|])
    ensures e.0 != parent || e.1 in killed ==> ChildrenAt(init + [e], parent, killed, children, at)
  {
    assert forall i :: 0 <= i < |init| ==> (init + [e])[i] == init[i];
    assert |init| in at + [|init|];
  }

  lemma {:induction false} ChildrenUnique(entries: seq<Entry>, parent: nat, killed: seq<nat>)
    requires UniquePids(entries)
    ensures NoDuplicates(Children(entries, parent, killed))
  {
    if entries != [] {
      var init, e := entries[..|entries| - 1], entries[|entries| - 1];
      ChildrenUnique(init, parent, killed);
      ChildrenMembers(init, parent, killed);
      assert forall i :: 0 <= i < |init| ==> init[i] == entries[i];
    }
  }

  lemma ReachableChild(entries: seq<Entry>, pid: nat, p: nat, c: nat)
    requires Reachable(entries, pid, p) && (p, c) in entries
    ensures Reachable(entries, pid, c)
  {
    var path :| IsPath(entries, path) && path[0] == pid && path[|path| - 1] == p;
    assert IsPath(entries, path + [c]);
  }

  lemma SearchStep(entries: seq<Entry>, pid: nat, toKill: seq<nat>, queue: seq<nat>)
    requires queue != [] && Searching(entries, pid, toKill, queue)
    ensures Searching(entries, pid, toKill + [queue[0]], NextQueue(entries, toKill, queue))
  {
    var parent := queue[0];
    var toKill', queue' := toKill + [parent], NextQueue(entries, toKill, queue);
    ChildrenMembers(entries, parent, toKill');
    forall p | p in queue' ensures Reachable(entries, pid, p) && HasParentIn(entries, toKill', p) {
      if p in queue[1..] {
        assert toKill != [] && p in queue;
        var q :| q in toKill && (q, p) in entries;
        assert q in toKill';
      } else {
        ReachableChild(entries, pid, parent, p);
        assert parent in toKill' && (parent, p) in entries;
      }
    }
    forall e | e in entries && e.0 in toKill' ensures e.1 in toKill' || e.1 in queue' {
      if e.0 == parent {
        assert e == (parent, e.1);
      }
    }
  }

  lemma StepKeepsOrder(entries: seq<Entry>, pid: nat, toKill: seq<nat>, queue: seq<nat>)
    requires queue != [] && Searching(entries, pid, toKill, queue) && ParentsFirst(entries, toKill)
    ensures ParentsFirst(entries, toKill + [queue[0]])
  {
    var toKill' := toKill + [queue[0]];
    forall i | 0 < i < |toKill'| ensures HasParentIn(entries, toKill'[..i], toKill'[i]) {
      assert toKill'[..i] == toKill[..i];
      if i == |toKill| {
        assert toKill[..i] == toKill;
      }
    }
  }

  lemma StepKeepsUnique(entries: seq<Entry>, pid: nat, toKill: seq<nat>, queue: seq<nat>)
    requires UniquePids(entries) && queue != [] && Searching(entries, pid, toKill, queue)
    requires NoDuplicates(toKill + queue)
    ensures NoDuplicates(toKill + [queue[0]] + NextQueue(entries, toKill, queue))
  {
    var parent := queue[0];
    var all, children := toKill + queue, Children(entries, parent, toKill + [parent]);
    ChildrenUnique(entries, parent, toKill + [parent]);
    ChildrenMembers(entries, parent, toKill + [parent]);
    forall c | c in children ensures c !in all {
      ChildIsNew(entries, pid, toKill, queue, c);
    }
    DisjointConcat(all, children);
    Regroup(toKill, queue, children);
  }

  lemma Regroup<T>(a: seq<T>, q: seq<T>, c: seq<T>)
    requires q != []
    ensures a + [q[0]] + (q[1..] + c) == a + q + c
  {
    assert q == [q[0]] + q[1..];
  }

  lemma ChildIsNew(entries: seq<Entry>, pid: nat, toKill: seq<nat>, queue: seq<nat>, c: nat)
    requires UniquePids(entries) && queue != []
    requires Searching(entries, pid, toKill, queue) && NoDuplicates(toKill + queue)
    requires (queue[0], c) in entries && c !in toKill + [queue[0]]
    ensures c !in toKill + queue
  {
    if toKill == [] {
      assert queue == [pid];
    } else if c in queue {
      QueuedHasOtherParent(entries, toKill, queue, c);
    }
  }

  lemma QueuedHasOtherParent(entries: seq<Entry>, toKill: seq<nat>, queue: seq<nat>, c: nat)
    requires UniquePids(entries) && queue != [] && NoDuplicates(toKill + queue)
    requires HasParentIn(entries, toKill, c)
    ensures (queue[0], c) !in entries
  {
    var p :| p in toKill && (p, c) in entries;
    var k :| 0 <= k < |toKill| && toKill[k] == p;
    assert (toKill + queue)[k] != (toKill + queue)[|toKill|];
    if (queue[0], c) in entries {
      OneParent(entries, p, queue[0], c);
    }
  }

  lemma OneParent(entries: seq<Entry>, p: nat, q: nat, c: nat)
    requires UniquePids(entries) && (p, c) in entries && (q, c) in entries
    ensures p == q
  {
    var i :| 0 <= i < |entries| && entries[i] == (p, c);
    var j :| 0 <= j < |entries| && entries[j] == (q, c);
    assert i == j;
  }

  // ----- levels -----

  ghost predicate AtDepth(entries: seq<Entry>, root: nat, p: nat, depth: nat) {
    exists path :: IsPathTo(entries, root, p, path) && |path| == depth + 1
  }

  ghost predicate SeenBy(all: seq<nat>, depths: seq<nat>, p: nat, depth: nat)
    requires |depths| == |all|
  {
    exists k :: 0 <= k < |all| && all[k] == p && depths[k] <= depth
  }

  // Everything listed (the first n) or queued has a depth; depths never fall, and the queue spans two
  // levels at most.
  ghost predicate TwoLevels(depths: seq<nat>, n: nat) {
    && n <= |depths| && depths != [] && depths[0] == 0 && (n == 0 ==> |depths| == 1)
    && (forall i, j :: 0 <= i <= j < |depths| ==> depths[i] <= depths[j])
    && (n > 0 ==> forall j :: 0 <= j < |depths| ==> depths[j] <= depths[n - 1] + 1)
  }

  // Every child of a listed process is listed or queued at most one level below it.
  ghost predicate ChildrenSeen(entries: seq<Entry>, all: seq<nat>, depths: seq<nat>, n: nat)
    requires |depths| == |all| && n <= |all|
  {
    forall i, c :: 0 <= i < n && (all[i], c) in entries ==> SeenBy(all, depths, c, depths[i] + 1)
  }

  ghost predicate Levels(entries: seq<Entry>, root: nat, all: seq<nat>, depths: seq<nat>, n: nat) {
    && |depths| == |all| && TwoLevels(depths, n) && all[0] == root
    && (forall i :: 0 <= i < |all| ==> AtDepth(entries, root, all[i], depths[i]))
    && ChildrenSeen(entries, all, depths, n)
  }

  lemma OnlyRoot(entries: seq<Entry>, root: nat)
    ensures Levels(entries, root, [] + [root], [0], 0)
  {
    assert IsPathTo(entries, root, root, [root]);
  }

  // The depths once m children of process n have joined the queue.
  ghost function Deepened(depths: seq<nat>, n: nat, m: nat): (r: seq<nat>)
    requires n < |depths|
    ensures |r| == |depths| + m && r[..|depths|] == depths
    ensures forall k :: |depths| <= k < |r| ==> r[k] == depths[n] + 1
  {
    depths + seq(m, _ => depths[n] + 1)
  }

  lemma StillTwoLevels(depths: seq<nat>, n: nat, m: nat)
    requires TwoLevels(depths, n) && n < |depths|
    ensures TwoLevels(Deepened(depths, n, m), n + 1)
  {
    var d := Deepened(depths, n, m);
    forall j | 0 <= j < |d| ensures d[j] <= depths[n] + 1 && (j < |depths| ==> d[j] == depths[j]) {
      if j < |depths| {
        assert d[..|depths|][j] == d[j];
      }
    }
  }

  lemma StepKeepsLevels(entries: seq<Entry>, root: nat, toKill: seq<nat>, queue: seq<nat>, depths: seq<nat>)
    returns (depths': seq<nat>)
    requires queue != [] && Levels(entries, root, toKill + queue, depths, |toKill|)
    ensures
      Levels(entries, root, toKill + [queue[0]] + NextQueue(entries, toKill, queue), depths', |toKill| + 1)
  {
    var all, n, listed := toKill + queue, |toKill|, toKill + [queue[0]];
    var children := Children(entries, queue[0], listed);
    Regroup(toKill, queue, children);
    depths' := Deepened(depths, n, |children|);
    StillTwoLevels(depths, n, |children|);
    ChildrenMembers(entries, queue[0], listed);
    ChildrenAtDepth(entries, root, all, depths, n, children);
    assert all[..n + 1] == listed;
    ChildrenSeenNext(entries, all, depths, n, children);
  }

  lemma ChildrenAtDepth(entries: seq<Entry>, root: nat, all: seq<nat>, depths: seq<nat>, n: nat, children: seq<nat>)
    requires Levels(entries, root, all, depths, n) && n < |all|
    requires forall c :: c in children ==> (all[n], c) in entries
    ensures
      var all', depths' := all + children, Deepened(depths, n, |children|);
      forall k :: 0 <= k < |all'| ==> AtDepth(entries, root, all'[k], depths'[k])
  {
    var all', depths' := all + children, Deepened(depths, n, |children|);
    forall k | 0 <= k < |all'| ensures AtDepth(entries, root, all'[k], depths'[k]) {
      if k < |all| {
        assert AtDepth(entries, root, all[k], depths[k]) && depths'[k] == depths'[..|depths|][k];
      } else {
        assert AtDepth(entries, root, all[n], depths[n]) && children[k - |all|] in children;
        var path :| IsPathTo(entries, root, all[n], path) && |path| == depths[n] + 1;
        assert IsPathTo(entries, root, all'[k], path + [all'[k]]);
      }
    }
  }

  lemma ChildrenSeenNext(entries: seq<Entry>, all: seq<nat>, depths: seq<nat>, n: nat, children: seq<nat>)
    requires |depths| == |all| && n < |all| && TwoLevels(depths, n) && ChildrenSeen(entries, all, depths, n)
    requires forall c :: c in children <==> c !in all[..n + 1] && (all[n], c) in entries
    ensures ChildrenSeen(entries, all + children, Deepened(depths, n, |children|), n + 1)
  {
    var all', depths' := all + children, Deepened(depths, n, |children|);
    forall i, c | 0 <= i < n + 1 && (all'[i], c) in entries ensures SeenBy(all', depths', c, depths'[i] + 1) {
      assert depths'[i] == depths'[..|depths|][i] == depths[i];
      var k := ChildPlace(entries, all, depths, n, children, i, c);
    }
  }

  lemma ChildPlace(entries: seq<Entry>, all: seq<nat>, depths: seq<nat>, n: nat, children: seq<nat>, i: nat, c: nat)
    returns (k: nat)
    requires |depths| == |all| && n < |all| && TwoLevels(depths, n) && ChildrenSeen(entries, all, depths, n)
    requires forall c :: c in children <==> c !in all[..n + 1] && (all[n], c) in entries
    requires i <= n && (all[i], c) in entries
    ensures
      var all', depths' := all + children, Deepened(depths, n, |children|);
      k < |all'| && all'[k] == c && depths'[k] <= depths[i] + 1
  {
    if i < n {
      assert SeenBy(all, depths, c, depths[i] + 1);
      k :| 0 <= k < |all| && all[k] == c && depths[k] <= depths[i] + 1;
    } else if c in all[..n + 1] {
      k :| 0 <= k < |all[..n + 1]| && all[..n + 1][k] == c;
    } else {
      var m: nat :| m < |children| && children[m] == c;
      k := |all| + m;
    }
    if k < |all| {
      assert Deepened(depths, n, |children|)[..|depths|][k] == depths[k];
    }
  }

  lemma PathBefore(entries: seq<Entry>, path: seq<nat>)
    requires IsPath(entries, path) && |path| > 1
    ensures IsPath(entries, path[..|path| - 1]) && (path[|path| - 2], path[|path| - 1]) in entries
  {
    var k := |path| - 2;
    assert (path[k], path[k + 1]) in entries;
  }

  // At the end, every path is at least as long as the depth its end is found at.
  lemma {:induction false} PathReachesDepth(entries: seq<Entry>, root: nat, pids: seq<nat>, depths: seq<nat>,
                                            path: seq<nat>)
    requires |depths| == |pids| && TwoLevels(depths, |pids|) && pids[0] == root
    requires ChildrenSeen(entries, pids, depths, |pids|)
    requires IsPath(entries, path) && path[0] == root
    ensures SeenBy(pids, depths, path[|path| - 1], |path| - 1)
  {
    if |path| > 1 {
      var init := path[..|path| - 1];
      PathBefore(entries, path);
      PathReachesDepth(entries, root, pids, depths, init);
      var k :| 0 <= k < |pids| && pids[k] == path[|path| - 2] && depths[k] <= |path| - 2;
      assert SeenBy(pids, depths, path[|path| - 1], depths[k] + 1);
    }
  }

  lemma LevelsInOrder(entries: seq<Entry>, root: nat, pids: seq<nat>, depths: seq<nat>)
    requires Levels(entries, root, pids, depths, |pids|)
    ensures LevelOrder(entries, root, pids)
  {
    forall i, j | 0 <= i < j < |pids| && pids[j] !in pids[..j] ensures NoFurther(entries, root, pids[i], pids[j]) {
      FirstPlaceIsLeast(entries, root, pids, depths, i, j);
    }
  }

  lemma FirstPlaceIsLeast(entries: seq<Entry>, root: nat, pids: seq<nat>, depths: seq<nat>, i: nat, j: nat)
    requires Levels(entries, root, pids, depths, |pids|) && i < j < |pids| && pids[j] !in pids[..j]
    ensures NoFurther(entries, root, pids[i], pids[j])
  {
    assert AtDepth(entries, root, pids[i], depths[i]);
    var shorter :| IsPathTo(entries, root, pids[i], shorter) && |shorter| == depths[i] + 1;
    forall m | 0 <= m < j ensures pids[m] != pids[j] {
      assert pids[..j][m] in pids[..j];
    }
    forall path | IsPathTo(entries, root, pids[j], path)
      ensures exists s :: IsPathTo(entries, root, pids[i], s) && |s| <= |path|
    {
      PathReachesDepth(entries, root, pids, depths, path);
      var k :| 0 <= k < |pids| && pids[k] == pids[j] && depths[k] <= |path| - 1;
      assert IsPathTo(entries, root, pids[i], shorter) && |shorter| <= |path|;
    }
  }

  // ----- termination -----

  function Pids(entries: seq<Entry>, pid: nat): set<nat> {
    {pid} + set e | e in entries :: e.1
  }

  function FirstFresh(queue: seq<nat>, toKill: seq<nat>): nat {
    if queue == [] || queue[0] !in toKill then 0 else 1 + FirstFresh(queue[1..], toKill)
  }

  lemma {:induction false} FreshStays(queue: seq<nat>, more: seq<nat>, toKill: seq<nat>)
    requires more == [] || exists x :: x in queue && x !in toKill
    ensures FirstFresh(queue + more, toKill) == FirstFresh(queue, toKill)
  {
    if more == [] {
      assert queue + more == queue;
    } else if queue[0] in toKill {
      assert (queue + more)[1..] == queue[1..] + more;
      FreshStays(queue[1..], more, toKill);
    }
  }

  lemma {:induction false} FreshDependsOnSet(queue: seq<nat>, a: seq<nat>, b: seq<nat>)
    requires forall x :: x in a <==> x in b
    ensures FirstFresh(queue, a) == FirstFresh(queue, b)
  {
    if queue != [] {
      FreshDependsOnSet(queue[1..], a, b);
    }
  }

  // A new pid leaves fewer to list. A pid met again has its missing children queued already, so
  // the first new pid of the queue only comes closer.
  lemma StepDecreases(entries: seq<Entry>, pid: nat, toKill: seq<nat>, queue: seq<nat>)
    requires queue != [] && Searching(entries, pid, toKill, queue)
    ensures
      var toKill' := toKill + [queue[0]];
      var left, left' := Pids(entries, pid) - ToSet(toKill), Pids(entries, pid) - ToSet(toKill');
      || left' < left
      || (left' == left && FirstFresh(NextQueue(entries, toKill, queue), toKill') < FirstFresh(queue, toKill))
  {
    var toKill' := toKill + [queue[0]];
    assert ToSet(toKill') == ToSet(toKill) + {queue[0]};
    if queue[0] in toKill {
      FreshComesCloser(entries, toKill, queue);
    } else {
      QueuedIsPid(entries, pid, toKill, queue, queue[0]);
      assert queue[0] in Pids(entries, pid) - ToSet(toKill);
    }
  }

  lemma FreshComesCloser(entries: seq<Entry>, toKill: seq<nat>, queue: seq<nat>)
    requires queue != [] && queue[0] in toKill
    requires forall e :: e in entries && e.0 in toKill ==> e.1 in toKill || e.1 in queue
    ensures FirstFresh(NextQueue(entries, toKill, queue), toKill + [queue[0]]) < FirstFresh(queue, toKill)
  {
    var parent := queue[0];
    var toKill' := toKill + [parent];
    var children := Children(entries, parent, toKill');
    ChildrenMembers(entries, parent, toKill');
    if children != [] {
      assert children[0] in children && (parent, children[0]) in entries;
      assert queue == [parent] + queue[1..];
      assert children[0] in queue[1..];
    }
    FreshStays(queue[1..], children, toKill');
    FreshDependsOnSet(queue[1..], toKill, toKill');
  }

  lemma QueuedIsPid(entries: seq<Entry>, pid: nat, toKill: seq<nat>, queue: seq<nat>, c: nat)
    requires Searching(entries, pid, toKill, queue) && c in queue
    ensures c in Pids(entries, pid)
  {
    if toKill != [] {
      var p :| p in toKill && (p, c) in entries;
      assert (p, c).1 == c;
    }
  }

  lemma {:induction false} PathStaysInside(entries: seq<Entry>, path: seq<nat>, toKill: seq<nat>)
    requires IsPath(entries, path) && path[0] in toKill
    requires forall e :: e in entries && e.0 in toKill ==> e.1 in toKill
    ensures path[|path| - 1] in toKill
  {
    if |path| > 1 {
      assert (path[0], path[0 + 1]) in entries;
      assert (path[0], path[1]).1 in toKill;
      PathStaysInside(entries, path[1..], toKill);
    }
  }
}
