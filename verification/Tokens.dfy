/** Token records added up per project (src/shared/tokens.ts, aggregateByProject). */
module Tokens {
  import opened Prelude
  import opened Merges
  import opened MergeLaws

  datatype TokenRecord = TokenRecord(
    cwd: Option<string>, inputTokens: Option<int>, outputTokens: Option<int>, cacheReadTokens: Option<int>,
    cacheCreationTokens: Option<int>, turns: Option<int>,
    lastActiveAt: Option<string>, recordedAt: Option<string>, date: Option<string>)

  datatype Totals = Totals(sessions: int, input: int, output: int, cacheRead: int, cacheCreation: int, turns: int)

  datatype ProjectAggregate = ProjectAggregate(cwd: string, totals: Totals, lastDate: string)

  const UNKNOWN := "(unknown)"
  const NOTHING := Totals(0, 0, 0, 0, 0, 0)

  function Plus(a: Totals, b: Totals): Totals {
    Totals(a.sessions + b.sessions, a.input + b.input, a.output + b.output, a.cacheRead + b.cacheRead,
           a.cacheCreation + b.cacheCreation, a.turns + b.turns)
  }

  function Later(a: string, b: string): string {
    if StrLess(a, b) then b else a
  }

  // ----- one record -----

  function Or(a: Option<string>, b: Option<string>): Option<string> {
    if Truthy(a).Some? then a else b
  }

  function TimeOf(r: TokenRecord): string {
    GetOr(Or(r.lastActiveAt, Or(r.recordedAt, r.date)), "")
  }

  function TotalsOf(r: TokenRecord): Totals {
    Totals(1, GetOr(r.inputTokens, 0), GetOr(r.outputTokens, 0), GetOr(r.cacheReadTokens, 0),
           GetOr(r.cacheCreationTokens, 0), GetOr(r.turns, 0))
  }

  /** The path has the segments ".claude" and "subagents", in any case, one after the other. */
  predicate IsSubagentCwd(cwd: Option<string>) {
    cwd.Some? && exists i :: 0 <= i < |cwd.value| && SubagentAt(cwd.value, i)
  }

  predicate SubagentAt(c: string, i: nat) {
    && i + 18 < |c| && IsPathSeparator(c[i]) && IsPathSeparator(c[i + 8]) && IsPathSeparator(c[i + 18])
    && HasAt(Lower(c), i + 1, ".claude") && HasAt(Lower(c), i + 9, "subagents")
  }

  /** The path cut into separators and segments, two of them ".claude" and "subagents" but for case. */
  ghost predicate SubagentParts(c: string, pre: string, a: char, claude: string, b: char, subagents: string,
                                e: char, rest: string) {
    && c == pre + [a] + claude + [b] + subagents + [e] + rest
    && IsPathSeparator(a) && IsPathSeparator(b) && IsPathSeparator(e)
    && LowersTo(claude, ".claude") && LowersTo(subagents, "subagents")
  }

  /** A path is a subagent's exactly when somewhere in it, between separators, a segment ".claude" is
      followed by a segment "subagents". */
  lemma SubagentIff(c: string)
    ensures IsSubagentCwd(Some(c)) <==>
      exists pre, a, claude, b, subagents, e, rest :: SubagentParts(c, pre, a, claude, b, subagents, e, rest)
  {
    if i :| 0 <= i < |c| && SubagentAt(c, i) {
      PartsOfSubagent(c, i);
    }
    if pre, a, claude, b, subagents, e, rest :| SubagentParts(c, pre, a, claude, b, subagents, e, rest) {
      SubagentOfParts(c, pre, a, claude, b, subagents, e, rest);
    }
  }

  lemma PartsOfSubagent(c: string, i: nat)
    requires SubagentAt(c, i)
    ensures SubagentParts(c, c[..i], c[i], c[i + 1..i + 8], c[i + 8], c[i + 9..i + 18], c[i + 18], c[i + 19..])
  {
    LowersSlice(c, i + 1, ".claude");
    LowersSlice(c, i + 9, "subagents");
  }

  lemma LowersSlice(c: string, i: nat, low: string)
    requires HasAt(Lower(c), i, low)
    ensures LowersTo(c[i..i + |low|], low)
  {
    assert forall k :: 0 <= k < |low| ==> low[k] == Lower(c)[i + k];
  }

  lemma SubagentOfParts(c: string, pre: string, a: char, claude: string, b: char, subagents: string,
                        e: char, rest: string)
    requires SubagentParts(c, pre, a, claude, b, subagents, e, rest)
    ensures |pre| < |c| && SubagentAt(c, |pre|)
  {
    assert c[|pre| + 1..|pre| + 8] == claude && c[|pre| + 9..|pre| + 18] == subagents;
    SliceLowers(c, |pre| + 1, claude, ".claude");
    SliceLowers(c, |pre| + 9, subagents, "subagents");
  }

  lemma SliceLowers(c: string, i: nat, s: string, low: string)
    requires i + |s| <= |c| && c[i..i + |s|] == s && LowersTo(s, low)
    ensures HasAt(Lower(c), i, low)
  {
    forall k | 0 <= k < |low| ensures Lower(c)[i + k] == low[k] {
      assert c[i..i + |s|][k] == c[i + k];
    }
  }

  function KeyOf(m: AliasMap, r: TokenRecord): string {
    var c := GetOr(r.cwd, "");
    if MergedInto(m, c).Some? && Resolve(m, c) != "" then Resolve(m, c)
    else if c != "" then c
    else UNKNOWN
  }

  predicate IsBlacklisted(m: AliasMap, blacklist: seq<string>, key: string) {
    Resolve(m, key) in blacklist
  }

  predicate Kept(m: AliasMap, blacklist: seq<string>, r: TokenRecord) {
    !IsSubagentCwd(r.cwd) && !IsBlacklisted(m, blacklist, KeyOf(m, r))
  }

  // ----- what the aggregation must be -----

  // What a kept record contributes.
  datatype Entry = Entry(key: string, totals: Totals, time: string)

  ghost function Entries(m: AliasMap, blacklist: seq<string>, history: seq<TokenRecord>): seq<Entry> {
    if history == [] then []
    else
      var r := history[|history| - 1];
      Entries(m, blacklist, history[..|history| - 1]) +
        if Kept(m, blacklist, r) then [Entry(KeyOf(m, r), TotalsOf(r), TimeOf(r))] else []
  }

  /** The projects of the entries, in order of first appearance. */
  ghost function Keys(es: seq<Entry>): (keys: seq<string>)
    ensures NoDuplicates(keys)
  {
    if es == [] then []
    else
      var keys, e := Keys(es[..|es| - 1]), es[|es| - 1];
      if e.key in keys then keys else keys + [e.key]
  }

  function Add(a: ProjectAggregate, e: Entry): ProjectAggregate {
    ProjectAggregate(a.cwd, Plus(a.totals, e.totals), Later(a.lastDate, e.time))
  }

  /** The entries of one project, added up. */
  ghost function Aggregate(es: seq<Entry>, key: string): ProjectAggregate {
    if es == [] then ProjectAggregate(key, NOTHING, "")
    else
      var a, e := Aggregate(es[..|es| - 1], key), es[|es| - 1];
      if e.key == key then Add(a, e) else a
  }

  ghost function Aggregates(es: seq<Entry>): seq<ProjectAggregate> {
    seq(|Keys(es)|, i requires 0 <= i < |Keys(es)| => Aggregate(es, Keys(es)[i]))
  }

  // ----- the program -----

  /** Where each merged path leads. */
  method MergeMap(aliases: AliasMap) returns (mergeMap: map<string, string>)
    ensures mergeMap == map c | c in aliases && MergedInto(aliases, c).Some? :: Resolve(aliases, c)
  {
    mergeMap := map[];
    var todo := aliases.Keys;
    while todo != {}
      invariant todo <= aliases.Keys
      invariant mergeMap == map c | c in aliases && c !in todo && MergedInto(aliases, c).Some? :: Resolve(aliases, c)
    {
      var c :| c in todo;
      todo := todo - {c};
      if MergedInto(aliases, c).Some? {
        var root := ResolveMergeChain(c, aliases);
        mergeMap := mergeMap[c := root];
      }
    }
  }

  /** The projects met so far, in the order they were met. */
  class ProjectMap {
    var byKey: map<string, ProjectAggregate>
    var order: seq<string>

    ghost predicate Holds(es: seq<Entry>)
      reads this
    {
      && order == Keys(es)
      && byKey.Keys == ToSet(order)
      && forall k :: k in byKey ==> byKey[k] == Aggregate(es, k)
    }

    constructor ()
      ensures Holds([])
    {
      byKey, order := map[], [];
    }

    method AddEntry(key: string, totals: Totals, time: string, ghost es: seq<Entry>)
      requires Holds(es)
      modifies this
      ensures Holds(es + [Entry(key, totals, time)])
    {
      ghost var e := Entry(key, totals, time);
      assert (es + [e])[..|es|] == es;
      if key !in byKey {
        UnseenIsEmpty(es, key);
        byKey := byKey[key := ProjectAggregate(key, NOTHING, "")];
        order := order + [key];
      }
      byKey := byKey[key := Add(byKey[key], Entry(key, totals, time))];
    }

    method Values() returns (projects: seq<ProjectAggregate>)
      requires byKey.Keys == ToSet(order)
      ensures |projects| == |order|
      ensures forall i :: 0 <= i < |order| ==> order[i] in byKey && projects[i] == byKey[order[i]]
    {
      assert forall i :: 0 <= i < |order| ==> order[i] in ToSet(order);
      projects := seq(|order|, i requires 0 <= i < |order| && order[i] in byKey reads this => byKey[order[i]]);
    }
  }

  method AggregateByProject(tokenHistory: seq<TokenRecord>, aliases: AliasMap, blacklist: seq<string> := [])
    returns (projects: seq<ProjectAggregate>)
    ensures projects == Aggregates(Entries(aliases, blacklist, tokenHistory))
    ensures exists at :: Accounts(aliases, projects, KeptRecords(aliases, blacklist, tokenHistory), at)
  {
    var mergeMap := MergeMap(aliases);
    var found := new ProjectMap();
    ghost var es: seq<Entry> := [];
    for i := 0 to |tokenHistory|
      invariant es == Entries(aliases, blacklist, tokenHistory[..i]) && found.Holds(es) && fresh(found)
    {
      var r := tokenHistory[i];
      EntriesNext(aliases, blacklist, tokenHistory, i);
      var c := GetOr(r.cwd, "");
      var key := if c in mergeMap && mergeMap[c] != "" then mergeMap[c] else if c != "" then c else UNKNOWN;
      KeyOfMergeMap(aliases, mergeMap, r, key);
      if !IsSubagentCwd(r.cwd) && !(blacklist != [] && IsBlacklisted(aliases, blacklist, key)) {
        found.AddEntry(key, TotalsOf(r), TimeOf(r), es);
        es := es + [Entry(key, TotalsOf(r), TimeOf(r))];
      }
    }
    assert tokenHistory[..|tokenHistory|] == tokenHistory;
    projects := found.Values();
    ghost var at := ProjectsAccount(aliases, blacklist, tokenHistory);
  }

  lemma EntriesNext(m: AliasMap, blacklist: seq<string>, history: seq<TokenRecord>, i: nat)
    requires i < |history|
    ensures
      var r := history[i];
      Entries(m, blacklist, history[..i + 1]) == Entries(m, blacklist, history[..i]) +
        if !IsSubagentCwd(r.cwd) && !(blacklist != [] && IsBlacklisted(m, blacklist, KeyOf(m, r)))
        then [Entry(KeyOf(m, r), TotalsOf(r), TimeOf(r))] else []
  {
    assert history[..i + 1][..i] == history[..i];
  }

  lemma KeyOfMergeMap(m: AliasMap, mergeMap: map<string, string>, r: TokenRecord, key: string)
    requires mergeMap == map c | c in m && MergedInto(m, c).Some? :: Resolve(m, c)
    requires var c := GetOr(r.cwd, "");
      key == if c in mergeMap && mergeMap[c] != "" then mergeMap[c] else if c != "" then c else UNKNOWN
    ensures key == KeyOf(m, r)
  {
  }

  lemma {:induction false} UnseenIsEmpty(es: seq<Entry>, key: string)
    requires key !in Keys(es)
    ensures Aggregate(es, key) == ProjectAggregate(key, NOTHING, "")
  {
    if es != [] {
      UnseenIsEmpty(es[..|es| - 1], key);
    }
  }

  // ----- conservation -----

  ghost function SumOf(projects: seq<ProjectAggregate>): Totals {
    if projects == [] then NOTHING else Plus(SumOf(projects[..|projects| - 1]), projects[|projects| - 1].totals)
  }

  ghost function SumEntries(es: seq<Entry>): Totals {
    if es == [] then NOTHING else Plus(SumEntries(es[..|es| - 1]), es[|es| - 1].totals)
  }

  // Raising one entry raises the sum by as much.
  lemma {:induction false} SumRaised(a: seq<ProjectAggregate>, b: seq<ProjectAggregate>, k: nat, t: Totals)
    requires |a| == |b| && k < |a| && b[k].totals == Plus(a[k].totals, t)
    requires forall i :: 0 <= i < |a| && i != k ==> b[i].totals == a[i].totals
    ensures SumOf(b) == Plus(SumOf(a), t)
  {
    var n := |a| - 1;
    if k < n {
      SumRaised(a[..n], b[..n], k, t);
    } else {
      SumSame(a[..n], b[..n]);
    }
  }

  lemma {:induction false} SumSame(a: seq<ProjectAggregate>, b: seq<ProjectAggregate>)
    requires |a| == |b| && forall i :: 0 <= i < |a| ==> b[i].totals == a[i].totals
    ensures SumOf(b) == SumOf(a)
  {
    if a != [] {
      SumSame(a[..|a| - 1], b[..|b| - 1]);
    }
  }

  lemma KnownKeyRaised(es: seq<Entry>, k: nat)
    requires es != [] && k < |Keys(es[..|es| - 1])| && Keys(es[..|es| - 1])[k] == es[|es| - 1].key
    ensures
      var a, b := Aggregates(es[..|es| - 1]), Aggregates(es);
      && |a| == |b| && b[k].totals == Plus(a[k].totals, es[|es| - 1].totals)
      && forall i :: 0 <= i < |a| && i != k ==> b[i].totals == a[i].totals
  {
  }

  /** The projects add up to what the entries add up to. */
  lemma {:induction false} AggregationConserves(es: seq<Entry>)
    ensures SumOf(Aggregates(es)) == SumEntries(es)
  {
    if es != [] {
      var init, e := es[..|es| - 1], es[|es| - 1];
      AggregationConserves(init);
      var a, b := Aggregates(init), Aggregates(es);
      if e.key in Keys(init) {
        var k :| 0 <= k < |Keys(init)| && Keys(init)[k] == e.key;
        KnownKeyRaised(es, k);
        SumRaised(a, b, k, e.totals);
      } else {
        UnseenIsEmpty(init, e.key);
        SumSame(a, b[..|a|]);
      }
    }
  }

  // ----- the projects, on the records themselves -----

  ghost function Sum<T>(s: seq<T>, f: T -> int): int {
    if s == [] then 0 else Sum(s[..|s| - 1], f) + f(s[|s| - 1])
  }

  /** The records that count: those of no subagent's folder and of no project on the blacklist. */
  ghost function KeptRecords(m: AliasMap, blacklist: seq<string>, history: seq<TokenRecord>): seq<TokenRecord> {
    if history == [] then []
    else
      var r := history[|history| - 1];
      KeptRecords(m, blacklist, history[..|history| - 1]) +
        if IsSubagentCwd(r.cwd) || Resolve(m, KeyOf(m, r)) in blacklist then [] else [r]
  }

  ghost function RecordsOf(m: AliasMap, rs: seq<TokenRecord>, key: string): seq<TokenRecord> {
    if rs == [] then []
    else
      var r := rs[|rs| - 1];
      RecordsOf(m, rs[..|rs| - 1], key) + if KeyOf(m, r) == key then [r] else []
  }

  /** The number of records, and each field added up over them, an absent number counting as 0. */
  ghost predicate AddsUp(t: Totals, rs: seq<TokenRecord>) {
    && t.sessions == |rs|
    && t.input == Sum(rs, (r: TokenRecord) => GetOr(r.inputTokens, 0))
    && t.output == Sum(rs, (r: TokenRecord) => GetOr(r.outputTokens, 0))
    && t.cacheRead == Sum(rs, (r: TokenRecord) => GetOr(r.cacheReadTokens, 0))
    && t.cacheCreation == Sum(rs, (r: TokenRecord) => GetOr(r.cacheCreationTokens, 0))
    && t.turns == Sum(rs, (r: TokenRecord) => GetOr(r.turns, 0))
  }

  /** Each field added up over the projects. */
  ghost function TotalsOver(ps: seq<ProjectAggregate>): Totals {
    Totals(Sum(ps, (p: ProjectAggregate) => p.totals.sessions), Sum(ps, (p: ProjectAggregate) => p.totals.input),
           Sum(ps, (p: ProjectAggregate) => p.totals.output), Sum(ps, (p: ProjectAggregate) => p.totals.cacheRead),
           Sum(ps, (p: ProjectAggregate) => p.totals.cacheCreation), Sum(ps, (p: ProjectAggregate) => p.totals.turns))
  }

  /** When a record was last active, or else recorded, or else its day: the first that is there. */
  predicate TimeIs(r: TokenRecord, t: string) {
    if r.lastActiveAt.Some? && r.lastActiveAt.value != "" then t == r.lastActiveAt.value
    else if r.recordedAt.Some? && r.recordedAt.value != "" then t == r.recordedAt.value
    else if r.date.Some? then t == r.date.value
    else t == ""
  }

  /** t is the time of one of the records, and none is later. */
  ghost predicate LatestOf(t: string, rs: seq<TokenRecord>) {
    && (rs == [] ==> t == "")
    && (rs != [] ==> exists r :: r in rs && TimeIs(r, t))
    && (forall r, u :: r in rs && TimeIs(r, u) ==> !StrLess(t, u))
  }

  /** The keys are those of the records, in the order in which they first appear, at these places. */
  ghost predicate FirstSeen(m: AliasMap, keys: seq<string>, rs: seq<TokenRecord>, at: seq<nat>) {
    && |at| == |keys|
    && (forall k :: 0 <= k < |rs| ==> KeyOf(m, rs[k]) in keys)
    && (forall i :: 0 <= i < |at| ==> at[i] < |rs| && KeyOf(m, rs[at[i]]) == keys[i])
    && (forall i, k :: 0 <= i < |at| && 0 <= k < at[i] && k < |rs| ==> KeyOf(m, rs[k]) != keys[i])
    && (forall i, j :: 0 <= i < j < |at| ==> at[i] < at[j])
  }

  ghost function Cwds(ps: seq<ProjectAggregate>): (r: seq<string>)
    ensures |r| == |ps|
  {
    seq(|ps|, i requires 0 <= i < |ps| => ps[i].cwd)
  }

  lemma SumNext<T>(s: seq<T>, x: T, f: T -> int)
    ensures Sum(s + [x], f) == Sum(s, f) + f(x)
  {
    assert (s + [x])[..|s|] == s;
  }

  lemma AddsUpNext(t: Totals, rs: seq<TokenRecord>, r: TokenRecord)
    requires AddsUp(t, rs)
    ensures AddsUp(Plus(t, TotalsOf(r)), rs + [r])
  {
    SumNext(rs, r, (r: TokenRecord) => GetOr(r.inputTokens, 0));
    SumNext(rs, r, (r: TokenRecord) => GetOr(r.outputTokens, 0));
    SumNext(rs, r, (r: TokenRecord) => GetOr(r.cacheReadTokens, 0));
    SumNext(rs, r, (r: TokenRecord) => GetOr(r.cacheCreationTokens, 0));
    SumNext(rs, r, (r: TokenRecord) => GetOr(r.turns, 0));
  }

  lemma LatestNext(t: string, rs: seq<TokenRecord>, r: TokenRecord)
    requires LatestOf(t, rs)
    ensures LatestOf(Later(t, TimeOf(r)), rs + [r])
  {
    var u := TimeOf(r);
    StrLessTotal(t, u);
    StrLessTotal("", u);
    assert TimeIs(r, u) && r in rs + [r];
    forall q, v | q in rs + [r] && TimeIs(q, v) ensures !StrLess(Later(t, u), v) {
      StrLessTotal(u, v);
      if q in rs && StrLess(t, u) && StrLess(u, v) {
        StrLessTransitive(t, u, v);
      }
    }
  }

  // A project is made of these records and no other.
  ghost predicate MadeOf(p: ProjectAggregate, rs: seq<TokenRecord>) {
    AddsUp(p.totals, rs) && LatestOf(p.lastDate, rs)
  }

  lemma MadeOfNext(p: ProjectAggregate, rs: seq<TokenRecord>, r: TokenRecord, key: string)
    requires MadeOf(p, rs)
    ensures MadeOf(Add(p, Entry(key, TotalsOf(r), TimeOf(r))), rs + [r])
  {
    AddsUpNext(p.totals, rs, r);
    LatestNext(p.lastDate, rs, r);
  }

  // How one more record changes what counts.
  lemma OneMoreRecord(m: AliasMap, blacklist: seq<string>, history: seq<TokenRecord>)
    requires history != []
    ensures
      var init, r := history[..|history| - 1], history[|history| - 1];
      var es, kept := Entries(m, blacklist, init), KeptRecords(m, blacklist, init);
      if Kept(m, blacklist, r) then
        && Entries(m, blacklist, history) == es + [Entry(KeyOf(m, r), TotalsOf(r), TimeOf(r))]
        && KeptRecords(m, blacklist, history) == kept + [r]
      else Entries(m, blacklist, history) == es && KeptRecords(m, blacklist, history) == kept
  {
  }

  /** What a project adds up to: exactly its own kept records, field by field, and their latest time. */
  lemma {:induction false} ProjectIsItsRecords(m: AliasMap, blacklist: seq<string>, history: seq<TokenRecord>,
                                               key: string)
    ensures
      var p := Aggregate(Entries(m, blacklist, history), key);
      p.cwd == key && MadeOf(p, RecordsOf(m, KeptRecords(m, blacklist, history), key))
  {
    if history != [] {
      var init, r := history[..|history| - 1], history[|history| - 1];
      ProjectIsItsRecords(m, blacklist, init, key);
      OneMoreRecord(m, blacklist, history);
      if Kept(m, blacklist, r) {
        ProjectNext(m, Entries(m, blacklist, init), KeptRecords(m, blacklist, init), r, key);
      }
    }
  }

  lemma ProjectNext(m: AliasMap, es: seq<Entry>, kept: seq<TokenRecord>, r: TokenRecord, key: string)
    requires Aggregate(es, key).cwd == key && MadeOf(Aggregate(es, key), RecordsOf(m, kept, key))
    ensures
      var p := Aggregate(es + [Entry(KeyOf(m, r), TotalsOf(r), TimeOf(r))], key);
      p.cwd == key && MadeOf(p, RecordsOf(m, kept + [r], key))
  {
    var p, rs := Aggregate(es, key), RecordsOf(m, kept, key);
    RecordsOfNext(m, kept, r, key);
    AggregateNext(es, Entry(KeyOf(m, r), TotalsOf(r), TimeOf(r)), key);
    if KeyOf(m, r) == key {
      MadeOfNext(p, rs, r, key);
      assert RecordsOf(m, kept + [r], key) == rs + [r];
    } else {
      assert RecordsOf(m, kept + [r], key) == rs + [] == rs;
    }
  }

  lemma RecordsOfNext(m: AliasMap, rs: seq<TokenRecord>, r: TokenRecord, key: string)
    ensures RecordsOf(m, rs + [r], key) == RecordsOf(m, rs, key) + if KeyOf(m, r) == key then [r] else []
  {
    assert (rs + [r])[..|rs|] == rs;
  }

  lemma AggregateNext(es: seq<Entry>, e: Entry, key: string)
    ensures Aggregate(es + [e], key) == if e.key == key then Add(Aggregate(es, key), e) else Aggregate(es, key)
  {
    assert (es + [e])[..|es|] == es;
  }

  lemma {:induction false} SumOfIsTotals(ps: seq<ProjectAggregate>)
    ensures SumOf(ps) == TotalsOver(ps)
  {
    if ps != [] {
      SumOfIsTotals(ps[..|ps| - 1]);
    }
  }

  lemma {:induction false} EntriesAddUp(m: AliasMap, blacklist: seq<string>, history: seq<TokenRecord>)
    ensures AddsUp(SumEntries(Entries(m, blacklist, history)), KeptRecords(m, blacklist, history))
  {
    if history != [] {
      var init, r := history[..|history| - 1], history[|history| - 1];
      EntriesAddUp(m, blacklist, init);
      OneMoreRecord(m, blacklist, history);
      if Kept(m, blacklist, r) {
        EntriesAddUpNext(Entries(m, blacklist, init), KeptRecords(m, blacklist, init), r, KeyOf(m, r));
      }
    }
  }

  lemma EntriesAddUpNext(es: seq<Entry>, kept: seq<TokenRecord>, r: TokenRecord, key: string)
    requires AddsUp(SumEntries(es), kept)
    ensures AddsUp(SumEntries(es + [Entry(key, TotalsOf(r), TimeOf(r))]), kept + [r])
  {
    AddsUpNext(SumEntries(es), kept, r);
    assert (es + [Entry(key, TotalsOf(r), TimeOf(r))])[..|es|] == es;
  }

  lemma FirstSeenNext(m: AliasMap, keys: seq<string>, rs: seq<TokenRecord>, at: seq<nat>, r: TokenRecord)
    requires FirstSeen(m, keys, rs, at)
    ensures KeyOf(m, r) in keys ==> FirstSeen(m, keys, rs + [r], at)
    ensures KeyOf(m, r) !in keys ==> FirstSeen(m, keys + [KeyOf(m, r)], rs + [r], at + [|rs|])
  {
    var key, all := KeyOf(m, r), rs + [r];
    assert forall k :: 0 <= k < |rs| ==> all[k] == rs[k];
    assert key in keys + [key];
  }

  lemma {:induction false} KeysFirstSeen(m: AliasMap, blacklist: seq<string>, history: seq<TokenRecord>)
    returns (at: seq<nat>)
    ensures FirstSeen(m, Keys(Entries(m, blacklist, history)), KeptRecords(m, blacklist, history), at)
  {
    if history == [] {
      at := [];
    } else {
      var init, r := history[..|history| - 1], history[|history| - 1];
      at := KeysFirstSeen(m, blacklist, init);
      OneMoreRecord(m, blacklist, history);
      if Kept(m, blacklist, r) {
        at := KeysFirstSeenNext(m, Entries(m, blacklist, init), KeptRecords(m, blacklist, init), r, at);
      }
    }
  }

  lemma KeysFirstSeenNext(m: AliasMap, es: seq<Entry>, kept: seq<TokenRecord>, r: TokenRecord, at: seq<nat>)
    returns (at': seq<nat>)
    requires FirstSeen(m, Keys(es), kept, at)
    ensures FirstSeen(m, Keys(es + [Entry(KeyOf(m, r), TotalsOf(r), TimeOf(r))]), kept + [r], at')
  {
    assert (es + [Entry(KeyOf(m, r), TotalsOf(r), TimeOf(r))])[..|es|] == es;
    FirstSeenNext(m, Keys(es), kept, at, r);
    at' := if KeyOf(m, r) in Keys(es) then at else at + [|kept|];
  }

  /** The projects account for the kept records: each field adds up over the projects to what it adds
      up to over the records, every project is made of its own records and no other, and the projects
      come in the order in which the records first name them. */
  ghost predicate Accounts(m: AliasMap, projects: seq<ProjectAggregate>, kept: seq<TokenRecord>, at: seq<nat>) {
    && AddsUp(TotalsOver(projects), kept)
    && FirstSeen(m, Cwds(projects), kept, at)
    && (forall p :: p in projects ==> MadeOf(p, RecordsOf(m, kept, p.cwd)))
  }

  lemma ProjectsAccount(m: AliasMap, blacklist: seq<string>, history: seq<TokenRecord>) returns (at: seq<nat>)
    ensures Accounts(m, Aggregates(Entries(m, blacklist, history)), KeptRecords(m, blacklist, history), at)
  {
    var es, kept := Entries(m, blacklist, history), KeptRecords(m, blacklist, history);
    var ps := Aggregates(es);
    EntriesAddUp(m, blacklist, history);
    AggregationConserves(es);
    SumOfIsTotals(ps);
    at := KeysFirstSeen(m, blacklist, history);
    forall key ensures Aggregate(es, key).cwd == key {
      ProjectIsItsRecords(m, blacklist, history, key);
    }
    assert Cwds(ps) == Keys(es);
    forall p | p in ps ensures MadeOf(p, RecordsOf(m, kept, p.cwd)) {
      ProjectIsItsRecords(m, blacklist, history, p.cwd);
    }
  }

  /** A record belongs to the project its folder resolves to; without a folder, to "(unknown)" unless
      the empty path was merged. */
  lemma KeyIsResolved(m: AliasMap, r: TokenRecord)
    ensures
      var c := if r.cwd.Some? then r.cwd.value else "";
      KeyOf(m, r) == if c == "" && IsRoot(m, "") then UNKNOWN else Resolve(m, c)
  {
    var c := GetOr(r.cwd, "");
    var done := ResolveEndsTheChain(m, c);
    if MergedInto(m, c).Some? {
      NotEmptyDownTheChain(m, done + [Resolve(m, c)]);
    }
  }

  // A link leads to a named path.
  lemma NotEmptyDownTheChain(m: AliasMap, path: seq<string>)
    requires IsChain(m, path) && |path| > 1
    ensures path[|path| - 1] != ""
  {
    assert MergedInto(m, path[|path| - 2]) == Some(path[|path| - 1]);
  }

  // ----- merging two projects -----

  /** A record without a folder goes to "(unknown)" whatever is merged into or out of that name. */
  predicate Misplaced(m: AliasMap, from: string, into: string, r: TokenRecord) {
    GetOr(r.cwd, "") == "" && IsRoot(m, "") && (from == UNKNOWN || (from == "" && into != UNKNOWN))
  }

  /** A merge moves a record's project along with its folder, exactly unless it is misplaced. */
  lemma KeyMovesIff(m: AliasMap, from: string, into: string, handName: bool, r: TokenRecord)
    requires Flat(m) && CanMerge(m, from, into)
    ensures KeyOf(Merged(m, from, into, handName), r) == (if KeyOf(m, r) == from then into else KeyOf(m, r))
            <==> !Misplaced(m, from, into, r)
  {
    var c := GetOr(r.cwd, "");
    MergeKeepsFlat(m, from, into, handName);
    FlatResolve(m, c);
    FlatResolve(Merged(m, from, into, handName), c);
    MergeIsQuotient(m, from, into, handName, c);
    MergedLinks(m, from, into, handName, c);
  }

  /** Merging "(unknown)" does not move a record without a folder. */
  lemma UnknownStays()
    ensures
      var m, r := map[], TokenRecord(None, None, None, None, None, None, None, None, None);
      && Flat(m) && CanMerge(m, UNKNOWN, "p") && Misplaced(m, UNKNOWN, "p", r)
      && KeyOf(m, r) == KeyOf(Merged(m, UNKNOWN, "p", false), r) == UNKNOWN
  {
    var m, r := map[], TokenRecord(None, None, None, None, None, None, None, None, None);
    FlatResolve(m, "");
    MergeKeepsFlat(m, UNKNOWN, "p", false);
    FlatResolve(Merged(m, UNKNOWN, "p", false), "");
    MergedLinks(m, UNKNOWN, "p", false, "");
  }

  lemma KeptAfterMerge(m: AliasMap, from: string, into: string, handName: bool, blacklist: seq<string>, r: TokenRecord)
    requires Flat(m) && CanMerge(m, from, into) && from !in blacklist && into !in blacklist
    requires !Misplaced(m, from, into, r)
    ensures Kept(Merged(m, from, into, handName), blacklist, r) == Kept(m, blacklist, r)
  {
    var m' := Merged(m, from, into, handName);
    KeyMovesIff(m, from, into, handName, r);
    MergeIsQuotient(m, from, into, handName, KeyOf(m, r));
    MergeIsQuotient(m, from, into, handName, into);
    FlatResolve(m, from);
    FlatResolve(m, into);
  }

  ghost function Renamed(es: seq<Entry>, from: string, into: string): (r: seq<Entry>)
    ensures |r| == |es|
  {
    seq(|es|, i requires 0 <= i < |es| => if es[i].key == from then es[i].(key := into) else es[i])
  }

  lemma RenamedNext(es: seq<Entry>, e: Entry, from: string, into: string)
    ensures Renamed(es + [e], from, into) == Renamed(es, from, into) + [if e.key == from then e.(key := into) else e]
  {
    assert (es + [e])[..|es|] == es;
  }

  /** What a merge does to the entries: those of the merged project are its new root's. */
  lemma {:induction false} MergeRenamesEntries(m: AliasMap, from: string, into: string, handName: bool,
                                               blacklist: seq<string>, history: seq<TokenRecord>)
    requires Flat(m) && CanMerge(m, from, into) && from !in blacklist && into !in blacklist
    requires forall r :: r in history ==> !Misplaced(m, from, into, r)
    ensures
      var es := Entries(m, blacklist, history);
      Entries(Merged(m, from, into, handName), blacklist, history) == Renamed(es, from, into)
  {
    if history != [] {
      var init, r := history[..|history| - 1], history[|history| - 1];
      assert r in history;
      MergeRenamesEntries(m, from, into, handName, blacklist, init);
      KeyMovesIff(m, from, into, handName, r);
      KeptAfterMerge(m, from, into, handName, blacklist, r);
      var es := Entries(m, blacklist, init);
      RenamedNext(es, Entry(KeyOf(m, r), TotalsOf(r), TimeOf(r)), from, into);
    }
  }

  lemma LaterIsMaximum(a: string, b: string, c: string)
    ensures Later(a, b) == Later(b, a)
    ensures Later(Later(a, b), c) == Later(a, Later(b, c))
    ensures Later("", a) == a
  {
    StrLessTotal(a, b);
    StrLessTotal(b, c);
    StrLessTotal(a, c);
    if StrLess(a, b) && StrLess(b, c) { StrLessTransitive(a, b, c); }
    if StrLess(c, b) && StrLess(b, a) { StrLessTransitive(c, b, a); }
    StrLessTotal("", a);
  }

  ghost function Combined(a: ProjectAggregate, b: ProjectAggregate, cwd: string): ProjectAggregate {
    ProjectAggregate(cwd, Plus(a.totals, b.totals), Later(a.lastDate, b.lastDate))
  }

  lemma CombinedAdd(a: ProjectAggregate, b: ProjectAggregate, cwd: string, e: Entry, e': Entry)
    requires e'.totals == e.totals && e'.time == e.time
    ensures Combined(Add(a, e), b, cwd) == Add(Combined(a, b, cwd), e') == Combined(a, Add(b, e), cwd)
  {
    LaterIsMaximum(a.lastDate, b.lastDate, e.time);
    LaterIsMaximum(b.lastDate, e.time, a.lastDate);
    LaterIsMaximum(a.lastDate, e.time, b.lastDate);
  }

  lemma RenamedLast(es: seq<Entry>, from: string, into: string)
    requires es != []
    ensures
      var e, r := es[|es| - 1], Renamed(es, from, into);
      && r[..|es| - 1] == Renamed(es[..|es| - 1], from, into)
      && r[|es| - 1] == if e.key == from then e.(key := into) else e
  {
  }

  lemma {:induction false} RenamedInto(es: seq<Entry>, from: string, into: string)
    requires from != into
    ensures Aggregate(Renamed(es, from, into), into) == Combined(Aggregate(es, from), Aggregate(es, into), into)
  {
    if es == [] {
      LaterIsMaximum("", "", "");
    } else {
      var init, e := es[..|es| - 1], es[|es| - 1];
      RenamedInto(init, from, into);
      RenamedLast(es, from, into);
      var a, b, c := Aggregate(init, from), Aggregate(init, into), Aggregate(Renamed(init, from, into), into);
      var e' := if e.key == from then e.(key := into) else e;
      CombinedAdd(a, b, into, e, e');
      if e.key == from {
        assert Aggregate(es, from) == Add(a, e) && Aggregate(es, into) == b;
        assert Aggregate(Renamed(es, from, into), into) == Add(c, e');
      } else if e.key == into {
        assert Aggregate(es, from) == a && Aggregate(es, into) == Add(b, e);
        assert Aggregate(Renamed(es, from, into), into) == Add(c, e');
      } else {
        assert Aggregate(Renamed(es, from, into), into) == c;
      }
    }
  }

  lemma {:induction false} RenamedOthers(es: seq<Entry>, from: string, into: string, key: string)
    requires key != from && key != into
    ensures Aggregate(Renamed(es, from, into), key) == Aggregate(es, key)
  {
    if es != [] {
      RenamedOthers(es[..|es| - 1], from, into, key);
      RenamedLast(es, from, into);
    }
  }

  lemma {:induction false} RenamedSum(es: seq<Entry>, from: string, into: string)
    ensures SumEntries(Renamed(es, from, into)) == SumEntries(es)
  {
    if es != [] {
      assert Renamed(es, from, into)[..|es| - 1] == Renamed(es[..|es| - 1], from, into);
      RenamedSum(es[..|es| - 1], from, into);
    }
  }

  /** Merging two projects adds their aggregates up under the new root, empties the merged one,
      changes no other, and leaves every grand total as it was. */
  lemma MergeCombinesAggregates(m: AliasMap, from: string, into: string, handName: bool,
                                blacklist: seq<string>, history: seq<TokenRecord>, key: string)
    requires Flat(m) && CanMerge(m, from, into) && from !in blacklist && into !in blacklist
    requires forall r :: r in history ==> !Misplaced(m, from, into, r)
    ensures
      var es, es' := Entries(m, blacklist, history), Entries(Merged(m, from, into, handName), blacklist, history);
      && Aggregate(es', into) == Combined(Aggregate(es, from), Aggregate(es, into), into)
      && from !in Keys(es')
      && (key != from && key != into ==> Aggregate(es', key) == Aggregate(es, key))
      && SumOf(Aggregates(es')) == SumOf(Aggregates(es))
  {
    var es := Entries(m, blacklist, history);
    MergeRenamesEntries(m, from, into, handName, blacklist, history);
    RenamedInto(es, from, into);
    if key != from && key != into {
      RenamedOthers(es, from, into, key);
    }
    RenamedSum(es, from, into);
    NoKeyLeft(es, from, into);
    AggregationConserves(es);
    AggregationConserves(Renamed(es, from, into));
  }

  lemma {:induction false} NoKeyLeft(es: seq<Entry>, from: string, into: string)
    requires from != into
    ensures from !in Keys(Renamed(es, from, into))
  {
    if es != [] {
      assert Renamed(es, from, into)[..|es| - 1] == Renamed(es[..|es| - 1], from, into);
      NoKeyLeft(es[..|es| - 1], from, into);
    }
  }
}
