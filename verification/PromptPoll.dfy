/** Reliable delivery of question prompts by polling (src-tauri/src/daemon_link.rs,
    spawn_pending_prompt_poll). */
module PromptPoll {
  import opened Prelude

  const MIN_POLL_INTERVAL: nat := 500
  const MAX_POLL_INTERVAL: nat := 2000
  const BACKOFF_STEP: nat := 150
  const BACKOFF_STEPS_TO_MAX: nat := 10

  // One element of the daemon's answer. A missing event name reads as the empty string.
  datatype Prompt = Prompt(id: Option<string>, event: string, payload: Option<string>, durable: bool) {
    predicate WellFormed() {
      id.Some? && event != "" && payload.Some?
    }
  }

  // What a poll can come back with. Only the last is an answer.
  datatype Poll = Offline | RpcFailed | NotAnArray | Pending(prompts: seq<Prompt>) {
    predicate Connected() {
      !Offline?
    }
  }

  datatype Event =
    | Cleared
    | Shown(id: string, event: string, payload: string)
    | Resolved(id: string, durable: bool)

  datatype State = State(emitted: map<string, bool>, wasConnected: bool, emptyStreak: nat, interval: nat)

  const INITIAL := State(map[], false, 0, MIN_POLL_INTERVAL)

  // ----- what one poll must do -----

  function PresentIds(ps: seq<Prompt>): set<string> {
    set p | p in ps && p.id.Some? :: p.id.value
  }

  function WellFormedIds(ps: seq<Prompt>): set<string> {
    set p | p in ps && p.WellFormed() :: p.id.value
  }

  /** The first well-formed prompt with this id. */
  ghost function FirstOf(ps: seq<Prompt>, id: string): (r: Prompt)
    requires id in WellFormedIds(ps)
    ensures r.WellFormed() && r.id == Some(id)
  {
    if ps[0].WellFormed() && ps[0].id == Some(id) then ps[0]
    else
      assert ps == [ps[0]] + ps[1..];
      FirstOf(ps[1..], id)
  }

  /** What is remembered as shown when a poll starts: nothing, right after a reconnect. */
  function Remembered(s: State, poll: Poll): map<string, bool> {
    if poll.Connected() && !s.wasConnected then map[] else s.emitted
  }

  /** A reconnect takes every card away. */
  function Clears(wasConnected: bool, poll: Poll): seq<Event> {
    if poll.Connected() && !wasConnected then [Cleared] else []
  }

  function StreakAfter(streak: nat, active: bool): nat {
    if active then 0 else if streak < 10 then streak + 1 else 10
  }

  ghost function Step(s: State, poll: Poll, anyBusy: bool): State {
    var known := Remembered(s, poll);
    match poll
    case Pending(ps) =>
      var streak := StreakAfter(s.emptyStreak, ps != [] || anyBusy);
      State(Kept(known, ps), true, streak, 500 + 150 * streak)
    case _ => s.(emitted := known, wasConnected := poll.Connected())
  }

  /** After an answer with these prompts, when known was on screen before it: every well-formed prompt
      is on screen, and so are the others that were already there and are still pending. */
  ghost predicate ScreenShows(screen: set<string>, known: set<string>, ps: seq<Prompt>) {
    && WellFormedIds(ps) <= screen
    && forall id :: id in screen <==> id in PresentIds(ps) && (id in known || id in WellFormedIds(ps))
  }

  lemma NothingAdded(trace: seq<Event>)
    ensures trace + [] + [] == trace
  {
  }

  lemma NoAnswerStep(s: State, poll: Poll, anyBusy: bool, t: State)
    requires !poll.Pending? && t.emitted == Remembered(s, poll) && t.wasConnected == poll.Connected()
    requires t.emptyStreak == s.emptyStreak && t.interval == s.interval
    ensures t == Step(s, poll, anyBusy)
  {
  }

  lemma AnswerStep(s: State, poll: Poll, anyBusy: bool, t: State)
    requires poll.Pending? && t.emitted == Kept(Remembered(s, poll), poll.prompts) && t.wasConnected
    requires t.emptyStreak == StreakAfter(s.emptyStreak, poll.prompts != [] || anyBusy)
    requires t.interval == 500 + 150 * t.emptyStreak
    ensures t == Step(s, poll, anyBusy)
  {
  }

  ghost predicate IsShown(e: Event, ps: seq<Prompt>, id: string) {
    id in WellFormedIds(ps) && e == Shown(id, FirstOf(ps, id).event, FirstOf(ps, id).payload.value)
  }

  /** The events of one answered poll: every well-formed prompt not remembered is shown, and every
      remembered one no longer pending is resolved, each once and in this order. */
  ghost predicate Announced(known: map<string, bool>, ps: seq<Prompt>, shown: seq<Event>, resolved: seq<Event>) {
    && NoDuplicates(shown) && NoDuplicates(resolved)
    && (forall e :: e in shown <==> e.Shown? && e.id !in known && IsShown(e, ps, e.id))
    && (forall e :: e in resolved <==>
          e.Resolved? && e.id in known && e.id !in PresentIds(ps) && e.durable == known[e.id])
  }

  // ----- the reference: what a listener to the events has on screen -----

  /** The cards on screen after a trace, or None if some event made no sense: a card shown twice,
      or one removed that was not there. */
  ghost function OnScreen(trace: seq<Event>): Option<set<string>> {
    if trace == [] then Some({})
    else
      match OnScreen(trace[..|trace| - 1])
      case None => None
      case Some(open) =>
        match trace[|trace| - 1]
        case Cleared => Some({})
        case Shown(id, _, _) => if id in open then None else Some(open + {id})
        case Resolved(id, _) => if id in open then Some(open - {id}) else None
  }

  lemma OnScreenNext(trace: seq<Event>, e: Event)
    ensures OnScreen(trace).Some? && e.Cleared? ==> OnScreen(trace + [e]) == Some({})
    ensures OnScreen(trace).Some? && e.Shown? && e.id !in OnScreen(trace).value ==>
      OnScreen(trace + [e]) == Some(OnScreen(trace).value + {e.id})
    ensures OnScreen(trace).Some? && e.Resolved? && e.id in OnScreen(trace).value ==>
      OnScreen(trace + [e]) == Some(OnScreen(trace).value - {e.id})
  {
    assert (trace + [e])[..|trace|] == trace;
  }

  // ----- the program -----

  class PromptPoller {
    var emitted: map<string, bool>
    var wasConnected: bool
    var emptyStreak: nat
    var interval: nat
    ghost var trace: seq<Event>

    ghost function Abs(): State
      reads this
    {
      State(emitted, wasConnected, emptyStreak, interval)
    }

    ghost predicate Valid()
      reads this
    {
      && OnScreen(trace) == Some(emitted.Keys)
      && emptyStreak <= BACKOFF_STEPS_TO_MAX
      && interval == MIN_POLL_INTERVAL + BACKOFF_STEP * emptyStreak
      && MIN_POLL_INTERVAL <= interval <= MAX_POLL_INTERVAL
    }

    constructor ()
      ensures Valid() && Abs() == INITIAL && trace == []
    {
      emitted, wasConnected, emptyStreak, interval := map[], false, 0, MIN_POLL_INTERVAL;
      trace := [];
      new;
      assert emitted.Keys == {};
    }

    /** One turn of the polling loop. */
    method Tick(poll: Poll, anyBusy: bool) returns (ghost shown: seq<Event>, ghost resolved: seq<Event>)
      requires Valid()
      modifies this
      ensures Valid()
      ensures Abs() == Step(old(Abs()), poll, anyBusy)
      ensures trace == old(trace) + Clears(old(wasConnected), poll) + shown + resolved
      ensures if poll.Pending? then Announced(Remembered(old(Abs()), poll), poll.prompts, shown, resolved)
              else shown == [] && resolved == []
      ensures poll.Pending? ==>
        ScreenShows(OnScreen(trace).value, Remembered(old(Abs()), poll).Keys, poll.prompts)
    {
      shown, resolved := [], [];
      ghost var s := Abs();
      NoteConnection(poll);
      if poll.Pending? {
        shown, resolved := Answer(poll.prompts, anyBusy, Remembered(s, poll));
        AnswerStep(s, poll, anyBusy, Abs());
      } else {
        NothingAdded(trace);
        NoAnswerStep(s, poll, anyBusy, Abs());
      }
    }

    /** The rest of the turn, when there is an answer. */
    method Answer(prompts: seq<Prompt>, anyBusy: bool, ghost known: map<string, bool>)
      returns (ghost shown: seq<Event>, ghost resolved: seq<Event>)
      requires Valid() && known == emitted
      modifies this`emitted, this`trace, this`emptyStreak, this`interval
      ensures Valid()
      ensures emitted == Kept(known, prompts) && trace == old(trace) + shown + resolved
      ensures emptyStreak == StreakAfter(old(emptyStreak), prompts != [] || anyBusy)
      ensures Announced(known, prompts, shown, resolved)
      ensures ScreenShows(OnScreen(trace).value, known.Keys, prompts)
    {
      KeptOnScreen(known, prompts);
      shown, resolved := Announce(prompts);
      BackOff(prompts == [], anyBusy);
    }

    /** The two loops of an answered poll. */
    method Announce(prompts: seq<Prompt>) returns (ghost shown: seq<Event>, ghost resolved: seq<Event>)
      requires OnScreen(trace) == Some(emitted.Keys)
      modifies this`emitted, this`trace
      ensures OnScreen(trace) == Some(emitted.Keys)
      ensures emitted == Kept(old(emitted), prompts) && trace == old(trace) + shown + resolved
      ensures Announced(old(emitted), prompts, shown, resolved)
    {
      ghost var known := emitted;
      var present;
      present, shown := ShowNew(prompts);
      ghost var met := emitted;
      resolved := ResolveGone(present, known.Keys);
      KeptIsStep(known, prompts, met, emitted);
      AllAnnounced(known, prompts, met, shown, resolved);
    }

    /** Back after being offline: what was shown is forgotten. */
    method NoteConnection(poll: Poll)
      requires OnScreen(trace) == Some(emitted.Keys)
      modifies this`emitted, this`trace, this`wasConnected
      ensures OnScreen(trace) == Some(emitted.Keys)
      ensures emitted == Remembered(old(Abs()), poll) && wasConnected == poll.Connected()
      ensures trace == old(trace) + Clears(old(wasConnected), poll)
    {
      if poll.Connected() && !wasConnected {
        emitted := map[];
        assert emitted.Keys == {};
        OnScreenNext(trace, Cleared);
        trace := trace + [Cleared];
      }
      wasConnected := poll.Connected();
    }

    method BackOff(nonePending: bool, anyBusy: bool)
      modifies this`emptyStreak, this`interval
      requires emptyStreak <= BACKOFF_STEPS_TO_MAX
      ensures emptyStreak == StreakAfter(old(emptyStreak), !nonePending || anyBusy)
      ensures interval == 500 + 150 * emptyStreak
    {
      if !nonePending || anyBusy {
        emptyStreak := 0;
        interval := MIN_POLL_INTERVAL;
      } else {
        emptyStreak := if emptyStreak + 1 < BACKOFF_STEPS_TO_MAX then emptyStreak + 1 else BACKOFF_STEPS_TO_MAX;
        var wanted := MIN_POLL_INTERVAL + BACKOFF_STEP * emptyStreak;
        interval := if wanted < MAX_POLL_INTERVAL then wanted else MAX_POLL_INTERVAL;
      }
    }

    method Show(id: string, event: string, payload: string, durable: bool)
      requires OnScreen(trace) == Some(emitted.Keys) && id !in emitted
      modifies this`emitted, this`trace
      ensures OnScreen(trace) == Some(emitted.Keys)
      ensures trace == old(trace) + [Shown(id, event, payload)] && emitted == old(emitted)[id := durable]
    {
      OnScreenNext(trace, Shown(id, event, payload));
      trace := trace + [Shown(id, event, payload)];
      emitted := emitted[id := durable];
      assert emitted.Keys == old(emitted.Keys) + {id};
    }

    /** The loop body, for a prompt with an id: it is shown unless it is known or not well formed. */
    method Meet(prompts: seq<Prompt>, i: nat, ghost known: map<string, bool>, ghost met: set<string>,
                ghost shown: seq<Event>)
      returns (ghost new_: seq<Event>)
      requires OnScreen(trace) == Some(emitted.Keys) && i < |prompts| && prompts[i].id.Some?
      requires met == WellFormedIds(prompts[..i]) && MetSoFar(known, prompts, met, emitted, shown)
      modifies this`emitted, this`trace
      ensures OnScreen(trace) == Some(emitted.Keys) && trace == old(trace) + new_
      ensures MetSoFar(known, prompts, WellFormedIds(prompts[..i + 1]), emitted, shown + new_)
    {
      var p := prompts[i];
      var id := p.id.value;
      IdsOfPrefix(prompts, i);
      new_ := [];
      if id in emitted {
        if p.WellFormed() {
          KnownAlready(known, prompts, met, emitted, shown, id);
        }
        assert shown + [] == shown;
      } else if p.event != "" && p.payload.Some? {
        FirstOfIs(prompts, i, id);
        new_ := [Shown(id, p.event, p.payload.value)];
        ShowOne(known, prompts, met, emitted, shown, new_[0]);
        Show(id, p.event, p.payload.value, p.durable);
      } else {
        assert shown + [] == shown;
      }
    }

    /** The loop over the prompts of the answer. */
    method ShowNew(prompts: seq<Prompt>) returns (present: set<string>, ghost shown: seq<Event>)
      requires OnScreen(trace) == Some(emitted.Keys)
      modifies this`emitted, this`trace
      ensures OnScreen(trace) == Some(emitted.Keys)
      ensures present == PresentIds(prompts)
      ensures Remembers(old(emitted), prompts, WellFormedIds(prompts), emitted)
      ensures trace == old(trace) + shown && ShowsNew(old(emitted), prompts, WellFormedIds(prompts), shown)
    {
      present, shown := {}, [];
      NothingMet(emitted, prompts);
      for i := 0 to |prompts|
        invariant OnScreen(trace) == Some(emitted.Keys)
        invariant present == PresentIds(prompts[..i])
        invariant MetSoFar(old(emitted), prompts, WellFormedIds(prompts[..i]), emitted, shown)
        invariant trace == old(trace) + shown
      {
        IdsOfPrefix(prompts, i);
        if prompts[i].id.Some? {
          present := present + {prompts[i].id.value};
          ghost var new_ := Meet(prompts, i, old(emitted), WellFormedIds(prompts[..i]), shown);
          ConcatAssociative(old(trace), shown, new_);
          shown := shown + new_;
        }
      }
      assert prompts[..|prompts|] == prompts;
    }

    /** The loop over what is remembered but gone, and its removal. */
    method ResolveGone(present: set<string>, ghost known: set<string>) returns (ghost resolved: seq<Event>)
      requires OnScreen(trace) == Some(emitted.Keys)
      modifies this`emitted, this`trace
      ensures OnScreen(trace) == Some(emitted.Keys)
      ensures emitted == map id | id in old(emitted) && id in present :: old(emitted)[id]
      ensures trace == old(trace) + resolved && NoDuplicates(resolved)
      ensures forall e :: e in resolved <==>
        e.Resolved? && e.id in old(emitted) && e.id !in present && e.durable == old(emitted)[e.id]
    {
      resolved := [];
      var gone := set id | id in emitted && id !in present;
      ghost var kept := emitted.Keys * present;
      assert emitted.Keys == kept + gone;
      while gone != {}
        invariant gone <= emitted.Keys - present
        invariant OnScreen(trace) == Some(kept + gone)
        invariant trace == old(trace) + resolved && NoDuplicates(resolved)
        invariant emitted == old(emitted)
        invariant forall e :: e in resolved <==>
          e.Resolved? && e.id in emitted && e.id !in present && e.id !in gone && e.durable == emitted[e.id]
      {
        var id :| id in gone;
        ghost var e := Resolved(id, emitted[id]);
        OnScreenNext(trace, e);
        trace, resolved := trace + [e], resolved + [e];
        assert kept + gone - {id} == kept + (gone - {id});
        gone := gone - {id};
      }
      assert kept + gone == kept;
      assert (map id | id in emitted && id in present :: emitted[id]).Keys == kept;
      emitted := map id | id in emitted && id in present :: emitted[id];
    }

    /** Any number of turns. */
    method Run(polls: seq<(Poll, bool)>)
      requires Valid()
      modifies this
      ensures Valid() && Abs() == Steps(old(Abs()), polls) && old(trace) <= trace
      ensures AlternatesThroughout(trace)
    {
      for i := 0 to |polls|
        invariant Valid() && Abs() == Steps(old(Abs()), polls[..i]) && old(trace) <= trace
      {
        assert polls[..i + 1][..i] == polls[..i];
        var _, _ := Tick(polls[i].0, polls[i].1);
      }
      assert polls[..|polls|] == polls;
      TraceAlternates(trace);
    }
  }

  ghost function Steps(s: State, polls: seq<(Poll, bool)>): State {
    if polls == [] then s
    else Step(Steps(s, polls[..|polls| - 1]), polls[|polls| - 1].0, polls[|polls| - 1].1)
  }

  // After the prompts with these ids were met, starting from known.
  ghost predicate Remembers(known: map<string, bool>, ps: seq<Prompt>, ids: set<string>, emitted: map<string, bool>)
    requires ids <= WellFormedIds(ps)
  {
    && emitted.Keys == known.Keys + ids
    && forall id :: id in emitted ==> emitted[id] == if id in known then known[id] else FirstOf(ps, id).durable
  }

  ghost predicate ShowsNew(known: map<string, bool>, ps: seq<Prompt>, ids: set<string>, shown: seq<Event>)
    requires ids <= WellFormedIds(ps)
  {
    && NoDuplicates(shown)
    && forall e :: e in shown <==> e.Shown? && e.id in ids && e.id !in known && IsShown(e, ps, e.id)
  }

  // Both, for the ids met so far.
  ghost predicate MetSoFar(known: map<string, bool>, ps: seq<Prompt>, ids: set<string>, emitted: map<string, bool>,
                           shown: seq<Event>)
  {
    ids <= WellFormedIds(ps) && Remembers(known, ps, ids, emitted) && ShowsNew(known, ps, ids, shown)
  }

  lemma NothingMet(known: map<string, bool>, ps: seq<Prompt>)
    ensures MetSoFar(known, ps, WellFormedIds(ps[..0]), known, [])
  {
    assert WellFormedIds(ps[..0]) == {};
  }

  // The map after an answered poll that started from known.
  ghost function Kept(known: map<string, bool>, ps: seq<Prompt>): map<string, bool> {
    map id | id in PresentIds(ps) * (known.Keys + WellFormedIds(ps)) ::
      if id in known then known[id] else FirstOf(ps, id).durable
  }

  lemma KeptOnScreen(known: map<string, bool>, ps: seq<Prompt>)
    ensures ScreenShows(Kept(known, ps).Keys, known.Keys, ps)
  {
    assert WellFormedIds(ps) <= PresentIds(ps);
  }

  lemma KeptIsStep(known: map<string, bool>, ps: seq<Prompt>, met: map<string, bool>, emitted: map<string, bool>)
    requires Remembers(known, ps, WellFormedIds(ps), met)
    requires emitted == map id | id in met && id in PresentIds(ps) :: met[id]
    ensures emitted == Kept(known, ps)
  {
  }

  lemma AllAnnounced(known: map<string, bool>, ps: seq<Prompt>, met: map<string, bool>,
                     shown: seq<Event>, resolved: seq<Event>)
    requires Remembers(known, ps, WellFormedIds(ps), met)
    requires ShowsNew(known, ps, WellFormedIds(ps), shown) && NoDuplicates(resolved)
    requires forall e :: e in resolved <==>
      e.Resolved? && e.id in met && e.id !in PresentIds(ps) && e.durable == met[e.id]
    ensures Announced(known, ps, shown, resolved)
  {
    forall id | id in WellFormedIds(ps) ensures id in PresentIds(ps) {
    }
  }

  lemma ShowOne(known: map<string, bool>, ps: seq<Prompt>, ids: set<string>, emitted: map<string, bool>,
                shown: seq<Event>, e: Event)
    requires ids <= WellFormedIds(ps) && ShowsNew(known, ps, ids, shown) && Remembers(known, ps, ids, emitted)
    requires e.Shown? && e.id !in emitted && IsShown(e, ps, e.id)
    ensures
      var emitted' := emitted[e.id := FirstOf(ps, e.id).durable];
      && emitted'.Keys == emitted.Keys + {e.id}
      && ShowsNew(known, ps, ids + {e.id}, shown + [e])
      && Remembers(known, ps, ids + {e.id}, emitted')
  {
    DisjointConcat(shown, [e]);
  }

  lemma KnownAlready(known: map<string, bool>, ps: seq<Prompt>, ids: set<string>, emitted: map<string, bool>,
                     shown: seq<Event>, id: string)
    requires ids <= WellFormedIds(ps) && ShowsNew(known, ps, ids, shown) && Remembers(known, ps, ids, emitted)
    requires id in emitted && id in WellFormedIds(ps)
    ensures ShowsNew(known, ps, ids + {id}, shown) && Remembers(known, ps, ids + {id}, emitted)
  {
    if id in ids {
      assert ids + {id} == ids;
    }
  }

  lemma IdsOfPrefix(ps: seq<Prompt>, i: nat)
    requires i < |ps|
    ensures WellFormedIds(ps[..i + 1]) == WellFormedIds(ps[..i]) + if ps[i].WellFormed() then {ps[i].id.value} else {}
    ensures PresentIds(ps[..i + 1]) == PresentIds(ps[..i]) + if ps[i].id.Some? then {ps[i].id.value} else {}
    ensures WellFormedIds(ps[..i + 1]) <= WellFormedIds(ps)
  {
    assert ps[..i + 1] == ps[..i] + [ps[i]];
  }

  lemma {:induction false} FirstOfIs(ps: seq<Prompt>, i: nat, id: string)
    requires i < |ps| && ps[i].WellFormed() && ps[i].id == Some(id) && id !in WellFormedIds(ps[..i])
    ensures id in WellFormedIds(ps) && FirstOf(ps, id) == ps[i]
  {
    if i > 0 {
      assert ps[0] == ps[..i][0];
      assert ps[1..][..i - 1] == ps[..i][1..];
      FirstOfIs(ps[1..], i - 1, id);
    }
  }

  // ----- main results over runs -----

  /** Whether id is shown (true) or resolved (false) by each event that concerns it. */
  ghost function Projection(trace: seq<Event>, id: string): seq<bool> {
    if trace == [] then []
    else
      var e := trace[|trace| - 1];
      Projection(trace[..|trace| - 1], id) + if !e.Cleared? && e.id == id then [e.Shown?] else []
  }

  // True, false, true, and so on.
  ghost predicate Alternating(p: seq<bool>) {
    forall k :: 0 <= k < |p| ==> p[k] == (k % 2 == 0)
  }

  lemma AlternatingNext(p: seq<bool>, b: bool)
    requires Alternating(p) && b == (|p| % 2 == 0)
    ensures Alternating(p + [b])
  {
  }

  // The events from i to j, with no clear among them, start the trace or follow a clear.
  ghost predicate Undisturbed(trace: seq<Event>, i: nat, j: nat) {
    i <= j <= |trace| && (i == 0 || trace[i - 1].Cleared?) && Cleared !in trace[i..j]
  }

  ghost predicate AlternatesThroughout(trace: seq<Event>) {
    forall i: nat, j: nat, id :: Undisturbed(trace, i, j) ==> Alternating(Projection(trace[i..j], id))
  }

  lemma {:induction false} OnScreenPrefix(trace: seq<Event>, j: nat)
    requires OnScreen(trace).Some? && j <= |trace|
    ensures OnScreen(trace[..j]).Some?
    decreases |trace|
  {
    if j < |trace| {
      var init := trace[..|trace| - 1];
      OnScreenPrefix(init, j);
      assert init[..j] == trace[..j];
    } else {
      assert trace[..j] == trace;
    }
  }

  lemma {:induction false} SegmentAlternates(before: seq<Event>, since: seq<Event>, id: string)
    requires OnScreen(before) == Some({}) && Cleared !in since
    requires OnScreen(before + since).Some?
    ensures AlternatesUpTo(OnScreen(before + since).value, Projection(since, id), id)
  {
    if since == [] {
      assert before + since == before;
    } else {
      var init, e := since[..|since| - 1], since[|since| - 1];
      InitConcat(before, since);
      assert e in since;
      SegmentAlternates(before, init, id);
      EventAlternates(before + init, e, Projection(init, id), id);
      assert before + since == before + init + [e];
    }
  }

  ghost predicate AlternatesUpTo(open: set<string>, p: seq<bool>, id: string) {
    Alternating(p) && (id in open <==> |p| % 2 == 1)
  }

  lemma EventAlternates(trace: seq<Event>, e: Event, p: seq<bool>, id: string)
    requires OnScreen(trace).Some? && OnScreen(trace + [e]).Some? && !e.Cleared?
    requires AlternatesUpTo(OnScreen(trace).value, p, id)
    ensures AlternatesUpTo(OnScreen(trace + [e]).value, p + (if e.id == id then [e.Shown?] else []), id)
  {
    assert (trace + [e])[..|trace|] == trace;
    if e.id == id {
      AlternatingNext(p, e.Shown?);
    }
  }

  /** Between two clears, a prompt's shown and resolved events strictly alternate, shown first, and
      it is on screen exactly after an odd number of them. */
  lemma ShownAndResolvedAlternate(trace: seq<Event>, i: nat, j: nat, id: string)
    requires OnScreen(trace).Some? && Undisturbed(trace, i, j)
    ensures Alternating(Projection(trace[i..j], id)) && OnScreen(trace[..j]).Some?
    ensures id in OnScreen(trace[..j]).value <==> |Projection(trace[i..j], id)| % 2 == 1
  {
    OnScreenPrefix(trace, i);
    OnScreenPrefix(trace, j);
    ClearedScreen(trace, i);
    assert trace[..j] == trace[..i] + trace[i..j];
    SegmentAlternates(trace[..i], trace[i..j], id);
  }

  lemma ClearedScreen(trace: seq<Event>, i: nat)
    requires i <= |trace| && OnScreen(trace[..i]).Some? && (i == 0 || trace[i - 1].Cleared?)
    ensures OnScreen(trace[..i]) == Some({})
  {
  }

  lemma TraceAlternates(trace: seq<Event>)
    requires OnScreen(trace).Some?
    ensures AlternatesThroughout(trace)
  {
    forall i: nat, j: nat, id | Undisturbed(trace, i, j) ensures Alternating(Projection(trace[i..j], id)) {
      ShownAndResolvedAlternate(trace, i, j, id);
    }
  }

  ghost function IdsOf(es: seq<Event>): set<string> {
    set e | e in es && !e.Cleared? :: e.id
  }

  ghost predicate DistinctIds(es: seq<Event>) {
    && (forall i :: 0 <= i < |es| ==> !es[i].Cleared?)
    && (forall i, j :: 0 <= i < j < |es| ==> es[i].id != es[j].id)
  }

  lemma LastId(es: seq<Event>)
    requires es != [] && DistinctIds(es)
    ensures
      var init, id := es[..|es| - 1], es[|es| - 1].id;
      DistinctIds(init) && IdsOf(es) == IdsOf(init) + {id} && id !in IdsOf(init)
  {
    assert es == es[..|es| - 1] + [es[|es| - 1]];
  }

  lemma {:induction false} AllShownOnScreen(before: seq<Event>, open: set<string>, es: seq<Event>)
    requires OnScreen(before) == Some(open) && DistinctIds(es) && IdsOf(es) !! open
    requires forall i :: 0 <= i < |es| ==> es[i].Shown?
    ensures OnScreen(before + es) == Some(open + IdsOf(es))
  {
    if es == [] {
      assert before + es == before && open + IdsOf(es) == open;
    } else {
      LastId(es);
      AllShownOnScreen(before, open, es[..|es| - 1]);
      InitConcat(before, es);
      assert open + IdsOf(es[..|es| - 1]) + {es[|es| - 1].id} == open + IdsOf(es);
    }
  }

  lemma {:induction false} AllGoneOffScreen(before: seq<Event>, open: set<string>, es: seq<Event>)
    requires OnScreen(before) == Some(open) && DistinctIds(es) && IdsOf(es) <= open
    requires forall i :: 0 <= i < |es| ==> es[i].Resolved?
    ensures OnScreen(before + es) == Some(open - IdsOf(es))
  {
    if es == [] {
      assert before + es == before && open - IdsOf(es) == open;
    } else {
      LastId(es);
      AllGoneOffScreen(before, open, es[..|es| - 1]);
      InitConcat(before, es);
      assert open - IdsOf(es[..|es| - 1]) - {es[|es| - 1].id} == open - IdsOf(es);
    }
  }

  // The announced ids, each once.
  lemma AnnouncedIds(known: map<string, bool>, ps: seq<Prompt>, shown: seq<Event>, resolved: seq<Event>)
    requires Announced(known, ps, shown, resolved)
    ensures DistinctIds(shown) && IdsOf(shown) == WellFormedIds(ps) - known.Keys
    ensures DistinctIds(resolved) && IdsOf(resolved) == known.Keys - PresentIds(ps)
  {
    forall i | 0 <= i < |shown| ensures shown[i] in shown {
    }
    forall i | 0 <= i < |resolved| ensures resolved[i] in resolved {
    }
    forall id | id in WellFormedIds(ps) && id !in known ensures id in IdsOf(shown) {
      var e := Shown(id, FirstOf(ps, id).event, FirstOf(ps, id).payload.value);
      assert IsShown(e, ps, e.id) && e in shown;
    }
    forall id | id in known && id !in PresentIds(ps) ensures id in IdsOf(resolved) {
      assert Resolved(id, known[id]) in resolved;
    }
  }

  /** Any events that announce an answer put exactly its prompts on the screen: every well-formed one,
      and those still pending that were there before. */
  lemma PendingOnScreen(before: seq<Event>, known: map<string, bool>, ps: seq<Prompt>,
                        shown: seq<Event>, resolved: seq<Event>)
    requires OnScreen(before) == Some(known.Keys) && Announced(known, ps, shown, resolved)
    ensures
      var screen := OnScreen(before + shown + resolved);
      screen.Some? && ScreenShows(screen.value, known.Keys, ps)
  {
    AnnouncedIds(known, ps, shown, resolved);
    ShownAndResolvedOnly(known, ps, shown, resolved);
    AllShownOnScreen(before, known.Keys, shown);
    AllGoneOffScreen(before + shown, known.Keys + IdsOf(shown), resolved);
    assert WellFormedIds(ps) <= PresentIds(ps);
  }

  lemma ShownAndResolvedOnly(known: map<string, bool>, ps: seq<Prompt>, shown: seq<Event>, resolved: seq<Event>)
    requires Announced(known, ps, shown, resolved)
    ensures forall i :: 0 <= i < |shown| ==> shown[i].Shown?
    ensures forall i :: 0 <= i < |resolved| ==> resolved[i].Resolved?
  {
    assert forall i :: 0 <= i < |shown| ==> shown[i] in shown;
    assert forall i :: 0 <= i < |resolved| ==> resolved[i] in resolved;
  }

  ghost predicate NoAnswer(polls: seq<(Poll, bool)>) {
    forall i :: 0 <= i < |polls| ==> !polls[i].0.Pending?
  }

  ghost predicate WasOffline(polls: seq<(Poll, bool)>) {
    exists i :: 0 <= i < |polls| && polls[i].0.Offline?
  }

  lemma OfflineLast(polls: seq<(Poll, bool)>)
    requires polls != []
    ensures WasOffline(polls) <==> WasOffline(polls[..|polls| - 1]) || polls[|polls| - 1].0.Offline?
  {
    var init := polls[..|polls| - 1];
    if WasOffline(init) {
      var i :| 0 <= i < |init| && init[i].0.Offline?;
      assert polls[i].0.Offline?;
    }
    if WasOffline(polls) && !polls[|polls| - 1].0.Offline? {
      var i :| 0 <= i < |polls| && polls[i].0.Offline?;
      assert init[i].0.Offline?;
    }
  }

  // What the next answer finds remembered: all of it, unless the app was away.
  lemma {:induction false} RememberedUnlessAway(s: State, polls: seq<(Poll, bool)>, ps: seq<Prompt>)
    requires NoAnswer(polls)
    ensures Remembered(Steps(s, polls), Pending(ps)) ==
      if !s.wasConnected || WasOffline(polls) then map[] else s.emitted
  {
    if polls != [] {
      var init := polls[..|polls| - 1];
      assert forall i :: 0 <= i < |init| ==> init[i] == polls[i];
      RememberedUnlessAway(s, init, ps);
      OfflineLast(polls);
    }
  }

  /** A prompt that was shown and is still pending is shown again by the next answer exactly when the
      app was not connected, or went offline before it, however many failed polls come in between. */
  lemma ShownAgainIff(s: State, polls: seq<(Poll, bool)>, ps: seq<Prompt>,
                      shown: seq<Event>, resolved: seq<Event>, id: string)
    requires NoAnswer(polls) && id in s.emitted && id in WellFormedIds(ps)
    requires Announced(Remembered(Steps(s, polls), Pending(ps)), ps, shown, resolved)
    ensures (exists e :: e in shown && IsShown(e, ps, id)) <==> !s.wasConnected || WasOffline(polls)
  {
    RememberedUnlessAway(s, polls, ps);
    var e := Shown(id, FirstOf(ps, id).event, FirstOf(ps, id).payload.value);
    assert IsShown(e, ps, e.id);
    assert e in shown <==> e.id !in Remembered(Steps(s, polls), Pending(ps));
  }

  /** After being offline, the first answer shows every pending prompt again and resolves nothing. */
  lemma ShownAgainAfterReconnect(s: State, polls: seq<(Poll, bool)>, ps: seq<Prompt>,
                                 shown: seq<Event>, resolved: seq<Event>)
    requires NoAnswer(polls) && (!s.wasConnected || WasOffline(polls))
    requires Announced(Remembered(Steps(s, polls), Pending(ps)), ps, shown, resolved)
    ensures forall id :: id in WellFormedIds(ps) ==> exists e :: e in shown && IsShown(e, ps, id)
    ensures resolved == []
  {
    RememberedUnlessAway(s, polls, ps);
    forall id | id in WellFormedIds(ps) ensures exists e :: e in shown && IsShown(e, ps, id) {
      var e := Shown(id, FirstOf(ps, id).event, FirstOf(ps, id).payload.value);
      assert IsShown(e, ps, e.id);
      assert e in shown;
    }
    FirstIsMember(resolved);
  }

  lemma FirstIsMember<T>(s: seq<T>)
    ensures s != [] ==> s[0] in s
  {
  }

  /** A shown prompt that is no longer pending gets its removal event from the next answer exactly
      when the app stayed connected: one answered while the app was away is never removed. */
  lemma RemovedIffConnected(s: State, polls: seq<(Poll, bool)>, ps: seq<Prompt>,
                            shown: seq<Event>, resolved: seq<Event>, id: string)
    requires NoAnswer(polls) && id in s.emitted && id !in PresentIds(ps)
    requires Announced(Remembered(Steps(s, polls), Pending(ps)), ps, shown, resolved)
    ensures (exists d :: Resolved(id, d) in resolved) <==> s.wasConnected && !WasOffline(polls)
  {
    RememberedUnlessAway(s, polls, ps);
    if s.wasConnected && !WasOffline(polls) {
      assert Resolved(id, s.emitted[id]) in resolved;
    }
  }

  /** While polls fail, the back-off does not move; an empty answer with nothing busy slows it by
      one step, down to the tenth, and anything else resets it. */
  lemma {:induction false} BackOffCountsEmptyAnswers(s: State, n: nat, polls: seq<(Poll, bool)>)
    requires s.emptyStreak == 0
    requires forall i :: 0 <= i < |polls| ==> polls[i].0.Pending? ==> polls[i].0.prompts == [] && !polls[i].1
    requires n == |Answers(polls)|
    ensures Steps(s, polls).interval == if n == 0 then s.interval else 500 + 150 * (if n < 10 then n else 10)
    ensures Steps(s, polls).emptyStreak == if n < 10 then n else 10
  {
    if polls != [] {
      BackOffCountsEmptyAnswers(s, |Answers(polls[..|polls| - 1])|, polls[..|polls| - 1]);
    }
  }

  lemma {:induction false} StepsConcat(s: State, a: seq<(Poll, bool)>, b: seq<(Poll, bool)>)
    ensures Steps(s, a + b) == Steps(Steps(s, a), b)
  {
    if b == [] {
      assert a + b == a;
    } else {
      InitConcat(a, b);
      StepsConcat(s, a, b[..|b| - 1]);
    }
  }

  /** A prompt or a busy session brings the shortest interval back, whatever came before; from then on
      it counts the empty answers. */
  lemma ActivityResetsBackOff(s: State, before: seq<(Poll, bool)>, ps: seq<Prompt>, busy: bool,
                              since: seq<(Poll, bool)>)
    requires ps != [] || busy
    requires forall i :: 0 <= i < |since| ==> since[i].0.Pending? ==> since[i].0.prompts == [] && !since[i].1
    ensures
      var n := |Answers(since)|;
      Steps(s, before + [(Pending(ps), busy)] + since).interval == if n < 10 then 500 + 150 * n else 2000
  {
    StepsConcat(s, before + [(Pending(ps), busy)], since);
    assert (before + [(Pending(ps), busy)])[..|before|] == before;
    BackOffCountsEmptyAnswers(Steps(s, before + [(Pending(ps), busy)]), |Answers(since)|, since);
  }

  /** A new prompt is shown with the event, payload and durability of the first well-formed one with its
      id, and when a later answer lacks it, it is resolved with that durability. */
  lemma ResolvedAsShown(s: State, ps: seq<Prompt>, busy: bool, shown: seq<Event>, resolved: seq<Event>, i: nat,
                        qs: seq<Prompt>, shown': seq<Event>, resolved': seq<Event>)
    requires i < |ps| && ps[i].WellFormed()
    requires forall j :: 0 <= j < i ==> !(ps[j].WellFormed() && ps[j].id == ps[i].id)
    requires ps[i].id.value !in Remembered(s, Pending(ps)) && ps[i].id.value !in PresentIds(qs)
    requires Announced(Remembered(s, Pending(ps)), ps, shown, resolved)
    requires Announced(Remembered(Step(s, Pending(ps), busy), Pending(qs)), qs, shown', resolved')
    ensures Shown(ps[i].id.value, ps[i].event, ps[i].payload.value) in shown
    ensures Resolved(ps[i].id.value, ps[i].durable) in resolved'
  {
    var id := ps[i].id.value;
    assert id !in WellFormedIds(ps[..i]);
    FirstOfIs(ps, i, id);
    assert ps[i] in ps && id in WellFormedIds(ps) && id in PresentIds(ps);
    var e := Shown(id, ps[i].event, ps[i].payload.value);
    assert IsShown(e, ps, e.id);
    var known := Remembered(Step(s, Pending(ps), busy), Pending(qs));
    assert id in known && known[id] == ps[i].durable;
  }

  ghost function Answers(polls: seq<(Poll, bool)>): seq<Poll> {
    if polls == [] then []
    else
      Answers(polls[..|polls| - 1]) + if polls[|polls| - 1].0.Pending? then [polls[|polls| - 1].0] else []
  }
}
