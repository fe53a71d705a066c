/** The Windows session-end guard: one message pump, two atomics, and any number of watchdog
    threads, interleaved one atomic access at a time (src-tauri/src/shutdown_guard.rs). */
module ShutdownGuard {

  const GRACE_MS: nat := 1500
  const CHECKS: nat := GRACE_MS / 100

  datatype Message = QueryEndSession | EndSession(ending: bool) | Destroy

  // What the pump thread does next: wait for a message, or the rest of a handler.
  datatype Pump = Waiting | StoreCancelled | RequestExit | ArmWatchdog | StoreEnding | Stopped

  // A watchdog that has passed this many checks, or has ended.
  datatype Watchdog = Polling(passed: nat) | Disarmed | Fired

  datatype State = State(ending: bool, cancelled: bool, pump: Pump, dogs: seq<Watchdog>, shouldQuit: bool, exited: bool)

  const INITIAL := State(false, false, Waiting, [], false, false)

  datatype Step =
    | Deliver(msg: Message)
    | Continue
    | Poll(dog: nat)
    | ForceExit(dog: nat)
    | NormalExit

  predicate IsBegin(e: Step) {
    e.Deliver? && (e.msg.QueryEndSession? || (e.msg.EndSession? && e.msg.ending))
  }

  predicate IsCancel(e: Step) {
    e.Deliver? && e.msg == EndSession(false)
  }

  predicate Enabled(s: State, e: Step) {
    && !s.exited
    && match e
       case Deliver(_) => s.pump.Waiting?
       case Continue => !s.pump.Waiting? && !s.pump.Stopped?
       case Poll(w) => w < |s.dogs| && s.dogs[w].Polling? && s.dogs[w].passed < CHECKS
       case ForceExit(w) => w < |s.dogs| && s.dogs[w] == Polling(CHECKS)
       case NormalExit => s.shouldQuit
  }

  function Next(s: State, e: Step): State
    requires Enabled(s, e)
  {
    match e
    case Deliver(Destroy) => s.(pump := Stopped)
    case Deliver(EndSession(false)) => s.(cancelled := true, pump := StoreEnding)
    case Deliver(_) => if s.ending then s else s.(ending := true, pump := StoreCancelled)
    case Continue => ContinueHandler(s)
    case Poll(w) => s.(dogs := s.dogs[w := if s.cancelled then Disarmed else Polling(s.dogs[w].passed + 1)])
    case ForceExit(w) => s.(dogs := s.dogs[w := Fired], exited := true)
    case NormalExit => s.(exited := true)
  }

  function ContinueHandler(s: State): State {
    match s.pump
    case StoreCancelled => s.(cancelled := false, pump := RequestExit)
    case RequestExit => s.(shouldQuit := true, pump := ArmWatchdog)
    case ArmWatchdog => s.(dogs := s.dogs + [Polling(0)], pump := Waiting)
    case StoreEnding => s.(ending := false, pump := Waiting)
    case _ => s
  }

  // ----- runs -----

  ghost predicate Legal(s: State, run: seq<Step>)
    decreases |run|, 0
  {
    run == [] || (Legal(s, run[..|run| - 1]) && Enabled(After(s, run[..|run| - 1]), run[|run| - 1]))
  }

  ghost function After(s: State, run: seq<Step>): State
    requires Legal(s, run)
    decreases |run|, 1
  {
    if run == [] then s else Next(After(s, run[..|run| - 1]), run[|run| - 1])
  }

  ghost function Polls(run: seq<Step>, w: nat): nat {
    if run == [] then 0 else Polls(run[..|run| - 1], w) + if run[|run| - 1] == Poll(w) then 1 else 0
  }

  ghost function Cancels(run: seq<Step>): nat {
    if run == [] then 0 else Cancels(run[..|run| - 1]) + if IsCancel(run[|run| - 1]) then 1 else 0
  }

  ghost predicate NoCancel(run: seq<Step>) {
    forall i :: 0 <= i < |run| ==> !IsCancel(run[i])
  }

  ghost predicate NoBegin(run: seq<Step>) {
    forall i :: 0 <= i < |run| ==> !IsBegin(run[i])
  }

  // ----- what every interleaving keeps -----

  /** The two atomics tell where the pump is; while the session is ending and no handler is running,
      the newest watchdog is not disarmed. */
  ghost predicate Consistent(s: State) {
    && (s.pump.StoreCancelled? || s.pump.RequestExit? || s.pump.ArmWatchdog? ==> s.ending)
    && (s.pump.RequestExit? || s.pump.ArmWatchdog? ==> !s.cancelled)
    && (s.pump.StoreEnding? ==> s.cancelled)
    && (s.ending && (s.pump.Waiting? || s.pump.Stopped?) ==> !s.cancelled && NewestOn(s))
    && (forall w :: 0 <= w < |s.dogs| && s.dogs[w].Polling? ==> s.dogs[w].passed <= CHECKS)
  }

  ghost predicate NewestOn(s: State) {
    s.dogs != [] && !s.dogs[|s.dogs| - 1].Disarmed?
  }

  lemma StepKeepsConsistent(s: State, e: Step)
    requires Consistent(s) && Enabled(s, e)
    ensures Consistent(Next(s, e))
  {
  }

  lemma {:induction false} RunKeepsConsistent(run: seq<Step>)
    requires Legal(INITIAL, run)
    ensures Consistent(After(INITIAL, run))
  {
    if run != [] {
      RunKeepsConsistent(run[..|run| - 1]);
      StepKeepsConsistent(After(INITIAL, run[..|run| - 1]), run[|run| - 1]);
    }
  }

  /** However messages and polls interleave, at most one watchdog is armed, plus one for each time
      the shutdown was called off. */
  lemma {:induction false} ArmedAtMostOncePerCancel(run: seq<Step>)
    requires Legal(INITIAL, run)
    ensures |After(INITIAL, run).dogs| <= 1 + Cancels(run)
    ensures
      var s := After(INITIAL, run);
      |s.dogs| + (if s.pump.StoreCancelled? || s.pump.RequestExit? || s.pump.ArmWatchdog? then 1 else 0)
        + (if s.ending && !s.pump.StoreEnding? then 0 else 1) <= 1 + Cancels(run)
  {
    if run != [] {
      ArmedAtMostOncePerCancel(run[..|run| - 1]);
      RunKeepsConsistent(run[..|run| - 1]);
    }
  }

  /** The request to quit the normal way is never taken back, not even when the shutdown is called
      off. */
  lemma {:induction false} QuitRequestStays(s: State, run: seq<Step>)
    requires Legal(s, run) && s.shouldQuit
    ensures After(s, run).shouldQuit
  {
    if run != [] {
      QuitRequestStays(s, run[..|run| - 1]);
    }
  }

  // ----- a forced exit -----

  /** Step k of the run is the session-end message that armed watchdog w. */
  ghost predicate BeganDog(run: seq<Step>, k: nat, w: nat) {
    && k < |run| && IsBegin(run[k])
    && Legal(INITIAL, run[..k]) && !After(INITIAL, run[..k]).ending && |After(INITIAL, run[..k]).dogs| == w
  }

  predicate Arming(s: State) {
    s.pump.StoreCancelled? || s.pump.RequestExit? || s.pump.ArmWatchdog?
  }

  predicate ArmedOrArming(s: State, w: nat) {
    w < |s.dogs| || (w == |s.dogs| && Arming(s))
  }

  lemma NewlyArming(s: State, e: Step, w: nat)
    requires Enabled(s, e) && ArmedOrArming(Next(s, e), w) && !ArmedOrArming(s, w)
    ensures IsBegin(e) && !s.ending && |s.dogs| == w
  {
  }

  lemma {:induction false} EveryDogBegan(run: seq<Step>, w: nat) returns (k: nat)
    requires Legal(INITIAL, run) && ArmedOrArming(After(INITIAL, run), w)
    ensures BeganDog(run, k, w)
  {
    var init := run[..|run| - 1];
    if ArmedOrArming(After(INITIAL, init), w) {
      k := EveryDogBegan(init, w);
      assert init[..k] == run[..k];
    } else {
      NewlyArming(After(INITIAL, init), run[|run| - 1], w);
      k := |run| - 1;
    }
  }

  lemma {:induction false} NoPollsBeforeArmed(run: seq<Step>, w: nat)
    requires Legal(INITIAL, run) && w >= |After(INITIAL, run).dogs|
    ensures Polls(run, w) == 0
  {
    if run != [] {
      NoPollsBeforeArmed(run[..|run| - 1], w);
    }
  }

  /** Step i is a check of watchdog w that found the shutdown not called off. */
  ghost predicate PassedCheck(run: seq<Step>, i: nat, w: nat) {
    i < |run| && run[i] == Poll(w) && Legal(INITIAL, run[..i]) && !After(INITIAL, run[..i]).cancelled
  }

  function Passed(d: Watchdog): nat {
    match d
    case Polling(passed) => passed
    case _ => CHECKS
  }

  lemma StepCounted(s: State, e: Step, w: nat)
    requires Enabled(s, e) && w < |Next(s, e).dogs| && !Next(s, e).dogs[w].Disarmed?
    ensures w < |s.dogs| ==> !s.dogs[w].Disarmed?
    ensures Passed(Next(s, e).dogs[w]) ==
      (if w < |s.dogs| then Passed(s.dogs[w]) else 0) + if w < |s.dogs| && e == Poll(w) then 1 else 0
    ensures w >= |s.dogs| ==> e != Poll(w)
  {
  }

  // A watchdog that is still on has made as many checks as it counts ...
  lemma {:induction false} ChecksCounted(run: seq<Step>, w: nat)
    requires Legal(INITIAL, run) && w < |After(INITIAL, run).dogs| && !After(INITIAL, run).dogs[w].Disarmed?
    ensures Polls(run, w) == Passed(After(INITIAL, run).dogs[w])
  {
    var init := run[..|run| - 1];
    StepCounted(After(INITIAL, init), run[|run| - 1], w);
    if w < |After(INITIAL, init).dogs| {
      ChecksCounted(init, w);
    } else {
      NoPollsBeforeArmed(init, w);
    }
  }

  // ... and has passed each.
  lemma {:induction false} ChecksPassed(run: seq<Step>, w: nat, i: nat)
    requires Legal(INITIAL, run) && w < |After(INITIAL, run).dogs| && !After(INITIAL, run).dogs[w].Disarmed?
    requires i < |run| && run[i] == Poll(w)
    ensures PassedCheck(run, i, w)
  {
    var init := run[..|run| - 1];
    if w >= |After(INITIAL, init).dogs| {
      NoPollsBeforeArmed(init, w);
      NoPollStep(init, w);
    } else {
      StillOn(After(INITIAL, init), run[|run| - 1], w);
      if i < |init| {
        ChecksPassed(init, w, i);
        assert init[..i] == run[..i];
      }
    }
  }

  lemma StillOn(s: State, e: Step, w: nat)
    requires Enabled(s, e) && w < |s.dogs| && !Next(s, e).dogs[w].Disarmed?
    ensures !s.dogs[w].Disarmed? && (e == Poll(w) ==> !s.cancelled)
  {
  }

  lemma {:induction false} NoPollStep(run: seq<Step>, w: nat)
    requires Polls(run, w) == 0
    ensures forall i :: 0 <= i < |run| ==> run[i] != Poll(w)
  {
    if run != [] {
      NoPollStep(run[..|run| - 1], w);
    }
  }

  /** A forced exit has been announced: a session-end message armed the watchdog that forces it, and
      since then that watchdog has made all its checks, each finding the shutdown not called off. */
  lemma ForcedExitWasAnnounced(run: seq<Step>, w: nat)
    requires Legal(INITIAL, run) && w < |After(INITIAL, run).dogs| && After(INITIAL, run).dogs[w].Fired?
    ensures exists k: nat :: BeganDog(run, k, w) && Polls(run[..k], w) == 0
    ensures Polls(run, w) == CHECKS == 15
    ensures forall i :: 0 <= i < |run| && run[i] == Poll(w) ==> PassedCheck(run, i, w)
  {
    var k := EveryDogBegan(run, w);
    NoPollsBeforeArmed(run[..k], w);
    ChecksCounted(run, w);
    forall i | 0 <= i < |run| && run[i] == Poll(w) ensures PassedCheck(run, i, w) {
      ChecksPassed(run, w, i);
    }
  }

  // ----- a session end that is not called off -----

  /** Without a cancel, a watchdog that is on stays on: it counts its checks, its next step is
      always possible, and that step after the last check ends the process. */
  lemma {:induction false} WithoutCancelStaysOn(s: State, run: seq<Step>, w: nat)
    requires Consistent(s) && !s.cancelled && w < |s.dogs| && s.dogs[w].Polling?
    requires Legal(s, run) && NoCancel(run)
    ensures
      var t := After(s, run);
      && Consistent(t) && !t.cancelled && w < |t.dogs|
      && (t.exited || t.dogs[w] == Polling(s.dogs[w].passed + Polls(run, w)))
      && (!t.exited ==> Enabled(t, if t.dogs[w].passed < CHECKS then Poll(w) else ForceExit(w)))
      && (Enabled(t, ForceExit(w)) ==> Next(t, ForceExit(w)).exited)
  {
    if run != [] {
      var init, e := run[..|run| - 1], run[|run| - 1];
      assert forall i :: 0 <= i < |init| ==> init[i] == run[i];
      WithoutCancelStaysOn(s, init, w);
      StepKeepsConsistent(After(s, init), e);
    }
  }

  /** A session-end message that is handled leaves a watchdog on, whether or not it is the first. */
  lemma BeginLeavesWatchdogOn(s: State, e: Step) returns (run: seq<Step>)
    requires Consistent(s) && IsBegin(e) && Enabled(s, e)
    ensures run == if s.ending then [e] else [e, Continue, Continue, Continue]
    ensures Legal(s, run) && !After(s, run).cancelled && After(s, run).pump.Waiting?
    ensures NewestOn(After(s, run)) && After(s, run).shouldQuit == (!s.ending || s.shouldQuit)
  {
    if s.ending {
      run := RunNext(s, [], e);
    } else {
      run := RunBegin(s, [], e);
    }
  }

  lemma RunNext(s: State, run: seq<Step>, e: Step) returns (run': seq<Step>)
    requires Legal(s, run) && Enabled(After(s, run), e)
    ensures run' == run + [e] && Legal(s, run') && After(s, run') == Next(After(s, run), e)
  {
    run' := run + [e];
    assert run'[..|run|] == run;
  }

  // A session-end message that is the first one, handled without interruption.
  lemma RunBegin(s: State, run: seq<Step>, e: Step) returns (run': seq<Step>)
    requires Legal(s, run) && IsBegin(e)
    requires var t := After(s, run); !t.exited && t.pump.Waiting? && !t.ending
    ensures run' == run + [e, Continue, Continue, Continue] && Legal(s, run')
    ensures
      var t := After(s, run);
      After(s, run') == t.(ending := true, cancelled := false, shouldQuit := true, dogs := t.dogs + [Polling(0)])
  {
    var r1 := RunNext(s, run, e);
    var r2 := RunNext(s, r1, Continue);
    var r3 := RunNext(s, r2, Continue);
    run' := RunNext(s, r3, Continue);
  }

  /** Once a session-end message has been handled and no cancel follows, the process ends: in every
      continuation the newest watchdog either has ended it, or can take its next step and has at
      most its remaining checks to go. */
  lemma BeginEndsInExit(before: seq<Step>, run: seq<Step>)
    requires Legal(INITIAL, before)
    requires var s := After(INITIAL, before); s.ending && s.pump.Waiting? && Legal(s, run) && NoCancel(run)
    ensures
      var s := After(INITIAL, before);
      var t := After(s, run);
      var w := |s.dogs| - 1;
      && 0 <= w < |t.dogs|
      && (t.exited || (
            && s.dogs[w].Polling? && t.dogs[w].Polling?
            && Polls(run, w) + s.dogs[w].passed == t.dogs[w].passed <= CHECKS
            && Enabled(t, if t.dogs[w].passed < CHECKS then Poll(w) else ForceExit(w))))
  {
    var s := After(INITIAL, before);
    RunKeepsConsistent(before);
    if s.dogs[|s.dogs| - 1].Fired? {
      FiredHasExited(before, |s.dogs| - 1);
    }
    if s.exited {
      ExitIsFinal(s, run);
    } else {
      WithoutCancelStaysOn(s, run, |s.dogs| - 1);
    }
  }

  lemma {:induction false} FiredHasExited(run: seq<Step>, w: nat)
    requires Legal(INITIAL, run) && w < |After(INITIAL, run).dogs| && After(INITIAL, run).dogs[w].Fired?
    ensures After(INITIAL, run).exited
  {
    var init := run[..|run| - 1];
    if w < |After(INITIAL, init).dogs| && After(INITIAL, init).dogs[w].Fired? {
      FiredHasExited(init, w);
    }
  }

  lemma {:induction false} ExitIsFinal(s: State, run: seq<Step>)
    requires s.exited && Legal(s, run)
    ensures run == []
  {
    if run != [] {
      ExitIsFinal(s, run[..|run| - 1]);
    }
  }

  // ----- a session end that is called off -----

  /** Step i is a check of watchdog w that finds the shutdown called off. */
  ghost predicate FindsCancelled(s: State, run: seq<Step>, i: nat, w: nat) {
    i < |run| && run[i] == Poll(w) && Legal(s, run[..i]) && After(s, run[..i]).cancelled
  }

  ghost predicate SeesCancel(s: State, run: seq<Step>, w: nat) {
    exists i: nat :: FindsCancelled(s, run, i, w)
  }

  lemma SeesCancelLast(s: State, run: seq<Step>, w: nat)
    requires run != [] && Legal(s, run)
    ensures
      var init := run[..|run| - 1];
      SeesCancel(s, run, w) <==> SeesCancel(s, init, w) || (run[|run| - 1] == Poll(w) && After(s, init).cancelled)
  {
    var init := run[..|run| - 1];
    forall i: nat | i < |init| ensures FindsCancelled(s, init, i, w) <==> FindsCancelled(s, run, i, w) {
      assert init[..i] == run[..i];
    }
    if SeesCancel(s, init, w) {
      var i: nat :| FindsCancelled(s, init, i, w);
      assert FindsCancelled(s, run, i, w);
    }
    if run[|run| - 1] == Poll(w) && After(s, init).cancelled {
      assert FindsCancelled(s, run, |run| - 1, w);
    }
  }

  /** Whatever else happens, a watchdog that is on is disarmed exactly when one of its own checks finds
      the shutdown called off, and it stays so. Otherwise it counts every check, can always take its
      next step, and ends the process with the one after the last. */
  lemma {:induction false} DisarmedIffCancelSeen(s: State, run: seq<Step>, w: nat)
    requires Legal(s, run) && w < |s.dogs| && s.dogs[w].Polling?
    ensures w < |After(s, run).dogs|
    ensures After(s, run).dogs[w].Disarmed? <==> SeesCancel(s, run, w)
    ensures !SeesCancel(s, run, w) && s.dogs[w].passed <= CHECKS ==> CountsOn(s, run, After(s, run), w)
  {
    if run != [] {
      DisarmedIffCancelSeen(s, run[..|run| - 1], w);
      SeesCancelLast(s, run, w);
    }
  }

  ghost predicate CountsOn(s: State, run: seq<Step>, t: State, w: nat)
    requires w < |s.dogs| && s.dogs[w].Polling?
  {
    && w < |t.dogs| && s.dogs[w].passed + Polls(run, w) <= CHECKS
    && (t.dogs[w].Fired? ==> t.exited && s.dogs[w].passed + Polls(run, w) == CHECKS)
    && (!t.dogs[w].Fired? ==> t.dogs[w] == Polling(s.dogs[w].passed + Polls(run, w)))
    && (!t.exited ==> Enabled(t, if t.dogs[w].passed < CHECKS then Poll(w) else ForceExit(w)))
  }

  lemma {:induction false} LegalPrefix(s: State, run: seq<Step>, i: nat)
    requires Legal(s, run) && i <= |run|
    ensures Legal(s, run[..i])
  {
    if i < |run| {
      var init := run[..|run| - 1];
      LegalPrefix(s, init, i);
      assert init[..i] == run[..i];
    } else {
      assert run[..i] == run;
    }
  }

  lemma NoBeginPrefix(run: seq<Step>, i: nat)
    requires NoBegin(run) && i <= |run|
    ensures NoBegin(run[..i])
  {
  }

  // Only a session-end message starts to take the cancel back.
  lemma {:induction false} CancelStays(s: State, run: seq<Step>)
    requires s.cancelled && !Arming(s) && Legal(s, run) && NoBegin(run)
    ensures After(s, run).cancelled && !Arming(After(s, run))
  {
    if run != [] {
      NoBeginPrefix(run, |run| - 1);
      CancelStays(s, run[..|run| - 1]);
    }
  }

  lemma {:induction false} PollStep(run: seq<Step>, w: nat) returns (i: nat)
    requires Polls(run, w) > 0
    ensures i < |run| && run[i] == Poll(w)
  {
    if run[|run| - 1] == Poll(w) {
      i := |run| - 1;
    } else {
      i := PollStep(run[..|run| - 1], w);
    }
  }

  /** After a cancel with no later session-end message, a watchdog with a check left never forces an
      exit: its next check disarms it. */
  lemma CancelDisarms(s: State, run: seq<Step>, w: nat)
    requires s.cancelled && !Arming(s) && Legal(s, run) && NoBegin(run)
    requires w < |s.dogs| && s.dogs[w].Polling? && s.dogs[w].passed < CHECKS
    ensures w < |After(s, run).dogs|
    ensures After(s, run).dogs[w] == if Polls(run, w) == 0 then s.dogs[w] else Disarmed
  {
    DisarmedIffCancelSeen(s, run, w);
    if Polls(run, w) == 0 {
      NoPollStep(run, w);
    } else {
      var i := PollStep(run, w);
      LegalPrefix(s, run, i);
      NoBeginPrefix(run, i);
      CancelStays(s, run[..i]);
      assert FindsCancelled(s, run, i, w);
    }
  }

  // The cancel and the session-end message that follows it, before any watchdog checks again.
  const CANCEL_AND_BEGIN: seq<Step> :=
    [Deliver(EndSession(false)), Continue, Deliver(QueryEndSession), Continue, Continue, Continue]

  lemma CancelAndBeginRearms(s: State) returns (run: seq<Step>)
    requires !s.exited && s.pump.Waiting?
    ensures run == CANCEL_AND_BEGIN && Legal(s, run)
    ensures After(s, run) ==
      s.(ending := true, cancelled := false, shouldQuit := true, dogs := s.dogs + [Polling(0)])
  {
    run := RunNext(s, [], Deliver(EndSession(false)));
    run := RunNext(s, run, Continue);
    run := RunBegin(s, run, Deliver(QueryEndSession));
  }

  // Watchdog w alone takes n more checks.
  lemma {:induction false} KeepPolling(s: State, run: seq<Step>, w: nat, n: nat) returns (more: seq<Step>)
    requires Legal(s, run)
    requires var t := After(s, run);
      !t.exited && !t.cancelled && w < |t.dogs| && t.dogs[w].Polling? && t.dogs[w].passed + n == CHECKS
    ensures run <= more && Legal(s, more) && OnlyDogDone(After(s, run), After(s, more), w)
    decreases n
  {
    if n == 0 {
      more := run;
    } else {
      var next := RunNext(s, run, Poll(w));
      more := KeepPolling(s, next, w, n - 1);
    }
  }

  // t and u differ only in watchdog w, which has passed all its checks in u.
  ghost predicate OnlyDogDone(t: State, u: State, w: nat) {
    && u == t.(dogs := u.dogs) && |u.dogs| == |t.dogs| && w < |t.dogs| && u.dogs[w] == Polling(CHECKS)
    && forall v :: 0 <= v < |t.dogs| && v != w ==> u.dogs[v] == t.dogs[v]
  }

  /** A watchdog that does not check between the cancel and the next session-end message misses the
      cancel: it can end the process before the new watchdog has made a single check of its own. */
  lemma StaleWatchdogFires(s: State, w: nat) returns (run: seq<Step>)
    requires !s.exited && s.pump.Waiting? && w < |s.dogs| && s.dogs[w].Polling? && s.dogs[w].passed < CHECKS
    ensures CANCEL_AND_BEGIN <= run && Legal(s, run)
    ensures
      var t := After(s, run);
      t.exited && t.dogs == s.dogs[w := Fired] + [Polling(0)]
  {
    var start := CancelAndBeginRearms(s);
    var most := KeepPolling(s, start, w, CHECKS - s.dogs[w].passed);
    run := RunNext(s, most, ForceExit(w));
    assert After(s, run).dogs == s.dogs[w := Fired] + [Polling(0)];
  }
}
