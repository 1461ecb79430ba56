/**
 * Start and Stop of one SyncService, each called any number of times from any number of goroutines.
 * A step is one access to shared memory: the compare-and-swap on the state word, the store of it, a
 * body under the mutex, sync.Once.  Histories are arbitrary interleavings of steps.
 */
module SyncService {
  import opened Common

  type Caller = nat

  datatype Word = Stopped | Running | Stopping
  datatype Once = Fresh | Busy(caller: Caller) | Done

  /** How far a call of Start has come. */
  datatype StartPhase =
    | Claimed      // the swap to Running succeeded
    | HasWatcher   // read a watcher that was not nil
    | Added        // all directories are watched
    | Spawned      // the event loop runs, Start returns nil
    | Abandoned    // the status manager failed: error without rollback
    | RollStore    // rollback is about to store Stopped
    | RollClose
    | RollReset
    | StartFailed

  datatype StopPhase =
    | WantOnce
    | InBody
    | Taken(had: bool)  // took the watcher reference and set the field to nil
    | BodyEnd
    | Waiting
    | Finished          // stored Stopped after the shutdown body
    | Idle              // found Stopped: nothing to do, returned
    | Waited            // found Stopping: waits for the event loop or its own deadline, then returns

  datatype State = State(
    word: Word,
    watcher: bool,      // the field is not nil
    closes: nat,
    once: Once,
    starts: map<Caller, StartPhase>,
    stops: map<Caller, StopPhase>,
    spawners: set<Caller>,
    loops: nat,
    crashed: bool       // sync.Once was overwritten while its function ran
  )

  const INITIAL := State(Stopped, true, 0, Fresh, map[], map[], {}, 0, false)

  datatype Step =
    | StartCall(c: Caller)
    | ReadWatcher(c: Caller)
    | StatusFails(c: Caller)
    | AddSucceeds(c: Caller)
    | AddFails(c: Caller)
    | Spawn(c: Caller)
    | StoreStopped(c: Caller)
    | CloseInRollback(c: Caller)
    | ResetOnce(c: Caller)
    | StopCall(c: Caller)
    | EnterOnce(c: Caller)
    | TakeWatcher(c: Caller)
    | CloseTaken(c: Caller)
    | LeaveOnce(c: Caller)
    | FinishStop(c: Caller)

  function StartAt(s: State, c: Caller): Option<StartPhase> { Lookup(s.starts, c) }
  function StopAt(s: State, c: Caller): Option<StopPhase> { Lookup(s.stops, c) }

  function Do(s: State, step: Step): Option<State> {
    if s.crashed then None
    else match step
      case StartCall(c) =>
        if c in s.starts then None
        else if s.word == Stopped then Some(s.(word := Running, starts := s.starts[c := Claimed]))
        else Some(s.(starts := s.starts[c := StartFailed]))
      case ReadWatcher(c) =>
        if StartAt(s, c) != Some(Claimed) then None
        else Some(s.(starts := s.starts[c := if s.watcher then HasWatcher else RollStore]))
      case StatusFails(c) =>
        if StartAt(s, c) != Some(HasWatcher) then None else Some(s.(starts := s.starts[c := Abandoned]))
      case AddSucceeds(c) =>
        if StartAt(s, c) != Some(HasWatcher) then None else Some(s.(starts := s.starts[c := Added]))
      case AddFails(c) =>
        if StartAt(s, c) != Some(HasWatcher) then None else Some(s.(starts := s.starts[c := RollStore]))
      case Spawn(c) =>
        if StartAt(s, c) != Some(Added) then None
        else Some(s.(starts := s.starts[c := Spawned], spawners := s.spawners + {c}, loops := s.loops + 1))
      case StoreStopped(c) =>
        if StartAt(s, c) != Some(RollStore) then None else Some(s.(word := Stopped, starts := s.starts[c := RollClose]))
      case CloseInRollback(c) =>
        if StartAt(s, c) != Some(RollClose) then None
        else Some(s.(watcher := false, closes := s.closes + (if s.watcher then 1 else 0), starts := s.starts[c := RollReset]))
      case ResetOnce(c) =>
        if StartAt(s, c) != Some(RollReset) then None
        else Some(s.(once := Fresh, starts := s.starts[c := StartFailed]))
      case StopCall(c) =>
        if c in s.stops then None
        else if s.word == Running then Some(s.(word := Stopping, stops := s.stops[c := WantOnce]))
        else Some(s.(stops := s.stops[c := if s.word == Stopping then Waited else Idle]))
      case EnterOnce(c) =>
        if StopAt(s, c) != Some(WantOnce) || s.once.Busy? then None
        else if s.once == Done then Some(s.(stops := s.stops[c := Waiting]))
        else Some(s.(once := Busy(c), stops := s.stops[c := InBody]))
      case TakeWatcher(c) =>
        if StopAt(s, c) != Some(InBody) then None
        else Some(s.(watcher := false, stops := s.stops[c := Taken(s.watcher)]))
      case CloseTaken(c) =>
        if c !in s.stops || !s.stops[c].Taken? then None
        else Some(s.(closes := s.closes + (if s.stops[c].had then 1 else 0), stops := s.stops[c := BodyEnd]))
      case LeaveOnce(c) =>
        if StopAt(s, c) != Some(BodyEnd) then None
        else Some(s.(once := Done, crashed := !s.once.Busy?, stops := s.stops[c := Waiting]))
      case FinishStop(c) =>
        if StopAt(s, c) != Some(Waiting) then None
        else Some(s.(word := Stopped, stops := s.stops[c := Finished]))
  }

  ghost predicate IsHistory(states: seq<State>, steps: seq<Step>) {
    && |states| == |steps| + 1
    && states[0] == INITIAL
    && forall i :: 0 <= i < |steps| ==> StepAt(states, steps, i)
  }

  ghost predicate StepAt(states: seq<State>, steps: seq<Step>, i: nat)
    requires |states| == |steps| + 1 && i < |steps|
  {
    Do(states[i], steps[i]) == Some(states[i + 1])
  }

  /*---------- Invariant ----------*/

  predicate InsideOnce(p: StopPhase) {
    p == InBody || p.Taken? || p == BodyEnd
  }

  /** A Stop that moved the state word to Stopping and has not stored Stopped yet. */
  predicate Shutting(p: StopPhase) {
    p == WantOnce || InsideOnce(p) || p == Waiting
  }

  /** A Start that holds the Running word while the watcher is still there. */
  predicate Owner(p: StartPhase) {
    p in {Claimed, HasWatcher, Added, Spawned, Abandoned, RollStore}
  }

  /** A Start that saw the watcher and has not given up: it may spawn the event loop or has done so. */
  predicate Holder(p: StartPhase) {
    p in {HasWatcher, Added, Spawned}
  }

  /** While the watcher exists one Start at most owns the Running word, and no Stop is past taking the watcher. */
  ghost predicate OwnerInv(s: State) {
    s.watcher ==>
      && (forall c, d :: c in s.starts && d in s.starts && Owner(s.starts[c]) && Owner(s.starts[d]) ==> c == d)
      && (s.word == Stopped ==> forall c :: c in s.starts ==> !Owner(s.starts[c]))
      && (forall c :: c in s.stops ==> s.stops[c] in {WantOnce, InBody, Idle, Waited})
      && s.once != Done
  }

  ghost predicate HolderInv(s: State) {
    && (forall c, d :: c in s.starts && d in s.starts && Holder(s.starts[c]) && Holder(s.starts[d]) ==> c == d)
  }

  ghost predicate LoopInv(s: State) {
    && (forall c :: c in s.spawners <==> c in s.starts && s.starts[c] == Spawned)
    && s.loops == |s.spawners|
  }

  /** The watcher is there, or in the hands of one Stop, or closed once. */
  ghost predicate CloseInv(s: State) {
    && s.closes <= 1
    && (s.watcher ==> s.closes == 0)
    && (forall c :: c in s.stops && s.stops[c] == Taken(true) ==> !s.watcher && s.closes == 0)
    && (forall c, d :: c in s.stops && d in s.stops && s.stops[c] == Taken(true) && s.stops[d] == Taken(true) ==> c == d)
  }

  /** A watcher that is gone was closed, or some Stop has it in its hands to close it. */
  ghost predicate ReleaseInv(s: State) {
    !s.watcher ==> s.closes == 1 || exists c :: c in s.stops && s.stops[c] == Taken(true)
  }

  /** Some call stands behind every word but Stopped: a Start that claimed it, a Stop that will store Stopped. */
  ghost predicate WordInv(s: State) {
    && (s.word == Running ==> exists c :: c in s.starts && Owner(s.starts[c]))
    && (s.word == Stopping ==> exists c :: c in s.stops && Shutting(s.stops[c]))
  }

  ghost predicate Inv(s: State) {
    OwnerInv(s) && HolderInv(s) && LoopInv(s) && CloseInv(s) && ReleaseInv(s) && WordInv(s)
  }

  lemma StepKeepsOwner(s: State, step: Step, t: State)
    requires OwnerInv(s) && Do(s, step) == Some(t)
    ensures OwnerInv(t)
  {
  }

  lemma StepKeepsHolder(s: State, step: Step, t: State)
    requires OwnerInv(s) && HolderInv(s) && Do(s, step) == Some(t)
    ensures HolderInv(t)
  {
  }

  lemma StepKeepsLoop(s: State, step: Step, t: State)
    requires LoopInv(s) && Do(s, step) == Some(t)
    ensures LoopInv(t)
  {
    if step.Spawn? {
      assert step.c !in s.spawners;
    } else {
      assert t.spawners == s.spawners && t.loops == s.loops;
    }
  }

  lemma StepKeepsClose(s: State, step: Step, t: State)
    requires CloseInv(s) && Do(s, step) == Some(t)
    ensures CloseInv(t)
  {
  }

  lemma StepKeepsRelease(s: State, step: Step, t: State)
    requires CloseInv(s) && ReleaseInv(s) && Do(s, step) == Some(t)
    ensures ReleaseInv(t)
  {
    if !s.watcher && s.closes != 1 {
      var c :| c in s.stops && s.stops[c] == Taken(true);
      assert step != CloseTaken(c) ==> t.stops[c] == Taken(true);
    } else if step.TakeWatcher? {
      assert t.stops[step.c] == Taken(s.watcher);
    }
  }

  lemma StepKeepsWord(s: State, step: Step, t: State)
    requires WordInv(s) && Do(s, step) == Some(t)
    ensures WordInv(t)
  {
    if t.word == Running {
      if step.StartCall? && s.word == Stopped {
        assert Owner(t.starts[step.c]);
      } else {
        var c :| c in s.starts && Owner(s.starts[c]);
        assert Owner(t.starts[c]);
      }
    } else if t.word == Stopping {
      if step.StopCall? && s.word == Running {
        assert Shutting(t.stops[step.c]);
      } else {
        var c :| c in s.stops && Shutting(s.stops[c]);
        assert Shutting(t.stops[c]);
      }
    }
  }

  lemma {:induction false} HistoryKeepsInv(states: seq<State>, steps: seq<Step>, n: nat)
    requires IsHistory(states, steps) && n < |states|
    ensures Inv(states[n])
  {
    if n > 0 {
      HistoryKeepsInv(states, steps, n - 1);
      assert StepAt(states, steps, n - 1);
      StepKeepsOwner(states[n - 1], steps[n - 1], states[n]);
      StepKeepsHolder(states[n - 1], steps[n - 1], states[n]);
      StepKeepsLoop(states[n - 1], steps[n - 1], states[n]);
      StepKeepsClose(states[n - 1], steps[n - 1], states[n]);
      StepKeepsRelease(states[n - 1], steps[n - 1], states[n]);
      StepKeepsWord(states[n - 1], steps[n - 1], states[n]);
    }
  }

  /** At most one event loop is ever spawned and the watcher is closed at most once, whatever the interleaving. */
  lemma OneLoopOneClose(states: seq<State>, steps: seq<Step>, n: nat)
    requires IsHistory(states, steps) && n < |states|
    ensures states[n].loops <= 1 && states[n].closes <= 1
    ensures states[n].watcher ==> states[n].closes == 0
  {
    HistoryKeepsInv(states, steps, n);
    AtMostOne(states[n].spawners);
  }

  /**
   * The watcher never leaks: once it is gone and no Stop has it in its hands it was closed exactly once.
   * And no word but Stopped outlives the calls that set it.
   */
  lemma ClosedOnceReleased(states: seq<State>, steps: seq<Step>, n: nat)
    requires IsHistory(states, steps) && n < |states|
    ensures !states[n].watcher && (forall c :: c in states[n].stops ==> states[n].stops[c] != Taken(true)) ==> states[n].closes == 1
    ensures (forall c :: c in states[n].stops ==> !Shutting(states[n].stops[c])) ==> states[n].word != Stopping
    ensures (forall c :: c in states[n].starts ==> !Owner(states[n].starts[c])) ==> states[n].word != Running
  {
    HistoryKeepsInv(states, steps, n);
  }

  /** A Start has spawned the event loop exactly when it succeeded. */
  lemma LoopOfEachStart(states: seq<State>, steps: seq<Step>, n: nat)
    requires IsHistory(states, steps) && n < |states|
    ensures states[n].loops == |states[n].spawners|
    ensures forall c :: c in states[n].spawners <==> StartAt(states[n], c) == Some(Spawned)
  {
    HistoryKeepsInv(states, steps, n);
  }

  lemma AtMostOne(callers: set<Caller>)
    requires forall c, d :: c in callers && d in callers ==> c == d
    ensures |callers| <= 1
  {
    if c :| c in callers {
      assert callers == {c};
    }
  }

  /** Once the watcher field is nil it stays nil. */
  lemma {:induction false} WatcherNeverReturns(states: seq<State>, steps: seq<Step>, m: nat, n: nat)
    requires IsHistory(states, steps) && m <= n < |states| && !states[m].watcher
    ensures !states[n].watcher
  {
    if m < n {
      WatcherNeverReturns(states, steps, m, n - 1);
      assert StepAt(states, steps, n - 1);
    }
  }

  /** A Start that begins when the watcher is gone only ever fails. */
  lemma {:induction false} LateStartOnlyFails(states: seq<State>, steps: seq<Step>, m: nat, n: nat, c: Caller)
    requires IsHistory(states, steps) && m < n < |states|
    requires steps[m] == StartCall(c) && !states[m].watcher
    ensures c in states[n].starts && states[n].starts[c] in {Claimed, RollStore, RollClose, RollReset, StartFailed}
  {
    assert StepAt(states, steps, n - 1);
    if m < n - 1 {
      LateStartOnlyFails(states, steps, m, n - 1, c);
      WatcherNeverReturns(states, steps, m, n - 1);
    }
  }

  /** No Start that begins after the Stop that shut the service down has completed ever succeeds. */
  lemma NoStartAfterStop(states: seq<State>, steps: seq<Step>, m: nat, n: nat, stopper: Caller, c: Caller)
    requires IsHistory(states, steps) && m < n < |states|
    requires StopAt(states[m], stopper) == Some(Finished) && steps[m] == StartCall(c)
    ensures StartAt(states[n], c) != Some(Spawned)
  {
    HistoryKeepsInv(states, steps, m);
    assert stopper in states[m].stops && states[m].stops[stopper] == Finished;
    LateStartOnlyFails(states, steps, m, n, c);
  }

  /** The state after a script of steps, None if one of them is not possible. */
  function After(s: State, script: seq<Step>): Option<State>
    decreases script
  {
    if script == [] then Some(s)
    else
      var next := Do(s, script[0]);
      if next.None? then None else After(next.value, script[1..])
  }

  lemma AfterStep(s: State, step: Step, rest: seq<Step>)
    requires Do(s, step).Some?
    ensures After(s, [step] + rest) == After(Do(s, step).value, rest)
  {
    assert ([step] + rest)[1..] == rest;
  }

  /** Stop `d` is about to leave its shutdown body while Start `c` is still adding directories. */
  predicate Overtaken(s: State, c: Caller, d: Caller) {
    !s.crashed && StartAt(s, c) == Some(HasWatcher) && StopAt(s, d) == Some(BodyEnd) && s.once == Busy(d)
  }

  lemma StopCanOvertakeStart()
    ensures var s := After(INITIAL, [StartCall(0), ReadWatcher(0), StopCall(1), EnterOnce(1), TakeWatcher(1), CloseTaken(1)]);
            s.Some? && Overtaken(s.value, 0, 1)
  {
    var s1 := Do(INITIAL, StartCall(0)).value;
    var s2 := Do(s1, ReadWatcher(0)).value;
    var s3 := Do(s2, StopCall(1)).value;
    var s4 := Do(s3, EnterOnce(1)).value;
    var s5 := Do(s4, TakeWatcher(1)).value;
    AfterStep(s5, CloseTaken(1), []);
    AfterStep(s4, TakeWatcher(1), [CloseTaken(1)]);
    AfterStep(s3, EnterOnce(1), [TakeWatcher(1), CloseTaken(1)]);
    AfterStep(s2, StopCall(1), [EnterOnce(1), TakeWatcher(1), CloseTaken(1)]);
    AfterStep(s1, ReadWatcher(0), [StopCall(1), EnterOnce(1), TakeWatcher(1), CloseTaken(1)]);
    AfterStep(INITIAL, StartCall(0), [ReadWatcher(0), StopCall(1), EnterOnce(1), TakeWatcher(1), CloseTaken(1)]);
  }

  lemma RollbackTail(s: State, c: Caller, d: Caller)
    requires !s.crashed && StartAt(s, c) == Some(RollClose) && StopAt(s, d) == Some(BodyEnd)
    ensures var end := After(s, [CloseInRollback(c), ResetOnce(c), LeaveOnce(d)]);
            end.Some? && end.value.crashed
  {
    var s3 := Do(s, CloseInRollback(c)).value;
    assert StartAt(s3, c) == Some(RollReset) && StopAt(s3, d) == Some(BodyEnd) && !s3.crashed;
    var s4 := Do(s3, ResetOnce(c)).value;
    assert StopAt(s4, d) == Some(BodyEnd) && s4.once == Fresh && !s4.crashed;
    AfterStep(s4, LeaveOnce(d), []);
    AfterStep(s3, ResetOnce(c), [LeaveOnce(d)]);
    AfterStep(s, CloseInRollback(c), [ResetOnce(c), LeaveOnce(d)]);
  }

  /**
   * From any such state, if the Start fails its rollback replaces the sync.Once under the running
   * Stop, and leaving the body then unlocks a mutex that is not locked.
   */
  lemma RollbackCanBreakOnce(s: State, c: Caller, d: Caller)
    requires Overtaken(s, c, d)
    ensures var end := After(s, [AddFails(c), StoreStopped(c), CloseInRollback(c), ResetOnce(c), LeaveOnce(d)]);
            end.Some? && end.value.crashed
  {
    var s1 := Do(s, AddFails(c)).value;
    assert StartAt(s1, c) == Some(RollStore) && StopAt(s1, d) == Some(BodyEnd) && !s1.crashed;
    var s2 := Do(s1, StoreStopped(c)).value;
    assert StartAt(s2, c) == Some(RollClose) && StopAt(s2, d) == Some(BodyEnd) && !s2.crashed;
    RollbackTail(s2, c, d);
    AfterStep(s1, StoreStopped(c), [CloseInRollback(c), ResetOnce(c), LeaveOnce(d)]);
    AfterStep(s, AddFails(c), [StoreStopped(c), CloseInRollback(c), ResetOnce(c), LeaveOnce(d)]);
  }

  /** A Start that has not returned and may still store Stopped, or may still reset the sync.Once. */
  const MAY_STORE := {Claimed, HasWatcher, RollStore}
  const MAY_RESET := {Claimed, HasWatcher, RollStore, RollClose, RollReset}

  /** Whoever is inside the shutdown body holds the sync.Once, and nothing has gone wrong. */
  ghost predicate OnceHeld(s: State) {
    !s.crashed && forall c :: c in s.stops && InsideOnce(s.stops[c]) ==> s.once == Busy(c)
  }

  ghost predicate BusyInside(s: State) {
    s.once.Busy? ==> s.once.caller in s.stops && InsideOnce(s.stops[s.once.caller])
  }

  /** One step breaks the sync.Once exactly when it is a rollback's reset while a Stop is inside. */
  lemma StepKeepsOnceHeld(s: State, step: Step, t: State)
    requires OnceHeld(s) && BusyInside(s) && Do(s, step) == Some(t)
    ensures OnceHeld(t) <==> !(step.ResetOnce? && s.once.Busy?)
    ensures OnceHeld(t) ==> BusyInside(t)
  {
    if step.ResetOnce? && s.once.Busy? {
      assert t.stops[s.once.caller] == s.stops[s.once.caller];
    }
  }

  /**
   * Every Stop that takes effect begins when no Start is in one of these phases, as when a caller
   * lets each Start return before it calls Stop.
   */
  ghost predicate StopsWaitForStarts(states: seq<State>, steps: seq<Step>, n: nat, phases: set<StartPhase>)
    requires |states| == |steps| + 1 && n <= |steps|
  {
    forall i, c :: 0 <= i < n && steps[i].StopCall? && states[i].word == Running && c in states[i].starts ==>
      states[i].starts[c] !in phases
  }

  /** While a Stop is under way the word is Stopping, there is no other such Stop, and no Start is in these phases. */
  ghost predicate Separated(s: State, phases: set<StartPhase>) {
    && (forall d :: d in s.stops && Shutting(s.stops[d]) ==> s.word == Stopping)
    && (forall d, e :: d in s.stops && e in s.stops && Shutting(s.stops[d]) && Shutting(s.stops[e]) ==> d == e)
    && (s.word == Stopping ==> forall c :: c in s.starts ==> s.starts[c] !in phases)
  }

  lemma StepKeepsSeparated(s: State, step: Step, t: State, phases: set<StartPhase>)
    requires (phases == MAY_STORE || phases == MAY_RESET) && Separated(s, phases) && Do(s, step) == Some(t)
    requires step.StopCall? && s.word == Running ==> forall c :: c in s.starts ==> s.starts[c] !in phases
    ensures Separated(t, phases)
  {
  }

  lemma {:induction false} HistoryKeepsSeparated(states: seq<State>, steps: seq<Step>, n: nat, phases: set<StartPhase>)
    requires (phases == MAY_STORE || phases == MAY_RESET) && IsHistory(states, steps)
    requires n < |states| && StopsWaitForStarts(states, steps, n, phases)
    ensures Separated(states[n], phases)
  {
    if n > 0 {
      HistoryKeepsSeparated(states, steps, n - 1, phases);
      assert StepAt(states, steps, n - 1);
      StepKeepsSeparated(states[n - 1], steps[n - 1], states[n], phases);
    }
  }

  /**
   * As long as no Stop takes effect while a Start that may still roll back has not returned, the
   * sync.Once is never reset under a Stop, whatever the interleaving.
   */
  lemma {:induction false} OnceSafeIfStopsWait(states: seq<State>, steps: seq<Step>, n: nat)
    requires IsHistory(states, steps) && n < |states| && StopsWaitForStarts(states, steps, n, MAY_RESET)
    ensures OnceHeld(states[n]) && BusyInside(states[n])
  {
    if n > 0 {
      OnceSafeIfStopsWait(states, steps, n - 1);
      HistoryKeepsSeparated(states, steps, n - 1, MAY_RESET);
      assert StepAt(states, steps, n - 1);
      var s, step := states[n - 1], steps[n - 1];
      assert step.ResetOnce? ==> s.starts[step.c] in MAY_RESET;
      StepKeepsOnceHeld(s, step, states[n]);
    }
  }

  /** Stop `d` is inside the shutdown body, past the watcher, while Start `c` may still roll back. */
  predicate Exposed(s: State, c: Caller, d: Caller) {
    && !s.crashed && !s.watcher && s.once == Busy(d) && StopAt(s, d) == Some(BodyEnd)
    && c in s.starts && s.starts[c] in MAY_RESET
  }

  function StepsToReset(p: StartPhase): nat {
    match p
    case Claimed => 5
    case HasWatcher => 4
    case RollStore => 3
    case RollClose => 2
    case _ => 1
  }

  function NextOf(c: Caller, p: StartPhase): Step {
    match p
    case Claimed => ReadWatcher(c)
    case HasWatcher => AddFails(c)
    case RollStore => StoreStopped(c)
    case RollClose => CloseInRollback(c)
    case _ => ResetOnce(c)
  }

  ghost predicate OnlyCalls(script: seq<Step>, c: Caller, d: Caller) {
    forall i :: 0 <= i < |script| ==> script[i].c == c || script[i].c == d
  }

  lemma {:induction false} RollBackUnderStop(s: State, c: Caller, d: Caller) returns (script: seq<Step>)
    requires Exposed(s, c, d)
    ensures OnlyCalls(script, c, d) && After(s, script).Some? && After(s, script).value.crashed
    decreases StepsToReset(s.starts[c])
  {
    var step := NextOf(c, s.starts[c]);
    var t := Do(s, step).value;
    var rest;
    if s.starts[c] == RollReset {
      rest := [LeaveOnce(d)];
      assert StopAt(t, d) == Some(BodyEnd) && t.once == Fresh;
      AfterStep(t, LeaveOnce(d), []);
    } else {
      rest := RollBackUnderStop(t, c, d);
    }
    script := [step] + rest;
    AfterStep(s, step, rest);
  }

  /**
   * Conversely, in any state with a fresh sync.Once a Stop that takes effect while some Start may
   * still roll back can end in the crash by steps of these two calls alone.
   */
  lemma StopDuringStartCanCrash(s: State, c: Caller, d: Caller) returns (script: seq<Step>)
    requires !s.crashed && s.word == Running && s.once == Fresh && d !in s.stops
    requires c in s.starts && s.starts[c] in MAY_RESET
    ensures |script| > 0 && script[0] == StopCall(d) && OnlyCalls(script, c, d)
    ensures After(s, script).Some? && After(s, script).value.crashed
  {
    var s1 := Do(s, StopCall(d)).value;
    var s2 := Do(s1, EnterOnce(d)).value;
    assert StopAt(s2, d) == Some(InBody) && s2.once == Busy(d);
    var s3 := Do(s2, TakeWatcher(d)).value;
    assert s3.stops[d].Taken? && !s3.watcher;
    var s4 := Do(s3, CloseTaken(d)).value;
    assert Exposed(s4, c, d);
    var rest := RollBackUnderStop(s4, c, d);
    AfterStep(s3, CloseTaken(d), rest);
    AfterStep(s2, TakeWatcher(d), [CloseTaken(d)] + rest);
    AfterStep(s1, EnterOnce(d), [TakeWatcher(d)] + ([CloseTaken(d)] + rest));
    AfterStep(s, StopCall(d), [EnterOnce(d)] + ([TakeWatcher(d)] + ([CloseTaken(d)] + rest)));
    script := [StopCall(d)] + ([EnterOnce(d)] + ([TakeWatcher(d)] + ([CloseTaken(d)] + rest)));
  }

  /*---------- A Stop that finds another one under way ----------*/

  /** From that Stop on the word is Stopping or the watcher is gone. */
  ghost predicate Closing(s: State) {
    s.word == Stopping || !s.watcher
  }

  lemma StepKeepsClosing(s: State, step: Step, t: State)
    requires OwnerInv(s) && Separated(s, MAY_STORE) && Closing(s) && Do(s, step) == Some(t)
    ensures Closing(t)
  {
    assert step.StoreStopped? ==> s.starts[step.c] in MAY_STORE;
    assert step.FinishStop? ==> s.stops[step.c] == Waiting;
  }

  lemma {:induction false} ClosingStays(states: seq<State>, steps: seq<Step>, m: nat, n: nat)
    requires IsHistory(states, steps) && m < n < |states| && StopsWaitForStarts(states, steps, n, MAY_STORE)
    requires steps[m].StopCall? && states[m].word != Stopped
    ensures Closing(states[n])
  {
    assert StepAt(states, steps, n - 1);
    if m < n - 1 {
      ClosingStays(states, steps, m, n - 1);
      HistoryKeepsInv(states, steps, n - 1);
      HistoryKeepsSeparated(states, steps, n - 1, MAY_STORE);
      StepKeepsClosing(states[n - 1], steps[n - 1], states[n]);
    }
  }

  lemma {:induction false} FailedStartStays(states: seq<State>, steps: seq<Step>, m: nat, n: nat, c: Caller)
    requires IsHistory(states, steps) && m <= n < |states| && StartAt(states[m], c) == Some(StartFailed)
    ensures StartAt(states[n], c) == Some(StartFailed)
  {
    if m < n {
      FailedStartStays(states, steps, m, n - 1, c);
      assert StepAt(states, steps, n - 1);
    }
  }

  /**
   * As long as no Stop takes effect while a Start that may still store Stopped has not returned, no
   * Start that begins after any Stop succeeds, whether that Stop shuts the service down or finds
   * another one under way, and whether or not it has completed.
   */
  lemma NoStartAfterStopCall(states: seq<State>, steps: seq<Step>, m: nat, k: nat, n: nat, c: Caller)
    requires IsHistory(states, steps) && m < k < n < |states| && StopsWaitForStarts(states, steps, n, MAY_STORE)
    requires steps[m].StopCall? && states[m].word != Stopped && steps[k] == StartCall(c)
    ensures StartAt(states[n], c) != Some(Spawned)
  {
    ClosingStays(states, steps, m, k);
    assert StepAt(states, steps, k);
    if states[k].watcher {
      FailedStartStays(states, steps, k + 1, n, c);
    } else {
      LateStartOnlyFails(states, steps, k, n, c);
    }
  }

  /** Start `c` fails and stores Stopped while the watcher is still open. */
  lemma {:induction false} StoresStopped(s: State, c: Caller) returns (script: seq<Step>, t: State)
    requires !s.crashed && s.watcher && c in s.starts && s.starts[c] in MAY_STORE
    ensures After(s, script) == Some(t) && forall i :: 0 <= i < |script| ==> script[i].c == c
    ensures !t.crashed && t.watcher && t.word == Stopped && t.stops == s.stops && t.starts.Keys == s.starts.Keys
    decreases StepsToReset(s.starts[c])
  {
    var step := NextOf(c, s.starts[c]);
    var next := Do(s, step).value;
    var rest;
    if s.starts[c] == RollStore {
      rest, t := [], next;
    } else {
      rest, t := StoresStopped(next, c);
    }
    script := [step] + rest;
    AfterStep(s, step, rest);
  }

  lemma LateStartSucceeds(s: State, f: Caller) returns (script: seq<Step>)
    requires !s.crashed && s.watcher && s.word == Stopped && f !in s.starts
    ensures script == [StartCall(f), ReadWatcher(f), AddSucceeds(f), Spawn(f)]
    ensures After(s, script).Some? && StartAt(After(s, script).value, f) == Some(Spawned)
    ensures After(s, script).value.stops == s.stops
  {
    script := [StartCall(f)] + ([ReadWatcher(f)] + ([AddSucceeds(f)] + ([Spawn(f)] + [])));
    var s1 := Do(s, StartCall(f)).value;
    var s2 := Do(s1, ReadWatcher(f)).value;
    var s3 := Do(s2, AddSucceeds(f)).value;
    AfterStep(s3, Spawn(f), []);
    AfterStep(s2, AddSucceeds(f), [Spawn(f)] + []);
    AfterStep(s1, ReadWatcher(f), [AddSucceeds(f)] + ([Spawn(f)] + []));
    AfterStep(s, StartCall(f), [ReadWatcher(f)] + ([AddSucceeds(f)] + ([Spawn(f)] + [])));
  }

  lemma {:induction false} AfterConcat(s: State, a: seq<Step>, b: seq<Step>)
    requires After(s, a).Some?
    ensures After(s, a + b) == After(After(s, a).value, b)
    decreases a
  {
    if a == [] {
      assert a + b == b;
    } else {
      AfterConcat(Do(s, a[0]).value, a[1..], b);
      AfterStep(s, a[0], a[1..] + b);
      assert a + b == [a[0]] + (a[1..] + b);
    }
  }

  /**
   * Conversely, whenever a Stop `d` takes effect while such a Start `c` is on its way and the watcher is
   * open, a second Stop `e` can find it under way and return, and a Start `f` begun after that succeeds.
   */
  lemma WaitingStopCanMiss(s: State, c: Caller, d: Caller, e: Caller, f: Caller) returns (rolled: seq<Step>, script: seq<Step>)
    requires !s.crashed && s.word == Running && s.watcher && c in s.starts && s.starts[c] in MAY_STORE
    requires d !in s.stops && e !in s.stops && d != e && f !in s.starts
    ensures script == ([StopCall(d)] + ([StopCall(e)] + rolled)) + [StartCall(f), ReadWatcher(f), AddSucceeds(f), Spawn(f)]
    ensures forall i :: 0 <= i < |rolled| ==> rolled[i].c == c
    ensures After(s, script).Some?
    ensures StopAt(After(s, script).value, e) == Some(Waited) && StartAt(After(s, script).value, f) == Some(Spawned)
  {
    var s1 := Do(s, StopCall(d)).value;
    var s2 := Do(s1, StopCall(e)).value;
    assert s2.stops[e] == Waited;
    var t;
    rolled, t := StoresStopped(s2, c);
    AfterStep(s1, StopCall(e), rolled);
    AfterStep(s, StopCall(d), [StopCall(e)] + rolled);
    var late := LateStartSucceeds(t, f);
    var early := [StopCall(d)] + ([StopCall(e)] + rolled);
    AfterConcat(s, early, late);
    script := early + late;
  }

  /** A first Start fails while one Stop shuts down and a second one waits: a third party's Start then succeeds. */
  lemma StartAfterWaitingStop() returns (script: seq<Step>)
    ensures script == [StartCall(0), ReadWatcher(0), AddFails(0), StopCall(1), StopCall(2), StoreStopped(0),
                       StartCall(3), ReadWatcher(3), AddSucceeds(3), Spawn(3)]
    ensures After(INITIAL, script).Some?
    ensures StopAt(After(INITIAL, script).value, 2) == Some(Waited) && StartAt(After(INITIAL, script).value, 3) == Some(Spawned)
  {
    var begin := [StartCall(0)] + ([ReadWatcher(0)] + ([AddFails(0)] + []));
    var s1 := Do(INITIAL, StartCall(0)).value;
    var s2 := Do(s1, ReadWatcher(0)).value;
    var s := Do(s2, AddFails(0)).value;
    AfterStep(s2, AddFails(0), []);
    AfterStep(s1, ReadWatcher(0), [AddFails(0)] + []);
    AfterStep(INITIAL, StartCall(0), [ReadWatcher(0)] + ([AddFails(0)] + []));
    var rest := FailingStartFreesWord(s);
    AfterConcat(INITIAL, begin, rest);
    script := begin + rest;
  }

  lemma FailingStartFreesWord(s: State) returns (script: seq<Step>)
    requires !s.crashed && s.word == Running && s.watcher && s.starts == map[0 := RollStore] && s.stops == map[]
    ensures script == [StopCall(1), StopCall(2), StoreStopped(0), StartCall(3), ReadWatcher(3), AddSucceeds(3), Spawn(3)]
    ensures After(s, script).Some?
    ensures StopAt(After(s, script).value, 2) == Some(Waited) && StartAt(After(s, script).value, 3) == Some(Spawned)
  {
    var s1 := Do(s, StopCall(1)).value;
    var s2 := Do(s1, StopCall(2)).value;
    var t := Do(s2, StoreStopped(0)).value;
    assert StopAt(t, 2) == Some(Waited);
    var late := LateStartSucceeds(t, 3);
    AfterStep(s2, StoreStopped(0), late);
    AfterStep(s1, StopCall(2), [StoreStopped(0)] + late);
    AfterStep(s, StopCall(1), [StopCall(2)] + ([StoreStopped(0)] + late));
    script := [StopCall(1)] + ([StopCall(2)] + ([StoreStopped(0)] + late));
  }

  /*---------- What each call does when nothing else is under way ----------*/

  /** Stop `d` goes through its shutdown body up to the point where it leaves the sync.Once. */
  lemma StopThroughBody(s: State, d: Caller, rest: seq<Step>) returns (t: State)
    requires !s.crashed && s.word == Running && s.once == Fresh && d !in s.stops
    ensures After(s, [StopCall(d)] + ([EnterOnce(d)] + ([TakeWatcher(d)] + ([CloseTaken(d)] + rest)))) == After(t, rest)
    ensures !t.crashed && !t.watcher && t.once == Busy(d) && StopAt(t, d) == Some(BodyEnd)
    ensures t.closes == s.closes + (if s.watcher then 1 else 0) && t.starts == s.starts
  {
    var s1 := Do(s, StopCall(d)).value;
    var s2 := Do(s1, EnterOnce(d)).value;
    assert StopAt(s2, d) == Some(InBody) && s2.once == Busy(d);
    var s3 := Do(s2, TakeWatcher(d)).value;
    assert s3.stops[d].Taken? && !s3.watcher;
    t := Do(s3, CloseTaken(d)).value;
    AfterStep(s3, CloseTaken(d), rest);
    AfterStep(s2, TakeWatcher(d), [CloseTaken(d)] + rest);
    AfterStep(s1, EnterOnce(d), [TakeWatcher(d)] + ([CloseTaken(d)] + rest));
    AfterStep(s, StopCall(d), [EnterOnce(d)] + ([TakeWatcher(d)] + ([CloseTaken(d)] + rest)));
  }

  /** A Stop of a running service closes the watcher, leaves the word Stopped and returns. */
  lemma StopShutsDown(s: State, d: Caller)
    requires !s.crashed && s.word == Running && s.once == Fresh && d !in s.stops
    ensures var rest := [LeaveOnce(d)] + ([FinishStop(d)] + []);
            var end := After(s, [StopCall(d)] + ([EnterOnce(d)] + ([TakeWatcher(d)] + ([CloseTaken(d)] + rest))));
            && end.Some? && end.value.word == Stopped && !end.value.watcher && StopAt(end.value, d) == Some(Finished)
            && end.value.closes == s.closes + (if s.watcher then 1 else 0) && end.value.once == Done
  {
    var t := StopThroughBody(s, d, [LeaveOnce(d)] + ([FinishStop(d)] + []));
    var u := Do(t, LeaveOnce(d)).value;
    assert StopAt(u, d) == Some(Waiting) && !u.crashed;
    AfterStep(u, FinishStop(d), []);
    AfterStep(t, LeaveOnce(d), [FinishStop(d)] + []);
  }

  /**
   * When the status manager fails, Start returns without its rollback: the word stays Running and the
   * watcher open although no event loop runs, and every later Start fails until a Stop.
   */
  lemma StatusFailureBlocks(s: State, c: Caller, d: Caller)
    requires !s.crashed && s.word == Running && s.watcher && StartAt(s, c) == Some(HasWatcher) && d !in s.starts
    ensures var end := After(s, [StatusFails(c)] + ([StartCall(d)] + []));
            && end.Some? && end.value.word == Running && end.value.watcher && end.value.loops == s.loops
            && StartAt(end.value, c) == Some(Abandoned) && StartAt(end.value, d) == Some(StartFailed)
  {
    var s1 := Do(s, StatusFails(c)).value;
    AfterStep(s1, StartCall(d), []);
    AfterStep(s, StatusFails(c), [StartCall(d)] + []);
  }

  /** Has the Start returned? */
  predicate StartOver(p: StartPhase) {
    p in {Spawned, Abandoned, StartFailed}
  }

  /** Has the Stop returned, or may it at any time? */
  predicate StopOver(p: StopPhase) {
    p in {Idle, Waited, Finished}
  }

  /** A call that has not returned can go on, unless it waits for the sync.Once; then the one inside can. */
  lemma CallsNeverStuck(s: State, c: Caller)
    requires !s.crashed && BusyInside(s)
    ensures c in s.starts && !StartOver(s.starts[c]) ==> exists step: Step :: step.c == c && Do(s, step).Some?
    ensures c in s.stops && !StopOver(s.stops[c]) ==>
              exists step: Step :: Do(s, step).Some? && (step.c == c || (s.once.Busy? && s.once.caller == step.c))
  {
    if c in s.starts && !StartOver(s.starts[c]) {
      var step := if s.starts[c] == Added then Spawn(c) else NextOf(c, s.starts[c]);
      assert step.c == c && Do(s, step).Some?;
    }
    if c in s.stops && !StopOver(s.stops[c]) {
      var d := if s.stops[c] == WantOnce && s.once.Busy? then s.once.caller else c;
      var step := StopStep(d, s.stops[d]);
      assert Do(s, step).Some?;
    }
  }

  function StopStep(d: Caller, p: StopPhase): Step {
    match p
    case WantOnce => EnterOnce(d)
    case InBody => TakeWatcher(d)
    case Taken(_) => CloseTaken(d)
    case BodyEnd => LeaveOnce(d)
    case _ => FinishStop(d)
  }
}
