/**
 * The per-key timers shared by both debouncers, as steps on one state.  A timer that expires starts a
 * goroutine that may have to wait for the lock; Add, Cancel and the body of the goroutine are the
 * lock-protected steps.  Each Add is numbered, and its number stands for its callback.
 */
module Timers {
  import opened Common

  type Key = string
  type Id = nat

  datatype State = State(
    timers: map<Key, Id>,     // the timers map under the lock
    callbacks: map<Key, Id>,  // the callback map under the lock
    keys: seq<Key>,           // the key of every Add so far
    armed: set<Id>,           // runtime timers still to expire
    waiting: set<Id>,         // expired, body not yet run
    ran: seq<Id>,             // callbacks run, in order
    cancelled: bool           // the debouncer's context
  )

  const INITIAL := State(map[], map[], [], {}, {}, [], false)

  datatype Step =
    | Add(key: Key)
    | Cancel(key: Key)
    | CancelAll
    | Expire(id: Id)
    | Body(id: Id, opCancelled: bool)
    | CancelContext

  function StopTimer(s: State, key: Key): set<Id> {
    if key in s.timers then s.armed - {s.timers[key]} else s.armed
  }

  function DoAdd(s: State, key: Key): State {
    s.(timers := s.timers[key := |s.keys|], callbacks := s.callbacks[key := |s.keys|],
       keys := s.keys + [key], armed := StopTimer(s, key) + {|s.keys|})
  }

  function DoCancel(s: State, key: Key): State {
    if key !in s.timers then s
    else s.(timers := s.timers - {key}, callbacks := s.callbacks - {key}, armed := StopTimer(s, key))
  }

  function DoCancelAll(s: State): State {
    s.(timers := map[], callbacks := s.callbacks - s.timers.Keys, armed := s.armed - s.timers.Values)
  }

  predicate Runs(s: State, opCancelled: bool) {
    !s.cancelled && !opCancelled
  }

  function DoBody(s: State, id: Id, opCancelled: bool): State
    requires id < |s.keys|
  {
    s.(timers := s.timers - {s.keys[id]}, callbacks := s.callbacks - {s.keys[id]}, waiting := s.waiting - {id},
       ran := if Runs(s, opCancelled) then s.ran + [id] else s.ran)
  }

  function Do(s: State, step: Step): Option<State> {
    match step
    case Add(key) => Some(DoAdd(s, key))
    case Cancel(key) => Some(DoCancel(s, key))
    case CancelAll => Some(DoCancelAll(s))
    case Expire(id) =>
      if id !in s.armed then None else Some(s.(armed := s.armed - {id}, waiting := s.waiting + {id}))
    case Body(id, opCancelled) =>
      if id !in s.waiting || id >= |s.keys| then None else Some(DoBody(s, id, opCancelled))
    case CancelContext => Some(s.(cancelled := true))
  }

  ghost predicate IsHistory(states: seq<State>, steps: seq<Step>) {
    && |states| == |steps| + 1
    && states[0] == INITIAL
    && forall i :: 0 <= i < |steps| ==> StepAt(states, steps, i)
  }

  ghost predicate StepAt(states: seq<State>, steps: seq<Step>, i: nat)
    requires |states| == |steps| + 1 && i < |steps|
  {
    Do(states[i], steps[i]) == Some(states[i + 1])
  }

  /*---------- What every interleaving keeps ----------*/

  /** Both maps hold the same Add for every key. */
  ghost predicate MapsInv(s: State) {
    && s.timers.Keys == s.callbacks.Keys
    && (forall k :: k in s.timers ==> s.timers[k] == s.callbacks[k] && s.timers[k] < |s.keys| && s.keys[s.timers[k]] == k)
  }

  /** An Add is armed, or waiting, or run once. */
  ghost predicate IdsInv(s: State) {
    && (forall id :: id in s.armed || id in s.waiting || id in s.ran ==> id < |s.keys|)
    && s.armed !! s.waiting
    && (forall id :: id in s.ran ==> id !in s.armed && id !in s.waiting)
    && (forall i, j :: 0 <= i < j < |s.ran| ==> s.ran[i] != s.ran[j])
  }

  ghost predicate Inv(s: State) {
    MapsInv(s) && IdsInv(s)
  }

  lemma StepKeepsMaps(s: State, step: Step, t: State)
    requires MapsInv(s) && Do(s, step) == Some(t)
    ensures MapsInv(t)
  {
  }

  lemma StepKeepsIds(s: State, step: Step, t: State)
    requires IdsInv(s) && Do(s, step) == Some(t)
    ensures IdsInv(t)
  {
  }

  lemma StepKeepsInv(s: State, step: Step, t: State)
    requires Inv(s) && Do(s, step) == Some(t)
    ensures Inv(t)
  {
    StepKeepsMaps(s, step, t);
    StepKeepsIds(s, step, t);
  }

  lemma {:induction false} HistoryKeepsInv(states: seq<State>, steps: seq<Step>, n: nat)
    requires IsHistory(states, steps) && n < |states|
    ensures Inv(states[n])
  {
    if n > 0 {
      HistoryKeepsInv(states, steps, n - 1);
      assert StepAt(states, steps, n - 1);
      StepKeepsInv(states[n - 1], steps[n - 1], states[n]);
    }
  }

  /** Whatever interleaving, both maps have the same keys and no Add's callback runs twice. */
  lemma MapsAgreeAndRunOnce(states: seq<State>, steps: seq<Step>, n: nat)
    requires IsHistory(states, steps) && n < |states|
    ensures states[n].timers.Keys == states[n].callbacks.Keys
    ensures forall i, j :: 0 <= i < j < |states[n].ran| ==> states[n].ran[i] != states[n].ran[j]
  {
    HistoryKeepsInv(states, steps, n);
  }

  /** Once Stop has cancelled the context no callback runs any more. */
  lemma {:induction false} NothingRunsAfterCancel(states: seq<State>, steps: seq<Step>, m: nat, n: nat)
    requires IsHistory(states, steps) && m <= n < |states| && states[m].cancelled
    ensures states[n].cancelled && states[n].ran == states[m].ran
  {
    if m < n {
      NothingRunsAfterCancel(states, steps, m, n - 1);
      assert StepAt(states, steps, n - 1);
    }
  }

  /** Every pending key still has its timer armed or its body about to run. */
  ghost predicate Pending(s: State) {
    forall k :: k in s.timers ==> s.timers[k] in s.armed || s.timers[k] in s.waiting
  }

  /** No pending key is ever forgotten by the runtime, outdated bodies included. */
  lemma StepKeepsPending(s: State, step: Step, t: State)
    requires Inv(s) && Pending(s) && Do(s, step) == Some(t)
    ensures Pending(t)
  {
  }

  lemma {:induction false} PendingAlwaysFires(states: seq<State>, steps: seq<Step>, n: nat)
    requires IsHistory(states, steps) && n < |states|
    ensures Pending(states[n])
  {
    if n > 0 {
      PendingAlwaysFires(states, steps, n - 1);
      HistoryKeepsInv(states, steps, n - 1);
      assert StepAt(states, steps, n - 1);
      StepKeepsPending(states[n - 1], steps[n - 1], states[n]);
    }
  }

  /** A pending callback can always run: its timer can expire, and its body then runs it and forgets the key. */
  lemma PendingCanRun(s: State, key: Key)
    requires Inv(s) && Pending(s) && key in s.timers && !s.cancelled
    ensures var id := s.timers[key];
            && (id in s.waiting || Do(s, Expire(id)).Some?)
            && var ready := if id in s.waiting then s else Do(s, Expire(id)).value;
               var end := Do(ready, Body(id, false));
               && end.Some? && end.value.ran == s.ran + [id] && end.value.timers == s.timers - {key}
               && end.value.callbacks == s.callbacks - {key}
  {
  }

  /** Once the context is cancelled the body of a pending callback only forgets the key. */
  lemma CancelledIsForgotten(s: State, key: Key, opCancelled: bool)
    requires Inv(s) && key in s.timers && s.timers[key] in s.waiting
    ensures var t := Do(s, CancelContext);
            && t.Some? && t.value.cancelled && t.value.timers == s.timers && t.value.waiting == s.waiting
            && var end := Do(t.value, Body(s.timers[key], opCancelled));
               end.Some? && end.value.ran == s.ran && key !in end.value.timers && key !in end.value.callbacks
  {
  }

  /** What Add, Cancel and CancelAll leave pending and armed. */
  lemma ClientCalls(s: State, key: Key, other: Key)
    requires Inv(s) && Pending(s) && Current(s)
    ensures var t := DoAdd(s, key);
            && Lookup(t.timers, key) == Some(|s.keys|) && |s.keys| in t.armed && t.keys == s.keys + [key] && t.ran == s.ran
            && (key in s.timers ==> s.timers[key] !in t.armed)
            && (other != key ==> Lookup(t.timers, other) == Lookup(s.timers, other))
    ensures var t := DoCancel(s, key);
            && key !in t.timers && t.keys == s.keys && t.ran == s.ran
            && (key in s.timers ==> s.timers[key] !in t.armed)
            && (other != key ==> Lookup(t.timers, other) == Lookup(s.timers, other))
            && (other != key && other in s.timers && s.timers[other] in s.armed ==> s.timers[other] in t.armed)
    ensures var t := DoCancelAll(s);
            t.timers == map[] && t.armed == {} && t.keys == s.keys && t.ran == s.ran && t.waiting == s.waiting
  {
    forall id | id in s.armed ensures id in s.timers.Values {
      assert s.timers[s.keys[id]] == id;
    }
  }

  /*---------- The plain map from key to last-added callback ----------*/

  datatype Plain = Plain(pending: map<Key, Id>, added: nat, ran: seq<Id>)

  datatype Event =
    | Added(key: Key)
    | Dropped(key: Key)
    | Cleared
    | Fired(key: Key, id: Id, runs: bool)
    | Silent

  /**
   * The simple machine, driven by the clients' calls and by fires: a key's pending callback is the
   * last one added, and only that one can fire, which removes it and runs it unless a context is cancelled.
   */
  function DoPlain(p: Plain, e: Event): Option<Plain> {
    match e
    case Added(key) => Some(p.(pending := p.pending[key := p.added], added := p.added + 1))
    case Dropped(key) => Some(p.(pending := p.pending - {key}))
    case Cleared => Some(p.(pending := map[]))
    case Fired(key, id, runs) =>
      if Lookup(p.pending, key) != Some(id) then None
      else Some(p.(pending := p.pending - {key}, ran := if runs then p.ran + [id] else p.ran))
    case Silent => Some(p)
  }

  function Abstraction(s: State): Plain {
    Plain(s.timers, |s.keys|, s.ran)
  }

  function EventOf(s: State, step: Step): Event {
    match step
    case Add(key) => Added(key)
    case Cancel(key) => Dropped(key)
    case CancelAll => Cleared
    case Expire(id) => Silent
    case Body(id, opCancelled) => if id >= |s.keys| then Silent else Fired(s.keys[id], id, Runs(s, opCancelled))
    case CancelContext => Silent
  }

  /** A body whose timer is not the one its key has now. */
  predicate Outdated(s: State, step: Step) {
    step.Body? && step.id < |s.keys| && Lookup(s.timers, s.keys[step.id]) != Some(step.id)
  }

  /** The plain map refuses the body of an outdated timer and follows every other step. */
  lemma StepFollowsPlain(s: State, step: Step, t: State)
    requires Inv(s) && Do(s, step) == Some(t)
    ensures DoPlain(Abstraction(s), EventOf(s, step)) == if Outdated(s, step) then None else Some(Abstraction(t))
  {
    if step.Cancel? && step.key !in s.timers { assert s.timers - {step.key} == s.timers; }
  }

  function Events(states: seq<State>, steps: seq<Step>, n: nat): (r: seq<Event>)
    requires |states| == |steps| + 1 && n <= |steps|
    ensures |r| == n
  {
    seq(n, i requires 0 <= i < n => EventOf(states[i], steps[i]))
  }

  function RunPlain(events: seq<Event>): Option<Plain> {
    if events == [] then Some(Plain(map[], 0, []))
    else
      var before := RunPlain(events[..|events| - 1]);
      if before.None? then None else DoPlain(before.value, events[|events| - 1])
  }

  /** The plain map can take the first `n` events and ends with the same pending callbacks and the same runs. */
  predicate FollowsPlain(states: seq<State>, steps: seq<Step>, n: nat)
    requires |states| == |steps| + 1 && n <= |steps|
  {
    RunPlain(Events(states, steps, n)) == Some(Abstraction(states[n]))
  }

  lemma {:induction false} PlainUnlessOutdated(states: seq<State>, steps: seq<Step>, n: nat)
    requires IsHistory(states, steps) && n < |states|
    ensures RunPlain(Events(states, steps, n)) ==
            if forall i :: 0 <= i < n ==> !Outdated(states[i], steps[i]) then Some(Abstraction(states[n])) else None
  {
    if n > 0 {
      PlainUnlessOutdated(states, steps, n - 1);
      HistoryKeepsInv(states, steps, n - 1);
      assert StepAt(states, steps, n - 1);
      StepFollowsPlain(states[n - 1], steps[n - 1], states[n]);
      assert Events(states, steps, n)[..n - 1] == Events(states, steps, n - 1);
    }
  }

  /*---------- Which schedules follow the plain map ----------*/

  /** The keys of the Adds among the first `n` steps: the key of timer `id` is entry `id`. */
  function KeysAdded(steps: seq<Step>, n: nat): seq<Key>
    requires n <= |steps|
  {
    if n == 0 then []
    else KeysAdded(steps, n - 1) + if steps[n - 1].Add? then [steps[n - 1].key] else []
  }

  /** A step under the lock that concerns `key`. */
  predicate Touches(step: Step, key: Key, keys: seq<Key>) {
    || step == Add(key) || step == Cancel(key) || step == CancelAll
    || (step.Body? && step.id < |keys| && keys[step.id] == key)
  }

  predicate ExpiresAt(steps: seq<Step>, e: nat, id: Id)
    requires e < |steps|
  {
    steps[e] == Expire(id)
  }

  /** Step `i` is a body, and since its timer expired some Add, Cancel, CancelAll or body of its key had the lock. */
  predicate Overtaken(steps: seq<Step>, i: nat)
    requires i < |steps|
  {
    var keys := KeysAdded(steps, i);
    steps[i].Body? && steps[i].id < |keys| &&
    exists e, k :: 0 <= e < k < i && ExpiresAt(steps, e, steps[i].id) && Touches(steps[k], keys[steps[i].id], keys)
  }

  lemma {:induction false} KeysAreAdded(states: seq<State>, steps: seq<Step>, m: nat, n: nat)
    requires IsHistory(states, steps) && m <= n < |states|
    ensures states[n].keys == KeysAdded(steps, n) && states[m].keys <= states[n].keys
  {
    if n > 0 {
      KeysAreAdded(states, steps, if m < n then m else n - 1, n - 1);
      assert StepAt(states, steps, n - 1);
    }
  }

  /** Once a timer is not its key's timer it never is again. */
  lemma {:induction false} OutdatedStays(states: seq<State>, steps: seq<Step>, m: nat, n: nat, id: Id)
    requires IsHistory(states, steps) && m <= n < |states|
    requires id < |states[m].keys| && Lookup(states[m].timers, states[m].keys[id]) != Some(id)
    ensures id < |states[n].keys| && states[n].keys[id] == states[m].keys[id]
    ensures Lookup(states[n].timers, states[n].keys[id]) != Some(id)
  {
    if m < n {
      OutdatedStays(states, steps, m, n - 1, id);
      HistoryKeepsInv(states, steps, n - 1);
      assert StepAt(states, steps, n - 1);
    }
  }

  lemma {:induction false} UntouchedStays(states: seq<State>, steps: seq<Step>, m: nat, n: nat, key: Key)
    requires IsHistory(states, steps) && m <= n < |states|
    requires forall k :: m <= k < n ==> !Touches(steps[k], key, KeysAdded(steps, n))
    ensures Lookup(states[n].timers, key) == Lookup(states[m].timers, key)
  {
    if m < n {
      KeysAreAdded(states, steps, n - 1, n);
      KeysAreAdded(states, steps, n - 1, n - 1);
      UntouchedStays(states, steps, m, n - 1, key);
      assert StepAt(states, steps, n - 1);
      assert !Touches(steps[n - 1], key, KeysAdded(steps, n));
    }
  }

  lemma {:induction false} WaitingHasExpired(states: seq<State>, steps: seq<Step>, n: nat, id: Id) returns (e: nat)
    requires IsHistory(states, steps) && n < |states| && id in states[n].waiting
    ensures e < n && ExpiresAt(steps, e, id)
  {
    assert StepAt(states, steps, n - 1);
    if steps[n - 1] == Expire(id) {
      e := n - 1;
    } else {
      e := WaitingHasExpired(states, steps, n - 1, id);
    }
  }

  /** As long as no body is outdated, a runtime timer is armed only for a key's last Add. */
  ghost predicate Current(s: State) {
    forall id :: id in s.armed ==> id < |s.keys| && Lookup(s.timers, s.keys[id]) == Some(id)
  }

  lemma StepKeepsCurrent(s: State, step: Step, t: State)
    requires Inv(s) && Inv(t) && Current(s) && Do(s, step) == Some(t) && !Outdated(s, step)
    ensures Current(t)
  {
  }

  lemma {:induction false} CurrentUntilOutdated(states: seq<State>, steps: seq<Step>, n: nat)
    requires IsHistory(states, steps) && n < |states| && forall i :: 0 <= i < n ==> !Outdated(states[i], steps[i])
    ensures Inv(states[n]) && Current(states[n])
  {
    HistoryKeepsInv(states, steps, n);
    if n > 0 {
      CurrentUntilOutdated(states, steps, n - 1);
      assert StepAt(states, steps, n - 1);
      StepKeepsCurrent(states[n - 1], steps[n - 1], states[n]);
    }
  }

  lemma TouchedIsOutdated(states: seq<State>, steps: seq<Step>, e: nat, k: nat, i: nat)
    requires IsHistory(states, steps) && e < k < i < |steps| && steps[i].Body? && ExpiresAt(steps, e, steps[i].id)
    requires steps[i].id < |KeysAdded(steps, i)|
    requires Touches(steps[k], KeysAdded(steps, i)[steps[i].id], KeysAdded(steps, i))
    ensures Outdated(states[i], steps[i])
  {
    var id := steps[i].id;
    assert StepAt(states, steps, e) && StepAt(states, steps, k);
    HistoryKeepsInv(states, steps, e);
    HistoryKeepsInv(states, steps, k);
    KeysAreAdded(states, steps, e, k);
    KeysAreAdded(states, steps, k, i);
    OutdatedStays(states, steps, k + 1, i, id);
  }

  /** The first outdated body of a history is one that was overtaken between its expiry and the lock. */
  lemma OutdatedIffOvertaken(states: seq<State>, steps: seq<Step>, i: nat)
    requires IsHistory(states, steps) && i < |steps| && forall j :: 0 <= j < i ==> !Outdated(states[j], steps[j])
    ensures Outdated(states[i], steps[i]) <==> Overtaken(steps, i)
  {
    KeysAreAdded(states, steps, i, i);
    var keys := KeysAdded(steps, i);
    if Overtaken(steps, i) {
      var e, k :| 0 <= e < k < i && ExpiresAt(steps, e, steps[i].id) && Touches(steps[k], keys[steps[i].id], keys);
      TouchedIsOutdated(states, steps, e, k, i);
    } else if steps[i].Body? {
      var id := steps[i].id;
      assert StepAt(states, steps, i);
      var e := WaitingHasExpired(states, steps, i, id);
      CurrentUntilOutdated(states, steps, e);
      assert StepAt(states, steps, e);
      KeysAreAdded(states, steps, e, i);
      UntouchedStays(states, steps, e + 1, i, keys[id]);
    }
  }

  lemma {:induction false} NoneOutdatedIffNoneOvertaken(states: seq<State>, steps: seq<Step>, n: nat)
    requires IsHistory(states, steps) && n < |states|
    ensures (forall i :: 0 <= i < n ==> !Outdated(states[i], steps[i])) <==> (forall i :: 0 <= i < n ==> !Overtaken(steps, i))
  {
    if n > 0 {
      NoneOutdatedIffNoneOvertaken(states, steps, n - 1);
      if forall i :: 0 <= i < n - 1 ==> !Outdated(states[i], steps[i]) { OutdatedIffOvertaken(states, steps, n - 1); }
    }
  }

  /**
   * A history follows the plain map exactly when no body was overtaken: between the expiry of a timer
   * and its body no Add, Cancel, CancelAll or other body of the same key got the lock.  The condition
   * is on the order of the steps alone, cancelled contexts included.
   */
  lemma PlainMapUnlessOvertaken(states: seq<State>, steps: seq<Step>, n: nat)
    requires IsHistory(states, steps) && n < |states|
    ensures FollowsPlain(states, steps, n) <==> forall i :: 0 <= i < n ==> !Overtaken(steps, i)
    ensures RunPlain(Events(states, steps, n)).Some? ==> FollowsPlain(states, steps, n)
  {
    PlainUnlessOutdated(states, steps, n);
    NoneOutdatedIffNoneOvertaken(states, steps, n);
  }

  /** Expiry and body as one uninterrupted step: each Body directly follows the Expire of its timer. */
  ghost predicate FiresAtomically(steps: seq<Step>) {
    forall i :: 0 <= i < |steps| && steps[i].Body? ==> i > 0 && ExpiresAt(steps, i - 1, steps[i].id)
  }

  lemma {:induction false} ExpiresOnce(states: seq<State>, steps: seq<Step>, e: nat, n: nat, id: Id)
    requires IsHistory(states, steps) && e < n < |states| && ExpiresAt(steps, e, id)
    ensures id !in states[n].armed && id < |states[n].keys|
  {
    HistoryKeepsInv(states, steps, n - 1);
    assert StepAt(states, steps, n - 1);
    if e < n - 1 { ExpiresOnce(states, steps, e, n - 1, id); }
  }

  /** With atomic firing the debouncer is the plain map: same pending callbacks and same runs, for every history. */
  lemma AtomicDebouncerIsPlainMap(states: seq<State>, steps: seq<Step>, n: nat)
    requires IsHistory(states, steps) && n < |states| && FiresAtomically(steps)
    ensures FollowsPlain(states, steps, n)
  {
    forall i | 0 <= i < n ensures !Overtaken(steps, i) {
      if steps[i].Body? {
        assert ExpiresAt(steps, i - 1, steps[i].id) && StepAt(states, steps, i - 1);
        forall e: nat | e < i - 1 ensures !ExpiresAt(steps, e, steps[i].id) {
          if ExpiresAt(steps, e, steps[i].id) { ExpiresOnce(states, steps, e, i - 1, steps[i].id); }
        }
      }
    }
    PlainMapUnlessOvertaken(states, steps, n);
  }

  /** Every history that begins with an Add, its expiry, an Add of the same key and the waiting body has left the plain map. */
  lemma AddOvertakesBody(states: seq<State>, steps: seq<Step>, key: Key)
    requires IsHistory(states, steps) && |steps| > 3
    requires steps[0] == Add(key) && steps[1] == Expire(0) && steps[2] == Add(key) && steps[3].Body? && steps[3].id == 0
    ensures Overtaken(steps, 3) && !FollowsPlain(states, steps, 4)
  {
    assert KeysAdded(steps, 0) == [];
    assert KeysAdded(steps, 1) == KeysAdded(steps, 0) + [key];
    assert KeysAdded(steps, 2) == KeysAdded(steps, 1) + [];
    assert KeysAdded(steps, 3) == KeysAdded(steps, 2) + [key];
    var keys := KeysAdded(steps, 3);
    assert keys == [key, key];
    var id := steps[3].id;
    assert id == 0 && keys[0] == key;
    assert keys[id] == key;
    assert steps[2] == Add(keys[id]);
    assert Touches(steps[2], keys[id], keys);
    assert ExpiresAt(steps, 1, id);
    assert Overtaken(steps, 3);
    PlainMapUnlessOvertaken(states, steps, 4);
  }

  lemma AddedAgainWhileWaiting() returns (s1: State, s2: State, s3: State)
    ensures Do(INITIAL, Add("k")) == Some(s1) && Do(s1, Expire(0)) == Some(s2) && Do(s2, Add("k")) == Some(s3)
    ensures s3.timers == map["k" := 1] && s3.keys == ["k", "k"] && s3.armed == {1} && s3.waiting == {0}
    ensures s3.ran == [] && !s3.cancelled
  {
    s1 := Do(INITIAL, Add("k")).value;
    s2 := Do(s1, Expire(0)).value;
    s3 := Do(s2, Add("k")).value;
  }

  /** The waiting body runs or is cancelled, then the key is cancelled, then the newer timer fires. */
  lemma NewerRunsAnyway(s3: State, opCancelled: bool) returns (s4: State, s5: State, s6: State, s7: State)
    requires s3.timers == map["k" := 1] && s3.keys == ["k", "k"] && s3.armed == {1} && s3.waiting == {0}
    requires s3.ran == [] && !s3.cancelled
    ensures Do(s3, Body(0, opCancelled)) == Some(s4) && Do(s4, Cancel("k")) == Some(s5)
    ensures Do(s5, Expire(1)) == Some(s6) && Do(s6, Body(1, false)) == Some(s7)
    ensures s4.timers == map[] && 1 in s5.armed && s7.ran == if opCancelled then [1] else [0, 1]
  {
    s4 := Do(s3, Body(0, opCancelled)).value;
    s5 := Do(s4, Cancel("k")).value;
    s6 := Do(s5, Expire(1)).value;
    s7 := Do(s6, Body(1, false)).value;
  }

  /**
   * Without atomicity a fired timer that waits for the lock while its key is added again deletes the
   * newer entry, whether or not its own context is cancelled; the newer callback then runs although
   * Cancel was called for its key.
   */
  lemma OvertakenBodyDefeatsCancel(opCancelled: bool) returns (states: seq<State>, steps: seq<Step>)
    ensures IsHistory(states, steps)
    ensures steps == [Add("k"), Expire(0), Add("k"), Body(0, opCancelled), Cancel("k"), Expire(1), Body(1, false)]
    ensures states[3].timers == map["k" := 1] && states[4].timers == map[] && 1 in states[5].armed
    ensures states[7].ran == if opCancelled then [1] else [0, 1]
  {
    steps := [Add("k"), Expire(0), Add("k"), Body(0, opCancelled), Cancel("k"), Expire(1), Body(1, false)];
    var s1, s2, s3 := AddedAgainWhileWaiting();
    var s4, s5, s6, s7 := NewerRunsAnyway(s3, opCancelled);
    states := [INITIAL, s1, s2, s3, s4, s5, s6, s7];
  }
}
