/**
 * The two debouncers: their lock-protected bodies proved against the timers and against the runs of
 * the delay calculation.
 */
module Debouncers {
  import opened Common
  import Timers
  import Activity
  import Backoff
  import Delays

  type Key = Timers.Key
  type Id = Timers.Id

  lemma RemovedValue(m: map<Key, Id>, k: Key)
    requires k in m
    ensures (m - {k}).Values + {m[k]} == m.Values && (m - {k}).Keys == m.Keys - {k}
  {
    var rest := m - {k};
    forall v | v in m.Values ensures v in rest.Values + {m[k]} {
      var x :| x in m && m[x] == v;
      if x != k { assert rest[x] == v; }
    }
    forall v | v in rest.Values ensures v in m.Values {
      var x :| x in rest && rest[x] == v;
      assert m[x] == v;
    }
  }

  lemma CancelWithinCancelAll(s: Timers.State, key: Key)
    requires key in s.timers
    ensures Timers.DoCancelAll(Timers.DoCancel(s, key)) == Timers.DoCancelAll(s)
    ensures |Timers.DoCancel(s, key).timers.Keys| == |s.timers.Keys| - 1
  {
    RemovedValue(s.timers, key);
    RemovedTwice(s.callbacks, {key}, (s.timers - {key}).Keys);
    assert {key} + (s.timers - {key}).Keys == s.timers.Keys;
    assert (s.armed - {s.timers[key]}) - (s.timers - {key}).Values == s.armed - s.timers.Values;
  }

  lemma CancelAllOfNothing(s: Timers.State)
    requires s.timers.Keys == {}
    ensures Timers.DoCancelAll(s) == s
  {
    assert s.timers == map[];
  }

  /** Adding a key is forgetting its timer first and then storing the new one. */
  lemma AddAfterCancel(s: Timers.State, key: Key)
    ensures var t := Timers.DoCancel(s, key);
            Timers.DoAdd(s, key) ==
              t.(timers := t.timers[key := |s.keys|], callbacks := t.callbacks[key := |s.keys|],
                 keys := t.keys + [key], armed := t.armed + {|s.keys|})
  {
    var t := Timers.DoCancel(s, key);
    assert t.timers[key := |s.keys|] == s.timers[key := |s.keys|];
    assert t.callbacks[key := |s.keys|] == s.callbacks[key := |s.keys|];
  }

  class AdvancedDebouncer {
    const config: Backoff.DebouncerConfig
    const overflow: int
    const maxActivityHistory: nat

    var timers: map<Key, Id>
    var callback: map<Key, Id>
    var keys: seq<Key>
    var armed: set<Id>
    var waiting: set<Id>
    var ran: seq<Id>
    var cancelled: bool

    var activityHistory: seq<int>
    var lastActivityTime: int
    var backoffCount: nat
    var currentDelay: int

    /** The Adds and completed callbacks so far. */
    ghost var log: seq<Delays.Event>

    function Setup(): Delays.Setup {
      Delays.Setup(config, maxActivityHistory, overflow)
    }

    function Memory(): Delays.Memory
      reads this
    {
      Delays.Memory(activityHistory, backoffCount, currentDelay)
    }

    /** History, count and delay are what the run so far leaves. */
    ghost predicate Valid()
      reads this
    {
      Delays.Usable(config) && Memory() == Delays.After(Setup(), log, |log|)
    }

    function TimerState(): Timers.State
      reads this
    {
      Timers.State(timers, callback, keys, armed, waiting, ran, cancelled)
    }

    constructor (c: Backoff.DebouncerConfig, overflow: int, now: int)
      ensures Valid() && log == []
      ensures config == Backoff.WithDefaults(c) && Delays.Usable(config) && this.overflow == overflow && maxActivityHistory == 1000
      ensures TimerState() == Timers.INITIAL && activityHistory == []
      ensures backoffCount == 0 && currentDelay == config.baseDelay && lastActivityTime == now
    {
      config := Backoff.WithDefaults(c);
      this.overflow, maxActivityHistory := overflow, 1000;
      timers, callback, keys, armed, waiting, ran, cancelled := map[], map[], [], {}, {}, [], false;
      activityHistory, lastActivityTime := [], now;
      backoffCount, currentDelay, log := 0, Backoff.WithDefaults(c).baseDelay, [];
    }

    method RecordActivity(now: int)
      modifies this`activityHistory, this`lastActivityTime
      ensures activityHistory == Activity.Recorded(old(activityHistory), now, config.churnWindow, maxActivityHistory)
      ensures lastActivityTime == now
    {
      activityHistory := activityHistory + [now];
      lastActivityTime := now;
      var cutoff := now - config.churnWindow;
      while |activityHistory| > 0 && activityHistory[0] < cutoff
        invariant lastActivityTime == now
        invariant Activity.DropOld(activityHistory, cutoff) == Activity.DropOld(old(activityHistory) + [now], cutoff)
        decreases |activityHistory|
      {
        activityHistory := activityHistory[1..];
      }
      if |activityHistory| > maxActivityHistory {
        var excess := |activityHistory| - maxActivityHistory;
        activityHistory := activityHistory[excess..];
      }
    }

    /** The count rises by one exactly on churn without decay, and the delay stays between base and max. */
    method CalculateDelay(now: int) returns (delay: int)
      modifies this`backoffCount, this`currentDelay
      ensures Delays.Usable(config) && config.baseDelay <= config.maxDelay
              && (Backoff.InRange(config.baseDelay, config.backoffMultiplier, old(backoffCount) + 1) || overflow >= config.baseDelay)
              ==> config.baseDelay <= delay <= config.maxDelay
      ensures Delays.Usable(config) ==>
                (backoffCount == old(backoffCount) + 1 <==>
                 now - lastActivityTime <= config.decayResetDuration && config.backoffEnabled && |activityHistory| >= config.churnThreshold)
      ensures backoffCount in {0, old(backoffCount), old(backoffCount) + 1}
      ensures (delay, backoffCount) == Delays.NextDelay(config, overflow, old(backoffCount), |activityHistory|, now - lastActivityTime)
      ensures currentDelay == delay
    {
      if Delays.Usable(config) && config.baseDelay <= config.maxDelay {
        Backoff.DelayBounds(config.baseDelay, config.backoffMultiplier, config.maxDelay, backoffCount + 1, overflow);
      }
      if now - lastActivityTime > config.decayResetDuration {
        backoffCount := 0;
        currentDelay := config.baseDelay;
        return config.baseDelay;
      }
      var activityCount := |activityHistory|;
      if activityCount >= config.churnThreshold && config.backoffEnabled && config.backoffMultiplier > 1.0 {
        backoffCount := backoffCount + 1;
        var backoffDelay := Backoff.ToDuration(Backoff.Product(config.baseDelay, config.backoffMultiplier, backoffCount), overflow);
        if backoffDelay > config.maxDelay {
          backoffDelay := config.maxDelay;
        }
        currentDelay := backoffDelay;
        return backoffDelay;
      }
      currentDelay := config.baseDelay;
      return config.baseDelay;
    }

    /** The two steps of an Add that read the clock. */
    method DelayForAdd(recordedAt: int, readAt: int) returns (delay: int)
      requires Valid()
      modifies this`activityHistory, this`lastActivityTime, this`backoffCount, this`currentDelay, this`log
      ensures Valid() && log == old(log) + [Delays.Add(recordedAt, readAt)]
      ensures Delays.Chronological(log) ==>
                delay == if Delays.BacksOff(Setup(), log, |old(log)|) then Delays.DelayAt(Setup(), backoffCount) else config.baseDelay
      ensures Memory() == Delays.Step(Setup(), old(Memory()), Delays.Add(recordedAt, readAt))
      ensures currentDelay == delay && lastActivityTime == recordedAt
    {
      RecordActivity(recordedAt);
      delay := CalculateDelay(readAt);
      Delays.AfterOneMore(Setup(), log, Delays.Add(recordedAt, readAt));
      log := log + [Delays.Add(recordedAt, readAt)];
      if Delays.Chronological(log) { Delays.AddEffect(Setup(), log, |log| - 1); }
    }

    /**
     * The locked body of AddWithContext; the clock is read once to record and once to compute the
     * delay.  As long as the clock never went back, the delay is what the arrivals so far call for.
     */
    method AddWithContext(key: Key, recordedAt: int, readAt: int) returns (delay: int)
      requires Valid()
      modifies this
      ensures Valid() && log == old(log) + [Delays.Add(recordedAt, readAt)]
      ensures Delays.Chronological(log) ==>
                delay == if Delays.BacksOff(Setup(), log, |old(log)|) then Delays.DelayAt(Setup(), backoffCount) else config.baseDelay
      ensures TimerState() == Timers.DoAdd(old(TimerState()), key)
      ensures Memory() == Delays.Step(Setup(), old(Memory()), Delays.Add(recordedAt, readAt))
      ensures currentDelay == delay && lastActivityTime == recordedAt
    {
      Cancel(key);
      delay := DelayForAdd(recordedAt, readAt);
      AddAfterCancel(old(TimerState()), key);
      var id := |keys|;
      keys := keys + [key];
      callback := callback[key := id];
      timers := timers[key := id];
      armed := armed + {id};
    }

    /** A runtime timer reaches its time: its goroutine starts and may have to wait for the lock. */
    method Expire(id: Id)
      requires id in armed
      modifies this`armed, this`waiting
      ensures Some(TimerState()) == Timers.Do(old(TimerState()), Timers.Expire(id))
    {
      armed := armed - {id};
      waiting := waiting + {id};
    }

    /** The goroutine of an expired timer once it has the lock. */
    method TimerBody(id: Id, opCancelled: bool, panics: bool)
      requires Valid() && id in waiting && id < |keys|
      modifies this
      ensures Valid()
      ensures log == if Timers.Runs(old(TimerState()), opCancelled) && !panics then old(log) + [Delays.Completed] else old(log)
      ensures Some(TimerState()) == Timers.Do(old(TimerState()), Timers.Body(id, opCancelled))
      ensures (backoffCount, currentDelay) ==
                if Timers.Runs(old(TimerState()), opCancelled) && !panics then (0, config.baseDelay)
                else (old(backoffCount), old(currentDelay))
      ensures activityHistory == old(activityHistory) && lastActivityTime == old(lastActivityTime)
    {
      var key := keys[id];
      waiting := waiting - {id};
      if opCancelled || cancelled {
        timers := timers - {key};
        callback := callback - {key};
        return;
      }
      ran := ran + [id];
      timers := timers - {key};
      callback := callback - {key};
      if panics { return; }
      backoffCount := 0;
      currentDelay := config.baseDelay;
      Delays.AfterOneMore(Setup(), log, Delays.Completed);
      log := log + [Delays.Completed];
    }

    method Cancel(key: Key)
      modifies this`timers, this`callback, this`armed
      ensures TimerState() == Timers.DoCancel(old(TimerState()), key)
    {
      if key in timers {
        armed := armed - {timers[key]};
        timers := timers - {key};
        callback := callback - {key};
      }
    }

    /** CancelAll: stops and forgets every timer, one key at a time. */
    method CancelAll()
      modifies this`timers, this`callback, this`armed
      ensures TimerState() == Timers.DoCancelAll(old(TimerState()))
    {
      while timers.Keys != {}
        invariant Timers.DoCancelAll(TimerState()) == Timers.DoCancelAll(old(TimerState()))
        decreases |timers.Keys|
      {
        var key :| key in timers.Keys;
        CancelWithinCancelAll(TimerState(), key);
        Cancel(key);
      }
      CancelAllOfNothing(TimerState());
    }

    /** The part of Stop that concerns timers: forget them all, then cancel the context. */
    method StopTimers()
      modifies this
      ensures TimerState() == Timers.DoCancelAll(old(TimerState())).(cancelled := true, callbacks := map[])
      ensures Memory() == old(Memory()) && log == old(log) && lastActivityTime == old(lastActivityTime)
    {
      CancelAll();
      callback := map[];
      cancelled := true;
    }
  }

  /*---------- The simple debouncer ----------*/

  /** Its timer body knows no context, and a panicking callback skips the clean-up. */
  function DoSimpleBody(s: Timers.State, id: Id, panics: bool): Timers.State
    requires id < |s.keys|
  {
    if panics then s.(waiting := s.waiting - {id}, ran := s.ran + [id])
    else Timers.DoBody(s.(cancelled := false), id, false).(cancelled := s.cancelled)
  }

  /** A panicking callback leaves its key pending with nothing left to fire; otherwise nothing is forgotten. */
  lemma PanicLeavesKeyPending(s: Timers.State, id: Id, panics: bool)
    requires Timers.Inv(s) && Timers.Pending(s) && id in s.waiting && Lookup(s.timers, s.keys[id]) == Some(id)
    ensures Timers.Pending(DoSimpleBody(s, id, panics)) <==> !panics
  {
    var t := DoSimpleBody(s, id, panics);
    if panics { assert t.timers[s.keys[id]] == id; }
  }

  class Debouncer {
    var delay: int
    var timers: map<Key, Id>
    var callback: map<Key, Id>
    var keys: seq<Key>
    var armed: set<Id>
    var waiting: set<Id>
    var ran: seq<Id>

    function TimerState(): Timers.State
      reads this
    {
      Timers.State(timers, callback, keys, armed, waiting, ran, false)
    }

    method Add(key: Key)
      modifies this
      ensures TimerState() == Timers.DoAdd(old(TimerState()), key) && delay == old(delay)
    {
      AddAfterCancel(TimerState(), key);
      if key in timers {
        armed := armed - {timers[key]};
        timers := timers - {key};
        callback := callback - {key};
      }
      var id := |keys|;
      keys := keys + [key];
      callback := callback[key := id];
      timers := timers[key := id];
      armed := armed + {id};
    }

    method TimerBody(id: Id, panics: bool)
      requires id in waiting && id < |keys|
      modifies this
      ensures TimerState() == DoSimpleBody(old(TimerState()), id, panics) && delay == old(delay)
      ensures ran == old(ran) + [id]
      ensures if panics then timers == old(timers) && callback == old(callback) else keys[id] !in timers && keys[id] !in callback
      ensures forall k :: k != keys[id] ==> Lookup(timers, k) == Lookup(old(timers), k) && Lookup(callback, k) == Lookup(old(callback), k)
    {
      waiting := waiting - {id};
      ran := ran + [id];
      if panics { return; }
      timers := timers - {keys[id]};
      callback := callback - {keys[id]};
    }

    method Pending() returns (n: nat)
      ensures n == |timers|
    {
      n := |timers|;
    }
  }
}
