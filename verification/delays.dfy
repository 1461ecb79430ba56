/**
 * Runs of the advanced debouncer as far as delays are concerned: Adds that record their time and
 * compute a delay, and callbacks that complete.  The clock is read twice in an Add, once when the
 * activity is recorded and once when the delay is computed.
 */
module Delays {
  import Activity
  import Backoff

  type Config = Backoff.DebouncerConfig
  type Time = Activity.Time

  /** calculateDelay: the delay of an Add and the backoff count it leaves. */
  function NextDelay(c: Config, overflow: int, count: nat, activityCount: nat, sinceActivity: int): (int, nat) {
    if sinceActivity > c.decayResetDuration then (c.baseDelay, 0)
    else if activityCount >= c.churnThreshold && c.backoffEnabled && c.backoffMultiplier > 1.0 then
      (Backoff.BackoffDelay(c.baseDelay, c.backoffMultiplier, c.maxDelay, count + 1, overflow), count + 1)
    else (c.baseDelay, count)
  }

  /** What NewAdvanced guarantees for any configuration it is given. */
  predicate Usable(c: Config) {
    && 0 < c.baseDelay && 0 < c.maxDelay && c.backoffMultiplier > 1.0
    && 0 < c.churnThreshold && 0 < c.churnWindow && 0 < c.decayResetDuration && 0 < c.manualSyncTimeout
  }

  /** The parameters of a run: the configuration, the cap on the history, the platform's overflow value. */
  datatype Setup = Setup(config: Config, cap: nat, overflow: int)

  datatype Event =
    | Add(recordedAt: Time, readAt: Time)
    | Completed  // a callback returned without panic

  datatype Memory = Memory(history: seq<Time>, count: nat, delay: int)

  function Initial(u: Setup): Memory {
    Memory([], 0, u.config.baseDelay)
  }

  function Step(u: Setup, m: Memory, e: Event): Memory {
    match e
    case Add(recordedAt, readAt) =>
      var history := Activity.Recorded(m.history, recordedAt, u.config.churnWindow, u.cap);
      var (delay, count) := NextDelay(u.config, u.overflow, m.count, |history|, readAt - recordedAt);
      Memory(history, count, delay)
    case Completed => m.(count := 0, delay := u.config.baseDelay)
  }

  /** The debouncer's memory after the first `n` events. */
  function After(u: Setup, events: seq<Event>, n: nat): Memory
    requires n <= |events|
  {
    if n == 0 then Initial(u) else Step(u, After(u, events, n - 1), events[n - 1])
  }

  lemma {:induction false} AfterPrefix(u: Setup, a: seq<Event>, b: seq<Event>, n: nat)
    requires n <= |a| && n <= |b| && a[..n] == b[..n]
    ensures After(u, a, n) == After(u, b, n)
  {
    if n > 0 {
      assert a[..n - 1] == a[..n][..n - 1] && b[..n - 1] == b[..n][..n - 1];
      assert a[n - 1] == a[..n][n - 1] && b[n - 1] == b[..n][n - 1];
      AfterPrefix(u, a, b, n - 1);
    }
  }

  /** One more event is one more step. */
  lemma AfterOneMore(u: Setup, events: seq<Event>, e: Event)
    ensures After(u, events + [e], |events| + 1) == Step(u, After(u, events, |events|), e)
  {
    assert (events + [e])[..|events|] == events[..|events|];
    AfterPrefix(u, events, events + [e], |events|);
  }

  /** What event `i` hands to its timer, and the backoff counts before and after it. */
  function DelayOf(u: Setup, events: seq<Event>, i: nat): int
    requires i < |events|
  {
    After(u, events, i + 1).delay
  }

  function CountBefore(u: Setup, events: seq<Event>, i: nat): nat
    requires i <= |events|
  {
    After(u, events, i).count
  }

  /** The clock never goes back: neither inside an Add nor from one Add to the next. */
  ghost predicate Chronological(events: seq<Event>) {
    && (forall i :: 0 <= i < |events| && events[i].Add? ==> events[i].recordedAt <= events[i].readAt)
    && (forall i, j :: 0 <= i < j < |events| && events[i].Add? && events[j].Add? ==> events[i].readAt <= events[j].recordedAt)
  }

  /*---------- Churn is a count of recent arrivals ----------*/

  function Arrivals(events: seq<Event>, n: nat): seq<Time>
    requires n <= |events|
  {
    if n == 0 then []
    else Arrivals(events, n - 1) + if events[n - 1].Add? then [events[n - 1].recordedAt] else []
  }

  /** How many of the first `n` events are Adds that arrived at `cutoff` or later. */
  function ArrivedSince(events: seq<Event>, n: nat, cutoff: Time): (k: nat)
    requires n <= |events|
    ensures k <= n
  {
    if n == 0 then 0
    else ArrivedSince(events, n - 1, cutoff) + if events[n - 1].Add? && events[n - 1].recordedAt >= cutoff then 1 else 0
  }

  /** How many of the Adds up to event `i` arrived within the window that ends at its arrival. */
  function InWindow(u: Setup, events: seq<Event>, i: nat): nat
    requires i < |events| && events[i].Add?
  {
    ArrivedSince(events, i + 1, events[i].recordedAt - u.config.churnWindow)
  }

  /** The clock moved on by more than the decay time while this very Add was computing its delay. */
  predicate Decays(u: Setup, e: Event) {
    e.Add? && e.readAt - e.recordedAt > u.config.decayResetDuration
  }

  /** An Add that backs off: enough arrivals in its window, and no decay. */
  predicate BacksOff(u: Setup, events: seq<Event>, i: nat)
    requires i < |events|
  {
    && events[i].Add? && u.config.backoffEnabled && !Decays(u, events[i])
    && u.config.churnThreshold <= u.cap && InWindow(u, events, i) >= u.config.churnThreshold
  }

  lemma {:induction false} ArrivalsSorted(events: seq<Event>, n: nat)
    requires Chronological(events) && n <= |events|
    ensures Activity.Sorted(Arrivals(events, n))
    ensures forall t, j :: t in Arrivals(events, n) && n <= j < |events| && events[j].Add? ==> t <= events[j].recordedAt
  {
    if n > 0 {
      ArrivalsSorted(events, n - 1);
      var before, now := Arrivals(events, n - 1), Arrivals(events, n);
      if events[n - 1].Add? {
        forall t | t in before ensures t <= events[n - 1].recordedAt {}
        assert forall k :: 0 <= k < |before| ==> now[k] == before[k] && before[k] in before;
      }
    }
  }

  lemma {:induction false} HistoryOfPrefix(a: seq<Time>, b: seq<Time>, n: nat, window: int, cap: nat)
    requires n <= |a| && n <= |b| && a[..n] == b[..n]
    ensures Activity.HistoryOf(a, n, window, cap) == Activity.HistoryOf(b, n, window, cap)
  {
    if n > 0 {
      assert a[..n - 1] == a[..n][..n - 1] && b[..n - 1] == b[..n][..n - 1];
      assert a[n - 1] == a[..n][n - 1] && b[n - 1] == b[..n][n - 1];
      HistoryOfPrefix(a, b, n - 1, window, cap);
    }
  }

  /** The history is what recording all arrivals so far leaves. */
  lemma {:induction false} HistoryFollowsArrivals(u: Setup, events: seq<Event>, n: nat)
    requires n <= |events|
    ensures After(u, events, n).history == Activity.HistoryOf(Arrivals(events, n), |Arrivals(events, n)|, u.config.churnWindow, u.cap)
  {
    if n > 0 {
      HistoryFollowsArrivals(u, events, n - 1);
      var before, now := Arrivals(events, n - 1), Arrivals(events, n);
      if events[n - 1].Add? {
        assert now[..|before|] == before[..|before|];
        assert |now| == |before| + 1 && now[|before|] == events[n - 1].recordedAt;
        HistoryOfPrefix(before, now, |before|, u.config.churnWindow, u.cap);
      } else {
        assert now == before;
      }
    }
  }

  lemma {:induction false} CountSincePrefix(a: seq<Time>, b: seq<Time>, n: nat, cutoff: Time)
    requires n <= |a| && n <= |b| && a[..n] == b[..n]
    ensures Activity.CountSince(a, n, cutoff) == Activity.CountSince(b, n, cutoff)
  {
    if n > 0 {
      assert a[..n - 1] == a[..n][..n - 1] && b[..n - 1] == b[..n][..n - 1];
      assert a[n - 1] == a[..n][n - 1] && b[n - 1] == b[..n][n - 1];
      CountSincePrefix(a, b, n - 1, cutoff);
    }
  }

  lemma {:induction false} ArrivedIsCountSince(events: seq<Event>, n: nat, cutoff: Time)
    requires n <= |events|
    ensures ArrivedSince(events, n, cutoff) == Activity.CountSince(Arrivals(events, n), |Arrivals(events, n)|, cutoff)
  {
    if n > 0 {
      ArrivedIsCountSince(events, n - 1, cutoff);
      var before, now := Arrivals(events, n - 1), Arrivals(events, n);
      if events[n - 1].Add? {
        assert now[..|before|] == before[..|before|];
        assert |now| == |before| + 1 && now[|before|] == events[n - 1].recordedAt;
        CountSincePrefix(before, now, |before|, cutoff);
      } else {
        assert now == before;
      }
    }
  }

  /** The length test on the history is met exactly when the threshold fits under the cap and that many Adds fell in the window. */
  lemma ChurnAtAdd(u: Setup, events: seq<Event>, i: nat)
    requires Chronological(events) && i < |events| && events[i].Add?
    ensures |After(u, events, i + 1).history| >= u.config.churnThreshold <==>
            u.config.churnThreshold <= u.cap && InWindow(u, events, i) >= u.config.churnThreshold
  {
    var arrivals := Arrivals(events, i + 1);
    ArrivalsSorted(events, i + 1);
    HistoryFollowsArrivals(u, events, i + 1);
    ArrivedIsCountSince(events, i + 1, events[i].recordedAt - u.config.churnWindow);
    assert arrivals[|arrivals| - 1] == events[i].recordedAt;
    Activity.ChurnIsWindowCount(arrivals, |arrivals|, u.config.churnWindow, u.cap, u.config.churnThreshold);
  }

  /** What one Add does to delay and count, in terms of what arrived when. */
  lemma AddEffect(u: Setup, events: seq<Event>, i: nat)
    requires Usable(u.config) && Chronological(events) && i < |events| && events[i].Add?
    ensures CountBefore(u, events, i + 1) ==
            if Decays(u, events[i]) then 0
            else CountBefore(u, events, i) + if BacksOff(u, events, i) then 1 else 0
    ensures DelayOf(u, events, i) ==
            if BacksOff(u, events, i) then DelayAt(u, CountBefore(u, events, i + 1)) else u.config.baseDelay
  {
    ChurnAtAdd(u, events, i);
  }

  /** The backoff delay for a count, and whether it stays inside the range of a duration. */
  function DelayAt(u: Setup, count: nat): int {
    Backoff.BackoffDelay(u.config.baseDelay, u.config.backoffMultiplier, u.config.maxDelay, count, u.overflow)
  }

  predicate Representable(u: Setup, count: nat) {
    Backoff.InRange(u.config.baseDelay, u.config.backoffMultiplier, count)
  }

  /*---------- The delay of every Add in closed form ----------*/

  predicate Resets(u: Setup, e: Event) {
    e == Completed || Decays(u, e)
  }

  /** How many of the events from `lo` up to `n` are Adds that back off. */
  function BackedOff(u: Setup, events: seq<Event>, lo: nat, n: nat): nat
    requires n <= |events|
  {
    if n <= lo then 0 else BackedOff(u, events, lo, n - 1) + if BacksOff(u, events, n - 1) then 1 else 0
  }

  /** Event `lo` is the first one after a reset, or the first of all. */
  predicate StartsAfresh(u: Setup, events: seq<Event>, lo: nat)
    requires lo <= |events|
  {
    lo == 0 || Resets(u, events[lo - 1])
  }

  /** The backoff count is the number of Adds that backed off since the last reset. */
  lemma {:induction false} CountSinceReset(u: Setup, events: seq<Event>, lo: nat, n: nat)
    requires Usable(u.config) && Chronological(events) && lo <= n <= |events| && StartsAfresh(u, events, lo)
    requires forall k :: lo <= k < n ==> !Resets(u, events[k])
    ensures CountBefore(u, events, n) == BackedOff(u, events, lo, n)
  {
    if lo < n {
      CountSinceReset(u, events, lo, n - 1);
      AddEffect(u, events, n - 1);
    } else if n > 0 && events[n - 1].Add? {
      AddEffect(u, events, n - 1);
    }
  }

  /**
   * The delay of every Add of every run: min(max, base * mult^k) for an Add that backs off as the
   * k-th since the last completed callback or decay, and the base delay for every other one.
   */
  lemma DelayClosedForm(u: Setup, events: seq<Event>, lo: nat, i: nat)
    requires Usable(u.config) && Chronological(events) && lo <= i < |events| && events[i].Add?
    requires StartsAfresh(u, events, lo) && forall k :: lo <= k < i ==> !Resets(u, events[k])
    requires Representable(u, BackedOff(u, events, lo, i + 1))
    ensures DelayOf(u, events, i) ==
            if BacksOff(u, events, i) then
              Activity.Min(u.config.maxDelay, Backoff.Product(u.config.baseDelay, u.config.backoffMultiplier, BackedOff(u, events, lo, i + 1)).Floor)
            else u.config.baseDelay
  {
    AddEffect(u, events, i);
    if BacksOff(u, events, i) { CountSinceReset(u, events, lo, i + 1); }
  }

  /** A delay leaves [base, max] only where an Add backs off past the range of a duration and the platform's value does harm. */
  lemma DelayBoundsOfRun(u: Setup, events: seq<Event>, i: nat)
    requires Usable(u.config) && Chronological(events) && i < |events| && events[i].Add? && u.config.baseDelay <= u.config.maxDelay
    ensures u.config.baseDelay <= DelayOf(u, events, i) <= u.config.maxDelay <==>
            !BacksOff(u, events, i) || Representable(u, CountBefore(u, events, i + 1)) || u.overflow >= u.config.baseDelay
  {
    AddEffect(u, events, i);
    Backoff.DelayBounds(u.config.baseDelay, u.config.backoffMultiplier, u.config.maxDelay, CountBefore(u, events, i + 1), u.overflow);
  }

  /** From the n-th Add that backs off on, n computed from the configuration, the delay is max. */
  lemma ReachesMax(u: Setup, events: seq<Event>, lo: nat, i: nat, n: nat)
    requires Usable(u.config) && Chronological(events) && lo <= i < |events| && BacksOff(u, events, i)
    requires u.config.baseDelay <= u.config.maxDelay
    requires StartsAfresh(u, events, lo) && forall k :: lo <= k < i ==> !Resets(u, events[k])
    requires Backoff.EnoughAdds(u.config.baseDelay, u.config.backoffMultiplier, u.config.maxDelay, n)
    requires n <= BackedOff(u, events, lo, i + 1) && Representable(u, BackedOff(u, events, lo, i + 1))
    ensures DelayOf(u, events, i) == u.config.maxDelay
  {
    AddEffect(u, events, i);
    CountSinceReset(u, events, lo, i + 1);
    Backoff.DelayReachesMax(u.config.baseDelay, u.config.backoffMultiplier, u.config.maxDelay, n, CountBefore(u, events, i + 1), u.overflow);
  }

  /** After a gap longer than the window an Add gets the base delay again, if the threshold is two or more. */
  lemma IdleGapGivesBaseDelay(u: Setup, events: seq<Event>, i: nat)
    requires Usable(u.config) && Chronological(events) && i < |events| && events[i].Add? && u.config.churnThreshold >= 2
    requires forall j :: 0 <= j < i && events[j].Add? ==> events[i].recordedAt - events[j].recordedAt > u.config.churnWindow
    ensures DelayOf(u, events, i) == u.config.baseDelay
  {
    AddEffect(u, events, i);
    NoneArrivedSince(events, i, events[i].recordedAt - u.config.churnWindow);
  }

  lemma {:induction false} NoneArrivedSince(events: seq<Event>, n: nat, cutoff: Time)
    requires n <= |events| && forall j :: 0 <= j < n && events[j].Add? ==> events[j].recordedAt < cutoff
    ensures ArrivedSince(events, n, cutoff) == 0
  {
    if n > 0 { NoneArrivedSince(events, n - 1, cutoff); }
  }

  /*---------- Between two completed callbacks ----------*/

  ghost predicate NoCompletion(events: seq<Event>, lo: nat, hi: nat)
    requires hi <= |events|
  {
    forall k :: lo <= k < hi ==> events[k] != Completed
  }

  lemma {:induction false} CountClimbs(u: Setup, events: seq<Event>, i: nat, j: nat)
    requires Usable(u.config) && Chronological(events) && i <= j <= |events| && NoCompletion(events, i, j)
    requires forall k :: i <= k < j && Decays(u, events[k]) ==> CountBefore(u, events, k) == 0
    ensures CountBefore(u, events, i) <= CountBefore(u, events, j)
  {
    if i < j {
      CountClimbs(u, events, i, j - 1);
      AddEffect(u, events, j - 1);
    }
  }

  /** Between completed callbacks the backoff count never falls exactly when no Add decays at a positive count. */
  lemma CountNeverFalls(u: Setup, events: seq<Event>, lo: nat, hi: nat)
    requires Usable(u.config) && Chronological(events) && lo <= hi <= |events| && NoCompletion(events, lo, hi)
    ensures (forall i, j :: lo <= i <= j <= hi ==> CountBefore(u, events, i) <= CountBefore(u, events, j)) <==>
            (forall k :: lo <= k < hi && Decays(u, events[k]) ==> CountBefore(u, events, k) == 0)
  {
    if forall k :: lo <= k < hi && Decays(u, events[k]) ==> CountBefore(u, events, k) == 0 {
      forall i, j | lo <= i <= j <= hi ensures CountBefore(u, events, i) <= CountBefore(u, events, j) {
        CountClimbs(u, events, i, j);
      }
    }
    if forall i, j :: lo <= i <= j <= hi ==> CountBefore(u, events, i) <= CountBefore(u, events, j) {
      forall k | lo <= k < hi && Decays(u, events[k]) ensures CountBefore(u, events, k) == 0 {
        AddEffect(u, events, k);
        assert CountBefore(u, events, k) <= CountBefore(u, events, k + 1);
      }
    }
  }

  /** The delays of Adds that back off never fall. */
  ghost predicate DelaysNeverFall(u: Setup, events: seq<Event>, lo: nat, hi: nat)
    requires hi <= |events|
  {
    forall i, j :: lo <= i < j < hi && BacksOff(u, events, i) && BacksOff(u, events, j) ==>
      DelayOf(u, events, i) <= DelayOf(u, events, j)
  }

  /** No decay followed by another backoff comes after the delay has risen above its first value. */
  ghost predicate DecaysOnlyAtFirstDelay(u: Setup, events: seq<Event>, lo: nat, hi: nat)
    requires hi <= |events|
  {
    forall k, j :: lo <= k < j < hi && Decays(u, events[k]) && BacksOff(u, events, j) ==>
      DelayAt(u, CountBefore(u, events, k)) <= DelayAt(u, 1)
  }

  /** A stretch between completed callbacks, with every product in range. */
  ghost predicate Stretch(u: Setup, events: seq<Event>, lo: nat, hi: nat) {
    && Usable(u.config) && u.config.baseDelay <= u.config.maxDelay && Chronological(events)
    && lo <= hi <= |events| && StartsAfresh(u, events, lo) && NoCompletion(events, lo, hi)
    && (forall i :: lo <= i <= hi ==> Representable(u, CountBefore(u, events, i)))
  }

  lemma DelayAtMonotone(u: Setup, i: nat, j: nat)
    requires Usable(u.config) && u.config.baseDelay <= u.config.maxDelay && i <= j && Representable(u, j)
    ensures DelayAt(u, i) <= DelayAt(u, j)
  {
    Backoff.DelayNondecreasing(u.config.baseDelay, u.config.backoffMultiplier, u.config.maxDelay, i, j, u.overflow);
  }

  lemma {:induction false} FirstDecay(u: Setup, events: seq<Event>, lo: nat, hi: nat) returns (k: nat)
    requires lo <= hi <= |events| && exists m :: lo <= m < hi && Decays(u, events[m])
    ensures lo <= k < hi && Decays(u, events[k]) && forall m :: lo <= m < k ==> !Decays(u, events[m])
    decreases hi - lo
  {
    if Decays(u, events[lo]) { k := lo; } else { k := FirstDecay(u, events, lo + 1, hi); }
  }

  /** The backoff that brought the count to its present value. */
  lemma {:induction false} LastBackoff(u: Setup, events: seq<Event>, lo: nat, n: nat) returns (i: nat)
    requires Stretch(u, events, lo, n) && CountBefore(u, events, n) > 0
    ensures lo <= i < n && BacksOff(u, events, i) && CountBefore(u, events, i + 1) == CountBefore(u, events, n)
    decreases n
  {
    if n == lo {
      CountSinceReset(u, events, lo, lo);
      assert false;
    } else {
      AddEffect(u, events, n - 1);
      if BacksOff(u, events, n - 1) { i := n - 1; } else { i := LastBackoff(u, events, lo, n - 1); }
    }
  }

  /** The first backoff after a count of zero raises it to one. */
  lemma {:induction false} FirstBackoff(u: Setup, events: seq<Event>, lo: nat, j: nat) returns (i: nat)
    requires Usable(u.config) && Chronological(events) && lo <= j < |events| && NoCompletion(events, lo, j + 1)
    requires CountBefore(u, events, lo) == 0 && BacksOff(u, events, j)
    ensures lo <= i <= j && BacksOff(u, events, i) && CountBefore(u, events, i + 1) == 1
    decreases j - lo
  {
    AddEffect(u, events, lo);
    if BacksOff(u, events, lo) { i := lo; } else { i := FirstBackoff(u, events, lo + 1, j); }
  }

  /** The backoff delay before a decay is at most the one before it, and the first one comes after. */
  lemma DelaysAcrossDecay(u: Setup, events: seq<Event>, lo: nat, hi: nat, i: nat, k: nat, j: nat)
    requires Stretch(u, events, lo, hi) && DecaysOnlyAtFirstDelay(u, events, lo, hi)
    requires lo <= i < k < j < hi && BacksOff(u, events, i) && BacksOff(u, events, j) && Decays(u, events[k])
    requires forall m :: i + 1 <= m < k ==> !Decays(u, events[m])
    ensures DelayAt(u, CountBefore(u, events, i + 1)) <= DelayAt(u, CountBefore(u, events, j + 1))
  {
    CountClimbs(u, events, i + 1, k);
    DelayAtMonotone(u, CountBefore(u, events, i + 1), CountBefore(u, events, k));
    AddEffect(u, events, j);
    DelayAtMonotone(u, 1, CountBefore(u, events, j + 1));
  }

  lemma DelaysWithoutDecay(u: Setup, events: seq<Event>, lo: nat, hi: nat, i: nat, j: nat)
    requires Stretch(u, events, lo, hi) && lo <= i < j < hi && BacksOff(u, events, j)
    requires forall m :: i + 1 <= m < j ==> !Decays(u, events[m])
    ensures DelayAt(u, CountBefore(u, events, i + 1)) <= DelayAt(u, CountBefore(u, events, j + 1))
  {
    CountClimbs(u, events, i + 1, j + 1);
    DelayAtMonotone(u, CountBefore(u, events, i + 1), CountBefore(u, events, j + 1));
  }

  lemma OneBackoffAfterAnother(u: Setup, events: seq<Event>, lo: nat, hi: nat, i: nat, j: nat)
    requires Stretch(u, events, lo, hi) && DecaysOnlyAtFirstDelay(u, events, lo, hi)
    requires lo <= i < j < hi && BacksOff(u, events, i) && BacksOff(u, events, j)
    ensures DelayOf(u, events, i) <= DelayOf(u, events, j)
  {
    AddEffect(u, events, i);
    AddEffect(u, events, j);
    if exists m :: i + 1 <= m < j && Decays(u, events[m]) {
      var k := FirstDecay(u, events, i + 1, j);
      DelaysAcrossDecay(u, events, lo, hi, i, k, j);
    } else {
      DelaysWithoutDecay(u, events, lo, hi, i, j);
    }
  }

  lemma DecayBeforeBackoff(u: Setup, events: seq<Event>, lo: nat, hi: nat, k: nat, j: nat)
    requires Stretch(u, events, lo, hi) && DelaysNeverFall(u, events, lo, hi)
    requires lo <= k < j < hi && Decays(u, events[k]) && BacksOff(u, events, j)
    ensures DelayAt(u, CountBefore(u, events, k)) <= DelayAt(u, 1)
  {
    AddEffect(u, events, k);
    var first := FirstBackoff(u, events, k + 1, j);
    AddEffect(u, events, first);
    assert Representable(u, CountBefore(u, events, first + 1));
    if CountBefore(u, events, k) == 0 {
      DelayAtMonotone(u, 0, 1);
    } else {
      var i := LastBackoff(u, events, lo, k);
      AddEffect(u, events, i);
      assert DelayOf(u, events, i) <= DelayOf(u, events, first);
    }
  }

  /**
   * Between completed callbacks the backoff delays are nondecreasing exactly when no Add decays after
   * the delay has risen above its first value and before another Add backs off.
   */
  lemma DelaysNeverFallIff(u: Setup, events: seq<Event>, lo: nat, hi: nat)
    requires Stretch(u, events, lo, hi)
    ensures DelaysNeverFall(u, events, lo, hi) <==> DecaysOnlyAtFirstDelay(u, events, lo, hi)
  {
    if DecaysOnlyAtFirstDelay(u, events, lo, hi) {
      forall i, j | lo <= i < j < hi && BacksOff(u, events, i) && BacksOff(u, events, j)
        ensures DelayOf(u, events, i) <= DelayOf(u, events, j)
      {
        OneBackoffAfterAnother(u, events, lo, hi, i, j);
      }
    }
    if DelaysNeverFall(u, events, lo, hi) {
      forall k, j | lo <= k < j < hi && Decays(u, events[k]) && BacksOff(u, events, j)
        ensures DelayAt(u, CountBefore(u, events, k)) <= DelayAt(u, 1)
      {
        DecayBeforeBackoff(u, events, lo, hi, k, j);
      }
    }
  }

  /** A threshold of one, two Adds that back off, one that takes `late`, and one more. */
  predicate SlowRun(u: Setup, events: seq<Event>, late: int) {
    && u == Setup(Backoff.DEFAULTS.(churnThreshold := 1), 1000, 0) && late > u.config.decayResetDuration
    && events == [Add(0, 0), Add(0, 0), Add(0, late), Add(late, late)]
  }

  lemma SlowRunCounts(u: Setup, events: seq<Event>, late: int)
    requires SlowRun(u, events, late)
    ensures Chronological(events) && BacksOff(u, events, 1) && BacksOff(u, events, 3)
    ensures CountBefore(u, events, 1) == 1 && CountBefore(u, events, 2) == 2
    ensures CountBefore(u, events, 3) == 0 && CountBefore(u, events, 4) == 1
  {
    AddEffect(u, events, 0);
    AddEffect(u, events, 1);
    AddEffect(u, events, 2);
    AddEffect(u, events, 3);
  }

  /** The delay is 120 seconds before the Add that decays and 60 seconds after it. */
  lemma DecayLowersDelay(u: Setup, events: seq<Event>, late: int)
    requires SlowRun(u, events, late)
    ensures Stretch(u, events, 0, 4) && !DelaysNeverFall(u, events, 0, 4)
    ensures DelayOf(u, events, 1) == 120 * Backoff.SECOND && DelayOf(u, events, 3) == 60 * Backoff.SECOND
  {
    SlowRunCounts(u, events, late);
    AddEffect(u, events, 1);
    AddEffect(u, events, 3);
    assert Backoff.Pow(2.0, 0) == 1.0 && Backoff.Pow(2.0, 1) == 2.0 && Backoff.Pow(2.0, 2) == 4.0;
  }

  /*---------- A quiet period does not reset the backoff ----------*/

  /** Adds `i` and `j` follow one another. */
  ghost predicate Consecutive(events: seq<Event>, i: nat, j: nat) {
    i < j < |events| && events[i].Add? && events[j].Add? && forall k :: i < k < j ==> !events[k].Add?
  }

  function QuietTime(events: seq<Event>, i: nat, j: nat): int
    requires i < |events| && j < |events| && events[i].Add? && events[j].Add?
  {
    events[j].recordedAt - events[i].recordedAt
  }

  /**
   * Meant: an Add after a quiet period longer than the decay time resets the count.  In the code, once
   * some Add has backed off since the last reset, the next Add resets the count exactly when that much
   * time passes inside the Add itself, however long or short the quiet period was; otherwise the count
   * goes on from where it stood.
   */
  lemma QuietPeriodDoesNotReset(u: Setup, events: seq<Event>, lo: nat, i: nat, j: nat, quiet: int)
    requires Usable(u.config) && Chronological(events) && Consecutive(events, i, j) && QuietTime(events, i, j) == quiet
    requires lo <= j && StartsAfresh(u, events, lo) && forall k :: lo <= k < j ==> !Resets(u, events[k])
    requires BackedOff(u, events, lo, j) > 0
    ensures CountBefore(u, events, j + 1) == 0 <==> events[j].readAt - events[j].recordedAt > u.config.decayResetDuration
    ensures CountBefore(u, events, j + 1) != 0 ==> CountBefore(u, events, j + 1) == BackedOff(u, events, lo, j + 1)
  {
    CountSinceReset(u, events, lo, j);
    AddEffect(u, events, j);
  }

  /** `n` Adds at one moment, and one more after a quiet period. */
  function Burst(n: nat, quiet: nat): (r: seq<Event>)
    ensures |r| == n + 1
  {
    seq(n, _ => Add(0, 0)) + [Add(quiet, quiet)]
  }

  lemma {:induction false} BurstArrivals(n: nat, quiet: nat, m: nat, cutoff: Time)
    requires m <= n && cutoff <= 0
    ensures ArrivedSince(Burst(n, quiet), m, cutoff) == m
  {
    if m > 0 { BurstArrivals(n, quiet, m - 1, cutoff); }
  }

  /** In a burst every Add from the threshold on backs off. */
  lemma {:induction false} BurstCount(u: Setup, n: nat, quiet: nat, m: nat)
    requires Usable(u.config) && u.config.backoffEnabled && u.config.churnThreshold <= u.cap && m <= n
    ensures Chronological(Burst(n, quiet))
    ensures CountBefore(u, Burst(n, quiet), m) == if m < u.config.churnThreshold then 0 else m - u.config.churnThreshold + 1
  {
    var events := Burst(n, quiet);
    if m > 0 {
      BurstCount(u, n, quiet, m - 1);
      BurstArrivals(n, quiet, m, events[m - 1].recordedAt - u.config.churnWindow);
      AddEffect(u, events, m - 1);
    }
  }

  /** For every configuration a quiet period of any length leaves the count of a burst standing. */
  lemma QuietPeriodKeepsBurst(u: Setup, quiet: nat)
    requires Usable(u.config) && u.config.backoffEnabled && u.config.churnThreshold <= u.cap
    requires quiet > u.config.decayResetDuration
    ensures var n, events := u.config.churnThreshold as nat, Burst(u.config.churnThreshold, quiet);
            && Chronological(events) && Consecutive(events, n - 1, n) && QuietTime(events, n - 1, n) == quiet
            && CountBefore(u, events, n) == 1 && CountBefore(u, events, n + 1) >= 1
  {
    var n := u.config.churnThreshold;
    BurstCount(u, n, quiet, n);
    AddEffect(u, Burst(n, quiet), n);
  }

  /** The default settings and the delay of the 38th Add of a burst where the overflow value is the least integer. */
  lemma DefaultBurstOverflows()
    ensures var u := Setup(Backoff.DEFAULTS, 1000, -Backoff.DURATION_LIMIT);
            DelayOf(u, Burst(38, 0), 37) < 0
  {
    var u := Setup(Backoff.DEFAULTS, 1000, -Backoff.DURATION_LIMIT);
    BurstCount(u, 38, 0, 37);
    BurstCount(u, 38, 0, 38);
    AddEffect(u, Burst(38, 0), 37);
    Backoff.DefaultsOverflow();
  }

  /*---------- From the configuration file to the delays ----------*/

  ghost predicate Deployed(s: Backoff.SyncSettings, u: Setup) {
    && Backoff.Validate(s) && s.backoff.Some? && s.backoff.value.enabled
    && Backoff.Fits(s.backoff.value.maxDelaySeconds) && Backoff.Fits(s.backoff.value.churnWindowSeconds)
    && Backoff.Fits(s.backoff.value.decayResetSeconds)
    && u.config == Backoff.WithDefaults(Backoff.ToDebouncerConfig(s).value)
  }

  /** A validated configuration gives the debouncer the delays it names. */
  lemma DeployedSetup(s: Backoff.SyncSettings, u: Setup)
    requires Deployed(s, u)
    ensures Usable(u.config) && u.config.backoffEnabled
    ensures u.config.baseDelay == s.debounceSeconds * Backoff.SECOND <= u.config.maxDelay == s.backoff.value.maxDelaySeconds * Backoff.SECOND
    ensures u.config.backoffMultiplier == s.backoff.value.multiplier && u.config.churnThreshold == s.backoff.value.churnThreshold
    ensures u.config.churnWindow == s.backoff.value.churnWindowSeconds * Backoff.SECOND
  {
    Backoff.ValidatedConfigSurvives(s);
  }

  /**
   * End to end: every Add of every run of a debouncer built from a validated configuration waits
   * min(max, base * mult^k), between base and max, all three as written in the file.
   */
  lemma ValidatedRun(s: Backoff.SyncSettings, u: Setup, events: seq<Event>, lo: nat, i: nat)
    requires Deployed(s, u) && Chronological(events) && lo <= i < |events| && events[i].Add?
    requires StartsAfresh(u, events, lo) && forall k :: lo <= k < i ==> !Resets(u, events[k])
    requires Representable(u, BackedOff(u, events, lo, i + 1))
    ensures var base, max := s.debounceSeconds * Backoff.SECOND, s.backoff.value.maxDelaySeconds * Backoff.SECOND;
            && base <= DelayOf(u, events, i) <= max
            && DelayOf(u, events, i) ==
                 if BacksOff(u, events, i) then
                   Activity.Min(max, Backoff.Product(base, s.backoff.value.multiplier, BackedOff(u, events, lo, i + 1)).Floor)
                 else base
  {
    DeployedSetup(s, u);
    DelayClosedForm(u, events, lo, i);
    DelayBoundsOfRun(u, events, i);
    if BacksOff(u, events, i) { CountSinceReset(u, events, lo, i + 1); }
  }

  /** With backoff disabled every Add of every run waits the base delay. */
  lemma DisabledNeverBacksOff(u: Setup, events: seq<Event>, i: nat)
    requires Usable(u.config) && Chronological(events) && i < |events| && events[i].Add? && !u.config.backoffEnabled
    ensures DelayOf(u, events, i) == u.config.baseDelay
  {
    AddEffect(u, events, i);
  }

  /** From the file on: with backoff disabled every Add waits the debounce time written there. */
  lemma DisabledRun(s: Backoff.SyncSettings, u: Setup, events: seq<Event>, i: nat)
    requires Backoff.Validate(s) && s.backoff.Some? && !s.backoff.value.enabled && Backoff.Fits(s.debounceSeconds)
    requires u.config == Backoff.WithDefaults(Backoff.ToDebouncerConfig(s).value)
    requires Chronological(events) && i < |events| && events[i].Add?
    ensures DelayOf(u, events, i) == s.debounceSeconds * Backoff.SECOND
  {
    Backoff.SecondsExact(s.debounceSeconds);
    DisabledNeverBacksOff(u, events, i);
  }
}
