/** The capped sliding window of arrival times that churn detection counts. */
module Activity {
  import opened Common

  type Time = int

  predicate Sorted(s: seq<Time>) {
    forall i, j :: 0 <= i <= j < |s| ==> s[i] <= s[j]
  }

  function Min(a: int, b: int): int {
    if a < b then a else b
  }

  function Max(a: int, b: int): int {
    if a < b then b else a
  }

  /** How many of the first `n` arrivals are no earlier than `cutoff`. */
  function CountSince(arrivals: seq<Time>, n: nat, cutoff: Time): (k: nat)
    requires n <= |arrivals|
    ensures k <= n
  {
    if n == 0 then 0 else CountSince(arrivals, n - 1, cutoff) + if arrivals[n - 1] >= cutoff then 1 else 0
  }

  /** What the history should be after `n` arrivals: the last min(cap, k), k counting those inside the window. */
  function Window(arrivals: seq<Time>, n: nat, cutoff: Time, cap: nat): seq<Time>
    requires n <= |arrivals|
  {
    arrivals[n - Min(cap, CountSince(arrivals, n, cutoff))..n]
  }

  /** In sorted arrivals those inside the window are exactly the last `CountSince`. */
  lemma {:induction false} CountSplitsSorted(arrivals: seq<Time>, n: nat, cutoff: Time)
    requires Sorted(arrivals) && n <= |arrivals|
    ensures forall i :: 0 <= i < n ==> (arrivals[i] >= cutoff <==> i >= n - CountSince(arrivals, n, cutoff))
  {
    if n > 0 { CountSplitsSorted(arrivals, n - 1, cutoff); }
  }

  lemma {:induction false} CountAntitone(arrivals: seq<Time>, n: nat, early: Time, late: Time)
    requires n <= |arrivals| && early <= late
    ensures CountSince(arrivals, n, late) <= CountSince(arrivals, n, early)
  {
    if n > 0 { CountAntitone(arrivals, n - 1, early, late); }
  }

  /*---------- recordActivity ----------*/

  function DropOld(s: seq<Time>, cutoff: Time): seq<Time> {
    if s != [] && s[0] < cutoff then DropOld(s[1..], cutoff) else s
  }

  /** recordActivity: append, drop what left the window, cap. */
  function Recorded(history: seq<Time>, now: Time, window: int, cap: nat): seq<Time> {
    LastN(DropOld(history + [now], now - window), cap)
  }

  lemma {:induction false} DropOldSlice(arrivals: seq<Time>, lo: nat, n: nat, cutoff: Time)
    requires Sorted(arrivals) && lo <= n <= |arrivals|
    ensures DropOld(arrivals[lo..n], cutoff) == arrivals[Max(lo, n - CountSince(arrivals, n, cutoff))..n]
    decreases n - lo
  {
    CountSplitsSorted(arrivals, n, cutoff);
    if lo < n && arrivals[lo] < cutoff {
      assert arrivals[lo..n][1..] == arrivals[lo + 1..n];
      DropOldSlice(arrivals, lo + 1, n, cutoff);
    }
  }

  lemma LastNSlice(arrivals: seq<Time>, lo: nat, n: nat, cap: nat)
    requires lo <= n <= |arrivals|
    ensures LastN(arrivals[lo..n], cap) == arrivals[Max(lo, n - cap)..n]
  {
  }

  lemma TrimmedWindow(arrivals: seq<Time>, lo: nat, n: nat, late: Time)
    requires Sorted(arrivals) && lo <= n < |arrivals|
    ensures DropOld(arrivals[lo..n] + [arrivals[n]], late) == arrivals[Max(lo, n + 1 - CountSince(arrivals, n + 1, late))..n + 1]
  {
    assert arrivals[lo..n] + [arrivals[n]] == arrivals[lo..n + 1];
    DropOldSlice(arrivals, lo, n + 1, late);
  }

  lemma CappedWindow(arrivals: seq<Time>, lo: nat, n: nat, k: nat, cap: nat, trimmed: seq<Time>)
    requires lo <= n < |arrivals| && k <= n + 1 && Min(cap, k) <= n + 1 - lo
    requires trimmed == arrivals[Max(lo, n + 1 - k)..n + 1]
    ensures LastN(trimmed, cap) == arrivals[n + 1 - Min(cap, k)..n + 1]
  {
    LastNSlice(arrivals, Max(lo, n + 1 - k), n + 1, cap);
    assert Max(Max(lo, n + 1 - k), n + 1 - cap) == n + 1 - Min(cap, k);
  }

  /** One recording turns the exact window of the arrivals so far into the exact window with the next one. */
  lemma RecordedIsWindow(arrivals: seq<Time>, n: nat, early: Time, window: int, cap: nat)
    requires Sorted(arrivals) && n < |arrivals| && early <= arrivals[n] - window
    ensures Recorded(Window(arrivals, n, early, cap), arrivals[n], window, cap)
            == Window(arrivals, n + 1, arrivals[n] - window, cap)
  {
    var late := arrivals[n] - window;
    var lo := n - Min(cap, CountSince(arrivals, n, early));
    CountAntitone(arrivals, n, early, late);
    TrimmedWindow(arrivals, lo, n, late);
    CappedWindow(arrivals, lo, n, CountSince(arrivals, n + 1, late), cap, DropOld(arrivals[lo..n] + [arrivals[n]], late));
  }

  /** The history after the first `n` arrivals. */
  function HistoryOf(arrivals: seq<Time>, n: nat, window: int, cap: nat): seq<Time>
    requires n <= |arrivals|
  {
    if n == 0 then [] else Recorded(HistoryOf(arrivals, n - 1, window, cap), arrivals[n - 1], window, cap)
  }

  lemma HistoryOneMore(arrivals: seq<Time>, n: nat, early: Time, window: int, cap: nat)
    requires Sorted(arrivals) && n < |arrivals| && early <= arrivals[n] - window
    requires n > 0 ==> HistoryOf(arrivals, n, window, cap) == Window(arrivals, n, early, cap)
    ensures HistoryOf(arrivals, n + 1, window, cap) == Window(arrivals, n + 1, arrivals[n] - window, cap)
  {
    RecordedIsWindow(arrivals, n, early, window, cap);
  }

  /**
   * After any run of Adds at nondecreasing times the history is exactly the last min(cap, k)
   * arrivals, k counting the arrivals within the window that ends at the last one.
   */
  lemma {:induction false} HistoryIsExactWindow(arrivals: seq<Time>, n: nat, window: int, cap: nat)
    requires Sorted(arrivals) && 0 < n <= |arrivals|
    ensures HistoryOf(arrivals, n, window, cap) == Window(arrivals, n, arrivals[n - 1] - window, cap)
  {
    var early := if n == 1 then arrivals[0] - window else arrivals[n - 2] - window;
    if n > 1 { HistoryIsExactWindow(arrivals, n - 1, window, cap); }
    HistoryOneMore(arrivals, n - 1, early, window, cap);
  }

  lemma HistorySortedAndCounted(arrivals: seq<Time>, n: nat, window: int, cap: nat)
    requires Sorted(arrivals) && 0 < n <= |arrivals|
    ensures Sorted(HistoryOf(arrivals, n, window, cap))
    ensures |HistoryOf(arrivals, n, window, cap)| == Min(cap, CountSince(arrivals, n, arrivals[n - 1] - window))
  {
    HistoryIsExactWindow(arrivals, n, window, cap);
  }

  /** Churn holds right after an Add exactly when the threshold fits under the cap and is met inside the window. */
  lemma ChurnIsWindowCount(arrivals: seq<Time>, n: nat, window: int, cap: nat, threshold: int)
    requires Sorted(arrivals) && 0 < n <= |arrivals|
    ensures |HistoryOf(arrivals, n, window, cap)| >= threshold <==>
            threshold <= cap && CountSince(arrivals, n, arrivals[n - 1] - window) >= threshold
  {
    HistorySortedAndCounted(arrivals, n, window, cap);
  }
}
