/**
 * The manual-sync queue of the advanced debouncer: clients that enqueue requests, the worker that
 * Start spawns, and Stop, which drains the queue beside the worker.  Every lock-protected body and
 * every channel operation is one step; a history is any interleaving of steps.  Start and Stop do not
 * overlap each other, but any number of lifecycles may follow one another.
 */
module ManualSync {
  import opened Common

  type Request = nat
  const QUEUE_SIZE := 100

  /** How triggerManualSyncInternal answered a request. */
  datatype Answer = Queued | Direct | Rejected | Cancelled

  datatype StartPhase = Unlocked | Locked | ResetDone | Marked
  datatype StopPhase = NotBegun | FlagSet | StartedCleared | Draining | Drained | QueueClosed | Finished

  /** Who is running a request's function. */
  datatype Hand = WorkerHand(id: nat) | StopHand | DirectHand(r: Request)

  /** The requests: waiting, running, and how often each ran and was answered. */
  datatype Work = Work(
    queue: seq<Request>,
    direct: set<Request>,
    hands: map<Hand, Request>,
    answers: map<Request, Answer>,
    runs: multiset<Request>,
    results: multiset<Request>
  )

  /** Flags, channels, goroutines and the progress of Start and Stop. */
  datatype Control = Control(
    stopped: bool,
    started: bool,
    queueClosed: bool,
    doneClosed: bool,
    spawned: nat,
    live: set<nat>,
    startCallers: set<nat>,
    start: StartPhase,
    stop: StopPhase,
    panicked: bool
  )

  datatype State = State(ctl: Control, work: Work)

  const INITIAL := State(
    Control(false, false, false, false, 0, {}, {}, Unlocked, NotBegun, false),
    Work([], {}, map[], map[], multiset{}, multiset{}))

  datatype Step =
    | Trigger(r: Request, ctxDone: bool, pickCancel: bool)
    | DirectBegin(r: Request)
    | WorkerTake(id: nat)
    | DrainTake
    | Finish(hand: Hand)
    | Protocol(p: ProtocolStep)

  datatype ProtocolStep =
    | WorkerExit(id: nat)
    | StartCall(caller: nat)
    | StartLock(caller: nat)
    | StartReset
    | StartMark
    | StartSpawn
    | StopFlag
    | StopClearStarted
    | StopCloseDone
    | DrainEmpty
    | StopCloseQueue
    | StopWait

  predicate Quiet(c: Control) {
    c.stop == NotBegun || c.stop == Finished
  }

  /** Taking the oldest request from the queue and entering handleManualSync. */
  function Take(w: Work, hand: Hand): Work
    requires w.queue != []
  {
    w.(queue := w.queue[1..], hands := w.hands[hand := w.queue[0]], runs := w.runs + multiset{w.queue[0]})
  }

  function AnswerWith(w: Work, r: Request, a: Answer): Work {
    w.(answers := w.answers[r := a],
       queue := if a == Queued then w.queue + [r] else w.queue,
       direct := if a == Direct then w.direct + {r} else w.direct)
  }

  /** The effect of one step, or None where the code cannot take it in this state. */
  function Do(s: State, step: Step): Option<State> {
    var c, w := s.ctl, s.work;
    match step
    case Trigger(r, ctxDone, pickCancel) =>
      if r in w.answers then None
      else if c.stopped then Some(s.(work := AnswerWith(w, r, Rejected)))
      else if c.queueClosed then Some(s.(ctl := c.(panicked := true)))
      else if ctxDone && (pickCancel || |w.queue| >= QUEUE_SIZE) then Some(s.(work := AnswerWith(w, r, Cancelled)))
      else if |w.queue| < QUEUE_SIZE then Some(s.(work := AnswerWith(w, r, Queued)))
      else Some(s.(work := AnswerWith(w, r, Direct)))
    case DirectBegin(r) =>
      if r !in w.direct then None
      else Some(s.(work := w.(direct := w.direct - {r}, hands := w.hands[DirectHand(r) := r], runs := w.runs + multiset{r})))
    case WorkerTake(id) =>
      if id !in c.live || WorkerHand(id) in w.hands || w.queue == [] then None
      else Some(s.(work := Take(w, WorkerHand(id))))
    case DrainTake =>
      if c.stop != Draining || StopHand in w.hands || w.queue == [] then None
      else Some(s.(work := Take(w, StopHand)))
    case Finish(hand) =>
      if hand !in w.hands then None
      else Some(s.(work := w.(hands := w.hands - {hand}, results := w.results + multiset{w.hands[hand]})))
    case Protocol(p) =>
      var next := DoProtocol(c, p, w.queue == [], w.hands.Keys);
      if next.None? then None
      else Some(State(next.value, if p == StartReset && c.stopped then w.(queue := []) else w))
  }

  function DoProtocol(c: Control, p: ProtocolStep, queueEmpty: bool, busy: set<Hand>): Option<Control> {
    match p
    case WorkerExit(id) =>
      if id !in c.live || WorkerHand(id) in busy || !(c.doneClosed || (c.queueClosed && queueEmpty)) then None
      else Some(c.(live := c.live - {id}))
    case StartCall(caller) =>
      if !Quiet(c) || c.started || caller in c.startCallers then None
      else Some(c.(startCallers := c.startCallers + {caller}))
    case StartLock(caller) =>
      if caller !in c.startCallers || c.start != Unlocked then None
      else Some(c.(startCallers := c.startCallers - {caller}, start := if c.started then Unlocked else Locked))
    case StartReset =>
      if c.start != Locked then None
      else if c.stopped then
        Some(c.(doneClosed := false, queueClosed := false, stopped := false, stop := NotBegun, start := ResetDone))
      else Some(c.(start := ResetDone))
    case StartMark =>
      if c.start != ResetDone then None else Some(c.(started := true, start := Marked))
    case StartSpawn =>
      if c.start != Marked then None
      else Some(c.(spawned := c.spawned + 1, live := c.live + {c.spawned}, start := Unlocked))
    case StopFlag =>
      if c.stop != NotBegun || c.startCallers != {} || c.start != Unlocked then None
      else Some(c.(stopped := true, stop := FlagSet))
    case StopClearStarted =>
      if c.stop != FlagSet then None else Some(c.(started := false, stop := StartedCleared))
    case StopCloseDone =>
      if c.stop != StartedCleared then None
      else Some(c.(doneClosed := true, panicked := c.panicked || c.doneClosed, stop := Draining))
    case DrainEmpty =>
      if c.stop != Draining || StopHand in busy || !queueEmpty then None
      else Some(c.(stop := Drained))
    case StopCloseQueue =>
      if c.stop != Drained then None
      else Some(c.(queueClosed := true, panicked := c.panicked || c.queueClosed, stop := QueueClosed))
    case StopWait =>
      if c.stop != QueueClosed || c.live != {} then None else Some(c.(stop := Finished))
  }

  /*---------- Invariant ----------*/

  /** The flags and channels agree with how far Start and Stop have come; at most one worker lives. */
  ghost predicate ControlInv(c: Control) {
    && !c.panicked
    && (c.stopped <==> c.stop != NotBegun)
    && (c.doneClosed <==> c.stop in {Draining, Drained, QueueClosed, Finished})
    && (c.queueClosed <==> c.stop in {QueueClosed, Finished})
    && (c.stop !in {NotBegun, FlagSet} ==> !c.started)
    && (c.start != Unlocked || c.startCallers != {} ==> Quiet(c))
    && (c.start in {ResetDone, Marked} ==> c.stop == NotBegun)
    && (c.start in {Locked, ResetDone} ==> !c.started)
    && (c.start == Marked ==> c.started)
    && (forall i, j :: i in c.live && j in c.live ==> i == j)
    && (forall id :: id in c.live ==> id < c.spawned)
    && (c.start != Unlocked || (!c.started && Quiet(c)) ==> c.live == {})
    && (c.started && c.start == Unlocked ==> c.live != {})
  }

  /** Stop's later phases see an empty queue, and hands belong to owners that still exist. */
  ghost predicate LinkInv(s: State) {
    && (s.ctl.stop in {Drained, QueueClosed, Finished} ==> s.work.queue == [])
    && (forall id :: WorkerHand(id) in s.work.hands ==> id in s.ctl.live)
    && (StopHand in s.work.hands ==> s.ctl.stop == Draining)
  }

  predicate InHand(w: Work, r: Request) {
    exists h :: h in w.hands && w.hands[h] == r
  }

  /** Where each request is: waiting, running in a hand, or answered; never two of them. */
  ghost predicate RequestInv(w: Work, r: Request) {
    if r in w.answers && w.answers[r] in {Queued, Direct} then
      && (r in w.queue ==> w.answers[r] == Queued)
      && (r in w.direct ==> w.answers[r] == Direct)
      && w.runs[r] == (if InHand(w, r) || w.results[r] == 1 then 1 else 0)
      && (if r in w.queue || r in w.direct then !InHand(w, r) && w.results[r] == 0
          else w.results[r] == if InHand(w, r) then 0 else 1)
    else
      w.runs[r] == 0 && w.results[r] == 0 && r !in w.queue && r !in w.direct && !InHand(w, r)
  }

  ghost predicate WorkInv(w: Work) {
    && (forall i, j :: 0 <= i < j < |w.queue| ==> w.queue[i] != w.queue[j])
    && (forall h, g :: h in w.hands && g in w.hands && w.hands[h] == w.hands[g] ==> h == g)
    && (forall h :: h in w.hands ==> match h
          case DirectHand(r) => w.hands[h] == r && r in w.answers && w.answers[r] == Direct
          case _ => w.hands[h] in w.answers && w.answers[w.hands[h]] == Queued)
    && (forall r :: RequestInv(w, r))
  }

  ghost predicate Inv(s: State) {
    ControlInv(s.ctl) && LinkInv(s) && WorkInv(s.work)
  }

  lemma ProtocolKeepsControl(c: Control, p: ProtocolStep, queueEmpty: bool, busy: set<Hand>, d: Control)
    requires ControlInv(c) && DoProtocol(c, p, queueEmpty, busy) == Some(d)
    ensures ControlInv(d)
  {
  }

  lemma StepKeepsLink(s: State, step: Step, t: State)
    requires Inv(s) && Do(s, step) == Some(t)
    ensures LinkInv(t)
  {
    match step
    case Trigger(r, ctxDone, pickCancel) =>
    case DirectBegin(r) =>
    case WorkerTake(id) =>
    case DrainTake =>
    case Finish(hand) =>
    case Protocol(p) =>
  }

  lemma TakeKeepsWork(w: Work, hand: Hand)
    requires WorkInv(w) && w.queue != [] && hand !in w.hands && (hand.WorkerHand? || hand.StopHand?)
    ensures WorkInv(Take(w, hand))
  {
    var t := Take(w, hand);
    var q := w.queue[0];
    assert RequestInv(w, q);
    assert w.queue == [q] + t.queue;
    assert q !in t.queue;
    forall r ensures RequestInv(t, r) {
      assert RequestInv(w, r);
      assert InHand(t, r) <==> InHand(w, r) || r == q by {
        assert t.hands[hand] == q;
        if InHand(w, r) {
          var h :| h in w.hands && w.hands[h] == r;
          assert t.hands[h] == r;
        }
      }
    }
    forall h | h in w.hands ensures w.hands[h] != q {
      assert InHand(w, w.hands[h]);
    }
  }

  lemma FinishKeepsWork(w: Work, hand: Hand)
    requires WorkInv(w) && hand in w.hands
    ensures WorkInv(w.(hands := w.hands - {hand}, results := w.results + multiset{w.hands[hand]}))
  {
    var q := w.hands[hand];
    var t := w.(hands := w.hands - {hand}, results := w.results + multiset{q});
    forall r ensures RequestInv(t, r) {
      assert RequestInv(w, r);
      assert InHand(w, q);
      assert InHand(t, r) <==> InHand(w, r) && r != q by {
        if InHand(w, r) && r != q {
          var h :| h in w.hands && w.hands[h] == r;
          assert t.hands[h] == r;
        }
      }
    }
  }

  lemma DirectKeepsWork(w: Work, q: Request)
    requires WorkInv(w) && q in w.direct
    ensures WorkInv(w.(direct := w.direct - {q}, hands := w.hands[DirectHand(q) := q], runs := w.runs + multiset{q}))
  {
    var t := w.(direct := w.direct - {q}, hands := w.hands[DirectHand(q) := q], runs := w.runs + multiset{q});
    assert RequestInv(w, q);
    forall r ensures RequestInv(t, r) {
      assert RequestInv(w, r);
      assert InHand(t, r) <==> InHand(w, r) || r == q by {
        assert t.hands[DirectHand(q)] == q;
        if InHand(w, r) {
          var h :| h in w.hands && w.hands[h] == r;
          assert h != DirectHand(q);
          assert t.hands[h] == r;
        }
      }
    }
    forall h | h in w.hands ensures w.hands[h] != q {
      assert InHand(w, w.hands[h]);
    }
  }

  lemma AnswerKeepsWork(w: Work, q: Request, a: Answer)
    requires WorkInv(w) && q !in w.answers
    ensures WorkInv(AnswerWith(w, q, a))
  {
    var t := AnswerWith(w, q, a);
    assert RequestInv(w, q);
    forall r ensures RequestInv(t, r) {
      assert RequestInv(w, r);
      assert InHand(t, r) <==> InHand(w, r);
    }
  }

  lemma StepKeepsInv(s: State, step: Step, t: State)
    requires Inv(s) && Do(s, step) == Some(t)
    ensures Inv(t)
  {
    StepKeepsLink(s, step, t);
    match step
    case Trigger(r, ctxDone, pickCancel) => AnswerKeepsWork(s.work, r, t.work.answers[r]);
    case DirectBegin(r) => DirectKeepsWork(s.work, r);
    case WorkerTake(id) => TakeKeepsWork(s.work, WorkerHand(id));
    case DrainTake => TakeKeepsWork(s.work, StopHand);
    case Finish(hand) => FinishKeepsWork(s.work, hand);
    case Protocol(p) =>
      ProtocolKeepsControl(s.ctl, p, s.work.queue == [], s.work.hands.Keys, t.ctl);
      assert t.work == s.work;
  }

  /*---------- Histories ----------*/

  ghost predicate IsHistory(states: seq<State>, steps: seq<Step>) {
    && |states| == |steps| + 1
    && states[0] == INITIAL
    && forall i :: 0 <= i < |steps| ==> StepAt(states, steps, i)
  }

  ghost predicate StepAt(states: seq<State>, steps: seq<Step>, i: nat)
    requires |states| == |steps| + 1 && i < |steps|
  {
    Do(states[i], steps[i]) == Some(states[i + 1])
  }

  lemma {:induction false} HistoryKeepsInv(states: seq<State>, steps: seq<Step>, n: nat)
    requires IsHistory(states, steps) && n < |states|
    ensures Inv(states[n])
  {
    if n > 0 {
      HistoryKeepsInv(states, steps, n - 1);
      assert StepAt(states, steps, n - 1);
      StepKeepsInv(states[n - 1], steps[n - 1], states[n]);
    }
  }

  /** No channel is closed twice or sent on when closed, and two workers never live at once. */
  lemma ChannelsSafe(states: seq<State>, steps: seq<Step>, n: nat)
    requires IsHistory(states, steps) && n < |states|
    ensures !states[n].ctl.panicked && |states[n].ctl.live| <= 1
  {
    HistoryKeepsInv(states, steps, n);
    if id :| id in states[n].ctl.live {
      assert states[n].ctl.live == {id};
    }
  }

  /**
   * A queued request is waiting once, or running once, or answered once; when Stop has returned it
   * has run once and got one result, nothing is left in the queue and no worker is left.
   */
  lemma QueuedRunsOnce(states: seq<State>, steps: seq<Step>, n: nat, r: Request)
    requires IsHistory(states, steps) && n < |states|
    requires r in states[n].work.answers && states[n].work.answers[r] == Queued
    ensures var w := states[n].work;
            && w.runs[r] == (if r in w.queue then 0 else 1)
            && w.results[r] == (if r in w.queue || InHand(w, r) then 0 else 1)
    ensures states[n].ctl.stop == Finished ==>
              && states[n].work.runs[r] == 1 && states[n].work.results[r] == 1
              && states[n].work.queue == [] && states[n].ctl.live == {}
  {
    HistoryKeepsInv(states, steps, n);
    var s := states[n];
    assert RequestInv(s.work, r);
    if s.ctl.stop == Finished {
      assert forall h :: h in s.work.hands ==> s.work.hands[h] != r;
    }
  }

  /** A request handed over because the queue was full runs once and is answered once, by its own goroutine. */
  lemma DirectRunsOnce(states: seq<State>, steps: seq<Step>, n: nat, r: Request)
    requires IsHistory(states, steps) && n < |states|
    requires r in states[n].work.answers && states[n].work.answers[r] == Direct
    ensures var w := states[n].work;
            && w.runs[r] == (if r in w.direct then 0 else 1)
            && w.results[r] == (if r in w.direct || InHand(w, r) then 0 else 1)
            && (forall h :: h in w.hands && w.hands[h] == r ==> h == DirectHand(r))
  {
    HistoryKeepsInv(states, steps, n);
    assert RequestInv(states[n].work, r);
  }

  lemma {:induction false} AnswersStay(states: seq<State>, steps: seq<Step>, m: nat, n: nat, r: Request)
    requires IsHistory(states, steps) && m <= n < |states| && r in states[m].work.answers
    ensures r in states[n].work.answers && states[n].work.answers[r] == states[m].work.answers[r]
  {
    if m < n {
      AnswersStay(states, steps, m, n - 1, r);
      assert StepAt(states, steps, n - 1);
    }
  }

  /** A request that arrives once `stopped` is set is rejected and never runs, not even after a restart. */
  lemma NothingRunsAfterStop(states: seq<State>, steps: seq<Step>, i: nat, n: nat, r: Request)
    requires IsHistory(states, steps) && i < n < |states|
    requires steps[i].Trigger? && steps[i].r == r && states[i].ctl.stop != NotBegun
    ensures Lookup(states[n].work.answers, r) == Some(Rejected) && states[n].work.runs[r] == 0 && states[n].work.results[r] == 0
  {
    HistoryKeepsInv(states, steps, i);
    assert StepAt(states, steps, i);
    AnswersStay(states, steps, i + 1, n, r);
    HistoryKeepsInv(states, steps, n);
    assert RequestInv(states[n].work, r);
  }

  /*---------- How requests are answered, and in which order they run ----------*/

  /**
   * The answer to a request: rejected exactly once `stopped` is set, cancelled only if its context is
   * done, and otherwise queued exactly while fewer than a hundred wait.  It is always answered.
   */
  lemma AnswerOfTrigger(s: State, r: Request, ctxDone: bool, pickCancel: bool)
    requires Inv(s) && r !in s.work.answers
    ensures Do(s, Trigger(r, ctxDone, pickCancel)).Some?
    ensures var a := Lookup(Do(s, Trigger(r, ctxDone, pickCancel)).value.work.answers, r);
            && a.Some?
            && (a == Some(Rejected) <==> s.ctl.stopped)
            && (a == Some(Cancelled) ==> ctxDone)
            && (!s.ctl.stopped && !ctxDone ==> a == Some(if |s.work.queue| < 100 then Queued else Direct))
            && (!s.ctl.stopped && |s.work.queue| >= 100 ==> a == Some(if ctxDone then Cancelled else Direct))
    ensures var t := Do(s, Trigger(r, ctxDone, pickCancel)).value;
            && t.ctl == s.ctl
            && t.work.queue == (if t.work.answers[r] == Queued then s.work.queue + [r] else s.work.queue)
            && t.work.direct == (if t.work.answers[r] == Direct then s.work.direct + {r} else s.work.direct)
  {
  }

  /** Once a Start has returned and no Stop has begun, requests are accepted and one worker is there to take them. */
  lemma StartedAccepts(states: seq<State>, steps: seq<Step>, n: nat) returns (id: nat)
    requires IsHistory(states, steps) && n < |states|
    requires states[n].ctl.started && states[n].ctl.start == Unlocked && states[n].ctl.stop == NotBegun
    ensures !states[n].ctl.stopped && states[n].ctl.live == {id}
  {
    HistoryKeepsInv(states, steps, n);
    id :| id in states[n].ctl.live;
    assert states[n].ctl.live == {id};
  }

  /**
   * A Start that finds nothing started goes through to a running worker, one that finds it started
   * returns, and a Stop can begin whenever no Start is under way.
   */
  lemma StartProceeds(s: State, caller: nat)
    requires Inv(s)
    ensures Quiet(s.ctl) && !s.ctl.started && caller !in s.ctl.startCallers ==> Do(s, Protocol(StartCall(caller))).Some?
    ensures caller in s.ctl.startCallers && s.ctl.start == Unlocked ==>
              var t := Do(s, Protocol(StartLock(caller)));
              t.Some? && caller !in t.value.ctl.startCallers && (t.value.ctl.start == Locked <==> !s.ctl.started)
    ensures s.ctl.start == Locked ==>
              var t := Do(s, Protocol(StartReset));
              t.Some? && t.value.ctl.start == ResetDone && !t.value.ctl.stopped && t.value.work == s.work
    ensures s.ctl.start == ResetDone ==>
              var t := Do(s, Protocol(StartMark)); t.Some? && t.value.ctl.start == Marked && t.value.ctl.started
    ensures s.ctl.start == Marked ==>
              var t := Do(s, Protocol(StartSpawn)); t.Some? && t.value.ctl.start == Unlocked && t.value.ctl.live != {}
    ensures s.ctl.stop == NotBegun && s.ctl.start == Unlocked && s.ctl.startCallers == {} ==>
              var t := Do(s, Protocol(StopFlag)); t.Some? && t.value.ctl.stopped
  {
  }

  /** A living worker finishes the request in its hand, or takes the one that has waited longest; goroutines never wait. */
  lemma WorkProceeds(s: State)
    requires Inv(s)
    ensures forall id :: id in s.ctl.live && s.work.queue != [] && WorkerHand(id) !in s.work.hands ==>
              && Do(s, WorkerTake(id)).Some?
              && Lookup(Do(s, WorkerTake(id)).value.work.hands, WorkerHand(id)) == Some(s.work.queue[0])
    ensures forall h :: h in s.work.hands ==> Do(s, Finish(h)).Some? && h !in Do(s, Finish(h)).value.work.hands
    ensures forall r :: r in s.work.direct ==>
              Do(s, DirectBegin(r)).Some? && Lookup(Do(s, DirectBegin(r)).value.work.hands, DirectHand(r)) == Some(r)
  {
  }

  /** The requests queued by the first `n` steps, in the order they arrived. */
  function Arrived(states: seq<State>, steps: seq<Step>, n: nat): seq<Request>
    requires |states| == |steps| + 1 && n <= |steps|
  {
    if n == 0 then []
    else
      var before := Arrived(states, steps, n - 1);
      if steps[n - 1].Trigger? && Lookup(states[n].work.answers, steps[n - 1].r) == Some(Queued) then before + [steps[n - 1].r]
      else before
  }

  /** The requests that the worker and Stop's drain took in the first `n` steps, in the order they took them. */
  function Taken(states: seq<State>, steps: seq<Step>, n: nat): seq<Request>
    requires |states| == |steps| + 1 && n <= |steps|
  {
    if n == 0 then []
    else
      var before, hands := Taken(states, steps, n - 1), states[n].work.hands;
      match steps[n - 1]
      case WorkerTake(id) => before + if WorkerHand(id) in hands then [hands[WorkerHand(id)]] else []
      case DrainTake => before + if StopHand in hands then [hands[StopHand]] else []
      case _ => before
  }

  /** Step `n` takes the head of the queue, appends to it, or leaves it alone. */
  lemma QueueStep(s: State, step: Step, t: State)
    requires Inv(s) && Do(s, step) == Some(t)
    ensures step.WorkerTake? || step.DrainTake? ==>
              var hand := if step.DrainTake? then StopHand else WorkerHand(step.id);
              hand in t.work.hands && s.work.queue == [t.work.hands[hand]] + t.work.queue
    ensures step.Trigger? ==>
              t.work.queue == s.work.queue + if Lookup(t.work.answers, step.r) == Some(Queued) then [step.r] else []
    ensures !step.WorkerTake? && !step.DrainTake? && !step.Trigger? ==> t.work.queue == s.work.queue
  {
    if step.Trigger? { AnswerOfTrigger(s, step.r, step.ctxDone, step.pickCancel); }
  }

  /** Requests are taken in the order in which they were queued, and none is skipped or lost. */
  lemma {:induction false} FirstComeFirstServed(states: seq<State>, steps: seq<Step>, n: nat)
    requires IsHistory(states, steps) && n < |states|
    ensures Arrived(states, steps, n) == Taken(states, steps, n) + states[n].work.queue
  {
    if n > 0 {
      FirstComeFirstServed(states, steps, n - 1);
      HistoryKeepsInv(states, steps, n - 1);
      assert StepAt(states, steps, n - 1);
      QueueStep(states[n - 1], steps[n - 1], states[n]);
    }
  }

  /*---------- Stop terminates ----------*/

  predicate Stopping(s: State) {
    !Quiet(s.ctl)
  }

  function PhasesLeft(p: StopPhase): nat {
    match p
    case NotBegun => 6
    case FlagSet => 5
    case StartedCleared => 4
    case Draining => 3
    case Drained => 2
    case QueueClosed => 1
    case Finished => 0
  }

  function WorkLeft(w: Work): nat {
    2 * |w.queue| + 2 * |w.direct| + |w.hands|
  }

  /** Work left for the worker, the drain, direct goroutines and Stop itself. */
  function Remaining(s: State): nat {
    WorkLeft(s.work) + |s.ctl.live| + PhasesLeft(s.ctl.stop)
  }

  lemma TakeUsesUp(w: Work, hand: Hand)
    requires w.queue != [] && hand !in w.hands
    ensures WorkLeft(Take(w, hand)) == WorkLeft(w) - 1
  {
    assert Take(w, hand).hands.Keys == w.hands.Keys + {hand};
  }

  lemma DirectUsesUp(w: Work, r: Request)
    requires WorkInv(w) && r in w.direct
    ensures 2 * |w.direct - {r}| + |w.hands[DirectHand(r) := r]| == 2 * |w.direct| + |w.hands| - 1
  {
    assert RequestInv(w, r);
    assert DirectHand(r) in w.hands ==> InHand(w, r);
    assert w.hands[DirectHand(r) := r].Keys == w.hands.Keys + {DirectHand(r)};
  }

  lemma FinishUsesUp(w: Work, hand: Hand)
    requires hand in w.hands
    ensures |w.hands - {hand}| == |w.hands| - 1
  {
    assert (w.hands - {hand}).Keys == w.hands.Keys - {hand};
  }

  lemma ProtocolUsesUp(c: Control, p: ProtocolStep, queueEmpty: bool, busy: set<Hand>, d: Control)
    requires ControlInv(c) && !Quiet(c) && DoProtocol(c, p, queueEmpty, busy) == Some(d)
    ensures |d.live| + PhasesLeft(d.stop) < |c.live| + PhasesLeft(c.stop) && p != StartReset
  {
  }

  /** While Stop is under way only rejections leave the remaining work as it is; every other step uses some up. */
  lemma StoppingUsesUpWork(s: State, step: Step, t: State)
    requires Inv(s) && Stopping(s) && Do(s, step) == Some(t)
    ensures step.Trigger? ==> Remaining(t) == Remaining(s) && t.work == AnswerWith(s.work, step.r, Rejected)
    ensures !step.Trigger? ==> Remaining(t) < Remaining(s)
  {
    match step
    case Trigger(r, ctxDone, pickCancel) =>
    case DirectBegin(r) => DirectUsesUp(s.work, r);
    case WorkerTake(id) => TakeUsesUp(s.work, WorkerHand(id));
    case DrainTake => TakeUsesUp(s.work, StopHand);
    case Finish(hand) => FinishUsesUp(s.work, hand);
    case Protocol(p) => ProtocolUsesUp(s.ctl, p, s.work.queue == [], s.work.hands.Keys, t.ctl);
  }

  /** Until Stop has returned some other step than a client's is always possible. */
  lemma StoppingNeverStuck(s: State) returns (step: Step)
    requires Inv(s) && Stopping(s)
    ensures !step.Trigger? && Do(s, step).Some?
  {
    match s.ctl.stop
    case FlagSet => step := Protocol(StopClearStarted);
    case StartedCleared => step := Protocol(StopCloseDone);
    case Draining =>
      step := if StopHand in s.work.hands then Finish(StopHand)
              else if s.work.queue == [] then Protocol(DrainEmpty) else DrainTake;
    case Drained => step := Protocol(StopCloseQueue);
    case QueueClosed =>
      if s.ctl.live == {} {
        step := Protocol(StopWait);
      } else {
        var id :| id in s.ctl.live;
        step := if WorkerHand(id) in s.work.hands then Finish(WorkerHand(id)) else Protocol(WorkerExit(id));
      }
  }

  /** How many of the steps from `i` up to `n` are not client requests. */
  function InternalSteps(steps: seq<Step>, i: nat, n: nat): nat
    requires n <= |steps|
  {
    if n <= i then 0 else InternalSteps(steps, i, n - 1) + if steps[n - 1].Trigger? then 0 else 1
  }

  /** However the steps interleave, Stop has at most `Remaining` internal steps before it returns. */
  lemma {:induction false} StopTerminates(states: seq<State>, steps: seq<Step>, i: nat, n: nat)
    requires IsHistory(states, steps) && i <= n < |states|
    requires forall k :: i <= k < n ==> Stopping(states[k])
    ensures InternalSteps(steps, i, n) + Remaining(states[n]) <= Remaining(states[i])
  {
    if i < n {
      StopTerminates(states, steps, i, n - 1);
      HistoryKeepsInv(states, steps, n - 1);
      assert StepAt(states, steps, n - 1);
      StoppingUsesUpWork(states[n - 1], steps[n - 1], states[n]);
    }
  }
}
