/** Background saving of the workspace tabs: a queue of snapshots in which a
    navigation snapshot may replace the one queued just before it, a worker
    holding a copy of the head, and a pause after a failed save. */
module WorkspaceQueue {

  /** A copy of the tabs with the commit message it is saved under. */
  datatype Snapshot = Snapshot(tabs: int, message: string)

  predicate StartsWith(text: string, prefix: string) {
    |prefix| <= |text| && text[..|prefix|] == prefix
  }

  predicate IsNavigation(snapshot: Snapshot) {
    StartsWith(snapshot.message, "tabs: activate ") || StartsWith(snapshot.message, "tabs: navigate to ")
  }

  /** `written` is what reached the disk and `submitted` what was ever asked
      to be saved, both oldest first. */
  datatype State = State(queue: seq<Snapshot>, busy: bool, inFlight: Snapshot, paused: bool,
                         written: seq<Snapshot>, submitted: seq<Snapshot>)

  datatype Step = Queue(pending: Snapshot) | Complete(saved: bool) | Retry

  function BeginNext(s: State): State {
    if s.busy || s.paused || s.queue == [] then s else s.(busy := true, inFlight := s.queue[0])
  }

  function Enqueued(s: State, pending: Snapshot): seq<Snapshot> {
    var last := |s.queue| - 1;
    if IsNavigation(pending) && |s.queue| > (if s.busy then 1 else 0) && IsNavigation(s.queue[last])
    then s.queue[last := pending]
    else s.queue + [pending]
  }

  function Next(s: State, step: Step): State {
    match step
    case Queue(pending) =>
      if pending.message == "" then s
      else BeginNext(s.(queue := Enqueued(s, pending), submitted := s.submitted + [pending]))
    case Complete(saved) =>
      if !s.busy then s
      else if saved then
        BeginNext(s.(busy := false, queue := if s.queue == [] then [] else s.queue[1..],
                     written := s.written + [s.inFlight]))
      else s.(busy := false, paused := true)
    case Retry => BeginNext(s.(paused := false))
  }

  function Run(s: State, steps: seq<Step>): State {
    if steps == [] then s else Next(Run(s, steps[..|steps| - 1]), steps[|steps| - 1])
  }

  ghost predicate Fresh(s: State) {
    s.queue == [] && !s.busy && !s.paused && s.written == [] && s.submitted == []
  }

  // ---------- the saver ----------

  class Saver {
    var queue: seq<Snapshot>
    var busy: bool
    var inFlight: Snapshot
    var paused: bool
    ghost var written: seq<Snapshot>
    ghost var submitted: seq<Snapshot>

    ghost function View(): State
      reads this
    {
      State(queue, busy, inFlight, paused, written, submitted)
    }

    constructor (none: Snapshot)
      ensures Fresh(View())
    {
      queue, busy, inFlight, paused := [], false, none, false;
      written, submitted := [], [];
    }

    method QueueWorkspacePersistence(pending: Snapshot)
      modifies this
      ensures View() == Next(old(View()), Queue(pending))
    {
      if pending.message == "" { return; }
      var replaceableStart := if busy then 1 else 0;
      if IsNavigation(pending) && |queue| > replaceableStart && IsNavigation(queue[|queue| - 1]) {
        queue := queue[|queue| - 1 := pending];
      } else {
        queue := queue + [pending];
      }
      submitted := submitted + [pending];
      BeginNextWorkspacePersistence();
    }

    method BeginNextWorkspacePersistence()
      modifies this`busy, this`inFlight
      ensures View() == BeginNext(old(View()))
    {
      if busy || paused || queue == [] { return; }
      busy, inFlight := true, queue[0];
    }

    /** The worker saved its copy, or failed to. */
    method CompleteWorkspacePersistence(saved: bool)
      requires busy
      modifies this
      ensures View() == Next(old(View()), Complete(saved))
    {
      busy := false;
      if saved {
        written := written + [inFlight];
        if queue != [] { queue := queue[1..]; }
      } else {
        paused := true;
      }
      BeginNextWorkspacePersistence();
    }

    method RetryBackgroundPersistence()
      modifies this
      ensures View() == Next(old(View()), Retry)
    {
      paused := false;
      BeginNextWorkspacePersistence();
    }
  }

  // ---------- what every run keeps ----------

  /** `kept` is `submitted` with some navigation snapshots left out, each
      directly followed by another navigation snapshot. */
  ghost predicate Coalesced(submitted: seq<Snapshot>, kept: seq<Snapshot>)
    decreases |submitted|
  {
    if submitted == [] then kept == []
    else
      var n, m := |submitted| - 1, |kept| - 1;
      kept != [] && kept[m] == submitted[n] &&
      (Coalesced(submitted[..n], kept[..m]) ||
       (n > 0 && IsNavigation(submitted[n]) && IsNavigation(submitted[n - 1]) &&
        Coalesced(submitted[..n], kept[..m] + [submitted[n - 1]])))
  }

  /** The worker holds the head of the queue, and nothing waits for a worker
      that is neither busy nor paused. */
  ghost predicate WorkerHoldsHead(s: State) {
    (s.busy ==> !s.paused && s.queue != [] && s.queue[0] == s.inFlight) &&
    (!s.busy && !s.paused ==> s.queue == [])
  }

  ghost predicate Invariant(s: State) {
    WorkerHoldsHead(s) && Coalesced(s.submitted, s.written + s.queue)
  }

  lemma QueueKeepsCoalesced(s: State, pending: Snapshot)
    requires Invariant(s)
    ensures Coalesced(s.submitted + [pending], s.written + Enqueued(s, pending))
  {
    var submitted, kept := s.submitted, s.written + s.queue;
    var longer, now := submitted + [pending], s.written + Enqueued(s, pending);
    var n, m := |longer| - 1, |now| - 1;
    assert longer[..n] == submitted;
    if Enqueued(s, pending) == s.queue + [pending] {
      assert now[..m] == kept;
    } else {
      assert now[..m] == kept[..m];
      assert kept == kept[..m] + [kept[m]];
      assert kept[m] == submitted[n - 1];
    }
  }

  lemma StepKeeps(s: State, step: Step)
    requires Invariant(s)
    ensures Invariant(Next(s, step))
  {
    match step
    case Queue(pending) => QueueKeepsCoalesced(s, pending);
    case Complete(saved) =>
      if s.busy && saved { assert s.written + [s.inFlight] + s.queue[1..] == s.written + s.queue; }
    case Retry =>
  }

  lemma {:induction false} RunKeeps(s: State, steps: seq<Step>)
    requires Invariant(s)
    ensures Invariant(Run(s, steps))
  {
    if steps != [] {
      RunKeeps(s, steps[..|steps| - 1]);
      StepKeeps(Run(s, steps[..|steps| - 1]), steps[|steps| - 1]);
    }
  }

  function WithoutNavigation(snapshots: seq<Snapshot>): seq<Snapshot> {
    if snapshots == [] then []
    else
      var front := WithoutNavigation(snapshots[..|snapshots| - 1]);
      if IsNavigation(snapshots[|snapshots| - 1]) then front else front + [snapshots[|snapshots| - 1]]
  }

  lemma {:induction false} CoalescedKeepsWork(submitted: seq<Snapshot>, kept: seq<Snapshot>)
    requires Coalesced(submitted, kept)
    ensures WithoutNavigation(kept) == WithoutNavigation(submitted)
    decreases |submitted|
  {
    if submitted != [] {
      var n, m := |submitted| - 1, |kept| - 1;
      if Coalesced(submitted[..n], kept[..m]) {
        CoalescedKeepsWork(submitted[..n], kept[..m]);
      } else {
        var earlier := kept[..m] + [submitted[n - 1]];
        CoalescedKeepsWork(submitted[..n], earlier);
        assert earlier[..m] == kept[..m];
      }
    }
  }

  /** The snapshots these steps asked to save, in order. */
  function Asked(steps: seq<Step>): seq<Snapshot> {
    if steps == [] then []
    else
      var front, last := Asked(steps[..|steps| - 1]), steps[|steps| - 1];
      if last.Queue? && last.pending.message != "" then front + [last.pending] else front
  }

  lemma {:induction false} SubmittedIsAsked(s: State, steps: seq<Step>)
    requires Fresh(s)
    ensures Run(s, steps).submitted == Asked(steps)
  {
    if steps != [] { SubmittedIsAsked(s, steps[..|steps| - 1]); }
  }

  /** Of what was asked for nothing but navigation is ever dropped, nothing is
      reordered, and the newest snapshot is the last one queued or, when nothing
      is queued, the last one written. */
  lemma NothingIsLost(s: State, steps: seq<Step>)
    requires Fresh(s)
    ensures var t, asked := Run(s, steps), Asked(steps);
            WithoutNavigation(t.written + t.queue) == WithoutNavigation(asked) &&
            (asked != [] ==> t.written + t.queue != [] &&
                             (t.written + t.queue)[|t.written + t.queue| - 1] == asked[|asked| - 1])
  {
    RunKeeps(s, steps);
    SubmittedIsAsked(s, steps);
    var t := Run(s, steps);
    CoalescedKeepsWork(t.submitted, t.written + t.queue);
  }

  /** Only messages that begin in one of two ways are navigation. */
  lemma NavigationExact(snapshot: Snapshot)
    ensures IsNavigation(snapshot) <==>
            exists rest: string ::
              snapshot.message == "tabs: activate " + rest || snapshot.message == "tabs: navigate to " + rest
  {
    var message := snapshot.message;
    if StartsWith(message, "tabs: activate ") { assert message == "tabs: activate " + message[15..]; }
    if StartsWith(message, "tabs: navigate to ") { assert message == "tabs: navigate to " + message[18..]; }
    if rest: string :| message == "tabs: activate " + rest { assert message[..15] == "tabs: activate "; }
    if rest: string :| message == "tabs: navigate to " + rest { assert message[..18] == "tabs: navigate to "; }
  }

  /** Behind the head no two neighbours are both navigation. */
  ghost predicate WaitingCoalesced(s: State) {
    forall i | 1 <= i < |s.queue| - 1 :: !(IsNavigation(s.queue[i]) && IsNavigation(s.queue[i + 1]))
  }

  lemma StepKeepsWaitingCoalesced(s: State, step: Step)
    requires WorkerHoldsHead(s) && WaitingCoalesced(s)
    ensures WaitingCoalesced(Next(s, step))
  {
  }

  lemma {:induction false} WaitingStaysCoalesced(s: State, steps: seq<Step>)
    requires Fresh(s)
    ensures WaitingCoalesced(Run(s, steps))
  {
    if steps != [] {
      var front := steps[..|steps| - 1];
      RunKeeps(s, front);
      WaitingStaysCoalesced(s, front);
      StepKeepsWaitingCoalesced(Run(s, front), steps[|steps| - 1]);
    }
  }

  /** Only a success writes, and it writes what the worker holds; a failure
      keeps the queue and pauses; and while paused nothing is written until a
      retry, however much is queued meanwhile. */
  lemma WritesExact(s: State, step: Step)
    ensures Next(s, step).written == s.written + if s.busy && step == Complete(true) then [s.inFlight] else []
    ensures s.busy && step == Complete(false) ==> Next(s, step) == s.(busy := false, paused := true)
    ensures s.paused && !s.busy && step != Retry ==>
              var t := Next(s, step); t.paused && !t.busy && t.written == s.written && |t.queue| >= |s.queue|
  {
  }

  /** What the worker holds is the head of the queue, and stays so until the
      worker reports. */
  lemma InFlightIsNeverReplaced(s: State, steps: seq<Step>, step: Step)
    requires Fresh(s) && Run(s, steps).busy && !step.Complete?
    ensures var t, u := Run(s, steps), Next(Run(s, steps), step);
            u.busy && u.inFlight == t.inFlight && t.queue != [] && u.queue != [] &&
            t.queue[0] == u.queue[0] == t.inFlight
  {
    RunKeeps(s, steps);
    RunKeeps(s, steps + [step]);
    assert (steps + [step])[..|steps|] == steps;
  }

  function Successes(n: nat): seq<Step> {
    seq(n, i => Complete(true))
  }

  lemma SuccessWritesHead(s: State)
    requires WorkerHoldsHead(s) && s.busy
    ensures var t := Next(s, Complete(true));
            WorkerHoldsHead(t) && t.queue == s.queue[1..] && t.written == s.written + [s.queue[0]] &&
            t.submitted == s.submitted && !t.paused && t.busy == (|s.queue| > 1)
  {
  }

  lemma {:induction false} RetryDrains(s: State, n: nat)
    requires WorkerHoldsHead(s) && n <= |s.queue| && (n > 0 ==> s.busy)
    ensures var t := Run(s, Successes(n));
            WorkerHoldsHead(t) && t.queue == s.queue[n..] && t.written == s.written + s.queue[..n] &&
            t.submitted == s.submitted && t.paused == s.paused && (n < |s.queue| && s.busy ==> t.busy)
  {
    if n > 0 {
      RetryDrains(s, n - 1);
      var t := Run(s, Successes(n - 1));
      assert Successes(n)[..n - 1] == Successes(n - 1);
      assert Run(s, Successes(n)) == Next(t, Complete(true));
      SuccessWritesHead(t);
      assert s.queue[..n] == s.queue[..n - 1] + [s.queue[n - 1]];
    }
  }

  /** After any failures, a retry and one success for each queued snapshot
      leave nothing queued and everything but skipped navigation written. */
  lemma RetryWritesEverything(s: State, steps: seq<Step>)
    requires Fresh(s)
    ensures var t := Next(Run(s, steps), Retry);
            var u := Run(t, Successes(|t.queue|));
            var asked := Asked(steps);
            u.queue == [] && !u.busy && !u.paused && WithoutNavigation(u.written) == WithoutNavigation(asked) &&
            (asked != [] ==> u.written != [] && u.written[|u.written| - 1] == asked[|asked| - 1])
  {
    RunKeeps(s, steps);
    SubmittedIsAsked(s, steps);
    StepKeeps(Run(s, steps), Retry);
    DrainWritesEverything(Next(Run(s, steps), Retry));
  }

  lemma DrainWritesEverything(t: State)
    requires Invariant(t) && !t.paused
    ensures var u := Run(t, Successes(|t.queue|));
            u.queue == [] && !u.busy && !u.paused && u.submitted == t.submitted &&
            WithoutNavigation(u.written) == WithoutNavigation(u.submitted) &&
            (u.submitted != [] ==> u.written != [] && u.written[|u.written| - 1] == u.submitted[|u.submitted| - 1])
  {
    RetryDrains(t, |t.queue|);
    var u := Run(t, Successes(|t.queue|));
    assert t.queue[..|t.queue|] == t.queue;
    CoalescedKeepsWork(t.submitted, t.written + t.queue);
  }
}
