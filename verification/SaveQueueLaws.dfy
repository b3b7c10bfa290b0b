/** The background save queue, over every interleaving of edits, worker steps,
    undos and completions, whatever fails on the way. */
module SaveQueueLaws {
  import opened Json
  import opened MergePatch
  import opened Journal
  import opened ActionHistory
  import opened ProjectSession

  /** The queued changes follow one another up to the document in memory; the
      worker is busy exactly while something is queued; and what it has just
      saved is on disk. */
  ghost predicate Ordered(s: State) {
    (s.phase == Idle <==> s.queue == []) &&
    (forall i | 0 < i < |s.queue| :: s.queue[i].before == s.queue[i - 1].after) &&
    (s.queue != [] ==> s.memory == s.queue[|s.queue| - 1].after) &&
    (s.queue != [] && s.phase in {Recording, Reporting(true)} ==> s.store == s.queue[0].after)
  }

  /** The disk holds the document the queue starts from, or, after a save that
      failed, possibly the one it was saving. */
  ghost predicate DiskAgrees(s: State) {
    if s.queue == [] then s.store == s.memory
    else if s.phase == Saving then s.store == s.queue[0].before
    else if s.phase == Reporting(false) then s.store == s.queue[0].before || s.store == s.queue[0].after
    else true
  }

  ghost predicate Linked(s: State) {
    Ordered(s) && DiskAgrees(s)
  }

  // ---------- what no failure can break ----------

  lemma FinishKeepsOrder(s: State, reloads: bool)
    requires Ordered(s) && s.phase.Reporting?
    ensures Ordered(AfterFinish(s, reloads))
  {
  }

  lemma ToggleKeepsIdle(s: State, eventId: string, undo: bool, attempt: Attempt, digest: Digest)
    requires IdleProject(s)
    ensures IdleProject(AfterToggle(s, eventId, undo, attempt, digest))
  {
  }

  /** Every step keeps the order. */
  lemma StepKeepsOrder(s: State, step: Step, digest: Digest)
    requires Ordered(s)
    ensures Ordered(Next(s, step, digest))
  {
    match step
    case Finish(reloads) =>
      if s.phase.Reporting? { FinishKeepsOrder(s, reloads); }
    case Toggle(eventId, undo, attempt) =>
      if IdleProject(s) { ToggleKeepsIdle(s, eventId, undo, attempt, digest); }
    case _ =>
  }

  lemma {:induction false} RunStaysOrdered(s: State, steps: seq<Step>, digest: Digest)
    requires Ordered(s)
    ensures Ordered(Run(s, steps, digest))
  {
    if steps != [] {
      RunStaysOrdered(s, steps[..|steps| - 1], digest);
      StepKeepsOrder(Run(s, steps[..|steps| - 1], digest), steps[|steps| - 1], digest);
    }
  }

  // ---------- memory and disk ----------

  /** A step after which memory and disk differ: a failed save whose reload
      fails too, with another document in memory; an undo or redo, or a
      restore, whose document reaches the disk without its commit. */
  predicate Parts(s: State, step: Step) {
    match step
    case Finish(reloads) => s.phase == Reporting(false) && !reloads && s.memory != s.store
    case Toggle(eventId, undo, attempt) =>
      IdleProject(s) && Lands(s, eventId, undo, attempt) && attempt.save.Unconfirmed? &&
      ToggledDocument(s, eventId, undo) != s.memory
    case Restore(eventId, _, _, _, loads, save) =>
      IdleProject(s) && save.Unconfirmed? &&
      (match RestoreTarget(s, eventId, loads)
       case None => false
       case Some(event) => RestorePoint(event) != s.memory)
    case _ => false
  }

  lemma FinishAgreesExact(s: State, reloads: bool)
    requires Linked(s) && s.phase.Reporting?
    ensures DiskAgrees(AfterFinish(s, reloads)) <==> !Parts(s, Finish(reloads))
  {
  }

  lemma ToggleAgreesExact(s: State, eventId: string, undo: bool, attempt: Attempt, digest: Digest)
    requires Linked(s) && IdleProject(s)
    ensures DiskAgrees(AfterToggle(s, eventId, undo, attempt, digest)) <==> !Parts(s, Toggle(eventId, undo, attempt))
  {
  }

  /** Every step keeps memory, queue and disk linked, except exactly those. */
  lemma StepKeepsLinkedExact(s: State, step: Step, digest: Digest)
    requires Linked(s)
    ensures Linked(Next(s, step, digest)) <==> !Parts(s, step)
  {
    StepKeepsOrder(s, step, digest);
    match step
    case Finish(reloads) =>
      if s.phase.Reporting? { FinishAgreesExact(s, reloads); }
    case Toggle(eventId, undo, attempt) =>
      if IdleProject(s) { ToggleAgreesExact(s, eventId, undo, attempt, digest); }
    case _ =>
  }

  ghost predicate NeverParts(s: State, steps: seq<Step>, digest: Digest) {
    steps == [] ||
    (NeverParts(s, steps[..|steps| - 1], digest) &&
     !Parts(Run(s, steps[..|steps| - 1], digest), steps[|steps| - 1]))
  }

  lemma {:induction false} RunStaysLinked(s: State, steps: seq<Step>, digest: Digest)
    requires Linked(s) && NeverParts(s, steps, digest)
    ensures Linked(Run(s, steps, digest))
  {
    if steps != [] {
      var front := steps[..|steps| - 1];
      RunStaysLinked(s, front, digest);
      StepKeepsLinkedExact(Run(s, front, digest), steps[|steps| - 1], digest);
    }
  }

  /** Whenever the queue is empty, memory and disk hold the same document:
      after the last save, and after a failed save threw the queue away. */
  lemma EmptyQueueAgrees(s: State, steps: seq<Step>, digest: Digest)
    requires Linked(s) && NeverParts(s, steps, digest)
    ensures var t := Run(s, steps, digest);
            t.queue == [] ==> t.phase == Idle && t.memory == t.store
  {
    RunStaysLinked(s, steps, digest);
  }

  lemma SaveLinks(s: State, digest: Digest)
    requires Ordered(s) && s.phase == Saving
    ensures Linked(Next(s, Save(Saved), digest))
  {
  }

  /** What came apart, the next save that succeeds brings together, whatever
      happened before. */
  lemma SaveRejoins(s: State, steps: seq<Step>, digest: Digest)
    requires Ordered(s) && Run(s, steps, digest).phase == Saving
    ensures Linked(Run(s, steps + [Save(Saved)], digest))
  {
    RunStaysOrdered(s, steps, digest);
    RunAppend(s, steps, Save(Saved), digest);
    SaveLinks(Run(s, steps, digest), digest);
  }

  // ---------- runs of three and more steps ----------

  lemma RunAppend(s: State, steps: seq<Step>, step: Step, digest: Digest)
    ensures Run(s, steps + [step], digest) == Next(Run(s, steps, digest), step, digest)
  {
    assert (steps + [step])[..|steps|] == steps;
  }

  lemma RunThree(s: State, one: Step, two: Step, three: Step, digest: Digest)
    ensures Run(s, [one, two, three], digest) == Next(Next(Next(s, one, digest), two, digest), three, digest)
  {
    RunAppend(s, [], one, digest);
    RunAppend(s, [one], two, digest);
    RunAppend(s, [one, two], three, digest);
    assert [] + [one] == [one] && [one] + [two] == [one, two] && [one, two] + [three] == [one, two, three];
  }

  /** One bad run: an edit fails to save and the reload fails too. */
  lemma StaleReloadLosesAgreement(document: Doc, after: Doc, journal: seq<Event>, digest: Digest)
    requires document != after
    ensures var s := Run(Opened(document, journal), [Mutate(after), Save(Rejected), Finish(false)], digest);
            s.queue == [] && s.memory == after && s.store == document
  {
    RunThree(Opened(document, journal), Mutate(after), Save(Rejected), Finish(false), digest);
  }

  /** Another: an undo's document reaches the disk and then fails to commit. */
  lemma UnconfirmedToggleLosesAgreement(s: State, eventId: string, undo: bool, attempt: Attempt, digest: Digest)
    requires Linked(s) && IdleProject(s) && Lands(s, eventId, undo, attempt) && attempt.save.Unconfirmed?
    requires ToggledDocument(s, eventId, undo) != s.memory
    ensures var t := Next(s, Toggle(eventId, undo, attempt), digest);
            t.memory == s.memory && t.store == ToggledDocument(s, eventId, undo) && t.store != t.memory
  {
  }

  /** One working round of the worker writes the head's document and moves on. */
  lemma RoundSavesHead(s: State, caption: Caption, id: string, storage: Storage, digest: Digest)
    requires Linked(s) && s.phase == Saving
    ensures var t := Run(s, [Save(Saved), RecordSaved(caption, id, storage), Finish(true)], digest);
            Linked(t) && t.store == s.queue[0].after && t.queue == s.queue[1..] && t.memory == s.memory &&
            (t.phase == if |s.queue| == 1 then Idle else Saving)
  {
    var one, two, three := Save(Saved), RecordSaved(caption, id, storage), Finish(true);
    var s1 := Next(s, one, digest);
    var s2 := Next(s1, two, digest);
    RunThree(s, one, two, three, digest);
    StepKeepsLinkedExact(s, one, digest);
    StepKeepsLinkedExact(s1, two, digest);
    StepKeepsLinkedExact(s2, three, digest);
    assert s2 == s.(store := s.queue[0].after, phase := Reporting(true), journal := s2.journal);
  }
}
