/** Whole runs of the open project: edits, background saves, undo, redo,
    restore, bookmarks and lanes, whatever fails on the way. */
module HistoryRuns {
  import opened Json
  import opened MergePatch
  import opened MergePatchLaws
  import opened SelectiveUndo
  import opened Journal
  import opened ActionHistory
  import opened JournalLaws
  import opened ProjectSession
  import opened SaveQueueLaws
  import opened HistoryLedger

  /** The document the journal is about: an edit shows in the journal once it
      is saved and recorded. */
  function RecordedDocument(s: State): Doc {
    if s.queue == [] then s.memory
    else if s.phase == Reporting(true) then s.queue[0].after
    else s.queue[0].before
  }

  /** Edits write and remove no null member, and identifiers are new. */
  ghost predicate Orderly(s: State, step: Step) {
    match step
    case Mutate(after) => NullsShared(s.memory, after)
    case RecordSaved(_, id, _) => Unused(s.journal, id)
    case Toggle(_, _, attempt) =>
      Unused(s.journal, attempt.id) && Unused(s.journal, attempt.repairId) && attempt.id != attempt.repairId
    case Restore(eventId, _, id, _, loads, _) =>
      Unused(s.journal, id) &&
      var target := RestoreTarget(s, eventId, loads);
      target.Some? ==> NullsShared(s.memory, RestorePoint(target.value))
    case Mark(_, id, _) => Unused(s.journal, id)
    case _ => true
  }

  /** The change is not recorded although it changes something. */
  predicate Unrecorded(events: seq<Event>, caption: Caption, before: Doc, after: Doc, storage: Storage) {
    before != after && !(Writes(storage) && DraftFor(events, Command.Record(DraftOf(caption, before, after))).Some?)
  }

  /** A toggle that changes something is left in the journal alone: its append
      reports a failure, or its project is refused and so is the repair. */
  predicate HalfToggle(s: State, eventId: string, undo: bool, attempt: Attempt) {
    IdleProject(s) &&
    (match ToggleDraft(s.journal, eventId, undo)
     case None => false
     case Some(event) => event.forward != map[]) &&
    (attempt.storage == CommitFails(false) ||
     (attempt.storage.Succeeds? && !ToggleDone(s, eventId, undo, attempt) && !Writes(attempt.repairStorage)))
  }

  /** A failed save ends with another document than the one before the edit. */
  predicate StrayFinish(s: State, reloads: bool) {
    s.phase == Reporting(false) && s.queue != [] && (if reloads then s.store else s.memory) != s.queue[0].before
  }

  /** The steps after which the journal is no longer about the project. */
  predicate Strays(s: State, step: Step) {
    match step
    case RecordSaved(caption, _, storage) =>
      s.phase == Recording && s.queue != [] &&
      Unrecorded(s.journal, caption, s.queue[0].before, s.queue[0].after, storage)
    case Finish(reloads) => StrayFinish(s, reloads)
    case Toggle(eventId, undo, attempt) => HalfToggle(s, eventId, undo, attempt)
    case Restore(eventId, caption, _, storage, loads, save) =>
      IdleProject(s) && save.Saved? &&
      (match RestoreTarget(s, eventId, loads)
       case None => false
       case Some(event) =>
         Unrecorded(s.journal, Caption(caption.title, event.contextKey, event.elementId), s.memory,
                    RestorePoint(event), storage))
    case _ => false
  }

  ghost predicate OrderlyRun(s: State, steps: seq<Step>, digest: Digest) {
    steps == [] ||
    (OrderlyRun(s, steps[..|steps| - 1], digest) &&
     var t, step := Run(s, steps[..|steps| - 1], digest), steps[|steps| - 1];
     Orderly(t, step) && !Strays(t, step))
  }

  ghost predicate SharedQueue(s: State) {
    forall i | 0 <= i < |s.queue| :: NullsShared(s.queue[i].before, s.queue[i].after)
  }

  /** What every step keeps whatever fails. */
  ghost predicate Sound(s: State) {
    Ordered(s) && SharedQueue(s) && SoundJournal(s.journal)
  }

  ghost predicate Accounted(initial: Doc, s: State) {
    Conserved(initial, RecordedDocument(s), s.journal)
  }

  ghost predicate Invariant(initial: Doc, s: State) {
    Sound(s) && Accounted(initial, s)
  }

  // ---------- replaying the journal ----------

  /** The unguarded apply of every forward diff, oldest first. */
  function Replay(initial: Doc, events: seq<Event>): Doc {
    if events == [] then initial
    else ApplyMergePatch(Replay(initial, events[..|events| - 1]), events[|events| - 1].forward)
  }

  lemma ReplayAppend(initial: Doc, before: seq<Event>, after: seq<Event>)
    requires |after| == |before| + 1 && before <= after
    ensures Replay(initial, after) == ApplyMergePatch(Replay(initial, before), after[|before|].forward)
  {
    assert after[..|before|] == before;
  }

  /** A toggle of this step is appended and meets a document its guard refuses. */
  predicate Refused(s: State, step: Step) {
    step.Toggle? && IdleProject(s) && step.attempt.storage.Succeeds? &&
    match ToggleDraft(s.journal, step.eventId, step.undo)
    case None => false
    case Some(event) => !Accepts(s.memory, event.forward, event.inverse)
  }

  ghost predicate Replays(initial: Doc, s: State) {
    Replay(initial, s.journal) == RecordedDocument(s)
  }

  /** The step leaves the journal sound; it is about the project unless the step
      strays; and it goes on replaying to it unless a guard refuses too. */
  ghost predicate StepIsExact(initial: Doc, s: State, step: Step, t: State) {
    Sound(t) && (Accounted(initial, t) <==> !Strays(s, step)) &&
    (Replays(initial, s) && !Strays(s, step) && !Refused(s, step) ==> Replays(initial, t))
  }

  lemma IdleStepIsExact(initial: Doc, s: State, step: Step, t: State)
    requires IdleProject(s) && IdleProject(t) && SoundJournal(t.journal)
    requires Conserved(initial, t.memory, t.journal) <==> !Strays(s, step)
    requires Replay(initial, s.journal) == s.memory && !Strays(s, step) && !Refused(s, step) ==>
               Replay(initial, t.journal) == t.memory
    ensures StepIsExact(initial, s, step, t)
  {
  }

  // ---------- edits and saves ----------

  lemma QueueStepKeeps(s: State, step: Step, digest: Digest)
    requires Ordered(s) && SharedQueue(s) && Orderly(s, step) && (step.Mutate? || step.Save?)
    ensures var t := Next(s, step, digest);
            SharedQueue(t) && RecordedDocument(t) == RecordedDocument(s) && t.journal == s.journal
  {
  }

  lemma FinishShape(s: State, reloads: bool)
    requires Ordered(s) && SharedQueue(s) && s.phase.Reporting?
    ensures var t := AfterFinish(s, reloads);
            SharedQueue(t) && t.journal == s.journal &&
            (RecordedDocument(t) == RecordedDocument(s) <==> !StrayFinish(s, reloads))
  {
  }

  lemma FinishExact(initial: Doc, s: State, reloads: bool)
    requires Invariant(initial, s) && s.phase.Reporting?
    ensures var t := AfterFinish(s, reloads);
            Sound(t) && (Accounted(initial, t) <==> !StrayFinish(s, reloads)) &&
            (Replays(initial, s) && !StrayFinish(s, reloads) ==> Replays(initial, t))
  {
    var t := AfterFinish(s, reloads);
    FinishShape(s, reloads);
    FinishKeepsOrder(s, reloads);
    if Accounted(initial, t) { SameJournalSameDocument(initial, RecordedDocument(s), RecordedDocument(t), s.journal); }
  }

  lemma SameJournalSameDocument(initial: Doc, one: Doc, two: Doc, events: seq<Event>)
    requires Conserved(initial, one, events) && Conserved(initial, two, events)
    ensures one == two
  {
    MovementDecidesDocument(initial, one, events, two, events);
    assert forall path :: SameMovementAt(events, events, path);
  }

  // ---------- recorded changes ----------

  ghost predicate Records(before: seq<Event>, after: seq<Event>, was: Doc, now: Doc) {
    Extends(before, after) && var event := after[|before|];
    event.kind == Action && Paired(event) && ChangeOf(event) == Change(was, now)
  }

  lemma RecordExtends(events: seq<Event>, caption: Caption, before: Doc, after: Doc, id: string, digest: Digest)
    requires NullsShared(before, after) && Unused(events, id)
    requires DraftFor(events, Command.Record(DraftOf(caption, before, after))).Some?
    ensures Records(events, Execute(events, Command.Record(DraftOf(caption, before, after)), id, digest), before, after)
  {
  }

  /** Recording a change, or losing it: the journal is about the new document
      unless it is lost and changed something. */
  lemma RecordExact(initial: Doc, events: seq<Event>, caption: Caption, before: Doc, after: Doc, id: string,
                    storage: Storage, digest: Digest)
    requires SoundJournal(events) && Conserved(initial, before, events)
    requires NullsShared(before, after) && Unused(events, id)
    ensures var journal := Written(events, Command.Record(DraftOf(caption, before, after)), id, storage, digest);
            SoundJournal(journal) &&
            (Conserved(initial, after, journal) <==> !Unrecorded(events, caption, before, after, storage)) &&
            (Replay(initial, events) == before && !Unrecorded(events, caption, before, after, storage) ==>
               Replay(initial, journal) == after)
  {
    var command := Command.Record(DraftOf(caption, before, after));
    if Writes(storage) && DraftFor(events, command).Some? {
      RecordExtends(events, caption, before, after, id, digest);
      RecordEffect(initial, events, Execute(events, command, id, digest), before, after);
    } else if Conserved(initial, after, events) {
      SameJournalSameDocument(initial, before, after, events);
    }
  }

  lemma RecordEffect(initial: Doc, events: seq<Event>, journal: seq<Event>, before: Doc, after: Doc)
    requires SoundJournal(events) && Conserved(initial, before, events) && Records(events, journal, before, after)
    ensures SoundJournal(journal) && Conserved(initial, after, journal)
    ensures Replay(initial, events) == before ==> Replay(initial, journal) == after
  {
    ActionKeepsBalance(initial, before, events, journal);
    ReplayAppend(initial, events, journal);
    SharedIsSettled(before, after);
    RoundTripExact(before, after);
  }

  /** The worker has just tried to record the head. */
  ghost predicate RecordTried(s: State, step: Step, digest: Digest, t: State)
    requires step.RecordSaved?
  {
    s.phase == Recording && s.queue != [] &&
    var command := Command.Record(DraftOf(step.caption, s.queue[0].before, s.queue[0].after));
    t == s.(journal := t.journal, phase := Reporting(true)) &&
    t.journal == Written(s.journal, command, step.id, step.storage, digest)
  }

  lemma RecordFields(s: State, step: Step, digest: Digest)
    requires step.RecordSaved?
    ensures var t := Next(s, step, digest);
            if s.phase == Recording && s.queue != [] then RecordTried(s, step, digest, t) else t == s
  {
  }

  lemma RecordTriedExact(initial: Doc, s: State, step: Step, digest: Digest, t: State)
    requires Invariant(initial, s) && Orderly(s, step) && step.RecordSaved? && RecordTried(s, step, digest, t)
    ensures StepIsExact(initial, s, step, t)
  {
    var change := s.queue[0];
    assert NullsShared(change.before, change.after);
    RecordExact(initial, s.journal, step.caption, change.before, change.after, step.id, step.storage, digest);
  }

  lemma RecordStepExact(initial: Doc, s: State, step: Step, digest: Digest)
    requires Invariant(initial, s) && Orderly(s, step) && step.RecordSaved?
    ensures StepIsExact(initial, s, step, Next(s, step, digest))
  {
    RecordFields(s, step, digest);
    if s.phase == Recording && s.queue != [] {
      RecordTriedExact(initial, s, step, digest, Next(s, step, digest));
    }
  }

  lemma RestoreFields(s: State, step: Step, digest: Digest)
    requires step.Restore? && IdleProject(s)
    ensures var t := AfterRestore(s, step, digest);
            IdleProject(t) &&
            match RestoreTarget(s, step.eventId, step.loads)
            case None => t == s
            case Some(event) =>
              if step.save.Saved? then
                t.memory == RestorePoint(event) &&
                t.journal == Written(s.journal, RestoreCommand(s, event, step.caption), step.id, step.storage, digest)
              else t.memory == s.memory && t.journal == s.journal
  {
  }

  lemma RestoreStepExact(initial: Doc, s: State, step: Step, digest: Digest)
    requires Invariant(initial, s) && Orderly(s, step) && step.Restore? && IdleProject(s)
    ensures StepIsExact(initial, s, step, AfterRestore(s, step, digest))
  {
    RestoreFields(s, step, digest);
    match RestoreTarget(s, step.eventId, step.loads)
    case None =>
    case Some(event) =>
      var caption := Caption(step.caption.title, event.contextKey, event.elementId);
      RecordExact(initial, s.journal, caption, s.memory, RestorePoint(event), step.id, step.storage, digest);
      IdleStepIsExact(initial, s, step, AfterRestore(s, step, digest));
  }

  // ---------- bookmarks and lanes ----------

  ghost predicate Marks(before: seq<Event>, after: seq<Event>) {
    Extends(before, after) && after[|before|].kind in {Kind.Bookmark, Kind.Branch} && Paired(after[|before|])
  }

  lemma BookmarkMarks(events: seq<Event>, name: string, eventId: string, id: string, digest: Digest)
    requires Unused(events, id) && BookmarkDraft(events, name, eventId).Some?
    ensures Marks(events, events + [Seal(events, BookmarkDraft(events, name, eventId).value, id, digest)])
  {
  }

  lemma BranchMarks(events: seq<Event>, name: string, eventId: string, id: string, digest: Digest)
    requires Unused(events, id) && BranchDraft(events, name, eventId).Some?
    ensures Marks(events, events + [Seal(events, BranchDraft(events, name, eventId).value, id, digest)])
  {
  }

  lemma SwitchMarks(events: seq<Event>, name: string, id: string, digest: Digest)
    requires Unused(events, id) && SwitchDraft(events, name).Some?
    ensures Marks(events, events + [Seal(events, SwitchDraft(events, name).value, id, digest)])
  {
  }

  lemma MarkShape(events: seq<Event>, command: Command, id: string, digest: Digest)
    requires Unused(events, id) && IsMark(command)
    ensures var journal := Execute(events, command, id, digest); journal == events || Marks(events, journal)
  {
    if DraftFor(events, command).Some? {
      match command
      case CreateBookmark(name, eventId) => BookmarkMarks(events, name, eventId, id, digest);
      case CreateBranch(name, eventId) => BranchMarks(events, name, eventId, id, digest);
      case SwitchBranch(name) => SwitchMarks(events, name, id, digest);
      case _ => assert false;
    }
  }

  lemma MarkEffect(initial: Doc, document: Doc, events: seq<Event>, journal: seq<Event>)
    requires SoundJournal(events) && Conserved(initial, document, events) && Marks(events, journal)
    ensures SoundJournal(journal) && Conserved(initial, document, journal)
    ensures Replay(initial, journal) == Replay(initial, events)
  {
    MarkKeepsBalance(initial, document, events, journal);
    ReplayAppend(initial, events, journal);
    EmptyPatchChangesNothing(Replay(initial, events));
  }

  lemma MarkStepExact(initial: Doc, s: State, step: Step, digest: Digest)
    requires Invariant(initial, s) && Orderly(s, step) && step.Mark? && IdleProject(s) && IsMark(step.command)
    ensures var journal := Written(s.journal, step.command, step.id, step.storage, digest);
            SoundJournal(journal) && Conserved(initial, s.memory, journal) &&
            Replay(initial, journal) == Replay(initial, s.journal)
  {
    MarkShape(s.journal, step.command, step.id, digest);
    var journal := Written(s.journal, step.command, step.id, step.storage, digest);
    if journal != s.journal { MarkEffect(initial, s.memory, s.journal, journal); }
  }

  // ---------- undo and redo ----------

  /** What a toggle command makes of the journal, seen from its laws. */
  ghost predicate Toggles(before: seq<Event>, after: seq<Event>, eventId: string) {
    Find(before, eventId).Some? && Extends(before, after) &&
    Toggled(before, after, RootIdFor(Find(before, eventId).value))
  }

  lemma ToggleExtends(events: seq<Event>, eventId: string, undo: bool, id: string, digest: Digest)
    requires AllAlternate(events) && ToggleDraft(events, eventId, undo).Some? && Unused(events, id)
    ensures Toggleable(events, eventId, undo)
    ensures var journal := Execute(events, ToggleCommand(eventId, undo), id, digest);
            var draft := ToggleDraft(events, eventId, undo).value;
            Toggles(events, journal, eventId) && journal[|events|].id == id &&
            journal[|events|].forward == draft.forward && journal[|events|].inverse == draft.inverse
  {
    ToggleIsToggled(events, eventId, undo, id, digest);
  }

  lemma RepairExtends(before: seq<Event>, middle: seq<Event>, eventId: string, undo: bool, repairId: string,
                      digest: Digest)
    requires AllAlternate(before) && Toggleable(before, eventId, undo) && Toggles(before, middle, eventId)
    requires Unused(before, repairId) && middle[|before|].id != repairId
    ensures Find(middle, eventId) == Find(before, eventId)
    ensures Toggles(middle, Execute(middle, ToggleCommand(eventId, !undo), repairId, digest), eventId)
  {
    ToggleKeepsAlternating(before, middle, RootIdFor(Find(before, eventId).value));
    ToggleableAgain(before, middle, eventId, undo);
    assert middle == before + [middle[|before|]];
    ToggleIsToggled(middle, eventId, !undo, repairId, digest);
  }

  /** The journal of one undo or redo whose compensation is written. */
  ghost predicate ToggleLeaves(s: State, eventId: string, undo: bool, attempt: Attempt, digest: Digest,
                               journal: seq<Event>)
  {
    var middle := Execute(s.journal, ToggleCommand(eventId, undo), attempt.id, digest);
    if ToggleDone(s, eventId, undo, attempt) || !attempt.storage.Succeeds? || !Writes(attempt.repairStorage) then
      journal == middle
    else journal == Execute(middle, ToggleCommand(eventId, !undo), attempt.repairId, digest)
  }

  lemma ToggleOutcome(s: State, eventId: string, undo: bool, attempt: Attempt, digest: Digest)
    requires IdleProject(s) && ToggleDraft(s.journal, eventId, undo).Some? && Writes(attempt.storage)
    ensures ToggleLeaves(s, eventId, undo, attempt, digest, ToggleJournal(s, eventId, undo, attempt, digest))
  {
  }

  /** A compensation that is written and applied. */
  lemma ToggleEffect(initial: Doc, document: Doc, events: seq<Event>, journal: seq<Event>, eventId: string)
    requires SoundJournal(events) && Conserved(initial, document, events) && Toggles(events, journal, eventId)
    requires Accepts(document, journal[|events|].forward, journal[|events|].inverse)
    ensures SoundJournal(journal) && Conserved(initial, ApplyMergePatch(document, journal[|events|].forward), journal)
    ensures Replay(initial, events) == document ==>
              Replay(initial, journal) == ApplyMergePatch(document, journal[|events|].forward)
  {
    ToggleKeepsBalance(initial, document, events, journal, RootIdFor(Find(events, eventId).value));
    ReplayAppend(initial, events, journal);
  }

  /** One that is written, not applied, and repaired. */
  lemma RepairEffect(initial: Doc, document: Doc, events: seq<Event>, middle: seq<Event>, journal: seq<Event>,
                     eventId: string)
    requires SoundJournal(events) && Conserved(initial, document, events)
    requires Toggles(events, middle, eventId) && Toggles(middle, journal, eventId)
    requires Find(middle, eventId) == Find(events, eventId)
    ensures SoundJournal(journal) && Conserved(initial, document, journal)
    ensures var event := middle[|events|];
            Replay(initial, events) == document ==>
              (Replay(initial, journal) == document <==> Accepts(document, event.forward, event.inverse))
  {
    var rootId := RootIdFor(Find(events, eventId).value);
    RepairKeepsBalance(initial, document, events, middle, journal, rootId);
    ReplayAppend(initial, events, middle);
    ReplayAppend(initial, middle, journal);
    RepairReplaysExact(document, events, middle, journal, rootId);
  }

  /** One that is written only. */
  lemma HalfEffect(initial: Doc, document: Doc, events: seq<Event>, journal: seq<Event>, eventId: string)
    requires SoundJournal(events) && Conserved(initial, document, events) && Toggles(events, journal, eventId)
    ensures SoundJournal(journal)
    ensures Conserved(initial, document, journal) <==> journal[|events|].forward == map[]
    ensures Replay(initial, events) == document && journal[|events|].forward == map[] ==>
              Replay(initial, journal) == document
  {
    HalfToggleExact(initial, document, events, journal, RootIdFor(Find(events, eventId).value));
    ReplayAppend(initial, events, journal);
    EmptyPatchChangesNothing(document);
  }

  /** The journal is about `document` exactly when the step does not stray. */
  ghost predicate ToggleIsExact(initial: Doc, s: State, step: Step, document: Doc, journal: seq<Event>) {
    SoundJournal(journal) && (Conserved(initial, document, journal) <==> !Strays(s, step)) &&
    (Replay(initial, s.journal) == s.memory && !Strays(s, step) && !Refused(s, step) ==>
       Replay(initial, journal) == document)
  }

  ghost predicate TogglesFrom(initial: Doc, s: State, step: Step, middle: seq<Event>) {
    Invariant(initial, s) && step.Toggle? && IdleProject(s) && Writes(step.attempt.storage) &&
    ToggleDraft(s.journal, step.eventId, step.undo).Some? && Toggles(s.journal, middle, step.eventId) &&
    var draft, event := ToggleDraft(s.journal, step.eventId, step.undo).value, middle[|s.journal|];
    event.forward == draft.forward && event.inverse == draft.inverse
  }

  lemma AppliedIsExact(initial: Doc, s: State, step: Step, middle: seq<Event>)
    requires TogglesFrom(initial, s, step, middle) && ToggleDone(s, step.eventId, step.undo, step.attempt)
    ensures ToggleIsExact(initial, s, step, ToggledDocument(s, step.eventId, step.undo), middle)
  {
    ToggleEffect(initial, s.memory, s.journal, middle, step.eventId);
  }

  lemma RepairedIsExact(initial: Doc, s: State, step: Step, middle: seq<Event>, journal: seq<Event>)
    requires TogglesFrom(initial, s, step, middle) && !ToggleDone(s, step.eventId, step.undo, step.attempt)
    requires step.attempt.storage.Succeeds? && Writes(step.attempt.repairStorage)
    requires Toggles(middle, journal, step.eventId) && Find(middle, step.eventId) == Find(s.journal, step.eventId)
    ensures ToggleIsExact(initial, s, step, s.memory, journal)
  {
    RepairEffect(initial, s.memory, s.journal, middle, journal, step.eventId);
  }

  lemma HalfIsExact(initial: Doc, s: State, step: Step, middle: seq<Event>)
    requires TogglesFrom(initial, s, step, middle) && !ToggleDone(s, step.eventId, step.undo, step.attempt)
    requires !(step.attempt.storage.Succeeds? && Writes(step.attempt.repairStorage))
    ensures ToggleIsExact(initial, s, step, s.memory, middle)
  {
    HalfEffect(initial, s.memory, s.journal, middle, step.eventId);
  }

  lemma WrittenToggleExact(initial: Doc, s: State, step: Step, digest: Digest, journal: seq<Event>)
    requires Invariant(initial, s) && Orderly(s, step) && step.Toggle? && IdleProject(s)
    requires ToggleDraft(s.journal, step.eventId, step.undo).Some? && Writes(step.attempt.storage)
    requires ToggleLeaves(s, step.eventId, step.undo, step.attempt, digest, journal)
    ensures var document := if ToggleDone(s, step.eventId, step.undo, step.attempt)
                            then ToggledDocument(s, step.eventId, step.undo) else s.memory;
            ToggleIsExact(initial, s, step, document, journal)
  {
    var eventId, undo, attempt := step.eventId, step.undo, step.attempt;
    var middle := Execute(s.journal, ToggleCommand(eventId, undo), attempt.id, digest);
    ToggleExtends(s.journal, eventId, undo, attempt.id, digest);
    if ToggleDone(s, eventId, undo, attempt) {
      AppliedIsExact(initial, s, step, middle);
    } else if attempt.storage.Succeeds? && Writes(attempt.repairStorage) {
      RepairExtends(s.journal, middle, eventId, undo, attempt.repairId, digest);
      RepairedIsExact(initial, s, step, middle, journal);
    } else {
      HalfIsExact(initial, s, step, middle);
    }
  }

  lemma ToggleStepExact(initial: Doc, s: State, step: Step, digest: Digest)
    requires Invariant(initial, s) && Orderly(s, step) && step.Toggle? && IdleProject(s)
    ensures StepIsExact(initial, s, step, AfterToggle(s, step.eventId, step.undo, step.attempt, digest))
  {
    var eventId, undo, attempt := step.eventId, step.undo, step.attempt;
    if ToggleDraft(s.journal, eventId, undo).Some? && Writes(attempt.storage) {
      ToggleFields(s, eventId, undo, attempt, digest);
      ToggleOutcome(s, eventId, undo, attempt, digest);
      WrittenToggleExact(initial, s, step, digest, ToggleJournal(s, eventId, undo, attempt, digest));
      IdleStepIsExact(initial, s, step, AfterToggle(s, eventId, undo, attempt, digest));
    } else {
      NoToggle(s, eventId, undo, attempt, digest);
    }
  }

  lemma ToggleFields(s: State, eventId: string, undo: bool, attempt: Attempt, digest: Digest)
    requires IdleProject(s)
    ensures var t := AfterToggle(s, eventId, undo, attempt, digest);
            IdleProject(t) && t.journal == ToggleJournal(s, eventId, undo, attempt, digest) &&
            (t.memory == if ToggleDone(s, eventId, undo, attempt) then ToggledDocument(s, eventId, undo) else s.memory)
  {
  }

  lemma NoToggle(s: State, eventId: string, undo: bool, attempt: Attempt, digest: Digest)
    requires ToggleDraft(s.journal, eventId, undo).None? || !Writes(attempt.storage)
    ensures AfterToggle(s, eventId, undo, attempt, digest) == s
  {
  }

  /** Replaying a compensation and its repair gives the document back exactly
      when the guard would have let the compensation through. */
  lemma RepairReplaysExact(document: Doc, before: seq<Event>, middle: seq<Event>, after: seq<Event>, rootId: string)
    requires SoundJournal(before) && Toggled(before, middle, rootId) && Toggled(middle, after, rootId)
    ensures ApplyMergePatch(ApplyMergePatch(document, middle[|before|].forward), after[|middle|].forward) == document
            <==> Accepts(document, middle[|before|].forward, middle[|before|].inverse)
  {
    var r := ToggledAction(before, middle, rootId);
    assert middle == before + [middle[|before|]];
    ChainAppend(before, middle[|before|], rootId);
    SharedSymmetric(ChangeOf(before[r]).before, ChangeOf(before[r]).after);
    if Effective(before, rootId) {
      UnguardedPairExact(document, ChangeOf(before[r]).before, ChangeOf(before[r]).after);
    } else {
      UnguardedPairExact(document, ChangeOf(before[r]).after, ChangeOf(before[r]).before);
    }
  }

  // ---------- whole runs ----------

  /** Whatever fails, the journal stays about the project, except exactly after
      a step that strays. */
  lemma StepKeepsExact(initial: Doc, s: State, step: Step, digest: Digest)
    requires Invariant(initial, s) && Orderly(s, step)
    ensures StepIsExact(initial, s, step, Next(s, step, digest))
  {
    StepKeepsOrder(s, step, digest);
    match step
    case RecordSaved(_, _, _) => RecordStepExact(initial, s, step, digest);
    case Finish(reloads) => if s.phase.Reporting? { FinishExact(initial, s, reloads); }
    case Toggle(_, _, _) => if IdleProject(s) { ToggleStepExact(initial, s, step, digest); }
    case Restore(_, _, _, _, _, _) => if IdleProject(s) { RestoreStepExact(initial, s, step, digest); }
    case Mark(command, _, _) => if IdleProject(s) && IsMark(command) { MarkStepExact(initial, s, step, digest); }
    case _ => QueueStepKeeps(s, step, digest);
  }

  lemma {:induction false} RunKeeps(initial: Doc, s: State, steps: seq<Step>, digest: Digest)
    requires Invariant(initial, s) && OrderlyRun(s, steps, digest)
    ensures Invariant(initial, Run(s, steps, digest))
  {
    if steps != [] {
      var front := steps[..|steps| - 1];
      RunKeeps(initial, s, front, digest);
      StepKeepsExact(initial, Run(s, front, digest), steps[|steps| - 1], digest);
    }
  }

  /** A project opened with no journal is accounted for. */
  lemma OpenedIsAccounted(initial: Doc)
    ensures Invariant(initial, Opened(initial, [])) && Replays(initial, Opened(initial, []))
  {
    forall path ensures Balanced(initial, initial, [], path) {}
    assert Conserved(initial, initial, []);
  }

  /** Closing a project in any state and opening it again keeps the journal
      about it exactly when the disk holds what was recorded. */
  lemma ReopenedExact(initial: Doc, s: State)
    requires Invariant(initial, s)
    ensures Invariant(initial, Opened(s.store, s.journal)) <==> s.store == RecordedDocument(s)
  {
    if Accounted(initial, Opened(s.store, s.journal)) {
      SameJournalSameDocument(initial, s.store, RecordedDocument(s), s.journal);
    }
  }

  ghost predicate NoneRefused(s: State, steps: seq<Step>, digest: Digest) {
    steps == [] ||
    (NoneRefused(s, steps[..|steps| - 1], digest) &&
     !Refused(Run(s, steps[..|steps| - 1], digest), steps[|steps| - 1]))
  }

  lemma {:induction false} RunReplays(initial: Doc, s: State, steps: seq<Step>, digest: Digest)
    requires Invariant(initial, s) && Replays(initial, s)
    requires OrderlyRun(s, steps, digest) && NoneRefused(s, steps, digest)
    ensures Replays(initial, Run(s, steps, digest))
  {
    if steps != [] {
      var front := steps[..|steps| - 1];
      RunReplays(initial, s, front, digest);
      RunKeeps(initial, s, front, digest);
      StepKeepsExact(initial, Run(s, front, digest), steps[|steps| - 1], digest);
    }
  }

  /** Journal and project agree: when no guard refuses an undo or redo, replaying
      the journal from the initial document gives the one in memory whenever the
      queue is empty, and the one on disk unless a step parted the two. */
  lemma JournalReplaysProject(initial: Doc, s: State, steps: seq<Step>, digest: Digest)
    requires Invariant(initial, s) && Replays(initial, s)
    requires OrderlyRun(s, steps, digest) && NoneRefused(s, steps, digest)
    ensures var t := Run(s, steps, digest);
            t.queue == [] ==> Replay(initial, t.journal) == t.memory
    ensures var t := Run(s, steps, digest);
            t.queue == [] && Linked(s) && NeverParts(s, steps, digest) ==> Replay(initial, t.journal) == t.store
  {
    RunReplays(initial, s, steps, digest);
    if Linked(s) && NeverParts(s, steps, digest) { EmptyQueueAgrees(s, steps, digest); }
  }

  // ---------- the project is decided by the actions in force ----------

  /** Two runs over one initial document end with the same project exactly when
      the actions in force at their ends moved every path alike, whatever else
      was done and undone on the way and in whatever order. */
  lemma MovementDecidesProject(initial: Doc, s: State, one: seq<Step>, t: State, two: seq<Step>, digest: Digest)
    requires Invariant(initial, s) && OrderlyRun(s, one, digest)
    requires Invariant(initial, t) && OrderlyRun(t, two, digest)
    ensures var s1, t1 := Run(s, one, digest), Run(t, two, digest);
            RecordedDocument(s1) == RecordedDocument(t1) <==> SameMovement(s1.journal, t1.journal)
  {
    var s1, t1 := Run(s, one, digest), Run(t, two, digest);
    RunKeeps(initial, s, one, digest);
    RunKeeps(initial, t, two, digest);
    MovementDecidesDocument(initial, RecordedDocument(s1), s1.journal, RecordedDocument(t1), t1.journal);
  }

  /** In particular when the actions in force made the same changes. */
  lemma ForceDecidesProject(initial: Doc, s: State, one: seq<Step>, t: State, two: seq<Step>, digest: Digest)
    requires Invariant(initial, s) && OrderlyRun(s, one, digest)
    requires Invariant(initial, t) && OrderlyRun(t, two, digest)
    requires ChangesInForce(Run(s, one, digest).journal) == ChangesInForce(Run(t, two, digest).journal)
    ensures RecordedDocument(Run(s, one, digest)) == RecordedDocument(Run(t, two, digest))
  {
    var s1, t1 := Run(s, one, digest), Run(t, two, digest);
    MovementDecidesProject(initial, s, one, t, two, digest);
    assert forall path :: SameMovementAt(s1.journal, t1.journal, path);
  }

  /** And when one run undid an action under a later edit and the other made
      that edit without the action: selective undo is as if it had never been. */
  lemma UndoneIsNeverDone(initial: Doc, s: State, one: seq<Step>, t: State, two: seq<Step>, digest: Digest,
                          rest: multiset<Change>, was: Doc, did: Doc, later: Doc)
    requires Invariant(initial, s) && OrderlyRun(s, one, digest)
    requires Invariant(initial, t) && OrderlyRun(t, two, digest)
    requires NullsShared(was, did) && NullsShared(did, later) && UndoAccepts(later, was, did)
    requires ChangesInForce(Run(s, one, digest).journal) == rest + multiset{Change(did, later)}
    requires ChangesInForce(Run(t, two, digest).journal) ==
             rest + multiset{Change(was, ApplyMergePatch(was, CreateMergePatch(did, later)))}
    ensures RecordedDocument(Run(s, one, digest)) == RecordedDocument(Run(t, two, digest))
  {
    MovementDecidesProject(initial, s, one, t, two, digest);
    UndoneUnderSameMovement(Run(s, one, digest).journal, Run(t, two, digest).journal, rest, was, did, later);
  }

  /** Once every action is undone, in any order the guards let through, the
      project is the initial document again. */
  lemma EverythingUndone(initial: Doc, s: State, steps: seq<Step>, digest: Digest)
    requires Invariant(initial, s) && OrderlyRun(s, steps, digest)
    requires var events := Run(s, steps, digest).journal;
             forall e | e in events && e.kind == Action :: !Effective(events, e.id)
    ensures RecordedDocument(Run(s, steps, digest)) == initial
  {
    var t := Run(s, steps, digest);
    RunKeeps(initial, s, steps, digest);
    NothingInForce(t.journal);
    OpenedIsAccounted(initial);
    MovementDecidesDocument(initial, RecordedDocument(t), t.journal, initial, []);
    assert forall path :: SameMovementAt(t.journal, [], path);
  }

  lemma NothingInForce(events: seq<Event>)
    requires forall e | e in events && e.kind == Action :: !Effective(events, e.id)
    ensures ChangesInForce(events) == multiset{}
  {
    forall i | 0 <= i < |events| ensures !Force(events)[i] { assert events[i] in events; }
    NoChanges(events, Force(events), |events|);
  }

  lemma {:induction false} NoChanges(events: seq<Event>, force: seq<bool>, n: nat)
    requires n <= |events| && n <= |force| && forall i | 0 <= i < n :: !force[i]
    ensures ChangesOf(events, force, n) == multiset{}
  {
    if n > 0 { NoChanges(events, force, n - 1); }
  }

  // ---------- refusals ----------

  /** A refused undo or redo, repaired: the project in memory and every action's
      standing are as before, and the disk too, unless the refusal came from a
      save that had written the merged document. */
  lemma RefusalIsNeutral(s: State, eventId: string, undo: bool, attempt: Attempt, digest: Digest, rootId: string)
    requires AllAlternate(s.journal) && IdleProject(s) && ToggleDraft(s.journal, eventId, undo).Some?
    requires attempt.storage.Succeeds? && Writes(attempt.repairStorage) && !ToggleDone(s, eventId, undo, attempt)
    ensures var t := AfterToggle(s, eventId, undo, attempt, digest);
            var landed := Lands(s, eventId, undo, attempt) && attempt.save.Unconfirmed?;
            t == s.(journal := t.journal, store := if landed then ToggledDocument(s, eventId, undo) else s.store) &&
            |t.journal| == |s.journal| + 2 && SameStanding(s.journal, t.journal, rootId)
  {
    ToggleOutcome(s, eventId, undo, attempt, digest);
    ToggleDraftToggleable(s.journal, eventId, undo);
    RepairIsNeutral(s.journal, eventId, undo, attempt.id, attempt.repairId, digest, rootId);
  }

  lemma ToggleDraftToggleable(events: seq<Event>, eventId: string, undo: bool)
    requires ToggleDraft(events, eventId, undo).Some?
    ensures Toggleable(events, eventId, undo)
  {
  }

  /** ...but the journal no longer replays to the project exactly when it was
      the guard that refused. */
  lemma RefusalBreaksReplay(initial: Doc, s: State, step: Step, digest: Digest)
    requires Invariant(initial, s) && Replays(initial, s) && Orderly(s, step) && step.Toggle? && !Strays(s, step)
    ensures Replays(initial, Next(s, step, digest)) <==> !Refused(s, step)
  {
    StepKeepsExact(initial, s, step, digest);
    if Refused(s, step) {
      var eventId, undo, attempt := step.eventId, step.undo, step.attempt;
      var middle := Execute(s.journal, ToggleCommand(eventId, undo), attempt.id, digest);
      ToggleOutcome(s, eventId, undo, attempt, digest);
      ToggleExtends(s.journal, eventId, undo, attempt.id, digest);
      RefusedChanges(initial, s, step);
      RepairExtends(s.journal, middle, eventId, undo, attempt.repairId, digest);
      RepairEffect(initial, s.memory, s.journal, middle, Next(s, step, digest).journal, eventId);
    }
  }

  /** An empty compensation is never refused, so a refused one that does not
      stray is repaired. */
  lemma RefusedChanges(initial: Doc, s: State, step: Step)
    requires step.Toggle? && Refused(s, step) && !Strays(s, step)
    ensures Writes(step.attempt.repairStorage) && !ToggleDone(s, step.eventId, step.undo, step.attempt)
  {
  }

  // ---------- failing runs ----------

  lemma UnconfirmedSaveRun(document: Doc, after: Doc, digest: Digest)
    ensures Run(Opened(document, []), [Mutate(after), Save(Unconfirmed), Finish(true)], digest) == Opened(after, [])
  {
    var saving := State(after, document, [Change(document, after)], Saving, []);
    RunThree(Opened(document, []), Mutate(after), Save(Unconfirmed), Finish(true), digest);
    assert [] + [Change(document, after)] == [Change(document, after)];
    assert Next(Opened(document, []), Mutate(after), digest) == saving;
  }

  /** An edit whose save reaches the disk and then fails to commit: the reload
      takes it, and the journal knows nothing of it. */
  lemma UnconfirmedSaveIsLost(document: Doc, after: Doc, digest: Digest)
    requires document != after
    ensures var s := Run(Opened(document, []), [Mutate(after), Save(Unconfirmed), Finish(true)], digest);
            s.queue == [] && s.memory == after && s.store == after && s.journal == [] &&
            !Accounted(document, s) && !Replays(document, s)
  {
    UnconfirmedSaveRun(document, after, digest);
    OpenedIsAccounted(document);
    if Conserved(document, after, []) { SameJournalSameDocument(document, document, after, []); }
  }

  /** An edit, saved and recorded. */
  function Edit(after: Doc, caption: Caption, id: string): seq<Step> {
    [Mutate(after), Save(Saved), RecordSaved(caption, id, Succeeds), Finish(true)]
  }

  lemma EditSteps(s: State, after: Doc, caption: Caption, id: string, digest: Digest)
    requires IdleProject(s)
    ensures var journal := Execute(s.journal, Command.Record(DraftOf(caption, s.memory, after)), id, digest);
            var saved := Next(Next(s, Mutate(after), digest), Save(Saved), digest);
            Next(Next(saved, RecordSaved(caption, id, Succeeds), digest), Finish(true), digest) ==
            State(after, after, [], Idle, journal)
  {
    var change := Change(s.memory, after);
    var saved := Next(Next(s, Mutate(after), digest), Save(Saved), digest);
    assert [] + [change] == [change] && [change][1..] == [];
    assert saved == State(after, after, [change], Recording, s.journal);
  }

  lemma EditRun(s: State, after: Doc, caption: Caption, id: string, digest: Digest)
    requires IdleProject(s)
    ensures var journal := Execute(s.journal, Command.Record(DraftOf(caption, s.memory, after)), id, digest);
            Run(s, Edit(after, caption, id), digest) == State(after, after, [], Idle, journal)
  {
    var one, two, three, four := Mutate(after), Save(Saved), RecordSaved(caption, id, Succeeds), Finish(true);
    EditSteps(s, after, caption, id, digest);
    RunThree(s, one, two, three, digest);
    RunAppend(s, [one, two, three], four, digest);
    assert [one, two, three] + [four] == Edit(after, caption, id);
  }

  lemma EditEffect(s: State, after: Doc, caption: Caption, id: string, digest: Digest)
    requires IdleProject(s) && SoundJournal(s.journal) && Conserved(map[], s.memory, s.journal)
    requires Replay(map[], s.journal) == s.memory && NullsShared(s.memory, after) && Unused(s.journal, id)
    requires DraftFor(s.journal, Command.Record(DraftOf(caption, s.memory, after))).Some?
    ensures var t := Run(s, Edit(after, caption, id), digest);
            IdleProject(t) && t.memory == after && t.store == after && SoundJournal(t.journal) &&
            Conserved(map[], after, t.journal) && Replay(map[], t.journal) == after &&
            Records(s.journal, t.journal, s.memory, after) && t.journal[|s.journal|].id == id
  {
    EditRun(s, after, caption, id, digest);
    RecordExtends(s.journal, caption, s.memory, after, id, digest);
    RecordEffect(map[], s.journal, Run(s, Edit(after, caption, id), digest).journal, s.memory, after);
  }

  function Holding(code: int): Doc {
    map["x" := Number(code)]
  }

  const EXAMPLE := Caption("Edit", "project", "root")

  /** `x` is set to one and then to two. */
  function TwoEdits(digest: Digest): State {
    Run(Run(Opened(map[], []), Edit(Holding(1), EXAMPLE, "a"), digest), Edit(Holding(2), EXAMPLE, "b"), digest)
  }

  lemma ExampleIsRecorded(events: seq<Event>, before: Doc, after: Doc)
    ensures DraftFor(events, Command.Record(DraftOf(EXAMPLE, before, after))).Some?
  {
    TrimKeepsText("Edit");
    TrimKeepsText("project");
    TrimKeepsText("root");
  }

  lemma FirstEdit(digest: Digest)
    ensures var s := Run(Opened(map[], []), Edit(Holding(1), EXAMPLE, "a"), digest);
            IdleProject(s) && s.memory == Holding(1) && SoundJournal(s.journal) &&
            Conserved(map[], s.memory, s.journal) && Replay(map[], s.journal) == s.memory &&
            |s.journal| == 1 && s.journal[0].id == "a" && s.journal[0].kind == Action &&
            ChangeOf(s.journal[0]) == Change(map[], Holding(1))
  {
    OpenedIsAccounted(map[]);
    NullFreeShares(map[], Holding(1));
    ExampleIsRecorded([], map[], Holding(1));
    EditEffect(Opened(map[], []), Holding(1), EXAMPLE, "a", digest);
  }

  lemma SecondEdit(s: State, digest: Digest)
    requires IdleProject(s) && s.memory == Holding(1) && SoundJournal(s.journal)
    requires Conserved(map[], s.memory, s.journal) && Replay(map[], s.journal) == s.memory
    requires Unused(s.journal, "b")
    ensures var t := Run(s, Edit(Holding(2), EXAMPLE, "b"), digest);
            IdleProject(t) && t.memory == Holding(2) && Invariant(map[], t) && Replays(map[], t) &&
            Extends(s.journal, t.journal) && t.journal[|s.journal|].kind == Action && t.journal[|s.journal|].id == "b"
  {
    NullFreeShares(Holding(1), Holding(2));
    ExampleIsRecorded(s.journal, Holding(1), Holding(2));
    EditEffect(s, Holding(2), EXAMPLE, "b", digest);
  }

  ghost predicate HoldsTwoEdits(s: State) {
    IdleProject(s) && s.memory == Holding(2) && Invariant(map[], s) && Replays(map[], s) &&
    |s.journal| == 2 && s.journal[0].id == "a" && s.journal[1].id == "b" &&
    s.journal[0].kind == Action && s.journal[1].kind == Action &&
    ChangeOf(s.journal[0]) == Change(map[], Holding(1))
  }

  lemma TwoEditsHold(digest: Digest)
    ensures HoldsTwoEdits(TwoEdits(digest))
  {
    FirstEdit(digest);
    SecondEdit(Run(Opened(map[], []), Edit(Holding(1), EXAMPLE, "a"), digest), digest);
  }

  const UNDO_FIRST := Toggle("a", true, Attempt("c", Succeeds, "d", Succeeds, true, Saved))

  lemma UndoOfFirstIsRefused(s: State)
    requires HoldsTwoEdits(s)
    ensures Refused(s, UNDO_FIRST) && Orderly(s, UNDO_FIRST) && !Strays(s, UNDO_FIRST)
  {
    FirstEditUndo(s.journal);
  }

  /** When the first edit is then undone, the undo is refused and repaired, and
      the journal no longer replays to the project. */
  lemma ConflictingUndoBreaksReplay(digest: Digest)
    ensures var s := TwoEdits(digest);
            Replays(map[], s) && Refused(s, UNDO_FIRST) && !Replays(map[], Next(s, UNDO_FIRST, digest))
  {
    TwoEditsHold(digest);
    UndoOfFirstIsRefused(TwoEdits(digest));
    RefusalBreaksReplay(map[], TwoEdits(digest), UNDO_FIRST, digest);
  }

  lemma FirstEditUndo(events: seq<Event>)
    requires |events| == 2 && events[0].id == "a" && events[0].kind == Action && Paired(events[0])
    requires events[1].kind == Action && events[1].id == "b" && ChangeOf(events[0]) == Change(map[], Holding(1))
    ensures var draft := ToggleDraft(events, "a", true);
            draft.Some? && !Accepts(Holding(2), draft.value.forward, draft.value.inverse)
  {
    assert events == [events[0]] + [events[1]] && [events[0]] == [] + [events[0]];
    ChainAppend([], events[0], "a");
    ChainAppend([events[0]], events[1], "a");
    MemberOfPatch(map[], Holding(1), "x");
    MemberOfPatch(Holding(1), map[], "x");
  }

  // ---------- restore points ----------

  /** A restore of the action that took `before` to `after` gives `after`
      exactly when the event names that document, not empty, or its patch
      rewrote everything. */
  lemma RestorePointExact(event: Event, before: Doc, after: Doc)
    requires event.forward == CreateMergePatch(before, after)
    requires event.afterState == None || event.afterState == Some(after)
    ensures RestorePoint(event) == after <==>
            (event.afterState == Some(after) && after != map[]) || Rewritten(before, after)
  {
    PatchIsTargetExact(before, after);
  }

  /** An action recorded from the command line names no documents: restoring it
      makes its patch the project. */
  lemma RestoreTakesPatch(s: State, step: Step, digest: Digest)
    requires IdleProject(s) && step.Restore? && step.save.Saved?
    requires var target := RestoreTarget(s, step.eventId, step.loads); target.Some? && target.value.afterState == None
    ensures var t, event := AfterRestore(s, step, digest), RestoreTarget(s, step.eventId, step.loads).value;
            t.memory == event.forward && t.store == event.forward
  {
  }

  /** One that changed `x` and kept `y` loses `y`. */
  lemma RestoredPatchLosesMember(event: Event)
    requires event.afterState == None
    requires var before: Doc := map["x" := Bool(false), "y" := Bool(true)];
             event.forward == CreateMergePatch(before, before["x" := Bool(true)])
    ensures "y" !in RestorePoint(event)
  {
    var before: Doc := map["x" := Bool(false), "y" := Bool(true)];
    MemberOfPatch(before, before["x" := Bool(true)], "y");
  }
}
