/** The open project: the document in memory, the document on disk, the queue
    of background saves and the action journal.  One worker saves and records
    the head of the queue while the user goes on editing; undo, redo and
    restore run only when that machinery is idle. */
module ProjectSession {
  import opened Json
  import opened MergePatch
  import opened Journal
  import opened ActionHistory

  /** Where the worker is with the head of the queue. */
  datatype Phase = Idle | Saving | Recording | Reporting(saved: bool)

  datatype State = State(memory: Doc, store: Doc, queue: seq<Change>, phase: Phase, journal: seq<Event>)

  /** How saving a project document ends: it never reaches the disk; it does,
      but its commit or its automatic export fails; or everything succeeds. */
  datatype SaveOutcome = Rejected | Unconfirmed | Saved

  /** How an action is described in the journal. */
  datatype Caption = Caption(title: string, contextKey: string, elementId: string)

  /** How the storage behaves during one undo or redo: the journal append, the
      repairing append, whether the merged document loads, and how it saves. */
  datatype Attempt = Attempt(id: string, storage: Storage, repairId: string, repairStorage: Storage,
                             loads: bool, save: SaveOutcome)

  datatype Step =
    | Mutate(after: Doc)
    | Save(outcome: SaveOutcome)
    | RecordSaved(caption: Caption, id: string, storage: Storage)
    | Finish(reloads: bool)
    | Toggle(eventId: string, undo: bool, attempt: Attempt)
    | Restore(eventId: string, caption: Caption, id: string, storage: Storage, loads: bool,
              save: SaveOutcome)
    | Mark(command: Command, id: string, storage: Storage)

  // ---------- one step ----------

  function DraftOf(caption: Caption, before: Doc, after: Doc): Draft {
    Draft(caption.title, caption.contextKey, caption.elementId, "",
          CreateMergePatch(before, after), CreateMergePatch(after, before), Some(before), Some(after))
  }

  /** The journal after one append, whether or not it reports success. */
  function Written(events: seq<Event>, command: Command, id: string, storage: Storage, digest: Digest): seq<Event> {
    if Writes(storage) then Execute(events, command, id, digest) else events
  }

  function BeginNext(s: State): State {
    if s.phase != Idle || s.queue == [] then s else s.(phase := Saving)
  }

  predicate IdleProject(s: State) {
    s.phase == Idle && s.queue == []
  }

  /** What the disk holds after a save. */
  function DiskAfter(store: Doc, document: Doc, outcome: SaveOutcome): Doc {
    if outcome.Rejected? then store else document
  }

  /** The compensation is appended and passes its guard, and its result loads. */
  predicate Lands(s: State, eventId: string, undo: bool, attempt: Attempt) {
    attempt.storage.Succeeds? && attempt.loads &&
    match ToggleDraft(s.journal, eventId, undo)
    case None => false
    case Some(event) => Accepts(s.memory, event.forward, event.inverse)
  }

  /** The document a toggle that lands saves. */
  function ToggledDocument(s: State, eventId: string, undo: bool): Doc {
    match ToggleDraft(s.journal, eventId, undo)
    case None => s.memory
    case Some(event) => ApplyMergePatch(s.memory, event.forward)
  }

  /** The journal with the compensation, and with its repair unless it is applied. */
  function ToggleJournal(s: State, eventId: string, undo: bool, attempt: Attempt, digest: Digest): seq<Event> {
    var journal := Written(s.journal, ToggleCommand(eventId, undo), attempt.id, attempt.storage, digest);
    if ToggleDraft(s.journal, eventId, undo).None? || !attempt.storage.Succeeds? then journal
    else if Lands(s, eventId, undo, attempt) && attempt.save.Saved? then journal
    else Written(journal, ToggleCommand(eventId, !undo), attempt.repairId, attempt.repairStorage, digest)
  }

  function AfterToggle(s: State, eventId: string, undo: bool, attempt: Attempt, digest: Digest): State {
    var document := if Lands(s, eventId, undo, attempt) then ToggledDocument(s, eventId, undo) else s.store;
    s.(memory := if Lands(s, eventId, undo, attempt) && attempt.save.Saved? then document else s.memory,
       store := DiskAfter(s.store, document, attempt.save),
       journal := ToggleJournal(s, eventId, undo, attempt, digest))
  }

  const MAXIMUM_EVENTS := 2000

  function Recent(events: seq<Event>): seq<Event> {
    if |events| <= MAXIMUM_EVENTS then events else events[|events| - MAXIMUM_EVENTS..]
  }

  /** The document a restore point stands for. */
  function RestorePoint(event: Event): Doc {
    match event.afterState
    case None => event.forward
    case Some(after) => if after == map[] then event.forward else after
  }

  /** The action a restore goes back to, if it is recent enough and loads. */
  function RestoreTarget(s: State, eventId: string, loads: bool): Option<Event> {
    match Find(Recent(s.journal), eventId)
    case None => None
    case Some(event) => if event.kind == Action && loads then Some(event) else None
  }

  function RestoreCommand(s: State, event: Event, caption: Caption): Command {
    Command.Record(DraftOf(Caption(caption.title, event.contextKey, event.elementId), s.memory, RestorePoint(event)))
  }

  function AfterRestore(s: State, step: Step, digest: Digest): State
    requires step.Restore?
  {
    match RestoreTarget(s, step.eventId, step.loads)
    case None => s
    case Some(event) =>
      var document := RestorePoint(event);
      if !step.save.Saved? then s.(store := DiskAfter(s.store, document, step.save))
      else
        var command := RestoreCommand(s, event, step.caption);
        s.(memory := document, store := document,
           journal := Written(s.journal, command, step.id, step.storage, digest))
  }

  function AfterFinish(s: State, reloads: bool): State
    requires s.phase.Reporting?
  {
    if s.queue == [] then s.(phase := Idle)
    else if s.phase.saved then BeginNext(s.(queue := s.queue[1..], phase := Idle))
    else s.(queue := [], phase := Idle, memory := if reloads then s.store else s.memory)
  }

  predicate IsMark(command: Command) {
    command.CreateBookmark? || command.CreateBranch? || command.SwitchBranch?
  }

  /** What one step does; a step the current phase does not offer does nothing. */
  function Next(s: State, step: Step, digest: Digest): State {
    match step
    case Mutate(after) =>
      BeginNext(s.(memory := after, queue := s.queue + [Change(s.memory, after)]))
    case Save(outcome) =>
      if s.phase != Saving || s.queue == [] then s
      else
        s.(store := DiskAfter(s.store, s.queue[0].after, outcome),
           phase := if outcome.Saved? then Recording else Reporting(false))
    case RecordSaved(caption, id, storage) =>
      if s.phase != Recording || s.queue == [] then s
      else
        var command := Command.Record(DraftOf(caption, s.queue[0].before, s.queue[0].after));
        s.(journal := Written(s.journal, command, id, storage, digest), phase := Reporting(true))
    case Finish(reloads) =>
      if s.phase.Reporting? then AfterFinish(s, reloads) else s
    case Toggle(eventId, undo, attempt) =>
      if IdleProject(s) then AfterToggle(s, eventId, undo, attempt, digest) else s
    case Restore(_, _, _, _, _, _) =>
      if IdleProject(s) then AfterRestore(s, step, digest) else s
    case Mark(command, id, storage) =>
      if IdleProject(s) && IsMark(command) then
        s.(journal := Written(s.journal, command, id, storage, digest))
      else s
  }

  function Run(s: State, steps: seq<Step>, digest: Digest): State {
    if steps == [] then s
    else Next(Run(s, steps[..|steps| - 1], digest), steps[|steps| - 1], digest)
  }

  /** A project as it is opened: nothing queued, memory read from disk. */
  function Opened(document: Doc, journal: seq<Event>): State {
    State(document, document, [], Idle, journal)
  }

  // ---------- what the user is told ----------

  /** An undo or redo succeeds. */
  predicate ToggleDone(s: State, eventId: string, undo: bool, attempt: Attempt) {
    IdleProject(s) && Lands(s, eventId, undo, attempt) && attempt.save.Saved?
  }

  predicate RestoreDone(s: State, step: Step)
    requires step.Restore?
  {
    IdleProject(s) && step.save.Saved? && step.storage.Succeeds? &&
    match RestoreTarget(s, step.eventId, step.loads)
    case None => false
    case Some(event) => DraftFor(s.journal, RestoreCommand(s, event, step.caption)).Some?
  }

  predicate MarkDone(s: State, command: Command, storage: Storage) {
    IdleProject(s) && storage.Succeeds? && DraftFor(s.journal, command).Some?
  }
}
