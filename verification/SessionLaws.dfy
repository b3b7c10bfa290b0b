/** What the steps of an open project do, told from their inputs alone; and what
    becomes of the edits the user makes while others are being saved. */
module SessionLaws {
  import opened Json
  import opened Text
  import opened MergePatch
  import opened Journal
  import opened ActionHistory
  import opened JournalLaws
  import opened ProjectSession
  import opened SaveQueueLaws
  import opened HistoryLedger

  // ---------- undo, redo, restore and marks ----------

  /** What an undo or redo needs to be applied, its compensation being `e`. */
  predicate Applicable(s: State, e: Event, attempt: Attempt) {
    Accepts(s.memory, e.forward, e.inverse) && attempt.storage == Succeeds && attempt.loads && attempt.save == Saved
  }

  /** An undo or a redo of an idle project is applied exactly when its guard
      accepts and append, load and save succeed: the merged document is then in
      memory and on disk, and its compensation is the one event more.  Otherwise
      the document in memory stays. */
  lemma ToggleExact(s: State, eventId: string, undo: bool, attempt: Attempt, e: Event, digest: Digest)
    requires s.phase == Idle && s.queue == [] && ToggleDraft(s.journal, eventId, undo) == Some(e)
    ensures var t, document := Next(s, Toggle(eventId, undo, attempt), digest), ApplyMergePatch(s.memory, e.forward);
            if Applicable(s, e, attempt) then
              t.memory == document && t.store == document && t.phase == Idle && t.queue == [] &&
              t.journal == s.journal + [Seal(s.journal, e, attempt.id, digest)]
            else t.memory == s.memory && t.phase == Idle && t.queue == []
    ensures ToggleDone(s, eventId, undo, attempt) <==> Applicable(s, e, attempt)
  {
  }

  /** One that the journal does not allow does nothing. */
  lemma NoToggleNoChange(s: State, eventId: string, undo: bool, attempt: Attempt, digest: Digest)
    requires s.phase != Idle || s.queue != [] || ToggleDraft(s.journal, eventId, undo) == None
    ensures Next(s, Toggle(eventId, undo, attempt), digest) == s && !ToggleDone(s, eventId, undo, attempt)
  {
  }

  /** The document an action names, or its patch when it names none. */
  function NamedDocument(e: Event): Doc {
    if e.afterState == None || e.afterState == Some(map[]) then e.forward else e.afterState.value
  }

  /** Of a journal with unique identifiers, exactly the newest two thousand
      events can be restored from. */
  lemma RestoreReach(events: seq<Event>, i: nat)
    requires UniqueIds(events) && i < |events|
    ensures Find(Recent(events), events[i].id) == if i + 2000 >= |events| then Some(events[i]) else None
  {
    var recent := Recent(events);
    var start := |events| - |recent|;
    assert forall k | 0 <= k < |recent| :: recent[k] == events[start + k];
    var found := Find(recent, events[i].id);
    if i >= start { assert recent[i - start] in recent; }
    if found.Some? {
      var k :| 0 <= k < |recent| && recent[k] == found.value;
      assert events[start + k].id == events[i].id;
      assert start + k == i;
    }
  }

  lemma TargetExact(s: State, i: nat, loads: bool)
    requires UniqueIds(s.journal) && i < |s.journal|
    ensures RestoreTarget(s, s.journal[i].id, loads) ==
            if s.journal[i].kind == Action && i + 2000 >= |s.journal| && loads then Some(s.journal[i]) else None
    ensures RestorePoint(s.journal[i]) == NamedDocument(s.journal[i])
  {
    RestoreReach(s.journal, i);
  }

  /** The record a restore of `e` makes, filed where `e` is. */
  function RestoreRecord(s: State, e: Event, title: string): Command {
    Command.Record(DraftOf(Caption(title, e.contextKey, e.elementId), s.memory, NamedDocument(e)))
  }

  /** Restoring an event of an idle project makes the document it names the
      project exactly when it is an action among the newest two thousand events
      and its document loads and saves; and that is recorded. */
  lemma RestoreExact(s: State, i: nat, caption: Caption, id: string, storage: Storage, loads: bool,
                     save: SaveOutcome, digest: Digest)
    requires s.phase == Idle && s.queue == [] && UniqueIds(s.journal) && i < |s.journal|
    ensures var e := s.journal[i];
            var t := Next(s, Restore(e.id, caption, id, storage, loads, save), digest);
            if e.kind == Action && i + 2000 >= |s.journal| && loads && save == Saved then
              t.memory == NamedDocument(e) && t.store == NamedDocument(e) &&
              t.journal == if Writes(storage) then Execute(s.journal, RestoreRecord(s, e, caption.title), id, digest)
                           else s.journal
            else t.memory == s.memory && t.journal == s.journal
  {
    TargetExact(s, i, loads);
  }

  /** It is reported as done exactly when the record succeeds too. */
  lemma RestoreReportsExact(s: State, i: nat, caption: Caption, id: string, storage: Storage, loads: bool,
                            save: SaveOutcome)
    requires s.phase == Idle && s.queue == [] && UniqueIds(s.journal) && i < |s.journal|
    ensures var e := s.journal[i];
            RestoreDone(s, Restore(e.id, caption, id, storage, loads, save)) <==>
            e.kind == Action && i + 2000 >= |s.journal| && loads && save == Saved && storage == Succeeds &&
            DraftFor(s.journal, RestoreRecord(s, e, caption.title)).Some?
  {
    TargetExact(s, i, loads);
  }

  /** A bookmark or lane of an idle project is appended exactly when the journal
      allows it and the append is written. */
  lemma MarkExact(s: State, command: Command, id: string, storage: Storage, digest: Digest)
    requires s.phase == Idle && s.queue == []
    requires command.CreateBookmark? || command.CreateBranch? || command.SwitchBranch?
    ensures var t := Next(s, Mark(command, id, storage), digest);
            t == s.(journal := if Writes(storage) then Execute(s.journal, command, id, digest) else s.journal)
    ensures MarkDone(s, command, storage) <==> storage == Succeeds && DraftFor(s.journal, command).Some?
  {
  }

  // ---------- no edit is lost ----------

  /** The documents the edits of these steps asked for, in order. */
  function Asked(steps: seq<Step>): seq<Doc> {
    if steps == [] then []
    else
      var front, last := Asked(steps[..|steps| - 1]), steps[|steps| - 1];
      if last.Mutate? then front + [last.after] else front
  }

  /** The changes from each document to the next. */
  function Along(documents: seq<Doc>): (changes: seq<Change>)
    requires documents != []
    ensures |changes| == |documents| - 1
  {
    seq(|documents| - 1, i requires 0 <= i < |documents| - 1 => Change(documents[i], documents[i + 1]))
  }

  /** The changes of the recorded actions, in order. */
  function Recorded(events: seq<Event>): seq<Change> {
    if events == [] then []
    else
      var front, last := Recorded(events[..|events| - 1]), events[|events| - 1];
      if last.kind == Action then front + [ChangeOf(last)] else front
  }

  /** No save and no record fails, and the project is not set back. */
  predicate Smooth(step: Step) {
    match step
    case Save(outcome) => outcome == Saved
    case RecordSaved(caption, _, storage) =>
      Writes(storage) && Trim(caption.title) != "" && Trim(caption.contextKey) != "" && Trim(caption.elementId) != ""
    case Toggle(_, _, _) => false
    case Restore(_, _, _, _, _, _) => false
    case _ => true
  }

  /** The changes along `documents` are those saved and those queued, in order;
      the saved ones are recorded, and the head too once it is. */
  ghost predicate EditsKept(documents: seq<Doc>, recorded: seq<Change>, saved: seq<Change>, t: State)
    requires documents != []
  {
    Along(documents) == saved + t.queue && t.memory == documents[|documents| - 1] &&
    (t.phase == Idle <==> t.queue == []) && t.phase != Reporting(false) &&
    t.store == documents[if t.phase in {Recording, Reporting(true)} then |saved| + 1 else |saved|] &&
    Recorded(t.journal) == recorded + if t.phase == Reporting(true) then saved + [t.queue[0]] else saved
  }

  lemma RecordedAppend(events: seq<Event>, longer: seq<Event>)
    requires |longer| == |events| + 1 && events <= longer
    ensures Recorded(longer) ==
            if longer[|events|].kind == Action then Recorded(events) + [ChangeOf(longer[|events|])]
            else Recorded(events)
  {
    assert longer[..|events|] == events;
  }

  lemma AlongAppend(documents: seq<Doc>, after: Doc)
    requires documents != []
    ensures Along(documents + [after]) == Along(documents) + [Change(documents[|documents| - 1], after)]
  {
  }

  lemma MutateKeepsEdits(documents: seq<Doc>, recorded: seq<Change>, saved: seq<Change>, s: State, after: Doc,
                         digest: Digest)
    requires documents != [] && EditsKept(documents, recorded, saved, s)
    ensures EditsKept(documents + [after], recorded, saved, Next(s, Mutate(after), digest))
  {
    AlongAppend(documents, after);
    assert (saved + s.queue) + [Change(s.memory, after)] == saved + (s.queue + [Change(s.memory, after)]);
  }

  lemma SaveKeepsEdits(documents: seq<Doc>, recorded: seq<Change>, saved: seq<Change>, s: State, digest: Digest)
    requires documents != [] && EditsKept(documents, recorded, saved, s)
    ensures EditsKept(documents, recorded, saved, Next(s, Save(Saved), digest))
  {
    if s.queue != [] { assert s.queue[0] == Along(documents)[|saved|]; }
  }

  lemma RecordRecords(events: seq<Event>, caption: Caption, change: Change, id: string, digest: Digest)
    requires Trim(caption.title) != "" && Trim(caption.contextKey) != "" && Trim(caption.elementId) != ""
    ensures var command := Command.Record(DraftOf(caption, change.before, change.after));
            Recorded(Execute(events, command, id, digest)) == Recorded(events) + [change]
  {
    var draft := DraftOf(caption, change.before, change.after);
    RecordExact(events, draft, id, digest);
    RecordedAppend(events, Execute(events, Command.Record(draft), id, digest));
  }

  lemma RecordKeepsEdits(documents: seq<Doc>, recorded: seq<Change>, saved: seq<Change>, s: State, step: Step,
                         digest: Digest)
    requires documents != [] && EditsKept(documents, recorded, saved, s) && step.RecordSaved? && Smooth(step)
    ensures EditsKept(documents, recorded, saved, Next(s, step, digest))
  {
    if s.phase == Recording && s.queue != [] {
      RecordRecords(s.journal, step.caption, s.queue[0], step.id, digest);
      assert recorded + saved + [s.queue[0]] == recorded + (saved + [s.queue[0]]);
    }
  }

  lemma FinishKeepsEdits(documents: seq<Doc>, recorded: seq<Change>, saved: seq<Change>, s: State, reloads: bool,
                         digest: Digest)
    requires documents != [] && EditsKept(documents, recorded, saved, s)
    ensures var now := if s.phase == Reporting(true) then saved + [s.queue[0]] else saved;
            EditsKept(documents, recorded, now, Next(s, Finish(reloads), digest))
  {
    if s.phase == Reporting(true) {
      assert saved + s.queue == (saved + [s.queue[0]]) + s.queue[1..];
    }
  }

  lemma MarkRecordsNothing(events: seq<Event>, command: Command, id: string, digest: Digest)
    requires IsMark(command)
    ensures Recorded(Execute(events, command, id, digest)) == Recorded(events)
  {
    var journal := Execute(events, command, id, digest);
    match command {
      case CreateBookmark(name, eventId) => BookmarkExact(events, name, eventId, id, digest);
      case CreateBranch(name, eventId) => BranchExact(events, name, eventId, id, digest);
      case SwitchBranch(name) => SwitchExact(events, name, id, digest);
    }
    if journal != events { RecordedAppend(events, journal); }
  }

  lemma MarkKeepsEdits(documents: seq<Doc>, recorded: seq<Change>, saved: seq<Change>, s: State, step: Step,
                       digest: Digest)
    requires documents != [] && EditsKept(documents, recorded, saved, s) && step.Mark?
    ensures EditsKept(documents, recorded, saved, Next(s, step, digest))
  {
    if IdleProject(s) && IsMark(step.command) {
      MarkRecordsNothing(s.journal, step.command, step.id, digest);
      MarkExact(s, step.command, step.id, step.storage, digest);
    }
  }

  lemma StepKeepsEdits(documents: seq<Doc>, recorded: seq<Change>, saved: seq<Change>, s: State, step: Step,
                       digest: Digest)
    returns (now: seq<Change>)
    requires documents != [] && EditsKept(documents, recorded, saved, s) && Smooth(step)
    ensures EditsKept(documents + if step.Mutate? then [step.after] else [], recorded, now, Next(s, step, digest))
  {
    assert documents + [] == documents;
    now := saved;
    match step
    case Mutate(after) => MutateKeepsEdits(documents, recorded, saved, s, after, digest);
    case Save(_) => SaveKeepsEdits(documents, recorded, saved, s, digest);
    case RecordSaved(_, _, _) => RecordKeepsEdits(documents, recorded, saved, s, step, digest);
    case Finish(reloads) =>
      FinishKeepsEdits(documents, recorded, saved, s, reloads, digest);
      if s.phase == Reporting(true) { now := saved + [s.queue[0]]; }
    case Mark(_, _, _) => MarkKeepsEdits(documents, recorded, saved, s, step, digest);
  }

  lemma NothingAskedYet(s: State)
    requires s.phase == Idle && s.queue == [] && s.store == s.memory
    ensures EditsKept([s.memory], Recorded(s.journal), [], s)
  {
    assert Along([s.memory]) == [] + s.queue;
  }

  lemma AskedAppend(before: Doc, steps: seq<Step>)
    requires steps != []
    ensures var front, last := steps[..|steps| - 1], steps[|steps| - 1];
            [before] + Asked(steps) == [before] + Asked(front) + if last.Mutate? then [last.after] else []
  {
  }

  predicate AllSmooth(steps: seq<Step>) {
    steps == [] || (AllSmooth(steps[..|steps| - 1]) && Smooth(steps[|steps| - 1]))
  }

  /** However edits, the worker's steps and its completions interleave, as long
      as no save or record fails: memory holds the last document asked for; the
      changes not yet saved are queued, in order; and the saved ones are in the
      journal, in order, none twice and none left out. */
  lemma {:induction false} EditsAreConserved(s: State, steps: seq<Step>, digest: Digest) returns (saved: seq<Change>)
    requires s.phase == Idle && s.queue == [] && s.store == s.memory && AllSmooth(steps)
    ensures EditsKept([s.memory] + Asked(steps), Recorded(s.journal), saved, Run(s, steps, digest))
  {
    if steps == [] {
      NothingAskedYet(s);
      assert [s.memory] + Asked(steps) == [s.memory];
      saved := [];
    } else {
      var front, last := steps[..|steps| - 1], steps[|steps| - 1];
      saved := EditsAreConserved(s, front, digest);
      var documents := [s.memory] + Asked(front);
      saved := StepKeepsEdits(documents, Recorded(s.journal), saved, Run(s, front, digest), last, digest);
      AskedAppend(s.memory, steps);
    }
  }
}
