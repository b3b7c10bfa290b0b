/** The controller's own methods over the open project.  Each is one step of
    the session it is proved against; an unreadable journal only ever makes it
    do less. */
module ProjectController {
  import opened Json
  import opened MergePatch
  import opened Journal
  import opened ActionHistory
  import opened JournalLaws
  import opened ProjectSession

  class Controller {
    const history: History
    var project: Doc
    var stored: Doc
    var queue: seq<Change>
    var phase: Phase

    constructor (history: History, document: Doc)
      ensures this.history == history && View() == Opened(document, Entries(history.file))
    {
      this.history := history;
      project, stored, queue, phase := document, document, [], Idle;
    }

    ghost function View(): State
      reads this, history
    {
      State(project, stored, queue, phase, Entries(history.file))
    }

    ghost predicate Readable()
      reads this, history
    {
      Loads(history.file, history.digest)
    }

    method MutateProject(after: Doc)
      modifies this
      ensures View() == Next(old(View()), Mutate(after), history.digest)
    {
      var before := project;
      project := after;
      queue := queue + [Change(before, after)];
      BeginNextProjectMutation();
    }

    method BeginNextProjectMutation()
      modifies this`phase
      ensures View() == BeginNext(old(View()))
    {
      if phase != Idle || queue == [] { return; }
      phase := Saving;
    }

    /** The worker's first half: the head's document goes to disk, or not. */
    method WorkerSave(outcome: SaveOutcome)
      modifies this
      ensures View() == Next(old(View()), Save(outcome), history.digest)
    {
      if phase != Saving || queue == [] { return; }
      if !outcome.Rejected? { stored := queue[0].after; }
      phase := if outcome.Saved? then Recording else Reporting(false);
    }

    /** The worker's second half: the saved change goes to the journal. */
    method WorkerRecord(caption: Caption, id: string, storage: Storage)
      modifies this, history
      ensures old(Readable()) ==> View() == Next(old(View()), RecordSaved(caption, id, storage), history.digest)
      ensures !old(Readable()) ==>
                history.file == old(history.file) &&
                View() == if old(phase == Recording && queue != []) then old(View()).(phase := Reporting(true))
                          else old(View())
    {
      if phase != Recording || queue == [] { return; }
      var draft := DraftOf(caption, queue[0].before, queue[0].after);
      var ok, created := history.RecordAction(draft, id, storage);
      AppendsIsWritten(old(history.file), history.file, ok, Command.Record(draft), id, storage, history.digest);
      phase := Reporting(true);
    }

    /** The completion on the user's thread. */
    method FinishProjectMutation(reloads: bool)
      modifies this
      ensures View() == Next(old(View()), Finish(reloads), history.digest)
    {
      if !phase.Reporting? { return; }
      var saved := phase.saved;
      if queue == [] {
        phase := Idle;
        return;
      }
      queue := queue[1..];
      phase := Idle;
      if !saved {
        queue := [];
        if reloads { project := stored; }
      }
      BeginNextProjectMutation();
    }

    /** Applies a compensation to the current project, if its guard passes and
        the merged document loads and saves; a save that fails late leaves the
        merged document on disk all the same. */
    method ApplyHistoryState(event: Event, loads: bool, save: SaveOutcome) returns (ok: bool)
      modifies this`project, this`stored
      ensures var landed := Accepts(old(project), event.forward, event.inverse) && loads;
              var document := ApplyMergePatch(old(project), event.forward);
              (ok <==> landed && save.Saved?) && project == (if ok then document else old(project)) &&
              stored == if landed && !save.Rejected? then document else old(stored)
    {
      var merged := ApplyMergePatchGuarded(project, event.forward, event.inverse);
      if !merged.applied || !loads { return false; }
      if !save.Rejected? { stored := merged.state; }
      if !save.Saved? { return false; }
      project := merged.state;
      return true;
    }

    /** The journal half of an undo or redo. */
    method AppendToggle(eventId: string, undo: bool, id: string, storage: Storage)
      returns (done: bool, compensation: Option<Event>)
      modifies history
      ensures old(Readable()) ==>
                Entries(history.file) ==
                Written(old(Entries(history.file)), ToggleCommand(eventId, undo), id, storage, history.digest)
      ensures var draft := ToggleDraft(old(Entries(history.file)), eventId, undo);
              (done <==> old(Readable()) && storage.Succeeds? && draft.Some?) &&
              (done ==> compensation.Some? && compensation.value.forward == draft.value.forward &&
                        compensation.value.inverse == draft.value.inverse)
      ensures !old(Readable()) ==> history.file == old(history.file)
      ensures old(Readable()) && Fresh(old(Entries(history.file)), id, history.digest) ==> Readable()
    {
      ghost var before, command := history.file, ToggleCommand(eventId, undo);
      if undo { done, compensation := history.UndoAction(eventId, id, storage); }
      else { done, compensation := history.RedoAction(eventId, id, storage); }
      AppendsIsWritten(before, history.file, done, command, id, storage, history.digest);
      if old(Readable()) && Fresh(Entries(before), id, history.digest) {
        ExecuteKeepsChained(Entries(before), command, id, history.digest);
      }
    }

    /** Appends the compensation, applies it, and repairs the journal when the
        project refuses it. */
    method ToggleHistoryEvent(eventId: string, undo: bool, attempt: Attempt) returns (ok: bool)
      requires Fresh(Entries(history.file), attempt.id, history.digest)
      modifies this, history
      ensures old(Readable()) ==> View() == Next(old(View()), Toggle(eventId, undo, attempt), history.digest)
      ensures !old(Readable()) ==> View() == old(View())
      ensures var draft := ToggleDraft(Entries(old(history.file)), eventId, undo);
              (ok <==> old(Readable()) && old(phase == Idle && queue == []) && draft.Some? &&
                       Accepts(old(project), draft.value.forward, draft.value.inverse) &&
                       attempt.storage == Succeeds && attempt.loads && attempt.save == Saved) &&
              (ok ==> project == stored == ApplyMergePatch(old(project), draft.value.forward))
    {
      if phase != Idle || queue != [] { return false; }
      var done, compensation := AppendToggle(eventId, undo, attempt.id, attempt.storage);
      if !done { return false; }
      ok := ApplyHistoryState(compensation.value, attempt.loads, attempt.save);
      if !ok {
        var repaired, repair := AppendToggle(eventId, !undo, attempt.repairId, attempt.repairStorage);
      }
    }

    method UndoHistoryEvent(eventId: string, attempt: Attempt) returns (ok: bool)
      requires Fresh(Entries(history.file), attempt.id, history.digest)
      modifies this, history
      ensures old(Readable()) ==> View() == Next(old(View()), Toggle(eventId, true, attempt), history.digest)
      ensures !old(Readable()) ==> View() == old(View())
      ensures var draft := ToggleDraft(Entries(old(history.file)), eventId, true);
              (ok <==> old(Readable()) && old(phase == Idle && queue == []) && draft.Some? &&
                       Accepts(old(project), draft.value.forward, draft.value.inverse) &&
                       attempt.storage == Succeeds && attempt.loads && attempt.save == Saved) &&
              (ok ==> project == stored == ApplyMergePatch(old(project), draft.value.forward))
    {
      ok := ToggleHistoryEvent(eventId, true, attempt);
    }

    method RedoHistoryEvent(eventId: string, attempt: Attempt) returns (ok: bool)
      requires Fresh(Entries(history.file), attempt.id, history.digest)
      modifies this, history
      ensures old(Readable()) ==> View() == Next(old(View()), Toggle(eventId, false, attempt), history.digest)
      ensures !old(Readable()) ==> View() == old(View())
      ensures var draft := ToggleDraft(Entries(old(history.file)), eventId, false);
              (ok <==> old(Readable()) && old(phase == Idle && queue == []) && draft.Some? &&
                       Accepts(old(project), draft.value.forward, draft.value.inverse) &&
                       attempt.storage == Succeeds && attempt.loads && attempt.save == Saved) &&
              (ok ==> project == stored == ApplyMergePatch(old(project), draft.value.forward))
    {
      ok := ToggleHistoryEvent(eventId, false, attempt);
    }

    method RestoreHistoryEvent(eventId: string, caption: Caption, id: string, storage: Storage, loads: bool,
                               save: SaveOutcome)
      returns (ok: bool)
      modifies this, history
      ensures var step := Restore(eventId, caption, id, storage, loads, save);
              (old(Readable()) ==> View() == Next(old(View()), step, history.digest)) &&
              (!old(Readable()) ==> View() == old(View())) &&
              (ok <==> old(Readable()) && RestoreDone(old(View()), step))
    {
      if phase != Idle || queue != [] { return false; }
      var events := LoadAll(history.file, history.digest);
      if events.None? { return false; }
      var selected := Find(Recent(events.value), eventId);
      if selected.None? || selected.value.kind != Action { return false; }
      var before, document := project, RestorePoint(selected.value);
      if !loads { return false; }
      if !save.Rejected? { stored := document; }
      if !save.Saved? { return false; }
      project := document;
      var described := Caption(caption.title, selected.value.contextKey, selected.value.elementId);
      var draft := DraftOf(described, before, document);
      var recorded, created := history.RecordAction(draft, id, storage);
      AppendsIsWritten(old(history.file), history.file, recorded, Command.Record(draft), id, storage, history.digest);
      return recorded;
    }

    method BookmarkHistoryEvent(eventId: string, name: string, id: string, storage: Storage) returns (ok: bool)
      modifies this, history
      ensures var command := CreateBookmark(name, eventId);
              (old(Readable()) ==> View() == Next(old(View()), Mark(command, id, storage), history.digest)) &&
              (!old(Readable()) ==> View() == old(View())) &&
              (ok <==> old(Readable()) && MarkDone(old(View()), command, storage))
    {
      if phase != Idle || queue != [] { return false; }
      var done, created := history.AddBookmark(name, eventId, id, storage);
      var command := CreateBookmark(name, eventId);
      AppendsIsWritten(old(history.file), history.file, done, command, id, storage, history.digest);
      return done;
    }

    method BranchHistoryEvent(eventId: string, name: string, id: string, storage: Storage) returns (ok: bool)
      modifies this, history
      ensures var command := CreateBranch(name, eventId);
              (old(Readable()) ==> View() == Next(old(View()), Mark(command, id, storage), history.digest)) &&
              (!old(Readable()) ==> View() == old(View())) &&
              (ok <==> old(Readable()) && MarkDone(old(View()), command, storage))
    {
      if phase != Idle || queue != [] { return false; }
      var done, created := history.AddBranch(name, eventId, id, storage);
      AppendsIsWritten(old(history.file), history.file, done, CreateBranch(name, eventId), id, storage, history.digest);
      return done;
    }

    method SwitchHistoryBranch(name: string, id: string, storage: Storage) returns (ok: bool)
      modifies this, history
      ensures var command := SwitchBranch(name);
              (old(Readable()) ==> View() == Next(old(View()), Mark(command, id, storage), history.digest)) &&
              (!old(Readable()) ==> View() == old(View())) &&
              (ok <==> old(Readable()) && MarkDone(old(View()), command, storage))
    {
      if phase != Idle || queue != [] { return false; }
      var done, created := history.SelectBranch(name, id, storage);
      AppendsIsWritten(old(history.file), history.file, done, SwitchBranch(name), id, storage, history.digest);
      return done;
    }
  }

  /** The journal file's append and the session's journal step are the same. */
  lemma AppendsIsWritten(before: seq<Line>, after: seq<Line>, ok: bool, command: Command, id: string, storage: Storage,
                         digest: Digest)
    requires Appends(before, after, ok, DraftFor(Entries(before), command), id, storage, digest)
    ensures Loads(before, digest) ==>
              Entries(after) == Written(Entries(before), command, id, storage, digest) &&
              (ok <==> DraftFor(Entries(before), command).Some? && storage.Succeeds?)
    ensures !Loads(before, digest) ==> after == before && !ok
    ensures Garbled !in before ==> Garbled !in after
  {
    var draft := DraftFor(Entries(before), command);
    if draft.Some? { EntriesOfLines(Entries(before) + [Seal(Entries(before), draft.value, id, digest)]); }
  }
}
