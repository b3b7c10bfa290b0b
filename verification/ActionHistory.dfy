/** The history commands.  Each appends at most one event; none edits or
    removes an older one. */
module ActionHistory {
  import opened Json
  import opened Text
  import opened Journal

  datatype Draft = Draft(
    title: string, contextKey: string, elementId: string, branch: string, forward: Doc, inverse: Doc,
    beforeState: Option<Doc>, afterState: Option<Doc>)

  datatype Command =
    | Record(draft: Draft)
    | Undo(eventId: string)
    | Redo(eventId: string)
    | Compensate(eventId: string)
    | CreateBookmark(name: string, eventId: string)
    | CreateBranch(name: string, eventId: string)
    | SwitchBranch(name: string)

  // ---------- the event a command appends ----------

  /** Trims and turns every run of whitespace into one space. */
  function Simplify(text: string): string {
    Collapse(Trim(text))
  }

  function Collapse(text: string): string
    decreases |text|
  {
    if text == "" then ""
    else if IsSpace(text[0]) then " " + Collapse(TrimLeft(text[1..]))
    else [text[0]] + Collapse(text[1..])
  }

  function Blueprint(kind: Kind, title: string, contextKey: string, elementId: string, branch: string): Event {
    Event(CURRENT_SCHEMA_VERSION, 0, "", kind, title, contextKey, elementId, branch,
          map[], map[], None, None, "", "", "", "")
  }

  function RecordDraft(events: seq<Event>, draft: Draft): Option<Event> {
    if IsBlank(draft.title) || IsBlank(draft.contextKey) || IsBlank(draft.elementId) then None
    else if draft.branch != "" && !(ValidLane(draft.branch) && KnownBranch(events, draft.branch)) then None
    else
      var event := Blueprint(Action, Simplify(draft.title), Trim(draft.contextKey), Trim(draft.elementId),
                             Trim(draft.branch));
      Some(event.(forward := draft.forward, inverse := draft.inverse,
                  beforeState := draft.beforeState, afterState := draft.afterState))
  }

  function ToggleDraft(events: seq<Event>, eventId: string, requireEffective: bool): Option<Event> {
    match Find(events, eventId)
    case None => None
    case Some(selected) =>
      var rootId := RootIdFor(selected);
      var chain := Chain(events, rootId);
      if rootId == "" || chain == [] || Effective(events, rootId) != requireEffective then None
      else
        var root, tail := chain[0], chain[|chain| - 1];
        var title := (if requireEffective then "Undo " else "Redo ") + root.title;
        var event := Blueprint(Compensation, title, root.contextKey, root.elementId, CurrentBranch(events));
        Some(event.(forward := tail.inverse, inverse := tail.forward, target := tail.id, root := root.id))
  }

  function CompensateDraft(events: seq<Event>, eventId: string): Option<Event> {
    match Find(events, eventId)
    case None => None
    case Some(selected) =>
      var chain := Chain(events, RootIdFor(selected));
      if chain == [] || chain[|chain| - 1].id != eventId then None
      else ToggleDraft(events, eventId, |chain| % 2 == 1)
  }

  /** The event a bookmark or lane starts from: the one named, or the newest. */
  function Anchor(events: seq<Event>, eventId: string): Option<Event> {
    if eventId != "" then Find(events, eventId)
    else if events == [] then None
    else Some(events[|events| - 1])
  }

  function BookmarkDraft(events: seq<Event>, name: string, eventId: string): Option<Event> {
    var clean, anchor := Simplify(name), Anchor(events, eventId);
    if clean == "" || |clean| > 80 || (eventId != "" && anchor.None?) then None
    else
      Some(match anchor
           case None => Blueprint(Bookmark, clean, "project", "root", CurrentBranch(events))
           case Some(e) =>
             Blueprint(Bookmark, clean, e.contextKey, e.elementId, CurrentBranch(events)).(target := e.id))
  }

  function BranchDraft(events: seq<Event>, name: string, eventId: string): Option<Event> {
    var clean, anchor := Trim(name), Anchor(events, eventId);
    if !ValidLane(clean) || KnownBranch(events, clean) || (eventId != "" && anchor.None?) then None
    else
      Some(match anchor
           case None => Blueprint(Branch, clean, "project", "root", clean)
           case Some(e) => Blueprint(Branch, clean, e.contextKey, e.elementId, clean).(target := e.id))
  }

  function SwitchDraft(events: seq<Event>, name: string): Option<Event> {
    if KnownBranch(events, Trim(name)) then
      Some(Blueprint(Branch, Trim(name), "history", "branch-selector", Trim(name)))
    else None
  }

  function DraftFor(events: seq<Event>, command: Command): Option<Event> {
    match command
    case Record(draft) => RecordDraft(events, draft)
    case Undo(eventId) => ToggleDraft(events, eventId, true)
    case Redo(eventId) => ToggleDraft(events, eventId, false)
    case Compensate(eventId) => CompensateDraft(events, eventId)
    case CreateBookmark(name, eventId) => BookmarkDraft(events, name, eventId)
    case CreateBranch(name, eventId) => BranchDraft(events, name, eventId)
    case SwitchBranch(name) => SwitchDraft(events, name)
  }

  function ToggleCommand(eventId: string, undo: bool): Command {
    if undo then Undo(eventId) else Redo(eventId)
  }

  /** Numbers, names and links an event, then hashes it. */
  function Seal(events: seq<Event>, event: Event, id: string, digest: Digest): Event {
    var branch := if IsBlank(event.branch) then CurrentBranch(events) else event.branch;
    var linked := event.(schemaVersion := CURRENT_SCHEMA_VERSION, sequence := |events| + 1, id := id,
                         branch := branch, previousHash := TipHash(events));
    linked.(eventHash := HashEvent(linked, digest))
  }

  function Execute(events: seq<Event>, command: Command, id: string, digest: Digest): seq<Event> {
    match DraftFor(events, command)
    case None => events
    case Some(event) => events + [Seal(events, event, id, digest)]
  }

  // ---------- the journal file ----------

  /** How the storage behaves during one append: nothing is written; the file
      is written but its Git commit fails, with or without a working rollback;
      or both succeed. */
  datatype Storage = Refuses | CommitFails(rolledBack: bool) | Succeeds

  /** The append leaves its event in the file, even if it reports a failure. */
  predicate Writes(storage: Storage) {
    !storage.Refuses? && storage != CommitFails(true)
  }

  ghost predicate Loads(file: seq<Line>, digest: Digest) {
    Garbled !in file && Chained(Entries(file), digest)
  }

  /** What an append of `draft` does to the journal file. */
  ghost predicate Appends(before: seq<Line>, after: seq<Line>, ok: bool, draft: Option<Event>, id: string,
                          storage: Storage, digest: Digest)
  {
    var written := Loads(before, digest) && draft.Some? && Writes(storage);
    (ok <==> written && storage.Succeeds?) &&
    after == if written then LinesOf(Entries(before) + [Seal(Entries(before), draft.value, id, digest)]) else before
  }

  /** The event an append hands back. */
  function Created(before: seq<Line>, ok: bool, draft: Option<Event>, id: string, digest: Digest): Option<Event> {
    if ok && draft.Some? then Some(Seal(Entries(before), draft.value, id, digest)) else None
  }

  class History {
    const digest: Digest
    var file: seq<Line>

    constructor (digest: Digest, file: seq<Line>)
      ensures this.digest == digest && this.file == file
    {
      this.digest := digest;
      this.file := file;
    }

    method Append(event: Event, id: string, storage: Storage) returns (ok: bool, created: Option<Event>)
      modifies this`file
      ensures Appends(old(file), file, ok, Some(event), id, storage, digest)
      ensures created == Created(old(file), ok, Some(event), id, digest)
    {
      var all := LoadAll(file, digest);
      if all.None? || storage.Refuses? { return false, None; }
      var sealed := Seal(all.value, event, id, digest);
      var previous := file;
      file := LinesOf(all.value + [sealed]);
      if storage.CommitFails? {
        if storage.rolledBack { file := previous; }
        return false, None;
      }
      return true, Some(sealed);
    }

    /** Loads, decides what to append, and appends it. */
    method RecordAction(draft: Draft, id: string, storage: Storage) returns (ok: bool, created: Option<Event>)
      modifies this`file
      ensures var event := DraftFor(Entries(old(file)), Record(draft));
              Appends(old(file), file, ok, event, id, storage, digest) &&
              created == Created(old(file), ok, event, id, digest)
    {
      if IsBlank(draft.title) || IsBlank(draft.contextKey) || IsBlank(draft.elementId) { return false, None; }
      if draft.branch != "" {
        if !ValidLane(draft.branch) { return false, None; }
        var all := LoadAll(file, digest);
        if all.None? { return false, None; }
        var names := BranchNames(all.value);
        if draft.branch !in names { return false, None; }
      }
      var event := Blueprint(Action, Simplify(draft.title), Trim(draft.contextKey), Trim(draft.elementId),
                             Trim(draft.branch));
      event := event.(forward := draft.forward, inverse := draft.inverse,
                      beforeState := draft.beforeState, afterState := draft.afterState);
      ok, created := Append(event, id, storage);
    }

    method Toggle(eventId: string, requireEffective: bool, id: string, storage: Storage)
      returns (ok: bool, created: Option<Event>)
      modifies this`file
      ensures var draft := ToggleDraft(Entries(old(file)), eventId, requireEffective);
              Appends(old(file), file, ok, draft, id, storage, digest) &&
              created == Created(old(file), ok, draft, id, digest)
    {
      var all := LoadAll(file, digest);
      if all.None? { return false, None; }
      var selected := Find(all.value, eventId);
      if selected.None? { return false, None; }
      var rootId := RootIdFor(selected.value);
      var chain := ChainFor(all.value, rootId);
      if rootId == "" || chain == [] { return false, None; }
      if (|chain| % 2 == 1) != requireEffective { return false, None; }
      var root, tail := chain[0], chain[|chain| - 1];
      var title := (if requireEffective then "Undo " else "Redo ") + root.title;
      var compensation := Blueprint(Compensation, title, root.contextKey, root.elementId, CurrentBranch(all.value));
      compensation := compensation.(forward := tail.inverse, inverse := tail.forward,
                                    target := tail.id, root := root.id);
      assert ToggleDraft(all.value, eventId, requireEffective) == Some(compensation);
      ok, created := Append(compensation, id, storage);
    }

    method UndoAction(eventId: string, id: string, storage: Storage) returns (ok: bool, created: Option<Event>)
      modifies this`file
      ensures var draft := DraftFor(Entries(old(file)), Undo(eventId));
              Appends(old(file), file, ok, draft, id, storage, digest) &&
              created == Created(old(file), ok, draft, id, digest)
    {
      ok, created := Toggle(eventId, true, id, storage);
    }

    method RedoAction(eventId: string, id: string, storage: Storage) returns (ok: bool, created: Option<Event>)
      modifies this`file
      ensures var draft := DraftFor(Entries(old(file)), Redo(eventId));
              Appends(old(file), file, ok, draft, id, storage, digest) &&
              created == Created(old(file), ok, draft, id, digest)
    {
      ok, created := Toggle(eventId, false, id, storage);
    }

    method CompensateEvent(eventId: string, id: string, storage: Storage) returns (ok: bool, created: Option<Event>)
      modifies this`file
      ensures var draft := DraftFor(Entries(old(file)), Compensate(eventId));
              Appends(old(file), file, ok, draft, id, storage, digest) &&
              created == Created(old(file), ok, draft, id, digest)
    {
      var all := LoadAll(file, digest);
      if all.None? { return false, None; }
      var selected := Find(all.value, eventId);
      if selected.None? { return false, None; }
      var chain := ChainFor(all.value, RootIdFor(selected.value));
      if chain == [] || chain[|chain| - 1].id != eventId { return false, None; }
      assert CompensateDraft(all.value, eventId) == ToggleDraft(all.value, eventId, |chain| % 2 == 1);
      ok, created := Toggle(eventId, |chain| % 2 == 1, id, storage);
    }

    method AddBookmark(name: string, eventId: string, id: string, storage: Storage)
      returns (ok: bool, created: Option<Event>)
      modifies this`file
      ensures var draft := DraftFor(Entries(old(file)), CreateBookmark(name, eventId));
              Appends(old(file), file, ok, draft, id, storage, digest) &&
              created == Created(old(file), ok, draft, id, digest)
    {
      var clean := Simplify(name);
      if clean == "" || |clean| > 80 { return false, None; }
      var all := LoadAll(file, digest);
      if all.None? { return false, None; }
      var anchor := Anchor(all.value, eventId);
      if eventId != "" && anchor.None? { return false, None; }
      var bookmark := Blueprint(Bookmark, clean, "project", "root", CurrentBranch(all.value));
      if anchor.Some? {
        bookmark := bookmark.(contextKey := anchor.value.contextKey, elementId := anchor.value.elementId,
                              target := anchor.value.id);
      }
      assert BookmarkDraft(all.value, name, eventId) == Some(bookmark);
      ok, created := Append(bookmark, id, storage);
    }

    method AddBranch(name: string, eventId: string, id: string, storage: Storage)
      returns (ok: bool, created: Option<Event>)
      modifies this`file
      ensures var draft := DraftFor(Entries(old(file)), CreateBranch(name, eventId));
              Appends(old(file), file, ok, draft, id, storage, digest) &&
              created == Created(old(file), ok, draft, id, digest)
    {
      var clean := Trim(name);
      if !ValidLane(clean) { return false, None; }
      var all := LoadAll(file, digest);
      if all.None? { return false, None; }
      var names := BranchNames(all.value);
      if clean in names { return false, None; }
      var anchor := Anchor(all.value, eventId);
      if eventId != "" && anchor.None? { return false, None; }
      var branch := Blueprint(Branch, clean, "project", "root", clean);
      if anchor.Some? {
        branch := branch.(contextKey := anchor.value.contextKey, elementId := anchor.value.elementId,
                          target := anchor.value.id);
      }
      assert BranchDraft(all.value, name, eventId) == Some(branch);
      ok, created := Append(branch, id, storage);
    }

    method SelectBranch(name: string, id: string, storage: Storage) returns (ok: bool, created: Option<Event>)
      modifies this`file
      ensures var draft := DraftFor(Entries(old(file)), SwitchBranch(name));
              Appends(old(file), file, ok, draft, id, storage, digest) &&
              created == Created(old(file), ok, draft, id, digest)
    {
      var all := LoadAll(file, digest);
      if all.None? { return false, None; }
      var names := BranchNames(all.value);
      if Trim(name) !in names { return false, None; }
      ok, created := Append(Blueprint(Branch, Trim(name), "history", "branch-selector", Trim(name)), id, storage);
    }

    /** Whether the action an event belongs to is in force, that is, its chain
        has odd length; none for an unreadable journal, an unknown event, a
        bookmark or a branch. */
    method IsEffective(eventId: string) returns (effective: Option<bool>)
      ensures !Loads(file, digest) ==> effective == None
      ensures Loads(file, digest) ==>
                (forall rootId, e | e in Chain(Entries(file), rootId) && e.id == eventId ::
                   effective == Some(|Chain(Entries(file), rootId)| % 2 == 1)) &&
                (effective.Some? ==> exists rootId, e :: e in Chain(Entries(file), rootId) && e.id == eventId)
    {
      var all := LoadAll(file, digest);
      if all.None? { return None; }
      var event := Find(all.value, eventId);
      forall rootId, e | e in Chain(all.value, rootId) && e.id == eventId
        ensures event == Some(e) && RootIdFor(e) == rootId
      {
        ChainMemberRoot(all.value, rootId, e, digest);
      }
      if event.None? { return None; }
      var chain := ChainFor(all.value, RootIdFor(event.value));
      if chain == [] { return None; }
      assert chain[0] in chain;
      ChainMemberRoot(all.value, RootIdFor(event.value), chain[0], digest);
      BelongsToChain(all.value, event.value);
      return Some(|chain| % 2 == 1);
    }
  }
}
