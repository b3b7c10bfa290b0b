/** What every journal the history commands can build satisfies. */
module JournalLaws {
  import opened Json
  import opened Text
  import opened Journal
  import opened ActionHistory

  // ---------- hash links ----------

  /** An event of one journal and one of the other differ, hash aside, and the
      digest does not tell them apart. */
  ghost predicate Collide(one: seq<Event>, two: seq<Event>, digest: Digest) {
    exists a, b | a in one && b in two ::
      a.(eventHash := "") != b.(eventHash := "") && digest(a.(eventHash := "")) == digest(b.(eventHash := ""))
  }

  lemma TipOfChained(events: seq<Event>, digest: Digest)
    requires Chained(events, digest)
    ensures TipHash(events) == "" <==> events == []
  {
    if events != [] { assert FollowsFrom(events, |events| - 1, digest); }
  }

  lemma CollideInLonger(one: seq<Event>, two: seq<Event>, m: nat, n: nat, digest: Digest)
    requires m <= |one| && n <= |two| && Collide(one[..m], two[..n], digest)
    ensures Collide(one, two, digest)
  {
    var a, b :| a in one[..m] && b in two[..n] && a.(eventHash := "") != b.(eventHash := "") &&
                digest(a.(eventHash := "")) == digest(b.(eventHash := ""));
    assert a in one && b in two;
  }

  lemma SameHashedSameEvent(a: Event, b: Event)
    requires a.(eventHash := "") == b.(eventHash := "") && a.eventHash == b.eventHash
    ensures a == b
  {
    assert a == a.(eventHash := "").(eventHash := a.eventHash);
    assert b == b.(eventHash := "").(eventHash := b.eventHash);
  }

  /** Two accepted journals with the same final hash are the same journal,
      event for event, unless two of their own events collide. */
  lemma {:induction false} SameTipSameJournal(one: seq<Event>, two: seq<Event>, digest: Digest)
    requires Chained(one, digest) && Chained(two, digest) && TipHash(one) == TipHash(two)
    ensures one == two || Collide(one, two, digest)
    decreases |one|
  {
    if one == [] || two == [] {
      TipOfChained(one, digest);
      TipOfChained(two, digest);
    } else {
      var m, n := |one| - 1, |two| - 1;
      var a, b := one[m], two[n];
      assert FollowsFrom(one, m, digest) && FollowsFrom(two, n, digest);
      if a.(eventHash := "") == b.(eventHash := "") {
        SameHashedSameEvent(a, b);
        ChainedPrefix(one, m, digest);
        ChainedPrefix(two, n, digest);
        SameTipSameJournal(one[..m], two[..n], digest);
        if one[..m] == two[..n] {
          assert one == one[..m] + [a] && two == two[..n] + [b];
        } else {
          CollideInLonger(one, two, m, n, digest);
        }
      } else {
        assert a in one && b in two && digest(a.(eventHash := "")) == digest(b.(eventHash := ""));
      }
    }
  }

  /** The stored hash of an accepted event is the digest of all its other fields. */
  lemma AcceptedHash(events: seq<Event>, i: nat, digest: Digest)
    requires Chained(events, digest) && i < |events|
    ensures events[i].eventHash == digest(events[i].(eventHash := ""))
  {
    assert FollowsFrom(events, i, digest);
  }

  /** Editing an accepted event makes loading refuse the journal, unless the
      digest does not tell the edit or the newest event is given a new hash. */
  lemma EditIsRefused(events: seq<Event>, i: nat, edited: Event, digest: Digest)
    requires Chained(events, digest) && i < |events| && edited != events[i]
    requires Chained(events[i := edited], digest)
    ensures if edited.eventHash != events[i].eventHash then i == |events| - 1
            else edited.(eventHash := "") != events[i].(eventHash := "") &&
                 digest(edited.(eventHash := "")) == digest(events[i].(eventHash := ""))
  {
    var after := events[i := edited];
    AcceptedHash(events, i, digest);
    AcceptedHash(after, i, digest);
    if i + 1 < |events| {
      AcceptedEvent(events, i + 1, digest);
      AcceptedEvent(after, i + 1, digest);
    }
    if edited.eventHash == events[i].eventHash && edited.(eventHash := "") == events[i].(eventHash := "") {
      SameHashedSameEvent(edited, events[i]);
    }
  }

  /** What loading makes sure of in every event. */
  lemma AcceptedEvent(events: seq<Event>, i: nat, digest: Digest)
    requires Chained(events, digest) && i < |events|
    ensures var e := events[i];
            e.schemaVersion == 1 && e.sequence == i + 1 && Trim(e.id) != "" && Trim(e.branch) != "" &&
            |e.eventHash| == 64 && (e.kind == Action ==> Trim(e.title) != "") &&
            (e.kind == Compensation ==> e.target != "" && e.root != "") &&
            e.previousHash == (if i == 0 then "" else events[i - 1].eventHash) &&
            forall j | 0 <= j < i :: events[j].id != e.id
  {
    assert FollowsFrom(events, i, digest);
    if i > 0 { assert events[..i][i - 1] == events[i - 1]; }
  }

  // ---------- every append is accepted again ----------

  lemma TrimKeepsText(text: string)
    requires text != "" && !IsSpace(text[0])
    ensures !IsBlank(text)
  {
    TrimRightKeepsHead(text);
  }

  lemma {:induction false} TrimRightKeepsHead(text: string)
    requires text != "" && !IsSpace(text[0])
    ensures TrimRight(text) != "" && TrimRight(text)[0] == text[0]
  {
    if IsSpace(text[|text| - 1]) { TrimRightKeepsHead(text[..|text| - 1]); }
  }

  lemma {:induction false} TrimHead(text: string)
    ensures Trim(text) != "" ==> !IsSpace(Trim(text)[0])
  {
    if text != "" {
      if IsSpace(text[0]) { TrimHead(text[1..]); } else { TrimRightKeepsHead(text); }
    }
  }

  lemma SimplifyNotBlank(text: string)
    requires !IsBlank(text)
    ensures !IsBlank(Simplify(text))
  {
    TrimHead(text);
    TrimKeepsText(Simplify(text));
  }

  lemma BranchNotBlank(events: seq<Event>, digest: Digest, name: string)
    requires Chained(events, digest) && KnownBranch(events, name)
    ensures !IsBlank(name)
  {
    if name == "main" {
      TrimKeepsText(name);
    } else {
      var i :| 0 <= i < |events| && events[i].branch == name;
      assert FollowsFrom(events, i, digest);
    }
  }

  lemma DraftIsWellFormed(events: seq<Event>, command: Command, digest: Digest)
    requires Chained(events, digest) && DraftFor(events, command).Some?
    ensures var event := DraftFor(events, command).value;
            (event.kind == Action ==> !IsBlank(event.title)) &&
            (event.kind == Compensation ==> event.target != "" && event.root != "")
  {
    var event := DraftFor(events, command).value;
    if event.kind == Action {
      SimplifyNotBlank(command.draft.title);
    } else if event.kind == Compensation {
      var eventId := command.eventId;
      var chain := Chain(events, RootIdFor(Find(events, eventId).value));
      ChainMembers(events, RootIdFor(Find(events, eventId).value));
      IdsNotBlank(events, digest);
      assert chain[0] in chain && chain[|chain| - 1] in chain;
    }
  }

  lemma IdsNotBlank(events: seq<Event>, digest: Digest)
    requires Chained(events, digest)
    ensures forall e | e in events :: e.id != "" && !IsBlank(e.branch)
  {
    forall e | e in events ensures e.id != "" && !IsBlank(e.branch) {
      var i :| 0 <= i < |events| && events[i] == e;
      assert FollowsFrom(events, i, digest);
    }
  }

  /** A fresh identifier, and a hash of the stored length. */
  ghost predicate Fresh(events: seq<Event>, id: string, digest: Digest) {
    !IsBlank(id) && (forall e | e in events :: e.id != id) && (forall e :: |digest(e)| == HASH_LENGTH)
  }

  lemma ExecuteKeepsChained(events: seq<Event>, command: Command, id: string, digest: Digest)
    requires Chained(events, digest) && Fresh(events, id, digest)
    ensures Chained(Execute(events, command, id, digest), digest)
    ensures events <= Execute(events, command, id, digest)
  {
    var draft := DraftFor(events, command);
    if draft.Some? {
      DraftIsWellFormed(events, command, digest);
      IdsNotBlank(events, digest);
      TrimKeepsText("main");
      ChainedAppend(events, Seal(events, draft.value, id, digest), digest);
    }
  }

  /** A run of commands, each with the identifier drawn for it. */
  datatype Call = Call(command: Command, id: string)

  function RunCalls(calls: seq<Call>, digest: Digest): seq<Event> {
    if calls == [] then []
    else
      var last := calls[|calls| - 1];
      Execute(RunCalls(calls[..|calls| - 1], digest), last.command, last.id, digest)
  }

  ghost predicate FreshRun(calls: seq<Call>, digest: Digest) {
    calls == [] ||
    (FreshRun(calls[..|calls| - 1], digest) &&
     Fresh(RunCalls(calls[..|calls| - 1], digest), calls[|calls| - 1].id, digest))
  }

  /** Whatever commands run, loading accepts the journal they leave. */
  lemma {:induction false} RunIsChained(calls: seq<Call>, digest: Digest)
    requires FreshRun(calls, digest)
    ensures Chained(RunCalls(calls, digest), digest)
  {
    if calls != [] {
      var front, last := calls[..|calls| - 1], calls[|calls| - 1];
      RunIsChained(front, digest);
      ExecuteKeepsChained(RunCalls(front, digest), last.command, last.id, digest);
    }
  }

  // ---------- chains alternate ----------

  ghost predicate AlternatesAt(chain: seq<Event>, rootId: string, i: nat)
    requires i < |chain|
  {
    var root := chain[0];
    (if i == 0 then chain[0].kind == Action && chain[0].id == rootId
     else chain[i].kind == Compensation && chain[i].root == rootId && chain[i].target == chain[i - 1].id) &&
    chain[i].forward == (if i % 2 == 0 then root.forward else root.inverse) &&
    chain[i].inverse == (if i % 2 == 0 then root.inverse else root.forward)
  }

  /** An action first, then compensations of one another; even positions carry
      the action's own diffs and odd positions the swapped ones. */
  ghost predicate Alternates(chain: seq<Event>, rootId: string) {
    forall i | 0 <= i < |chain| :: AlternatesAt(chain, rootId, i)
  }

  ghost predicate AllAlternate(events: seq<Event>) {
    forall rootId :: Alternates(Chain(events, rootId), rootId)
  }

  lemma ToggleTarget(events: seq<Event>, command: Command, digest: Digest) returns (rootId: string)
    requires Chained(events, digest) && AllAlternate(events)
    requires DraftFor(events, command).Some? && DraftFor(events, command).value.kind == Compensation
    ensures var event, chain := DraftFor(events, command).value, Chain(events, rootId);
            event.root == rootId && chain != [] && var tail := chain[|chain| - 1];
            event.target == tail.id && event.forward == tail.inverse && event.inverse == tail.forward
  {
    rootId := RootIdFor(Find(events, command.eventId).value);
    var chain := Chain(events, rootId);
    assert AlternatesAt(chain, rootId, 0);
  }

  lemma ExtendChain(chain: seq<Event>, event: Event, rootId: string)
    requires Alternates(chain, rootId)
    requires if chain == [] then event.kind == Action && event.id == rootId
             else var tail := chain[|chain| - 1];
                  event.kind == Compensation && event.root == rootId && event.target == tail.id &&
                  event.forward == tail.inverse && event.inverse == tail.forward
    ensures Alternates(chain + [event], rootId)
  {
    var longer := chain + [event];
    forall i | 0 <= i < |longer| ensures AlternatesAt(longer, rootId, i) {
      if i < |chain| {
        assert AlternatesAt(chain, rootId, i);
      } else if chain != [] {
        assert AlternatesAt(chain, rootId, |chain| - 1);
      }
    }
  }

  lemma ChainHead(events: seq<Event>, rootId: string)
    requires AllAlternate(events) && Chain(events, rootId) != []
    ensures var head := Chain(events, rootId)[0]; head in events && head.kind == Action && head.id == rootId
  {
    assert Alternates(Chain(events, rootId), rootId);
    assert AlternatesAt(Chain(events, rootId), rootId, 0);
    ChainMembers(events, rootId);
    assert Chain(events, rootId)[0] in Chain(events, rootId);
  }

  lemma FreshStartsChain(events: seq<Event>, id: string)
    requires AllAlternate(events) && forall e | e in events :: e.id != id
    ensures Chain(events, id) == []
  {
    if Chain(events, id) != [] { ChainHead(events, id); }
  }

  lemma OtherKindKeepsAlternating(events: seq<Event>, event: Event)
    requires AllAlternate(events) && event.kind != Compensation && forall e | e in events :: e.id != event.id
    ensures AllAlternate(events + [event])
  {
    FreshStartsChain(events, event.id);
    forall rootId ensures Alternates(Chain(events + [event], rootId), rootId) {
      ChainAppend(events, event, rootId);
      assert Alternates(Chain(events, rootId), rootId);
      if InChain(event, rootId) { ExtendChain(Chain(events, rootId), event, rootId); }
    }
  }

  lemma ExecuteKeepsAlternating(events: seq<Event>, command: Command, id: string, digest: Digest)
    requires Chained(events, digest) && AllAlternate(events) && Fresh(events, id, digest)
    ensures AllAlternate(Execute(events, command, id, digest))
  {
    var draft := DraftFor(events, command);
    if draft.Some? {
      var event := Seal(events, draft.value, id, digest);
      if event.kind == Compensation {
        var rootId := ToggleTarget(events, command, digest);
        ToggleKeepsAlternating(events, events + [event], rootId);
      } else {
        OtherKindKeepsAlternating(events, event);
      }
    }
  }

  lemma {:induction false} RunAlternates(calls: seq<Call>, digest: Digest)
    requires FreshRun(calls, digest)
    ensures AllAlternate(RunCalls(calls, digest))
  {
    if calls != [] {
      var front := calls[..|calls| - 1];
      RunIsChained(front, digest);
      RunAlternates(front, digest);
      ExecuteKeepsAlternating(RunCalls(front, digest), calls[|calls| - 1].command, calls[|calls| - 1].id, digest);
    }
  }

  /** An action is in force exactly when the newest event of its chain carries
      its own diffs; that is readable off the forward diff alone unless the two
      diffs are the same. */
  lemma EffectiveReadsTail(events: seq<Event>, rootId: string)
    requires AllAlternate(events) && Chain(events, rootId) != []
    ensures var chain := Chain(events, rootId);
            var root, tail := chain[0], chain[|chain| - 1];
            (Effective(events, rootId) ==> tail.forward == root.forward && tail.inverse == root.inverse) &&
            (!Effective(events, rootId) ==> tail.forward == root.inverse && tail.inverse == root.forward) &&
            (root.forward != root.inverse ==> (Effective(events, rootId) <==> tail.forward == root.forward))
  {
    var chain := Chain(events, rootId);
    assert AlternatesAt(chain, rootId, |chain| - 1);
  }

  // ---------- any event of a chain names its action ----------

  /** Whichever event of an action's chain is named, the action itself or any of
      its compensations, the toggle it allows is for that action, compensates the
      chain's newest event and swaps its diffs; the opposite one is refused. */
  lemma AnyChainEventToggles(events: seq<Event>, rootId: string, event: Event, digest: Digest)
    requires Chained(events, digest) && AllAlternate(events) && event in Chain(events, rootId)
    ensures var chain := Chain(events, rootId);
            var root, tail, effective := chain[0], chain[|chain| - 1], |chain| % 2 == 1;
            var draft := ToggleDraft(events, event.id, effective);
            ToggleDraft(events, event.id, !effective) == None && draft.Some? &&
            draft.value.kind == Compensation && draft.value.root == rootId && draft.value.target == tail.id &&
            draft.value.forward == tail.inverse && draft.value.inverse == tail.forward &&
            draft.value.contextKey == root.contextKey && draft.value.elementId == root.elementId &&
            draft.value.title == (if effective then "Undo " else "Redo ") + root.title
  {
    ChainMemberRoot(events, rootId, event, digest);
    assert AlternatesAt(Chain(events, rootId), rootId, 0);
  }

  /** Of all events exactly the newest of a chain can be compensated, and that is
      the toggle its chain allows. */
  lemma CompensateExact(events: seq<Event>, event: Event, digest: Digest)
    requires Chained(events, digest) && AllAlternate(events) && event in events
    ensures CompensateDraft(events, event.id).Some? <==>
            exists rootId :: Chain(events, rootId) != [] && event == Chain(events, rootId)[|Chain(events, rootId)| - 1]
    ensures CompensateDraft(events, event.id).Some? ==>
              exists undo :: CompensateDraft(events, event.id) == ToggleDraft(events, event.id, undo)
  {
    FindUnique(events, event);
    if rootId :| Chain(events, rootId) != [] && event == Chain(events, rootId)[|Chain(events, rootId)| - 1] {
      assert event in Chain(events, rootId);
      ChainMemberRoot(events, rootId, event, digest);
      AnyChainEventToggles(events, rootId, event, digest);
    }
    var chain := Chain(events, RootIdFor(event));
    if CompensateDraft(events, event.id).Some? {
      ChainMembers(events, RootIdFor(event));
      assert chain[|chain| - 1] in chain;
      FindUnique(events, chain[|chain| - 1]);
    }
  }

  // ---------- what a command leaves alone ----------

  /** A toggle extends one chain; a recorded action starts one; bookmarks and
      lanes extend none. */
  lemma ExecuteTouchesOneChain(events: seq<Event>, command: Command, id: string, digest: Digest, rootId: string)
    requires AllAlternate(events) && Fresh(events, id, digest) && DraftFor(events, command).Some?
    ensures var event := DraftFor(events, command).value;
            var was, now := Chain(events, rootId), Chain(Execute(events, command, id, digest), rootId);
            match event.kind
            case Action => if rootId == id then was == [] && |now| == 1 else now == was
            case Compensation => if rootId == event.root then |now| == |was| + 1 && was <= now else now == was
            case _ => now == was
  {
    ChainAppend(events, Seal(events, DraftFor(events, command).value, id, digest), rootId);
    FreshStartsChain(events, id);
  }

  /** `after` is `before` and one event that compensates the newest event of
      the chain of `rootId`. */
  ghost predicate Toggled(before: seq<Event>, after: seq<Event>, rootId: string) {
    |after| == |before| + 1 && before <= after && Chain(before, rootId) != [] &&
    var event, chain := after[|before|], Chain(before, rootId);
    var tail := chain[|chain| - 1];
    event.kind == Compensation && event.root == rootId && event.target == tail.id &&
    event.forward == tail.inverse && event.inverse == tail.forward
  }

  /** The event names an action that is, or is not, in force as required. */
  predicate Toggleable(events: seq<Event>, eventId: string, effective: bool) {
    Find(events, eventId).Some? && var rootId := RootIdFor(Find(events, eventId).value);
    rootId != "" && Chain(events, rootId) != [] && Effective(events, rootId) == effective
  }

  lemma ToggleIsToggled(events: seq<Event>, eventId: string, undo: bool, id: string, digest: Digest)
    requires AllAlternate(events) && Toggleable(events, eventId, undo)
    ensures ToggleDraft(events, eventId, undo).Some?
    ensures Toggled(events, Execute(events, ToggleCommand(eventId, undo), id, digest),
                    RootIdFor(Find(events, eventId).value))
  {
    ChainHead(events, RootIdFor(Find(events, eventId).value));
  }

  /** A toggle flips the action it is for and no other. */
  lemma ToggleFlips(before: seq<Event>, after: seq<Event>, toggled: string, rootId: string)
    requires Toggled(before, after, toggled)
    ensures Chain(before, rootId) <= Chain(after, rootId)
    ensures if rootId == toggled then Effective(after, rootId) != Effective(before, rootId)
            else Chain(after, rootId) == Chain(before, rootId)
  {
    assert after == before + [after[|before|]];
    ChainAppend(before, after[|before|], rootId);
  }

  lemma ToggleKeepsAlternating(before: seq<Event>, after: seq<Event>, toggled: string)
    requires Toggled(before, after, toggled) && AllAlternate(before)
    ensures AllAlternate(after)
  {
    var event := after[|before|];
    assert after == before + [event];
    forall rootId ensures Alternates(Chain(after, rootId), rootId) {
      ChainAppend(before, event, rootId);
      assert Alternates(Chain(before, rootId), rootId);
      if rootId == toggled { ExtendChain(Chain(before, rootId), event, rootId); }
    }
  }

  /** The chain only grew, and the action stands as it did: as effective as
      before, its newest event carrying the same diffs. */
  ghost predicate SameStanding(before: seq<Event>, after: seq<Event>, rootId: string) {
    var was, now := Chain(before, rootId), Chain(after, rootId);
    was <= now && Effective(after, rootId) == Effective(before, rootId) &&
    (was != [] ==> now[|now| - 1].forward == was[|was| - 1].forward &&
                   now[|now| - 1].inverse == was[|was| - 1].inverse)
  }

  /** Two toggles of one action leave every chain with its effectiveness and
      its tail's diffs. */
  lemma ToggledTwice(before: seq<Event>, middle: seq<Event>, after: seq<Event>, toggled: string, rootId: string)
    requires AllAlternate(before) && Toggled(before, middle, toggled) && Toggled(middle, after, toggled)
    ensures AllAlternate(after)
    ensures SameStanding(before, after, rootId)
  {
    ToggleKeepsAlternating(before, middle, toggled);
    ToggleKeepsAlternating(middle, after, toggled);
    ToggleFlips(before, middle, toggled, rootId);
    ToggleFlips(middle, after, toggled, rootId);
    SamePositionSameDiffs(before, after, rootId);
  }

  lemma ToggleableAgain(before: seq<Event>, after: seq<Event>, eventId: string, effective: bool)
    requires Toggleable(before, eventId, effective)
    requires Toggled(before, after, RootIdFor(Find(before, eventId).value))
    ensures Find(after, eventId) == Find(before, eventId) && Toggleable(after, eventId, !effective)
  {
    FindAppend(before, after, eventId);
    var rootId := RootIdFor(Find(before, eventId).value);
    ToggleFlips(before, after, rootId, rootId);
  }

  /** A toggle followed by its opposite on the same event: the second is never
      refused, and every chain keeps its effectiveness and its tail's diffs. */
  lemma RepairIsNeutral(events: seq<Event>, eventId: string, undo: bool, id1: string, id2: string, digest: Digest,
                        rootId: string)
    requires AllAlternate(events) && Toggleable(events, eventId, undo)
    ensures var middle := Execute(events, ToggleCommand(eventId, undo), id1, digest);
            var end := Execute(middle, ToggleCommand(eventId, !undo), id2, digest);
            |end| == |events| + 2 && SameStanding(events, end, rootId)
  {
    var middle := Execute(events, ToggleCommand(eventId, undo), id1, digest);
    var end := Execute(middle, ToggleCommand(eventId, !undo), id2, digest);
    var toggled := RootIdFor(Find(events, eventId).value);
    ToggleIsToggled(events, eventId, undo, id1, digest);
    ToggleableAgain(events, middle, eventId, undo);
    ToggleKeepsAlternating(events, middle, toggled);
    ToggleIsToggled(middle, eventId, !undo, id2, digest);
    ToggledTwice(events, middle, end, toggled, rootId);
  }

  lemma SamePositionSameDiffs(before: seq<Event>, after: seq<Event>, rootId: string)
    requires AllAlternate(before) && AllAlternate(after)
    requires Chain(before, rootId) <= Chain(after, rootId)
    requires Effective(before, rootId) == Effective(after, rootId)
    ensures var was, now := Chain(before, rootId), Chain(after, rootId);
            was != [] ==> now[|now| - 1].forward == was[|was| - 1].forward &&
                          now[|now| - 1].inverse == was[|was| - 1].inverse
  {
    var was, now := Chain(before, rootId), Chain(after, rootId);
    if was != [] {
      assert now[0] == was[0];
      EffectiveReadsTail(before, rootId);
      EffectiveReadsTail(after, rootId);
    }
  }

  lemma {:induction false} FindAppend(events: seq<Event>, longer: seq<Event>, id: string)
    requires events <= longer && Find(events, id).Some?
    ensures Find(longer, id) == Find(events, id)
  {
    if events[0].id != id {
      assert events[1..] <= longer[1..];
      FindAppend(events[1..], longer[1..], id);
    }
  }

  // ---------- lanes ----------

  /** The lane a command asks for; the others stay on the current one. */
  function LaneAsked(events: seq<Event>, command: Command): string {
    match command
    case CreateBranch(name, _) => Trim(name)
    case SwitchBranch(name) => Trim(name)
    case Record(draft) => if draft.branch != "" then Trim(draft.branch) else CurrentBranch(events)
    case _ => CurrentBranch(events)
  }

  lemma CurrentNotBlank(events: seq<Event>, digest: Digest)
    requires Chained(events, digest)
    ensures !IsBlank(CurrentBranch(events))
  {
    if events == [] {
      TrimKeepsText("main");
    } else {
      IdsNotBlank(events, digest);
      assert events[|events| - 1] in events;
    }
  }

  lemma AlnumNotBlank(text: string)
    requires text != "" && IsAlnum(text[0])
    ensures !IsBlank(text) && TrimLeft(text) == text
  {
    TrimKeepsText(text);
  }

  lemma LaneNotBlank(events: seq<Event>, command: Command, digest: Digest)
    requires Chained(events, digest) && DraftFor(events, command).Some?
    ensures !IsBlank(LaneAsked(events, command))
    ensures var branch := DraftFor(events, command).value.branch;
            branch == LaneAsked(events, command) ||
            (IsBlank(branch) && LaneAsked(events, command) == CurrentBranch(events))
  {
    CurrentNotBlank(events, digest);
    match command
    case CreateBranch(name, _) => AlnumNotBlank(Trim(name));
    case SwitchBranch(name) => BranchNotBlank(events, digest, Trim(name));
    case Record(draft) =>
      if draft.branch != "" { LaneTrims(draft.branch); AlnumNotBlank(draft.branch); } else { assert IsBlank(""); }
    case _ =>
  }

  lemma LaneTrims(name: string)
    requires ValidLane(name)
    ensures Trim(name) == name
  {
    assert name[|name| - 1] in name;
  }

  /** Toggles, bookmarks and plain records stay on the current lane; creating
      or switching moves to the lane named; and a lane, once known, stays known. */
  lemma ExecuteLane(events: seq<Event>, command: Command, id: string, digest: Digest, name: string)
    requires Chained(events, digest) && DraftFor(events, command).Some?
    ensures var after := Execute(events, command, id, digest);
            CurrentBranch(after) == LaneAsked(events, command) &&
            (KnownBranch(after, name) <==> KnownBranch(events, name) || name == LaneAsked(events, command))
  {
    var event := Seal(events, DraftFor(events, command).value, id, digest);
    LaneNotBlank(events, command, digest);
    assert event.branch == LaneAsked(events, command);
    assert event.branch != "" by { assert IsBlank(""); }
    assert (events + [event])[|events|] == event;
  }

  // ---------- what commands demand and write ----------

  /** A record succeeds exactly with a title, a context and an element, on the
      current lane or a known one, and writes them, trimmed, with its diffs. */
  lemma RecordExact(events: seq<Event>, draft: Draft, id: string, digest: Digest)
    ensures var journal := Execute(events, Record(draft), id, digest);
            if Trim(draft.title) != "" && Trim(draft.contextKey) != "" && Trim(draft.elementId) != "" &&
               (draft.branch == "" || (ValidLane(draft.branch) && KnownBranch(events, draft.branch)))
            then
              |journal| == |events| + 1 && events <= journal && var e := journal[|events|];
              e.kind == Action && e.id == id && e.title == Simplify(draft.title) &&
              e.contextKey == Trim(draft.contextKey) && e.elementId == Trim(draft.elementId) &&
              e.forward == draft.forward && e.inverse == draft.inverse &&
              e.beforeState == draft.beforeState && e.afterState == draft.afterState
            else journal == events
  {
  }

  /** The event the name of a bookmark or lane is tied to: the one asked for, or
      the newest. */
  ghost predicate TiedTo(events: seq<Event>, eventId: string, e: Event) {
    if eventId == "" && events == [] then e.target == "" && e.contextKey == "project" && e.elementId == "root"
    else
      exists to | to in events ::
        (if eventId == "" then to == events[|events| - 1] else to.id == eventId) &&
        e.target == to.id && e.contextKey == to.contextKey && e.elementId == to.elementId
  }

  /** A bookmark needs a name of 1 to 80 characters and, if it asks for an event,
      that event. */
  lemma BookmarkExact(events: seq<Event>, name: string, eventId: string, id: string, digest: Digest)
    ensures var journal := Execute(events, CreateBookmark(name, eventId), id, digest);
            if 1 <= |Simplify(name)| <= 80 && (eventId == "" || exists e | e in events :: e.id == eventId)
            then
              |journal| == |events| + 1 && events <= journal && var e := journal[|events|];
              e.kind == Bookmark && e.title == Simplify(name) && TiedTo(events, eventId, e)
            else journal == events
  {
  }

  /** A lane needs a valid, new name, likewise. */
  lemma BranchExact(events: seq<Event>, name: string, eventId: string, id: string, digest: Digest)
    ensures var journal := Execute(events, CreateBranch(name, eventId), id, digest);
            if ValidLane(Trim(name)) && Trim(name) != "main" && (forall e | e in events :: e.branch != Trim(name)) &&
               (eventId == "" || exists e | e in events :: e.id == eventId)
            then
              |journal| == |events| + 1 && events <= journal && var e := journal[|events|];
              e.kind == Branch && e.title == Trim(name) && TiedTo(events, eventId, e)
            else journal == events
  {
  }

  /** Switching needs a lane that is main or that some event was on. */
  lemma SwitchExact(events: seq<Event>, name: string, id: string, digest: Digest)
    ensures var journal := Execute(events, SwitchBranch(name), id, digest);
            if Trim(name) == "main" || (Trim(name) != "" && exists e | e in events :: e.branch == Trim(name))
            then |journal| == |events| + 1 && events <= journal && journal[|events|].kind == Branch
            else journal == events
  {
  }

  predicate Contains(text: string, part: string) {
    exists i | 0 <= i <= |text| :: part <= text[i..]
  }

  /** A lane name is 1 to 64 letters, digits, dots, underscores, dashes and
      slashes, begins with a letter or digit, does not end in a slash, and holds
      neither two dots nor two slashes in a row. */
  lemma ValidLaneExact(name: string)
    ensures ValidLane(name) <==>
            1 <= |name| <= 64 && IsAlnum(name[0]) &&
            (forall c | c in name :: IsAlnum(c) || c == '.' || c == '_' || c == '/' || c == '-') &&
            name[|name| - 1] != '/' &&
            !Contains(name, "..") && !Contains(name, "//")
  {
    if Contains(name, "..") {
      var i :| 0 <= i <= |name| && ".." <= name[i..];
      assert name[i] == name[i..][0] && name[i + 1] == name[i..][1];
    }
    if Contains(name, "//") {
      var i :| 0 <= i <= |name| && "//" <= name[i..];
      assert name[i] == name[i..][0] && name[i + 1] == name[i..][1];
    }
    forall i | 0 <= i < |name| - 1 && name[i] == name[i + 1] && name[i] in "./"
      ensures Contains(name, "..") || Contains(name, "//")
    {
      assert [name[i], name[i]] <= name[i..];
      if name[i] == '.' { assert ".." <= name[i..]; } else { assert "//" <= name[i..]; }
    }
  }

  // ---------- simplified names ----------

  /** The characters that are not whitespace, in order. */
  function Ink(text: string): string {
    if text == "" then ""
    else (if IsSpace(text[0]) then "" else [text[0]]) + Ink(text[1..])
  }

  lemma {:induction false} InkAppend(one: string, two: string)
    ensures Ink(one + two) == Ink(one) + Ink(two)
  {
    if one == "" {
      assert one + two == two;
    } else {
      assert (one + two)[1..] == one[1..] + two;
      InkAppend(one[1..], two);
    }
  }

  lemma {:induction false} TrimLeftKeepsInk(text: string)
    ensures Ink(TrimLeft(text)) == Ink(text)
    ensures TrimLeft(text) != "" ==>
              !IsSpace(TrimLeft(text)[0]) && TrimLeft(text)[|TrimLeft(text)| - 1] == text[|text| - 1]
    ensures |TrimLeft(text)| <= |text|
  {
    if text != "" && IsSpace(text[0]) { TrimLeftKeepsInk(text[1..]); }
  }

  lemma {:induction false} TrimRightKeepsInk(text: string)
    ensures Ink(TrimRight(text)) == Ink(text)
    ensures TrimRight(text) != "" ==> !IsSpace(TrimRight(text)[|TrimRight(text)| - 1]) && TrimRight(text)[0] == text[0]
  {
    if text != "" && IsSpace(text[|text| - 1]) {
      var front := text[..|text| - 1];
      TrimRightKeepsInk(front);
      assert text == front + [text[|text| - 1]];
      InkAppend(front, [text[|text| - 1]]);
    }
  }

  /** Every whitespace is a single space between two other characters. */
  predicate SinglySpaced(text: string) {
    forall i | 0 <= i < |text| && IsSpace(text[i]) ::
      text[i] == ' ' && 0 < i < |text| - 1 && !IsSpace(text[i + 1])
  }

  lemma {:induction false} CollapseExact(text: string)
    requires text != "" ==> !IsSpace(text[|text| - 1])
    ensures Ink(Collapse(text)) == Ink(text)
    ensures forall i | 0 <= i < |Collapse(text)| && IsSpace(Collapse(text)[i]) ::
              Collapse(text)[i] == ' ' && i < |Collapse(text)| - 1 && !IsSpace(Collapse(text)[i + 1])
    ensures text != "" ==> Collapse(text) != "" && (IsSpace(Collapse(text)[0]) <==> IsSpace(text[0]))
    decreases |text|
  {
    if text != "" {
      if IsSpace(text[0]) {
        var rest := TrimLeft(text[1..]);
        TrimLeftKeepsInk(text[1..]);
        CollapseExact(rest);
        assert Collapse(text) == " " + Collapse(rest);
        LastNotSpaceLeft(text[1..]);
      } else {
        CollapseExact(text[1..]);
      }
    }
  }

  lemma {:induction false} LastNotSpaceLeft(text: string)
    requires text != "" && !IsSpace(text[|text| - 1])
    ensures TrimLeft(text) != ""
  {
    if IsSpace(text[0]) { LastNotSpaceLeft(text[1..]); }
  }

  /** Simplifying a name keeps what is written and leaves single spaces. */
  lemma SimplifyExact(text: string)
    ensures Ink(Simplify(text)) == Ink(text) && SinglySpaced(Simplify(text))
  {
    TrimLeftKeepsInk(text);
    TrimRightKeepsInk(TrimLeft(text));
    CollapseExact(Trim(text));
  }

  // ---------- where an action's events are filed ----------

  /** Every event of a chain is filed under the context and element of its action. */
  ghost predicate Filed(events: seq<Event>) {
    forall rootId, e | e in Chain(events, rootId) ::
      e.contextKey == Chain(events, rootId)[0].contextKey && e.elementId == Chain(events, rootId)[0].elementId
  }

  lemma ExecuteKeepsFiled(events: seq<Event>, command: Command, id: string, digest: Digest)
    requires Chained(events, digest) && AllAlternate(events) && Filed(events) && Fresh(events, id, digest)
    ensures Filed(Execute(events, command, id, digest))
  {
    var draft := DraftFor(events, command);
    if draft.Some? {
      var event := Seal(events, draft.value, id, digest);
      if event.kind == Compensation { FiledToggle(events, command.eventId, draft.value); }
      AppendKeepsFiled(events, event);
    }
  }

  lemma AppendKeepsFiled(events: seq<Event>, event: Event)
    requires AllAlternate(events) && Filed(events) && forall e | e in events :: e.id != event.id
    requires event.kind == Compensation ==>
               var chain := Chain(events, event.root);
               chain != [] && event.contextKey == chain[0].contextKey && event.elementId == chain[0].elementId
    ensures Filed(events + [event])
  {
    FreshStartsChain(events, event.id);
    forall rootId, e | e in Chain(events + [event], rootId)
      ensures e.contextKey == Chain(events + [event], rootId)[0].contextKey
      ensures e.elementId == Chain(events + [event], rootId)[0].elementId
    {
      ChainAppend(events, event, rootId);
    }
  }

  lemma FiledToggle(events: seq<Event>, eventId: string, draft: Event)
    requires AllAlternate(events) && exists undo :: ToggleDraft(events, eventId, undo) == Some(draft)
    ensures var chain := Chain(events, draft.root);
            chain != [] && draft.contextKey == chain[0].contextKey && draft.elementId == chain[0].elementId
  {
    var rootId := RootIdFor(Find(events, eventId).value);
    assert AlternatesAt(Chain(events, rootId), rootId, 0);
  }

  /** So it is in every journal the commands build. */
  lemma {:induction false} RunFiles(calls: seq<Call>, digest: Digest)
    requires FreshRun(calls, digest)
    ensures Filed(RunCalls(calls, digest))
  {
    if calls != [] {
      var front, last := calls[..|calls| - 1], calls[|calls| - 1];
      RunIsChained(front, digest);
      RunAlternates(front, digest);
      RunFiles(front, digest);
      ExecuteKeepsFiled(RunCalls(front, digest), last.command, last.id, digest);
    }
  }
}
