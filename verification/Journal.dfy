/** The append-only action journal: what is stored, what loading accepts, and
    the one event each history command appends. */
module Journal {
  import opened Json
  import opened Text

  datatype Kind = Action | Compensation | Bookmark | Branch

  datatype Event = Event(
    schemaVersion: int, sequence: int, id: string, kind: Kind, title: string, contextKey: string, elementId: string,
    branch: string, forward: Doc, inverse: Doc, beforeState: Option<Doc>, afterState: Option<Doc>,
    target: string, root: string, previousHash: string, eventHash: string)

  /** One line of the journal file. */
  datatype Line = Blank | Garbled | Entry(event: Event)

  type Digest = Event -> string

  const CURRENT_SCHEMA_VERSION := 1
  const HASH_LENGTH := 64

  // ---------- reading the journal ----------

  predicate IsBlank(text: string) {
    Trim(text) == ""
  }

  /** The required fields of a stored event. */
  predicate WellFormed(event: Event) {
    event.schemaVersion == CURRENT_SCHEMA_VERSION && event.sequence >= 1 && !IsBlank(event.id) &&
    !IsBlank(event.branch) && |event.eventHash| == HASH_LENGTH &&
    (event.kind == Action ==> !IsBlank(event.title)) &&
    (event.kind == Compensation ==> event.target != "" && event.root != "")
  }

  /** The hash covers every field but itself. */
  function HashEvent(event: Event, digest: Digest): string {
    digest(event.(eventHash := ""))
  }

  function TipHash(events: seq<Event>): string {
    if events == [] then "" else events[|events| - 1].eventHash
  }

  ghost predicate FollowsFrom(events: seq<Event>, i: nat, digest: Digest)
    requires i < |events|
  {
    WellFormed(events[i]) && events[i].sequence == i + 1 &&
    events[i].previousHash == TipHash(events[..i]) && events[i].eventHash == HashEvent(events[i], digest)
  }

  ghost predicate UniqueIds(events: seq<Event>) {
    forall i, j | 0 <= i < j < |events| :: events[i].id != events[j].id
  }

  /** Numbered from one, hash-linked, and no identifier used twice. */
  ghost predicate Chained(events: seq<Event>, digest: Digest) {
    (forall i | 0 <= i < |events| :: FollowsFrom(events, i, digest)) && UniqueIds(events)
  }

  function Entries(lines: seq<Line>): seq<Event> {
    if lines == [] then []
    else
      var front := Entries(lines[..|lines| - 1]);
      match lines[|lines| - 1]
      case Entry(event) => front + [event]
      case _ => front
  }

  function LinesOf(events: seq<Event>): seq<Line> {
    seq(|events|, i requires 0 <= i < |events| => Entry(events[i]))
  }

  lemma {:induction false} EntriesOfLines(events: seq<Event>)
    ensures Entries(LinesOf(events)) == events
  {
    if events != [] {
      var n := |events| - 1;
      EntriesOfLines(events[..n]);
      assert LinesOf(events)[..n] == LinesOf(events[..n]);
      assert events == events[..n] + [events[n]];
    }
  }

  lemma {:induction false} EntriesPrefix(lines: seq<Line>, n: nat)
    requires n <= |lines|
    ensures |Entries(lines[..n])| <= |Entries(lines)|
    ensures Entries(lines)[..|Entries(lines[..n])|] == Entries(lines[..n])
    decreases |lines|
  {
    if n < |lines| {
      var front := lines[..|lines| - 1];
      EntriesPrefix(front, n);
      assert front[..n] == lines[..n];
    } else {
      assert lines[..n] == lines;
    }
  }

  lemma ChainedPrefix(events: seq<Event>, n: nat, digest: Digest)
    requires n <= |events| && Chained(events, digest)
    ensures Chained(events[..n], digest)
  {
    var front := events[..n];
    forall i | 0 <= i < n ensures FollowsFrom(front, i, digest) {
      assert FollowsFrom(events, i, digest);
      assert front[..i] == events[..i];
    }
  }

  lemma PrefixOfChained(events: seq<Event>, front: seq<Event>, digest: Digest)
    requires Chained(events, digest) && |front| <= |events| && events[..|front|] == front
    ensures Chained(front, digest)
  {
    ChainedPrefix(events, |front|, digest);
  }

  lemma ChainedAppend(events: seq<Event>, event: Event, digest: Digest)
    requires Chained(events, digest)
    ensures Chained(events + [event], digest) <==>
            WellFormed(event) && event.sequence == |events| + 1 && event.previousHash == TipHash(events) &&
            (forall e | e in events :: e.id != event.id) && event.eventHash == HashEvent(event, digest)
  {
    var all := events + [event];
    assert all[..|events|] == events;
    forall i | 0 <= i < |events| ensures FollowsFrom(all, i, digest) {
      assert FollowsFrom(events, i, digest);
      assert all[..i] == events[..i];
    }
    if Chained(all, digest) {
      assert FollowsFrom(all, |events|, digest);
      forall e | e in events ensures e.id != event.id {
        var i :| 0 <= i < |events| && events[i] == e;
        assert all[i].id != all[|events|].id;
      }
    }
  }

  /** Loading accepts exactly the readable, chained journals. */
  method LoadAll(lines: seq<Line>, digest: Digest) returns (result: Option<seq<Event>>)
    ensures result.Some? <==> Garbled !in lines && Chained(Entries(lines), digest)
    ensures result.Some? ==> result.value == Entries(lines)
  {
    var events: seq<Event> := [];
    var expectedPreviousHash, ids, expectedSequence := "", {}, 1;
    for i := 0 to |lines|
      invariant Garbled !in lines[..i]
      invariant events == Entries(lines[..i]) && Chained(events, digest)
      invariant expectedPreviousHash == TipHash(events) && expectedSequence == |events| + 1
      invariant ids == set e | e in events :: e.id
    {
      assert lines[..i + 1][..i] == lines[..i];
      match lines[i] {
        case Blank =>
        case Garbled => return None;
        case Entry(event) =>
          ChainedAppend(events, event, digest);
          EntriesPrefix(lines, i + 1);
          assert Entries(lines[..i + 1]) == events + [event];
          if !WellFormed(event) || event.sequence != expectedSequence || event.previousHash != expectedPreviousHash ||
             event.id in ids || HashEvent(event, digest) != event.eventHash
          {
            if Chained(Entries(lines), digest) { PrefixOfChained(Entries(lines), events + [event], digest); }
            return None;
          }
          ids := ids + {event.id};
          expectedPreviousHash := event.eventHash;
          expectedSequence := expectedSequence + 1;
          events := events + [event];
      }
    }
    assert lines[..|lines|] == lines;
    return Some(events);
  }

  // ---------- chains ----------

  function Find(events: seq<Event>, id: string): (found: Option<Event>)
    ensures found.Some? ==> found.value in events && found.value.id == id
    ensures found.None? ==> forall e | e in events :: e.id != id
  {
    if events == [] then None
    else if events[0].id == id then Some(events[0])
    else Find(events[1..], id)
  }

  /** The action an event belongs to; bookmarks and branches belong to none. */
  function RootIdFor(event: Event): string {
    match event.kind
    case Action => event.id
    case Compensation => event.root
    case _ => ""
  }

  predicate InChain(event: Event, rootId: string) {
    (event.kind == Action && event.id == rootId) || (event.kind == Compensation && event.root == rootId)
  }

  /** An action and everything that compensated it, oldest first. */
  function Chain(events: seq<Event>, rootId: string): seq<Event> {
    if events == [] then []
    else
      var front := Chain(events[..|events| - 1], rootId);
      if InChain(events[|events| - 1], rootId) then front + [events[|events| - 1]] else front
  }

  lemma ChainAppend(events: seq<Event>, event: Event, rootId: string)
    ensures Chain(events + [event], rootId) ==
            Chain(events, rootId) + if InChain(event, rootId) then [event] else []
  {
    assert (events + [event])[..|events|] == events;
  }

  lemma {:induction false} ChainMembers(events: seq<Event>, rootId: string)
    ensures forall e :: e in Chain(events, rootId) <==> e in events && InChain(e, rootId)
  {
    if events != [] {
      var front := events[..|events| - 1];
      ChainMembers(front, rootId);
      assert events == front + [events[|events| - 1]];
    }
  }

  lemma FindUnique(events: seq<Event>, event: Event)
    requires UniqueIds(events) && event in events
    ensures Find(events, event.id) == Some(event)
  {
    var found := Find(events, event.id);
    var i :| 0 <= i < |events| && events[i] == event;
    var j :| 0 <= j < |events| && events[j] == found.value;
    assert i < j ==> events[i].id != events[j].id;
    assert j < i ==> events[j].id != events[i].id;
  }

  /** An event of an action's chain belongs to that action. */
  lemma ChainMemberRoot(events: seq<Event>, rootId: string, event: Event, digest: Digest)
    requires Chained(events, digest) && event in Chain(events, rootId)
    ensures event in events && RootIdFor(event) == rootId && rootId != "" && Find(events, event.id) == Some(event)
  {
    ChainMembers(events, rootId);
    FindUnique(events, event);
    var i :| 0 <= i < |events| && events[i] == event;
    assert FollowsFrom(events, i, digest);
  }

  /** Actions and compensations are in the chain of the action they belong to. */
  lemma BelongsToChain(events: seq<Event>, event: Event)
    requires event in events && event.kind in {Action, Compensation}
    ensures event in Chain(events, RootIdFor(event))
  {
    ChainMembers(events, RootIdFor(event));
  }

  method ChainFor(events: seq<Event>, rootId: string) returns (chain: seq<Event>)
    ensures chain == Chain(events, rootId)
  {
    chain := [];
    for i := 0 to |events|
      invariant chain == Chain(events[..i], rootId)
    {
      assert events[..i + 1] == events[..i] + [events[i]];
      ChainAppend(events[..i], events[i], rootId);
      if InChain(events[i], rootId) { chain := chain + [events[i]]; }
    }
    assert events[..|events|] == events;
  }

  predicate Effective(events: seq<Event>, rootId: string) {
    |Chain(events, rootId)| % 2 == 1
  }

  // ---------- lanes ----------

  predicate ValidLane(name: string) {
    1 <= |name| <= 64 && IsAlnum(name[0]) &&
    (forall c | c in name :: IsAlnum(c) || c in "._/-") &&
    name[|name| - 1] != '/' &&
    forall i | 0 <= i < |name| - 1 :: !(name[i] == name[i + 1] && name[i] in "./")
  }

  function CurrentBranch(events: seq<Event>): string {
    if events == [] then "main" else events[|events| - 1].branch
  }

  predicate KnownBranch(events: seq<Event>, name: string) {
    name == "main" || (name != "" && exists e | e in events :: e.branch == name)
  }

  method BranchNames(events: seq<Event>) returns (names: seq<string>)
    ensures forall name :: name in names <==> KnownBranch(events, name)
    ensures forall i, j | 0 <= i < j < |names| :: names[i] != names[j]
    ensures names != [] && names[0] == "main"
  {
    names := ["main"];
    for i := 0 to |events|
      invariant forall name :: name in names <==> KnownBranch(events[..i], name)
      invariant forall i, j | 0 <= i < j < |names| :: names[i] != names[j]
      invariant |names| > 0 && names[0] == "main"
    {
      assert events[..i + 1] == events[..i] + [events[i]];
      var branch := events[i].branch;
      if branch != "" && branch !in names { names := names + [branch]; }
    }
    assert events[..|events|] == events;
  }
}
