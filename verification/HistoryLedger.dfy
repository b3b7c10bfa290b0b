/** What the journal says about the document.  Path by path, the document is
    the initial one moved by the actions in force: whatever was undone and
    redone in between, and in whatever order, leaves no trace. */
module HistoryLedger {
  import opened Json
  import opened MergePatch
  import opened SelectiveUndo
  import opened Journal
  import opened JournalLaws
  import opened Collections

  /** A recorded action carries the patches between the two documents it names,
      and lanes and bookmarks carry none. */
  ghost predicate Paired(event: Event) {
    match event.kind
    case Action =>
      event.beforeState.Some? && event.afterState.Some? &&
      var was, now := event.beforeState.value, event.afterState.value;
      NullsShared(was, now) && event.forward == CreateMergePatch(was, now) &&
      event.inverse == CreateMergePatch(now, was)
    case Compensation => true
    case _ => event.forward == map[] && event.inverse == map[]
  }

  ghost predicate SoundJournal(events: seq<Event>) {
    AllAlternate(events) && UniqueIds(events) && forall e | e in events :: Paired(e)
  }

  predicate Unused(events: seq<Event>, id: string) {
    forall e | e in events :: e.id != id
  }

  predicate Extends(before: seq<Event>, after: seq<Event>) {
    |after| == |before| + 1 && before <= after && Unused(before, after[|before|].id)
  }

  // ---------- the changes of the actions in force ----------

  function KnownState(state: Option<Doc>): Doc {
    if state.Some? then state.value else map[]
  }

  /** The change an action made, as far as it is known. */
  function ChangeOf(event: Event): Change {
    Change(KnownState(event.beforeState), KnownState(event.afterState))
  }

  /** Which events are actions in force. */
  function Force(events: seq<Event>): seq<bool> {
    seq(|events|, i requires 0 <= i < |events| => events[i].kind == Action && Effective(events, events[i].id))
  }

  /** The changes of the marked ones among the first `n` events. */
  function ChangesOf(events: seq<Event>, force: seq<bool>, n: nat): multiset<Change>
    requires n <= |events| && n <= |force|
  {
    if n == 0 then multiset{}
    else if force[n - 1] then ChangesOf(events, force, n - 1) + multiset{ChangeOf(events[n - 1])}
    else ChangesOf(events, force, n - 1)
  }

  /** The changes of the actions in force, counted, in no order. */
  function ChangesInForce(events: seq<Event>): multiset<Change> {
    ChangesOf(events, Force(events), |events|)
  }

  function CellOf(path: Path, after: bool): Change -> Cell {
    (change: Change) => CellAt(if after then change.after else change.before, path)
  }

  /** The cells at `path` that the actions in force found, or left. */
  ghost function Tally(events: seq<Event>, path: Path, after: bool): multiset<Cell> {
    Image(ChangesInForce(events), CellOf(path, after))
  }

  /** At this path: the document's cell and what the actions in force found
      balance the initial cell and what they left. */
  ghost predicate Balanced(initial: Doc, document: Doc, events: seq<Event>, path: Path) {
    multiset{CellAt(document, path)} + Tally(events, path, false) ==
    multiset{CellAt(initial, path)} + Tally(events, path, true)
  }

  ghost predicate Conserved(initial: Doc, document: Doc, events: seq<Event>) {
    forall path :: Balanced(initial, document, events, path)
  }

  // ---------- how appending moves them ----------

  lemma {:induction false} ChangesSame(before: seq<Event>, after: seq<Event>, force: seq<bool>, longer: seq<bool>,
                                       n: nat)
    requires n <= |before| && n <= |after| && n <= |force| && n <= |longer|
    requires before[..n] == after[..n] && force[..n] == longer[..n]
    ensures ChangesOf(before, force, n) == ChangesOf(after, longer, n)
  {
    if n > 0 {
      assert before[..n - 1] == before[..n][..n - 1] && after[..n - 1] == after[..n][..n - 1];
      assert force[..n - 1] == force[..n][..n - 1] && longer[..n - 1] == longer[..n][..n - 1];
      ChangesSame(before, after, force, longer, n - 1);
      assert before[n - 1] == before[..n][n - 1] && force[n - 1] == force[..n][n - 1];
    }
  }

  lemma ForceOfAction(before: seq<Event>, after: seq<Event>)
    requires AllAlternate(before) && Extends(before, after) && after[|before|].kind == Action
    ensures Force(after) == Force(before) + [true]
  {
    var event := after[|before|];
    assert after == before + [event];
    FreshStartsChain(before, event.id);
    ChainAppend(before, event, event.id);
    forall i | 0 <= i < |before| ensures Force(after)[i] == Force(before)[i] {
      assert before[i] in before;
      ChainAppend(before, event, before[i].id);
    }
  }

  lemma ForceOfMark(before: seq<Event>, after: seq<Event>)
    requires |after| == |before| + 1 && before <= after && after[|before|].kind in {Bookmark, Branch}
    ensures Force(after) == Force(before) + [false]
  {
    var event := after[|before|];
    assert after == before + [event];
    forall i | 0 <= i < |before| ensures Force(after)[i] == Force(before)[i] {
      ChainAppend(before, event, before[i].id);
    }
  }

  lemma ForceOfToggle(before: seq<Event>, after: seq<Event>, r: nat)
    requires UniqueIds(before) && r < |before| && before[r].kind == Action
    requires Toggled(before, after, before[r].id)
    ensures Force(after) == Force(before)[r := !Force(before)[r]] + [false]
  {
    var flipped := Force(before)[r := !Force(before)[r]];
    forall i | 0 <= i < |before| ensures Force(after)[i] == flipped[i] {
      ToggleFlips(before, after, before[r].id, before[i].id);
      assert i < r ==> before[i].id != before[r].id;
      assert i > r ==> before[r].id != before[i].id;
    }
  }

  lemma ChangesAppend(before: seq<Event>, after: seq<Event>)
    requires |after| == |before| + 1 && before <= after
    requires Force(after) == Force(before) + [Force(after)[|before|]]
    ensures ChangesInForce(after) ==
            if Force(after)[|before|] then ChangesInForce(before) + multiset{ChangeOf(after[|before|])}
            else ChangesInForce(before)
  {
    ChangesSame(before, after, Force(before), Force(after), |before|);
  }

  lemma {:induction false} ChangesFlip(events: seq<Event>, force: seq<bool>, r: nat, n: nat)
    requires r < n <= |events| && n <= |force| && force[r]
    ensures ChangesOf(events, force, n) ==
            ChangesOf(events, force[r := false], n) + multiset{ChangeOf(events[r])}
  {
    if n - 1 == r {
      assert force[..r] == force[r := false][..r];
      ChangesSame(events, events, force, force[r := false], r);
    } else {
      ChangesFlip(events, force, r, n - 1);
    }
  }

  /** A toggle takes its action's change out of force, or puts it in. */
  lemma ChangesToggled(before: seq<Event>, after: seq<Event>, r: nat)
    requires UniqueIds(before) && r < |before| && before[r].kind == Action
    requires Toggled(before, after, before[r].id)
    ensures var change := multiset{ChangeOf(before[r])};
            if Effective(before, before[r].id) then ChangesInForce(before) == ChangesInForce(after) + change
            else ChangesInForce(after) == ChangesInForce(before) + change
  {
    var n, force, longer := |before|, Force(before), Force(after);
    ForceOfToggle(before, after, r);
    var flipped := force[r := !force[r]];
    ChangesSame(before, after, flipped, longer, n);
    if force[r] {
      ChangesFlip(before, force, r, n);
    } else {
      ChangesFlip(before, flipped, r, n);
      assert flipped[r := false] == force;
    }
  }

  // ---------- balance is kept ----------

  /** Adding an action that moves the document's cell from `found` to `left`. */
  lemma MoveForward(here: Cell, there: Cell, next: Cell, found: Cell, left: Cell, f: multiset<Cell>, l: multiset<Cell>)
    requires multiset{here} + f == multiset{there} + l
    requires (here == found && next == left) || (found == left && next == here)
    ensures multiset{next} + (f + multiset{found}) == multiset{there} + (l + multiset{left})
  {
    assert multiset{next} + (f + multiset{found}) == (multiset{here} + f) + multiset{left};
    assert multiset{there} + (l + multiset{left}) == (multiset{there} + l) + multiset{left};
  }

  /** Taking it away again. */
  lemma MoveBack(here: Cell, there: Cell, next: Cell, found: Cell, left: Cell, f: multiset<Cell>, l: multiset<Cell>)
    requires multiset{here} + (f + multiset{found}) == multiset{there} + (l + multiset{left})
    requires (here == left && next == found) || (found == left && next == here)
    ensures multiset{next} + f == multiset{there} + l
  {
    var one, two := multiset{next} + f, multiset{there} + l;
    assert one + multiset{left} == multiset{here} + (f + multiset{found});
    assert two + multiset{left} == multiset{there} + (l + multiset{left});
    Cancel(one, two, multiset{left});
  }

  lemma SoundExtends(before: seq<Event>, after: seq<Event>)
    requires SoundJournal(before) && Extends(before, after) && Paired(after[|before|])
    requires after[|before|].kind != Compensation
    ensures SoundJournal(after)
  {
    var event := after[|before|];
    assert after == before + [event];
    OtherKindKeepsAlternating(before, event);
    UniqueExtends(before, after);
  }

  lemma UniqueExtends(before: seq<Event>, after: seq<Event>)
    requires UniqueIds(before) && Extends(before, after)
    ensures UniqueIds(after)
  {
    forall i, j | 0 <= i < j < |after| ensures after[i].id != after[j].id {
      assert after[i] == before[i];
      if j == |before| { assert before[i] in before; } else { assert after[j] == before[j]; }
    }
  }

  lemma ActionKeepsBalance(initial: Doc, document: Doc, before: seq<Event>, after: seq<Event>)
    requires SoundJournal(before) && Conserved(initial, document, before) && Extends(before, after)
    requires after[|before|].kind == Action && Paired(after[|before|])
    requires ChangeOf(after[|before|]).before == document
    ensures SoundJournal(after) && Conserved(initial, ChangeOf(after[|before|]).after, after)
  {
    SoundExtends(before, after);
    ForceOfAction(before, after);
    ChangesAppend(before, after);
    var change := ChangeOf(after[|before|]);
    forall path ensures Balanced(initial, change.after, after, path) {
      assert Balanced(initial, document, before, path);
      TallyAdd(ChangesInForce(before), change, path);
      MoveForward(CellAt(document, path), CellAt(initial, path), CellAt(change.after, path),
                  CellAt(change.before, path), CellAt(change.after, path),
                  Tally(before, path, false), Tally(before, path, true));
    }
  }

  lemma TallyAdd(changes: multiset<Change>, change: Change, path: Path)
    ensures Image(changes + multiset{change}, CellOf(path, false)) ==
            Image(changes, CellOf(path, false)) + multiset{CellAt(change.before, path)}
    ensures Image(changes + multiset{change}, CellOf(path, true)) ==
            Image(changes, CellOf(path, true)) + multiset{CellAt(change.after, path)}
  {
    ImageAdd(changes, change, CellOf(path, false));
    ImageAdd(changes, change, CellOf(path, true));
  }

  lemma MarkKeepsBalance(initial: Doc, document: Doc, before: seq<Event>, after: seq<Event>)
    requires SoundJournal(before) && Conserved(initial, document, before) && Extends(before, after)
    requires after[|before|].kind in {Bookmark, Branch} && Paired(after[|before|])
    ensures SoundJournal(after) && Conserved(initial, document, after)
  {
    SoundExtends(before, after);
    ForceOfMark(before, after);
    ChangesAppend(before, after);
    forall path ensures Balanced(initial, document, after, path) {
      assert Balanced(initial, document, before, path);
    }
  }

  /** The action a toggle is for, and the patches the toggle carries. */
  lemma ToggledAction(before: seq<Event>, after: seq<Event>, rootId: string) returns (r: nat)
    requires SoundJournal(before) && Toggled(before, after, rootId)
    ensures r < |before| && before[r].kind == Action && before[r].id == rootId && Paired(before[r])
    ensures var event := after[|before|];
            if Effective(before, rootId) then event.forward == before[r].inverse && event.inverse == before[r].forward
            else event.forward == before[r].forward && event.inverse == before[r].inverse
  {
    ChainHead(before, rootId);
    EffectiveReadsTail(before, rootId);
    var head := Chain(before, rootId)[0];
    r :| 0 <= r < |before| && before[r] == head;
  }

  /** An accepted undo or redo keeps the balance. */
  lemma ToggleKeepsBalance(initial: Doc, document: Doc, before: seq<Event>, after: seq<Event>, rootId: string)
    requires SoundJournal(before) && Conserved(initial, document, before)
    requires Extends(before, after) && Toggled(before, after, rootId)
    requires Accepts(document, after[|before|].forward, after[|before|].inverse)
    ensures var result := ApplyMergePatch(document, after[|before|].forward);
            SoundJournal(after) && Conserved(initial, result, after)
  {
    var result := ApplyMergePatch(document, after[|before|].forward);
    var r := ToggledAction(before, after, rootId);
    var was, now := ChangeOf(before[r]).before, ChangeOf(before[r]).after;
    ToggleKeepsAlternating(before, after, rootId);
    UniqueExtends(before, after);
    SharedSymmetric(was, now);
    forall path ensures Balanced(initial, result, after, path) {
      assert Balanced(initial, document, before, path);
      ToggleMovesBalance(initial, document, result, before, after, r, path);
    }
  }

  lemma ToggleMovesBalance(initial: Doc, document: Doc, result: Doc, before: seq<Event>, after: seq<Event>, r: nat,
                           path: Path)
    requires SoundJournal(before) && r < |before| && before[r].kind == Action
    requires Toggled(before, after, before[r].id) && Balanced(initial, document, before, path)
    requires var was, now := ChangeOf(before[r]).before, ChangeOf(before[r]).after;
             if Effective(before, before[r].id)
             then UndoAccepts(document, was, now) && result == Undone(document, was, now)
             else UndoAccepts(document, now, was) && result == Undone(document, now, was)
    ensures Balanced(initial, result, after, path)
  {
    assert Paired(before[r]);
    var was, now := ChangeOf(before[r]).before, ChangeOf(before[r]).after;
    var here, there, next := CellAt(document, path), CellAt(initial, path), CellAt(result, path);
    SharedSymmetric(was, now);
    ChangesToggled(before, after, r);
    if Effective(before, before[r].id) {
      UndoMovesCell(document, was, now, path);
      TallyAdd(ChangesInForce(after), ChangeOf(before[r]), path);
      MoveBack(here, there, next, CellAt(was, path), CellAt(now, path),
               Tally(after, path, false), Tally(after, path, true));
    } else {
      UndoMovesCell(document, now, was, path);
      TallyAdd(ChangesInForce(before), ChangeOf(before[r]), path);
      MoveForward(here, there, next, CellAt(was, path), CellAt(now, path),
                  Tally(before, path, false), Tally(before, path, true));
    }
  }

  /** A refused undo or redo and its repair keep the balance of the untouched
      document. */
  lemma RepairKeepsBalance(initial: Doc, document: Doc, before: seq<Event>, middle: seq<Event>, after: seq<Event>,
                           rootId: string)
    requires SoundJournal(before) && Conserved(initial, document, before)
    requires Extends(before, middle) && Toggled(before, middle, rootId)
    requires Extends(middle, after) && Toggled(middle, after, rootId)
    ensures SoundJournal(after) && Conserved(initial, document, after)
  {
    var r := ToggledAction(before, middle, rootId);
    ToggleKeepsAlternating(before, middle, rootId);
    ToggleKeepsAlternating(middle, after, rootId);
    UniqueExtends(before, middle);
    UniqueExtends(middle, after);
    ToggleFlips(before, middle, rootId, rootId);
    ChangesToggled(before, middle, r);
    ChangesToggled(middle, after, r);
    if !Effective(before, rootId) {
      Cancel(ChangesInForce(before), ChangesInForce(after), multiset{ChangeOf(before[r])});
    }
    forall path ensures Balanced(initial, document, after, path) {
      assert Balanced(initial, document, before, path);
    }
  }

  /** Half of that, a toggle whose document and repair are both missing, keeps
      the balance exactly when the action had changed nothing. */
  lemma HalfToggleExact(initial: Doc, document: Doc, before: seq<Event>, after: seq<Event>, rootId: string)
    requires SoundJournal(before) && Conserved(initial, document, before)
    requires Extends(before, after) && Toggled(before, after, rootId)
    ensures SoundJournal(after)
    ensures Conserved(initial, document, after) <==> after[|before|].forward == map[]
  {
    var r := ToggledAction(before, after, rootId);
    var was, now := ChangeOf(before[r]).before, ChangeOf(before[r]).after;
    ToggleKeepsAlternating(before, after, rootId);
    UniqueExtends(before, after);
    SharedSymmetric(was, now);
    SharedPatchEmptyExact(was, now);
    SharedPatchEmptyExact(now, was);
    ChangesToggled(before, after, r);
    forall path ensures Balanced(initial, document, after, path) <==> CellAt(was, path) == CellAt(now, path) {
      assert Balanced(initial, document, before, path);
      HalfToggleCell(initial, document, before, after, r, path);
    }
    if Conserved(initial, document, after) {
      forall path ensures CellAt(was, path) == CellAt(now, path) {
        assert Balanced(initial, document, after, path);
      }
      SameCells(was, now);
    }
  }

  lemma HalfToggleCell(initial: Doc, document: Doc, before: seq<Event>, after: seq<Event>, r: nat, path: Path)
    requires UniqueIds(before) && r < |before| && before[r].kind == Action
    requires Toggled(before, after, before[r].id) && Balanced(initial, document, before, path)
    ensures var change := ChangeOf(before[r]);
            Balanced(initial, document, after, path) <==> CellAt(change.before, path) == CellAt(change.after, path)
  {
    var change := ChangeOf(before[r]);
    var here, there := multiset{CellAt(document, path)}, multiset{CellAt(initial, path)};
    var found, left := CellAt(change.before, path), CellAt(change.after, path);
    ChangesToggled(before, after, r);
    if Effective(before, before[r].id) {
      TallyAdd(ChangesInForce(after), change, path);
      OneMoreEach(here, Tally(after, path, false), found, there, Tally(after, path, true), left);
    } else {
      TallyAdd(ChangesInForce(before), change, path);
      OneMoreEach(here, Tally(before, path, false), found, there, Tally(before, path, true), left);
    }
  }

  // ---------- what decides the document ----------

  /** The actions in force moved this path's cell in the same way: counted
      together, what the ones found and the others left is what the others
      found and the ones left. */
  ghost predicate SameMovementAt(ones: seq<Event>, twos: seq<Event>, path: Path) {
    Tally(ones, path, false) + Tally(twos, path, true) == Tally(twos, path, false) + Tally(ones, path, true)
  }

  ghost predicate SameMovement(ones: seq<Event>, twos: seq<Event>) {
    forall path :: SameMovementAt(ones, twos, path)
  }

  lemma MovementDecidesCell(initial: Doc, one: Doc, ones: seq<Event>, two: Doc, twos: seq<Event>, path: Path)
    requires Balanced(initial, one, ones, path) && Balanced(initial, two, twos, path)
    ensures CellAt(one, path) == CellAt(two, path) <==> SameMovementAt(ones, twos, path)
  {
    CrossCancel(CellAt(one, path), Tally(ones, path, false), Tally(ones, path, true),
                CellAt(two, path), Tally(twos, path, false), Tally(twos, path, true), multiset{CellAt(initial, path)});
  }

  /** Two documents over one initial document are the same exactly when the
      actions in force moved every path's cell in the same way. */
  lemma MovementDecidesDocument(initial: Doc, one: Doc, ones: seq<Event>, two: Doc, twos: seq<Event>)
    requires Conserved(initial, one, ones) && Conserved(initial, two, twos)
    ensures one == two <==> SameMovement(ones, twos)
  {
    forall path ensures CellAt(one, path) == CellAt(two, path) <==> SameMovementAt(ones, twos, path) {
      assert Balanced(initial, one, ones, path) && Balanced(initial, two, twos, path);
      MovementDecidesCell(initial, one, ones, two, twos, path);
    }
    if SameMovement(ones, twos) {
      forall path ensures CellAt(one, path) == CellAt(two, path) { assert SameMovementAt(ones, twos, path); }
      SameCells(one, two);
    }
  }

  /** An action undone under later work moves nothing that the later work done
      without it would not. */
  lemma UndoneUnderSameMovement(ones: seq<Event>, twos: seq<Event>, rest: multiset<Change>, was: Doc, did: Doc,
                                later: Doc)
    requires NullsShared(was, did) && NullsShared(did, later) && UndoAccepts(later, was, did)
    requires ChangesInForce(ones) == rest + multiset{Change(did, later)}
    requires ChangesInForce(twos) == rest + multiset{Change(was, Undone(was, later, did))}
    ensures SameMovement(ones, twos)
  {
    var alone := Undone(was, later, did);
    UndoIsNeverDoing(was, did, later);
    SharedSymmetric(did, later);
    forall path ensures SameMovementAt(ones, twos, path) {
      TallyAdd(rest, Change(did, later), path);
      TallyAdd(rest, Change(was, alone), path);
      UndoMovesCell(was, later, did, path);
    }
  }
}
