/** Selective undo.  An action took `before` to `after`; its undo patch is
    CreateMergePatch(after, before), guarded by what the action wrote,
    CreateMergePatch(before, after).  `current` is any later document. */
module SelectiveUndo {
  import opened Json
  import opened MergePatch
  import opened MergePatchLaws

  /** The paths an action replaced, added or removed as a whole. */
  ghost predicate Changed(before: Doc, after: Doc, path: Path) {
    path != [] && Reaches(before, path) && Reaches(after, path) &&
    At(Object(before), path) != At(Object(after), path) &&
    !(ObjectAt(Object(before), path) && ObjectAt(Object(after), path))
  }

  /** The objects an action kept but changed something inside. */
  ghost predicate Above(before: Doc, after: Doc, path: Path) {
    ObjectAt(Object(before), path) && ObjectAt(Object(after), path) &&
    At(Object(before), path) != At(Object(after), path)
  }

  ghost predicate AtOrBelowChange(before: Doc, after: Doc, path: Path) {
    exists n | 0 <= n <= |path| :: Changed(before, after, path[..n])
  }

  /** `current` still agrees with `after` at, and on the way to, every path
      the action changed. */
  ghost predicate StillAgrees(current: Doc, before: Doc, after: Doc) {
    forall path | Changed(before, after, path) ::
      Reaches(current, path) && At(Object(current), path) == At(Object(after), path)
  }

  ghost predicate UndoAccepts(current: Doc, before: Doc, after: Doc) {
    Accepts(current, CreateMergePatch(after, before), CreateMergePatch(before, after))
  }

  function Undone(current: Doc, before: Doc, after: Doc): Doc {
    ApplyMergePatch(current, CreateMergePatch(after, before))
  }

  predicate BothObjects(before: Doc, after: Doc, key: string) {
    key in before && key in after && before[key].Object? && after[key].Object?
  }

  // ---------- documents whose changes write no null ----------

  ghost predicate NullFreeMember(doc: Doc, key: string) {
    key !in doc || (doc[key] != Null && (doc[key].Object? ==> NullFree(doc[key].members)))
  }

  ghost predicate SharedMember(before: Doc, after: Doc, key: string)
    decreases Object(after), 0
  {
    Get(before, key) == Get(after, key) ||
    if BothObjects(before, after, key) then NullsShared(before[key].members, after[key].members)
    else NullFreeMember(before, key) && NullFreeMember(after, key)
  }

  /** Every null member of either document lies in a part the two share. */
  ghost predicate NullsShared(before: Doc, after: Doc)
    decreases Object(after), 1
  {
    forall key :: SharedMember(before, after, key)
  }

  lemma {:induction false} NullFreeShares(before: Doc, after: Doc)
    requires NullFree(before) && NullFree(after)
    ensures NullsShared(before, after)
    decreases Object(after)
  {
    forall key ensures SharedMember(before, after, key) {
      if BothObjects(before, after, key) { NullFreeShares(before[key].members, after[key].members); }
    }
  }

  lemma {:induction false} SharedSymmetric(before: Doc, after: Doc)
    requires NullsShared(before, after)
    ensures NullsShared(after, before)
    decreases Object(after)
  {
    forall key ensures SharedMember(after, before, key) {
      assert SharedMember(before, after, key);
      if Get(before, key) != Get(after, key) && BothObjects(before, after, key) {
        SharedSymmetric(before[key].members, after[key].members);
      }
    }
  }

  lemma {:induction false} SharedIsSettled(before: Doc, after: Doc)
    requires NullsShared(before, after)
    ensures NullsSettled(before, after)
    decreases Object(after)
  {
    forall key | key in after ensures MemberSettled(before, after, key) {
      assert SharedMember(before, after, key);
      if Get(before, key) != Some(after[key]) && after[key].Object? {
        if BothObjects(before, after, key) {
          SharedIsSettled(before[key].members, after[key].members);
        } else {
          NullFreeIsSettled(MembersAt(before, key), after[key].members);
        }
      }
    }
  }

  lemma SharedPatchEmptyExact(before: Doc, after: Doc)
    requires NullsShared(before, after)
    ensures CreateMergePatch(before, after) == map[] <==> before == after
  {
    SharedIsSettled(before, after);
    RoundTripExact(before, after);
    EmptyPatchChangesNothing(before);
    if before == after { NoChangeNoPatch(before); }
  }

  lemma NoChangeNoPatch(doc: Doc)
    ensures CreateMergePatch(doc, doc) == map[]
  {
    forall key ensures Get(CreateMergePatch(doc, doc), key) == None { MemberOfPatch(doc, doc, key); }
    SameMembers(CreateMergePatch(doc, doc), map[]);
  }

  // ---------- one member at a time ----------

  /** What the undo patch and its expectation hold for one member. */
  lemma PairMember(before: Doc, after: Doc, key: string)
    requires NullsShared(before, after)
    ensures SharedMember(before, after, key)
    ensures var undo, did := CreateMergePatch(after, before), CreateMergePatch(before, after);
            if Get(before, key) == Get(after, key) then key !in undo && key !in did
            else if BothObjects(before, after, key) then
              Get(undo, key) == Some(Object(CreateMergePatch(after[key].members, before[key].members))) &&
              Get(did, key) == Some(Object(CreateMergePatch(before[key].members, after[key].members)))
            else
              Get(undo, key) == Some(if key in before then before[key] else Null) &&
              Get(did, key) == Some(if key in after then after[key] else Null)
  {
    MemberOfPatch(before, after, key);
    MemberOfPatch(after, before, key);
    assert SharedMember(before, after, key);
    if Get(before, key) == Get(after, key) {
    } else if BothObjects(before, after, key) {
      SharedSymmetric(before[key].members, after[key].members);
      SharedPatchEmptyExact(before[key].members, after[key].members);
      SharedPatchEmptyExact(after[key].members, before[key].members);
    } else {
      if key in before && before[key].Object? { PatchFromScratch(before[key].members); }
      if key in after && after[key].Object? { PatchFromScratch(after[key].members); }
    }
  }

  ghost predicate MemberAgrees(current: Doc, before: Doc, after: Doc, key: string) {
    if Get(before, key) == Get(after, key) then true
    else if BothObjects(before, after, key) then
      key in current && current[key].Object? &&
      UndoAccepts(current[key].members, before[key].members, after[key].members)
    else Get(current, key) == Get(after, key)
  }

  lemma AcceptsByMember(current: Doc, before: Doc, after: Doc)
    requires NullsShared(before, after)
    ensures UndoAccepts(current, before, after) <==> forall key :: MemberAgrees(current, before, after, key)
  {
    forall key { PairMember(before, after, key); }
    if UndoAccepts(current, before, after) {
      forall key ensures MemberAgrees(current, before, after, key) {
        PairMember(before, after, key);
      }
    }
    if forall key :: MemberAgrees(current, before, after, key) {
      var undo, did := CreateMergePatch(after, before), CreateMergePatch(before, after);
      forall key | key in undo
        ensures key in did &&
                if undo[key].Object? && did[key].Object? then
                  key in current && current[key].Object? &&
                  Accepts(current[key].members, undo[key].members, did[key].members)
                else Matches(Get(current, key), did[key])
      {
        PairMember(before, after, key);
        assert MemberAgrees(current, before, after, key);
      }
    }
  }

  function UndoneMember(current: Doc, before: Doc, after: Doc, key: string): Option<Value> {
    if Get(before, key) == Get(after, key) then Get(current, key)
    else if BothObjects(before, after, key) && key in current && current[key].Object? then
      Some(Object(Undone(current[key].members, before[key].members, after[key].members)))
    else Get(before, key)
  }

  lemma MemberOfUndone(current: Doc, before: Doc, after: Doc, key: string)
    requires NullsShared(before, after) && MemberAgrees(current, before, after, key)
    ensures SharedMember(before, after, key)
    ensures Get(Undone(current, before, after), key) == UndoneMember(current, before, after, key)
  {
    PairMember(before, after, key);
    MemberOfMerge(current, CreateMergePatch(after, before), key);
  }

  // ---------- undo and redo are exact inverses ----------

  lemma {:induction false} RedoRestores(current: Doc, before: Doc, after: Doc)
    requires NullsShared(before, after) && UndoAccepts(current, before, after)
    ensures var undone := Undone(current, before, after);
            UndoAccepts(undone, after, before) && Undone(undone, after, before) == current
    decreases Object(after)
  {
    var undone := Undone(current, before, after);
    AcceptsByMember(current, before, after);
    SharedSymmetric(before, after);
    forall key
      ensures MemberAgrees(undone, after, before, key)
      ensures Get(Undone(undone, after, before), key) == Get(current, key)
    {
      MemberOfUndone(current, before, after, key);
      PairMember(after, before, key);
      if Get(before, key) != Get(after, key) && BothObjects(before, after, key) {
        RedoRestores(current[key].members, before[key].members, after[key].members);
      }
      MemberOfUndone(undone, after, before, key);
    }
    AcceptsByMember(undone, after, before);
    SameMembers(Undone(undone, after, before), current);
  }

  /** Writing the undo patch and then the redo patch without the guard gives
      the document back exactly when the guard would have let the undo through. */
  lemma {:induction false} UnguardedPairExact(current: Doc, before: Doc, after: Doc)
    requires NullsShared(before, after)
    ensures Undone(Undone(current, before, after), after, before) == current <==>
            UndoAccepts(current, before, after)
    decreases Object(after)
  {
    var undone := Undone(current, before, after);
    var again := Undone(undone, after, before);
    if UndoAccepts(current, before, after) {
      RedoRestores(current, before, after);
    } else {
      AcceptsByMember(current, before, after);
      SharedSymmetric(before, after);
      var key :| !MemberAgrees(current, before, after, key);
      PairMember(before, after, key);
      PairMember(after, before, key);
      MemberOfMerge(current, CreateMergePatch(after, before), key);
      MemberOfMerge(undone, CreateMergePatch(before, after), key);
      if BothObjects(before, after, key) && key in current && current[key].Object? {
        UnguardedPairExact(current[key].members, before[key].members, after[key].members);
      }
      assert Get(again, key) != Get(current, key);
    }
  }

  lemma {:induction false} UndoKeepsNullFree(current: Doc, before: Doc, after: Doc)
    requires NullsShared(before, after) && NullFree(current) && UndoAccepts(current, before, after)
    ensures NullFree(Undone(current, before, after))
    decreases Object(after)
  {
    AcceptsByMember(current, before, after);
    var undone := Undone(current, before, after);
    forall key | key in undone
      ensures undone[key] != Null && (undone[key].Object? ==> NullFree(undone[key].members))
    {
      MemberOfUndone(current, before, after, key);
      assert MemberAgrees(current, before, after, key);
      assert Get(undone, key) == Some(undone[key]);
      if Get(before, key) != Get(after, key) && BothObjects(before, after, key) {
        UndoKeepsNullFree(current[key].members, before[key].members, after[key].members);
      }
    }
  }

  lemma {:induction false} AcceptedIsCompatible(current: Doc, before: Doc, after: Doc)
    requires NullsShared(before, after) && UndoAccepts(current, before, after)
    ensures Compatible(current, CreateMergePatch(after, before))
    decreases Object(after)
  {
    AcceptsByMember(current, before, after);
    var undo := CreateMergePatch(after, before);
    forall key | key in undo && undo[key].Object?
      ensures if key in current && current[key].Object? then Compatible(current[key].members, undo[key].members)
              else NullFree(undo[key].members)
    {
      PairMember(before, after, key);
      assert MemberAgrees(current, before, after, key);
      if BothObjects(before, after, key) {
        AcceptedIsCompatible(current[key].members, before[key].members, after[key].members);
      }
    }
  }

  /** An accepted undo computes exactly RFC 7396. */
  lemma AcceptedUndoIsRfc(current: Doc, before: Doc, after: Doc)
    requires NullsShared(before, after) && UndoAccepts(current, before, after)
    ensures Object(Undone(current, before, after)) ==
            RfcMergePatch(Object(current), Object(CreateMergePatch(after, before)))
  {
    AcceptedIsCompatible(current, before, after);
    ApplyIsRfcExact(current, CreateMergePatch(after, before));
  }

  // ---------- the guard is exact ----------

  lemma ChangedBelow(before: Doc, after: Doc, key: string, rest: Path)
    requires BothObjects(before, after, key)
    ensures Changed(before, after, [key] + rest) <==> Changed(before[key].members, after[key].members, rest)
    ensures Above(before, after, [key] + rest) <==> Above(before[key].members, after[key].members, rest)
  {
    var path := [key] + rest;
    assert path[1..] == rest;
    AtStep(before, path);
    AtStep(after, path);
    assert At(Object(before), path) == At(before[key], rest);
    assert At(Object(after), path) == At(after[key], rest);
  }

  lemma AtBelow(doc: Doc, key: string, rest: Path)
    requires key in doc && doc[key].Object?
    ensures At(Object(doc), [key] + rest) == At(Object(doc[key].members), rest)
    ensures rest != [] ==> (Reaches(doc, [key] + rest) <==> Reaches(doc[key].members, rest))
  {
    assert ([key] + rest)[1..] == rest;
  }

  /** Two different documents differ at a smallest path. */
  lemma {:induction false} DifferenceHasPath(before: Doc, after: Doc) returns (path: Path)
    requires before != after
    ensures Changed(before, after, path)
    decreases Object(after)
  {
    SameDocIff(before, after);
    var key :| Get(before, key) != Get(after, key);
    if BothObjects(before, after, key) {
      var rest := DifferenceHasPath(before[key].members, after[key].members);
      ChangedBelow(before, after, key, rest);
      path := [key] + rest;
    } else {
      path := [key];
      assert At(Object(before), path) == Get(before, key) && At(Object(after), path) == Get(after, key);
    }
  }

  lemma AgreesBelow(current: Doc, before: Doc, after: Doc, key: string)
    requires StillAgrees(current, before, after) && BothObjects(before, after, key) && before[key] != after[key]
    ensures key in current && current[key].Object?
    ensures StillAgrees(current[key].members, before[key].members, after[key].members)
  {
    var was, now := before[key].members, after[key].members;
    var rest := DifferenceHasPath(was, now);
    ChangedBelow(before, after, key, rest);
    assert Reaches(current, [key] + rest);
    forall path | Changed(was, now, path)
      ensures Reaches(current[key].members, path)
      ensures At(Object(current[key].members), path) == At(Object(now), path)
    {
      ChangedBelow(before, after, key, path);
      assert Reaches(current, [key] + path);
      AtBelow(current, key, path);
      AtBelow(after, key, path);
    }
  }

  /** The guard accepts exactly the documents that still agree with the action. */
  lemma {:induction false} GuardExact(current: Doc, before: Doc, after: Doc)
    requires NullsShared(before, after)
    ensures UndoAccepts(current, before, after) <==> StillAgrees(current, before, after)
    decreases Object(after)
  {
    AcceptsByMember(current, before, after);
    if StillAgrees(current, before, after) {
      forall key ensures MemberAgrees(current, before, after, key) {
        assert SharedMember(before, after, key);
        if Get(before, key) != Get(after, key) {
          if BothObjects(before, after, key) {
            AgreesBelow(current, before, after, key);
            GuardExact(current[key].members, before[key].members, after[key].members);
          } else {
            ChangedTop(current, before, after, key);
          }
        }
      }
    }
    if UndoAccepts(current, before, after) {
      forall path | Changed(before, after, path)
        ensures Reaches(current, path) && At(Object(current), path) == At(Object(after), path)
      {
        AcceptedAgreesAt(current, before, after, path);
      }
    }
  }

  lemma ChangedTop(current: Doc, before: Doc, after: Doc, key: string)
    requires Get(before, key) != Get(after, key) && !BothObjects(before, after, key)
    ensures Changed(before, after, [key])
    ensures At(Object(current), [key]) == Get(current, key)
    ensures At(Object(after), [key]) == Get(after, key)
    ensures At(Object(before), [key]) == Get(before, key)
  {
    assert [key][1..] == [];
    assert forall doc: Doc :: At(Object(doc), [key]) == Get(doc, key);
    assert Changed(before, after, [key]);
  }

  lemma {:induction false} AcceptedAgreesAt(current: Doc, before: Doc, after: Doc, path: Path)
    requires NullsShared(before, after) && UndoAccepts(current, before, after)
    requires Changed(before, after, path)
    ensures Reaches(current, path) && At(Object(current), path) == At(Object(after), path)
    decreases |path|
  {
    var key, rest := path[0], path[1..];
    assert path == [key] + rest;
    AcceptsByMember(current, before, after);
    assert MemberAgrees(current, before, after, key) && SharedMember(before, after, key);
    if Get(before, key) == Get(after, key) {
      NothingChangedBelow(before, after, path);
      assert false;
    } else if BothObjects(before, after, key) {
      ChangedBelow(before, after, key, rest);
      AcceptedAgreesAt(current[key].members, before[key].members, after[key].members, rest);
      AtBelow(current, key, rest);
      AtBelow(after, key, rest);
    } else {
      assert |path| == 1;
      AtOne(current, path);
      AtOne(after, path);
    }
  }

  /** Every reported path is a changed path that no longer agrees, or an object
      on the way to one that is no longer there; and every such path is reported. */
  lemma {:induction false} ReportExact(current: Doc, before: Doc, after: Doc, path: Path)
    requires NullsShared(before, after)
    ensures Conflict(current, CreateMergePatch(after, before), CreateMergePatch(before, after), path) <==>
            path != [] && Reaches(current, path) &&
            ((Changed(before, after, path) && At(Object(current), path) != At(Object(after), path)) ||
             (Above(before, after, path) && !ObjectAt(Object(current), path)))
    decreases |path|
  {
    if path != [] {
      var key, rest := path[0], path[1..];
      assert path == [key] + rest;
      PairMember(before, after, key);
      if rest == [] {
        AtOne(current, path);
        AtOne(before, path);
        AtOne(after, path);
      }
      if Get(before, key) == Get(after, key) {
        assert At(Object(before), path) == At(Object(after), path);
      } else if BothObjects(before, after, key) {
        ChangedBelow(before, after, key, rest);
        if key in current && current[key].Object? {
          ReportExact(current[key].members, before[key].members, after[key].members, rest);
          AtBelow(current, key, rest);
          AtBelow(after, key, rest);
        }
      } else if rest != [] {
        AtStep(before, path);
        AtStep(after, path);
      }
    }
  }

  // ---------- what an accepted undo leaves behind ----------

  /** At and below every changed path the document holds `before`; on the way
      to one it keeps its objects; every other path reads as it did. */
  lemma {:induction false} UndoFrame(current: Doc, before: Doc, after: Doc, path: Path)
    requires NullsShared(before, after) && UndoAccepts(current, before, after)
    ensures var undone := Object(Undone(current, before, after));
            if AtOrBelowChange(before, after, path) then At(undone, path) == At(Object(before), path)
            else if Above(before, after, path) then ObjectAt(Object(current), path) && ObjectAt(undone, path)
            else At(undone, path) == At(Object(current), path)
    decreases |path|
  {
    var undone := Undone(current, before, after);
    if path == [] {
      assert !AtOrBelowChange(before, after, path);
      if before == after {
        forall key ensures Get(undone, key) == Get(current, key) {
          MemberOfUndone(current, before, after, key);
        }
        SameMembers(undone, current);
      }
    } else {
      var key, rest := path[0], path[1..];
      assert path == [key] + rest;
      AcceptsByMember(current, before, after);
      MemberOfUndone(current, before, after, key);
      assert MemberAgrees(current, before, after, key);
      assert undone == Object(undone).members;
      AtStep(undone, path);
      AtStep(current, path);
      AtStep(before, path);
      if Get(before, key) == Get(after, key) {
        NothingChangedBelow(before, after, path);
      } else if BothObjects(before, after, key) {
        UndoFrame(current[key].members, before[key].members, after[key].members, rest);
        ChangedPrefixBelow(before, after, key, rest);
        ChangedBelow(before, after, key, rest);
      } else {
        ChangedTop(current, before, after, key);
        assert path[..1] == [key];
        assert AtOrBelowChange(before, after, path);
      }
    }
  }

  lemma AtOne(doc: Doc, path: Path)
    requires |path| == 1
    ensures At(Object(doc), path) == Get(doc, path[0])
  {
    assert path[1..] == [];
  }

  lemma AtStep(doc: Doc, path: Path)
    requires path != []
    ensures At(Object(doc), path) ==
            match Get(doc, path[0]) case None => None case Some(value) => At(value, path[1..])
  {
  }

  lemma NothingChangedBelow(before: Doc, after: Doc, path: Path)
    requires path != [] && Get(before, path[0]) == Get(after, path[0])
    ensures !AtOrBelowChange(before, after, path) && !Above(before, after, path)
    ensures !Changed(before, after, path)
  {
    forall n | 0 <= n <= |path| ensures !Changed(before, after, path[..n]) {
      if n > 0 {
        assert path[..n][0] == path[0];
        AtStep(before, path[..n]);
        AtStep(after, path[..n]);
      }
    }
    AtStep(before, path);
    AtStep(after, path);
  }

  lemma ChangedPrefixBelow(before: Doc, after: Doc, key: string, rest: Path)
    requires BothObjects(before, after, key)
    ensures AtOrBelowChange(before, after, [key] + rest) <==>
            AtOrBelowChange(before[key].members, after[key].members, rest)
  {
    var path := [key] + rest;
    forall n | 0 <= n <= |rest|
      ensures Changed(before, after, path[..n + 1]) <==> Changed(before[key].members, after[key].members, rest[..n])
    {
      assert path[..n + 1] == [key] + rest[..n];
      ChangedBelow(before, after, key, rest[..n]);
    }
    if AtOrBelowChange(before, after, path) {
      var n :| 0 <= n <= |path| && Changed(before, after, path[..n]);
      assert Changed(before[key].members, after[key].members, rest[..n - 1]);
    }
  }

  // ---------- one path's content, and how an undo moves it ----------

  /** What a document holds at one path, the inside of objects left aside. */
  datatype Cell = Absent | Leaf(value: Value) | Inner

  function CellAt(doc: Doc, path: Path): Cell {
    match At(Object(doc), path)
    case None => Absent
    case Some(Object(_)) => Inner
    case Some(value) => Leaf(value)
  }

  /** At every path an accepted undo either moves the cell from what the action
      wrote to what it found, or leaves it and the action never moved it. */
  lemma UndoMovesCell(current: Doc, before: Doc, after: Doc, path: Path)
    requires NullsShared(before, after) && UndoAccepts(current, before, after)
    ensures var undone := Undone(current, before, after);
            if AtOrBelowChange(before, after, path) then
              CellAt(current, path) == CellAt(after, path) && CellAt(undone, path) == CellAt(before, path)
            else
              CellAt(before, path) == CellAt(after, path) && CellAt(undone, path) == CellAt(current, path)
  {
    UndoFrame(current, before, after, path);
    if AtOrBelowChange(before, after, path) {
      RedoRestores(current, before, after);
      ChangeIsSymmetric(before, after, path);
      SharedSymmetric(before, after);
      UndoFrame(Undone(current, before, after), after, before, path);
    } else {
      UnchangedCell(before, after, path);
    }
  }

  lemma ChangeIsSymmetric(before: Doc, after: Doc, path: Path)
    ensures AtOrBelowChange(before, after, path) <==> AtOrBelowChange(after, before, path)
  {
    assert forall p :: Changed(before, after, p) <==> Changed(after, before, p);
    if AtOrBelowChange(before, after, path) {
      var n :| 0 <= n <= |path| && Changed(before, after, path[..n]);
      assert Changed(after, before, path[..n]);
    }
    if AtOrBelowChange(after, before, path) {
      var n :| 0 <= n <= |path| && Changed(after, before, path[..n]);
      assert Changed(before, after, path[..n]);
    }
  }

  lemma {:induction false} UnchangedCell(before: Doc, after: Doc, path: Path)
    requires !AtOrBelowChange(before, after, path)
    ensures CellAt(before, path) == CellAt(after, path)
    decreases |path|
  {
    if path != [] {
      var key, rest := path[0], path[1..];
      assert path == [key] + rest;
      AtStep(before, path);
      AtStep(after, path);
      if Get(before, key) != Get(after, key) {
        if BothObjects(before, after, key) {
          ChangedPrefixBelow(before, after, key, rest);
          UnchangedCell(before[key].members, after[key].members, rest);
        } else {
          assert path[..1] == [key];
          ChangedTop(before, before, after, key);
        }
      }
    }
  }

  /** Documents with the same cells are the same document. */
  lemma SameCells(one: Doc, two: Doc)
    requires forall path :: CellAt(one, path) == CellAt(two, path)
    ensures one == two
  {
    if one != two {
      var path := DifferentCell(one, two);
    }
  }

  lemma DifferentCell(one: Doc, two: Doc) returns (path: Path)
    requires one != two
    ensures CellAt(one, path) != CellAt(two, path)
  {
    path := DifferenceHasPath(one, two);
  }

  // ---------- undoing an earlier action ----------

  /** An action took `was` to `did`, and later work took that to `later`.  The
      action can be undone exactly when the later work could have been done
      without it, and then undoing it gives what that work alone would have. */
  lemma {:induction false} UndoIsNeverDoing(was: Doc, did: Doc, later: Doc)
    requires NullsShared(was, did) && NullsShared(did, later)
    ensures UndoAccepts(later, was, did) <==> UndoAccepts(was, later, did)
    ensures UndoAccepts(later, was, did) ==> Undone(later, was, did) == Undone(was, later, did)
    decreases Object(did)
  {
    SharedSymmetric(did, later);
    AcceptsByMember(later, was, did);
    AcceptsByMember(was, later, did);
    forall key ensures MemberAgrees(later, was, did, key) <==> MemberAgrees(was, later, did, key) {
      NeverDoingMember(was, did, later, key);
    }
    if UndoAccepts(later, was, did) {
      forall path ensures CellAt(Undone(later, was, did), path) == CellAt(Undone(was, later, did), path) {
        UndoMovesCell(later, was, did, path);
        UndoMovesCell(was, later, did, path);
      }
      SameCells(Undone(later, was, did), Undone(was, later, did));
    }
  }

  lemma {:induction false} NeverDoingMember(was: Doc, did: Doc, later: Doc, key: string)
    requires NullsShared(was, did) && NullsShared(did, later)
    ensures MemberAgrees(later, was, did, key) <==> MemberAgrees(was, later, did, key)
    decreases Object(did), 0
  {
    assert SharedMember(was, did, key) && SharedMember(did, later, key);
    if BothObjects(was, did, key) && BothObjects(did, later, key) {
      if Get(was, key) == Get(did, key) {
        if Get(later, key) != Get(did, key) { AgreesWhereUnchanged(did, later, key); }
      } else if Get(later, key) == Get(did, key) {
        SharedSymmetric(was, did);
        AgreesWhereUnchanged(did, was, key);
      } else {
        UndoIsNeverDoing(was[key].members, did[key].members, later[key].members);
      }
    }
  }

  /** What still is as the action left it agrees. */
  lemma AgreesWhereUnchanged(did: Doc, was: Doc, key: string)
    requires BothObjects(was, did, key) && NullsShared(did, was) && Get(was, key) != Get(did, key)
    ensures UndoAccepts(did[key].members, was[key].members, did[key].members)
  {
    assert SharedMember(did, was, key);
    SharedSymmetric(did[key].members, was[key].members);
    ImmediateUndoExact(was[key].members, did[key].members);
  }

  // ---------- undoing at once ----------

  ghost predicate UndoneAtOnce(before: Doc, after: Doc) {
    UndoAccepts(after, before, after) && Undone(after, before, after) == before
  }

  /** An action can be undone right away, exactly, precisely when the null
      members of its two documents lie in what they share. */
  lemma {:induction false} ImmediateUndoExact(before: Doc, after: Doc)
    ensures UndoneAtOnce(before, after) <==> NullsShared(before, after)
    decreases Object(after)
  {
    if NullsShared(before, after) {
      forall path | Changed(before, after, path) ensures Reaches(after, path) {}
      GuardExact(after, before, after);
      SharedSymmetric(before, after);
      SharedIsSettled(after, before);
      RoundTripExact(after, before);
    }
    if UndoneAtOnce(before, after) {
      forall key ensures SharedMember(before, after, key) {
        if BothObjects(before, after, key) {
          ImmediateUndoExact(before[key].members, after[key].members);
        }
        UndoneMemberShared(before, after, key);
      }
    }
  }

  /** A null that an action adds makes its undo refused at once. */
  lemma AddedNullDefeatsUndo()
    ensures !UndoAccepts(map["x" := Null], map[], map["x" := Null])
  {
    var after: Doc := map["x" := Null];
    MemberOfPatch(after, map[], "x");
    MemberOfPatch(map[], after, "x");
  }

  lemma UndoneMemberShared(before: Doc, after: Doc, key: string)
    requires UndoneAtOnce(before, after)
    requires BothObjects(before, after, key) ==>
               (UndoneAtOnce(before[key].members, after[key].members) <==>
                NullsShared(before[key].members, after[key].members))
    ensures SharedMember(before, after, key)
  {
    var undo, did := CreateMergePatch(after, before), CreateMergePatch(before, after);
    MemberOfPatch(after, before, key);
    MemberOfPatch(before, after, key);
    MemberOfMerge(after, undo, key);
    if Get(before, key) == Get(after, key) {
    } else if BothObjects(before, after, key) {
      EmptyPatchChangesNothing(after[key].members);
      assert key in undo && key in did;
    } else {
      if key in before && before[key].Object? { PatchFromScratch(before[key].members); }
      if key in after && after[key].Object? { PatchFromScratch(after[key].members); }
    }
  }
}
