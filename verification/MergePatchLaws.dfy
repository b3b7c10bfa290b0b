/** What the merge-patch operations are for: a patch made from two documents
    carries one into the other, and selective undo is exact, framed and
    reversible. */
module MergePatchLaws {
  import opened Json
  import opened MergePatch

  // ---------- making and applying ----------

  ghost predicate MemberSettled(before: Doc, after: Doc, key: string)
    decreases Object(after), 0
  {
    key !in after || Get(before, key) == Some(after[key]) ||
    if after[key].Object? then NullsSettled(MembersAt(before, key), after[key].members)
    else after[key] != Null
  }

  /** Every null member of `after` lies in a part it shares with `before`. */
  ghost predicate NullsSettled(before: Doc, after: Doc)
    decreases Object(after), 1
  {
    forall key | key in after :: MemberSettled(before, after, key)
  }

  lemma {:induction false} NullFreeIsSettled(before: Doc, after: Doc)
    requires NullFree(after)
    ensures NullsSettled(before, after)
    decreases Object(after)
  {
    forall key | key in after && after[key].Object?
      ensures MemberSettled(before, after, key)
    {
      NullFreeIsSettled(MembersAt(before, key), after[key].members);
    }
  }

  lemma {:induction false} SettledFromScratch(doc: Doc)
    ensures NullsSettled(map[], doc) <==> NullFree(doc)
    decreases Object(doc)
  {
    forall key | key in doc && doc[key].Object?
      ensures NullsSettled(map[], doc[key].members) <==> NullFree(doc[key].members)
    {
      SettledFromScratch(doc[key].members);
    }
    if NullsSettled(map[], doc) {
      forall key | key in doc ensures doc[key] != Null && (doc[key].Object? ==> NullFree(doc[key].members)) {
        assert MemberSettled(map[], doc, key);
      }
    } else {
      var key :| key in doc && !MemberSettled(map[], doc, key);
    }
  }

  /** A patch made against nothing is the document itself. */
  lemma {:induction false} PatchFromScratch(doc: Doc)
    ensures CreateMergePatch(map[], doc) == doc <==> NullFree(doc)
    decreases Object(doc)
  {
    var patch := CreateMergePatch(map[], doc);
    forall key
      ensures Get(patch, key) == Get(doc, key) <==>
              key !in doc || (doc[key] != Null && (doc[key].Object? ==> NullFree(doc[key].members)))
    {
      MemberOfPatch(map[], doc, key);
      if key in doc && doc[key].Object? { PatchFromScratch(doc[key].members); }
    }
    SameDocIff(patch, doc);
  }

  ghost predicate MemberGainsNulls(before: Doc, after: Doc, key: string)
    decreases Object(after), 0
  {
    if key !in after then key !in before
    else if key !in before then after[key] == Null
    else
      before[key] == after[key] ||
      (before[key].Object? && after[key].Object? && GainsNullsOnly(before[key].members, after[key].members))
  }

  /** The change only added null members, at any depth. */
  ghost predicate GainsNullsOnly(before: Doc, after: Doc)
    decreases Object(after), 1
  {
    forall key :: MemberGainsNulls(before, after, key)
  }

  /** A patch is empty exactly when the change only added null members. */
  lemma {:induction false} PatchEmptyForAllExact(before: Doc, after: Doc)
    ensures CreateMergePatch(before, after) == map[] <==> GainsNullsOnly(before, after)
    decreases Object(after)
  {
    var patch := CreateMergePatch(before, after);
    forall key ensures Get(patch, key) == None <==> MemberGainsNulls(before, after, key) {
      MemberOfPatch(before, after, key);
      if key in before && key in after && before[key].Object? && after[key].Object? {
        PatchEmptyForAllExact(before[key].members, after[key].members);
      }
    }
    SameDocIff(patch, map[]);
  }

  ghost predicate MemberRewritten(before: Doc, after: Doc, key: string)
    decreases Object(after), 0
  {
    if key !in after then key !in before
    else
      Get(before, key) != Some(after[key]) && (after[key] == Null ==> key in before) &&
      (after[key].Object? ==> Rewritten(MembersAt(before, key), after[key].members))
  }

  /** The change kept no member, removed none, and wrote no null where there
      was nothing, at any depth. */
  ghost predicate Rewritten(before: Doc, after: Doc)
    decreases Object(after), 1
  {
    forall key :: MemberRewritten(before, after, key)
  }

  /** The patch to a document is that document itself exactly when the change
      rewrote everything. */
  lemma {:induction false} PatchIsTargetExact(before: Doc, after: Doc)
    ensures CreateMergePatch(before, after) == after <==> Rewritten(before, after)
    decreases Object(after)
  {
    var patch := CreateMergePatch(before, after);
    forall key ensures Get(patch, key) == Get(after, key) <==> MemberRewritten(before, after, key) {
      MemberOfPatch(before, after, key);
      if key in after && after[key].Object? { PatchIsTargetExact(MembersAt(before, key), after[key].members); }
    }
    SameDocIff(patch, after);
  }

  lemma SameDocIff(one: Doc, two: Doc)
    ensures one == two <==> forall key :: Get(one, key) == Get(two, key)
  {
    if forall key :: Get(one, key) == Get(two, key) { SameMembers(one, two); }
  }

  lemma {:induction false} RoundTripMember(before: Doc, after: Doc, key: string)
    ensures Get(ApplyMergePatch(before, CreateMergePatch(before, after)), key) == Get(after, key) <==>
            MemberSettled(before, after, key)
    decreases Object(after), 0
  {
    MemberOfPatch(before, after, key);
    MemberOfMerge(before, CreateMergePatch(before, after), key);
    if key in after && Get(before, key) != Some(after[key]) && after[key].Object? {
      var was, now := MembersAt(before, key), after[key].members;
      RoundTripExact(was, now);
      PatchFromScratch(now);
      SettledFromScratch(now);
      EmptyPatchChangesNothing(was);
    }
  }

  lemma EmptyPatchChangesNothing(doc: Doc)
    ensures ApplyMergePatch(doc, map[]) == doc
  {
    forall key ensures Get(ApplyMergePatch(doc, map[]), key) == Get(doc, key) {
      MemberOfMerge(doc, map[], key);
    }
    SameMembers(ApplyMergePatch(doc, map[]), doc);
  }

  /** Applying the patch from `before` to `after` gives `after` exactly when no
      null member of `after` was written by that change. */
  lemma {:induction false} RoundTripExact(before: Doc, after: Doc)
    ensures ApplyMergePatch(before, CreateMergePatch(before, after)) == after <==> NullsSettled(before, after)
    decreases Object(after), 1
  {
    var result := ApplyMergePatch(before, CreateMergePatch(before, after));
    forall key ensures Get(result, key) == Get(after, key) <==> MemberSettled(before, after, key) {
      RoundTripMember(before, after, key);
    }
    SameDocIff(result, after);
  }

  lemma RoundTrip(before: Doc, after: Doc)
    requires NullFree(after)
    ensures ApplyMergePatch(before, CreateMergePatch(before, after)) == after
  {
    NullFreeIsSettled(before, after);
    RoundTripExact(before, after);
  }

  lemma PatchEmptyExact(before: Doc, after: Doc)
    requires NullFree(after)
    ensures CreateMergePatch(before, after) == map[] <==> before == after
  {
    RoundTrip(before, after);
    EmptyPatchChangesNothing(before);
    if before == after {
      forall key ensures Get(CreateMergePatch(before, after), key) == None {
        MemberOfPatch(before, after, key);
      }
      SameMembers(CreateMergePatch(before, after), map[]);
    }
  }

  /** The document without its null members. */
  function Strip(doc: Doc): Doc
    decreases Object(doc), 1
  {
    map key | key in doc && doc[key] != Null :: StripValue(doc, key)
  }

  function StripValue(doc: Doc, key: string): Value
    requires key in doc
    decreases Object(doc), 0
  {
    if doc[key].Object? then Object(Strip(doc[key].members)) else doc[key]
  }

  function StripMember(doc: Doc, key: string): Option<Value> {
    if key in doc && doc[key] != Null then Some(StripValue(doc, key)) else None
  }

  lemma {:induction false} RoundTripUpToNulls(before: Doc, after: Doc)
    ensures Strip(ApplyMergePatch(before, CreateMergePatch(before, after))) == Strip(after)
    decreases Object(after)
  {
    var patch := CreateMergePatch(before, after);
    var result := ApplyMergePatch(before, patch);
    forall key ensures Get(Strip(result), key) == Get(Strip(after), key) {
      assert Get(Strip(result), key) == StripMember(result, key);
      assert Get(Strip(after), key) == StripMember(after, key);
      if key in after && Get(before, key) != Some(after[key]) && after[key].Object? {
        RoundTripUpToNulls(MembersAt(before, key), after[key].members);
      }
      StrippedMember(before, after, key);
    }
    SameMembers(Strip(result), Strip(after));
  }

  lemma StrippedMember(before: Doc, after: Doc, key: string)
    requires key in after && after[key].Object? ==>
               var was, now := MembersAt(before, key), after[key].members;
               Get(before, key) != Some(after[key]) ==>
                 Strip(ApplyMergePatch(was, CreateMergePatch(was, now))) == Strip(now)
    ensures StripMember(ApplyMergePatch(before, CreateMergePatch(before, after)), key) == StripMember(after, key)
  {
    MemberOfPatch(before, after, key);
    MemberOfMerge(before, CreateMergePatch(before, after), key);
    if key in after && after[key].Object? {
      ScratchHasNoTopNulls(after[key].members);
      EmptyPatchChangesNothing(MembersAt(before, key));
    }
  }

  lemma ScratchHasNoTopNulls(doc: Doc)
    ensures ApplyMergePatch(map[], CreateMergePatch(map[], doc)) == CreateMergePatch(map[], doc)
  {
    var patch := CreateMergePatch(map[], doc);
    forall key ensures Get(ApplyMergePatch(map[], patch), key) == Get(patch, key) {
      MemberOfPatch(map[], doc, key);
      MemberOfMerge(map[], patch, key);
    }
    SameMembers(ApplyMergePatch(map[], patch), patch);
  }

  // ---------- RFC 7396, section 2 ----------

  function RfcMember(target: Doc, patch: Doc, key: string): Option<Value>
    decreases Object(patch), 0
  {
    if key !in patch then Get(target, key)
    else if patch[key] == Null then None
    else Some(RfcMergePatch(if key in target then target[key] else Null, patch[key]))
  }

  /** The MergePatch function of section 2 of RFC 7396. */
  function RfcMergePatch(target: Value, patch: Value): Value
    decreases patch, 1
  {
    if patch.Object? then
      var members := if target.Object? then target.members else map[];
      Object(map key | key in members.Keys + patch.members.Keys && RfcMember(members, patch.members, key).Some?
               :: RfcMember(members, patch.members, key).value)
    else patch
  }

  /** Wherever an object patch meets something other than an object, that
      patch holds no null. */
  ghost predicate Compatible(state: Doc, patch: Doc)
    decreases Object(patch)
  {
    forall key | key in patch && patch[key].Object? ::
      if key in state && state[key].Object? then Compatible(state[key].members, patch[key].members)
      else NullFree(patch[key].members)
  }

  lemma MemberOfRfc(target: Doc, patch: Doc, key: string)
    ensures Get(RfcMergePatch(Object(target), Object(patch)).members, key) == RfcMember(target, patch, key)
  {
  }

  lemma {:induction false} RfcFromScratch(target: Value, patch: Doc)
    requires !target.Object?
    ensures RfcMergePatch(target, Object(patch)) == Object(patch) <==> NullFree(patch)
    decreases Object(patch)
  {
    var result := RfcMergePatch(target, Object(patch)).members;
    assert result == RfcMergePatch(Object(map[]), Object(patch)).members;
    forall key
      ensures Get(result, key) == Get(patch, key) <==>
              key !in patch || (patch[key] != Null && (patch[key].Object? ==> NullFree(patch[key].members)))
    {
      MemberOfRfc(map[], patch, key);
      if key in patch && patch[key].Object? { RfcFromScratch(Null, patch[key].members); }
    }
    SameDocIff(result, patch);
  }

  /** The history's apply is the standard one exactly on compatible inputs. */
  lemma {:induction false} ApplyIsRfcExact(state: Doc, patch: Doc)
    ensures Object(ApplyMergePatch(state, patch)) == RfcMergePatch(Object(state), Object(patch))
            <==> Compatible(state, patch)
    decreases Object(patch)
  {
    var ours := ApplyMergePatch(state, patch);
    var standard := RfcMergePatch(Object(state), Object(patch)).members;
    forall key
      ensures Get(ours, key) == Get(standard, key) <==>
              (key in patch && patch[key].Object? ==>
                if key in state && state[key].Object? then Compatible(state[key].members, patch[key].members)
                else NullFree(patch[key].members))
    {
      MemberOfMerge(state, patch, key);
      MemberOfRfc(state, patch, key);
      if key in patch && patch[key].Object? {
        if key in state && state[key].Object? {
          ApplyIsRfcExact(state[key].members, patch[key].members);
        } else {
          RfcFromScratch(if key in state then state[key] else Null, patch[key].members);
        }
      }
    }
    SameDocIff(ours, standard);
  }

  /** Section 2 drops the null; the history stores it. */
  lemma ApplyDiffersFromRfc()
    ensures var patch: Doc := map["a" := Object(map["b" := Null])];
            Object(ApplyMergePatch(map[], patch)) != RfcMergePatch(Object(map[]), Object(patch))
  {
    var patch: Doc := map["a" := Object(map["b" := Null])];
    assert patch["a"].members["b"] == Null;
    assert !NullFree(patch["a"].members);
    ApplyIsRfcExact(map[], patch);
  }
}
