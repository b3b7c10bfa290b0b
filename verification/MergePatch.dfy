/** The merge-patch operations of the action history: making a patch from two
    documents, applying one, and applying one only where the document still
    holds what an earlier patch wrote. */
module MergePatch {
  import opened Json
  import opened Collections
  import Pointer

  /** One edit of a document. */
  datatype Change = Change(before: Doc, after: Doc)

  // ---------- what the operations compute, member by member ----------

  /** The patch entry for one member, if it needs one. */
  function PatchMember(before: Doc, after: Doc, key: string): Option<Value>
    decreases Object(after), 0
  {
    if key !in after then
      if key in before then Some(Null) else None
    else if key in before && before[key] == after[key] then
      None
    else if after[key].Object? then
      var nested := CreateMergePatch(MembersAt(before, key), after[key].members);
      if nested == map[] && key in before && before[key].Object? then None else Some(Object(nested))
    else if after[key] == Null && key !in before then
      None
    else
      Some(after[key])
  }

  function CreateMergePatch(before: Doc, after: Doc): Doc
    decreases Object(after), 1
  {
    map key | key in before.Keys + after.Keys && PatchMember(before, after, key).Some?
      :: PatchMember(before, after, key).value
  }

  /** The member a patched document holds. */
  function MergedMember(state: Doc, patch: Doc, key: string): Option<Value>
    decreases Object(patch), 0
  {
    if key !in patch then Get(state, key)
    else if patch[key] == Null then None
    else if patch[key].Object? && key in state && state[key].Object? then
      Some(Object(ApplyMergePatch(state[key].members, patch[key].members)))
    else Some(patch[key])
  }

  function ApplyMergePatch(state: Doc, patch: Doc): Doc
    decreases Object(patch), 1
  {
    map key | key in state.Keys + patch.Keys && MergedMember(state, patch, key).Some?
      :: MergedMember(state, patch, key).value
  }

  /** A replacement or removal boundary: the complete current value must match,
      and an expected null means the member must be absent. */
  predicate Matches(current: Option<Value>, expected: Value) {
    if expected == Null then current.None? else current == Some(expected)
  }

  /** `path` is reported when the guard compares `state` with `expected`
      at the paths `patch` is about to write. */
  predicate Conflict(state: Doc, patch: Doc, expected: Doc, path: Path)
    decreases |path|
  {
    path != [] && path[0] in patch &&
    var key := path[0];
    if key !in expected then |path| == 1
    else if patch[key].Object? && expected[key].Object? then
      if key in state && state[key].Object? then
        Conflict(state[key].members, patch[key].members, expected[key].members, path[1..])
      else |path| == 1
    else |path| == 1 && !Matches(Get(state, key), expected[key])
  }

  /** The guard lets the patch through. */
  predicate Accepts(state: Doc, patch: Doc, expected: Doc)
    decreases Object(patch)
  {
    forall key | key in patch ::
      key in expected &&
      if patch[key].Object? && expected[key].Object? then
        key in state && state[key].Object? &&
        Accepts(state[key].members, patch[key].members, expected[key].members)
      else Matches(Get(state, key), expected[key])
  }

  lemma MemberOfPatch(before: Doc, after: Doc, key: string)
    ensures Get(CreateMergePatch(before, after), key) == PatchMember(before, after, key)
  {
  }

  lemma MemberOfMerge(state: Doc, patch: Doc, key: string)
    ensures Get(ApplyMergePatch(state, patch), key) == MergedMember(state, patch, key)
  {
  }

  lemma {:induction false} RefusedHasConflict(state: Doc, patch: Doc, expected: Doc) returns (path: Path)
    requires !Accepts(state, patch, expected)
    ensures Conflict(state, patch, expected, path)
    decreases Object(patch)
  {
    var key :| key in patch &&
               !(key in expected &&
                 if patch[key].Object? && expected[key].Object? then
                   key in state && state[key].Object? &&
                   Accepts(state[key].members, patch[key].members, expected[key].members)
                 else Matches(Get(state, key), expected[key]));
    path := [key];
    if key in expected && patch[key].Object? && expected[key].Object? && key in state && state[key].Object? {
      var rest := RefusedHasConflict(state[key].members, patch[key].members, expected[key].members);
      path := [key] + rest;
      assert path[1..] == rest;
    }
  }

  lemma {:induction false} ConflictRefuses(state: Doc, patch: Doc, expected: Doc, path: Path)
    requires Conflict(state, patch, expected, path)
    ensures !Accepts(state, patch, expected)
    decreases |path|
  {
    var key := path[0];
    if key in expected && patch[key].Object? && expected[key].Object? && key in state && state[key].Object? {
      ConflictRefuses(state[key].members, patch[key].members, expected[key].members, path[1..]);
    }
  }

  // ---------- the operations ----------

  method CreateMergePatchObject(before: Doc, after: Doc) returns (patch: Doc)
    ensures patch == CreateMergePatch(before, after)
    decreases Object(after)
  {
    patch := map[];
    var removed := before.Keys;
    while removed != {}
      invariant removed <= before.Keys
      invariant forall key :: Get(patch, key) ==
                              if key in before && key !in removed && key !in after then Some(Null) else None
    {
      var key :| key in removed;
      removed := removed - {key};
      if key !in after { patch := patch[key := Null]; }
    }
    var rest := after.Keys;
    while rest != {}
      invariant rest <= after.Keys
      invariant forall key :: Get(patch, key) == if key in rest then None else PatchMember(before, after, key)
    {
      var key :| key in rest;
      rest := rest - {key};
      var afterValue := after[key];
      var existedBefore := key in before;
      if existedBefore && before[key] == afterValue { continue; }
      if afterValue.Object? {
        var wasObject := existedBefore && before[key].Object?;
        var nested := CreateMergePatchObject(if wasObject then before[key].members else map[], afterValue.members);
        if nested != map[] || !wasObject { patch := patch[key := Object(nested)]; }
      } else if afterValue != Null || existedBefore {
        patch := patch[key := afterValue];
      }
    }
    forall key ensures Get(patch, key) == Get(CreateMergePatch(before, after), key) {
      MemberOfPatch(before, after, key);
    }
    SameMembers(patch, CreateMergePatch(before, after));
  }

  method ApplyMergePatchObject(initial: Doc, patch: Doc) returns (state: Doc)
    ensures state == ApplyMergePatch(initial, patch)
    decreases Object(patch)
  {
    state := initial;
    var rest := patch.Keys;
    while rest != {}
      invariant rest <= patch.Keys
      invariant forall key :: Get(state, key) ==
                              if key in rest then Get(initial, key) else MergedMember(initial, patch, key)
    {
      var key :| key in rest;
      rest := rest - {key};
      assert Get(state, key) == Get(initial, key);
      if patch[key] == Null {
        state := state - {key};
      } else if patch[key].Object? && key in state && state[key].Object? {
        var merged := ApplyMergePatchObject(state[key].members, patch[key].members);
        state := state[key := Object(merged)];
      } else {
        state := state[key := patch[key]];
      }
    }
    forall key ensures Get(state, key) == Get(ApplyMergePatch(initial, patch), key) {
      MemberOfMerge(initial, patch, key);
    }
    SameMembers(state, ApplyMergePatch(initial, patch));
  }

  function PrintAll(paths: seq<Path>): seq<string> {
    seq(|paths|, i requires 0 <= i < |paths| => Pointer.Print(paths[i]))
  }

  /** Both patches and the document hold an object there. */
  predicate Descends(state: Doc, patch: Doc, expected: Doc, key: string)
    requires key in patch
  {
    key in expected && patch[key].Object? && expected[key].Object? && key in state && state[key].Object?
  }

  /** A member that is compared as a whole, and is not what was expected. */
  predicate Disagrees(state: Doc, patch: Doc, expected: Doc, key: string)
    requires key in patch
  {
    key !in expected || (patch[key].Object? && expected[key].Object?) || !Matches(Get(state, key), expected[key])
  }

  /** The conflicts below `prefix` at the members in `keys`. */
  ghost predicate ConflictIn(state: Doc, patch: Doc, expected: Doc, prefix: Path, keys: set<string>, path: Path) {
    |prefix| < |path| && path[..|prefix|] == prefix && path[|prefix|] in keys &&
    Conflict(state, patch, expected, path[|prefix|..])
  }

  /** `texts` are the pointers of the conflicts below `prefix` at the members in
      `keys`, each once. */
  ghost predicate Reports(texts: seq<string>, state: Doc, patch: Doc, expected: Doc, prefix: Path, keys: set<string>) {
    exists found ::
      texts == PrintAll(found) && Distinct(found) &&
      forall path :: path in found <==> ConflictIn(state, patch, expected, prefix, keys, path)
  }

  /** Appends one pointer for each conflict, each exactly once. */
  method CollectMergePatchConflicts(state: Doc, patch: Doc, expected: Doc, ghost prefix: Path, parentPath: string,
                                    conflicts: seq<string>)
    returns (all: seq<string>)
    requires parentPath == Pointer.Print(prefix)
    ensures conflicts <= all && Reports(all[|conflicts|..], state, patch, expected, prefix, patch.Keys)
    decreases Object(patch)
  {
    all := conflicts;
    ghost var texts: seq<string> := [];
    NoReport(state, patch, expected, prefix);
    var rest := patch.Keys;
    assert patch.Keys - rest == {};
    while rest != {}
      invariant rest <= patch.Keys
      invariant all == conflicts + texts
      invariant Reports(texts, state, patch, expected, prefix, patch.Keys - rest)
    {
      var key :| key in rest;
      ghost var done := patch.Keys - rest;
      rest := rest - {key};
      assert patch.Keys - rest == done + {key};
      var path := Pointer.Child(parentPath, key);
      Pointer.PrintAppend(prefix, key);
      ghost var earlier, more := all, [];
      if Descends(state, patch, expected, key) {
        all := CollectMergePatchConflicts(state[key].members, patch[key].members, expected[key].members,
                                          prefix + [key], path, all);
        more := all[|earlier|..];
        NestedReport(more, state, patch, expected, prefix, key);
      } else {
        if Disagrees(state, patch, expected, key) {
          all, more := all + [path], [path];
        }
        TopReport(more, state, patch, expected, prefix, key);
      }
      assert all == earlier + more;
      ReportsJoin(texts, more, state, patch, expected, prefix, done, key);
      texts := texts + more;
    }
    assert patch.Keys - rest == patch.Keys;
    assert all[|conflicts|..] == texts;
  }

  lemma NoReport(state: Doc, patch: Doc, expected: Doc, prefix: Path)
    ensures Reports([], state, patch, expected, prefix, {})
  {
    assert PrintAll([]) == [];
  }

  /** Reports of two separate sets of members join into one. */
  lemma ReportsJoin(front: seq<string>, back: seq<string>, state: Doc, patch: Doc, expected: Doc, prefix: Path,
                    done: set<string>, key: string)
    requires key !in done
    requires Reports(front, state, patch, expected, prefix, done)
    requires Reports(back, state, patch, expected, prefix, {key})
    ensures Reports(front + back, state, patch, expected, prefix, done + {key})
  {
    var above := Reported(front, state, patch, expected, prefix, done);
    var below := Reported(back, state, patch, expected, prefix, {key});
    forall p | p in above ensures p !in below {
      assert p[|prefix|] in done;
    }
    DistinctConcat(above, below);
    assert front + back == PrintAll(above + below);
  }

  ghost function Reported(texts: seq<string>, state: Doc, patch: Doc, expected: Doc, prefix: Path, keys: set<string>)
    : (found: seq<Path>)
    requires Reports(texts, state, patch, expected, prefix, keys)
    ensures texts == PrintAll(found) && Distinct(found)
    ensures forall path :: path in found <==> ConflictIn(state, patch, expected, prefix, keys, path)
  {
    var found :| texts == PrintAll(found) && Distinct(found) &&
                 forall path :: path in found <==> ConflictIn(state, patch, expected, prefix, keys, path);
    found
  }

  /** A member merged by both patches has the conflicts found inside it. */
  lemma NestedReport(texts: seq<string>, state: Doc, patch: Doc, expected: Doc, prefix: Path, key: string)
    requires key in patch && key in expected && patch[key].Object? && expected[key].Object?
    requires key in state && state[key].Object?
    requires Reports(texts, state[key].members, patch[key].members, expected[key].members, prefix + [key],
                     patch[key].members.Keys)
    ensures Reports(texts, state, patch, expected, prefix, {key})
  {
    var found := Reported(texts, state[key].members, patch[key].members, expected[key].members, prefix + [key],
                          patch[key].members.Keys);
    forall path ensures path in found <==> ConflictIn(state, patch, expected, prefix, {key}, path) {
      NestedConflict(state, patch, expected, prefix, key, path);
    }
  }

  /** Any other member is a conflict itself or has none. */
  lemma TopReport(texts: seq<string>, state: Doc, patch: Doc, expected: Doc, prefix: Path, key: string)
    requires key in patch && !Descends(state, patch, expected, key)
    requires texts == if Disagrees(state, patch, expected, key) then [Pointer.Print(prefix + [key])] else []
    ensures Reports(texts, state, patch, expected, prefix, {key})
  {
    var here := prefix + [key];
    var found: seq<Path> := if texts == [] then [] else [here];
    assert texts == PrintAll(found);
    forall path ensures path in found <==> ConflictIn(state, patch, expected, prefix, {key}, path) {
      if ConflictIn(state, patch, expected, prefix, {key}, path) { assert path == here; }
    }
  }

  lemma NestedConflict(state: Doc, patch: Doc, expected: Doc, prefix: Path, key: string, path: Path)
    requires key in patch && key in expected && patch[key].Object? && expected[key].Object?
    requires key in state && state[key].Object?
    ensures ConflictIn(state, patch, expected, prefix, {key}, path) <==>
            ConflictIn(state[key].members, patch[key].members, expected[key].members, prefix + [key],
                       patch[key].members.Keys, path)
  {
    var n := |prefix|;
    if n < |path| {
      assert path[..n + 1] == path[..n] + [path[n]];
      assert path[n..][1..] == path[n + 1..];
      assert path[n..][0] == path[n];
      if n + 1 < |path| { assert path[n + 1..][0] == path[n + 1]; }
      if path[..n + 1] == prefix + [key] {
        assert path[..n] == path[..n + 1][..n] == prefix;
        assert path[n] == path[..n + 1][n] == key;
        assert |prefix + [key]| == n + 1;
        assert Conflict(state, patch, expected, path[n..]) <==>
               Conflict(state[key].members, patch[key].members, expected[key].members, path[n + 1..]);
      }
    }
  }

  /** Keeps the first of each group of equal items. */
  function RemoveDuplicates<T(==)>(items: seq<T>): seq<T> {
    if items == [] then []
    else
      var front := RemoveDuplicates(items[..|items| - 1]);
      if items[|items| - 1] in front then front else front + [items[|items| - 1]]
  }

  lemma {:induction false} RemoveDuplicatesDistinct<T>(items: seq<T>)
    requires Distinct(items)
    ensures RemoveDuplicates(items) == items
  {
    if items != [] {
      var front := items[..|items| - 1];
      RemoveDuplicatesDistinct(front);
      assert items == front + [items[|items| - 1]];
    }
  }

  lemma PrintAllDistinct(paths: seq<Path>)
    requires Distinct(paths)
    ensures Distinct(PrintAll(paths))
  {
    forall i, j | 0 <= i < j < |paths| ensures PrintAll(paths)[i] != PrintAll(paths)[j] {
      if PrintAll(paths)[i] == PrintAll(paths)[j] { Pointer.PrintInjective(paths[i], paths[j]); }
    }
  }

  /** The text is the pointer of some conflict. */
  ghost predicate Explained(state: Doc, patch: Doc, expected: Doc, text: string) {
    exists path :: Conflict(state, patch, expected, path) && text == Pointer.Print(path)
  }

  datatype ApplyResult = ApplyResult(applied: bool, state: Doc, conflicts: seq<string>)

  method ApplyMergePatchGuarded(state: Doc, patch: Doc, expected: Doc) returns (result: ApplyResult)
    ensures result.applied <==> Accepts(state, patch, expected)
    ensures result.applied ==> result.conflicts == [] && result.state == ApplyMergePatch(state, patch)
    ensures !result.applied ==> result.state == state
    ensures Distinct(result.conflicts)
    ensures forall path :: Conflict(state, patch, expected, path) ==> Pointer.Print(path) in result.conflicts
    ensures forall text | text in result.conflicts :: Explained(state, patch, expected, text)
  {
    var conflicts := CollectMergePatchConflicts(state, patch, expected, [], "", []);
    assert conflicts[0..] == conflicts;
    ghost var found := Reported(conflicts, state, patch, expected, [], patch.Keys);
    PrintAllDistinct(found);
    RemoveDuplicatesDistinct(conflicts);
    conflicts := RemoveDuplicates(conflicts);
    ReportIsComplete(state, patch, expected, found);
    if conflicts != [] {
      assert conflicts[0] in conflicts;
      return ApplyResult(false, state, conflicts);
    }
    var merged := ApplyMergePatchObject(state, patch);
    return ApplyResult(true, merged, []);
  }

  lemma ReportIsComplete(state: Doc, patch: Doc, expected: Doc, found: seq<Path>)
    requires forall path :: path in found <==> ConflictIn(state, patch, expected, [], patch.Keys, path)
    ensures forall path :: Conflict(state, patch, expected, path) ==> Pointer.Print(path) in PrintAll(found)
    ensures forall text | text in PrintAll(found) :: Explained(state, patch, expected, text)
    ensures Accepts(state, patch, expected) <==> PrintAll(found) == []
  {
    forall path ensures path in found <==> Conflict(state, patch, expected, path) {
      assert path[..0] == [] && path[0..] == path;
    }
    forall path | path in found ensures Pointer.Print(path) in PrintAll(found) {
      var i :| 0 <= i < |found| && found[i] == path;
      assert PrintAll(found)[i] == Pointer.Print(path);
    }
    forall text | text in PrintAll(found) ensures Explained(state, patch, expected, text) {
      var i :| 0 <= i < |found| && PrintAll(found)[i] == text;
      assert found[i] in found;
    }
    if Accepts(state, patch, expected) {
      if found != [] {
        assert found[0] in found;
        ConflictRefuses(state, patch, expected, found[0]);
      }
    } else {
      var path := RefusedHasConflict(state, patch, expected);
    }
  }
}
