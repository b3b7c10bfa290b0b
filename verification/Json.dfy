/** JSON documents as the project history sees them: objects are maps from
    member names to values.  Numbers and arrays are compared but never taken
    apart by a merge patch, so a number is an opaque code. */
module Json {

  datatype Option<+T> = None | Some(value: T)

  datatype Value =
    | Null
    | Bool(flag: bool)
    | Number(code: int)
    | Text(text: string)
    | Array(items: seq<Value>)
    | Object(members: Doc)

  type Doc = map<string, Value>

  /** Member names from the document root downwards. */
  type Path = seq<string>

  function Get(doc: Doc, key: string): Option<Value> {
    if key in doc then Some(doc[key]) else None
  }

  /** The members below `key`, or none when there is no object there. */
  function MembersAt(doc: Doc, key: string): Doc {
    if key in doc && doc[key].Object? then doc[key].members else map[]
  }

  /** No object reachable through objects has a member holding null. */
  ghost predicate NullFree(doc: Doc)
    decreases Object(doc)
  {
    forall key | key in doc :: doc[key] != Null && (doc[key].Object? ==> NullFree(doc[key].members))
  }

  /** The value at a path that only passes through objects. */
  function At(value: Value, path: Path): Option<Value>
    decreases |path|
  {
    if path == [] then Some(value)
    else if value.Object? && path[0] in value.members then At(value.members[path[0]], path[1..])
    else None
  }

  predicate ObjectAt(value: Value, path: Path) {
    At(value, path).Some? && At(value, path).value.Object?
  }

  /** Every step on the way to `path` is an object in `doc`. */
  predicate Reaches(doc: Doc, path: Path)
    decreases |path|
  {
    |path| <= 1 || (path[0] in doc && doc[path[0]].Object? && Reaches(doc[path[0]].members, path[1..]))
  }

  lemma SameMembers(one: Doc, two: Doc)
    requires forall key :: Get(one, key) == Get(two, key)
    ensures one == two
  {
    assert forall key :: key in one <==> Get(one, key).Some?;
    assert forall key :: key in two <==> Get(two, key).Some?;
    forall key | key in one ensures one[key] == two[key] {
      assert Get(one, key) == Get(two, key);
    }
  }
}
