/** Editing a project document by field path: read, set, add, remove, erase. */
module PathEdit {
  import opened Json
  import opened Pointer
  import opened Text

  // ---------- tokens against a document ----------

  /** One step a token resolved to. */
  datatype Step = Member(key: string) | Index(at: nat)

  predicate IsDigits(text: string) {
    text != "" && forall i | 0 <= i < |text| :: '0' <= text[i] <= '9'
  }

  function Digits(text: string): nat
    requires forall i | 0 <= i < |text| :: '0' <= text[i] <= '9'
  {
    if text == "" then 0 else 10 * Digits(text[..|text| - 1]) + (text[|text| - 1] - '0') as nat
  }

  function SignedDigits(digits: string, negative: bool): Option<int> {
    if !IsDigits(digits) then None
    else
      var magnitude: int := Digits(digits);
      var value := if negative then -magnitude else magnitude;
      if -0x8000_0000 <= value < 0x8000_0000 then Some(value) else None
  }

  /** A decimal 32-bit integer with an optional sign, surrounding whitespace
      ignored. */
  function ToInt(token: string): Option<int> {
    var text := Trim(token);
    if text != "" && text[0] in "+-" then SignedDigits(text[1..], text[0] == '-') else SignedDigits(text, false)
  }

  function ArrayIndex(token: string, size: nat, allowAppend: bool): (index: Option<nat>)
    ensures index.Some? ==> index.value < size || (allowAppend && index.value == size)
  {
    if allowAppend && token == "-" then Some(size)
    else
      match ToInt(token)
      case None => None
      case Some(index) => if index < 0 || index > size || (!allowAppend && index == size) then None else Some(index)
  }

  function ReadAt(root: Value, tokens: Path): Option<Value>
    decreases |tokens|
  {
    if tokens == [] then Some(root)
    else
      match root
      case Object(members) =>
        if tokens[0] in members then ReadAt(members[tokens[0]], tokens[1..]) else None
      case Array(items) =>
        var index := ArrayIndex(tokens[0], |items|, false);
        if index.Some? then ReadAt(items[index.value], tokens[1..]) else None
      case _ => None
  }

  /** The steps a replacement at `tokens` takes, if it succeeds.  With `create`
      the last token may name a new member or the end of an array. */
  function Resolve(root: Value, tokens: Path, create: bool): Option<seq<Step>>
    decreases |tokens|
  {
    if tokens == [] then Some([])
    else
      var final := |tokens| == 1;
      match root
      case Object(members) =>
        if tokens[0] !in members then
          if create && final then Some([Member(tokens[0])]) else None
        else Prepend(Member(tokens[0]), Resolve(members[tokens[0]], tokens[1..], create))
      case Array(items) =>
        var index := ArrayIndex(tokens[0], |items|, create && final);
        if index.None? then None
        else if index.value == |items| then Some([Index(|items|)])
        else Prepend(Index(index.value), Resolve(items[index.value], tokens[1..], create))
      case _ => None
  }

  function Prepend(step: Step, rest: Option<seq<Step>>): Option<seq<Step>> {
    match rest
    case None => None
    case Some(steps) => Some([step] + steps)
  }

  // ---------- documents along resolved steps ----------

  function Below(root: Value, step: Step): Option<Value> {
    match (root, step)
    case (Object(members), Member(key)) => Get(members, key)
    case (Array(items), Index(at)) => if at < |items| then Some(items[at]) else None
    case _ => None
  }

  function Read(root: Value, steps: seq<Step>): Option<Value>
    decreases |steps|
  {
    if steps == [] then Some(root)
    else
      match Below(root, steps[0])
      case None => None
      case Some(child) => Read(child, steps[1..])
  }

  /** A write at `steps` only creates at the very end. */
  predicate Fits(root: Value, steps: seq<Step>)
    decreases |steps|
  {
    steps == [] ||
    match Below(root, steps[0])
    case Some(child) => Fits(child, steps[1..])
    case None =>
      |steps| == 1 && ((root.Object? && steps[0].Member?) || (root.Array? && steps[0] == Index(|root.items|)))
  }

  function Put(root: Value, step: Step, child: Value): Value
    requires Fits(root, [step])
  {
    match step
    case Member(key) => Object(root.members[key := child])
    case Index(at) => Array(if at < |root.items| then root.items[at := child] else root.items + [child])
  }

  function Write(root: Value, steps: seq<Step>, value: Value): Value
    requires Fits(root, steps)
    decreases |steps|
  {
    if steps == [] then value
    else
      match Below(root, steps[0])
      case None => Put(root, steps[0], value)
      case Some(child) => Put(root, steps[0], Write(child, steps[1..], value))
  }

  function Drop(root: Value, step: Step): Value
    requires Below(root, step).Some?
  {
    match step
    case Member(key) => Object(root.members - {key})
    case Index(at) => Array(root.items[..at] + root.items[at + 1..])
  }

  function Erased(root: Value, steps: seq<Step>): Value
    requires steps != [] && Read(root, steps).Some?
    decreases |steps|
  {
    var child := Below(root, steps[0]).value;
    if |steps| == 1 then Drop(root, steps[0]) else Put(root, steps[0], Erased(child, steps[1..]))
  }

  lemma WriteBelow(root: Value, step: Step, rest: seq<Step>, value: Value)
    requires Below(root, step).Some? && Fits(Below(root, step).value, rest)
    ensures Fits(root, [step] + rest) && Fits(root, [step])
    ensures Write(root, [step] + rest, value) == Put(root, step, Write(Below(root, step).value, rest, value))
  {
    assert ([step] + rest)[1..] == rest;
  }

  lemma ErasedBelow(root: Value, step: Step, rest: seq<Step>)
    requires Below(root, step).Some? && rest != [] && Read(Below(root, step).value, rest).Some?
    ensures Read(root, [step] + rest).Some? && Fits(root, [step])
    ensures Erased(root, [step] + rest) == Put(root, step, Erased(Below(root, step).value, rest))
  {
    assert ([step] + rest)[1..] == rest;
  }

  lemma ErasedLast(root: Value, step: Step)
    requires Below(root, step).Some?
    ensures Read(root, [step]).Some? && Erased(root, [step]) == Drop(root, step)
  {
    assert [step][1..] == [];
  }

  // ---------- the operations ----------

  method ValueAt(root: Value, tokens: Path) returns (value: Option<Value>)
    ensures value == ReadAt(root, tokens)
  {
    var current := root;
    for i := 0 to |tokens|
      invariant ReadAt(root, tokens) == ReadAt(current, tokens[i..])
    {
      assert tokens[i..][1..] == tokens[i + 1..];
      match current {
        case Object(members) =>
          if tokens[i] !in members { return None; }
          current := members[tokens[i]];
        case Array(items) =>
          var index := ArrayIndex(tokens[i], |items|, false);
          if index.None? { return None; }
          current := items[index.value];
        case _ => return None;
      }
    }
    return Some(current);
  }

  method ReplaceAt(node: Value, tokens: Path, depth: nat, replacement: Value, createFinal: bool)
    returns (ok: bool, after: Value)
    requires depth <= |tokens|
    ensures ok <==> Resolve(node, tokens[depth..], createFinal).Some?
    ensures ok ==> var steps := Resolve(node, tokens[depth..], createFinal).value;
                   Fits(node, steps) && after == Write(node, steps, replacement)
    ensures !ok ==> after == node
    decreases |tokens| - depth
  {
    if depth == |tokens| { return true, replacement; }
    var token, final := tokens[depth], depth + 1 == |tokens|;
    assert tokens[depth..][1..] == tokens[depth + 1..];
    match node {
      case Object(members) =>
        if token !in members && (!createFinal || !final) { return false, node; }
        if token !in members {
          assert [Member(token)][1..] == [];
          return true, Object(members[token := replacement]);
        }
        var done, child := ReplaceAt(members[token], tokens, depth + 1, replacement, createFinal);
        if !done { return false, node; }
        WriteBelow(node, Member(token), Resolve(members[token], tokens[depth + 1..], createFinal).value, replacement);
        return true, Object(members[token := child]);
      case Array(items) =>
        var index := ArrayIndex(token, |items|, createFinal && final);
        if index.None? { return false, node; }
        if index.value == |items| {
          return true, Array(items + [replacement]);
        }
        var done, child := ReplaceAt(items[index.value], tokens, depth + 1, replacement, createFinal);
        if !done { return false, node; }
        WriteBelow(node, Index(index.value), Resolve(items[index.value], tokens[depth + 1..], createFinal).value,
                   replacement);
        return true, Array(items[index.value := child]);
      case _ => return false, node;
    }
  }

  method EraseAt(node: Value, tokens: Path, depth: nat) returns (ok: bool, after: Value)
    requires depth < |tokens| || tokens == []
    ensures ok <==> tokens != [] && Resolve(node, tokens[depth..], false).Some?
    ensures ok ==> var steps := Resolve(node, tokens[depth..], false).value;
                   steps != [] && Read(node, steps).Some? && after == Erased(node, steps)
    ensures !ok ==> after == node
    decreases |tokens| - depth
  {
    if tokens == [] { return false, node; }
    var token, final := tokens[depth], depth + 1 == |tokens|;
    assert final ==> tokens[depth + 1..] == [];
    assert tokens[depth..][1..] == tokens[depth + 1..];
    match node {
      case Object(members) =>
        if token !in members { return false, node; }
        if final {
          ErasedLast(node, Member(token));
          return true, Object(members - {token});
        }
        var done, child := EraseAt(members[token], tokens, depth + 1);
        if !done { return false, node; }
        ErasedBelow(node, Member(token), Resolve(members[token], tokens[depth + 1..], false).value);
        return true, Object(members[token := child]);
      case Array(items) =>
        var index := ArrayIndex(token, |items|, false);
        if index.None? { return false, node; }
        if final {
          ErasedLast(node, Index(index.value));
          return true, Array(items[..index.value] + items[index.value + 1..]);
        }
        var done, child := EraseAt(items[index.value], tokens, depth + 1);
        if !done { return false, node; }
        ErasedBelow(node, Index(index.value), Resolve(items[index.value], tokens[depth + 1..], false).value);
        return true, Array(items[index.value := child]);
      case _ => return false, node;
    }
  }

  // ---------- whole edits ----------

  /** An edit of the project document; the value is missing when the command
      line gave none. */
  datatype Edit =
    | Set(path: string, value: Option<Value>)
    | Add(path: string, value: Option<Value>)
    | Remove(path: string, value: Option<Value>)
    | Erase(path: string)

  function Added(container: Value, addition: Value): Option<Value> {
    match (container, addition)
    case (Array(items), _) => Some(Array(items + [addition]))
    case (Object(members), Object(more)) => Some(Object(members + more))
    case _ => None
  }

  function Without(items: seq<Value>, removal: Value): seq<Value> {
    if items == [] then []
    else (if items[0] == removal then [] else [items[0]]) + Without(items[1..], removal)
  }

  function Removed(container: Value, removal: Value): Option<Value> {
    match (container, removal)
    case (Array(items), _) => if removal in items then Some(Array(Without(items, removal))) else None
    case (Object(members), Text(key)) => if key in members then Some(Object(members - {key})) else None
    case _ => None
  }

  /** The document with the value at `tokens` replaced, created if allowed. */
  function Replaced(root: Value, tokens: Path, value: Value, create: bool): Option<Value> {
    match Resolve(root, tokens, create)
    case None => None
    case Some(steps) => if Fits(root, steps) then Some(Write(root, steps, value)) else None
  }

  function Updated(root: Value, tokens: Path, value: Option<Value>): Option<Value> {
    match value
    case None => None
    case Some(v) => Replaced(root, tokens, v, false)
  }

  /** The document an edit leaves, if it succeeds. */
  function Edited(root: Value, edit: Edit): Option<Value> {
    match Tokens(edit.path)
    case None => None
    case Some(tokens) =>
      match edit
      case Set(_, value) => if value.None? then None else Replaced(root, tokens, value.value, true)
      case Add(_, value) =>
        if value.None? || ReadAt(root, tokens).None? then None
        else Updated(root, tokens, Added(ReadAt(root, tokens).value, value.value))
      case Remove(_, value) =>
        if value.None? || ReadAt(root, tokens).None? then None
        else Updated(root, tokens, Removed(ReadAt(root, tokens).value, value.value))
      case Erase(_) =>
        match Resolve(root, tokens, false)
        case None => None
        case Some(steps) => if steps != [] && Read(root, steps).Some? then Some(Erased(root, steps)) else None
  }

  lemma WithoutAppend(items: seq<Value>, item: Value, removal: Value)
    ensures Without([item] + items, removal) == (if item == removal then [] else [item]) + Without(items, removal)
  {
  }

  method AddTo(container: Value, addition: Value) returns (result: Option<Value>)
    ensures result == Added(container, addition)
  {
    if container.Array? { return Some(Array(container.items + [addition])); }
    if !container.Object? || !addition.Object? { return None; }
    var members, rest := container.members, addition.members.Keys;
    while rest != {}
      invariant rest <= addition.members.Keys
      invariant forall key :: Get(members, key) ==
                              if key in addition.members && key !in rest then Some(addition.members[key])
                              else Get(container.members, key)
    {
      var key :| key in rest;
      rest := rest - {key};
      members := members[key := addition.members[key]];
    }
    SameMembers(members, container.members + addition.members);
    return Some(Object(members));
  }

  /** From the last element to the first, so that removing one does not move
      those still to be looked at. */
  method RemoveEqual(all: seq<Value>, removal: Value) returns (items: seq<Value>, found: bool)
    ensures items == Without(all, removal) && (found <==> removal in all)
  {
    items, found := all, false;
    var index := |all|;
    while index > 0
      invariant 0 <= index <= |all|
      invariant items == all[..index] + Without(all[index..], removal)
      invariant found <==> removal in all[index..]
    {
      index := index - 1;
      assert all[..index + 1] == all[..index] + [all[index]];
      assert all[index..] == [all[index]] + all[index + 1..];
      WithoutAppend(all[index + 1..], all[index], removal);
      if items[index] == removal {
        items := items[..index] + items[index + 1..];
        found := true;
      }
    }
  }

  method RemoveFrom(container: Value, removal: Value) returns (result: Option<Value>)
    ensures result == Removed(container, removal)
  {
    if container.Array? {
      var items, found := RemoveEqual(container.items, removal);
      return if found then Some(Array(items)) else None;
    }
    if container.Object? && removal.Text? {
      if removal.text !in container.members { return None; }
      return Some(Object(container.members - {removal.text}));
    }
    return None;
  }

  method ApplyEdit(document: Doc, edit: Edit) returns (ok: bool, after: Doc)
    ensures ok <==> Edited(Object(document), edit).Some?
    ensures ok ==> Edited(Object(document), edit) == Some(Object(after))
    ensures !ok ==> after == document
  {
    var tokens := PathTokens(edit.path);
    if tokens.None? { return false, document; }
    var root, done := Object(document), false;
    assert tokens.value[0..] == tokens.value;
    match edit {
      case Set(_, value) =>
        if value.None? { return false, document; }
        done, root := ReplaceAt(root, tokens.value, 0, value.value, true);
      case Erase(_) =>
        done, root := EraseAt(root, tokens.value, 0);
      case Add(_, value) =>
        var container := ValueAt(root, tokens.value);
        if container.None? || value.None? { return false, document; }
        var changed := AddTo(container.value, value.value);
        if changed.None? { return false, document; }
        done, root := ReplaceAt(root, tokens.value, 0, changed.value, false);
      case Remove(_, value) =>
        var container := ValueAt(root, tokens.value);
        if container.None? || value.None? { return false, document; }
        var changed := RemoveFrom(container.value, value.value);
        if changed.None? { return false, document; }
        done, root := ReplaceAt(root, tokens.value, 0, changed.value, false);
    }
    if !done { return false, document; }
    if !root.Object? { return false, document; }
    return true, root.members;
  }
}
