/** Path edits are lenses: what is set is read back, what lies elsewhere is
    untouched, and erasing takes back a creation. */
module PathEditLaws {
  import opened Json
  import opened Pointer
  import opened Text
  import opened PathEdit

  // ---------- resolving and reading ----------

  /** Without creation a replacement succeeds exactly where a read does, and
      the resolved steps lead to the value read. */
  lemma {:induction false} ResolveReads(root: Value, tokens: Path)
    ensures Resolve(root, tokens, false).Some? <==> ReadAt(root, tokens).Some?
    ensures Resolve(root, tokens, false).Some? ==>
              Read(root, Resolve(root, tokens, false).value) == ReadAt(root, tokens)
    decreases |tokens|
  {
    if tokens != [] {
      match root
      case Object(members) =>
        if tokens[0] in members { ResolveReads(members[tokens[0]], tokens[1..]); }
      case Array(items) =>
        var index := ArrayIndex(tokens[0], |items|, false);
        if index.Some? { ResolveReads(items[index.value], tokens[1..]); }
      case _ =>
    }
  }

  lemma {:induction false} ResolveFits(root: Value, tokens: Path, create: bool)
    requires Resolve(root, tokens, create).Some?
    ensures Fits(root, Resolve(root, tokens, create).value)
    ensures |Resolve(root, tokens, create).value| == |tokens|
    decreases |tokens|
  {
    if tokens != [] {
      match root
      case Object(members) =>
        if tokens[0] in members { ResolveFits(members[tokens[0]], tokens[1..], create); }
      case Array(items) =>
        var index := ArrayIndex(tokens[0], |items|, create && |tokens| == 1);
        if index.value < |items| { ResolveFits(items[index.value], tokens[1..], create); }
    }
  }

  lemma {:induction false} ReadFits(root: Value, steps: seq<Step>)
    requires Read(root, steps).Some?
    ensures Fits(root, steps)
    decreases |steps|
  {
    if steps != [] { ReadFits(Below(root, steps[0]).value, steps[1..]); }
  }

  // ---------- lens laws ----------

  lemma {:induction false} SetThenRead(root: Value, steps: seq<Step>, value: Value)
    requires Fits(root, steps)
    ensures Read(Write(root, steps, value), steps) == Some(value)
    decreases |steps|
  {
    if steps != [] && Below(root, steps[0]).Some? { SetThenRead(Below(root, steps[0]).value, steps[1..], value); }
  }

  lemma {:induction false} SetWhatIsThere(root: Value, steps: seq<Step>)
    requires Read(root, steps).Some?
    ensures Fits(root, steps) && Write(root, steps, Read(root, steps).value) == root
    decreases |steps|
  {
    ReadFits(root, steps);
    if steps != [] { SetWhatIsThere(Below(root, steps[0]).value, steps[1..]); }
  }

  lemma PutBelow(root: Value, step: Step, first: Value, second: Value)
    requires Fits(root, [step])
    ensures var once := Put(root, step, first);
            Below(once, step) == Some(first) && Fits(once, [step]) && Put(once, step, second) == Put(root, step, second)
  {
    assert [step][1..] == [];
  }

  lemma {:induction false} SetTwice(root: Value, steps: seq<Step>, first: Value, second: Value)
    requires Fits(root, steps)
    ensures var once := Write(root, steps, first);
            Fits(once, steps) && Write(once, steps, second) == Write(root, steps, second)
    decreases |steps|
  {
    if steps != [] {
      var step, rest := steps[0], steps[1..];
      if Below(root, step).Some? {
        var child := Below(root, step).value;
        SetTwice(child, rest, first, second);
        PutBelow(root, step, Write(child, rest, first), Write(Write(child, rest, first), rest, second));
      } else {
        assert steps == [step];
        PutBelow(root, step, first, second);
      }
    }
  }

  /** The two step lists part at some step both of them have. */
  ghost predicate Diverge(one: seq<Step>, two: seq<Step>)
    decreases |one|
  {
    one != [] && two != [] && (one[0] != two[0] || Diverge(one[1..], two[1..]))
  }

  lemma {:induction false} SetKeepsElsewhere(root: Value, steps: seq<Step>, value: Value, other: seq<Step>)
    requires Fits(root, steps) && Diverge(steps, other)
    ensures Read(Write(root, steps, value), other) == Read(root, other)
    decreases |steps|
  {
    if steps[0] == other[0] && Below(root, steps[0]).Some? {
      SetKeepsElsewhere(Below(root, steps[0]).value, steps[1..], value, other[1..]);
    }
  }

  // ---------- reading back by token ----------

  predicate SpellsStep(token: string, step: Step) {
    match step
    case Member(key) => token == key
    case Index(at) => ToInt(token) == Some(at)
  }

  /** Tokens that spell out the steps: member names, and numbers for indexes. */
  predicate Spells(tokens: Path, steps: seq<Step>)
    decreases |steps|
  {
    |tokens| == |steps| &&
    (steps == [] || (SpellsStep(tokens[0], steps[0]) && Spells(tokens[1..], steps[1..])))
  }

  lemma {:induction false} SpelledRead(root: Value, tokens: Path, steps: seq<Step>)
    requires Spells(tokens, steps) && Read(root, steps).Some?
    ensures ReadAt(root, tokens) == Read(root, steps)
    decreases |steps|
  {
    if steps != [] { SpelledRead(Below(root, steps[0]).value, tokens[1..], steps[1..]); }
  }

  predicate DashAppends(tokens: Path, steps: seq<Step>) {
    |tokens| == |steps| && tokens != [] && tokens[|tokens| - 1] == "-" && steps[|tokens| - 1].Index?
  }

  lemma ResolveTail(root: Value, tokens: Path, create: bool)
    requires tokens != [] && Resolve(root, tokens, create).Some?
    ensures var steps := Resolve(root, tokens, create).value;
            steps != [] && match Below(root, steps[0])
                           case None => |tokens| == 1 && steps == [steps[0]]
                           case Some(child) => Resolve(child, tokens[1..], create) == Some(steps[1..])
    ensures var steps := Resolve(root, tokens, create).value;
            SpellsStep(tokens[0], steps[0]) || (|tokens| == 1 && tokens[0] == "-" && steps[0].Index?)
  {
  }

  /** The tokens of a replacement spell its steps, but for a `-` that appends. */
  lemma {:induction false} ResolveSpells(root: Value, tokens: Path, create: bool)
    requires Resolve(root, tokens, create).Some?
    requires !DashAppends(tokens, Resolve(root, tokens, create).value)
    ensures Spells(tokens, Resolve(root, tokens, create).value)
    decreases |tokens|
  {
    if tokens != [] {
      var steps := Resolve(root, tokens, create).value;
      ResolveFits(root, tokens, create);
      if Below(root, steps[0]).Some? {
        var child := Below(root, steps[0]).value;
        ResolveTail(root, tokens, create);
        assert |tokens| > 1 ==> tokens[1..][|tokens| - 2] == tokens[|tokens| - 1];
        assert |tokens| > 1 ==> steps[1..][|tokens| - 2] == steps[|tokens| - 1];
        ResolveSpells(child, tokens[1..], create);
      } else {
        assert steps[1..] == [] && tokens[1..] == [];
      }
    }
  }

  /** Reading a path after a successful set gives the new value, at the old
      length when the path ended in an appending `-`. */
  lemma SetReadsBack(root: Value, tokens: Path, value: Value, create: bool, spelled: Path)
    requires Resolve(root, tokens, create).Some?
    requires var steps := Resolve(root, tokens, create).value;
             if DashAppends(tokens, steps) then Spells(spelled, steps) else spelled == tokens
    ensures Replaced(root, tokens, value, create).Some?
    ensures ReadAt(Replaced(root, tokens, value, create).value, spelled) == Some(value)
  {
    var steps := Resolve(root, tokens, create).value;
    ResolveFits(root, tokens, create);
    SetThenRead(root, steps, value);
    if !DashAppends(tokens, steps) { ResolveSpells(root, tokens, create); }
    SpelledRead(Write(root, steps, value), spelled, steps);
  }

  // ---------- erasing ----------

  /** Erasing takes a creation back. */
  lemma {:induction false} EraseUndoesCreate(root: Value, steps: seq<Step>, value: Value)
    requires steps != [] && Fits(root, steps) && Read(root, steps).None?
    ensures var created := Write(root, steps, value);
            Read(created, steps).Some? && Erased(created, steps) == root
    decreases |steps|
  {
    SetThenRead(root, steps, value);
    if Below(root, steps[0]).Some? {
      EraseUndoesCreate(Below(root, steps[0]).value, steps[1..], value);
    }
  }

  /** A step beside the erased one: after an erased array element the later
      elements have moved down by one. */
  function Shifted(erased: Step, step: Step): Step {
    if erased.Index? && step.Index? && step.at >= erased.at then Index(step.at + 1) else step
  }

  /** What every path reads after an erasure: below the erased container each
      step is the shifted old one, and an erased member is gone. */
  lemma {:induction false} EraseReads(root: Value, front: seq<Step>, last: Step, step: Step, rest: seq<Step>)
    requires Read(root, front + [last]).Some?
    ensures Read(Erased(root, front + [last]), front + [step] + rest) ==
            if last.Member? && step == last then None else Read(root, front + [Shifted(last, step)] + rest)
    decreases |front|
  {
    var steps := front + [last];
    if front == [] {
      assert steps == [last];
      assert front + [step] + rest == [step] + rest;
      assert front + [Shifted(last, step)] + rest == [Shifted(last, step)] + rest;
      EraseTop(root, last, step);
      assert ([step] + rest)[1..] == rest;
      assert ([Shifted(last, step)] + rest)[1..] == rest;
    } else {
      var tail := front[1..];
      assert steps[1..] == tail + [last];
      assert (front + [step] + rest)[1..] == tail + [step] + rest;
      assert (front + [Shifted(last, step)] + rest)[1..] == tail + [Shifted(last, step)] + rest;
      EraseReads(Below(root, front[0]).value, tail, last, step, rest);
    }
  }

  lemma EraseTop(root: Value, last: Step, step: Step)
    requires Below(root, last).Some?
    ensures Below(Drop(root, last), step) ==
            if last.Member? && step == last then None else Below(root, Shifted(last, step))
  {
  }

  /** Paths that part from the erased one before its last step read as before. */
  lemma {:induction false} EraseKeepsElsewhere(root: Value, front: seq<Step>, last: Step, other: seq<Step>)
    requires Read(root, front + [last]).Some? && Diverge(front, other)
    ensures Read(Erased(root, front + [last]), other) == Read(root, other)
    decreases |front|
  {
    assert (front + [last])[1..] == front[1..] + [last];
    if front[0] == other[0] {
      EraseKeepsElsewhere(Below(root, front[0]).value, front[1..], last, other[1..]);
    }
  }

  // ---------- whole edits ----------

  /** Setting and then erasing a field that did not exist changes nothing. */
  lemma SetThenEraseField(document: Doc, path: string, value: Value, erasePath: string)
    requires Tokens(path).Some? && Resolve(Object(document), Tokens(path).value, true).Some?
    requires Read(Object(document), Resolve(Object(document), Tokens(path).value, true).value).None?
    requires Tokens(erasePath).Some?
    requires var tokens := Tokens(path).value;
             var steps := Resolve(Object(document), tokens, true).value;
             if DashAppends(tokens, steps) then Spells(Tokens(erasePath).value, steps) else erasePath == path
    ensures Edited(Object(document), Set(path, Some(value))).Some?
    ensures Edited(Edited(Object(document), Set(path, Some(value))).value, Erase(erasePath)) == Some(Object(document))
  {
    var root, tokens := Object(document), Tokens(path).value;
    var steps := Resolve(root, tokens, true).value;
    var spelled := Tokens(erasePath).value;
    ResolveFits(root, tokens, true);
    var created := Write(root, steps, value);
    SetReadsBack(root, tokens, value, true, spelled);
    if !DashAppends(tokens, steps) { ResolveSpells(root, tokens, true); }
    EraseUndoesCreate(root, steps, value);
    SpelledResolve(created, spelled, steps);
  }

  lemma {:induction false} SpelledResolve(root: Value, tokens: Path, steps: seq<Step>)
    requires Spells(tokens, steps) && Read(root, steps).Some?
    ensures Resolve(root, tokens, false) == Some(steps)
    decreases |steps|
  {
    if steps != [] {
      SpelledResolve(Below(root, steps[0]).value, tokens[1..], steps[1..]);
      assert steps == [steps[0]] + steps[1..];
    }
  }

  /** A path always has a token, so no edit can replace the whole document by
      something other than an object. */
  lemma EditKeepsObject(document: Doc, edit: Edit)
    requires Edited(Object(document), edit).Some?
    ensures Edited(Object(document), edit).value.Object?
  {
    var tokens := Tokens(edit.path).value;
    TokensNotEmpty(edit.path);
    if Resolve(Object(document), tokens, edit.Set?).Some? { ResolveFits(Object(document), tokens, edit.Set?); }
  }

  lemma TokensNotEmpty(path: string)
    ensures Tokens(path).Some? ==> Tokens(path).value != []
  {
  }

  lemma {:induction false} NoDashWithoutCreate(root: Value, tokens: Path)
    requires Resolve(root, tokens, false).Some?
    ensures Spells(tokens, Resolve(root, tokens, false).value)
    ensures !DashAppends(tokens, Resolve(root, tokens, false).value)
    decreases |tokens|
  {
    if tokens != [] {
      ResolveFits(root, tokens, false);
      ResolveReads(root, tokens);
      ResolveTail(root, tokens, false);
      var steps := Resolve(root, tokens, false).value;
      NoDashWithoutCreate(Below(root, steps[0]).value, tokens[1..]);
      DashIsNoNumber();
      if |tokens| > 1 {
        assert tokens[1..][|tokens| - 2] == tokens[|tokens| - 1];
        assert steps[1..][|tokens| - 2] == steps[|tokens| - 1];
      }
    }
  }

  lemma DashIsNoNumber()
    ensures ToInt("-") == None
  {
    assert TrimLeft("-") == "-" && TrimRight("-") == "-";
  }

  /** A remove takes every equal element out of an array and nothing else. */
  lemma {:induction false} WithoutTakesAll(items: seq<Value>, removal: Value)
    ensures multiset(Without(items, removal)) == multiset(items)[removal := 0]
  {
    if items != [] {
      WithoutTakesAll(items[1..], removal);
      assert items == [items[0]] + items[1..];
    }
  }

  // ---------- whole edits, told without resolved steps ----------

  /** What one token leads to. */
  lemma ReadStep(root: Value, token: string, rest: Path)
    ensures ReadAt(root, [token] + rest) ==
            match root
            case Object(members) => if token in members then ReadAt(members[token], rest) else None
            case Array(items) =>
              if ToInt(token).Some? && 0 <= ToInt(token).value < |items| then ReadAt(items[ToInt(token).value], rest)
              else None
            case _ => None
  {
    assert ([token] + rest)[1..] == rest;
  }

  /** The container takes a value under its last token: an object always does,
      an array under an index, under its length, or under a dash. */
  predicate Takes(container: Value, last: string) {
    container.Object? ||
    (container.Array? && (last == "-" || (ToInt(last).Some? && 0 <= ToInt(last).value <= |container.items|)))
  }

  function SetIn(container: Value, last: string, value: Value): Value
    requires Takes(container, last)
  {
    match container
    case Object(members) => Object(members[last := value])
    case Array(items) =>
      if last == "-" || ToInt(last).value == |items| then Array(items + [value])
      else Array(items[ToInt(last).value := value])
  }

  /** The container has something under its last token. */
  predicate Has(container: Value, last: string) {
    (container.Object? && last in container.members) ||
    (container.Array? && ToInt(last).Some? && 0 <= ToInt(last).value < |container.items|)
  }

  /** The container with what the last token leads to taken out. */
  function EraseIn(container: Value, last: string): Value
    requires Has(container, last)
  {
    match container
    case Object(members) => Object(map key | key in members && key != last :: members[key])
    case Array(items) => Array(items[..ToInt(last).value] + items[ToInt(last).value + 1..])
  }

  lemma {:induction false} SettableExact(root: Value, tokens: Path)
    requires tokens != []
    ensures var front, last := tokens[..|tokens| - 1], tokens[|tokens| - 1];
            Resolve(root, tokens, true).Some? <==> ReadAt(root, front).Some? && Takes(ReadAt(root, front).value, last)
    decreases |tokens|
  {
    var front, token, rest := tokens[..|tokens| - 1], tokens[0], tokens[1..];
    if rest != [] {
      assert front == [token] + rest[..|rest| - 1];
      ReadStep(root, token, rest[..|rest| - 1]);
      match root
      case Object(members) => if token in members { SettableExact(members[token], rest); }
      case Array(items) =>
        var index := ArrayIndex(token, |items|, false);
        if index.Some? { SettableExact(items[index.value], rest); }
      case _ =>
    } else {
      assert front == [];
    }
  }

  lemma {:induction false} SetContainer(root: Value, tokens: Path, value: Value)
    requires tokens != [] && Resolve(root, tokens, true).Some?
    ensures var front, last := tokens[..|tokens| - 1], tokens[|tokens| - 1];
            var steps := Resolve(root, tokens, true).value;
            Fits(root, steps) && ReadAt(root, front).Some? && Takes(ReadAt(root, front).value, last) &&
            ReadAt(Write(root, steps, value), front) == Some(SetIn(ReadAt(root, front).value, last, value))
    decreases |tokens|
  {
    SettableExact(root, tokens);
    ResolveFits(root, tokens, true);
    var front, token, rest := tokens[..|tokens| - 1], tokens[0], tokens[1..];
    var steps := Resolve(root, tokens, true).value;
    if rest != [] {
      var above := rest[..|rest| - 1];
      assert front == [token] + above;
      ReadStep(root, token, above);
      ReadStep(Write(root, steps, value), token, above);
      ResolveTail(root, tokens, true);
      SetContainer(Below(root, steps[0]).value, rest, value);
    } else {
      assert front == [] && steps == [steps[0]] && steps[1..] == [];
    }
  }

  lemma EraseTopIn(root: Value, token: string, step: Step)
    requires Has(root, token) && Below(root, step).Some? && SpellsStep(token, step)
    ensures Drop(root, step) == EraseIn(root, token)
  {
    if root.Object? {
      assert root.members - {token} == map key | key in root.members && key != token :: root.members[key];
    }
  }

  lemma {:induction false} EraseContainer(root: Value, tokens: Path)
    requires tokens != [] && ReadAt(root, tokens).Some?
    ensures var front, last := tokens[..|tokens| - 1], tokens[|tokens| - 1];
            Resolve(root, tokens, false).Some? && var steps := Resolve(root, tokens, false).value;
            steps != [] && Read(root, steps).Some? &&
            ReadAt(root, front).Some? && Has(ReadAt(root, front).value, last) &&
            ReadAt(Erased(root, steps), front) == Some(EraseIn(ReadAt(root, front).value, last))
    decreases |tokens|
  {
    ResolveReads(root, tokens);
    ResolveFits(root, tokens, false);
    var front, token, rest := tokens[..|tokens| - 1], tokens[0], tokens[1..];
    var steps := Resolve(root, tokens, false).value;
    assert tokens == [token] + rest;
    ReadStep(root, token, rest);
    ResolveTail(root, tokens, false);
    if rest != [] {
      var above := rest[..|rest| - 1];
      assert front == [token] + above;
      ReadStep(root, token, above);
      ReadStep(Erased(root, steps), token, above);
      EraseContainer(Below(root, steps[0]).value, rest);
    } else {
      assert front == [] && tokens == [token] && steps == [steps[0]] && steps[1..] == [];
      EraseTopIn(root, token, steps[0]);
    }
  }

  /** A set succeeds exactly when its path has a container that takes a value
      under the last token, and then that container holds it there. */
  lemma SetExact(document: Doc, path: string, value: Value)
    ensures var result := Edited(Object(document), Set(path, Some(value)));
            Edited(Object(document), Set(path, None)) == None &&
            if Tokens(path).None? then result == None
            else
              var tokens := Tokens(path).value;
              tokens != [] && var front, last := tokens[..|tokens| - 1], tokens[|tokens| - 1];
              var container := ReadAt(Object(document), front);
              (result.Some? <==> container.Some? && Takes(container.value, last)) &&
              (result.Some? ==> ReadAt(result.value, front) == Some(SetIn(container.value, last, value)))
  {
    if Tokens(path).Some? {
      TokensNotEmpty(path);
      var tokens := Tokens(path).value;
      SettableExact(Object(document), tokens);
      if Resolve(Object(document), tokens, true).Some? { SetContainer(Object(document), tokens, value); }
    }
  }

  /** An erase succeeds exactly where its path reads a value, and then the
      container has lost it. */
  lemma EraseExact(document: Doc, path: string)
    ensures var result := Edited(Object(document), Erase(path));
            if Tokens(path).None? then result == None
            else
              var tokens := Tokens(path).value;
              tokens != [] && var front, last := tokens[..|tokens| - 1], tokens[|tokens| - 1];
              var container := ReadAt(Object(document), front);
              (result.Some? <==> ReadAt(Object(document), tokens).Some?) &&
              (result.Some? ==> container.Some? && Has(container.value, last) &&
                                ReadAt(result.value, front) == Some(EraseIn(container.value, last)))
  {
    if Tokens(path).Some? {
      TokensNotEmpty(path);
      ResolveReads(Object(document), Tokens(path).value);
      if ReadAt(Object(document), Tokens(path).value).Some? { EraseContainer(Object(document), Tokens(path).value); }
    }
  }

  lemma {:induction false} UpdateReadsBack(root: Value, tokens: Path, value: Value)
    requires ReadAt(root, tokens).Some?
    ensures Replaced(root, tokens, value, false).Some?
    ensures ReadAt(Replaced(root, tokens, value, false).value, tokens) == Some(value)
  {
    ResolveReads(root, tokens);
    ResolveFits(root, tokens, false);
    NoDashWithoutCreate(root, tokens);
    SetReadsBack(root, tokens, value, false, tokens);
  }

  /** An array with the value at its end, or an object with the members of
      another one, which win. */
  ghost predicate Extended(container: Value, value: Value, after: Value) {
    if container.Array? then after == Array(container.items + [value])
    else
      container.Object? && value.Object? && after.Object? &&
      forall key :: Get(after.members, key) ==
                    if key in value.members then Get(value.members, key) else Get(container.members, key)
  }

  /** An add succeeds exactly on an array, or with an object on an object, and
      then the container is extended. */
  lemma AddExact(document: Doc, path: string, value: Value)
    ensures var root, result := Object(document), Edited(Object(document), Add(path, Some(value)));
            Edited(root, Add(path, None)) == None &&
            if Tokens(path).None? || ReadAt(root, Tokens(path).value).None? then result == None
            else
              var tokens, container := Tokens(path).value, ReadAt(root, Tokens(path).value).value;
              (result.Some? <==> container.Array? || (container.Object? && value.Object?)) &&
              (result.Some? ==> ReadAt(result.value, tokens).Some? &&
                                Extended(container, value, ReadAt(result.value, tokens).value))
  {
    if Tokens(path).Some? && ReadAt(Object(document), Tokens(path).value).Some? {
      var container := ReadAt(Object(document), Tokens(path).value).value;
      if Added(container, value).Some? {
        UpdateReadsBack(Object(document), Tokens(path).value, Added(container, value).value);
      }
    }
  }

  /** An array without the elements equal to the value, or an object without the
      member it names. */
  ghost predicate Reduced(container: Value, value: Value, after: Value) {
    if container.Array? then after == Array(Without(container.items, value))
    else
      container.Object? && value.Text? && after.Object? &&
      forall key :: Get(after.members, key) == if key == value.text then None else Get(container.members, key)
  }

  /** A remove succeeds exactly on an array that holds the value, or with the
      name of a member on an object, and then the container is reduced. */
  lemma RemoveExact(document: Doc, path: string, value: Value)
    ensures var root, result := Object(document), Edited(Object(document), Remove(path, Some(value)));
            Edited(root, Remove(path, None)) == None &&
            if Tokens(path).None? || ReadAt(root, Tokens(path).value).None? then result == None
            else
              var tokens, container := Tokens(path).value, ReadAt(root, Tokens(path).value).value;
              (result.Some? <==> (container.Array? && value in container.items) ||
                                 (container.Object? && value.Text? && value.text in container.members)) &&
              (result.Some? ==> ReadAt(result.value, tokens).Some? &&
                                Reduced(container, value, ReadAt(result.value, tokens).value))
  {
    if Tokens(path).Some? && ReadAt(Object(document), Tokens(path).value).Some? {
      var container := ReadAt(Object(document), Tokens(path).value).value;
      if Removed(container, value).Some? {
        UpdateReadsBack(Object(document), Tokens(path).value, Removed(container, value).value);
      }
    }
  }

  /** What a remove leaves of two lists one after the other is what it leaves of
      each, so the elements that stay keep their order. */
  lemma {:induction false} WithoutConcat(one: seq<Value>, two: seq<Value>, removal: Value)
    ensures Without(one + two, removal) == Without(one, removal) + Without(two, removal)
  {
    if one == [] {
      assert one + two == two;
    } else {
      var head, rest := one[0], one[1..];
      assert one + two == [head] + (rest + two) && one == [head] + rest;
      WithoutAppend(rest + two, head, removal);
      WithoutAppend(rest, head, removal);
      WithoutConcat(rest, two, removal);
    }
  }

  /** A set, add or remove leaves every path that parts from its own as it was. */
  lemma EditKeepsElsewhere(document: Doc, edit: Edit, other: seq<Step>)
    requires !edit.Erase? && Edited(Object(document), edit).Some?
    requires Diverge(Resolve(Object(document), Tokens(edit.path).value, edit.Set?).value, other)
    ensures Read(Edited(Object(document), edit).value, other) == Read(Object(document), other)
  {
    var root, steps := Object(document), Resolve(Object(document), Tokens(edit.path).value, edit.Set?).value;
    match edit
    case Set(_, value) => SetKeepsElsewhere(root, steps, value.value, other);
    case Add(path, value) =>
      var container := ReadAt(root, Tokens(path).value).value;
      SetKeepsElsewhere(root, steps, Added(container, value.value).value, other);
    case Remove(path, value) =>
      var container := ReadAt(root, Tokens(path).value).value;
      SetKeepsElsewhere(root, steps, Removed(container, value.value).value, other);
  }

  // ---------- every step can be spelled ----------

  function Decimal(n: nat): string {
    var last := ((n % 10) as int + 48) as char;
    if n < 10 then [last] else Decimal(n / 10) + [last]
  }

  lemma {:induction false} DigitsOfDecimal(n: nat)
    ensures IsDigits(Decimal(n)) && Digits(Decimal(n)) == n
  {
    var text := Decimal(n);
    if n >= 10 {
      DigitsOfDecimal(n / 10);
      assert text[..|text| - 1] == Decimal(n / 10);
    } else {
      assert text[..|text| - 1] == "";
    }
  }

  lemma {:induction false} NoSpaceTrim(text: string)
    requires forall i | 0 <= i < |text| :: !IsSpace(text[i])
    ensures Trim(text) == text
  {
  }

  lemma DecimalText(n: nat)
    ensures Decimal(n) != "" && Decimal(n)[0] !in "+-"
    ensures Trim(Decimal(n)) == Decimal(n) && Trim("-" + Decimal(n)) == "-" + Decimal(n)
  {
    DigitsOfDecimal(n);
    NoSpaceTrim(Decimal(n));
    NoSpaceTrim("-" + Decimal(n));
  }

  lemma ToIntUnsigned(digits: string)
    requires Trim(digits) == digits && digits != "" && digits[0] != '+' && digits[0] != '-'
    ensures ToInt(digits) == SignedDigits(digits, false)
  {
  }

  lemma ToIntMinus(digits: string)
    requires Trim("-" + digits) == "-" + digits
    ensures ToInt("-" + digits) == SignedDigits(digits, true)
  {
    var text := "-" + digits;
    assert text[0] == '-' && text[1..] == digits;
  }

  /** A printed number reads as itself, with a minus as its opposite, and only
      within 32 bits. */
  lemma ToIntOfDecimal(n: nat, digits: string)
    requires digits == Decimal(n)
    ensures ToInt(digits) == if n < 0x8000_0000 then Some(n) else None
    ensures ToInt("-" + digits).Some? <==> n <= 0x8000_0000
    ensures ToInt("-" + digits).Some? ==> ToInt("-" + digits).value + n == 0
  {
    DecimalText(n);
    DigitsOfDecimal(n);
    ToIntUnsigned(digits);
    ToIntMinus(digits);
  }

  predicate AllSpace(text: string) {
    forall i | 0 <= i < |text| :: IsSpace(text[i])
  }

  lemma {:induction false} TrimLeftPadded(before: string, text: string)
    requires AllSpace(before) && text != "" && !IsSpace(text[0])
    ensures TrimLeft(before + text) == text
  {
    if before == "" {
      assert before + text == text;
    } else {
      assert (before + text)[1..] == before[1..] + text;
      TrimLeftPadded(before[1..], text);
    }
  }

  lemma {:induction false} TrimRightPadded(text: string, after: string)
    requires AllSpace(after) && text != "" && !IsSpace(text[|text| - 1])
    ensures TrimRight(text + after) == text
  {
    if after == "" {
      assert text + after == text;
    } else {
      assert (text + after)[..|text + after| - 1] == text + after[..|after| - 1];
      TrimRightPadded(text, after[..|after| - 1]);
    }
  }

  predicate AllZero(text: string) {
    forall i | 0 <= i < |text| :: text[i] == '0'
  }

  lemma {:induction false} ZerosAreZero(zeros: string)
    requires AllZero(zeros)
    ensures Digits(zeros) == 0
  {
    if zeros != "" { ZerosAreZero(zeros[..|zeros| - 1]); }
  }

  /** Leading zeros change no number. */
  lemma {:induction false} LeadingZeros(zeros: string, digits: string)
    requires AllZero(zeros) && IsDigits(digits)
    ensures IsDigits(zeros + digits) && Digits(zeros + digits) == Digits(digits)
    decreases |digits|
  {
    var text, n := zeros + digits, |digits| - 1;
    if zeros == "" {
      assert text == digits;
    } else if n == 0 {
      assert text[..|text| - 1] == zeros && digits[..0] == "";
      ZerosAreZero(zeros);
    } else {
      assert text[..|text| - 1] == zeros + digits[..n];
      LeadingZeros(zeros, digits[..n]);
    }
  }

  lemma TrimPadded(before: string, text: string, after: string)
    requires AllSpace(before) && AllSpace(after) && text != "" && !IsSpace(text[0]) && !IsSpace(text[|text| - 1])
    ensures Trim(before + text + after) == text
  {
    assert before + text + after == before + (text + after);
    TrimLeftPadded(before, text + after);
    TrimRightPadded(text, after);
  }

  lemma ToIntSigned(token: string, sign: string, digits: string)
    requires sign in {"", "+", "-"} && IsDigits(digits) && Trim(token) == sign + digits
    ensures ToInt(token) == SignedDigits(digits, sign == "-")
  {
    var text := sign + digits;
    if sign == "" {
      assert text == digits && text[0] !in "+-";
    } else {
      assert text[0] == sign[0] && text[1..] == digits && text[0] in "+-";
    }
  }

  /** Whitespace around an index changes nothing, a minus before it gives its
      opposite, and a number outside 32 bits is none. */
  lemma ToIntReads(before: string, sign: string, digits: string, after: string, value: int)
    requires AllSpace(before) && AllSpace(after) && sign in {"", "+", "-"} && IsDigits(digits)
    requires value == if sign == "-" then 0 - Digits(digits) else Digits(digits)
    ensures ToInt(before + (sign + digits) + after) ==
            if -0x8000_0000 <= value < 0x8000_0000 then Some(value) else None
  {
    var text, token := sign + digits, before + (sign + digits) + after;
    assert text[|text| - 1] == digits[|digits| - 1];
    assert text[0] == if sign == "" then digits[0] else sign[0];
    TrimPadded(before, text, after);
    ToIntSigned(token, sign, digits);
  }

  /** Nothing but digits, with at most a sign before them and whitespace around,
      is read as an index. */
  lemma OnlyNumbersAreRead(token: string)
    requires ToInt(token).Some?
    ensures var text := Trim(token);
            text != "" && var digits := if text[0] == '+' || text[0] == '-' then text[1..] else text;
            digits != "" && forall c | c in digits :: '0' <= c <= '9'
  {
  }

  function SpellOut(steps: seq<Step>): Path {
    if steps == [] then []
    else [match steps[0] case Member(key) => key case Index(at) => Decimal(at)] + SpellOut(steps[1..])
  }

  lemma {:induction false} SpellOutSpells(steps: seq<Step>)
    requires forall i | 0 <= i < |steps| && steps[i].Index? :: steps[i].at < 0x8000_0000
    ensures Spells(SpellOut(steps), steps)
  {
    if steps != [] {
      if steps[0].Index? { ToIntOfDecimal(steps[0].at, Decimal(steps[0].at)); }
      SpellOutSpells(steps[1..]);
      assert SpellOut(steps)[1..] == SpellOut(steps[1..]);
    }
  }
}
