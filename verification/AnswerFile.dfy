/** The answer file a profile renders to, and the check made of it: settings
    become a tree of elements for each component, and the check reads the tree
    back by element names alone. */
module AnswerFile {
  import opened Json
  import opened Text
  import opened SettingPatches

  // ---------- reading the profile ----------

  /** An element's identity among its siblings. */
  datatype Step = Step(name: string, attributes: map<string, string>)

  /** One component element of one setup pass. */
  datatype Place = Place(setupPass: string, component: string, architecture: string, publicKeyToken: string,
                         language: string, versionScope: string)

  datatype Entry = Entry(place: Place, path: seq<Step>, value: string)

  const PASSES := ["windowsPE", "offlineServicing", "generalize", "specialize", "auditSystem", "auditUser",
                   "oobeSystem"]

  function FirstLike(passes: seq<string>, name: string): Option<string> {
    if passes == [] then None
    else if Fold(passes[0]) == Fold(name) then Some(passes[0])
    else FirstLike(passes[1..], name)
  }

  /** The setup pass of that name, in whatever case. */
  function ParsePass(name: string): Option<string> {
    FirstLike(PASSES, name)
  }

  lemma {:induction false} FirstLikeExact(passes: seq<string>, name: string, pass: string)
    requires forall i, j | 0 <= i < j < |passes| :: Fold(passes[i]) != Fold(passes[j])
    ensures FirstLike(passes, name) == Some(pass) <==> pass in passes && Fold(pass) == Fold(name)
  {
    if passes != [] { FirstLikeExact(passes[1..], name, pass); }
  }

  function Or(field: Field, default: string): string {
    if field.Given? then field.text else default
  }

  function StepOf(segment: Segment): Step
    requires segment.name.Some?
  {
    Step(segment.name.value,
         match segment.attributes
         case Listed(entries) => map key | key in entries && entries[key].Some? :: entries[key].value
         case _ => map[])
  }

  predicate Named(segment: Segment) {
    segment.name.Some? && Trim(segment.name.value) != ""
  }

  /** What the renderer makes of one setting; it refuses a profile holding one
      it can make nothing of. */
  function Read(setting: Setting): Option<Entry> {
    if setting.Other? || ParsePass(setting.setupPass).None? || Trim(setting.component) == "" ||
       setting.path.None? || setting.path.value == [] || exists s | s in setting.path.value :: !Named(s)
    then None
    else
      var path := setting.path.value;
      Some(Entry(Place(ParsePass(setting.setupPass).value, setting.component, Or(setting.architecture, "amd64"),
                       Or(setting.publicKeyToken, "31bf3856ad364e35"), Or(setting.language, "neutral"),
                       Or(setting.versionScope, "nonSxS")),
                 seq(|path|, i requires 0 <= i < |path| => assert path[i] in path; StepOf(path[i])),
                 setting.value))
  }

  predicate Renderable(settings: seq<Setting>) {
    forall s | s in settings :: Read(s).Some?
  }

  // ---------- the tree ----------

  datatype Node = Node(step: Step, value: Option<string>, children: seq<Node>)

  /** Writes the value at the end of the path, making the elements on the way
      that are not there yet. */
  function Insert(node: Node, path: seq<Step>, value: string): Node
    decreases |path|, 0
  {
    if path == [] then node.(value := Some(value))
    else node.(children := InsertBelow(node.children, path, value))
  }

  function InsertBelow(children: seq<Node>, path: seq<Step>, value: string): seq<Node>
    requires path != []
    decreases |path| - 1, |children| + 1
  {
    if children == [] then [Insert(Node(path[0], None, []), path[1..], value)]
    else if children[0].step == path[0] then [Insert(children[0], path[1..], value)] + children[1..]
    else [children[0]] + InsertBelow(children[1..], path, value)
  }

  type Trees = map<Place, Node>

  const ROOT := Node(Step("component", map[]), None, [])

  function RootAt(trees: Trees, place: Place): Node {
    if place in trees then trees[place] else ROOT
  }

  function Render(settings: seq<Setting>): Trees
    requires Renderable(settings)
  {
    if settings == [] then map[]
    else
      var last := settings[|settings| - 1];
      assert last in settings;
      var entry, trees := Read(last).value, Render(settings[..|settings| - 1]);
      trees[entry.place := Insert(RootAt(trees, entry.place), entry.path, entry.value)]
  }

  // ---------- what is in the tree ----------

  function ChildAt(children: seq<Node>, step: Step): Option<Node> {
    if children == [] then None
    else if children[0].step == step then Some(children[0])
    else ChildAt(children[1..], step)
  }

  function NodeAt(node: Node, path: seq<Step>): Option<Node>
    decreases |path|
  {
    if path == [] then Some(node)
    else
      match ChildAt(node.children, path[0])
      case None => None
      case Some(child) => NodeAt(child, path[1..])
  }

  lemma {:induction false} ChildInserted(children: seq<Node>, path: seq<Step>, value: string, step: Step)
    requires path != []
    ensures ChildAt(InsertBelow(children, path, value), step) ==
            if step != path[0] then ChildAt(children, step)
            else
              var was := ChildAt(children, step);
              Some(Insert(if was.Some? then was.value else Node(step, None, []), path[1..], value))
    decreases |children|
  {
    var now := InsertBelow(children, path, value);
    if children != [] {
      if children[0].step == path[0] {
        assert now[1..] == children[1..];
      } else {
        assert now[1..] == InsertBelow(children[1..], path, value);
        ChildInserted(children[1..], path, value, step);
      }
    }
  }

  /** Inserting adds the elements on the path and writes the value at its end;
      every other element holds what it held. */
  lemma {:induction false} NodeInserted(node: Node, path: seq<Step>, value: string, at: seq<Step>)
    ensures var was, now := NodeAt(node, at), NodeAt(Insert(node, path, value), at);
            (now.Some? <==> was.Some? || at <= path) &&
            (now.Some? ==> now.value.value == if at == path then Some(value)
                                              else if was.Some? then was.value.value else None)
    decreases |at|
  {
    if at != [] && path != [] {
      ChildInserted(node.children, path, value, at[0]);
      if at[0] == path[0] {
        var was := ChildAt(node.children, at[0]);
        var child := if was.Some? then was.value else Node(at[0], None, []);
        NodeInserted(child, path[1..], value, at[1..]);
        assert at <= path <==> at[1..] <= path[1..];
        assert at == path <==> at[1..] == path[1..] by {
          assert at == [at[0]] + at[1..] && path == [path[0]] + path[1..];
        }
      }
    }
  }

  predicate ReadsAt(setting: Setting, place: Place, path: seq<Step>) {
    Read(setting).Some? && Read(setting).value.place == place && Read(setting).value.path == path
  }

  predicate ReadsBelow(setting: Setting, place: Place, path: seq<Step>) {
    Read(setting).Some? && Read(setting).value.place == place && path <= Read(setting).value.path
  }

  /** The last setting whose own element this is. */
  function LastAt(settings: seq<Setting>, place: Place, path: seq<Step>): (last: Option<Setting>)
    ensures last.Some? ==> last.value in settings && ReadsAt(last.value, place, path)
  {
    if settings == [] then None
    else if ReadsAt(settings[|settings| - 1], place, path) then Some(settings[|settings| - 1])
    else LastAt(settings[..|settings| - 1], place, path)
  }

  function ValueOf(setting: Setting): string {
    if setting.Setting? then setting.value else ""
  }

  /** The rendered tree has an element exactly at, and on the way to, the
      settings' paths; it holds the value of the last setting at it, if any. */
  lemma {:induction false} RenderedExact(settings: seq<Setting>, place: Place, path: seq<Step>)
    requires Renderable(settings) && path != []
    ensures var node, last := NodeAt(RootAt(Render(settings), place), path), LastAt(settings, place, path);
            (node.Some? <==> exists s | s in settings :: ReadsBelow(s, place, path)) &&
            (node.Some? ==> node.value.value == if last.Some? then Some(ValueOf(last.value)) else None)
  {
    if settings != [] {
      var n := |settings| - 1;
      var front, last := settings[..n], settings[n];
      assert settings == front + [last];
      RenderedExact(front, place, path);
      RenderedLast(front, last, place, path);
    }
  }

  lemma RenderedLast(front: seq<Setting>, last: Setting, place: Place, path: seq<Step>)
    requires Renderable(front) && Read(last).Some? && path != []
    ensures Renderable(front + [last])
    ensures var was, now := NodeAt(RootAt(Render(front), place), path),
                            NodeAt(RootAt(Render(front + [last]), place), path);
            (now.Some? <==> was.Some? || ReadsBelow(last, place, path)) &&
            (now.Some? ==> now.value.value == if ReadsAt(last, place, path) then Some(ValueOf(last))
                                              else if was.Some? then was.value.value else None)
  {
    var entry := Read(last).value;
    assert (front + [last])[..|front|] == front;
    NodeInserted(RootAt(Render(front), place), entry.path, entry.value, path);
  }

  // ---------- the check ----------

  /** Element names lead from one element to the other. */
  ghost predicate Leads(from: Node, names: seq<string>, to: Node)
    decreases |names|
  {
    if names == [] then to == from
    else exists child | child in from.children :: child.step.name == names[0] && Leads(child, names[1..], to)
  }

  lemma {:induction false} LeadsOn(from: Node, names: seq<string>, name: string, to: Node)
    ensures Leads(from, names + [name], to) <==>
            exists node :: Leads(from, names, node) && to in node.children && to.step.name == name
    decreases |names|
  {
    var longer := names + [name];
    if names == [] {
      assert Leads(from, names, from);
      assert longer[1..] == [];
    } else {
      assert longer[1..] == names[1..] + [name] && longer[0] == names[0];
      if Leads(from, longer, to) {
        var child :| child in from.children && child.step.name == longer[0] && Leads(child, longer[1..], to);
        LeadsOn(child, names[1..], name, to);
        var node :| Leads(child, names[1..], node) && to in node.children && to.step.name == name;
        assert Leads(from, names, node);
      }
      if node :| Leads(from, names, node) && to in node.children && to.step.name == name {
        var child :| child in from.children && child.step.name == names[0] && Leads(child, names[1..], node);
        LeadsOn(child, names[1..], name, to);
      }
    }
  }

  method NamedIn(children: seq<Node>, name: string) returns (named: seq<Node>)
    ensures forall node :: node in named <==> node in children && node.step.name == name
  {
    named := [];
    for i := 0 to |children|
      invariant forall node :: node in named <==> node in children[..i] && node.step.name == name
    {
      assert children[..i + 1] == children[..i] + [children[i]];
      if children[i].step.name == name { named := named + [children[i]]; }
    }
    assert children[..|children|] == children;
  }

  method ChildrenNamed(parents: seq<Node>, name: string) returns (named: seq<Node>)
    ensures forall node :: node in named <==>
              exists parent | parent in parents :: node in parent.children && node.step.name == name
  {
    named := [];
    for i := 0 to |parents|
      invariant forall node :: node in named <==>
                  exists parent | parent in parents[..i] :: node in parent.children && node.step.name == name
    {
      assert parents[..i + 1] == parents[..i] + [parents[i]];
      var own := NamedIn(parents[i].children, name);
      named := named + own;
    }
    assert parents[..|parents|] == parents;
  }

  /** The level-by-level walk finds every element the names lead to. */
  method Candidates(root: Node, names: seq<string>) returns (nodes: seq<Node>)
    ensures forall node :: node in nodes <==> Leads(root, names, node)
  {
    nodes := [root];
    for i := 0 to |names|
      invariant forall node :: node in nodes <==> Leads(root, names[..i], node)
    {
      assert names[..i + 1] == names[..i] + [names[i]];
      forall node {
        LeadsOn(root, names[..i], names[i], node);
      }
      nodes := ChildrenNamed(nodes, names[i]);
    }
    assert names[..|names|] == names;
  }

  predicate AtSpec(place: Place, spec: Spec) {
    place.setupPass == spec.setupPass && place.component == spec.component
  }

  ghost predicate Element(trees: Trees, spec: Spec, place: Place, node: Node) {
    place in trees && AtSpec(place, spec) && Leads(trees[place], spec.path, node)
  }

  function Indentation(depth: nat): string {
    "\n" + seq(4 * depth, _ => ' ')
  }

  /** What an element reads as: its value, or the line break before its first
      child. */
  function TextOf(node: Node, depth: nat): string {
    if node.value.Some? then node.value.value
    else if node.children == [] then ""
    else Indentation(depth)
  }

  function DepthOf(spec: Spec): nat {
    |spec.path| + 3
  }

  ghost predicate Reads(trees: Trees, spec: Spec, architecture: Option<string>, text: string) {
    exists place, node :: Element(trees, spec, place, node) && TextOf(node, DepthOf(spec)) == text &&
                          (architecture.Some? ==> place.architecture == architecture.value)
  }

  method ValuesFor(trees: Trees, spec: Spec, architecture: Option<string>) returns (values: seq<string>)
    ensures forall text :: text in values <==> Reads(trees, spec, architecture, text)
  {
    values := [];
    var places := trees.Keys;
    while places != {}
      invariant places <= trees.Keys
      invariant forall text :: text in values <==> Reads(trees - places, spec, architecture, text)
    {
      var place :| place in places;
      ghost var before, seen := values, trees - places;
      places := places - {place};
      if AtSpec(place, spec) && (architecture.None? || place.architecture == architecture.value) {
        var nodes := Candidates(trees[place], spec.path);
        var texts := seq(|nodes|, i requires 0 <= i < |nodes| => TextOf(nodes[i], DepthOf(spec)));
        values := values + texts;
        TextsAdded(seen, trees - places, spec, architecture, place, nodes, texts);
      } else {
        TextsSame(seen, trees - places, spec, architecture, place);
      }
    }
    assert trees - {} == trees;
  }

  ghost predicate OneMore(before: Trees, after: Trees, place: Place) {
    place !in before && place in after && after - {place} == before
  }

  lemma TextsAdded(before: Trees, after: Trees, spec: Spec, architecture: Option<string>, place: Place,
                   nodes: seq<Node>, texts: seq<string>)
    requires OneMore(before, after, place) && AtSpec(place, spec)
    requires architecture.Some? ==> place.architecture == architecture.value
    requires forall node :: node in nodes <==> Leads(after[place], spec.path, node)
    requires |texts| == |nodes| && forall i | 0 <= i < |nodes| :: texts[i] == TextOf(nodes[i], DepthOf(spec))
    ensures forall text :: Reads(after, spec, architecture, text) <==>
                           Reads(before, spec, architecture, text) || text in texts
  {
    forall text
      ensures Reads(after, spec, architecture, text) <==> Reads(before, spec, architecture, text) || text in texts
    {
      if p, node :| Element(before, spec, p, node) && TextOf(node, DepthOf(spec)) == text &&
                    (architecture.Some? ==> p.architecture == architecture.value)
      {
        assert p in after - {place} && Element(after, spec, p, node);
      }
      if i :| 0 <= i < |texts| && texts[i] == text {
        assert nodes[i] in nodes && Element(after, spec, place, nodes[i]);
      }
      if p, node :| Element(after, spec, p, node) && TextOf(node, DepthOf(spec)) == text &&
                    (architecture.Some? ==> p.architecture == architecture.value)
      {
        if p == place {
          var i :| 0 <= i < |nodes| && nodes[i] == node;
          assert texts[i] == text;
        } else {
          assert p in after - {place} && Element(before, spec, p, node);
        }
      }
    }
  }

  lemma TextsSame(before: Trees, after: Trees, spec: Spec, architecture: Option<string>, place: Place)
    requires OneMore(before, after, place)
    requires !(AtSpec(place, spec) && (architecture.None? || place.architecture == architecture.value))
    ensures forall text :: Reads(after, spec, architecture, text) <==> Reads(before, spec, architecture, text)
  {
    forall p, node | p != place ensures Element(after, spec, p, node) <==> Element(before, spec, p, node) {
      assert p in after <==> p in after - {place};
    }
  }

  /** Every element at the place holds the value, and one is for amd64. */
  ghost predicate CheckPasses(trees: Trees, patch: Patch) {
    var spec := SpecOf(patch.key);
    (exists place, node :: Element(trees, spec, place, node) && place.architecture == "amd64") &&
    forall place, node | Element(trees, spec, place, node) :: TextOf(node, DepthOf(spec)) == patch.value
  }

  method VerifyRenderedSettings(trees: Trees, patches: seq<Patch>) returns (ok: bool)
    ensures ok <==> forall patch | patch in patches :: CheckPasses(trees, patch)
  {
    for k := 0 to |patches|
      invariant forall patch | patch in patches[..k] :: CheckPasses(trees, patch)
    {
      var patch := patches[k];
      assert patch in patches && patches[..k + 1] == patches[..k] + [patch];
      var values := ValuesFor(trees, SpecOf(patch.key), None);
      var amd64Values := ValuesFor(trees, SpecOf(patch.key), Some("amd64"));
      ValuesDecide(trees, patch, values, amd64Values);
      if values == [] || amd64Values == [] || exists v | v in values :: v != patch.value { return false; }
    }
    assert patches[..|patches|] == patches;
    return true;
  }

  lemma ValuesDecide(trees: Trees, patch: Patch, values: seq<string>, amd64Values: seq<string>)
    requires forall text :: text in values <==> Reads(trees, SpecOf(patch.key), None, text)
    requires forall text :: text in amd64Values <==> Reads(trees, SpecOf(patch.key), Some("amd64"), text)
    ensures CheckPasses(trees, patch) <==>
            values != [] && amd64Values != [] && forall v | v in values :: v == patch.value
  {
    var spec := SpecOf(patch.key);
    forall place, node | Element(trees, spec, place, node)
      ensures TextOf(node, DepthOf(spec)) in values
      ensures place.architecture == "amd64" ==> TextOf(node, DepthOf(spec)) in amd64Values
    {
      assert Reads(trees, spec, None, TextOf(node, DepthOf(spec)));
      if place.architecture == "amd64" { assert Reads(trees, spec, Some("amd64"), TextOf(node, DepthOf(spec))); }
    }
    if amd64Values != [] {
      assert amd64Values[0] in amd64Values;
      assert Reads(trees, spec, Some("amd64"), amd64Values[0]);
    }
    if CheckPasses(trees, patch) {
      forall v | v in values ensures v == patch.value { assert Reads(trees, spec, None, v); }
    }
  }

  // ---------- the elements the check finds ----------

  /** No two siblings have the same name and attributes. */
  ghost predicate Apart(node: Node) {
    (forall i, j | 0 <= i < j < |node.children| :: node.children[i].step != node.children[j].step) &&
    forall child | child in node.children :: Apart(child)
  }

  ghost predicate SiblingsApart(children: seq<Node>) {
    (forall i, j | 0 <= i < j < |children| :: children[i].step != children[j].step) &&
    forall child | child in children :: Apart(child)
  }

  lemma {:induction false} InsertKeepsApart(node: Node, path: seq<Step>, value: string)
    requires Apart(node)
    ensures Apart(Insert(node, path, value))
    decreases |path|, 0
  {
    if path != [] { InsertBelowKeepsApart(node.children, path, value); }
  }

  lemma {:induction false} InsertBelowKeepsApart(children: seq<Node>, path: seq<Step>, value: string)
    requires path != [] && SiblingsApart(children)
    ensures SiblingsApart(InsertBelow(children, path, value))
    ensures forall child | child in InsertBelow(children, path, value) ::
              child.step == path[0] || exists was | was in children :: was.step == child.step
    decreases |path| - 1, |children| + 1
  {
    var now := InsertBelow(children, path, value);
    if children == [] {
      InsertKeepsApart(Node(path[0], None, []), path[1..], value);
    } else if children[0].step == path[0] {
      InsertKeepsApart(children[0], path[1..], value);
      assert now == [Insert(children[0], path[1..], value)] + children[1..];
    } else {
      var rest := children[1..];
      InsertBelowKeepsApart(rest, path, value);
      var below := InsertBelow(rest, path, value);
      assert now == [children[0]] + below;
      forall j | 0 <= j < |below| ensures children[0].step != below[j].step { assert below[j] in below; }
    }
  }

  lemma {:induction false} RenderedApart(settings: seq<Setting>, place: Place)
    requires Renderable(settings)
    ensures Apart(RootAt(Render(settings), place))
  {
    if settings != [] {
      var n := |settings| - 1;
      RenderedApart(settings[..n], place);
      assert settings[n] in settings;
      var entry := Read(settings[n]).value;
      InsertKeepsApart(RootAt(Render(settings[..n]), place), entry.path, entry.value);
    }
  }

  function NamesOf(path: seq<Step>): seq<string> {
    seq(|path|, i requires 0 <= i < |path| => path[i].name)
  }

  lemma {:induction false} ChildAtExact(children: seq<Node>, step: Step)
    requires SiblingsApart(children)
    ensures forall child :: ChildAt(children, step) == Some(child) <==> child in children && child.step == step
  {
    if children != [] {
      ChildAtExact(children[1..], step);
      if children[0].step == step {
        forall child | child in children && child.step == step ensures child == children[0] {
          var i :| 0 <= i < |children| && children[i] == child;
        }
      }
    }
  }

  /** Where names lead, some path with those names does. */
  lemma {:induction false} PathOfNames(from: Node, names: seq<string>, to: Node) returns (path: seq<Step>)
    requires Apart(from) && Leads(from, names, to)
    ensures NamesOf(path) == names && NodeAt(from, path) == Some(to)
    decreases |names|
  {
    path := [];
    if names != [] {
      var child :| child in from.children && child.step.name == names[0] && Leads(child, names[1..], to);
      var rest := PathOfNames(child, names[1..], to);
      path := [child.step] + rest;
      ChildAtExact(from.children, child.step);
      assert path[1..] == rest;
      assert NamesOf(path) == [child.step.name] + NamesOf(rest);
    }
  }

  lemma {:induction false} NamesLead(from: Node, path: seq<Step>, to: Node)
    requires Apart(from) && NodeAt(from, path) == Some(to)
    ensures Leads(from, NamesOf(path), to)
    decreases |path|
  {
    if path != [] {
      ChildAtExact(from.children, path[0]);
      assert NamesOf(path)[1..] == NamesOf(path[1..]);
      NamesLead(ChildAt(from.children, path[0]).value, path[1..], to);
    }
  }

  // ---------- the check, in terms of the settings ----------

  /** The setting's path leads to or through the specified place. */
  predicate Through(setting: Setting, spec: Spec) {
    Read(setting).Some? && var entry := Read(setting).value;
    AtSpec(entry.place, spec) && |spec.path| <= |entry.path| && NamesOf(entry.path[..|spec.path|]) == spec.path
  }

  /** Its element at the place holds the value. */
  predicate Agrees(settings: seq<Setting>, setting: Setting, patch: Patch)
    requires Through(setting, SpecOf(patch.key))
  {
    var entry := Read(setting).value;
    var last := LastAt(settings, entry.place, entry.path[..|SpecOf(patch.key).path|]);
    last.Some? && ValueOf(last.value) == patch.value
  }

  lemma {:induction false} NodeBelow(node: Node, path: seq<Step>, step: Step)
    requires NodeAt(node, path + [step]).Some?
    ensures NodeAt(node, path).Some? && NodeAt(node, path).value.children != []
    decreases |path|
  {
    var longer := path + [step];
    if path != [] {
      assert longer[1..] == path[1..] + [step];
      NodeBelow(ChildAt(node.children, path[0]).value, path[1..], step);
    }
  }

  /** An element on the way to a setting but of none reads as a line break. */
  lemma InnerText(settings: seq<Setting>, setting: Setting, place: Place, path: seq<Step>)
    requires Renderable(settings) && path != [] && setting in settings && ReadsBelow(setting, place, path)
    requires LastAt(settings, place, path).None?
    ensures var node := NodeAt(RootAt(Render(settings), place), path);
            node.Some? && node.value.value.None? && node.value.children != []
  {
    NothingAt(settings, place, path, setting);
    RenderedExact(settings, place, path);
    ChildOnTheWay(settings, setting, place, path);
  }

  lemma ChildOnTheWay(settings: seq<Setting>, setting: Setting, place: Place, path: seq<Step>)
    requires Renderable(settings) && setting in settings && ReadsBelow(setting, place, path)
    requires !ReadsAt(setting, place, path)
    ensures var node := NodeAt(RootAt(Render(settings), place), path); node.Some? && node.value.children != []
  {
    var whole := Read(setting).value.path;
    assert |path| == |whole| ==> path == whole;
    var longer := path + [whole[|path|]];
    assert longer <= whole && ReadsBelow(setting, place, longer);
    RenderedExact(settings, place, longer);
    NodeBelow(RootAt(Render(settings), place), path, whole[|path|]);
  }

  lemma IndentationBreaks(depth: nat, value: string)
    requires '\n' !in value
    ensures Indentation(depth) != value
  {
    assert Indentation(depth)[0] == '\n';
    assert Indentation(depth)[0] in Indentation(depth);
  }

  /** An element reads as a value free of line breaks exactly when a setting at
      it, the last one, has that value. */
  lemma TextExact(settings: seq<Setting>, setting: Setting, place: Place, path: seq<Step>, depth: nat, value: string)
    requires Renderable(settings) && path != [] && '\n' !in value
    requires setting in settings && ReadsBelow(setting, place, path)
    ensures var node, last := NodeAt(RootAt(Render(settings), place), path), LastAt(settings, place, path);
            node.Some? &&
            (TextOf(node.value, depth) == value <==> last.Some? && ValueOf(last.value) == value)
  {
    if LastAt(settings, place, path).None? {
      InnerText(settings, setting, place, path);
      IndentationBreaks(depth, value);
    } else {
      RenderedExact(settings, place, path);
    }
  }

  lemma {:induction false} NothingAt(settings: seq<Setting>, place: Place, path: seq<Step>, setting: Setting)
    requires LastAt(settings, place, path).None? && setting in settings
    ensures !ReadsAt(setting, place, path)
  {
    var n := |settings| - 1;
    if setting != settings[n] {
      assert setting in settings[..n];
      NothingAt(settings[..n], place, path, setting);
    }
  }

  function PrefixOf(setting: Setting, spec: Spec): seq<Step>
    requires Through(setting, spec)
  {
    Read(setting).value.path[..|spec.path|]
  }

  lemma PrefixNames(setting: Setting, spec: Spec)
    requires Through(setting, spec) && spec.path != []
    ensures NamesOf(PrefixOf(setting, spec)) == spec.path && PrefixOf(setting, spec) != []
    ensures ReadsBelow(setting, Read(setting).value.place, PrefixOf(setting, spec))
  {
  }

  /** A setting through the place has its element there. */
  lemma SettingElement(settings: seq<Setting>, patch: Patch, setting: Setting) returns (node: Node)
    requires Renderable(settings) && '\n' !in patch.value
    requires setting in settings && Through(setting, SpecOf(patch.key))
    ensures var spec := SpecOf(patch.key);
            Element(Render(settings), spec, Read(setting).value.place, node) &&
            (TextOf(node, DepthOf(spec)) == patch.value <==> Agrees(settings, setting, patch))
  {
    var spec, place := SpecOf(patch.key), Read(setting).value.place;
    var root, path := RootAt(Render(settings), place), PrefixOf(setting, spec);
    PrefixNames(setting, spec);
    TextExact(settings, setting, place, path, DepthOf(spec), patch.value);
    node := NodeAt(root, path).value;
    RenderedApart(settings, place);
    NamesLead(root, path, node);
    NotRoot(path);
  }

  lemma NotRoot(path: seq<Step>)
    requires path != []
    ensures NodeAt(ROOT, path).None?
  {
  }

  /** An element the check finds is of a setting through the place. */
  lemma ElementSetting(settings: seq<Setting>, patch: Patch, place: Place, node: Node) returns (setting: Setting)
    requires Renderable(settings) && '\n' !in patch.value && Element(Render(settings), SpecOf(patch.key), place, node)
    ensures var spec := SpecOf(patch.key);
            setting in settings && Through(setting, spec) && Read(setting).value.place == place &&
            (TextOf(node, DepthOf(spec)) == patch.value <==> Agrees(settings, setting, patch))
  {
    var spec := SpecOf(patch.key);
    RenderedApart(settings, place);
    var path := PathOfNames(RootAt(Render(settings), place), spec.path, node);
    assert |NamesOf(path)| == |path|;
    RenderedExact(settings, place, path);
    setting :| setting in settings && ReadsBelow(setting, place, path);
    assert Read(setting).value.path[..|spec.path|] == path;
    TextExact(settings, setting, place, path, DepthOf(spec), patch.value);
  }

  /** The check passes exactly when every setting through the place agrees and
      one of them is for amd64. */
  lemma CheckReadsSettings(settings: seq<Setting>, patch: Patch)
    requires Renderable(settings) && '\n' !in patch.value
    ensures var spec := SpecOf(patch.key);
            CheckPasses(Render(settings), patch) <==>
            (exists s | s in settings :: Through(s, spec) && Read(s).value.place.architecture == "amd64") &&
            forall s | s in settings && Through(s, spec) :: Agrees(settings, s, patch)
  {
    var spec, trees := SpecOf(patch.key), Render(settings);
    if CheckPasses(trees, patch) {
      var place, node :| Element(trees, spec, place, node) && place.architecture == "amd64";
      var setting := ElementSetting(settings, patch, place, node);
      forall s | s in settings && Through(s, spec) ensures Agrees(settings, s, patch) {
        var own := SettingElement(settings, patch, s);
      }
    }
    if (exists s | s in settings :: Through(s, spec) && Read(s).value.place.architecture == "amd64") &&
       forall s | s in settings && Through(s, spec) :: Agrees(settings, s, patch)
    {
      var setting :| setting in settings && Through(setting, spec) && Read(setting).value.place.architecture == "amd64";
      var own := SettingElement(settings, patch, setting);
      forall place, node | Element(trees, spec, place, node) ensures TextOf(node, DepthOf(spec)) == patch.value {
        var s := ElementSetting(settings, patch, place, node);
      }
    }
  }
}
