/** Selecting a package also selects everything it depends on. */
module PackageClosure {

  datatype Package = Package(id: string, dependencies: seq<string>, enabled: bool)

  // ---------- what a selection means ----------

  ghost predicate DependsOn(packages: seq<Package>, id: string, dependency: string) {
    exists p | p in packages :: p.id == id && dependency in p.dependencies
  }

  /** `path` leads from its first identifier to its last, one dependency at a
      time; identifiers need not name a package of the profile. */
  ghost predicate DependencyPath(packages: seq<Package>, path: seq<string>) {
    path != [] && forall i | 0 <= i < |path| - 1 :: DependsOn(packages, path[i], path[i + 1])
  }

  ghost predicate Reachable(packages: seq<Package>, from: string, to: string) {
    exists path :: DependencyPath(packages, path) && path[0] == from && path[|path| - 1] == to
  }

  /** Every dependency of an enabled package that the profile holds is enabled. */
  ghost predicate DependencyClosed(packages: seq<Package>) {
    forall p, q | p in packages && q in packages && p.enabled && q.id in p.dependencies :: q.enabled
  }

  ghost predicate Closed(packages: seq<Package>, wanted: set<string>) {
    forall p | p in packages && p.id in wanted :: forall d | d in p.dependencies :: d in wanted
  }

  lemma {:induction false} ClosedHoldsPath(packages: seq<Package>, wanted: set<string>, path: seq<string>)
    requires Closed(packages, wanted) && DependencyPath(packages, path) && path[0] in wanted
    ensures path[|path| - 1] in wanted
    decreases |path|
  {
    if |path| > 1 {
      assert DependsOn(packages, path[0], path[1]);
      forall i | 0 <= i < |path[1..]| - 1 ensures DependsOn(packages, path[1..][i], path[1..][i + 1]) {
        assert DependsOn(packages, path[i + 1], path[i + 1 + 1]);
      }
      ClosedHoldsPath(packages, wanted, path[1..]);
    }
  }

  lemma ReachableStep(packages: seq<Package>, from: string, id: string, dependency: string)
    requires Reachable(packages, from, id) && DependsOn(packages, id, dependency)
    ensures Reachable(packages, from, dependency)
  {
    var path :| DependencyPath(packages, path) && path[0] == from && path[|path| - 1] == id;
    var longer := path + [dependency];
    forall i | 0 <= i < |longer| - 1 ensures DependsOn(packages, longer[i], longer[i + 1]) {
      if i < |path| - 1 { assert DependsOn(packages, path[i], path[i + 1]); }
    }
    assert DependencyPath(packages, longer);
  }

  lemma ReachableSelf(packages: seq<Package>, id: string)
    ensures Reachable(packages, id, id)
  {
    assert DependencyPath(packages, [id]);
  }

  ghost predicate AllReachable(packages: seq<Package>, from: string, wanted: set<string>) {
    forall name | name in wanted :: Reachable(packages, from, name)
  }

  lemma AddReachable(packages: seq<Package>, from: string, wanted: set<string>, package: Package)
    requires AllReachable(packages, from, wanted) && package in packages && package.id in wanted
    ensures var more := set d | d in package.dependencies;
            AllReachable(packages, from, wanted + more) && more <= AllNames(packages)
  {
    forall d | d in package.dependencies ensures Reachable(packages, from, d) {
      ReachableStep(packages, from, package.id, d);
    }
  }

  lemma ClosedHoldsReachable(packages: seq<Package>, from: string, wanted: set<string>)
    requires Closed(packages, wanted) && from in wanted && AllReachable(packages, from, wanted)
    ensures forall name :: name in wanted <==> Reachable(packages, from, name)
  {
    forall name | Reachable(packages, from, name) ensures name in wanted {
      var path :| DependencyPath(packages, path) && path[0] == from && path[|path| - 1] == name;
      ClosedHoldsPath(packages, wanted, path);
    }
  }

  // ---------- the profile ----------

  /** Same identifiers and dependencies, whatever is enabled. */
  ghost predicate SameShape(before: seq<Package>, after: seq<Package>) {
    |before| == |after| &&
    forall i | 0 <= i < |before| ::
      before[i].id == after[i].id && before[i].dependencies == after[i].dependencies
  }

  function AllNames(packages: seq<Package>): set<string> {
    set p, d | p in packages && d in p.dependencies :: d
  }

  class Profile {
    var packages: seq<Package>

    constructor (packages: seq<Package>)
      ensures this.packages == packages
    {
      this.packages := packages;
    }

    /** The dependency closure: repeated sweeps over the profile until one
        adds nothing. */
    method Wanted(id: string) returns (wanted: set<string>)
      ensures forall name :: name in wanted <==> Reachable(packages, id, name)
    {
      wanted := {id};
      ReachableSelf(packages, id);
      var changed := true;
      ghost var all := AllNames(packages) + {id};
      while changed
        invariant id in wanted && wanted <= all && AllReachable(packages, id, wanted)
        invariant changed || Closed(packages, wanted)
        decreases |all - wanted|, changed
      {
        ghost var start := wanted;
        wanted, changed := Sweep(packages, wanted, id);
        if changed { Smaller(all - wanted, all - start); }
      }
      ClosedHoldsReachable(packages, id, wanted);
    }

    /** One pass over the profile, using what it adds as it goes. */
    static method Sweep(packages: seq<Package>, initial: set<string>, ghost from: string)
      returns (wanted: set<string>, changed: bool)
      requires AllReachable(packages, from, initial)
      ensures initial <= wanted <= initial + AllNames(packages) && AllReachable(packages, from, wanted)
      ensures changed <==> wanted != initial
      ensures !changed ==> Closed(packages, wanted)
    {
      wanted, changed := initial, false;
      for i := 0 to |packages|
        invariant initial <= wanted <= initial + AllNames(packages) && AllReachable(packages, from, wanted)
        invariant changed <==> wanted != initial
        invariant !changed ==> Closed(packages[..i], wanted)
      {
        var package := packages[i];
        assert packages[..i + 1] == packages[..i] + [package];
        if package.id in wanted {
          ghost var before := wanted;
          for j := 0 to |package.dependencies|
            invariant wanted == before + set d | d in package.dependencies[..j]
            invariant changed <==> wanted != initial
          {
            var dependency := package.dependencies[j];
            assert package.dependencies[..j + 1] == package.dependencies[..j] + [dependency];
            if dependency !in wanted {
              wanted := wanted + {dependency};
              changed := true;
            }
          }
          assert package.dependencies[..|package.dependencies|] == package.dependencies;
          AddReachable(packages, from, before, package);
        }
      }
      assert packages[..|packages|] == packages;
    }

    /** Switches the first package with the identifier. */
    method SwitchFirst(id: string, enabled: bool) returns (found: bool)
      modifies this
      ensures found <==> exists p | p in old(packages) :: p.id == id
      ensures packages == if found then Switched(old(packages), id, enabled) else old(packages)
    {
      for i := 0 to |packages|
        invariant packages == old(packages)
        invariant forall j | 0 <= j < i :: packages[j].id != id
      {
        if packages[i].id == id {
          SwitchedAt(packages, id, enabled, i);
          packages := packages[i := packages[i].(enabled := enabled)];
          return true;
        }
      }
      return false;
    }

    method EnableAll(wanted: set<string>)
      modifies this
      ensures SameShape(old(packages), packages)
      ensures forall i | 0 <= i < |packages| ::
                packages[i].enabled == (old(packages)[i].enabled || packages[i].id in wanted)
    {
      ghost var before := packages;
      for i := 0 to |packages|
        invariant SameShape(before, packages)
        invariant forall j | 0 <= j < |packages| ::
                    packages[j].enabled == (before[j].enabled || (j < i && packages[j].id in wanted))
      {
        if packages[i].id in wanted { packages := packages[i := packages[i].(enabled := true)]; }
      }
    }

    /** The first package with the identifier is switched; switching it on
        switches on, besides, exactly the packages reachable from it. */
    method SetPackageEnabled(id: string, enabled: bool) returns (found: bool)
      modifies this
      ensures found <==> exists p | p in old(packages) :: p.id == id
      ensures !found ==> packages == old(packages)
      ensures found && enabled ==> EnabledFrom(old(packages), packages, id)
      ensures found && !enabled ==> packages == Switched(old(packages), id, false)
    {
      found := SwitchFirst(id, enabled);
      if !found || !enabled { return; }
      ghost var switched := packages;
      var wanted := Wanted(id);
      EnableAll(wanted);
      EnabledBySwitch(old(packages), switched, packages, id, wanted);
    }
  }

  /** `after` has the packages of `before`, enabled where they were or where
      they are reachable from `id`. */
  ghost predicate EnabledFrom(before: seq<Package>, after: seq<Package>, id: string) {
    SameShape(before, after) &&
    forall i | 0 <= i < |before| :: after[i].enabled <==> before[i].enabled || Reachable(before, id, after[i].id)
  }

  lemma EnabledBySwitch(before: seq<Package>, switched: seq<Package>, after: seq<Package>, id: string,
                        wanted: set<string>)
    requires exists p | p in before :: p.id == id
    requires switched == Switched(before, id, true) && SameShape(switched, after)
    requires forall name :: name in wanted <==> Reachable(switched, id, name)
    requires forall i | 0 <= i < |after| :: after[i].enabled == (switched[i].enabled || after[i].id in wanted)
    ensures EnabledFrom(before, after, id)
  {
    var k := FirstIndex(before, id);
    SwitchedAt(before, id, true, k);
    ReachableSelf(before, id);
    forall i | 0 <= i < |before|
      ensures after[i].enabled <==> before[i].enabled || Reachable(before, id, after[i].id)
    {
      SameReach(before, switched, id, after[i].id);
    }
  }

  lemma Smaller(one: set<string>, two: set<string>)
    requires one < two
    ensures |one| < |two|
  {
    var x :| x in two && x !in one;
    assert |two - one| >= 1;
    assert two == one + (two - one);
  }

  lemma SameDepends(one: seq<Package>, two: seq<Package>, id: string, dependency: string)
    requires SameShape(one, two) && DependsOn(one, id, dependency)
    ensures DependsOn(two, id, dependency)
  {
    var p :| p in one && p.id == id && dependency in p.dependencies;
    var i :| 0 <= i < |one| && one[i] == p;
    assert two[i] in two;
  }

  lemma SameReachOneWay(one: seq<Package>, two: seq<Package>, from: string, to: string)
    requires SameShape(one, two) && Reachable(one, from, to)
    ensures Reachable(two, from, to)
  {
    var path :| DependencyPath(one, path) && path[0] == from && path[|path| - 1] == to;
    forall i | 0 <= i < |path| - 1 ensures DependsOn(two, path[i], path[i + 1]) {
      SameDepends(one, two, path[i], path[i + 1]);
    }
    assert DependencyPath(two, path);
  }

  lemma SameReach(one: seq<Package>, two: seq<Package>, from: string, to: string)
    requires SameShape(one, two)
    ensures Reachable(one, from, to) <==> Reachable(two, from, to)
  {
    if Reachable(one, from, to) { SameReachOneWay(one, two, from, to); }
    if Reachable(two, from, to) { SameReachOneWay(two, one, from, to); }
  }

  // ---------- closed profiles ----------

  /** The first package with the identifier switched. */
  function Switched(packages: seq<Package>, id: string, enabled: bool): seq<Package> {
    if packages == [] then []
    else if packages[0].id == id then [packages[0].(enabled := enabled)] + packages[1..]
    else [packages[0]] + Switched(packages[1..], id, enabled)
  }

  /** Switching on keeps a dependency-closed profile closed. */
  lemma EnablingKeepsClosed(before: seq<Package>, after: seq<Package>, id: string)
    requires DependencyClosed(before) && EnabledFrom(before, after, id)
    ensures DependencyClosed(after)
  {
    forall p, q | p in after && q in after && p.enabled && q.id in p.dependencies ensures q.enabled {
      var i :| 0 <= i < |after| && after[i] == p;
      var j :| 0 <= j < |after| && after[j] == q;
      assert before[i] in before && before[j] in before;
      if !before[i].enabled {
        assert DependsOn(before, p.id, q.id);
        ReachableStep(before, id, p.id, q.id);
      }
    }
  }

  function FirstIndex(packages: seq<Package>, id: string): (k: nat)
    requires exists p | p in packages :: p.id == id
    ensures k < |packages| && packages[k].id == id
    ensures forall j | 0 <= j < k :: packages[j].id != id
  {
    if packages[0].id == id then 0 else 1 + FirstIndex(packages[1..], id)
  }

  lemma {:induction false} SwitchedAt(packages: seq<Package>, id: string, enabled: bool, k: nat)
    requires k < |packages| && packages[k].id == id && forall j | 0 <= j < k :: packages[j].id != id
    ensures Switched(packages, id, enabled) == packages[k := packages[k].(enabled := enabled)]
  {
    if k > 0 { SwitchedAt(packages[1..], id, enabled, k - 1); }
  }

  /** No enabled package but the one at `k` depends on the identifier. */
  ghost predicate NeededByNone(packages: seq<Package>, id: string, k: nat) {
    forall i | 0 <= i < |packages| && i != k && packages[i].enabled :: id !in packages[i].dependencies
  }

  /** Switching off keeps it closed exactly when no other enabled package
      depends on that identifier. */
  lemma DisablingKeepsClosedExact(packages: seq<Package>, id: string)
    requires DependencyClosed(packages) && exists p | p in packages :: p.id == id
    ensures DependencyClosed(Switched(packages, id, false)) <==> NeededByNone(packages, id, FirstIndex(packages, id))
  {
    var k, after := FirstIndex(packages, id), Switched(packages, id, false);
    SwitchedAt(packages, id, false, k);
    assert after[k] in after;
    if DependencyClosed(after) {
      forall i | 0 <= i < |packages| && i != k && packages[i].enabled ensures id !in packages[i].dependencies {
        assert after[i] in after;
      }
    }
    if NeededByNone(packages, id, k) {
      forall p, q | p in after && q in after && p.enabled && q.id in p.dependencies ensures q.enabled {
        var i :| 0 <= i < |after| && after[i] == p;
        var j :| 0 <= j < |after| && after[j] == q;
        assert packages[i] in packages && packages[j] in packages;
      }
    }
  }

  /** A package that another one needs is switched off all the same. */
  lemma DisablingOpensProfile()
    ensures var packages := [Package("a", ["b"], true), Package("b", [], true)];
            DependencyClosed(packages) && !DependencyClosed(Switched(packages, "b", false))
  {
    var packages := [Package("a", ["b"], true), Package("b", [], true)];
    assert FirstIndex(packages, "b") == 1;
    DisablingKeepsClosedExact(packages, "b");
  }
}
