/** The workspace metadata as the publishing script reads it, and the dependencies it declares. */
module PublishPackages {
  import opened Prelude
  import opened PublishGraph

  datatype Dependency = Dependency(name: Name, kind: string, features: seq<string>, req: string, hasPath: bool)

  datatype Package = Package(name: Name, manifestPath: string, dependencies: seq<Dependency>)

  // ---------------------------------------------------------------- reading the metadata

  predicate IsSelfDevDep(pkg: Package, dep: Dependency) {
    dep.kind == "dev" && dep.name == pkg.name && "dev-context-only-utils" in dep.features && dep.hasPath
  }

  predicate ShouldAdd(pkg: Package, dep: Dependency) {
    "solana" <= dep.name && !IsSelfDevDep(pkg, dep)
  }

  function KeptNames(pkg: Package, deps: seq<Dependency>): seq<Name> {
    if deps == [] then []
    else
      var d := deps[|deps| - 1];
      KeptNames(pkg, deps[..|deps| - 1]) + if ShouldAdd(pkg, d) then [d.name] else []
  }

  /** Self dev-dependencies that carry an explicit version. */
  function WrongSelfDeps(pkg: Package, deps: seq<Dependency>): seq<Dependency> {
    if deps == [] then []
    else
      var d := deps[|deps| - 1];
      WrongSelfDeps(pkg, deps[..|deps| - 1]) + if IsSelfDevDep(pkg, d) && d.req != "*" then [d] else []
  }

  /** A later package of the same name replaces the earlier one's dependencies. */
  function GraphOf(packages: seq<Package>): Graph {
    if packages == [] then map[]
    else
      var p := packages[|packages| - 1];
      GraphOf(packages[..|packages| - 1])[p.name := KeptNames(p, p.dependencies)]
  }

  function ManifestsOf(packages: seq<Package>): (m: map<Name, string>)
    ensures m.Keys == GraphOf(packages).Keys
  {
    if packages == [] then map[]
    else
      var p := packages[|packages| - 1];
      ManifestsOf(packages[..|packages| - 1])[p.name := p.manifestPath]
  }

  /** The dictionary's keys in insertion order. */
  function KeysOf(packages: seq<Package>): (keys: seq<Name>)
    ensures Distinct(keys)
    ensures forall x :: x in keys <==> x in GraphOf(packages)
  {
    if packages == [] then []
    else
      var p := packages[|packages| - 1];
      var rest := KeysOf(packages[..|packages| - 1]);
      if p.name in rest then rest else rest + [p.name]
  }

  function AllWrong(packages: seq<Package>): seq<Dependency> {
    if packages == [] then []
    else
      var p := packages[|packages| - 1];
      AllWrong(packages[..|packages| - 1]) + WrongSelfDeps(p, p.dependencies)
  }

  method KeepDependencies(pkg: Package) returns (names: seq<Name>, wrong: seq<Dependency>)
    ensures names == KeptNames(pkg, pkg.dependencies)
    ensures wrong == WrongSelfDeps(pkg, pkg.dependencies)
    ensures forall y :: y in names <==> Declares(pkg, y)
    ensures forall d :: d in wrong <==> DevSelf(pkg, d) && d.req != "*"
  {
    names, wrong := [], [];
    var deps := pkg.dependencies;
    var i := 0;
    while i < |deps|
      invariant i <= |deps|
      invariant names == KeptNames(pkg, deps[..i])
      invariant wrong == WrongSelfDeps(pkg, deps[..i])
    {
      var d := deps[i];
      assert deps[..i + 1][..i] == deps[..i];
      var special := false;
      if d.kind == "dev" && d.name == pkg.name && "dev-context-only-utils" in d.features && d.hasPath {
        special := true;
        if d.req != "*" {
          wrong := wrong + [d];
        }
      }
      if "solana" <= d.name && !special {
        names := names + [d.name];
      }
      i := i + 1;
    }
    assert deps[..i] == deps;
    forall y ensures y in names <==> Declares(pkg, y) {
      DeclaresIff(pkg, y);
    }
    forall d ensures d in wrong <==> DevSelf(pkg, d) && d.req != "*" {
      WrongIff(pkg, deps, d);
    }
  }

  method ReadPackages(packages: seq<Package>)
    returns (keys: seq<Name>, g: Graph, manifests: map<Name, string>, wrong: seq<Dependency>)
    ensures keys == KeysOf(packages) && g == GraphOf(packages)
    ensures manifests == ManifestsOf(packages) && wrong == AllWrong(packages)
  {
    keys, g, manifests, wrong := [], map[], map[], [];
    var i := 0;
    while i < |packages|
      invariant i <= |packages|
      invariant keys == KeysOf(packages[..i]) && g == GraphOf(packages[..i])
      invariant manifests == ManifestsOf(packages[..i]) && wrong == AllWrong(packages[..i])
    {
      var p := packages[i];
      assert packages[..i + 1][..i] == packages[..i];
      var names, more := KeepDependencies(p);
      manifests := manifests[p.name := p.manifestPath];
      g := g[p.name := names];
      wrong := wrong + more;
      if p.name !in keys {
        keys := keys + [p.name];
      }
      i := i + 1;
    }
    assert packages[..i] == packages;
  }

  // ---------------------------------------------------------------- the dependencies, on the package list

  /** Package i is the last one named x, whose entry the dictionary keeps. */
  predicate IsLast(packages: seq<Package>, i: nat, x: Name) {
    i < |packages| && packages[i].name == x && forall j :: i < j < |packages| ==> packages[j].name != x
  }

  predicate InWorkspace(packages: seq<Package>, x: Name) {
    exists i :: 0 <= i < |packages| && packages[i].name == x
  }

  /** A dev-dependency of p on itself by path, with the feature that only tests use. */
  predicate DevSelf(p: Package, d: Dependency) {
    && d in p.dependencies && d.name == p.name && d.kind == "dev"
    && "dev-context-only-utils" in d.features && d.hasPath
  }

  /** p declares a dependency on y that counts: a solana crate, other than the special self-dependency. */
  predicate Declares(p: Package, y: Name) {
    "solana" <= y && exists d :: d in p.dependencies && d.name == y && !DevSelf(p, d)
  }

  /** x depends on y, both of them in the workspace. */
  ghost predicate DependsOn(packages: seq<Package>, x: Name, y: Name) {
    InWorkspace(packages, y) && exists i: nat :: IsLast(packages, i, x) && Declares(packages[i], y)
  }

  lemma {:induction false} KeptIff(pkg: Package, deps: seq<Dependency>, y: Name)
    ensures y in KeptNames(pkg, deps) <==> exists d :: d in deps && d.name == y && ShouldAdd(pkg, d)
  {
    if deps != [] {
      var front, d := deps[..|deps| - 1], deps[|deps| - 1];
      KeptIff(pkg, front, y);
      assert forall e :: e in deps <==> e in front || e == d;
    }
  }

  lemma {:induction false} WrongIff(pkg: Package, deps: seq<Dependency>, d: Dependency)
    ensures d in WrongSelfDeps(pkg, deps) <==> d in deps && IsSelfDevDep(pkg, d) && d.req != "*"
  {
    if deps != [] {
      var front, last := deps[..|deps| - 1], deps[|deps| - 1];
      WrongIff(pkg, front, d);
      assert forall e :: e in deps <==> e in front || e == last;
    }
  }

  lemma DeclaresIff(p: Package, y: Name)
    ensures y in KeptNames(p, p.dependencies) <==> Declares(p, y)
  {
    KeptIff(p, p.dependencies, y);
    forall d | d in p.dependencies ensures IsSelfDevDep(p, d) <==> DevSelf(p, d) {
    }
    if Declares(p, y) {
      var d :| d in p.dependencies && d.name == y && !DevSelf(p, d);
      assert ShouldAdd(p, d);
    }
  }

  lemma {:induction false} LastExists(packages: seq<Package>, x: Name) returns (i: nat)
    requires InWorkspace(packages, x)
    ensures IsLast(packages, i, x)
  {
    var n := |packages| - 1;
    if packages[n].name == x {
      i := n;
    } else {
      var k :| 0 <= k < |packages| && packages[k].name == x;
      assert packages[..n][k].name == x;
      i := LastExists(packages[..n], x);
      assert packages[..n][i] == packages[i];
      forall j | i < j < |packages| ensures packages[j].name != x {
        assert j == n || packages[..n][j] == packages[j];
      }
    }
  }

  lemma {:induction false} GraphHas(packages: seq<Package>, x: Name)
    ensures x in GraphOf(packages) <==> InWorkspace(packages, x)
  {
    if packages != [] {
      var front, p := packages[..|packages| - 1], packages[|packages| - 1];
      GraphHas(front, x);
      if InWorkspace(front, x) {
        var i :| 0 <= i < |front| && front[i].name == x;
        assert packages[i].name == x;
      }
      if InWorkspace(packages, x) && p.name != x {
        var i :| 0 <= i < |packages| && packages[i].name == x;
        assert front[i].name == x;
      }
    }
  }

  /** The entries for a name are those of the last package of that name. */
  lemma {:induction false} EntriesOfLast(packages: seq<Package>, i: nat, x: Name)
    requires IsLast(packages, i, x)
    ensures x in GraphOf(packages) && GraphOf(packages)[x] == KeptNames(packages[i], packages[i].dependencies)
    ensures ManifestsOf(packages)[x] == packages[i].manifestPath
    decreases |packages|
  {
    var n := |packages| - 1;
    if i < n {
      var front := packages[..n];
      assert front[i] == packages[i];
      forall j | i < j < n ensures front[j].name != x {
        assert front[j] == packages[j];
      }
      EntriesOfLast(front, i, x);
    }
  }

  /** Exactly the dependencies that the graph has. */
  lemma EdgeIff(packages: seq<Package>, x: Name, y: Name)
    ensures Edge(GraphOf(packages), x, y) <==> DependsOn(packages, x, y)
  {
    GraphHas(packages, x);
    GraphHas(packages, y);
    if InWorkspace(packages, x) {
      var i := LastExists(packages, x);
      EntriesOfLast(packages, i, x);
      DeclaresIff(packages[i], y);
      forall k: nat | IsLast(packages, k, x) ensures k == i {
        assert k <= i && i <= k;
      }
    }
  }

  lemma {:induction false} AllWrongIff(packages: seq<Package>, d: Dependency)
    ensures d in AllWrong(packages) <==>
            exists i :: 0 <= i < |packages| && DevSelf(packages[i], d) && d.req != "*"
  {
    if packages != [] {
      var front, p := packages[..|packages| - 1], packages[|packages| - 1];
      AllWrongIff(front, d);
      WrongIff(p, p.dependencies, d);
      if d in AllWrong(front) {
        var i :| 0 <= i < |front| && DevSelf(front[i], d) && d.req != "*";
        assert DevSelf(packages[i], d);
      }
      if d in WrongSelfDeps(p, p.dependencies) {
        assert DevSelf(packages[|packages| - 1], d);
      }
      forall i | 0 <= i < |packages| && DevSelf(packages[i], d) && d.req != "*" ensures d in AllWrong(packages) {
        assert i == |packages| - 1 || packages[i] == front[i];
      }
    }
  }

  /** Package i is the first one named x. */
  predicate IsFirst(packages: seq<Package>, i: nat, x: Name) {
    i < |packages| && packages[i].name == x && forall j :: 0 <= j < i ==> packages[j].name != x
  }

  lemma FirstInFront(packages: seq<Package>, i: nat, x: Name)
    requires packages != [] && IsFirst(packages, i, x) && x in KeysOf(packages[..|packages| - 1])
    ensures IsFirst(packages[..|packages| - 1], i, x)
  {
    var front := packages[..|packages| - 1];
    GraphHas(front, x);
    var k :| 0 <= k < |front| && front[k].name == x;
    assert packages[k].name == x;
  }

  /** The dictionary lists the names in the order of their first packages. */
  lemma {:induction false} KeysInOrder(packages: seq<Package>, a: nat, b: nat, i: nat, j: nat)
    requires a < b < |KeysOf(packages)|
    requires IsFirst(packages, i, KeysOf(packages)[a]) && IsFirst(packages, j, KeysOf(packages)[b])
    ensures i < j
    decreases |packages|
  {
    var n := |packages| - 1;
    var front, keys := packages[..n], KeysOf(packages[..n]);
    var x, y := KeysOf(packages)[a], KeysOf(packages)[b];
    assert keys[a] == x;
    FirstInFront(packages, i, x);
    if b < |keys| {
      assert keys[b] == y;
      FirstInFront(packages, j, y);
      KeysInOrder(front, a, b, i, j);
    } else if j < n {
      assert front[j].name == y;
      GraphHas(front, y);
    }
  }

  // ---------------------------------------------------------------- paths and cycles, on the package list

  /** Each package of p depends on the next one. */
  ghost predicate IsPath(packages: seq<Package>, p: seq<Name>) {
    && |p| > 0
    && (forall i :: 0 <= i < |p| ==> InWorkspace(packages, p[i]))
    && (forall i {:trigger NextOnPath(packages, p, i)} :: 0 < i < |p| ==> NextOnPath(packages, p, i))
  }

  ghost predicate NextOnPath(packages: seq<Package>, p: seq<Name>, i: nat)
    requires 0 < i < |p|
  {
    DependsOn(packages, p[i - 1], p[i])
  }

  /** No package depends, through any number of packages, on itself. */
  ghost predicate NoCycle(packages: seq<Package>) {
    forall p :: IsPath(packages, p) && |p| > 1 ==> p[0] != p[|p| - 1]
  }

  /** A path from x comes back to a package that it has already visited. */
  ghost predicate LeadsToCycle(packages: seq<Package>, x: Name) {
    exists p :: IsPath(packages, p) && p[0] == x && Repeats(p)
  }

  predicate Repeats(p: seq<Name>) {
    exists i, j :: 0 <= i < j < |p| && p[i] == p[j]
  }

  lemma PathIff(packages: seq<Package>, p: seq<Name>)
    ensures IsPath(packages, p) <==> IsChain(GraphOf(packages), p)
  {
    forall i | 0 <= i < |p| ensures InWorkspace(packages, p[i]) <==> p[i] in GraphOf(packages) {
      GraphHas(packages, p[i]);
    }
    forall i | 0 < i < |p| ensures NextOnPath(packages, p, i) <==> Link(GraphOf(packages), p, i) {
      EdgeIff(packages, p[i - 1], p[i]);
    }
  }

  lemma NoCycleIff(packages: seq<Package>)
    ensures NoCycle(packages) <==> Acyclic(GraphOf(packages))
  {
    if NoCycle(packages) {
      forall p ensures !IsCycle(GraphOf(packages), p) {
        PathIff(packages, p);
      }
    }
    if Acyclic(GraphOf(packages)) {
      forall p | IsPath(packages, p) && |p| > 1 ensures p[0] != p[|p| - 1] {
        PathIff(packages, p);
        assert !IsCycle(GraphOf(packages), p);
      }
    }
  }

  lemma LeadsIff(packages: seq<Package>, x: Name)
    ensures LeadsToCycle(packages, x) <==> ReachesCycle(GraphOf(packages), x)
  {
    if LeadsToCycle(packages, x) {
      var p :| IsPath(packages, p) && p[0] == x && Repeats(p);
      PathIff(packages, p);
      assert Returns(GraphOf(packages), x, p);
    }
    if ReachesCycle(GraphOf(packages), x) {
      var p :| Returns(GraphOf(packages), x, p);
      PathIff(packages, p);
    }
  }

  /** Every member of s depends on a member. */
  ghost predicate Closed(packages: seq<Package>, s: set<Name>) {
    forall x {:trigger HeldBack(packages, s, x)} :: x in s ==> HeldBack(packages, s, x)
  }

  /** x depends on a member of s. */
  ghost predicate HeldBack(packages: seq<Package>, s: set<Name>, x: Name) {
    exists y :: y in s && DependsOn(packages, x, y)
  }

  /** A member of s depends on a member exactly when the graph holds it back. */
  lemma HeldBackIff(packages: seq<Package>, s: set<Name>, x: Name)
    requires forall y :: y in s ==> InWorkspace(packages, y)
    ensures HeldBack(packages, s, x) <==> x in GraphOf(packages) && Blocked(GraphOf(packages), s, x)
  {
    var g := GraphOf(packages);
    if HeldBack(packages, s, x) {
      var y :| y in s && DependsOn(packages, x, y);
      EdgeIff(packages, x, y);
    }
    if x in g && Blocked(g, s, x) {
      var y :| y in g[x] && y in s;
      GraphHas(packages, y);
      EdgeIff(packages, x, y);
    }
  }

  lemma ClosedInWorkspace(packages: seq<Package>, s: set<Name>, x: Name)
    requires Closed(packages, s) && x in s
    ensures InWorkspace(packages, x)
  {
    assert HeldBack(packages, s, x);
  }

  lemma ClosedIff(packages: seq<Package>, s: set<Name>)
    ensures Closed(packages, s) <==> Supported(GraphOf(packages), s)
  {
    forall x | x in s && (Closed(packages, s) || x in GraphOf(packages))
      ensures InWorkspace(packages, x) && x in GraphOf(packages)
    {
      GraphHas(packages, x);
      if Closed(packages, s) {
        ClosedInWorkspace(packages, s, x);
      }
    }
    if Closed(packages, s) || s <= GraphOf(packages).Keys {
      forall x | x in s
        ensures HeldBack(packages, s, x) <==> Blocked(GraphOf(packages), s, x)
      {
        HeldBackIff(packages, s, x);
      }
    }
  }

  // ---------------------------------------------------------------- pairs and self-dependencies

  /** An edge each way; x may be y. */
  predicate Mutual(g: Graph, x: Name, y: Name) {
    Edge(g, x, y) && Edge(g, y, x)
  }

  /** Exactly the unordered pairs with edges both ways. */
  ghost predicate PairsOfGraph(g: Graph, circular: set<set<Name>>) {
    && (forall x, y :: Mutual(g, x, y) ==> {x, y} in circular)
    && (forall s :: s in circular ==> exists x, y :: Mutual(g, x, y) && s == {x, y})
  }

  /** x and y depend on each other; x may be y. */
  ghost predicate DependMutually(packages: seq<Package>, x: Name, y: Name) {
    DependsOn(packages, x, y) && DependsOn(packages, y, x)
  }

  /** Exactly the unordered pairs of packages that depend on each other. */
  ghost predicate IsPairReport(packages: seq<Package>, circular: set<set<Name>>) {
    && (forall x, y :: DependMutually(packages, x, y) ==> {x, y} in circular)
    && (forall s :: s in circular ==> exists x, y :: DependMutually(packages, x, y) && s == {x, y})
  }

  lemma PairsOnPackages(packages: seq<Package>, circular: set<set<Name>>)
    requires PairsOfGraph(GraphOf(packages), circular)
    ensures IsPairReport(packages, circular)
    ensures circular != {} <==> exists x, y :: DependMutually(packages, x, y)
  {
    var g := GraphOf(packages);
    forall x, y ensures Mutual(g, x, y) <==> DependMutually(packages, x, y) {
      EdgeIff(packages, x, y);
      EdgeIff(packages, y, x);
    }
    forall s | s in circular ensures exists x, y :: DependMutually(packages, x, y) && s == {x, y} {
      var x, y :| Mutual(g, x, y) && s == {x, y};
      assert DependMutually(packages, x, y);
    }
    forall x, y | DependMutually(packages, x, y) ensures {x, y} in circular {
      assert Mutual(g, x, y);
    }
  }

  /** Some package has a special self-dependency with an explicit version. */
  predicate HasWrongSelfDep(packages: seq<Package>) {
    exists i, d :: 0 <= i < |packages| && d in packages[i].dependencies && DevSelf(packages[i], d) && d.req != "*"
  }

  /** Exactly these dependencies. */
  ghost predicate IsWrongReport(packages: seq<Package>, wrong: seq<Dependency>) {
    forall d :: d in wrong <==> exists i :: 0 <= i < |packages| && DevSelf(packages[i], d) && d.req != "*"
  }

  lemma WrongOnPackages(packages: seq<Package>)
    ensures IsWrongReport(packages, AllWrong(packages))
    ensures AllWrong(packages) != [] <==> HasWrongSelfDep(packages)
  {
    var wrong := AllWrong(packages);
    forall d ensures d in wrong <==> exists i :: 0 <= i < |packages| && DevSelf(packages[i], d) && d.req != "*" {
      AllWrongIff(packages, d);
    }
    if wrong != [] {
      assert wrong[0] in wrong;
    }
  }
}
