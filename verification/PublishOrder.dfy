/** Ordering workspace crates for publishing, as the script runs it. */
module PublishOrder {
  import opened Prelude
  import opened PublishGraph
  import opened PublishPackages

  /** The three ways the script ends: an order, the direct-cycle exit, or the pass budget exit. */
  datatype Outcome =
    | Ordered(order: seq<(Name, string)>)
    | Rejected(circular: set<set<Name>>, wrongSelfDeps: seq<Dependency>)
    | Suspected(packages: seq<Name>)

  // ---------------------------------------------------------------- direct cycles

  /** Collects the pairs by looking from every package at every dependency. */
  method DirectCycles(keys: seq<Name>, g: Graph) returns (circular: set<set<Name>>)
    requires forall x :: x in keys <==> x in g
    ensures PairsOfGraph(g, circular)
  {
    circular := {};
    var i := 0;
    while i < |keys|
      invariant i <= |keys|
      invariant forall x, y :: x in keys[..i] && Mutual(g, x, y) ==> {x, y} in circular
      invariant forall s :: s in circular ==> exists x, y :: Mutual(g, x, y) && s == {x, y}
    {
      var x := keys[i];
      var deps := g[x];
      var j := 0;
      while j < |deps|
        invariant j <= |deps|
        invariant forall w, y :: w in keys[..i] && Mutual(g, w, y) ==> {w, y} in circular
        invariant forall y :: y in deps[..j] && Mutual(g, x, y) ==> {x, y} in circular
        invariant forall s :: s in circular ==> exists w, y :: Mutual(g, w, y) && s == {w, y}
      {
        var y := deps[j];
        if y in g && x in g[y] {
          assert Mutual(g, x, y);
          circular := circular + {{x, y}};
        }
        j := j + 1;
      }
      assert forall y :: Mutual(g, x, y) ==> y in deps[..j];
      i := i + 1;
    }
  }

  // ---------------------------------------------------------------- waves

  /** The members of s in dictionary order. */
  function Keep(keys: seq<Name>, s: set<Name>): seq<Name> {
    if keys == [] then []
    else
      var x := keys[|keys| - 1];
      Keep(keys[..|keys| - 1], s) + if x in s then [x] else []
  }

  /** What pass k (from 1) appends. */
  function Wave(g: Graph, keys: seq<Name>, k: nat): seq<Name>
    requires k > 0
  {
    Keep(keys, Alive(g, k - 1) - Alive(g, k))
  }

  /** What the first k passes append. */
  function Emitted(g: Graph, keys: seq<Name>, k: nat): seq<Name> {
    if k == 0 then [] else Emitted(g, keys, k - 1) + Wave(g, keys, k)
  }

  lemma {:induction false} KeepFacts(keys: seq<Name>, s: set<Name>)
    ensures forall x :: x in Keep(keys, s) <==> x in keys && x in s
    ensures Distinct(keys) ==> Distinct(Keep(keys, s))
  {
    if keys != [] {
      var front := keys[..|keys| - 1];
      KeepFacts(front, s);
      assert forall x :: x in keys <==> x in front || x == keys[|keys| - 1];
    }
  }

  lemma {:induction false} KeepTwice(keys: seq<Name>, s: set<Name>, t: set<Name>)
    requires t <= s
    ensures Keep(Keep(keys, s), t) == Keep(keys, t)
  {
    if keys != [] {
      var front := keys[..|keys| - 1];
      KeepTwice(front, s, t);
      var x := keys[|keys| - 1];
      var kept := Keep(front, s);
      if x in s {
        assert (kept + [x])[..|kept|] == kept;
      } else {
        assert kept + [] == kept;
      }
    }
  }

  lemma {:induction false} KeepAll(keys: seq<Name>, s: set<Name>)
    requires forall x :: x in keys ==> x in s
    ensures Keep(keys, s) == keys
  {
    if keys != [] {
      KeepAll(keys[..|keys| - 1], s);
    }
  }

  /** After k passes every removed package has been listed, once. */
  lemma {:induction false} EmittedFacts(g: Graph, keys: seq<Name>, k: nat)
    requires Distinct(keys) && forall x :: x in keys <==> x in g
    ensures Distinct(Emitted(g, keys, k))
    ensures forall x :: x in Emitted(g, keys, k) <==> x in g && x !in Alive(g, k)
  {
    if k > 0 {
      EmittedFacts(g, keys, k - 1);
      KeepFacts(keys, Alive(g, k - 1) - Alive(g, k));
      DistinctConcat(Emitted(g, keys, k - 1), Wave(g, keys, k));
    }
  }

  lemma DistinctConcat(a: seq<Name>, b: seq<Name>)
    requires Distinct(a) && Distinct(b) && forall x :: x in a ==> x !in b
    ensures Distinct(a + b)
  {
    forall i, j | 0 <= i < j < |a + b| ensures (a + b)[i] != (a + b)[j] {
      if i < |a| <= j {
        assert a[i] in a && b[j - |a|] in b;
      }
    }
  }

  /** Every workspace dependency of a listed package is listed strictly earlier. */
  ghost predicate DependenciesFirst(g: Graph, order: seq<Name>) {
    forall j, d :: 0 <= j < |order| && Edge(g, order[j], d) ==> d in order[..j]
  }

  lemma WaveDependsOnEmitted(g: Graph, keys: seq<Name>, k: nat, x: Name, d: Name)
    requires Distinct(keys) && forall y :: y in keys <==> y in g
    requires k > 0 && x in Wave(g, keys, k) && Edge(g, x, d)
    ensures d in Emitted(g, keys, k - 1)
  {
    KeepHas(keys, Alive(g, k - 1) - Alive(g, k), x);
    NotBlocked(g, k, x, d);
    EmittedHas(g, keys, k - 1, d);
  }

  lemma KeepHas(keys: seq<Name>, s: set<Name>, x: Name)
    ensures x in Keep(keys, s) <==> x in keys && x in s
  {
    KeepFacts(keys, s);
  }

  lemma EmittedHas(g: Graph, keys: seq<Name>, k: nat, x: Name)
    requires Distinct(keys) && forall y :: y in keys <==> y in g
    ensures x in Emitted(g, keys, k) <==> x in g && x !in Alive(g, k)
  {
    EmittedFacts(g, keys, k);
  }

  lemma NotBlocked(g: Graph, k: nat, x: Name, d: Name)
    requires k > 0 && x in Alive(g, k - 1) && x !in Alive(g, k) && Edge(g, x, d)
    ensures d !in Alive(g, k - 1)
  {
  }

  lemma {:induction false} EmittedInOrder(g: Graph, keys: seq<Name>, k: nat)
    requires Distinct(keys) && forall x :: x in keys <==> x in g
    ensures DependenciesFirst(g, Emitted(g, keys, k))
  {
    if k > 0 {
      EmittedInOrder(g, keys, k - 1);
      var before, wave := Emitted(g, keys, k - 1), Wave(g, keys, k);
      forall x, d | x in wave && Edge(g, x, d) ensures d in before {
        WaveDependsOnEmitted(g, keys, k, x, d);
      }
      AppendInOrder(g, before, wave);
    }
  }

  lemma AppendInOrder(g: Graph, before: seq<Name>, wave: seq<Name>)
    requires DependenciesFirst(g, before)
    requires forall x, d :: x in wave && Edge(g, x, d) ==> d in before
    ensures DependenciesFirst(g, before + wave)
  {
    var order := before + wave;
    forall j, d | 0 <= j < |order| && Edge(g, order[j], d) ensures d in order[..j] {
      if j < |before| {
        assert order[..j] == before[..j];
      } else {
        assert order[j] == wave[j - |before|];
        assert order[..j] == before + order[|before|..j];
      }
    }
  }

  ghost predicate HasChain(g: Graph, x: Name, n: nat) {
    exists p :: IsChain(g, p) && |p| == n && p[0] == x
  }

  /** A package is listed in pass k exactly when its longest chain of dependencies has k packages. */
  lemma WaveIsChainLength(g: Graph, keys: seq<Name>, k: nat, x: Name)
    requires k > 0 && forall y :: y in keys <==> y in g
    ensures x in Wave(g, keys, k) <==> HasChain(g, x, k) && !HasChain(g, x, k + 1)
  {
    KeepFacts(keys, Alive(g, k - 1) - Alive(g, k));
    AliveIffChain(g, k - 1, x);
    AliveIffChain(g, k, x);
  }

  // ---------------------------------------------------------------- the ordering loop

  /** The members of the dictionary that wait for nothing in it. */
  function Free(g: Graph, left: seq<Name>): set<Name>
    requires forall x :: x in left ==> x in g
  {
    set x | x in left && !Blocked(g, NamesIn(left), x)
  }

  /** Looks through the dependencies of x until one is still in the dictionary. */
  method IsBlocked(g: Graph, left: seq<Name>, x: Name) returns (blocked: bool)
    requires x in g
    ensures blocked <==> Blocked(g, NamesIn(left), x)
  {
    var deps := g[x];
    var j := 0;
    while j < |deps|
      invariant j <= |deps|
      invariant forall i :: 0 <= i < j ==> deps[i] !in left
    {
      if deps[j] in left {
        assert deps[j] in g[x] && deps[j] in NamesIn(left);
        return true;
      }
      j := j + 1;
    }
    blocked := false;
  }

  /** The packages of one pass that wait for nothing in the dictionary. */
  method ReadyPackages(g: Graph, left: seq<Name>) returns (ready: seq<Name>)
    requires forall x :: x in left ==> x in g
    ensures ready == Keep(left, Free(g, left))
  {
    ready := [];
    ghost var free := Free(g, left);
    var i := 0;
    while i < |left|
      invariant i <= |left|
      invariant ready == Keep(left[..i], free)
    {
      var x := left[i];
      assert left[..i + 1][..i] == left[..i];
      var blocked := IsBlocked(g, left, x);
      if !blocked {
        ready := ready + [x];
      }
      i := i + 1;
    }
    assert left[..i] == left;
  }

  function WithManifests(names: seq<Name>, manifests: map<Name, string>): (r: seq<(Name, string)>)
    requires forall x :: x in names ==> x in manifests
    ensures |r| == |names| && forall i :: 0 <= i < |names| ==> r[i].0 == names[i] && r[i].1 == manifests[names[i]]
  {
    seq(|names|, i requires 0 <= i < |names| => assert names[i] in names; (names[i], manifests[names[i]]))
  }

  lemma {:induction false} KeepSame(keys: seq<Name>, s: set<Name>, t: set<Name>)
    requires forall x :: x in keys ==> (x in s <==> x in t)
    ensures Keep(keys, s) == Keep(keys, t)
  {
    if keys != [] {
      KeepSame(keys[..|keys| - 1], s, t);
    }
  }

  /** One pass: what is ready is the next wave, and what is not listed stays for the next pass. */
  lemma PassIsWave(g: Graph, keys: seq<Name>, k: nat)
    requires forall x :: x in keys <==> x in g
    ensures var left := Keep(keys, Alive(g, k));
            && (forall x :: x in left <==> x in Alive(g, k))
            && Keep(left, Free(g, left)) == Wave(g, keys, k + 1)
            && Keep(left, NamesIn(left) - NamesIn(Wave(g, keys, k + 1))) == Keep(keys, Alive(g, k + 1))
  {
    var left := Keep(keys, Alive(g, k));
    KeepFacts(keys, Alive(g, k));
    assert NamesIn(left) == Alive(g, k);
    KeepSame(left, Free(g, left), Alive(g, k) - Alive(g, k + 1));
    KeepTwice(keys, Alive(g, k), Alive(g, k) - Alive(g, k + 1));
    KeepFacts(keys, Alive(g, k) - Alive(g, k + 1));
    KeepSame(left, NamesIn(left) - NamesIn(Wave(g, keys, k + 1)), Alive(g, k + 1));
    KeepTwice(keys, Alive(g, k), Alive(g, k + 1));
  }

  predicate AfterPasses(g: Graph, keys: seq<Name>, k: nat, sorted: seq<Name>, left: seq<Name>) {
    sorted == Emitted(g, keys, k) && left == Keep(keys, Alive(g, k))
  }

  lemma StartPasses(g: Graph, keys: seq<Name>)
    requires forall x :: x in keys <==> x in g
    ensures AfterPasses(g, keys, 0, [], keys)
  {
    KeepAll(keys, g.Keys);
  }

  lemma LeftIsAlive(g: Graph, keys: seq<Name>, k: nat)
    requires forall x :: x in keys <==> x in g
    ensures var left := Keep(keys, Alive(g, k));
            && (forall x :: x in left ==> x in g)
            && (left == [] <==> Alive(g, k) == {})
  {
    KeepFacts(keys, Alive(g, k));
    var left := Keep(keys, Alive(g, k));
    if left != [] {
      assert left[0] in left;
    }
  }

  lemma PassStep(g: Graph, keys: seq<Name>, k: nat, sorted: seq<Name>, left: seq<Name>)
    requires forall x :: x in keys <==> x in g
    requires AfterPasses(g, keys, k, sorted, left)
    ensures forall x :: x in left ==> x in g
    ensures var ready := Keep(left, Free(g, left)); AfterPasses(g, keys, k + 1, sorted + ready, RemoveAll(left, ready))
  {
    PassIsWave(g, keys, k);
  }

  /** Lists the packages that wait for nothing, then rebuilds the dictionary without them. */
  method OnePass(g: Graph, keys: seq<Name>, ghost k: nat, sorted: seq<Name>, left: seq<Name>)
    returns (sorted': seq<Name>, left': seq<Name>)
    requires forall x :: x in keys <==> x in g
    requires AfterPasses(g, keys, k, sorted, left) && left != []
    ensures AfterPasses(g, keys, k + 1, sorted', left')
  {
    LeftIsAlive(g, keys, k);
    var ready := ReadyPackages(g, left);
    PassStep(g, keys, k, sorted, left);
    sorted' := sorted + ready;
    left' := RemoveAll(left, ready);
  }

  /** The k-th pass, if there is one, had packages to work on. */
  ghost predicate Needed(g: Graph, keys: seq<Name>, k: nat) {
    k == 0 || Keep(keys, Alive(g, k - 1)) != []
  }

  /** Removes packages pass by pass until none is left or the pass budget is used up. */
  method RemovePasses(keys: seq<Name>, g: Graph, maxIterations: nat)
    returns (sorted: seq<Name>, left: seq<Name>, passes: nat)
    requires Distinct(keys) && forall x :: x in keys <==> x in g
    ensures AfterPasses(g, keys, passes, sorted, left)
    ensures left == [] || passes == maxIterations
    ensures Needed(g, keys, passes)
  {
    sorted, left, passes := [], keys, 0;
    var budget := maxIterations;
    StartPasses(g, keys);
    while left != []
      invariant AfterPasses(g, keys, passes, sorted, left)
      invariant passes + budget == maxIterations
      invariant Needed(g, keys, passes)
      decreases budget
    {
      if budget == 0 {
        return;
      }
      budget := budget - 1;
      sorted, left := OnePass(g, keys, passes, sorted, left);
      passes := passes + 1;
    }
  }

  /** The ordering loop with its budget exit. */
  method OrderPackages(keys: seq<Name>, g: Graph, manifests: map<Name, string>) returns (r: Outcome, passes: nat)
    requires Distinct(keys) && manifests.Keys == g.Keys && forall x :: x in keys <==> x in g
    ensures r.Ordered? || r.Suspected?
    ensures r.Ordered? ==>
              && Alive(g, passes) == {} && (passes == 0 || Alive(g, passes - 1) != {})
              && (forall x :: x in Emitted(g, keys, passes) ==> x in manifests)
              && r.order == WithManifests(Emitted(g, keys, passes), manifests)
    ensures r.Suspected? ==>
              && passes == |keys| * |keys|
              && Alive(g, passes) != {}
              && r.packages == Keep(keys, Alive(g, passes))
  {
    var sorted, left;
    sorted, left, passes := RemovePasses(keys, g, |keys| * |keys|);
    LeftIsAlive(g, keys, passes);
    if passes > 0 {
      LeftIsAlive(g, keys, passes - 1);
    }
    if left != [] {
      return Suspected(left), passes;
    }
    EmittedFacts(g, keys, passes);
    r := Ordered(WithManifests(sorted, manifests));
  }

  function RemoveAll(left: seq<Name>, gone: seq<Name>): seq<Name> {
    Keep(left, NamesIn(left) - NamesIn(gone))
  }

  function OrderedNames(order: seq<(Name, string)>): (names: seq<Name>)
    ensures |names| == |order|
  {
    seq(|order|, i requires 0 <= i < |order| => order[i].0)
  }

  /** The whole script, after the metadata is loaded. */
  method GetPackages(packages: seq<Package>) returns (r: Outcome)
    ensures r.Ordered? <==> NoCycle(packages) && !HasWrongSelfDep(packages)
    ensures r.Rejected? <==> HasWrongSelfDep(packages) || exists x, y :: DependMutually(packages, x, y)
    ensures r.Ordered? ==> IsPublishOrder(packages, r.order)
    ensures r.Rejected? ==>
              && IsPairReport(packages, r.circular)
              && r.wrongSelfDeps == AllWrong(packages) && IsWrongReport(packages, r.wrongSelfDeps)
    ensures r.Suspected? ==> IsCycleReport(packages, r.packages)
  {
    var keys, g, manifests, wrong := ReadPackages(packages);
    var circular := DirectCycles(keys, g);
    PairsOnPackages(packages, circular);
    WrongOnPackages(packages);
    NoCycleIff(packages);
    if circular != {} || wrong != [] {
      RejectedHasCycle(g, circular);
      return Rejected(circular, wrong);
    }
    var passes;
    r, passes := OrderPackages(keys, g, manifests);
    KeysCount(keys, g);
    BudgetSuffices(|keys|);
    if r.Suspected? {
      SuspectedIsReport(packages, g, keys, passes);
    } else {
      OrderedIsOrder(packages, g, keys, passes);
      EmptiedIsAcyclic(g, passes);
    }
  }

  lemma KeysCount(keys: seq<Name>, g: Graph)
    requires Distinct(keys) && forall x :: x in keys <==> x in g
    ensures |keys| == |g|
  {
    DistinctCardinality(keys);
    assert (set x | x in keys) == g.Keys;
  }

  lemma BudgetSuffices(n: nat)
    ensures n * n >= n
  {
  }

  lemma RejectedHasCycle(g: Graph, circular: set<set<Name>>)
    requires PairsOfGraph(g, circular)
    ensures circular != {} ==> !Acyclic(g)
  {
    if circular != {} {
      var s :| s in circular;
      var x, y :| Mutual(g, x, y) && s == {x, y};
      var p := [x, y, x];
      assert Link(g, p, 1) && Link(g, p, 2);
      assert IsCycle(g, p);
    }
  }

  // ---------------------------------------------------------------- what the script promises

  /** The order as the loop builds it: the graph's packages once each, dependencies first. */
  ghost predicate OrdersGraph(g: Graph, manifests: map<Name, string>, order: seq<(Name, string)>) {
    var names := OrderedNames(order);
    && Distinct(names)
    && (forall x :: x in names <==> x in g)
    && DependenciesFirst(g, names)
    && (forall i :: 0 <= i < |order| ==> order[i].0 in manifests && order[i].1 == manifests[order[i].0])
  }

  /**
   Every workspace package exactly once with the manifest of the last package of its name, and
   every workspace dependency of a package strictly before it.
   */
  ghost predicate IsPublishOrder(packages: seq<Package>, order: seq<(Name, string)>) {
    var names := OrderedNames(order);
    && Distinct(names)
    && (forall x :: x in names <==> InWorkspace(packages, x))
    && (forall j, d :: 0 <= j < |names| && DependsOn(packages, names[j], d) ==> d in names[..j])
    && (forall j, i: nat :: 0 <= j < |order| && IsLast(packages, i, order[j].0) ==> order[j].1 == packages[i].manifestPath)
  }

  lemma OrderOnPackages(packages: seq<Package>, order: seq<(Name, string)>)
    requires OrdersGraph(GraphOf(packages), ManifestsOf(packages), order)
    ensures IsPublishOrder(packages, order)
  {
    var names := OrderedNames(order);
    forall x ensures x in names <==> InWorkspace(packages, x) {
      GraphHas(packages, x);
    }
    forall j, d | 0 <= j < |names| && DependsOn(packages, names[j], d) ensures d in names[..j] {
      EdgeIff(packages, names[j], d);
    }
    forall j, i: nat | 0 <= j < |order| && IsLast(packages, i, order[j].0) ensures order[j].1 == packages[i].manifestPath {
      EntriesOfLast(packages, i, order[j].0);
    }
  }

  /**
   The reported packages are distinct, are the greatest set whose every member depends on a
   member, and are exactly the packages that lead to a cycle.
   */
  ghost predicate IsCycleReport(packages: seq<Package>, report: seq<Name>) {
    && report != [] && Distinct(report)
    && Closed(packages, NamesIn(report))
    && (forall s :: Closed(packages, s) ==> s <= NamesIn(report))
    && (forall x :: x in report <==> LeadsToCycle(packages, x))
  }

  lemma SuspectedIsReport(packages: seq<Package>, g: Graph, keys: seq<Name>, k: nat)
    requires g == GraphOf(packages) && k >= |g| && Alive(g, k) != {}
    requires Distinct(keys) && forall x :: x in keys <==> x in g
    ensures IsCycleReport(packages, Keep(keys, Alive(g, k))) && !Acyclic(g)
  {
    var report := Keep(keys, Alive(g, k));
    ReportNames(g, keys, k);
    SurvivorsClosed(packages, g, k);
    forall s | Closed(packages, s) ensures s <= NamesIn(report) {
      ClosedSurvives(packages, g, s, k);
    }
    forall x ensures x in report <==> LeadsToCycle(packages, x) {
      SurvivorLeads(packages, g, k, x);
    }
    EmptyIffAcyclic(g, k);
  }

  lemma SurvivorsClosed(packages: seq<Package>, g: Graph, k: nat)
    requires g == GraphOf(packages) && k >= |g|
    ensures Closed(packages, Alive(g, k))
  {
    AliveSettles(g, k);
    ClosedIff(packages, Alive(g, k));
  }

  lemma ClosedSurvives(packages: seq<Package>, g: Graph, s: set<Name>, k: nat)
    requires g == GraphOf(packages) && Closed(packages, s)
    ensures s <= Alive(g, k)
  {
    ClosedIff(packages, s);
    SupportedSurvives(g, s, k);
  }

  lemma SurvivorLeads(packages: seq<Package>, g: Graph, k: nat, x: Name)
    requires g == GraphOf(packages) && k >= |g|
    ensures x in Alive(g, k) <==> LeadsToCycle(packages, x)
  {
    LeftoverReachesCycle(g, k, x);
    LeadsIff(packages, x);
  }

  lemma ReportNames(g: Graph, keys: seq<Name>, k: nat)
    requires Distinct(keys) && forall x :: x in keys <==> x in g
    ensures var report := Keep(keys, Alive(g, k));
            && NamesIn(report) == Alive(g, k) && Distinct(report)
            && (report == [] <==> Alive(g, k) == {})
            && forall x :: x in report <==> x in Alive(g, k)
  {
    var report := Keep(keys, Alive(g, k));
    KeepFacts(keys, Alive(g, k));
    if report != [] {
      assert report[0] in report;
    }
  }

  lemma EmptiedIsAcyclic(g: Graph, k: nat)
    requires Alive(g, k) == {}
    ensures Acyclic(g)
  {
    AliveStaysEmpty(g, k, k + |g|);
    EmptyIffAcyclic(g, k + |g|);
  }

  lemma OrderedIsOrder(packages: seq<Package>, g: Graph, keys: seq<Name>, k: nat)
    requires g == GraphOf(packages) && Alive(g, k) == {}
    requires Distinct(keys) && forall x :: x in keys <==> x in g
    ensures forall x :: x in Emitted(g, keys, k) ==> x in g
    ensures IsPublishOrder(packages, WithManifests(Emitted(g, keys, k), ManifestsOf(packages)))
  {
    EmittedFacts(g, keys, k);
    EmittedInOrder(g, keys, k);
    var names := Emitted(g, keys, k);
    NamesInOrder(packages, g, names);
  }

  lemma NamesInOrder(packages: seq<Package>, g: Graph, names: seq<Name>)
    requires g == GraphOf(packages) && Distinct(names) && DependenciesFirst(g, names)
    requires forall x :: x in names <==> x in g
    ensures IsPublishOrder(packages, WithManifests(names, ManifestsOf(packages)))
  {
    ManifestsAdded(g, names, ManifestsOf(packages));
    OrderOnPackages(packages, WithManifests(names, ManifestsOf(packages)));
  }

  lemma ManifestsAdded(g: Graph, names: seq<Name>, manifests: map<Name, string>)
    requires Distinct(names) && DependenciesFirst(g, names) && manifests.Keys == g.Keys
    requires forall x :: x in names <==> x in g
    ensures OrdersGraph(g, manifests, WithManifests(names, manifests))
  {
    var order := WithManifests(names, manifests);
    assert OrderedNames(order) == names;
    forall i | 0 <= i < |order| ensures order[i].0 in manifests {
      assert names[i] in names;
    }
  }

  lemma {:induction false} AliveStaysEmpty(g: Graph, k: nat, m: nat)
    requires Alive(g, k) == {} && k <= m
    ensures Alive(g, m) == {}
    decreases m
  {
    if k < m {
      AliveStaysEmpty(g, k, m - 1);
    }
  }

  /** The number of passes is the length of the longest dependency chain in the workspace. */
  lemma PassesAreHeight(g: Graph, passes: nat)
    requires Alive(g, passes) == {} && (passes == 0 || Alive(g, passes - 1) != {})
    ensures passes > 0 ==> exists x :: HasChain(g, x, passes)
    ensures forall x, n: nat :: HasChain(g, x, n) ==> n <= passes
    ensures passes <= |g|
  {
    if passes > 0 {
      var x :| x in Alive(g, passes - 1);
      AliveIffChain(g, passes - 1, x);
      assert HasChain(g, x, passes);
      AliveShrinks(g, passes - 1);
      assert |Alive(g, passes - 1)| > 0;
    }
    forall x, n: nat | HasChain(g, x, n) ensures n <= passes {
      if n > passes {
        AliveIffChain(g, n - 1, x);
        AliveStaysEmpty(g, passes, n - 1);
      }
    }
  }
}
