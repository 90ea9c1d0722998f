/**
 The workspace dependency graph, the pass-by-pass elimination that orders crates for
 publishing, and what its survivors are: chains, cycles, the greatest supported set.
 */
module PublishGraph {
  import opened Prelude

  type Name = string

  /** Each package with the names it depends on; names outside the map are not in the workspace. */
  type Graph = map<Name, seq<Name>>

  /** x depends on the workspace package y. */
  predicate Edge(g: Graph, x: Name, y: Name) {
    x in g && y in g && y in g[x]
  }

  /** x still waits for one of the packages in s. */
  predicate Blocked(g: Graph, s: set<Name>, x: Name)
    requires x in g
  {
    exists d :: d in g[x] && d in s
  }

  /** The packages left after k passes: each pass removes those that wait for nothing left. */
  function Alive(g: Graph, k: nat): (s: set<Name>)
    ensures s <= g.Keys
  {
    if k == 0 then g.Keys
    else
      var before := Alive(g, k - 1);
      set x | x in before && Blocked(g, before, x)
  }

  // ---------------------------------------------------------------- chains and cycles

  predicate IsChain(g: Graph, p: seq<Name>) {
    && |p| > 0
    && (forall i :: 0 <= i < |p| ==> p[i] in g)
    && (forall i {:trigger Link(g, p, i)} :: 0 < i < |p| ==> Link(g, p, i))
  }

  predicate Link(g: Graph, p: seq<Name>, i: nat)
    requires 0 < i < |p|
  {
    Edge(g, p[i - 1], p[i])
  }

  /** A chain that ends where it starts. */
  predicate IsCycle(g: Graph, p: seq<Name>) {
    |p| > 1 && IsChain(g, p) && p[0] == p[|p| - 1]
  }

  ghost predicate Acyclic(g: Graph) {
    forall p :: !IsCycle(g, p)
  }

  lemma ChainTail(g: Graph, p: seq<Name>)
    requires IsChain(g, p) && |p| > 1
    ensures IsChain(g, p[1..]) && Edge(g, p[0], p[1])
  {
    assert Link(g, p, 1);
    forall i | 0 < i < |p[1..]| ensures Link(g, p[1..], i) {
      assert Link(g, p, i + 1);
    }
  }

  lemma ChainFront(g: Graph, p: seq<Name>, n: nat)
    requires IsChain(g, p) && 0 < n <= |p|
    ensures IsChain(g, p[..n])
  {
    forall i | 0 < i < n ensures Link(g, p[..n], i) {
      assert Link(g, p, i);
    }
  }

  lemma ChainCons(g: Graph, x: Name, p: seq<Name>)
    requires IsChain(g, p) && Edge(g, x, p[0])
    ensures IsChain(g, [x] + p)
  {
    var q := [x] + p;
    forall i | 0 < i < |q| ensures Link(g, q, i) {
      assert i == 1 || Link(g, p, i - 1);
    }
  }

  /** After k passes exactly the packages that start a chain of k + 1 packages are left. */
  lemma {:induction false} AliveHasChain(g: Graph, k: nat, x: Name) returns (p: seq<Name>)
    requires x in Alive(g, k)
    ensures IsChain(g, p) && |p| == k + 1 && p[0] == x
  {
    if k == 0 {
      p := [x];
    } else {
      var d :| d in g[x] && d in Alive(g, k - 1);
      var rest := AliveHasChain(g, k - 1, d);
      ChainCons(g, x, rest);
      p := [x] + rest;
    }
  }

  lemma {:induction false} ChainIsAlive(g: Graph, k: nat, p: seq<Name>)
    requires IsChain(g, p) && |p| == k + 1
    ensures p[0] in Alive(g, k)
  {
    if k > 0 {
      ChainTail(g, p);
      ChainIsAlive(g, k - 1, p[1..]);
      ChainFront(g, p, k);
      ChainIsAlive(g, k - 1, p[..k]);
    }
  }

  lemma AliveIffChain(g: Graph, k: nat, x: Name)
    ensures x in Alive(g, k) <==> exists p :: IsChain(g, p) && |p| == k + 1 && p[0] == x
  {
    if x in Alive(g, k) {
      var p := AliveHasChain(g, k, x);
    }
    forall p | IsChain(g, p) && |p| == k + 1 && p[0] == x ensures x in Alive(g, k) {
      ChainIsAlive(g, k, p);
    }
  }

  // ---------------------------------------------------------------- supported sets

  /** Every member depends on a member. */
  predicate Supported(g: Graph, s: set<Name>) {
    s <= g.Keys && forall x :: x in s ==> Blocked(g, s, x)
  }

  /** No pass removes a member of a supported set. */
  lemma {:induction false} SupportedSurvives(g: Graph, s: set<Name>, k: nat)
    requires Supported(g, s)
    ensures s <= Alive(g, k)
  {
    if k > 0 {
      SupportedSurvives(g, s, k - 1);
      forall x | x in s ensures x in Alive(g, k) {
        var d :| d in g[x] && d in s;
        assert d in Alive(g, k - 1);
      }
    }
  }

  lemma {:induction false} AliveShrinks(g: Graph, k: nat)
    ensures Alive(g, k + 1) == Alive(g, k) || |Alive(g, k)| + k <= |g|
    decreases k
  {
    if k > 0 {
      AliveShrinks(g, k - 1);
      if Alive(g, k) != Alive(g, k - 1) {
        ProperSubsetSmaller(Alive(g, k), Alive(g, k - 1));
      }
    }
  }

  lemma ProperSubsetSmaller(a: set<Name>, b: set<Name>)
    requires a <= b && a != b
    ensures |a| < |b|
  {
    assert |b - a| > 0;
    assert b == a + (b - a);
  }

  /** After as many passes as there are packages, nothing changes any more. */
  lemma AliveSettles(g: Graph, k: nat)
    requires k >= |g|
    ensures Supported(g, Alive(g, k))
  {
    AliveShrinks(g, k);
    var s := Alive(g, k);
    if Alive(g, k + 1) == s {
      forall x | x in s ensures Blocked(g, s, x) {
        assert x in Alive(g, k + 1);
      }
    }
  }

  // ---------------------------------------------------------------- repeats

  function NamesIn(p: seq<Name>): set<Name> {
    set x | x in p
  }

  /** A sequence longer than the set it draws from repeats an element. */
  lemma Pigeonhole(p: seq<Name>, s: set<Name>) returns (i: nat, j: nat)
    requires |p| > |s| && forall k :: 0 <= k < |p| ==> p[k] in s
    ensures i < j < |p| && p[i] == p[j]
  {
    if Distinct(p) {
      DistinctCardinality(p);
      SubsetNotLarger(NamesIn(p), s);
    }
    i, j :| 0 <= i < j < |p| && p[i] == p[j];
  }

  lemma RepeatIsCycle(g: Graph, p: seq<Name>, i: nat, j: nat)
    requires IsChain(g, p) && i < j < |p| && p[i] == p[j]
    ensures IsCycle(g, p[i..j + 1])
  {
    var q := p[i..j + 1];
    forall k | 0 < k < |q| ensures Link(g, q, k) {
      assert Link(g, p, i + k);
    }
  }

  /** A chain from x that comes back to a package it has already visited. */
  predicate Returns(g: Graph, x: Name, p: seq<Name>) {
    IsChain(g, p) && p[0] == x && exists i, j :: 0 <= i < j < |p| && p[i] == p[j]
  }

  /** x depends, through any number of packages, on a cycle. */
  ghost predicate ReachesCycle(g: Graph, x: Name) {
    exists p :: Returns(g, x, p)
  }

  lemma ReturningSupported(g: Graph, p: seq<Name>, i: nat, j: nat)
    requires IsChain(g, p) && i < j < |p| && p[i] == p[j]
    ensures Supported(g, NamesIn(p[..j + 1]))
  {
    var s := NamesIn(p[..j + 1]);
    forall x | x in s ensures Blocked(g, s, x) {
      var k :| 0 <= k < j + 1 && x == p[k];
      var m := if k < j then k else i;
      assert Link(g, p, m + 1);
      assert p[..j + 1][m + 1] == p[m + 1];
    }
  }

  /** What is left once nothing changes: exactly the packages that depend on a cycle. */
  lemma LeftoverReachesCycle(g: Graph, k: nat, x: Name)
    requires k >= |g|
    ensures x in Alive(g, k) <==> ReachesCycle(g, x)
  {
    if x in Alive(g, k) {
      var p := AliveHasChain(g, k, x);
      var i, j := Pigeonhole(p, g.Keys);
      assert Returns(g, x, p);
    }
    if ReachesCycle(g, x) {
      var p :| Returns(g, x, p);
      var i: nat, j: nat :| i < j < |p| && p[i] == p[j];
      ReturningSupported(g, p, i, j);
      SupportedSurvives(g, NamesIn(p[..j + 1]), k);
      assert p[..j + 1][0] == x;
    }
  }

  /** Enough passes leave nothing exactly when the graph has no cycle. */
  lemma EmptyIffAcyclic(g: Graph, k: nat)
    requires k >= |g|
    ensures Alive(g, k) == {} <==> Acyclic(g)
  {
    if Alive(g, k) != {} {
      var x :| x in Alive(g, k);
      var p := AliveHasChain(g, k, x);
      var i, j := Pigeonhole(p, g.Keys);
      RepeatIsCycle(g, p, i, j);
    }
    forall p | IsCycle(g, p) ensures p[0] in Alive(g, k) {
      assert Returns(g, p[0], p);
      LeftoverReachesCycle(g, k, p[0]);
    }
  }
}
