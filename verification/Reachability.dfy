/** Directed graphs given by dependency lists, and reachability over them. */
module Reachability {

  type Name = string

  /** Every node with its dependency list; a dependency outside the domain is not an edge. */
  type Graph = map<Name, seq<Name>>

  predicate Edge(g: Graph, x: Name, y: Name) {
    x in g && y in g && y in g[x]
  }

  ghost predicate ReachIn(g: Graph, x: Name, y: Name, n: nat)
    decreases n
  {
    if n == 0 then x == y && x in g
    else exists z :: Edge(g, x, z) && ReachIn(g, z, y, n - 1)
  }

  /** A path of some length (possibly zero) leads from `x` to `y`. */
  ghost predicate Reach(g: Graph, x: Name, y: Name) {
    exists n: nat :: ReachIn(g, x, y, n)
  }

  /** `x` and `y` lie on a common cycle, or are the same node. */
  ghost predicate Mutual(g: Graph, x: Name, y: Name) {
    Reach(g, x, y) && Reach(g, y, x)
  }

  lemma ReachRefl(g: Graph, x: Name)
    requires x in g
    ensures Reach(g, x, x)
  {
    assert ReachIn(g, x, x, 0);
  }

  lemma ReachEdge(g: Graph, x: Name, y: Name)
    requires Edge(g, x, y)
    ensures Reach(g, x, y)
  {
    assert ReachIn(g, y, y, 0);
    assert ReachIn(g, x, y, 1);
  }

  lemma {:induction false} ReachInTrans(g: Graph, x: Name, y: Name, z: Name, m: nat, n: nat)
    requires ReachIn(g, x, y, m) && ReachIn(g, y, z, n)
    ensures ReachIn(g, x, z, m + n)
    decreases m
  {
    if m == 0 {
    } else {
      var w :| Edge(g, x, w) && ReachIn(g, w, y, m - 1);
      ReachInTrans(g, w, y, z, m - 1, n);
    }
  }

  lemma ReachTrans(g: Graph, x: Name, y: Name, z: Name)
    requires Reach(g, x, y) && Reach(g, y, z)
    ensures Reach(g, x, z)
  {
    var m: nat :| ReachIn(g, x, y, m);
    var n: nat :| ReachIn(g, y, z, n);
    ReachInTrans(g, x, y, z, m, n);
  }

  /** No edge leaves `s`. */
  ghost predicate Closed(g: Graph, s: set<Name>) {
    forall x, y :: x in s && Edge(g, x, y) ==> y in s
  }

  lemma {:induction false} ReachInStays(g: Graph, s: set<Name>, x: Name, y: Name, n: nat)
    requires Closed(g, s) && x in s && ReachIn(g, x, y, n)
    ensures y in s
    decreases n
  {
    if n == 0 {
    } else {
      var z :| Edge(g, x, z) && ReachIn(g, z, y, n - 1);
      ReachInStays(g, s, z, y, n - 1);
    }
  }

  /** A path cannot leave a closed set. */
  lemma ReachStays(g: Graph, s: set<Name>, x: Name, y: Name)
    requires Closed(g, s) && x in s && Reach(g, x, y)
    ensures y in s
  {
    var n: nat :| ReachIn(g, x, y, n);
    ReachInStays(g, s, x, y, n);
  }

  lemma {:induction false} ReachInDomain(g: Graph, x: Name, y: Name, n: nat)
    requires ReachIn(g, x, y, n)
    ensures x in g && y in g
    decreases n
  {
    if n == 0 {
    } else {
      var z :| Edge(g, x, z) && ReachIn(g, z, y, n - 1);
      ReachInDomain(g, z, y, n - 1);
    }
  }

  lemma ReachDomain(g: Graph, x: Name, y: Name)
    requires Reach(g, x, y)
    ensures x in g && y in g
  {
    var n: nat :| ReachIn(g, x, y, n);
    ReachInDomain(g, x, y, n);
  }

  /** Every edge of `g` is an edge of `h`. */
  ghost predicate Subgraph(g: Graph, h: Graph) {
    g.Keys <= h.Keys && forall x :: x in g ==> g[x] == h[x]
  }

  lemma {:induction false} ReachInMono(g: Graph, h: Graph, x: Name, y: Name, n: nat)
    requires Subgraph(g, h) && ReachIn(g, x, y, n)
    ensures ReachIn(h, x, y, n)
    decreases n
  {
    if n == 0 {
    } else {
      var z :| Edge(g, x, z) && ReachIn(g, z, y, n - 1);
      ReachInMono(g, h, z, y, n - 1);
      assert Edge(h, x, z);
    }
  }

  lemma ReachMono(g: Graph, h: Graph, x: Name, y: Name)
    requires Subgraph(g, h) && Reach(g, x, y)
    ensures Reach(h, x, y)
  {
    var n: nat :| ReachIn(g, x, y, n);
    ReachInMono(g, h, x, y, n);
  }
}
