/** The strongly connected component search of `sinkCycles`, as the stateful depth-first search the source runs. */
module SinkCycles {
  import opened Reachability
  import opened Ordering

  /** The variables the traversal closure shares, as one value. */
  datatype State = State(
    next: nat,
    index: map<Name, nat>,
    low: map<Name, nat>,
    stack: seq<Name>,
    stacked: set<Name>,
    components: seq<seq<Name>>)
  {
    /** Nodes already assigned to a finished component. */
    ghost function Done(): set<Name> { index.Keys - stacked }
  }

  function Members(c: seq<Name>): set<Name> {
    set x | x in c
  }

  // ----- finished components -----

  /** `c` lists, without repetition, one whole mutual-reachability class. */
  ghost predicate IsClass(g: Graph, c: seq<Name>) {
    && |c| > 0
    && (forall i, j :: 0 <= i < j < |c| ==> c[i] != c[j])
    && (forall x :: x in c ==> x in g)
    && (forall x, y :: x in c ==> (y in c <==> Mutual(g, x, y)))
  }

  /** The components are the mutual-reachability classes of `domain`, each listed once. */
  ghost predicate Partition(g: Graph, cs: seq<seq<Name>>, domain: set<Name>) {
    && (forall c :: c in cs ==> IsClass(g, c))
    && (forall i, j :: 0 <= i < j < |cs| ==> forall x :: x in cs[i] ==> x !in cs[j])
    && (forall c, x :: c in cs && x in c ==> x in domain)
    && (forall x :: x in domain ==> exists c :: c in cs && x in c)
  }

  // ----- traversal invariant -----

  /** The shape of the bookkeeping: what is indexed, and how the stack mirrors it. */
  ghost predicate Shape(g: Graph, s: State) {
    && s.index.Keys <= g.Keys
    && s.low.Keys == s.index.Keys
    && (forall x :: x in s.index ==> s.index[x] < s.next)
    && (forall x :: x in s.stacked <==> x in s.stack)
    && s.stacked <= s.index.Keys
    && (forall i, j :: 0 <= i < j < |s.stack| ==> s.index[s.stack[i]] < s.index[s.stack[j]])
  }

  /** `gray` holds the nodes whose `visit` call is still active. */
  ghost predicate Inv(g: Graph, s: State, gray: set<Name>) {
    && Shape(g, s)
    && gray <= s.stacked
    && Explored(g, s, gray)
    && Ascending(g, s)
    && (forall y :: y in s.stacked ==> Anchored(g, s, gray, y))
    && Closed(g, s.Done())
    && Partition(g, s.components, s.Done())
  }

  /** No edge leads from a finished call to a node not yet indexed. */
  ghost predicate Explored(g: Graph, s: State, gray: set<Name>) {
    forall x, y :: x in s.index && x !in gray && Edge(g, x, y) ==> y in s.index
  }

  /** A stacked node reaches every node stacked above it. */
  ghost predicate Ascending(g: Graph, s: State)
    requires s.stacked <= s.index.Keys
  {
    forall x, y :: x in s.stacked && y in s.stacked && s.index[x] <= s.index[y] ==> Reach(g, x, y)
  }

  /** `y` reaches an active node at or below it on the stack. */
  ghost predicate Anchored(g: Graph, s: State, gray: set<Name>, y: Name)
    requires gray <= s.stacked <= s.index.Keys && y in s.stacked
  {
    exists x :: x in gray && s.index[x] <= s.index[y] && Reach(g, y, x)
  }

  /** `t` continues `s`: earlier entries are untouched and later ones are numbered later. */
  ghost predicate Extends(s: State, t: State) {
    && s.next <= t.next
    && s.index.Keys <= t.index.Keys && s.low.Keys <= t.low.Keys
    && (forall x :: x in s.index ==> t.index[x] == s.index[x])
    && (forall x :: x in t.index && x !in s.index ==> s.next <= t.index[x])
    && s.stack <= t.stack
  }

  /** The low link of `v` names the index of a stacked node that `v` reaches. */
  ghost predicate LowWitness(g: Graph, s: State, v: Name) {
    v in s.low && exists y :: y in s.stacked && y in s.index && s.index[y] == s.low[v] && Reach(g, v, y)
  }

  /** Edges from stack positions `from` and up into `below` respect the bound `n`. */
  ghost predicate Crossing(g: Graph, s: State, from: nat, below: seq<Name>, n: nat) {
    forall i, y :: from <= i < |s.stack| && y in below && Edge(g, s.stack[i], y) && y in s.index ==> n <= s.index[y]
  }

  /** What a finished call `visit(v)` guarantees about the states before and after it. */
  ghost predicate Visited(g: Graph, s: State, t: State, v: Name, gray: set<Name>) {
    && Inv(g, t, gray)
    && Extends(s, t)
    && (forall x :: x in s.low ==> t.low[x] == s.low[x])
    && v in t.index && v !in s.index
    && t.low[v] <= t.index[v]
    && (if v in t.stacked then LowWitness(g, t, v) else t.stack == s.stack && t.low[v] == t.index[v])
    && Crossing(g, t, |s.stack|, s.stack, t.low[v])
  }

  /** The state inside `visit(v)` after the first `k` dependencies, entered from `s`. */
  ghost predicate Scanning(g: Graph, s: State, t: State, v: Name, gray: set<Name>, k: nat) {
    && v in g && k <= |g[v]| && v !in s.index && v !in s.low && v !in gray
    && v in t.index && v in t.low && (forall x :: x in gray ==> x in s.stack)
    && Inv(g, t, gray + {v})
    && Extends(s, t)
    && (forall x :: x in s.low ==> t.low[x] == s.low[x])
    && |s.stack| < |t.stack| && t.stack[|s.stack|] == v
    && t.low[v] <= t.index[v]
    && LowWitness(g, t, v)
    && Crossing(g, t, |s.stack| + 1, s.stack, t.low[v])
    && Handled(g, s, t, g[v][..k], t.low[v])
  }

  /** The dependencies `ds` are indexed, and bounded below by `n` when stacked before the call. */
  ghost predicate Handled(g: Graph, s: State, t: State, ds: seq<Name>, n: nat) {
    forall d :: d in ds && d in g ==> d in t.index && (d in s.stack ==> n <= t.index[d])
  }

  function Enter(s: State, v: Name): State {
    State(s.next + 1, s.index[v := s.next], s.low[v := s.next], s.stack + [v], s.stacked + {v}, s.components)
  }

  function LowerTo(s: State, v: Name, n: nat): State
    requires v in s.low
  {
    s.(low := s.low[v := if n < s.low[v] then n else s.low[v]])
  }

  lemma EnterShape(g: Graph, s: State, v: Name)
    requires Shape(g, s) && v in g && v !in s.index
    ensures Shape(g, Enter(s, v))
    ensures Enter(s, v).Done() == s.Done()
  {
  }

  lemma EnterAscends(g: Graph, s: State, v: Name, gray: set<Name>)
    requires Shape(g, s) && gray <= s.stacked && Ascending(g, s) && v in g && v !in s.index
    requires forall y :: y in s.stacked ==> Anchored(g, s, gray, y)
    requires forall x :: x in gray ==> Reach(g, x, v)
    ensures Ascending(g, Enter(s, v))
  {
    hide Reach, Anchored;
    var t := Enter(s, v);
    forall x, y | x in t.stacked && y in t.stacked && t.index[x] <= t.index[y]
      ensures Reach(g, x, y)
    {
      if x == v {
        ReachRefl(g, v);
      } else if y == v {
        var w := AnchorOf(g, s, gray, x);
        ReachTrans(g, x, w, v);
      }
    }
  }

  lemma EnterAnchors(g: Graph, s: State, v: Name, gray: set<Name>, y: Name)
    requires gray <= s.stacked <= s.index.Keys && v in g && v !in s.index && y in Enter(s, v).stacked
    requires y in s.stacked ==> Anchored(g, s, gray, y)
    ensures Anchored(g, Enter(s, v), gray + {v}, y)
  {
    hide Reach, Anchored;
    if y == v {
      ReachRefl(g, v);
      AnchorBy(g, Enter(s, v), gray + {v}, y, v);
    } else {
      var w := AnchorOf(g, s, gray, y);
      AnchorBy(g, Enter(s, v), gray + {v}, y, w);
    }
  }

  lemma EnterExplores(g: Graph, s: State, v: Name, gray: set<Name>)
    requires Explored(g, s, gray)
    ensures Explored(g, Enter(s, v), gray + {v})
  {
    hide Edge;
  }

  lemma EnterKeeps(g: Graph, s: State, v: Name, gray: set<Name>)
    requires Inv(g, s, gray) && v in g && v !in s.index
    requires forall x :: x in gray ==> Reach(g, x, v)
    ensures Inv(g, Enter(s, v), gray + {v})
  {
    var t := Enter(s, v);
    EnterShape(g, s, v);
    EnterExplores(g, s, v, gray);
    EnterAscends(g, s, v, gray);
    forall y | y in t.stacked ensures Anchored(g, t, gray + {v}, y) {
      EnterAnchors(g, s, v, gray, y);
    }
    hide Shape, Explored, Ascending, Anchored, Closed, Partition;
  }

  lemma EnterLow(g: Graph, s: State, v: Name)
    requires v in g
    ensures LowWitness(g, Enter(s, v), v)
  {
    ReachRefl(g, v);
    hide Reach;
    assert v in Enter(s, v).stacked;
  }

  lemma EnterExtends(g: Graph, s: State, v: Name)
    requires Shape(g, s) && v !in s.index
    ensures Extends(s, Enter(s, v))
  {
  }

  lemma GrayIndexed(g: Graph, s: State, v: Name, gray: set<Name>)
    requires Inv(g, s, gray) && v !in s.index
    ensures v !in gray && Shape(g, s)
    ensures forall x :: x in gray ==> x in s.stack
  {
  }

  lemma EnterScans(g: Graph, s: State, v: Name, gray: set<Name>)
    requires Inv(g, s, gray) && v in g && v !in s.index
    requires forall x :: x in gray ==> Reach(g, x, v)
    ensures Scanning(g, s, Enter(s, v), v, gray, 0)
  {
    hide Inv, LowWitness, Edge, Reach, Extends, Shape;
    GrayIndexed(g, s, v, gray);
    EnterKeeps(g, s, v, gray);
    EnterLow(g, s, v);
    EnterExtends(g, s, v);
  }

  // ----- one dependency of the active node -----

  lemma LowerKeeps(g: Graph, t: State, v: Name, n: nat, gray: set<Name>)
    requires Inv(g, t, gray) && v in t.low
    ensures Inv(g, LowerTo(t, v, n), gray)
  {
    hide Reach, Edge, Partition;
    assert LowerTo(t, v, n).Done() == t.Done();
    forall y | y in t.stacked ensures Anchored(g, LowerTo(t, v, n), gray, y) {
      assert Anchored(g, t, gray, y);
    }
  }

  lemma HandledMore(g: Graph, s: State, t: State, u: State, ds: seq<Name>, d: Name, n: nat, m: nat)
    requires Handled(g, s, t, ds, n) && m <= n
    requires forall x :: x in t.index ==> x in u.index && u.index[x] == t.index[x]
    requires d in g ==> d in u.index && (d in s.stack ==> m <= u.index[d])
    ensures Handled(g, s, u, ds + [d], m)
  {
  }

  /** A dependency outside the graph changes nothing. */
  lemma SkipAbsent(g: Graph, s: State, t: State, v: Name, gray: set<Name>, k: nat)
    requires Scanning(g, s, t, v, gray, k) && k < |g[v]| && g[v][k] !in g
    ensures Scanning(g, s, t, v, gray, k + 1)
  {
    hide Inv, LowWitness, Extends, Crossing, Reach, Handled;
    assert g[v][..k + 1] == g[v][..k] + [g[v][k]];
    HandledMore(g, s, t, t, g[v][..k], g[v][k], t.low[v], t.low[v]);
  }

  lemma DoneNotBelow(g: Graph, s: State, t: State, gray: set<Name>, d: Name)
    requires Inv(g, t, gray) && Extends(s, t) && d in t.index && d !in t.stacked
    ensures d !in s.stack
  {
    hide Explored, Ascending, Anchored, Closed, Partition;
    assert forall i :: 0 <= i < |s.stack| ==> s.stack[i] == t.stack[i];
  }

  /** A dependency already in a finished component changes nothing. */
  lemma SkipDone(g: Graph, s: State, t: State, v: Name, gray: set<Name>, k: nat)
    requires Scanning(g, s, t, v, gray, k) && k < |g[v]|
    requires g[v][k] in t.index && g[v][k] !in t.stacked
    ensures Scanning(g, s, t, v, gray, k + 1)
  {
    hide Inv, LowWitness, Extends, Crossing, Reach, Handled;
    assert g[v][..k + 1] == g[v][..k] + [g[v][k]];
    DoneNotBelow(g, s, t, gray + {v}, g[v][k]);
    HandledMore(g, s, t, t, g[v][..k], g[v][k], t.low[v], t.low[v]);
  }

  lemma LowerWitness(g: Graph, t: State, v: Name, d: Name)
    requires LowWitness(g, t, v) && Edge(g, v, d) && d in t.stacked && d in t.index
    ensures LowWitness(g, LowerTo(t, v, t.index[d]), v)
  {
    ReachEdge(g, v, d);
    hide Reach, Edge;
  }

  lemma IndexedShape(g: Graph, t: State, gray: set<Name>)
    requires Inv(g, t, gray)
    ensures Shape(g, t)
  {
  }

  /** A dependency found on the stack lowers the link to its index. */
  lemma LinkStacked(g: Graph, s: State, t: State, v: Name, gray: set<Name>, k: nat)
    requires Scanning(g, s, t, v, gray, k) && k < |g[v]|
    requires g[v][k] in g && g[v][k] in t.index && g[v][k] in t.stacked
    ensures Scanning(g, s, LowerTo(t, v, t.index[g[v][k]]), v, gray, k + 1)
  {
    hide Inv, LowWitness, Crossing, Reach, Handled, Shape;
    var d := g[v][k];
    IndexedShape(g, t, gray + {v});
    var u := LowerTo(t, v, t.index[d]);
    assert g[v][..k + 1] == g[v][..k] + [d];
    LowerKeeps(g, t, v, t.index[d], gray + {v});
    LowerWitness(g, t, v, d);
    CrossingLower(g, t, |s.stack| + 1, s.stack, v, t.index[d]);
    HandledMore(g, s, t, u, g[v][..k], d, t.low[v], u.low[v]);
  }

  lemma CrossingLower(g: Graph, t: State, from: nat, below: seq<Name>, v: Name, n: nat)
    requires v in t.low && Crossing(g, t, from, below, t.low[v])
    ensures Crossing(g, LowerTo(t, v, n), from, below, LowerTo(t, v, n).low[v])
  {
    hide Edge;
  }

  lemma ExtendsTrans(s: State, t: State, u: State)
    requires Extends(s, t) && Extends(t, u)
    ensures Extends(s, u)
  {
  }

  lemma StackInherited(g: Graph, t: State, u: State, y: Name)
    requires Shape(g, t) && Shape(g, u) && Extends(t, u) && y in t.stacked
    ensures y in u.stacked && y in t.index && y in u.index && u.index[y] == t.index[y]
  {
    assert forall i :: 0 <= i < |t.stack| ==> t.stack[i] == u.stack[i];
  }

  lemma ChildWitness(g: Graph, t: State, u: State, v: Name, d: Name)
    requires Shape(g, t) && Shape(g, u) && Extends(t, u) && Edge(g, v, d)
    requires LowWitness(g, t, v) && v in t.index && t.low[v] <= t.index[v]
    requires v in u.low && u.low[v] == t.low[v]
    requires d in u.index && d !in t.index && d in u.low
    requires d in u.stacked ==> LowWitness(g, u, d)
    requires d !in u.stacked ==> u.low[d] == u.index[d]
    ensures LowWitness(g, LowerTo(u, v, u.low[d]), v)
  {
    hide Reach, Edge;
    var w := LowerTo(u, v, u.low[d]);
    if u.low[d] < u.low[v] {
      var y :| y in u.stacked && y in u.index && u.index[y] == u.low[d] && Reach(g, d, y);
      ReachEdge(g, v, d);
      ReachTrans(g, v, d, y);
      assert y in w.stacked && w.index[y] == w.low[v];
    } else {
      var y :| y in t.stacked && y in t.index && t.index[y] == t.low[v] && Reach(g, v, y);
      StackInherited(g, t, u, y);
      assert y in w.stacked && w.index[y] == w.low[v];
    }
  }

  lemma ChildCrossing(g: Graph, s: State, t: State, u: State, from: nat, n: nat, m: nat)
    requires Shape(g, t) && Shape(g, u) && Extends(s, t) && Extends(t, u)
    requires from <= |t.stack|
    requires Crossing(g, t, from, s.stack, n) && Crossing(g, u, |t.stack|, t.stack, m)
    ensures Crossing(g, u, from, s.stack, if m < n then m else n)
  {
    hide Reach, Edge;
    forall i, y | from <= i < |u.stack| && y in s.stack && Edge(g, u.stack[i], y) && y in u.index
      ensures (if m < n then m else n) <= u.index[y]
    {
      assert y in t.stack by {
        assert forall j :: 0 <= j < |s.stack| ==> s.stack[j] == t.stack[j];
      }
      StackInherited(g, t, u, y);
      if i < |t.stack| {
        assert u.stack[i] == t.stack[i];
      }
    }
  }

  lemma VisitedParts(g: Graph, t: State, u: State, d: Name, gray: set<Name>)
    requires Visited(g, t, u, d, gray)
    ensures Shape(g, u) && Extends(t, u) && d in u.low && d in u.index
    ensures forall x :: x in t.low ==> x in u.low && u.low[x] == t.low[x]
  {
    hide Reach, Edge, Explored, Ascending, Anchored, Closed, Partition;
  }

  lemma LinkChildFacts(g: Graph, s: State, t: State, u: State, v: Name, gray: set<Name>, k: nat)
    requires Scanning(g, s, t, v, gray, k) && k < |g[v]|
    requires g[v][k] in g && g[v][k] !in t.index
    requires Visited(g, t, u, g[v][k], gray + {v})
    ensures v in u.low && g[v][k] in u.low && u.low[v] == t.low[v]
    ensures Extends(s, u)
    ensures LowWitness(g, LowerTo(u, v, u.low[g[v][k]]), v)
    ensures Crossing(g, u, |s.stack| + 1, s.stack, LowerTo(u, v, u.low[g[v][k]]).low[v])
  {
    hide Reach, Inv, LowWitness, Crossing, Extends, Shape, Handled;
    var d := g[v][k];
    IndexedShape(g, t, gray + {v});
    VisitedParts(g, t, u, d, gray + {v});
    ExtendsTrans(s, t, u);
    ChildWitness(g, t, u, v, d);
    ChildCrossing(g, s, t, u, |s.stack| + 1, t.low[v], u.low[d]);
  }

  lemma DeeperHandled(g: Graph, s: State, t: State, u: State, ds: seq<Name>, d: Name, n: nat, m: nat)
    requires Shape(g, s) && Extends(s, t) && Extends(t, u) && Handled(g, s, t, ds, n) && m <= n
    requires d in u.index && d !in t.index
    ensures Handled(g, s, u, ds + [d], m)
  {
    assert d !in s.stack;
    HandledMore(g, s, t, u, ds, d, n, m);
  }

  /** A dependency explored by a nested call lowers the link to the nested low link. */
  lemma LinkChild(g: Graph, s: State, t: State, u: State, v: Name, gray: set<Name>, k: nat)
    requires Shape(g, s)
    requires Scanning(g, s, t, v, gray, k) && k < |g[v]|
    requires g[v][k] in g && g[v][k] !in t.index
    requires Visited(g, t, u, g[v][k], gray + {v})
    ensures v in u.low && g[v][k] in u.low
    ensures Scanning(g, s, LowerTo(u, v, u.low[g[v][k]]), v, gray, k + 1)
  {
    hide Reach, Inv, LowWitness, Crossing, Handled, Shape;
    var d := g[v][k];
    LinkChildFacts(g, s, t, u, v, gray, k);
    var w := LowerTo(u, v, u.low[d]);
    LowerKeeps(g, u, v, u.low[d], gray + {v});
    assert g[v][..k + 1] == g[v][..k] + [d];
    DeeperHandled(g, s, t, w, g[v][..k], d, t.low[v], w.low[v]);
    CrossingSame(g, u, w, |s.stack| + 1, s.stack, w.low[v]);
  }

  lemma CrossingSame(g: Graph, u: State, w: State, from: nat, below: seq<Name>, n: nat)
    requires Crossing(g, u, from, below, n) && w.stack == u.stack && w.index == u.index
    ensures Crossing(g, w, from, below, n)
  {
    hide Edge;
  }

  // ----- the end of a call -----

  lemma HandledAll(g: Graph, s: State, t: State, v: Name, gray: set<Name>)
    requires v in g && Scanning(g, s, t, v, gray, |g[v]|)
    ensures Handled(g, s, t, g[v], t.low[v])
    ensures Shape(g, t) && t.stacked <= t.index.Keys
  {
    hide Reach, Explored, Ascending, Anchored, Closed, Partition, Crossing, LowWitness;
    assert g[v][..|g[v]|] == g[v];
  }

  lemma FinishedExplored(g: Graph, s: State, t: State, v: Name, gray: set<Name>, n: nat)
    requires Explored(g, t, gray + {v}) && v in g && Handled(g, s, t, g[v], n)
    ensures Explored(g, t, gray)
  {
  }

  lemma FinishedCrossing(g: Graph, s: State, t: State, v: Name, n: nat)
    requires |s.stack| < |t.stack| && t.stack[|s.stack|] == v && v in g
    requires Crossing(g, t, |s.stack| + 1, s.stack, n) && Handled(g, s, t, g[v], n)
    ensures Crossing(g, t, |s.stack|, s.stack, n)
  {
  }

  lemma AnchorOf(g: Graph, t: State, gray: set<Name>, y: Name) returns (x: Name)
    requires gray <= t.stacked <= t.index.Keys && y in t.stacked && Anchored(g, t, gray, y)
    ensures x in gray && t.index[x] <= t.index[y] && Reach(g, y, x)
  {
    hide Reach;
    x :| x in gray && t.index[x] <= t.index[y] && Reach(g, y, x);
  }

  lemma AnchorBy(g: Graph, t: State, gray: set<Name>, y: Name, x: Name)
    requires gray <= t.stacked <= t.index.Keys && y in t.stacked
    requires x in gray && t.index[x] <= t.index[y] && Reach(g, y, x)
    ensures Anchored(g, t, gray, y)
  {
    hide Reach;
  }

  lemma LowNode(g: Graph, t: State, v: Name) returns (z: Name)
    requires LowWitness(g, t, v)
    ensures z in t.stacked && z in t.index && t.index[z] == t.low[v] && Reach(g, v, z)
  {
    hide Reach;
    z :| z in t.stacked && z in t.index && t.index[z] == t.low[v] && Reach(g, v, z);
  }

  /** Without being a root, `v` reaches an active node strictly below itself. */
  lemma FinishedAnchor(g: Graph, t: State, v: Name, gray: set<Name>, y: Name)
    requires gray + {v} <= t.stacked <= t.index.Keys
    requires forall z :: z in t.stacked ==> Anchored(g, t, gray + {v}, z)
    requires LowWitness(g, t, v) && t.low[v] < t.index[v]
    requires y in t.stacked
    ensures Anchored(g, t, gray, y)
  {
    hide Reach, Anchored, LowWitness;
    LowBelow(g, t, v);
    var x := AnchorOf(g, t, gray + {v}, y);
    if x == v {
      var z := LowNode(g, t, v);
      var w := AnchorOf(g, t, gray + {v}, z);
      ReachTrans(g, y, v, z);
      ReachTrans(g, y, z, w);
      AnchorBy(g, t, gray, y, w);
    } else {
      AnchorBy(g, t, gray, y, x);
    }
  }

  lemma FinishedKeeps(g: Graph, t: State, v: Name, gray: set<Name>)
    requires Inv(g, t, gray + {v}) && v in t.index && LowWitness(g, t, v) && t.low[v] < t.index[v]
    requires Explored(g, t, gray)
    ensures Inv(g, t, gray)
  {
    hide Reach, Edge, Explored, Ascending, Closed, Partition, LowWitness, Anchored;
    forall y | y in t.stacked ensures Anchored(g, t, gray, y) {
      FinishedAnchor(g, t, v, gray, y);
    }
  }

  /** A node that is not the root of its component stays on the stack. */
  lemma FinishInner(g: Graph, s: State, t: State, v: Name, gray: set<Name>)
    requires v in g && Scanning(g, s, t, v, gray, |g[v]|) && t.low[v] != t.index[v]
    ensures Visited(g, s, t, v, gray)
  {
    hide Reach, Edge, Inv, LowWitness, Crossing, Handled, Extends, Shape;
    HandledAll(g, s, t, v, gray);
    ExploredOf(g, t, gray + {v});
    FinishedExplored(g, s, t, v, gray, t.low[v]);
    FinishedCrossing(g, s, t, v, t.low[v]);
    LowBelow(g, t, v);
    FinishedKeeps(g, t, v, gray);
    assert v in t.stacked by { OnStack(g, t, |s.stack|); }
  }

  lemma ExploredOf(g: Graph, t: State, gray: set<Name>)
    requires Inv(g, t, gray)
    ensures Explored(g, t, gray)
  {
  }

  lemma LowBelow(g: Graph, t: State, v: Name)
    requires LowWitness(g, t, v)
    ensures v in t.low
  {
  }

  lemma OnStack(g: Graph, t: State, i: nat)
    requires Shape(g, t) && i < |t.stack|
    ensures t.stack[i] in t.stacked
  {
    assert t.stack[i] in t.stack;
  }

  // ----- popping a finished component -----

  /** The state after the stack segment from position `m` up became the component `c`. */
  function Popped(t: State, m: nat, c: seq<Name>): State
    requires m <= |t.stack|
  {
    t.(stack := t.stack[..m],
       stacked := t.stacked - Members(t.stack[m..]),
       components := t.components + [c])
  }

  /** No edge leaves the segment of a root except into finished components. */
  lemma SegmentClosed(g: Graph, s: State, t: State, v: Name, gray: set<Name>, n: nat)
    requires Shape(g, t) && |s.stack| < |t.stack| && t.stack[|s.stack|] == v && s.stack <= t.stack
    requires Explored(g, t, gray) && Closed(g, t.Done()) && (forall z :: z in gray ==> z in s.stack)
    requires v in t.index && n == t.index[v] && Crossing(g, t, |s.stack|, s.stack, n)
    ensures Closed(g, t.Done() + Members(t.stack[|s.stack|..]))
  {
    var m := |s.stack|;
    var seg := Members(t.stack[m..]);
    forall x, y | x in t.Done() + seg && Edge(g, x, y) ensures y in t.Done() + seg {
      if x in seg && y !in t.Done() {
        var i :| m <= i < |t.stack| && t.stack[i] == x;
        assert x !in gray by {
          assert forall j :: 0 <= j < m ==> t.index[s.stack[j]] < t.index[t.stack[i]];
        }
        assert x in t.index && y in t.index && y in t.stack;
        var j :| 0 <= j < |t.stack| && t.stack[j] == y;
        assert m <= j;
      }
    }
  }

  lemma SegmentReaches(g: Graph, s: State, t: State, v: Name, gray: set<Name>, x: Name)
    requires Shape(g, t) && |s.stack| < |t.stack| && t.stack[|s.stack|] == v && s.stack <= t.stack
    requires gray + {v} <= t.stacked && Ascending(g, t)
    requires forall z :: z in gray ==> z in s.stack
    requires x in t.stacked && Anchored(g, t, gray + {v}, x)
    requires x in t.stack[|s.stack|..]
    ensures Mutual(g, v, x)
  {
    hide Reach, Anchored;
    var i :| |s.stack| <= i < |t.stack| && t.stack[i] == x;
    assert t.index[v] <= t.index[x];
    var w := AnchorOf(g, t, gray + {v}, x);
    if w != v {
      var j :| 0 <= j < |s.stack| && s.stack[j] == w;
      assert t.stack[j] == w;
      assert t.index[w] <= t.index[v];
      ReachTrans(g, x, w, v);
    }
  }

  lemma MutualTrans(g: Graph, v: Name, x: Name, y: Name)
    requires Mutual(g, v, x) && Mutual(g, v, y)
    ensures Mutual(g, x, y)
  {
    hide Reach;
    ReachTrans(g, x, v, y);
    ReachTrans(g, y, v, x);
  }

  /** A mutually reachable set with nothing but closed sets around it is a whole class. */
  lemma ClosedMeansClass(g: Graph, done: set<Name>, seg: set<Name>, x: Name, y: Name)
    requires Closed(g, done) && Closed(g, done + seg) && x in seg && x !in done && Mutual(g, x, y)
    ensures y in seg
  {
    hide Reach, Closed;
    ReachStays(g, done + seg, x, y);
    if y in done {
      ReachStays(g, done, y, x);
    }
  }

  lemma SegmentIsClass(g: Graph, done: set<Name>, v: Name, c: seq<Name>)
    requires v in c && (forall i, j :: 0 <= i < j < |c| ==> c[i] != c[j])
    requires forall x :: x in c ==> x in g && x !in done
    requires forall x :: x in c ==> Mutual(g, v, x)
    requires Closed(g, done) && Closed(g, done + Members(c))
    ensures IsClass(g, c)
  {
    hide Reach, Closed, Mutual;
    forall x, y | x in c ensures y in c <==> Mutual(g, x, y) {
      if y in c {
        MutualTrans(g, v, x, y);
      }
      if Mutual(g, x, y) {
        ClosedMeansClass(g, done, Members(c), x, y);
      }
    }
  }

  lemma PartitionGrows(g: Graph, cs: seq<seq<Name>>, done: set<Name>, c: seq<Name>)
    requires Partition(g, cs, done) && IsClass(g, c) && (forall x :: x in c ==> x !in done)
    ensures Partition(g, cs + [c], done + Members(c))
  {
    hide IsClass;
    var all := cs + [c];
    assert forall d :: d in all <==> d in cs || d == c;
    forall x | x in done + Members(c) ensures exists d :: d in all && x in d {
      if x in c {
        assert c in all && x in c;
      } else {
        var d :| d in cs && x in d;
        assert d in all && x in d;
      }
    }
  }

  /** `c` lists the segment from position `m` up, last pushed first. */
  ghost predicate Mirrors(t: State, m: nat, c: seq<Name>) {
    && m <= |t.stack|
    && |c| == |t.stack| - m
    && forall i :: 0 <= i < |c| ==> c[i] == t.stack[|t.stack| - 1 - i]
  }

  lemma MirrorMembers(g: Graph, t: State, m: nat, c: seq<Name>)
    requires Shape(g, t) && Mirrors(t, m, c)
    ensures forall i, j :: 0 <= i < j < |c| ==> c[i] != c[j]
    ensures Members(c) == Members(t.stack[m..])
    ensures forall x :: x in c ==> x in g && x !in t.Done() && x in t.stack[m..] && x in t.stacked
  {
    forall i | m <= i < |t.stack| ensures t.stack[i] in c {
      assert c[|t.stack| - 1 - i] == t.stack[i];
    }
    forall i | 0 <= i < |c| ensures c[i] in t.stack[m..] && c[i] in t.stack {
      assert c[i] == t.stack[m..][|t.stack| - 1 - i - m];
    }
  }

  lemma PoppedKept(g: Graph, t: State, m: nat, i: nat)
    requires Shape(g, t) && i < m <= |t.stack|
    ensures t.stack[i] in t.stacked && t.stack[i] !in t.stack[m..]
  {
    hide Edge;
    OnStack(g, t, i);
    forall j | m <= j < |t.stack| ensures t.stack[j] != t.stack[i] {
      assert t.index[t.stack[i]] < t.index[t.stack[j]];
    }
  }

  lemma PoppedStacked(g: Graph, t: State, m: nat, x: Name)
    requires Shape(g, t) && m <= |t.stack|
    ensures x in t.stack[..m] <==> x in t.stacked && x !in t.stack[m..]
  {
    if x in t.stacked && x !in t.stack[m..] {
      assert t.stack == t.stack[..m] + t.stack[m..];
    }
    if x in t.stack[..m] {
      var i :| 0 <= i < m && t.stack[..m][i] == x;
      PoppedKept(g, t, m, i);
    }
  }

  lemma PoppedShape(g: Graph, t: State, m: nat, c: seq<Name>)
    requires Shape(g, t) && Mirrors(t, m, c)
    ensures Shape(g, Popped(t, m, c))
    ensures Popped(t, m, c).Done() == t.Done() + Members(c)
    ensures forall i :: 0 <= i < m ==> t.stack[i] in Popped(t, m, c).stacked
  {
    hide Mirrors;
    MirrorMembers(g, t, m, c);
    assert m <= |t.stack| by { MirrorBound(t, m, c); }
    var u := Popped(t, m, c);
    forall x ensures x in u.stacked <==> x in u.stack {
      PoppedStacked(g, t, m, x);
    }
    forall i | 0 <= i < m ensures t.stack[i] in u.stacked {
      assert u.stack[i] == t.stack[i];
      assert t.stack[i] in u.stack;
    }
  }

  lemma MirrorBound(t: State, m: nat, c: seq<Name>)
    requires Mirrors(t, m, c)
    ensures m <= |t.stack|
  {
  }

  lemma PoppedAnchor(g: Graph, t: State, u: State, v: Name, gray: set<Name>, y: Name)
    requires gray + {v} <= t.stacked <= t.index.Keys && gray <= u.stacked <= u.index.Keys
    requires u.index == t.index && y in u.stacked && y in t.stacked && v !in u.stacked
    requires Anchored(g, t, gray + {v}, y) && t.index[y] < t.index[v]
    ensures Anchored(g, u, gray, y)
  {
    hide Reach, Anchored;
    var x := AnchorOf(g, t, gray + {v}, y);
    AnchorBy(g, u, gray, y, x);
  }

  lemma PoppedBelow(g: Graph, t: State, m: nat, c: seq<Name>, y: Name)
    requires Shape(g, t) && Mirrors(t, m, c) && m < |t.stack| && y in Popped(t, m, c).stacked
    ensures y in t.stacked && t.index[y] < t.index[t.stack[m]]
  {
    PoppedShape(g, t, m, c);
    assert y in t.stack[..m];
    var i :| 0 <= i < m && t.stack[..m][i] == y;
    assert t.stack[i] == y;
  }

  lemma RootClass(g: Graph, s: State, t: State, v: Name, gray: set<Name>, c: seq<Name>)
    requires v in g && Scanning(g, s, t, v, gray, |g[v]|) && t.low[v] == t.index[v]
    requires Mirrors(t, |s.stack|, c)
    ensures IsClass(g, c) && Closed(g, t.Done() + Members(c))
  {
    hide Reach, Edge, Anchored, LowWitness, Partition, Ascending, Explored, Closed, Handled, Crossing;
    HandledAll(g, s, t, v, gray);
    ExploredOf(g, t, gray + {v});
    FinishedExplored(g, s, t, v, gray, t.low[v]);
    FinishedCrossing(g, s, t, v, t.low[v]);
    SegmentClosed(g, s, t, v, gray, t.index[v]);
    MirrorMembers(g, t, |s.stack|, c);
    assert v == c[|c| - 1];
    forall x | x in c ensures Mutual(g, v, x) {
      SegmentReaches(g, s, t, v, gray, x);
    }
    SegmentIsClass(g, t.Done(), v, c);
  }

  lemma RootAnchors(g: Graph, s: State, t: State, v: Name, gray: set<Name>, c: seq<Name>, y: Name)
    requires Shape(g, t) && Mirrors(t, |s.stack|, c) && |s.stack| < |t.stack| && t.stack[|s.stack|] == v
    requires s.stack <= t.stack && gray + {v} <= t.stacked && (forall x :: x in gray ==> x in s.stack)
    requires forall z :: z in t.stacked ==> Anchored(g, t, gray + {v}, z)
    requires y in Popped(t, |s.stack|, c).stacked
    ensures var u := Popped(t, |s.stack|, c); gray <= u.stacked <= u.index.Keys && Anchored(g, u, gray, y)
  {
    hide Reach, Anchored;
    var m := |s.stack|;
    var u := Popped(t, m, c);
    PoppedShape(g, t, m, c);
    assert t.stack[..m] == s.stack;
    PoppedBelow(g, t, m, c, y);
    MirrorMembers(g, t, m, c);
    assert v == c[|c| - 1];
    PoppedAnchor(g, t, u, v, gray, y);
  }

  lemma RootKeeps(g: Graph, s: State, t: State, v: Name, gray: set<Name>, c: seq<Name>)
    requires v in g && Scanning(g, s, t, v, gray, |g[v]|) && t.low[v] == t.index[v]
    requires Mirrors(t, |s.stack|, c) && IsClass(g, c) && Closed(g, t.Done() + Members(c))
    ensures Inv(g, Popped(t, |s.stack|, c), gray)
  {
    hide Reach, Edge, Anchored, LowWitness, Partition, Explored, Closed, Handled, Crossing, IsClass, Shape;
    HandledAll(g, s, t, v, gray);
    FinishedExplored(g, s, t, v, gray, t.low[v]);
    var m := |s.stack|;
    var u := Popped(t, m, c);
    PoppedShape(g, t, m, c);
    ExploredSame(g, t, u, gray);
    MirrorMembers(g, t, m, c);
    PartitionGrows(g, t.components, t.Done(), c);
    assert t.stack[..m] == s.stack;
    AscendingShrinks(g, t, u);
    forall y | y in u.stacked ensures gray <= u.stacked <= u.index.Keys && Anchored(g, u, gray, y) {
      RootAnchors(g, s, t, v, gray, c, y);
    }
    GrayStays(g, t, u, gray, m);
  }

  lemma ExploredSame(g: Graph, t: State, u: State, gray: set<Name>)
    requires Explored(g, t, gray) && u.index == t.index
    ensures Explored(g, u, gray)
  {
    hide Edge;
  }

  lemma AscendingShrinks(g: Graph, t: State, u: State)
    requires u.stacked <= t.stacked <= t.index.Keys && u.index == t.index && Ascending(g, t)
    ensures Ascending(g, u)
  {
    hide Reach;
  }

  lemma GrayStays(g: Graph, t: State, u: State, gray: set<Name>, m: nat)
    requires m <= |t.stack| && (forall x :: x in gray ==> x in t.stack[..m])
    requires forall i :: 0 <= i < m ==> t.stack[i] in u.stacked
    ensures gray <= u.stacked
  {
  }

  /** A root pops its whole component. */
  lemma FinishRoot(g: Graph, s: State, t: State, v: Name, gray: set<Name>, c: seq<Name>)
    requires v in g && Scanning(g, s, t, v, gray, |g[v]|) && t.low[v] == t.index[v]
    requires Mirrors(t, |s.stack|, c)
    ensures Visited(g, s, Popped(t, |s.stack|, c), v, gray)
  {
    hide Reach, Edge, LowWitness, Handled, Crossing, IsClass, Inv, Closed, Shape;
    RootClass(g, s, t, v, gray, c);
    RootKeeps(g, s, t, v, gray, c);
    HandledAll(g, s, t, v, gray);
    MirrorMembers(g, t, |s.stack|, c);
    assert v == c[|c| - 1];
    var u := Popped(t, |s.stack|, c);
    assert t.stack[..|s.stack|] == s.stack;
    CrossingEmpty(g, u, s.stack, u.low[v]);
  }

  lemma CrossingEmpty(g: Graph, u: State, below: seq<Name>, n: nat)
    requires |u.stack| == |below|
    ensures Crossing(g, u, |below|, below, n)
  {
  }

  // ----- the search itself -----

  lemma VisitReady(g: Graph, s: State, t: State, v: Name, gray: set<Name>, k: nat)
    requires Scanning(g, s, t, v, gray, k) && k < |g[v]| && g[v][k] in g
    requires forall x :: x in gray ==> Reach(g, x, v)
    ensures Inv(g, t, gray + {v})
    ensures forall x :: x in gray + {v} ==> Reach(g, x, g[v][k])
  {
    hide Inv, Reach, LowWitness, Crossing, Handled, Extends;
    ReachEdge(g, v, g[v][k]);
    forall x | x in gray + {v} ensures Reach(g, x, g[v][k]) {
      if x in gray {
        ReachTrans(g, x, v, g[v][k]);
      }
    }
  }

  lemma ScanningDomain(g: Graph, s: State, t: State, v: Name, gray: set<Name>, k: nat)
    requires Scanning(g, s, t, v, gray, k)
    ensures v in t.index && v in t.low && t.index.Keys <= g.Keys && s.index.Keys <= t.index.Keys
    ensures t.low.Keys == t.index.Keys && v !in s.index
    ensures |s.stack| < |t.stack| && t.stack[|s.stack|] == v
    ensures forall i :: 0 <= i < |t.stack| ==> t.stack[i] in t.stacked
    ensures forall i, j :: 0 <= i < j < |t.stack| ==> t.stack[i] != t.stack[j]
    ensures t.stacked == Members(t.stack)
  {
    hide Reach, Edge, LowWitness, Crossing, Handled, Explored, Ascending, Anchored, Closed, Partition;
    forall i | 0 <= i < |t.stack| ensures t.stack[i] in t.stacked {
      OnStack(g, t, i);
    }
  }

  lemma VisitedDomain(g: Graph, s: State, t: State, v: Name, gray: set<Name>)
    requires Visited(g, s, t, v, gray)
    ensures v in t.index && v in t.low && s.index.Keys < t.index.Keys <= g.Keys && s.low.Keys <= t.low.Keys
    ensures Inv(g, t, gray)
  {
    hide Reach, Edge, LowWitness, Crossing, Explored, Ascending, Anchored, Closed, Partition;
  }

  /** The variables `sinkCycles` declares, shared by every call of its recursive closure. */
  class Search {
    const g: Graph
    var nextIndex: nat
    var indices: map<Name, nat>
    var lowLinks: map<Name, nat>
    var stack: seq<Name>
    var stacked: set<Name>
    var components: seq<seq<Name>>

    ghost function S(): State
      reads this
    {
      State(nextIndex, indices, lowLinks, stack, stacked, components)
    }

    constructor (remaining: Graph)
      ensures g == remaining
      ensures S() == State(0, map[], map[], [], {}, [])
    {
      g := remaining;
      nextIndex, indices, lowLinks, stack, stacked, components := 0, map[], map[], [], {}, [];
    }

    /**
     * Explore `v` depth first. Neither "lost its active component" nor "lost an indexed node" can be thrown:
     * every lookup and every pop below is proved to find its element.
     */
    method Visit(v: Name, ghost gray: set<Name>)
      requires v in g && v !in indices
      requires Inv(g, S(), gray) && indices.Keys <= g.Keys
      requires forall x :: x in gray ==> Reach(g, x, v)
      modifies this
      ensures Visited(g, old(S()), S(), v, gray)
      decreases g.Keys - indices.Keys, 0
    {
      hide Inv, Reach, Edge, LowWitness, Crossing, Handled, Extends, Shape, Visited, Scanning, Mirrors;
      ghost var s0 := S();
      IndexedShape(g, s0, gray);
      var index := nextIndex;
      nextIndex := nextIndex + 1;
      indices := indices[v := index];
      lowLinks := lowLinks[v := index];
      stack := stack + [v];
      stacked := stacked + {v};
      EnterScans(g, s0, v, gray);
      var k := 0;
      while k < |g[v]|
        invariant k <= |g[v]|
        invariant Scanning(g, s0, S(), v, gray, k)
      {
        ScanningDomain(g, s0, S(), v, gray, k);
        Follow(v, k, s0, gray);
        k := k + 1;
      }
      ScanningDomain(g, s0, S(), v, gray, k);
      if lowLinks[v] != indices[v] {
        FinishInner(g, s0, S(), v, gray);
        return;
      }
      ghost var t := S();
      var component := PopComponent(v, |s0.stack|);
      FinishRoot(g, s0, t, v, gray, component);
      assert S() == Popped(t, |s0.stack|, component);
    }

    /** One turn of the dependency loop in `visit`. */
    method Follow(v: Name, k: nat, ghost s0: State, ghost gray: set<Name>)
      requires v in g && k < |g[v]|
      requires Shape(g, s0) && Scanning(g, s0, S(), v, gray, k)
      requires forall x :: x in gray ==> Reach(g, x, v)
      modifies this
      ensures Scanning(g, s0, S(), v, gray, k + 1)
      decreases g.Keys - indices.Keys, 1
    {
      hide Inv, Reach, Edge, LowWitness, Crossing, Handled, Extends, Shape, Visited, Scanning;
      ScanningDomain(g, s0, S(), v, gray, k);
      ghost var t := S();
      var target := g[v][k];
      if target !in g {
        SkipAbsent(g, s0, t, v, gray, k);
      } else if target !in indices {
        VisitReady(g, s0, t, v, gray, k);
        Visit(target, gray + {v});
        ghost var u := S();
        LinkChild(g, s0, t, u, v, gray, k);
        lowLinks := lowLinks[v := Min(lowLinks[v], lowLinks[target])];
        assert S() == LowerTo(u, v, u.low[target]);
      } else if target in stacked {
        LinkStacked(g, s0, t, v, gray, k);
        lowLinks := lowLinks[v := Min(lowLinks[v], indices[target])];
        assert S() == LowerTo(t, v, t.index[target]);
      } else {
        SkipDone(g, s0, t, v, gray, k);
      }
    }

    /** The whole of `sinkCycles`: search from every node in `order`, then filter the components. */
    method Run(order: seq<Name>) returns (kept: seq<seq<Name>>)
      requires S() == State(0, map[], map[], [], {}, [])
      requires forall x :: x in order <==> x in g
      modifies this
      ensures Partition(g, components, g.Keys)
      ensures forall c :: c in kept ==> IsClass(g, c)
      ensures forall x :: x in g ==> ((exists c :: c in kept && x in c) <==> Recurrent(g, x))
      ensures forall i, j :: 0 <= i < j < |kept| ==> forall x :: x in kept[i] ==> x !in kept[j]
    {
      hide Reach, Edge, Inv, Partition, Recurrent, IsClass;
      InitialInv(g);
      var i := 0;
      while i < |order|
        invariant i <= |order|
        invariant Inv(g, S(), {}) && indices.Keys <= g.Keys
        invariant forall x :: x in order[..i] ==> x in indices
      {
        if order[i] !in indices {
          ghost var s := S();
          Visit(order[i], {});
          VisitedDomain(g, s, S(), order[i], {});
        }
        i := i + 1;
      }
      Settled(g, S());
      kept := Sinks();
    }

    /** The final `components.filter(...)`. */
    method Sinks() returns (kept: seq<seq<Name>>)
      requires Partition(g, components, g.Keys)
      ensures forall c :: c in kept ==> IsClass(g, c)
      ensures forall x :: x in g ==> ((exists c :: c in kept && x in c) <==> Recurrent(g, x))
      ensures forall i, j :: 0 <= i < j < |kept| ==> forall x :: x in kept[i] ==> x !in kept[j]
    {
      hide Reach, Edge, Recurrent, Kept;
      kept := [];
      ghost var from: seq<nat> := [];
      var i := 0;
      while i < |components|
        invariant i <= |components|
        invariant |from| == |kept| && forall k :: 0 <= k < |from| ==> from[k] < i && kept[k] == components[from[k]]
        invariant forall k, l :: 0 <= k < l < |from| ==> from[k] < from[l]
        invariant forall k :: 0 <= k < |components| ==> IsClass(g, components[k])
        invariant forall k :: 0 <= k < |kept| ==> IsClass(g, kept[k]) && Kept(g, kept[k])
        invariant forall k :: 0 <= k < i && Kept(g, components[k]) ==> k in from
      {
        assert IsClass(g, components[i]);
        if Kept(g, components[i]) {
          kept := kept + [components[i]];
          from := from + [i];
        }
        i := i + 1;
      }
      SinksMeaning(g, components, kept, from);
    }

    /** Pop the finished component off the stack, down to its root `v` at position `m`. */
    method PopComponent(v: Name, ghost m: nat) returns (component: seq<Name>)
      requires m < |stack| && stack[m] == v && stacked == Members(stack)
      requires forall i, j :: 0 <= i < j < |stack| ==> stack[i] != stack[j]
      modifies this
      ensures Mirrors(old(S()), m, component)
      ensures S() == Popped(old(S()), m, component)
    {
      hide Members;
      ghost var whole := stack;
      var first := stack[|stack| - 1];
      stack := stack[..|stack| - 1];
      stacked := stacked - {first};
      component := [first];
      var member := first;
      MembersPop(whole, |whole| - 1);
      while member != v
        invariant m <= |stack| == |whole| - |component| && stack == whole[..|stack|]
        invariant |component| > 0 && member == whole[|stack|]
        invariant forall i :: 0 <= i < |component| ==> component[i] == whole[|whole| - 1 - i]
        invariant stacked == Members(stack)
        invariant nextIndex == old(nextIndex) && indices == old(indices) && lowLinks == old(lowLinks)
        invariant components == old(components)
        decreases |stack|
      {
        var next := stack[|stack| - 1];
        MembersPop(whole, |stack| - 1);
        stack := stack[..|stack| - 1];
        stacked := stacked - {next};
        component := component + [next];
        member := next;
      }
      components := components + [component];
      MembersSplit(whole, m);
    }
  }

  // ----- what the components mean -----

  /** `x` lies on a cycle of its own class, possibly a self-loop. */
  ghost predicate OnCycle(g: Graph, x: Name) {
    exists y :: Edge(g, x, y) && Reach(g, y, x)
  }

  /** `x` lies on a cycle and can always return: nothing it reaches lies outside its class. */
  ghost predicate Recurrent(g: Graph, x: Name) {
    OnCycle(g, x) && forall y :: Reach(g, x, y) ==> Reach(g, y, x)
  }

  /** The filter `sinkCycles` applies to a component. */
  predicate Kept(g: Graph, c: seq<Name>)
    requires |c| > 0 && forall x :: x in c ==> x in g
  {
    && (|c| > 1 || c[0] in g[c[0]])
    && Contained(g, c)
  }

  predicate Contained(g: Graph, c: seq<Name>)
    requires forall x :: x in c ==> x in g
  {
    forall x :: x in c ==> forall d :: d in g[x] ==> d !in g || d in c
  }

  lemma StepOut(g: Graph, x: Name, y: Name)
    requires Reach(g, x, y) && x != y
    ensures exists z :: Edge(g, x, z) && Reach(g, z, y)
  {
    var n: nat :| ReachIn(g, x, y, n);
    var z :| Edge(g, x, z) && ReachIn(g, z, y, n - 1);
    assert Reach(g, z, y);
  }

  lemma ClassOnCycle(g: Graph, c: seq<Name>, x: Name)
    requires IsClass(g, c) && x in c
    ensures OnCycle(g, x) <==> |c| > 1 || c[0] in g[c[0]]
  {
    hide Reach;
    if |c| > 1 {
      var y := if c[0] == x then c[1] else c[0];
      assert y in c && Mutual(g, x, y);
      StepOut(g, x, y);
      var z :| Edge(g, x, z) && Reach(g, z, y);
      ReachTrans(g, z, y, x);
    } else if c[0] in g[c[0]] {
      ReachRefl(g, x);
      assert Edge(g, x, x);
    } else {
      forall y | Edge(g, x, y) ensures !Reach(g, y, x) {
        ReachEdge(g, x, y);
        assert y !in c && !Mutual(g, x, y);
      }
    }
  }

  lemma ClassClosed(g: Graph, c: seq<Name>)
    requires forall x :: x in c ==> x in g
    ensures Contained(g, c) <==> Closed(g, Members(c))
  {
    if Closed(g, Members(c)) {
      forall x, d | x in c && d in g[x] ensures d !in g || d in c {
        assert d in g ==> Edge(g, x, d);
      }
    }
  }

  /** The filter keeps a component exactly when its nodes are recurrent. */
  lemma KeptIsRecurrent(g: Graph, c: seq<Name>, x: Name)
    requires IsClass(g, c) && x in c
    ensures Kept(g, c) <==> Recurrent(g, x)
  {
    hide Reach, Closed;
    ClassOnCycle(g, c, x);
    ClassClosed(g, c);
    if Closed(g, Members(c)) {
      forall y | Reach(g, x, y) ensures Reach(g, y, x) {
        ReachStays(g, Members(c), x, y);
        assert Mutual(g, x, y);
      }
    } else if forall y :: Reach(g, x, y) ==> Reach(g, y, x) {
      ReturningIsClosed(g, c, x);
    }
  }

  lemma ReturningIsClosed(g: Graph, c: seq<Name>, x: Name)
    requires IsClass(g, c) && x in c && forall y :: Reach(g, x, y) ==> Reach(g, y, x)
    ensures Closed(g, Members(c))
  {
    hide Reach;
    forall y, z | y in c && Edge(g, y, z) ensures z in c {
      assert Mutual(g, x, y);
      ReachEdge(g, y, z);
      ReachTrans(g, x, y, z);
      assert Mutual(g, x, z);
    }
  }

  lemma InitialInv(g: Graph)
    ensures Inv(g, State(0, map[], map[], [], {}, []), {})
  {
  }

  lemma Settled(g: Graph, s: State)
    requires Inv(g, s, {}) && s.index.Keys == g.Keys
    ensures Partition(g, s.components, g.Keys)
  {
    hide Reach, Edge, Partition;
    assert forall y :: y in s.stacked ==> Anchored(g, s, {}, y);
    assert s.stacked == {};
    assert s.Done() == g.Keys;
  }

  lemma SinksMeaning(g: Graph, cs: seq<seq<Name>>, kept: seq<seq<Name>>, from: seq<nat>)
    requires Partition(g, cs, g.Keys)
    requires |from| == |kept| && forall k :: 0 <= k < |from| ==> from[k] < |cs| && kept[k] == cs[from[k]]
    requires forall k :: 0 <= k < |cs| ==> IsClass(g, cs[k])
    requires forall k :: 0 <= k < |kept| ==> Kept(g, kept[k])
    requires forall k :: 0 <= k < |cs| && Kept(g, cs[k]) ==> k in from
    ensures forall c :: c in kept ==> IsClass(g, c)
    ensures forall x :: x in g ==> ((exists c :: c in kept && x in c) <==> Recurrent(g, x))
  {
    hide Reach, Edge, Recurrent, Kept, IsClass;
    forall x | x in g ensures (exists c :: c in kept && x in c) <==> Recurrent(g, x) {
      var d :| d in cs && x in d;
      var i :| 0 <= i < |cs| && cs[i] == d;
      KeptIsRecurrent(g, d, x);
      if Recurrent(g, x) {
        var k :| 0 <= k < |from| && from[k] == i;
        assert kept[k] == d;
      }
      if c :| c in kept && x in c {
        KeptIsRecurrent(g, c, x);
      }
    }
  }

  lemma MembersPop(s: seq<Name>, k: nat)
    requires k < |s| && forall i, j :: 0 <= i < j < |s| ==> s[i] != s[j]
    ensures Members(s[..k]) == Members(s[..k + 1]) - {s[k]}
    ensures s[..|s|] == s
  {
    assert s[..k + 1] == s[..k] + [s[k]];
  }

  lemma MembersSplit(s: seq<Name>, m: nat)
    requires m <= |s| && forall i, j :: 0 <= i < j < |s| ==> s[i] != s[j]
    ensures Members(s[..m]) == Members(s) - Members(s[m..])
  {
    assert s == s[..m] + s[m..];
  }
}
