/** Which packages the resolution benchmark may change: those its target reaches that still carry foreign peers. */
module BenchmarkCandidates {

  import opened Ordering
  import opened Reachability

  type Version = string

  /** The dependency fields of a published manifest; a peer is mapped to whether it is optional. */
  datatype Manifest = Manifest(dependencies: set<Name>, optionalDependencies: set<Name>, peers: map<Name, bool>)

  type RegistryIndex = map<Name, map<Version, Manifest>>

  const TARGET_PACKAGE: Name := "@deepseek-ai/dsh"

  const CORDIS: Name := "@deepseek-ai/cordis"

  /** The package has a workspace version, and the registry index a manifest for it. */
  predicate Known(index: RegistryIndex, versions: map<Name, Version>, name: Name) {
    name in versions && name in index && versions[name] in index[name]
  }

  function ManifestOf(index: RegistryIndex, versions: map<Name, Version>, name: Name): Manifest
    requires Known(index, versions, name)
  {
    index[name][versions[name]]
  }

  /** What npm installs beside a package. */
  function Installed(m: Manifest): set<Name> {
    m.dependencies + m.optionalDependencies + (set peer | peer in m.peers && !m.peers[peer])
  }

  /** A regular or optional dependency, or a peer that is not optional. */
  ghost predicate Installs(m: Manifest, n: Name) {
    n in m.dependencies || n in m.optionalDependencies || (n in m.peers && !m.peers[n])
  }

  lemma InstalledExactly(m: Manifest, n: Name)
    ensures n in Installed(m) <==> Installs(m, n)
  {
  }

  /** Every known package with what it installs. */
  ghost function InstallGraph(index: RegistryIndex, versions: map<Name, Version>, less: (Name, Name) -> bool): Graph
    requires StrictOrder(less)
  {
    map name | name in versions && Known(index, versions, name) ::
      Listing(Installed(ManifestOf(index, versions, name)), less)
  }

  lemma InstallEdge(index: RegistryIndex, versions: map<Name, Version>, less: (Name, Name) -> bool, x: Name, y: Name)
    requires StrictOrder(less)
    ensures Edge(InstallGraph(index, versions, less), x, y) <==>
            Known(index, versions, x) && Known(index, versions, y) && Installs(ManifestOf(index, versions, x), y)
  {
    hide Installed, Installs;
    if Known(index, versions, x) {
      ListingMembers(Installed(ManifestOf(index, versions, x)), less);
      InstalledExactly(ManifestOf(index, versions, x), y);
    }
  }

  predicate HasForeignPeer(m: Manifest) {
    exists peer :: peer in m.peers && peer != CORDIS
  }

  /** A released package, outside the policy, reached from the target, with a peer other than Cordis. */
  ghost predicate IsCandidate(index: RegistryIndex, versions: map<Name, Version>, released: set<Name>,
                              policy: set<Name>, less: (Name, Name) -> bool, name: Name)
    requires StrictOrder(less)
  {
    && Reach(InstallGraph(index, versions, less), TARGET_PACKAGE, name)
    && name in released && name !in policy
    && Known(index, versions, name)
    && exists peer :: peer in ManifestOf(index, versions, name).peers && peer != CORDIS
  }

  // ----- the search -----

  /** Everything reached or queued came along a path; every package reached has all it installs reached or queued. */
  ghost predicate Searching(g: Graph, reached: set<Name>, waiting: seq<Name>) {
    && reached <= g.Keys
    && (forall x :: x in reached ==> Reach(g, TARGET_PACKAGE, x))
    && (forall y :: y in waiting && y in g ==> Reach(g, TARGET_PACKAGE, y))
    && (TARGET_PACKAGE in g ==> TARGET_PACKAGE in reached || TARGET_PACKAGE in waiting)
    && (forall x, y :: x in reached && Edge(g, x, y) ==> y in reached || y in waiting)
  }

  lemma SearchStarts(g: Graph)
    ensures Searching(g, {}, [TARGET_PACKAGE])
  {
    hide Reach;
    if TARGET_PACKAGE in g {
      ReachRefl(g, TARGET_PACKAGE);
    }
  }

  lemma SkipOne(g: Graph, reached: set<Name>, waiting: seq<Name>)
    requires waiting != [] && Searching(g, reached, waiting)
    requires waiting[0] in reached || waiting[0] !in g
    ensures Searching(g, reached, waiting[1..])
  {
    hide Reach;
    assert waiting == [waiting[0]] + waiting[1..];
  }

  lemma ReachOne(g: Graph, reached: set<Name>, waiting: seq<Name>, more: seq<Name>)
    requires waiting != [] && Searching(g, reached, waiting) && waiting[0] in g
    requires forall y :: y in more ==> y in g[waiting[0]]
    requires forall y :: y in g[waiting[0]] ==> y in more || y in reached + {waiting[0]}
    ensures Searching(g, reached + {waiting[0]}, waiting[1..] + more)
  {
    hide Reach;
    var x := waiting[0];
    assert waiting == [x] + waiting[1..];
    forall y | y in more && y in g ensures Reach(g, TARGET_PACKAGE, y) {
      ReachEdge(g, x, y);
      ReachTrans(g, TARGET_PACKAGE, x, y);
    }
  }

  /** With nothing waiting, exactly what the target reaches has been reached. */
  lemma SearchEnds(g: Graph, reached: set<Name>, name: Name)
    requires Searching(g, reached, [])
    ensures name in reached <==> Reach(g, TARGET_PACKAGE, name)
  {
    hide Reach;
    if Reach(g, TARGET_PACKAGE, name) {
      ReachDomain(g, TARGET_PACKAGE, name);
      ReachStays(g, reached, TARGET_PACKAGE, name);
    }
  }

  method ReachFromTarget(index: RegistryIndex, versions: map<Name, Version>, less: (Name, Name) -> bool)
    returns (reached: set<Name>)
    requires StrictOrder(less)
    ensures forall name :: name in reached <==> Reach(InstallGraph(index, versions, less), TARGET_PACKAGE, name)
  {
    hide Reach, Searching, InstallGraph, Installed;
    ghost var g := InstallGraph(index, versions, less);
    GraphMembers(index, versions, less);
    reached := {};
    var queue, cursor := [TARGET_PACKAGE], 0;
    SearchStarts(g);
    while cursor < |queue|
      invariant cursor <= |queue| && reached <= g.Keys
      invariant Searching(g, reached, queue[cursor..])
      decreases g.Keys - reached, |queue| - cursor
    {
      var name := queue[cursor];
      assert queue[cursor..][1..] == queue[cursor + 1..];
      if name in reached || !Known(index, versions, name) {
        SkipOne(g, reached, queue[cursor..]);
      } else {
        var names := SortedNames(Installed(ManifestOf(index, versions, name)), less);
        var more := Unreached(names, reached + {name});
        ReachOne(g, reached, queue[cursor..], more);
        reached := reached + {name};
        assert (queue + more)[cursor + 1..] == queue[cursor + 1..] + more;
        queue := queue + more;
      }
      cursor := cursor + 1;
    }
    assert queue[cursor..] == [];
    forall name ensures name in reached <==> Reach(g, TARGET_PACKAGE, name) {
      SearchEnds(g, reached, name);
    }
  }

  lemma GraphMembers(index: RegistryIndex, versions: map<Name, Version>, less: (Name, Name) -> bool)
    requires StrictOrder(less)
    ensures var g := InstallGraph(index, versions, less);
            && (forall name :: name in g <==> Known(index, versions, name))
            && (forall name :: name in g ==> g[name] == Listing(Installed(ManifestOf(index, versions, name)), less))
  {
    hide Installed, Listing;
  }

  /** `Object.keys(record).sort()` */
  method SortedNames(s: set<Name>, less: (Name, Name) -> bool) returns (names: seq<Name>)
    requires StrictOrder(less)
    ensures names == Listing(s, less)
  {
    var found, rest := [], s;
    while rest != {}
      invariant rest <= s && Distinct(found) && forall x :: x in found <==> x in s - rest
      decreases rest
    {
      var x :| x in rest;
      assert x !in found;
      found, rest := found + [x], rest - {x};
    }
    var leq := (a: Name, b: Name) => !less(b, a);
    SortedListing(found, s, less, leq);
    names := SortBy(found, leq);
  }

  method Unreached(names: seq<Name>, reached: set<Name>) returns (more: seq<Name>)
    ensures forall x :: x in more <==> x in names && x !in reached
  {
    more := [];
    for i := 0 to |names|
      invariant forall x :: x in more <==> x in names[..i] && x !in reached
    {
      assert names[..i + 1] == names[..i] + [names[i]];
      if names[i] !in reached {
        more := more + [names[i]];
      }
    }
    assert names[..|names|] == names;
  }

  /** The candidates, each once and in order. */
  method DiscoverBenchmarkCandidates(index: RegistryIndex, versions: map<Name, Version>, released: set<Name>,
                                     policy: set<Name>, less: (Name, Name) -> bool)
    returns (candidates: seq<Name>)
    requires StrictOrder(less)
    ensures forall name :: name in candidates <==> IsCandidate(index, versions, released, policy, less, name)
    ensures Ascends(candidates, less)
  {
    hide Reach, InstallGraph, Installed;
    var reached := ReachFromTarget(index, versions, less);
    var kept := set name | name in reached && name !in policy && name in released
                           && Known(index, versions, name) && HasForeignPeer(ManifestOf(index, versions, name));
    candidates := SortedNames(kept, less);
    ListingMembers(kept, less);
    ListingAscends(kept, less);
  }
}
