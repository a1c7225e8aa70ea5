/** Dependency-first package ordering: `topoSort`, its comparator, and the order it is proved to produce. */
module PackageOrder {
  import opened Reachability
  import opened Ordering
  import Decimal
  import SinkCycles
  import Text

  datatype Package = Package(short: Name, group: string, deps: seq<Name>)

  datatype Error =
    | MissingPeer(package: Name, dependency: Name)
    | CouldNotOrder

  datatype Result = Ordered(packages: seq<Package>) | Failed(error: Error)

  // ----- the comparator -----

  function Rank(group: string, groupOrder: seq<string>): int {
    var i := Text.IndexOf(groupOrder, group, 0);
    if i == -1 then Decimal.MAX_SAFE_INTEGER else i
  }

  function Compare(a: Package, b: Package, groupOrder: seq<string>, locale: (string, string) -> int): int {
    var byRank := Rank(a.group, groupOrder) - Rank(b.group, groupOrder);
    var byGroup := locale(a.group, b.group);
    if byRank != 0 then byRank
    else if byGroup != 0 then byGroup
    else locale(a.short, b.short)
  }

  function Leq(groupOrder: seq<string>, locale: (string, string) -> int): (Package, Package) -> bool {
    (a, b) => Compare(a, b, groupOrder, locale) <= 0
  }

  lemma ComparePreorder(groupOrder: seq<string>, locale: (string, string) -> int)
    requires LocaleOrder(locale)
    ensures TotalPreorder(Leq(groupOrder, locale))
  {
    hide Rank;
  }

  /** Packages that compare equal carry the same name, so distinct names are strictly ordered. */
  lemma CompareSeparates(a: Package, b: Package, groupOrder: seq<string>, locale: (string, string) -> int)
    requires LocaleOrder(locale)
    ensures Compare(a, b, groupOrder, locale) == 0 ==> a.short == b.short
    ensures Compare(a, b, groupOrder, locale) < 0 <==> Compare(b, a, groupOrder, locale) > 0
  {
    hide Rank;
  }

  /** Which of two packages stands first: listed groups in their order, then the others by name; then short names. */
  ghost predicate Precedes(a: Package, b: Package, groupOrder: seq<string>, locale: (string, string) -> int) {
    if a.group == b.group then locale(a.short, b.short) < 0
    else if a.group in groupOrder && b.group in groupOrder then ListedBefore(a.group, b.group, groupOrder)
    else if a.group in groupOrder then true
    else if b.group in groupOrder then false
    else locale(a.group, b.group) < 0
  }

  ghost predicate ListedBefore(g: string, h: string, groupOrder: seq<string>) {
    exists i :: 0 <= i < |groupOrder| && groupOrder[i] == g && forall j :: 0 <= j <= i ==> groupOrder[j] != h
  }

  /** That is what the comparator decides; no array is longer than the rank it gives unlisted groups. */
  lemma ComparePrecedes(a: Package, b: Package, groupOrder: seq<string>, locale: (string, string) -> int)
    requires LocaleOrder(locale) && |groupOrder| <= Decimal.MAX_SAFE_INTEGER
    ensures Compare(a, b, groupOrder, locale) < 0 <==> Precedes(a, b, groupOrder, locale)
  {
    hide LocaleOrder, Text.IndexOf;
    assert locale(a.group, b.group) == 0 <==> a.group == b.group by {
      LocaleEqual(locale, a.group, b.group);
    }
    RankListed(a.group, groupOrder);
    RankListed(b.group, groupOrder);
    if a.group != b.group && a.group in groupOrder && b.group in groupOrder {
      RankOrders(a.group, b.group, groupOrder);
    }
  }

  lemma LocaleEqual(locale: (string, string) -> int, a: string, b: string)
    requires LocaleOrder(locale)
    ensures locale(a, b) == 0 <==> a == b
  {
  }

  lemma RankListed(g: string, groupOrder: seq<string>)
    ensures if g in groupOrder then 0 <= Rank(g, groupOrder) < |groupOrder|
            else Rank(g, groupOrder) == Decimal.MAX_SAFE_INTEGER
  {
  }

  lemma RankOrders(g: string, h: string, groupOrder: seq<string>)
    requires g != h && g in groupOrder && h in groupOrder
    ensures Rank(g, groupOrder) < Rank(h, groupOrder) <==> ListedBefore(g, h, groupOrder)
  {
    hide Text.IndexOf;
    RankListed(g, groupOrder);
    RankListed(h, groupOrder);
    var i, j := Rank(g, groupOrder), Rank(h, groupOrder);
    assert groupOrder[i] == g && groupOrder[j] == h;
  }

  // ----- the package map -----

  /** `new Map(packages.map(...))`: a repeated name keeps its last package. */
  function ByName(ps: seq<Package>): map<Name, Package> {
    if ps == [] then map[] else ByName(ps[..|ps| - 1])[ps[|ps| - 1].short := ps[|ps| - 1]]
  }

  /** The iteration order of that map: a name keeps the position of its first insertion. */
  function KeyOrder(ps: seq<Package>): seq<Name> {
    if ps == [] then []
    else
      var before, last := KeyOrder(ps[..|ps| - 1]), ps[|ps| - 1].short;
      if last in before then before else before + [last]
  }

  lemma {:induction false} ByNameKeys(ps: seq<Package>)
    ensures forall n :: n in ByName(ps) <==> n in KeyOrder(ps)
    ensures Distinct(KeyOrder(ps))
    ensures forall n :: n in ByName(ps) ==> ByName(ps)[n].short == n && ByName(ps)[n] in ps
    ensures forall p :: p in ps ==> p.short in ByName(ps)
  {
    if ps == [] {
    } else {
      ByNameKeys(ps[..|ps| - 1]);
      assert ps == ps[..|ps| - 1] + [ps[|ps| - 1]];
    }
  }

  /** A name stands for the last package that carries it. */
  lemma {:induction false} LastWins(ps: seq<Package>, n: Name) returns (i: nat)
    requires n in ByName(ps)
    ensures i < |ps| && ps[i] == ByName(ps)[n] && ps[i].short == n
    ensures forall j :: i < j < |ps| ==> ps[j].short != n
  {
    var k := |ps| - 1;
    if ps[k].short == n {
      i := k;
    } else {
      i := LastWins(ps[..k], n);
    }
  }

  /** The dependency graph of a package map. */
  function GraphOf(m: map<Name, Package>): Graph {
    map n | n in m :: m[n].deps
  }

  /** The graph restricted to the nodes in `s`. */
  function Induced(g: Graph, s: set<Name>): Graph {
    map n | n in g && n in s :: g[n]
  }

  // ----- the order as a function of nodes and edges -----

  /** Nodes with no dependency left among `rest`. */
  ghost function Ready(g: Graph, rest: set<Name>): set<Name>
    requires rest <= g.Keys
  {
    set n | n in rest && forall d :: d in g[n] ==> d !in rest
  }

  ghost function RecurrentSet(h: Graph): set<Name> {
    set n | n in h && SinkCycles.Recurrent(h, n)
  }

  ghost function ClassOf(h: Graph, x: Name): set<Name> {
    set n | n in h && Mutual(h, x, n)
  }

  ghost function ReachSet(h: Graph, x: Name): set<Name> {
    set n | n in h && Reach(h, x, n)
  }

  /** Following edges always ends in a class that cannot be left. */
  lemma {:induction false} Returning(h: Graph, x: Name) returns (y: Name)
    requires x in h
    ensures y in h && forall z :: Reach(h, y, z) ==> Reach(h, z, y)
    decreases ReachSet(h, x)
  {
    hide Reach;
    if forall z :: Reach(h, x, z) ==> Reach(h, z, x) {
      y := x;
    } else {
      var z :| Reach(h, x, z) && !Reach(h, z, x);
      ReachDomain(h, x, z);
      ReachRefl(h, x);
      forall w | w in ReachSet(h, z) ensures w in ReachSet(h, x) {
        ReachTrans(h, x, z, w);
      }
      assert x in ReachSet(h, x) && x !in ReachSet(h, z);
      y := Returning(h, z);
    }
  }

  /** With no node ready, some cycle has no edge out of itself: the fallback always finds one. */
  lemma BlockedHasRecurrent(g: Graph, rest: set<Name>)
    requires rest <= g.Keys && rest != {} && Ready(g, rest) == {}
    ensures RecurrentSet(Induced(g, rest)) != {}
  {
    hide Reach;
    var h := Induced(g, rest);
    var x :| x in rest;
    var y := Returning(h, x);
    assert y !in Ready(g, rest);
    var d :| d in g[y] && d in rest;
    ReachEdge(h, y, d);
    assert SinkCycles.OnCycle(h, y);
    assert y in RecurrentSet(h);
  }

  /** The next batch: every ready node, or else the least cycle that depends on nothing outside itself. */
  ghost function Batch(g: Graph, rest: set<Name>, less: (Name, Name) -> bool): set<Name>
    requires rest <= g.Keys && rest != {} && StrictTotal(less, rest)
  {
    if Ready(g, rest) != {} then Ready(g, rest) else
      BlockedHasRecurrent(g, rest);
      var h := Induced(g, rest);
      ClassOf(h, Least(RecurrentSet(h), less))
  }

  lemma BatchProgress(g: Graph, rest: set<Name>, less: (Name, Name) -> bool)
    requires rest <= g.Keys && rest != {} && StrictTotal(less, rest)
    ensures Batch(g, rest, less) != {} && Batch(g, rest, less) <= rest
  {
    hide Reach, SinkCycles.Recurrent;
    if Ready(g, rest) == {} {
      BlockedHasRecurrent(g, rest);
      var h := Induced(g, rest);
      var m := Least(RecurrentSet(h), less);
      ReachRefl(h, m);
      assert m in ClassOf(h, m);
    }
  }

  /** The names of `topoSort`'s output, as a function of the node set and the edges alone. */
  ghost function Order(g: Graph, rest: set<Name>, less: (Name, Name) -> bool): seq<Name>
    requires rest <= g.Keys && StrictTotal(less, rest)
    decreases rest
  {
    if rest == {} then [] else
      BatchProgress(g, rest, less);
      var b := Batch(g, rest, less);
      Listing(b, less) + Order(g, rest - b, less)
  }

  /** Two graphs with the same nodes and the same edges, however each dependency list is arranged. */
  ghost predicate SameEdges(g: Graph, h: Graph) {
    && g.Keys == h.Keys
    && forall x :: x in g ==> forall y :: y in g[x] <==> y in h[x]
  }

  lemma {:induction false} SameReachIn(g: Graph, h: Graph, x: Name, y: Name, n: nat)
    requires SameEdges(g, h) && ReachIn(g, x, y, n)
    ensures ReachIn(h, x, y, n)
    decreases n
  {
    if n == 0 {
    } else {
      var z :| Edge(g, x, z) && ReachIn(g, z, y, n - 1);
      SameReachIn(g, h, z, y, n - 1);
      assert Edge(h, x, z);
    }
  }

  lemma SameReach(g: Graph, h: Graph, x: Name, y: Name)
    requires SameEdges(g, h)
    ensures Reach(g, x, y) <==> Reach(h, x, y)
  {
    if Reach(g, x, y) {
      var n: nat :| ReachIn(g, x, y, n);
      SameReachIn(g, h, x, y, n);
    }
    if Reach(h, x, y) {
      var n: nat :| ReachIn(h, x, y, n);
      SameReachIn(h, g, x, y, n);
    }
  }

  lemma SameRecurrent(g: Graph, h: Graph, x: Name)
    requires SameEdges(g, h)
    ensures SinkCycles.Recurrent(g, x) <==> SinkCycles.Recurrent(h, x)
  {
    hide Reach;
    forall y, z ensures Reach(g, y, z) <==> Reach(h, y, z) {
      SameReach(g, h, y, z);
    }
    forall y ensures Edge(g, x, y) <==> Edge(h, x, y) {
    }
  }

  /** The order depends only on the nodes, the edges, and how the comparator ranks the nodes. */
  lemma {:induction false} Canonical(g: Graph, h: Graph, rest: set<Name>,
                                     less: (Name, Name) -> bool, other: (Name, Name) -> bool)
    requires SameEdges(g, h) && rest <= g.Keys && StrictTotal(less, rest)
    requires forall a, b :: a in rest && b in rest ==> less(a, b) == other(a, b)
    ensures StrictTotal(other, rest)
    ensures Order(g, rest, less) == Order(h, rest, other)
    decreases rest
  {
    hide Reach, SinkCycles.Recurrent;
    if rest != {} {
      SameBatch(g, h, rest, less, other);
      BatchProgress(g, rest, less);
      var b := Batch(g, rest, less);
      ListingSame(b, less, other);
      Canonical(g, h, rest - b, less, other);
    }
  }

  lemma SameBatch(g: Graph, h: Graph, rest: set<Name>, less: (Name, Name) -> bool, other: (Name, Name) -> bool)
    requires SameEdges(g, h) && rest <= g.Keys && rest != {} && StrictTotal(less, rest) && StrictTotal(other, rest)
    requires forall a, b :: a in rest && b in rest ==> less(a, b) == other(a, b)
    ensures Batch(g, rest, less) == Batch(h, rest, other)
  {
    hide Reach, SinkCycles.Recurrent;
    assert Ready(g, rest) == Ready(h, rest);
    if Ready(g, rest) == {} {
      var gi, hi := Induced(g, rest), Induced(h, rest);
      BlockedHasRecurrent(g, rest);
      forall x ensures SinkCycles.Recurrent(gi, x) <==> SinkCycles.Recurrent(hi, x) {
        SameRecurrent(gi, hi, x);
      }
      assert RecurrentSet(gi) == RecurrentSet(hi);
      var m, n := Least(RecurrentSet(gi), less), Least(RecurrentSet(hi), other);
      assert m == n;
      forall y ensures Mutual(gi, m, y) <==> Mutual(hi, m, y) {
        SameReach(gi, hi, m, y);
        SameReach(gi, hi, y, m);
      }
    }
  }

  // ----- the sort -----

  function Names(ps: seq<Package>): seq<Name> {
    seq(|ps|, i requires 0 <= i < |ps| => ps[i].short)
  }

  /** The comparator seen on the names of a package map. */
  function NameLess(m: map<Name, Package>, groupOrder: seq<string>, locale: (string, string) -> int)
    : (Name, Name) -> bool
  {
    (a, b) => a in m && b in m && Compare(m[a], m[b], groupOrder, locale) < 0
  }

  /** Every key names its own package. */
  ghost predicate Keyed(m: map<Name, Package>) {
    forall n :: n in m ==> m[n].short == n
  }

  /** Packages of `m`, no name twice. */
  ghost predicate Selection(m: map<Name, Package>, ps: seq<Package>) {
    && Distinct(Names(ps))
    && forall p :: p in ps ==> p.short in m && m[p.short] == p
  }

  lemma NameLessStrict(m: map<Name, Package>, groupOrder: seq<string>, locale: (string, string) -> int, s: set<Name>)
    requires LocaleOrder(locale) && Keyed(m) && s <= m.Keys
    ensures StrictTotal(NameLess(m, groupOrder, locale), s)
  {
    hide Compare, LocaleOrder;
    ComparePreorder(groupOrder, locale);
    forall a, b | a in s && b in s
      ensures Compare(m[a], m[b], groupOrder, locale) == 0 ==> a == b
      ensures Compare(m[a], m[b], groupOrder, locale) < 0 <==> Compare(m[b], m[a], groupOrder, locale) > 0
    {
      CompareSeparates(m[a], m[b], groupOrder, locale);
    }
    forall a, b, c | a in s && b in s && c in s
      ensures Compare(m[a], m[b], groupOrder, locale) < 0 && Compare(m[b], m[c], groupOrder, locale) < 0
              ==> Compare(m[a], m[c], groupOrder, locale) < 0
    {
      var leq := Leq(groupOrder, locale);
      assert leq(m[a], m[b]) && leq(m[b], m[c]) ==> leq(m[a], m[c]);
      assert leq(m[b], m[c]) && leq(m[c], m[a]) ==> leq(m[b], m[a]);
    }
  }

  /** Sorted packages of `m` list their names in strict comparator order. */
  lemma SortedIsListing(m: map<Name, Package>, ps: seq<Package>, s: set<Name>,
                        groupOrder: seq<string>, locale: (string, string) -> int)
    requires LocaleOrder(locale) && Keyed(m) && Selection(m, ps) && s <= m.Keys
    requires forall n :: n in s <==> n in Names(ps)
    requires Sorted(ps, Leq(groupOrder, locale))
    ensures StrictTotal(NameLess(m, groupOrder, locale), s)
    ensures Names(ps) == Listing(s, NameLess(m, groupOrder, locale))
  {
    hide Compare, LocaleOrder;
    NameLessStrict(m, groupOrder, locale, s);
    var less := NameLess(m, groupOrder, locale);
    forall i, j | 0 <= i < j < |ps| ensures less(Names(ps)[i], Names(ps)[j]) {
      assert Names(ps)[i] != Names(ps)[j];
      assert Leq(groupOrder, locale)(ps[i], ps[j]);
      CompareSeparates(ps[i], ps[j], groupOrder, locale);
      assert ps[i] in ps && ps[j] in ps;
    }
    ListingUnique(Names(ps), s, less);
  }

  lemma NamesMember(ps: seq<Package>, n: Name)
    ensures n in Names(ps) <==> exists p :: p in ps && p.short == n
  {
    if n in Names(ps) {
      var i :| 0 <= i < |ps| && Names(ps)[i] == n;
      assert ps[i] in ps;
    }
    if p :| p in ps && p.short == n {
      var i :| 0 <= i < |ps| && ps[i] == p;
      assert Names(ps)[i] == n;
    }
  }

  lemma SelectionDistinct(ps: seq<Package>)
    requires Distinct(Names(ps))
    ensures Distinct(ps)
  {
    forall i, j | 0 <= i < j < |ps| ensures ps[i] != ps[j] {
      assert Names(ps)[i] != Names(ps)[j];
    }
  }

  /** A permutation of a selection is a selection of the same names. */
  lemma PermutedSelection(m: map<Name, Package>, ps: seq<Package>, qs: seq<Package>)
    requires Selection(m, ps) && multiset(ps) == multiset(qs)
    ensures Selection(m, qs)
    ensures forall n :: n in Names(ps) <==> n in Names(qs)
  {
    forall p ensures p in ps <==> p in qs {
      PermutedMember(ps, qs, p);
    }
    forall n ensures n in Names(ps) <==> n in Names(qs) {
      NamesMember(ps, n);
      NamesMember(qs, n);
    }
    SelectionDistinct(ps);
    PermutedDistinct(ps, qs);
    forall i, j | 0 <= i < j < |qs| ensures Names(qs)[i] != Names(qs)[j] {
      assert qs[i] in qs && qs[j] in qs;
    }
  }

  // ----- choosing a cycle -----

  function Packages(m: map<Name, Package>, c: seq<Name>): (ps: seq<Package>)
    requires forall n :: n in c ==> n in m
    ensures |ps| == |c|
  {
    seq(|c|, i requires 0 <= i < |c| => m[c[i]])
  }

  /** Order components by their first package, as the outer sort does; components are never empty. */
  function HeadLeq(leq: (Package, Package) -> bool): (seq<Package>, seq<Package>) -> bool {
    (a, b) => a == [] || (b != [] && leq(a[0], b[0]))
  }

  lemma HeadPreorder(leq: (Package, Package) -> bool)
    requires TotalPreorder(leq)
    ensures TotalPreorder(HeadLeq(leq))
  {
  }

  lemma ComponentSelection(m: map<Name, Package>, c: seq<Name>)
    requires Keyed(m) && Distinct(c) && forall n :: n in c ==> n in m
    ensures Names(Packages(m, c)) == c
    ensures Selection(m, Packages(m, c))
  {
    var ps := Packages(m, c);
    forall i | 0 <= i < |c| ensures ps[i].short == c[i] {
      assert c[i] in c;
    }
    forall p | p in ps ensures p.short in m && m[p.short] == p {
      var i :| 0 <= i < |ps| && ps[i] == p;
      assert c[i] in c;
    }
  }

  /** The sorted components the fallback chooses from. */
  ghost predicate SortedComponents(m: map<Name, Package>, h: Graph, kept: seq<seq<Name>>, lists: seq<seq<Package>>,
                                   groupOrder: seq<string>, locale: (string, string) -> int)
    requires h.Keys <= m.Keys
  {
    && |lists| == |kept|
    && forall i :: 0 <= i < |kept| ==>
         && SinkCycles.IsClass(h, kept[i])
         && Selection(m, lists[i])
         && (forall n :: n in Names(lists[i]) <==> n in kept[i])
         && (LocaleOrder(locale) ==> Sorted(lists[i], Leq(groupOrder, locale)))
  }

  /** The chosen cycle is one whole recurrent class. */
  ghost predicate ChosenCycle(m: map<Name, Package>, h: Graph, cycle: seq<Package>,
                              groupOrder: seq<string>, locale: (string, string) -> int)
    requires h.Keys <= m.Keys
  {
    && |cycle| > 0 && Selection(m, cycle)
    && (forall n :: n in Names(cycle) ==> n in h)
    && (forall n, k :: n in Names(cycle) && k in Names(cycle) ==> Mutual(h, n, k))
    && (forall n, k :: n in Names(cycle) && Edge(h, n, k) ==> k in Names(cycle))
    && (LocaleOrder(locale) && Keyed(m) ==>
          && RecurrentSet(h) != {}
          && StrictTotal(NameLess(m, groupOrder, locale), h.Keys)
          && var less := NameLess(m, groupOrder, locale);
             Names(cycle) == Listing(ClassOf(h, Least(RecurrentSet(h), less)), less))
  }

  lemma ListIndex(lists: seq<seq<Package>>, sorted: seq<seq<Package>>, l: seq<Package>) returns (i: nat)
    requires multiset(lists) == multiset(sorted) && l in sorted
    ensures i < |lists| && lists[i] == l
  {
    PermutedMember(lists, sorted, l);
    i :| 0 <= i < |lists| && lists[i] == l;
  }

  lemma CycleIsClass(h: Graph, c: seq<Name>)
    requires SinkCycles.IsClass(h, c) && forall x :: x in c ==> SinkCycles.Recurrent(h, x)
    ensures forall x :: x in c ==> x in h
    ensures forall x, y :: x in c && y in c ==> Mutual(h, x, y)
    ensures forall x, y :: x in c && Edge(h, x, y) ==> y in c
    ensures forall x :: x in c ==> ClassOf(h, x) == SinkCycles.Members(c)
  {
    hide Reach, SinkCycles.OnCycle;
    forall x, y | x in c && Edge(h, x, y) ensures y in c {
      ReachEdge(h, x, y);
      assert Mutual(h, x, y);
    }
    forall x, y | x in c && y in c ensures Mutual(h, x, y) {
      assert y in c <==> Mutual(h, x, y);
    }
  }

  /** The head of the first sorted component is the least recurrent name. */
  lemma LeastHead(m: map<Name, Package>, h: Graph, kept: seq<seq<Name>>, lists: seq<seq<Package>>,
                  sorted: seq<seq<Package>>, groupOrder: seq<string>, locale: (string, string) -> int, y: Name)
    requires h.Keys <= m.Keys && Keyed(m) && LocaleOrder(locale)
    requires SortedComponents(m, h, kept, lists, groupOrder, locale)
    requires multiset(sorted) == multiset(lists) && |sorted| > 0 && |sorted[0]| > 0
    requires Sorted(sorted, HeadLeq(Leq(groupOrder, locale)))
    requires exists c :: c in kept && y in c
    ensures Leq(groupOrder, locale)(sorted[0][0], m[y]) && y in m
  {
    hide Compare, LocaleOrder, SinkCycles.IsClass;
    var leq := Leq(groupOrder, locale);
    ComparePreorder(groupOrder, locale);
    var c :| c in kept && y in c;
    var j :| 0 <= j < |kept| && kept[j] == c;
    assert lists[j] in lists;
    PermutedMember(lists, sorted, lists[j]);
    var k :| 0 <= k < |sorted| && sorted[k] == lists[j];
    assert y in Names(lists[j]);
    var i :| 0 <= i < |lists[j]| && Names(lists[j])[i] == y;
    assert lists[j][i] in lists[j];
    assert m[y] == lists[j][i];
    assert leq(sorted[0][0], lists[j][0]) by {
      assert leq(sorted[0][0], sorted[0][0]);
      assert k > 0 ==> HeadLeq(leq)(sorted[0], sorted[k]);
    }
    assert leq(lists[j][0], lists[j][i]) by {
      assert leq(lists[j][0], lists[j][0]);
    }
  }

  lemma LeastOf(s: set<Name>, less: (Name, Name) -> bool, a: Name)
    requires s != {} && StrictTotal(less, s) && a in s
    requires forall y :: y in s && y != a ==> less(a, y)
    ensures Least(s, less) == a
  {
    var l := Least(s, less);
    assert l != a ==> less(a, l) && less(l, a);
  }

  lemma HeadIsLeast(m: map<Name, Package>, h: Graph, kept: seq<seq<Name>>, lists: seq<seq<Package>>,
                    sorted: seq<seq<Package>>, groupOrder: seq<string>, locale: (string, string) -> int)
    requires h.Keys <= m.Keys && Keyed(m) && LocaleOrder(locale)
    requires SortedComponents(m, h, kept, lists, groupOrder, locale)
    requires multiset(sorted) == multiset(lists) && |sorted| > 0 && |sorted[0]| > 0
    requires Sorted(sorted, HeadLeq(Leq(groupOrder, locale)))
    requires forall x :: x in h ==> ((exists c :: c in kept && x in c) <==> SinkCycles.Recurrent(h, x))
    requires sorted[0][0].short in RecurrentSet(h) && m[sorted[0][0].short] == sorted[0][0]
    ensures StrictTotal(NameLess(m, groupOrder, locale), h.Keys)
    ensures Least(RecurrentSet(h), NameLess(m, groupOrder, locale)) == sorted[0][0].short
  {
    hide Compare, LocaleOrder, SinkCycles.IsClass, SinkCycles.Recurrent, SortedComponents, Sorted;
    var less := NameLess(m, groupOrder, locale);
    var a := sorted[0][0].short;
    NameLessStrict(m, groupOrder, locale, h.Keys);
    forall y | y in RecurrentSet(h) && y != a ensures less(a, y) {
      LeastHead(m, h, kept, lists, sorted, groupOrder, locale, y);
      CompareSeparates(m[a], m[y], groupOrder, locale);
    }
    LeastOf(RecurrentSet(h), less, a);
  }

  lemma ChooseCycle(m: map<Name, Package>, h: Graph, kept: seq<seq<Name>>, lists: seq<seq<Package>>,
                    sorted: seq<seq<Package>>, groupOrder: seq<string>, locale: (string, string) -> int)
    requires h.Keys <= m.Keys && Keyed(m)
    requires SortedComponents(m, h, kept, lists, groupOrder, locale)
    requires multiset(sorted) == multiset(lists) && |sorted| > 0
    requires LocaleOrder(locale) ==> Sorted(sorted, HeadLeq(Leq(groupOrder, locale)))
    requires forall x :: x in h ==> ((exists c :: c in kept && x in c) <==> SinkCycles.Recurrent(h, x))
    ensures ChosenCycle(m, h, sorted[0], groupOrder, locale)
  {
    hide Compare, LocaleOrder, SinkCycles.Recurrent, Reach, Sorted, Leq, HeadLeq, NameLess;
    var i := ListIndex(lists, sorted, sorted[0]);
    var c := kept[i];
    assert c in kept && c[0] in c;
    CycleIsClass(h, c);
    NamesMember(sorted[0], c[0]);
    if LocaleOrder(locale) {
      var a := sorted[0][0].short;
      assert a == Names(sorted[0])[0] && sorted[0][0] in sorted[0];
      HeadIsLeast(m, h, kept, lists, sorted, groupOrder, locale);
      SortedIsListing(m, sorted[0], SinkCycles.Members(c), groupOrder, locale);
    }
  }

  /** The packages of `m` still unordered, as the graph handed to the cycle search. */
  function Remaining(m: map<Name, Package>, order: seq<Name>): Graph {
    map n | n in m && n in order :: m[n].deps
  }

  /** Sort each component by the comparator. */
  method SortEach(m: map<Name, Package>, h: Graph, kept: seq<seq<Name>>,
                  groupOrder: seq<string>, locale: (string, string) -> int)
    returns (lists: seq<seq<Package>>)
    requires h.Keys <= m.Keys && Keyed(m) && forall c :: c in kept ==> SinkCycles.IsClass(h, c)
    ensures SortedComponents(m, h, kept, lists, groupOrder, locale)
  {
    hide LocaleOrder, SinkCycles.IsClass, Leq, Sorted, Selection, Keyed, Insert, SortBy;
    lists := [];
    var i := 0;
    while i < |kept|
      invariant i <= |kept|
      invariant SortedComponents(m, h, kept[..i], lists, groupOrder, locale)
    {
      SortComponent(m, h, kept[i], groupOrder, locale);
      var component := Packages(m, kept[i]);
      lists := lists + [SortBy(component, Leq(groupOrder, locale))];
      i := i + 1;
    }
    assert kept[..i] == kept;
  }

  /** The fallback when no package is ready: its "could not order" error is unreachable. */
  method NextCycle(m: map<Name, Package>, order: seq<Name>, groupOrder: seq<string>, locale: (string, string) -> int)
    returns (cycle: seq<Package>)
    requires Keyed(m) && forall n :: n in order ==> n in m
    requires RecurrentSet(Remaining(m, order)) != {}
    ensures ChosenCycle(m, Remaining(m, order), cycle, groupOrder, locale)
  {
    hide LocaleOrder, SinkCycles.Recurrent, SinkCycles.IsClass, SinkCycles.Partition, Reach, Leq, HeadLeq,
         TotalPreorder, Sorted, ChosenCycle, Keyed, Insert, SortBy;
    var h := Remaining(m, order);
    var leq := Leq(groupOrder, locale);
    var search := new SinkCycles.Search(h);
    var kept := search.Run(order);
    var lists := SortEach(m, h, kept, groupOrder, locale);
    var sorted := SortBy(lists, HeadLeq(leq));
    SortPermutes(lists, HeadLeq(leq));
    if LocaleOrder(locale) {
      ComparePreorder(groupOrder, locale);
      HeadPreorder(leq);
      SortSorts(lists, HeadLeq(leq));
    }
    SameLength(sorted, lists);
    ghost var x :| x in RecurrentSet(h);
    assert exists c :: c in kept && x in c;
    ChooseCycle(m, h, kept, lists, sorted, groupOrder, locale);
    cycle := sorted[0];
  }

  lemma SameLength<T>(a: seq<T>, b: seq<T>)
    requires multiset(a) == multiset(b)
    ensures |a| == |b|
  {
    assert |multiset(a)| == |multiset(b)|;
  }

  lemma SortComponent(m: map<Name, Package>, h: Graph, c: seq<Name>,
                      groupOrder: seq<string>, locale: (string, string) -> int)
    requires h.Keys <= m.Keys && Keyed(m) && SinkCycles.IsClass(h, c)
    ensures forall n :: n in c ==> n in m
    ensures var l := SortBy(Packages(m, c), Leq(groupOrder, locale));
            && Selection(m, l)
            && (forall n :: n in Names(l) <==> n in c)
            && (LocaleOrder(locale) ==> Sorted(l, Leq(groupOrder, locale)))
  {
    hide Compare, LocaleOrder, Leq, Selection, TotalPreorder, Insert, SortBy;
    var ps := Packages(m, c);
    var leq := Leq(groupOrder, locale);
    ComponentSelection(m, c);
    SortPermutes(ps, leq);
    PermutedSelection(m, ps, SortBy(ps, leq));
    if LocaleOrder(locale) {
      ComparePreorder(groupOrder, locale);
      SortSorts(ps, leq);
    }
  }

  // ----- the main loop -----

  /** Each dependency comes earlier, or shares a cycle with its dependent. */
  ghost predicate DependenciesFirst(g: Graph, out: seq<Name>) {
    forall i, d :: 0 <= i < |out| && out[i] in g && d in g[out[i]] ==>
      d in out[..i] || (d in out && Mutual(g, d, out[i]))
  }

  /** The loop state of `topoSort`: placed and remaining packages split the map. */
  ghost predicate Placing(m: map<Name, Package>, order: seq<Name>, placed: set<Name>, out: seq<Package>) {
    && Distinct(order) && (forall n :: n in order ==> n in m)
    && placed == m.Keys - SinkCycles.Members(order)
    && Selection(m, out) && (forall n :: n in placed <==> n in Names(out))
    && DependenciesFirst(GraphOf(m), Names(out))
  }

  /** A batch whose dependencies are all placed, or on a cycle inside the batch. */
  ghost predicate Supported(m: map<Name, Package>, placed: set<Name>, batch: seq<Package>) {
    forall n, d :: n in Names(batch) && n in m && d in m[n].deps ==>
      d in placed || (d in Names(batch) && Mutual(GraphOf(m), d, n))
  }

  function Without(order: seq<Name>, n: Name): (r: seq<Name>)
    ensures forall k :: k in r <==> k in order && k != n
    ensures Distinct(order) ==> Distinct(r)
    ensures |r| <= |order| && (n in order ==> |r| < |order|)
  {
    if order == [] then []
    else if order[0] == n then Without(order[1..], n)
    else
      var rest := Without(order[1..], n);
      assert Distinct(order) ==> order[0] !in order[1..];
      assert Distinct(order) ==> Distinct(order[1..]) && order[0] !in rest;
      [order[0]] + rest
  }

  lemma NamesAppend(a: seq<Package>, b: seq<Package>)
    ensures Names(a + b) == Names(a) + Names(b)
  {
  }

  lemma NamesStep(ps: seq<Package>, i: nat)
    requires i < |ps|
    ensures Names(ps[..i + 1]) == Names(ps[..i]) + [ps[i].short]
  {
  }

  lemma AppendDependencies(g: Graph, out: seq<Name>, batch: seq<Name>)
    requires DependenciesFirst(g, out)
    requires forall n, d :: n in batch && n in g && d in g[n] ==> d in out || (d in batch && Mutual(g, d, n))
    ensures DependenciesFirst(g, out + batch)
  {
    hide Reach;
    var all := out + batch;
    forall i, d | 0 <= i < |all| && all[i] in g && d in g[all[i]]
      ensures d in all[..i] || (d in all && Mutual(g, d, all[i]))
    {
      if i < |out| {
        assert all[i] == out[i] && all[..i] == out[..i];
      } else {
        assert all[i] == batch[i - |out|];
        assert all[..i] == out + batch[..i - |out|];
      }
    }
  }

  lemma PlaceSelection(m: map<Name, Package>, order: seq<Name>, placed: set<Name>, out: seq<Package>,
                       batch: seq<Package>)
    requires Placing(m, order, placed, out) && Selection(m, batch)
    requires forall n :: n in Names(batch) ==> n in order
    ensures Selection(m, out + batch)
  {
    hide Reach, DependenciesFirst;
    NamesAppend(out, batch);
    forall i, j | 0 <= i < |out| && 0 <= j < |batch| ensures Names(out)[i] != Names(batch)[j] {
      assert Names(out)[i] in Names(out) && Names(batch)[j] in Names(batch);
    }
    var all := Names(out) + Names(batch);
    forall i, j | 0 <= i < j < |all| ensures all[i] != all[j] {
      if j < |out| {
        assert all[i] == Names(out)[i] && all[j] == Names(out)[j];
      } else if i >= |out| {
        assert all[i] == Names(batch)[i - |out|] && all[j] == Names(batch)[j - |out|];
      }
    }
  }

  lemma PlaceBatch(m: map<Name, Package>, order: seq<Name>, placed: set<Name>, out: seq<Package>,
                   batch: seq<Package>, order': seq<Name>)
    requires Placing(m, order, placed, out) && Selection(m, batch) && Supported(m, placed, batch)
    requires forall n :: n in Names(batch) ==> n in order
    requires Distinct(order') && forall n :: n in order' <==> n in order && n !in Names(batch)
    ensures Placing(m, order', placed + SinkCycles.Members(Names(batch)), out + batch)
  {
    hide Reach, DependenciesFirst, Selection;
    PlaceSelection(m, order, placed, out, batch);
    NamesAppend(out, batch);
    AppendDependencies(GraphOf(m), Names(out), Names(batch));
  }

  /** Select the packages whose dependencies are all placed. */
  function FilterReady(m: map<Name, Package>, order: seq<Name>, placed: set<Name>): seq<Package>
    requires forall n :: n in order ==> n in m
  {
    if order == [] then []
    else
      (if forall d :: d in m[order[0]].deps ==> d in placed then [m[order[0]]] else [])
      + FilterReady(m, order[1..], placed)
  }

  lemma {:induction false} FilterReadyMeaning(m: map<Name, Package>, order: seq<Name>, placed: set<Name>)
    requires Keyed(m) && Distinct(order) && forall n :: n in order ==> n in m
    ensures Selection(m, FilterReady(m, order, placed))
    ensures forall n :: n in Names(FilterReady(m, order, placed)) <==>
              n in order && forall d :: d in m[n].deps ==> d in placed
  {
    var r := FilterReady(m, order, placed);
    if order == [] {
    } else {
      FilterReadyMeaning(m, order[1..], placed);
      var rest := FilterReady(m, order[1..], placed);
      if forall d :: d in m[order[0]].deps ==> d in placed {
        NamesAppend([m[order[0]]], rest);
        assert Names(r) == [order[0]] + Names(rest);
        assert order[0] !in order[1..];
      } else {
        assert r == rest;
      }
    }
  }

  lemma SortKeepsSelection(m: map<Name, Package>, ps: seq<Package>, s: set<Name>,
                           groupOrder: seq<string>, locale: (string, string) -> int)
    requires Keyed(m) && Selection(m, ps) && (forall n :: n in s <==> n in Names(ps)) && s <= m.Keys
    ensures var r := SortBy(ps, Leq(groupOrder, locale));
            && Selection(m, r) && |r| == |ps|
            && (forall n :: n in s <==> n in Names(r))
            && (LocaleOrder(locale) ==>
                  && StrictTotal(NameLess(m, groupOrder, locale), s)
                  && Names(r) == Listing(s, NameLess(m, groupOrder, locale)))
  {
    hide LocaleOrder, Leq, NameLess, Selection, TotalPreorder, Insert, SortBy, Sorted;
    var leq := Leq(groupOrder, locale);
    SortPermutes(ps, leq);
    SameLength(SortBy(ps, leq), ps);
    PermutedSelection(m, ps, SortBy(ps, leq));
    if LocaleOrder(locale) {
      ComparePreorder(groupOrder, locale);
      SortSorts(ps, leq);
      SortedIsListing(m, SortBy(ps, leq), s, groupOrder, locale);
    }
  }

  /** Every dependency names a package of the map. */
  ghost predicate Known(m: map<Name, Package>) {
    forall n, d :: n in m && d in m[n].deps ==> d in m
  }

  lemma CycleSupported(m: map<Name, Package>, order: seq<Name>, placed: set<Name>, cycle: seq<Package>,
                       groupOrder: seq<string>, locale: (string, string) -> int)
    requires Known(m) && placed == m.Keys - SinkCycles.Members(order) && (forall n :: n in order ==> n in m)
    requires ChosenCycle(m, Remaining(m, order), cycle, groupOrder, locale)
    ensures Supported(m, placed, cycle) && forall n :: n in Names(cycle) ==> n in order
  {
    hide Reach, Selection;
    var h := Remaining(m, order);
    forall n, d | n in Names(cycle) && n in m && d in m[n].deps
      ensures d in placed || (d in Names(cycle) && Mutual(GraphOf(m), d, n))
    {
      if d in order {
        assert Edge(h, n, d);
        assert Mutual(h, d, n);
        ReachMono(h, GraphOf(m), d, n);
        ReachMono(h, GraphOf(m), n, d);
      }
    }
  }

  lemma ReadySupported(m: map<Name, Package>, order: seq<Name>, placed: set<Name>, batch: seq<Package>)
    requires forall n :: n in Names(batch) ==> n in order && n in m && forall d :: d in m[n].deps ==> d in placed
    ensures Supported(m, placed, batch)
  {
  }

  /** Under a total order the output so far and the order of the rest always join to the same sequence. */
  ghost predicate OnCourse(m: map<Name, Package>, rest: set<Name>, out: seq<Package>,
                           groupOrder: seq<string>, locale: (string, string) -> int)
  {
    && rest <= m.Keys
    && (LocaleOrder(locale) ==>
          && var less := NameLess(m, groupOrder, locale);
          && StrictTotal(less, m.Keys)
          && Names(out) + Order(GraphOf(m), rest, less) == Order(GraphOf(m), m.Keys, less))
  }

  lemma StayOnCourse(m: map<Name, Package>, rest: set<Name>, out: seq<Package>, batch: seq<Package>,
                     groupOrder: seq<string>, locale: (string, string) -> int)
    requires OnCourse(m, rest, out, groupOrder, locale) && rest != {}
    requires LocaleOrder(locale) ==>
               var less := NameLess(m, groupOrder, locale);
               && StrictTotal(less, m.Keys)
               && Names(batch) == Listing(Batch(GraphOf(m), rest, less), less)
               && (forall n :: n in Batch(GraphOf(m), rest, less) <==> n in Names(batch))
    ensures OnCourse(m, rest - SinkCycles.Members(Names(batch)), out + batch, groupOrder, locale)
  {
    hide Batch, NameLess, LocaleOrder, Listing;
    if LocaleOrder(locale) {
      var less := NameLess(m, groupOrder, locale);
      NamesAppend(out, batch);
      BatchProgress(GraphOf(m), rest, less);
      assert rest - SinkCycles.Members(Names(batch)) == rest - Batch(GraphOf(m), rest, less);
      var tail := Order(GraphOf(m), rest - Batch(GraphOf(m), rest, less), less);
      assert Names(out) + (Names(batch) + tail) == (Names(out) + Names(batch)) + tail;
    }
  }

  /** What one turn of the loop places. */
  ghost predicate GoodBatch(m: map<Name, Package>, order: seq<Name>, placed: set<Name>, batch: seq<Package>,
                            groupOrder: seq<string>, locale: (string, string) -> int)
    requires forall n :: n in order ==> n in m
  {
    && Selection(m, batch) && Supported(m, placed, batch)
    && (forall n :: n in Names(batch) ==> n in order)
    && (order != [] ==> |batch| > 0)
    && (order != [] && LocaleOrder(locale) ==>
          var less := NameLess(m, groupOrder, locale);
          && var rest := SinkCycles.Members(order);
          && rest != {} && StrictTotal(less, rest)
          && Names(batch) == Listing(Batch(GraphOf(m), rest, less), less)
          && (forall n :: n in Batch(GraphOf(m), rest, less) <==> n in Names(batch)))
  }

  lemma ReadyIsFiltered(m: map<Name, Package>, order: seq<Name>, placed: set<Name>)
    requires Keyed(m) && Known(m) && Distinct(order) && forall n :: n in order ==> n in m
    requires placed == m.Keys - SinkCycles.Members(order)
    ensures forall n :: n in Ready(GraphOf(m), SinkCycles.Members(order)) <==> n in Names(FilterReady(m, order, placed))
    ensures Selection(m, FilterReady(m, order, placed))
  {
    hide FilterReady, Selection, Keyed, Distinct;
    FilterReadyMeaning(m, order, placed);
  }

  method ReadyBatch(m: map<Name, Package>, order: seq<Name>, placed: set<Name>,
                    groupOrder: seq<string>, locale: (string, string) -> int)
    returns (ready: seq<Package>)
    requires Keyed(m) && Known(m) && Distinct(order) && forall n :: n in order ==> n in m
    requires placed == m.Keys - SinkCycles.Members(order)
    ensures ready == [] <==> Ready(GraphOf(m), SinkCycles.Members(order)) == {}
    ensures ready != [] ==> GoodBatch(m, order, placed, ready, groupOrder, locale)
  {
    hide LocaleOrder, Leq, NameLess, Selection, Keyed, Insert, SortBy, FilterReady, Listing;
    ghost var rest := SinkCycles.Members(order);
    ghost var g := GraphOf(m);
    var filtered := FilterReady(m, order, placed);
    ready := SortBy(filtered, Leq(groupOrder, locale));
    ReadyIsFiltered(m, order, placed);
    SortKeepsSelection(m, filtered, Ready(g, rest), groupOrder, locale);
    if ready != [] {
      assert Names(ready)[0] in Names(ready);
      FilterReadyMeaning(m, order, placed);
      ReadySupported(m, order, placed, ready);
      if LocaleOrder(locale) {
        NameLessStrict(m, groupOrder, locale, rest);
      }
    } else {
      assert forall n :: n in Ready(g, rest) <==> n in Names(ready);
    }
  }

  /** The ready packages, or else the least cycle that depends on nothing outside itself. */
  method NextBatch(m: map<Name, Package>, order: seq<Name>, placed: set<Name>,
                   groupOrder: seq<string>, locale: (string, string) -> int)
    returns (batch: seq<Package>)
    requires Keyed(m) && Known(m) && Distinct(order) && forall n :: n in order ==> n in m
    requires placed == m.Keys - SinkCycles.Members(order) && order != []
    ensures GoodBatch(m, order, placed, batch, groupOrder, locale)
  {
    hide LocaleOrder, Leq, NameLess, Selection, Keyed, GoodBatch, ChosenCycle;
    batch := ReadyBatch(m, order, placed, groupOrder, locale);
    if batch == [] {
      ghost var rest := SinkCycles.Members(order);
      assert order[0] in rest;
      assert Induced(GraphOf(m), rest) == Remaining(m, order);
      BlockedHasRecurrent(GraphOf(m), rest);
      batch := NextCycle(m, order, groupOrder, locale);
      CycleIsGood(m, order, placed, batch, groupOrder, locale);
    }
  }

  lemma CycleIsGood(m: map<Name, Package>, order: seq<Name>, placed: set<Name>, cycle: seq<Package>,
                    groupOrder: seq<string>, locale: (string, string) -> int)
    requires Keyed(m) && Known(m) && (forall n :: n in order ==> n in m) && order != []
    requires placed == m.Keys - SinkCycles.Members(order)
    requires Ready(GraphOf(m), SinkCycles.Members(order)) == {}
    requires ChosenCycle(m, Remaining(m, order), cycle, groupOrder, locale)
    ensures GoodBatch(m, order, placed, cycle, groupOrder, locale)
  {
    hide Reach, LocaleOrder, NameLess, Selection, Keyed, Known, Listing, Ready, SinkCycles.Recurrent;
    var rest := SinkCycles.Members(order);
    assert order[0] in rest;
    assert Induced(GraphOf(m), rest) == Remaining(m, order);
    CycleSupported(m, order, placed, cycle, groupOrder, locale);
    if LocaleOrder(locale) {
      var less := NameLess(m, groupOrder, locale);
      NameLessStrict(m, groupOrder, locale, rest);
      BatchProgress(GraphOf(m), rest, less);
      ListingMembers(Batch(GraphOf(m), rest, less), less);
    }
  }

  /** Whether some package lists a dependency the map does not hold. */
  ghost predicate HasMissingPeer(packages: seq<Package>) {
    exists p, d :: p in packages && d in p.deps && d !in ByName(packages)
  }

  /** The order `topoSort` promises for the package map `m`. */
  ghost predicate DependencyOrder(m: map<Name, Package>, out: seq<Package>,
                                  groupOrder: seq<string>, locale: (string, string) -> int)
  {
    && Selection(m, out)
    && (forall n :: n in m <==> n in Names(out))
    && DependenciesFirst(GraphOf(m), Names(out))
    && OnCourse(m, {}, out, groupOrder, locale)
  }

  /** The validation loops: report the first dependency that names no package. */
  method FindMissingPeer(packages: seq<Package>, m: map<Name, Package>) returns (r: Result)
    requires m == ByName(packages)
    ensures r == Ordered([]) <==> !HasMissingPeer(packages)
    ensures r != Ordered([]) ==> r.Failed? && r.error.MissingPeer?
                                 && exists p :: p in packages && p.short == r.error.package
                                                && r.error.dependency in p.deps && r.error.dependency !in m
  {
    hide ByName;
    r := Ordered([]);
    var i := 0;
    while i < |packages|
      invariant i <= |packages|
      invariant forall k :: 0 <= k < i ==> forall d :: d in packages[k].deps ==> d in m
    {
      var pkg := packages[i];
      var j := 0;
      while j < |pkg.deps|
        invariant j <= |pkg.deps|
        invariant forall d :: d in pkg.deps[..j] ==> d in m
      {
        if pkg.deps[j] !in m {
          return Failed(MissingPeer(pkg.short, pkg.deps[j]));
        }
        j := j + 1;
      }
      assert pkg.deps[..j] == pkg.deps;
      i := i + 1;
    }
  }

  /** Order packages after their in-repo dependencies; only a missing peer can fail. */
  method TopoSort(packages: seq<Package>, groupOrder: seq<string>, locale: (string, string) -> int)
    returns (r: Result)
    ensures r.Failed? <==> HasMissingPeer(packages)
    ensures r.Failed? ==> r.error.MissingPeer?
                          && exists p :: p in packages && p.short == r.error.package
                                         && r.error.dependency in p.deps && r.error.dependency !in ByName(packages)
    ensures r.Ordered? ==> DependencyOrder(ByName(packages), r.packages, groupOrder, locale)
    ensures r.Ordered? && LocaleOrder(locale) && |groupOrder| <= Decimal.MAX_SAFE_INTEGER ==>
              Layered(ByName(packages), r.packages, 0, groupOrder, locale)
  {
    hide LocaleOrder, Leq, NameLess, Selection, GoodBatch, Supported, DependenciesFirst, OnCourse, Placing, ByName,
        KeyOrder, Layered;
    var m := ByName(packages);
    ByNameKeys(packages);
    r := FindMissingPeer(packages, m);
    if r.Failed? {
      return;
    }
    assert Known(m) && Keyed(m);
    var order, placed, out := KeyOrder(packages), {}, [];
    Start(m, order, groupOrder, locale);
    while order != []
      invariant Placing(m, order, placed, out)
      invariant OnCourse(m, SinkCycles.Members(order), out, groupOrder, locale)
      decreases |order|
    {
      PlacingParts(m, order, placed, out);
      var batch := NextBatch(m, order, placed, groupOrder, locale);
      order, placed, out := PlaceAll(m, order, placed, out, batch, groupOrder, locale);
    }
    Finish(m, placed, out, groupOrder, locale);
    if LocaleOrder(locale) && |groupOrder| <= Decimal.MAX_SAFE_INTEGER {
      OutputLayered(m, out, groupOrder, locale);
    }
    r := Ordered(out);
  }

  lemma PlacingParts(m: map<Name, Package>, order: seq<Name>, placed: set<Name>, out: seq<Package>)
    requires Placing(m, order, placed, out)
    ensures Distinct(order) && (forall n :: n in order ==> n in m)
    ensures placed == m.Keys - SinkCycles.Members(order)
  {
  }

  lemma Start(m: map<Name, Package>, order: seq<Name>, groupOrder: seq<string>, locale: (string, string) -> int)
    requires Keyed(m) && Distinct(order) && forall n :: n in order <==> n in m
    ensures Placing(m, order, {}, [])
    ensures OnCourse(m, SinkCycles.Members(order), [], groupOrder, locale)
  {
    hide LocaleOrder, NameLess, Order;
    assert SinkCycles.Members(order) == m.Keys;
    if LocaleOrder(locale) {
      NameLessStrict(m, groupOrder, locale, m.Keys);
    }
  }

  lemma Finish(m: map<Name, Package>, placed: set<Name>, out: seq<Package>,
               groupOrder: seq<string>, locale: (string, string) -> int)
    requires Placing(m, [], placed, out) && OnCourse(m, SinkCycles.Members([]), out, groupOrder, locale)
    ensures DependencyOrder(m, out, groupOrder, locale)
  {
    hide Selection, DependenciesFirst, OnCourse;
    assert SinkCycles.Members([]) == {};
  }

  /** The inner `for (const pkg of ready)` loop. */
  method PlaceAll(m: map<Name, Package>, order: seq<Name>, placed: set<Name>, out: seq<Package>, batch: seq<Package>,
                  groupOrder: seq<string>, locale: (string, string) -> int)
    returns (order': seq<Name>, placed': set<Name>, out': seq<Package>)
    requires Placing(m, order, placed, out) && order != []
    requires (forall n :: n in order ==> n in m) && GoodBatch(m, order, placed, batch, groupOrder, locale)
    requires OnCourse(m, SinkCycles.Members(order), out, groupOrder, locale)
    ensures Placing(m, order', placed', out')
    ensures OnCourse(m, SinkCycles.Members(order'), out', groupOrder, locale)
    ensures |order'| < |order|
  {
    hide LocaleOrder, NameLess, Selection, Supported, DependenciesFirst, OnCourse, Placing, Listing, Batch, GoodBatch;
    PlacingParts(m, order, placed, out);
    GoodParts(m, order, placed, batch, groupOrder, locale);
    order', placed', out' := order, placed, out;
    var i := 0;
    while i < |batch|
      invariant i <= |batch|
      invariant out' == out + batch[..i]
      invariant Distinct(order') && forall n :: n in order' <==> n in order && n !in Names(batch[..i])
      invariant placed' == placed + SinkCycles.Members(Names(batch[..i]))
      invariant |order'| <= |order| && (i > 0 ==> |order'| < |order|)
    {
      NamesStep(batch, i);
      assert batch[..i + 1] == batch[..i] + [batch[i]];
      assert Names(batch)[0] in Names(batch);
      out' := out' + [batch[i]];
      placed' := placed' + {batch[i].short};
      order' := Without(order', batch[i].short);
      i := i + 1;
    }
    assert batch[..i] == batch;
    PlaceBatch(m, order, placed, out, batch, order');
    KeepCourse(m, order, placed, out, batch, groupOrder, locale);
    assert SinkCycles.Members(order') == SinkCycles.Members(order) - SinkCycles.Members(Names(batch));
  }

  lemma GoodParts(m: map<Name, Package>, order: seq<Name>, placed: set<Name>, batch: seq<Package>,
                  groupOrder: seq<string>, locale: (string, string) -> int)
    requires (forall n :: n in order ==> n in m) && order != []
    requires GoodBatch(m, order, placed, batch, groupOrder, locale)
    ensures Selection(m, batch) && Supported(m, placed, batch) && |batch| > 0
    ensures forall n :: n in Names(batch) ==> n in order
  {
    hide Selection, Supported, NameLess, LocaleOrder;
  }

  lemma KeepCourse(m: map<Name, Package>, order: seq<Name>, placed: set<Name>, out: seq<Package>, batch: seq<Package>,
                   groupOrder: seq<string>, locale: (string, string) -> int)
    requires (forall n :: n in order ==> n in m) && order != []
    requires OnCourse(m, SinkCycles.Members(order), out, groupOrder, locale)
    requires GoodBatch(m, order, placed, batch, groupOrder, locale)
    ensures OnCourse(m, SinkCycles.Members(order) - SinkCycles.Members(Names(batch)), out + batch, groupOrder, locale)
  {
    hide Selection, Supported, NameLess, LocaleOrder, Batch, Listing;
    assert order[0] in SinkCycles.Members(order);
    StayOnCourse(m, SinkCycles.Members(order), out, batch, groupOrder, locale);
  }

  // ----- the layers of the output -----

  ghost predicate ReadyAfter(m: map<Name, Package>, done: set<Name>, n: Name) {
    n in m && n !in done && forall d :: d in m[n].deps ==> d in done
  }

  /** Exactly the packages whose dependencies all stood in earlier layers. */
  ghost predicate ReadyLayer(m: map<Name, Package>, done: set<Name>, layer: seq<Package>) {
    forall n :: n in Names(layer) <==> ReadyAfter(m, done, n)
  }

  /** No package was ready, and this is the whole cycle, without edges to other remaining packages, that heads first. */
  ghost predicate CycleLayer(m: map<Name, Package>, done: set<Name>, layer: seq<Package>, groupOrder: seq<string>,
                             locale: (string, string) -> int)
  {
    var h := Induced(GraphOf(m), m.Keys - done);
    && layer != [] && (forall n :: !ReadyAfter(m, done, n)) && SinkCycles.Recurrent(h, layer[0].short)
    && (forall n :: n in Names(layer) <==> n in h && Mutual(h, layer[0].short, n))
    && (forall n :: n in h && SinkCycles.Recurrent(h, n) && n != layer[0].short ==>
          Precedes(layer[0], m[n], groupOrder, locale))
  }

  ghost predicate Layer(m: map<Name, Package>, out: seq<Package>, from: nat, to: nat, groupOrder: seq<string>,
                        locale: (string, string) -> int)
  {
    && from < to <= |out|
    && (forall i, j :: from <= i < j < to ==> Precedes(out[i], out[j], groupOrder, locale))
    && var done := SinkCycles.Members(Names(out[..from]));
    ReadyLayer(m, done, out[from..to]) || CycleLayer(m, done, out[from..to], groupOrder, locale)
  }

  /** From `from` on the output consists of such layers, each in order of precedence. */
  ghost predicate Layered(m: map<Name, Package>, out: seq<Package>, from: nat, groupOrder: seq<string>,
                          locale: (string, string) -> int)
    requires from <= |out|
    decreases |out| - from
  {
    || from == |out|
    || exists to: nat :: to <= |out| && Layer(m, out, from, to, groupOrder, locale)
                         && Layered(m, out, to, groupOrder, locale)
  }

  /** Packages listed in the order of their names precede each other in it. */
  lemma LayerPrecedes(m: map<Name, Package>, ps: seq<Package>, groupOrder: seq<string>, locale: (string, string) -> int)
    requires LocaleOrder(locale) && |groupOrder| <= Decimal.MAX_SAFE_INTEGER && Selection(m, ps)
    requires Ascends(Names(ps), NameLess(m, groupOrder, locale))
    ensures forall i, j :: 0 <= i < j < |ps| ==> Precedes(ps[i], ps[j], groupOrder, locale)
  {
    hide LocaleOrder, Compare, Precedes;
    forall i, j | 0 <= i < j < |ps| ensures Precedes(ps[i], ps[j], groupOrder, locale) {
      assert NameLess(m, groupOrder, locale)(Names(ps)[i], Names(ps)[j]);
      assert ps[i] in ps && ps[j] in ps;
      ComparePrecedes(ps[i], ps[j], groupOrder, locale);
    }
  }

  /** The batch of the nodes and edges is such a layer. */
  lemma BatchIsLayer(m: map<Name, Package>, rest: set<Name>, layer: seq<Package>, groupOrder: seq<string>,
                     locale: (string, string) -> int)
    requires LocaleOrder(locale) && |groupOrder| <= Decimal.MAX_SAFE_INTEGER && Selection(m, layer)
    requires Known(m) && Keyed(m) && rest <= m.Keys && rest != {}
    requires StrictTotal(NameLess(m, groupOrder, locale), rest)
    requires Names(layer) == Listing(Batch(GraphOf(m), rest, NameLess(m, groupOrder, locale)),
                                     NameLess(m, groupOrder, locale))
    ensures layer != [] && forall i, j :: 0 <= i < j < |layer| ==> Precedes(layer[i], layer[j], groupOrder, locale)
    ensures ReadyLayer(m, m.Keys - rest, layer) || CycleLayer(m, m.Keys - rest, layer, groupOrder, locale)
  {
    hide LocaleOrder, Compare, Precedes, NameLess, Reach, SinkCycles.Recurrent, Selection, Listing;
    var less, g := NameLess(m, groupOrder, locale), GraphOf(m);
    var b := Batch(g, rest, less);
    BatchProgress(g, rest, less);
    ListingMembers(b, less);
    ListingAscends(b, less);
    LayerPrecedes(m, layer, groupOrder, locale);
    assert b != {} ==> exists x :: x in b && x in Names(layer);
    ReadySame(m, rest);
    if Ready(g, rest) == {} {
      CycleIsLayer(m, rest, layer, groupOrder, locale);
    }
  }

  lemma ReadySame(m: map<Name, Package>, rest: set<Name>)
    requires Known(m) && rest <= m.Keys
    ensures forall n :: n in Ready(GraphOf(m), rest) <==> ReadyAfter(m, m.Keys - rest, n)
  {
  }

  lemma LeastFirst(s: set<Name>, less: (Name, Name) -> bool)
    requires StrictTotal(less, s) && s != {}
    ensures Listing(s, less) != [] && Listing(s, less)[0] == Least(s, less)
  {
  }

  lemma HeadOf(m: map<Name, Package>, layer: seq<Package>)
    requires Selection(m, layer) && layer != []
    ensures var x := layer[0].short; x in m && m[x] == layer[0] && Names(layer)[0] == x
  {
    assert layer[0] in layer;
  }

  lemma CycleIsLayer(m: map<Name, Package>, rest: set<Name>, layer: seq<Package>, groupOrder: seq<string>,
                     locale: (string, string) -> int)
    requires LocaleOrder(locale) && |groupOrder| <= Decimal.MAX_SAFE_INTEGER && Selection(m, layer)
    requires Known(m) && rest <= m.Keys && rest != {} && Ready(GraphOf(m), rest) == {}
    requires StrictTotal(NameLess(m, groupOrder, locale), rest)
    requires Names(layer) == Listing(Batch(GraphOf(m), rest, NameLess(m, groupOrder, locale)),
                                     NameLess(m, groupOrder, locale))
    requires forall n :: n in Names(layer) <==> n in Batch(GraphOf(m), rest, NameLess(m, groupOrder, locale))
    ensures CycleLayer(m, m.Keys - rest, layer, groupOrder, locale)
  {
    hide LocaleOrder, Precedes, Reach, SinkCycles.Recurrent, Listing, Selection, Known, NameLess, StrictTotal;
    var less, g := NameLess(m, groupOrder, locale), GraphOf(m);
    var h := Induced(g, rest);
    assert m.Keys - (m.Keys - rest) == rest;
    BlockedHasRecurrent(g, rest);
    ReadySame(m, rest);
    assert h.Keys == rest;
    StrictTotalPart(less, rest, RecurrentSet(h));
    var x := Least(RecurrentSet(h), less);
    BatchProgress(g, rest, less);
    StrictTotalPart(less, rest, Batch(g, rest, less));
    LeastFirst(Batch(g, rest, less), less);
    ClassHead(h, x, less);
    HeadOf(m, layer);
    LeastPrecedes(m, h, x, groupOrder, locale);
  }

  lemma StrictTotalPart(less: (Name, Name) -> bool, s: set<Name>, t: set<Name>)
    requires StrictTotal(less, s) && t <= s
    ensures StrictTotal(less, t)
  {
  }

  lemma LeastPrecedes(m: map<Name, Package>, h: Graph, x: Name, groupOrder: seq<string>,
                      locale: (string, string) -> int)
    requires LocaleOrder(locale) && |groupOrder| <= Decimal.MAX_SAFE_INTEGER && h.Keys <= m.Keys
    requires StrictTotal(NameLess(m, groupOrder, locale), h.Keys) && RecurrentSet(h) != {}
    requires x == Least(RecurrentSet(h), NameLess(m, groupOrder, locale))
    ensures x in h && SinkCycles.Recurrent(h, x)
    ensures forall n :: n in h && SinkCycles.Recurrent(h, n) && n != x ==> Precedes(m[x], m[n], groupOrder, locale)
  {
    hide LocaleOrder, Compare, Precedes, SinkCycles.Recurrent;
    forall n | n in h && SinkCycles.Recurrent(h, n) && n != x ensures Precedes(m[x], m[n], groupOrder, locale) {
      assert n in RecurrentSet(h) && NameLess(m, groupOrder, locale)(x, n);
      ComparePrecedes(m[x], m[n], groupOrder, locale);
    }
  }

  /** The least recurrent node is the least of its class. */
  lemma ClassHead(h: Graph, x: Name, less: (Name, Name) -> bool)
    requires StrictTotal(less, h.Keys) && RecurrentSet(h) != {} && x == Least(RecurrentSet(h), less)
    ensures ClassOf(h, x) != {} && Least(ClassOf(h, x), less) == x
  {
    hide Reach, SinkCycles.Recurrent;
    ReachRefl(h, x);
    assert x in ClassOf(h, x);
    forall y | y in ClassOf(h, x) ensures SinkCycles.Recurrent(h, y) {
      RecurrentClass(h, x, y);
    }
    LeastOf(ClassOf(h, x), less, x);
  }

  lemma RecurrentClass(h: Graph, x: Name, y: Name)
    requires SinkCycles.Recurrent(h, x) && Mutual(h, x, y)
    ensures SinkCycles.Recurrent(h, y)
  {
    hide Reach;
    forall z | Reach(h, y, z) ensures Reach(h, z, y) {
      ReachTrans(h, x, y, z);
      ReachTrans(h, z, x, y);
    }
    if x != y {
      var w := FirstStep(h, y, x);
      ReachTrans(h, w, x, y);
    }
  }

  lemma FirstStep(h: Graph, x: Name, y: Name) returns (w: Name)
    requires Reach(h, x, y) && x != y
    ensures Edge(h, x, w) && Reach(h, w, y)
  {
    var n: nat :| ReachIn(h, x, y, n);
    w :| Edge(h, x, w) && ReachIn(h, w, y, n - 1);
  }

  /** What is left of the order from a layer boundary on comes in layers. */
  lemma {:induction false} OrderLayered(m: map<Name, Package>, out: seq<Package>, from: nat, rest: set<Name>,
                                        groupOrder: seq<string>, locale: (string, string) -> int)
    requires LocaleOrder(locale) && |groupOrder| <= Decimal.MAX_SAFE_INTEGER && Selection(m, out)
    requires Known(m) && Keyed(m) && rest <= m.Keys && from <= |out|
    requires StrictTotal(NameLess(m, groupOrder, locale), m.Keys)
    requires Names(out)[from..] == Order(GraphOf(m), rest, NameLess(m, groupOrder, locale))
    requires SinkCycles.Members(Names(out[..from])) == m.Keys - rest
    ensures Layered(m, out, from, groupOrder, locale)
    decreases rest
  {
    hide LocaleOrder, NameLess, Selection, Batch, Listing, ReadyLayer, CycleLayer, Precedes, Layered;
    var less, g := NameLess(m, groupOrder, locale), GraphOf(m);
    if rest == {} {
      NothingLayered(m, out, groupOrder, locale);
    } else {
      BatchProgress(g, rest, less);
      var b := Batch(g, rest, less);
      var to := from + |Listing(b, less)|;
      CutLayer(m, out, from, to, Listing(b, less), Order(g, rest - b, less));
      BatchIsLayer(m, rest, out[from..to], groupOrder, locale);
      ListingMembers(b, less);
      CutMembers(out, from, to);
      assert SinkCycles.Members(Names(out[..to])) == m.Keys - (rest - b);
      OrderLayered(m, out, to, rest - b, groupOrder, locale);
      LayerStands(m, out, from, to, groupOrder, locale);
    }
  }

  lemma NothingLayered(m: map<Name, Package>, out: seq<Package>, groupOrder: seq<string>,
                       locale: (string, string) -> int)
    ensures Layered(m, out, |out|, groupOrder, locale)
  {
  }

  lemma LayerStands(m: map<Name, Package>, out: seq<Package>, from: nat, to: nat, groupOrder: seq<string>,
                    locale: (string, string) -> int)
    requires from < to <= |out| && Layered(m, out, to, groupOrder, locale)
    requires var layer := out[from..to];
             forall i, j :: 0 <= i < j < |layer| ==> Precedes(layer[i], layer[j], groupOrder, locale)
    requires var done := SinkCycles.Members(Names(out[..from]));
             ReadyLayer(m, done, out[from..to]) || CycleLayer(m, done, out[from..to], groupOrder, locale)
    ensures Layered(m, out, from, groupOrder, locale)
  {
    hide ReadyLayer, CycleLayer, Precedes;
    forall i, j | from <= i < j < to ensures Precedes(out[i], out[j], groupOrder, locale) {
      assert out[i] == out[from..to][i - from] && out[j] == out[from..to][j - from];
    }
    assert Layer(m, out, from, to, groupOrder, locale);
  }

  lemma CutLayer(m: map<Name, Package>, out: seq<Package>, from: nat, to: nat, names: seq<Name>, tail: seq<Name>)
    requires from <= |out| && Names(out)[from..] == names + tail && to == from + |names| && Selection(m, out)
    ensures to <= |out| && Names(out[from..to]) == names && Names(out)[to..] == tail && Selection(m, out[from..to])
  {
    var all, layer := Names(out), out[from..to];
    assert |all[from..]| == |names| + |tail|;
    forall i | 0 <= i < |names| ensures Names(layer)[i] == names[i] {
      assert all[from..][i] == all[from + i];
    }
    assert all[to..] == all[from..][|names|..];
    forall i, j | 0 <= i < j < |layer| ensures Names(layer)[i] != Names(layer)[j] {
      assert all[from + i] != all[from + j];
    }
    assert forall p :: p in layer ==> p in out;
  }

  lemma CutMembers(out: seq<Package>, from: nat, to: nat)
    requires from <= to <= |out|
    ensures SinkCycles.Members(Names(out[..to]))
        == SinkCycles.Members(Names(out[..from])) + SinkCycles.Members(Names(out[from..to]))
  {
    assert out[..to] == out[..from] + out[from..to];
    NamesAppend(out[..from], out[from..to]);
  }

  /** The whole output comes in layers: what is ready, or else the first cycle, each in order of precedence. */
  lemma OutputLayered(m: map<Name, Package>, out: seq<Package>, groupOrder: seq<string>,
                      locale: (string, string) -> int)
    requires LocaleOrder(locale) && |groupOrder| <= Decimal.MAX_SAFE_INTEGER && Known(m) && Keyed(m)
    requires DependencyOrder(m, out, groupOrder, locale)
    ensures Layered(m, out, 0, groupOrder, locale)
  {
    hide LocaleOrder, NameLess, Selection, Batch, Listing, DependenciesFirst, Layered;
    var less := NameLess(m, groupOrder, locale);
    assert Order(GraphOf(m), {}, less) == [];
    assert Names(out) + [] == Names(out) && Names(out)[0..] == Names(out);
    assert SinkCycles.Members(Names(out[..0])) == m.Keys - m.Keys;
    OrderLayered(m, out, 0, m.Keys, groupOrder, locale);
  }

  /** The layer that position `i` stands in. */
  lemma {:induction false} LayerOf(m: map<Name, Package>, out: seq<Package>, from: nat, i: nat,
                                   groupOrder: seq<string>, locale: (string, string) -> int)
    returns (start: nat, end: nat)
    requires from <= i < |out| && Layered(m, out, from, groupOrder, locale)
    ensures start <= i < end && Layer(m, out, start, end, groupOrder, locale)
    decreases |out| - from
  {
    hide Layer;
    var to: nat :| to <= |out| && Layer(m, out, from, to, groupOrder, locale)
                   && Layered(m, out, to, groupOrder, locale);
    LayerBounds(m, out, from, to, groupOrder, locale);
    if i < to {
      start, end := from, to;
    } else {
      start, end := LayerOf(m, out, to, i, groupOrder, locale);
    }
  }

  lemma LayerBounds(m: map<Name, Package>, out: seq<Package>, from: nat, to: nat, groupOrder: seq<string>,
                    locale: (string, string) -> int)
    requires Layer(m, out, from, to, groupOrder, locale)
    ensures from < to <= |out|
  {
  }

  /** A package whose dependencies all stood before a layer, and which did not itself, is in that layer. */
  lemma ReadyInLayer(m: map<Name, Package>, out: seq<Package>, start: nat, end: nat, j: nat, groupOrder: seq<string>,
                     locale: (string, string) -> int)
    requires Selection(m, out) && Layer(m, out, start, end, groupOrder, locale) && start <= j < |out|
    requires forall d :: d in out[j].deps ==> d in Names(out[..start])
    ensures j < end && ReadyLayer(m, SinkCycles.Members(Names(out[..start])), out[start..end])
  {
    hide Precedes, SinkCycles.Recurrent, Reach;
    var done, n := SinkCycles.Members(Names(out[..start])), out[j].short;
    assert out[j] in out && m[n] == out[j];
    forall k | 0 <= k < start ensures Names(out[..start])[k] != n {
      assert Names(out)[k] != Names(out)[j];
    }
    assert ReadyAfter(m, done, n);
    assert n in Names(out[start..end]);
    var k :| 0 <= k < end - start && Names(out[start..end])[k] == n;
    assert Names(out)[start + k] == Names(out)[j];
  }

  /** A package whose dependencies all stood before the layer of `out[i]` comes after `out[i]` only by precedence. */
  lemma ReadyPrecede(m: map<Name, Package>, out: seq<Package>, start: nat, end: nat, i: nat, j: nat,
                     groupOrder: seq<string>, locale: (string, string) -> int)
    requires Selection(m, out) && Layer(m, out, start, end, groupOrder, locale)
    requires start <= i < end && i < j < |out|
    requires forall d :: d in out[j].deps ==> d in Names(out[..start])
    ensures Precedes(out[i], out[j], groupOrder, locale)
  {
    hide Precedes, ReadyLayer, CycleLayer, Selection;
    ReadyInLayer(m, out, start, end, j, groupOrder, locale);
  }

  /** In particular, packages without dependencies come first, sorted. */
  lemma IndependentFirst(m: map<Name, Package>, out: seq<Package>, i: nat, j: nat, groupOrder: seq<string>,
                         locale: (string, string) -> int)
    requires Selection(m, out) && Layered(m, out, 0, groupOrder, locale) && i < j < |out| && out[j].deps == []
    ensures Precedes(out[i], out[j], groupOrder, locale) && forall d :: d !in out[i].deps
  {
    hide Precedes, Layer, ReadyLayer, CycleLayer, Selection;
    var to: nat :| to <= |out| && Layer(m, out, 0, to, groupOrder, locale)
                   && Layered(m, out, to, groupOrder, locale);
    LayerBounds(m, out, 0, to, groupOrder, locale);
    ReadyInLayer(m, out, 0, to, j, groupOrder, locale);
    ReadyPrecede(m, out, 0, to, i, j, groupOrder, locale);
    FirstLayer(m, out, to, i);
  }

  lemma FirstLayer(m: map<Name, Package>, out: seq<Package>, to: nat, i: nat)
    requires Selection(m, out) && i < to <= |out|
    requires ReadyLayer(m, SinkCycles.Members(Names(out[..0])), out[0..to])
    ensures forall d :: d !in out[i].deps
  {
    assert out[i] in out && Names(out[0..to])[i] == out[i].short;
    assert ReadyAfter(m, SinkCycles.Members(Names(out[..0])), out[i].short);
    assert out[i].short in Names(out[0..to]) && m[out[i].short] == out[i];
  }

  // ----- what the output means -----

  lemma {:induction false} ByNameOfDistinct(ps: seq<Package>, p: Package)
    requires Distinct(Names(ps)) && p in ps
    ensures p.short in ByName(ps) && ByName(ps)[p.short] == p
  {
    var n := |ps| - 1;
    assert ps == ps[..n] + [ps[n]];
    if ps[n] != p {
      var i :| 0 <= i < n && ps[i] == p;
      assert Names(ps)[i] != Names(ps)[n];
      assert forall k :: 0 <= k < n ==> Names(ps[..n])[k] == Names(ps)[k];
      ByNameOfDistinct(ps[..n], p);
    }
  }

  /** With distinct names the output is a permutation of the input. */
  lemma OutputPermutes(ps: seq<Package>, out: seq<Package>, groupOrder: seq<string>, locale: (string, string) -> int)
    requires Distinct(Names(ps)) && DependencyOrder(ByName(ps), out, groupOrder, locale)
    ensures multiset(out) == multiset(ps)
  {
    hide OnCourse, DependenciesFirst, ByName;
    ByNameKeys(ps);
    var m := ByName(ps);
    forall p ensures p in ps <==> p in out {
      if p in ps {
        ByNameOfDistinct(ps, p);
        assert p.short in Names(out);
        NamesMember(out, p.short);
        var q :| q in out && q.short == p.short;
        assert m[q.short] == q;
      }
      if p in out {
        assert m[p.short] == p;
      }
    }
    SelectionDistinct(ps);
    SelectionDistinct(out);
    SameElements(ps, out);
  }

  /** `b` describes the same package as `a`, its dependencies possibly listed in another order. */
  ghost predicate SamePackage(a: Package, b: Package) {
    a.short == b.short && a.group == b.group && forall d :: d in a.deps <==> d in b.deps
  }

  /** The same packages with the same edges, however both lists are arranged. */
  ghost predicate SamePackages(ps: seq<Package>, qs: seq<Package>) {
    && Distinct(Names(ps)) && Distinct(Names(qs))
    && Covers(ps, qs) && Covers(qs, ps)
  }

  ghost predicate Covers(ps: seq<Package>, qs: seq<Package>) {
    forall p :: p in ps ==> exists q :: q in qs && SamePackage(p, q)
  }

  lemma Counterpart(ps: seq<Package>, qs: seq<Package>, p: Package) returns (q: Package)
    requires Covers(ps, qs) && p in ps
    ensures q in qs && SamePackage(p, q)
  {
    hide SamePackage;
    q :| q in qs && SamePackage(p, q);
  }

  lemma SameMaps(ps: seq<Package>, qs: seq<Package>, n: Name)
    requires SamePackages(ps, qs) && n in ByName(ps)
    ensures n in ByName(qs) && SamePackage(ByName(ps)[n], ByName(qs)[n])
  {
    hide ByName, Distinct, Covers;
    ByNameKeys(ps);
    var q := Counterpart(ps, qs, ByName(ps)[n]);
    ByNameOfDistinct(qs, q);
  }

  lemma SamePackagesSwap(ps: seq<Package>, qs: seq<Package>)
    requires SamePackages(ps, qs)
    ensures SamePackages(qs, ps)
  {
    hide Distinct, Covers;
  }

  lemma SameCompare(a: Package, b: Package, a': Package, b': Package,
                    groupOrder: seq<string>, locale: (string, string) -> int)
    requires SamePackage(a, a') && SamePackage(b, b')
    ensures Compare(a, b, groupOrder, locale) == Compare(a', b', groupOrder, locale)
  {
  }

  /** The output names depend only on the set of packages and edges, cycles included. */
  lemma OutputCanonical(ps: seq<Package>, qs: seq<Package>, a: seq<Package>, b: seq<Package>,
                        groupOrder: seq<string>, locale: (string, string) -> int)
    requires LocaleOrder(locale) && SamePackages(ps, qs)
    requires DependencyOrder(ByName(ps), a, groupOrder, locale)
    requires DependencyOrder(ByName(qs), b, groupOrder, locale)
    ensures Names(a) == Names(b)
  {
    hide ByName, LocaleOrder, Compare, DependenciesFirst, SamePackages, SamePackage, Selection;
    var m, k := ByName(ps), ByName(qs);
    SamePackagesSwap(ps, qs);
    forall n ensures n in m <==> n in k {
      if n in m { SameMaps(ps, qs, n); }
      if n in k { SameMaps(qs, ps, n); }
    }
    assert m.Keys == k.Keys;
    var less, other := NameLess(m, groupOrder, locale), NameLess(k, groupOrder, locale);
    forall x, y | x in m && y in m ensures less(x, y) == other(x, y) {
      SameMaps(ps, qs, x);
      SameMaps(ps, qs, y);
      SameCompare(m[x], m[y], k[x], k[y], groupOrder, locale);
    }
    SameGraphs(ps, qs);
    Canonical(GraphOf(m), GraphOf(k), m.Keys, less, other);
    assert Names(a) == Order(GraphOf(m), m.Keys, less);
    assert Names(b) == Order(GraphOf(k), k.Keys, other);
  }

  lemma SameGraphs(ps: seq<Package>, qs: seq<Package>)
    requires SamePackages(ps, qs) && ByName(ps).Keys == ByName(qs).Keys
    ensures SameEdges(GraphOf(ByName(ps)), GraphOf(ByName(qs)))
  {
    hide ByName, SamePackages;
    forall n | n in ByName(ps) ensures SamePackage(ByName(ps)[n], ByName(qs)[n]) {
      SameMaps(ps, qs, n);
    }
  }
}
