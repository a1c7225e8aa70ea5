/** Grouping of migration failures for the batch report. */
module FailureSummary {
  import opened Ordering
  import opened JobPool
  import opened MigrationOutcomes
  import opened Options

  /** The group key: everything but the path. */
  datatype Key = Key(version: SourceVersion, diagnostic: Diagnostic)

  datatype Group = Group(key: Key, count: nat, items: seq<FailedInput>)

  function KeyOf(f: FailedInput): Key {
    Key(f.version, f.diagnostic)
  }

  /** The failure is of that version, reason, error name, event type, member and child flag. */
  predicate Carries(f: FailedInput, k: Key) {
    && f.version == k.version
    && f.diagnostic.reason == k.diagnostic.reason && f.diagnostic.errorName == k.diagnostic.errorName
    && f.diagnostic.eventType == k.diagnostic.eventType && f.diagnostic.member == k.diagnostic.member
    && f.diagnostic.child == k.diagnostic.child
  }

  /** Two failures share a group key exactly when they agree in everything but the path. */
  lemma KeyCarries(f: FailedInput, k: Key)
    ensures KeyOf(f) == k <==> Carries(f, k)
  {
  }

  /** The failures with one key, in order. */
  function Having(fs: seq<FailedInput>, k: Key): seq<FailedInput> {
    if fs == [] then []
    else Having(fs[..|fs| - 1], k) + if Carries(fs[|fs| - 1], k) then [fs[|fs| - 1]] else []
  }

  function Counted(groups: seq<Group>): nat {
    if groups == [] then 0 else Counted(groups[..|groups| - 1]) + groups[|groups| - 1].count
  }

  function Keys(groups: seq<Group>): (r: seq<Key>)
    ensures |r| == |groups|
  {
    seq(|groups|, i requires 0 <= i < |groups| => groups[i].key)
  }

  function HavingOver(fs: seq<FailedInput>, keys: seq<Key>): nat {
    if keys == [] then 0 else HavingOver(fs, keys[..|keys| - 1]) + |Having(fs, keys[|keys| - 1])|
  }

  lemma {:induction false} HavingNothing(keys: seq<Key>)
    ensures HavingOver([], keys) == 0
  {
    if keys != [] {
      HavingNothing(keys[..|keys| - 1]);
    }
  }

  lemma {:induction false} HavingAppend(fs: seq<FailedInput>, f: FailedInput, keys: seq<Key>)
    requires Distinct(keys)
    ensures HavingOver(fs + [f], keys) == HavingOver(fs, keys) + if KeyOf(f) in keys then 1 else 0
  {
    assert (fs + [f])[..|fs|] == fs;
    if keys != [] {
      var n := |keys| - 1;
      HavingAppend(fs, f, keys[..n]);
      assert keys == keys[..n] + [keys[n]];
      assert keys[n] !in keys[..n];
    }
  }

  /** Distinct keys that cover every failure share them out without loss. */
  lemma {:induction false} HavingAll(fs: seq<FailedInput>, keys: seq<Key>)
    requires Distinct(keys) && forall f :: f in fs ==> KeyOf(f) in keys
    ensures HavingOver(fs, keys) == |fs|
  {
    if fs == [] {
      HavingNothing(keys);
    } else {
      var n := |fs| - 1;
      assert fs == fs[..n] + [fs[n]];
      HavingAll(fs[..n], keys);
      HavingAppend(fs[..n], fs[n], keys);
    }
  }

  /** Each group holds exactly the failures of its key, and every failure has its group. */
  ghost predicate Summary(fs: seq<FailedInput>, groups: seq<Group>) {
    && Distinct(Keys(groups))
    && (forall g :: g in groups ==> g.count == |g.items| && multiset(g.items) == multiset(Having(fs, g.key)))
    && (forall f :: f in fs ==> KeyOf(f) in Keys(groups))
  }

  lemma {:induction false} CountedIsHaving(fs: seq<FailedInput>, groups: seq<Group>)
    requires forall g :: g in groups ==> g.count == |g.items| && multiset(g.items) == multiset(Having(fs, g.key))
    ensures Counted(groups) == HavingOver(fs, Keys(groups))
  {
    if groups != [] {
      var n := |groups| - 1;
      CountedIsHaving(fs, groups[..n]);
      assert Keys(groups)[..n] == Keys(groups[..n]);
      assert groups[n] in groups;
      assert |multiset(groups[n].items)| == |multiset(Having(fs, groups[n].key))|;
    }
  }

  /** The group counts add up to the number of failures. */
  lemma GroupsCountFailures(fs: seq<FailedInput>, groups: seq<Group>)
    requires Summary(fs, groups)
    ensures Counted(groups) == |fs|
  {
    hide Distinct, Keys, Having;
    CountedIsHaving(fs, groups);
    HavingAll(fs, Keys(groups));
  }

  /** After any completed migration the group counts add up to the failed total, with one group per key. */
  lemma GroupsCountFailedTotal(candidates: seq<Candidate>, jobs: nat, schedule: seq<Action<Entry>>, s: State<Entry>,
                               totals: Counts, bySourceVersion: map<SourceVersion, Counts>, failures: seq<FailedInput>,
                               groups: seq<Group>)
    requires jobs > 0 && Runs(Start(|candidates|, jobs), schedule, s) && s.phase.Succeeded?
    requires Faithful(candidates, s.log) && Tallied(totals, bySourceVersion, failures, Recorded(s.log))
    requires Summary(failures, groups)
    ensures Counted(groups) == totals.failed
  {
    hide Runs, Faithful, Tallied, Summary;
    TotalsConserved(candidates, jobs, schedule, s, totals, bySourceVersion, failures);
    GroupsCountFailures(failures, groups);
  }

  /** The group map during the loop, with its keys in insertion order. */
  ghost predicate Grouped(fs: seq<FailedInput>, order: seq<Key>, groups: map<Key, Group>) {
    && Distinct(order)
    && (forall k :: k in order <==> k in groups)
    && (forall k :: k in groups ==> groups[k] == Group(k, |Having(fs, k)|, Having(fs, k)))
    && (forall f :: f in fs ==> KeyOf(f) in groups)
  }

  lemma GroupNext(fs: seq<FailedInput>, f: FailedInput, order: seq<Key>, groups: map<Key, Group>)
    requires Grouped(fs, order, groups)
    ensures var k := KeyOf(f);
            var was := if k in groups then groups[k] else Group(k, 0, []);
            Grouped(fs + [f], if k in groups then order else order + [k],
                    groups[k := Group(k, was.count + 1, was.items + [f])])
  {
    var all := fs + [f];
    assert all[..|fs|] == fs;
    assert forall k :: Having(all, k) == Having(fs, k) + if KeyOf(f) == k then [f] else [];
    if KeyOf(f) !in groups {
      NothingHas(fs, KeyOf(f));
    }
  }

  lemma {:induction false} NothingHas(fs: seq<FailedInput>, k: Key)
    requires forall f :: f in fs ==> KeyOf(f) != k
    ensures Having(fs, k) == []
  {
    if fs != [] {
      assert fs[|fs| - 1] in fs;
      KeyCarries(fs[|fs| - 1], k);
      NothingHas(fs[..|fs| - 1], k);
    }
  }

  /** Group the failures by key; sort the groups by key and each group's items by path. */
  method SummarizeFailures(failures: seq<FailedInput>, keyLeq: (Key, Key) -> bool,
                           pathLeq: (FailedInput, FailedInput) -> bool)
    returns (groups: seq<Group>)
    ensures Summary(failures, groups)
    ensures TotalPreorder(keyLeq) ==> Sorted(Keys(groups), keyLeq)
    ensures TotalPreorder(pathLeq) ==> forall g :: g in groups ==> Sorted(g.items, pathLeq)
  {
    hide Distinct, Having, SortBy, Insert, KeyOf;
    var table: map<Key, Group> := map[];
    var order: seq<Key> := [];
    NoGroups();
    var i := 0;
    while i < |failures|
      invariant i <= |failures| && Grouped(failures[..i], order, table)
    {
      var f := failures[i];
      GroupNext(failures[..i], f, order, table);
      assert failures[..i + 1] == failures[..i] + [f];
      var k := KeyOf(f);
      var group := if k in table then table[k] else Group(k, 0, []);
      if k !in table {
        order := order + [k];
      }
      table := table[k := Group(k, group.count + 1, group.items + [f])];
      i := i + 1;
    }
    assert failures[..i] == failures;
    groups := Listed(failures, order, table, keyLeq, pathLeq);
  }

  lemma NoGroups()
    ensures Grouped([], [], map[])
  {
  }

  /** The final sorts: the groups by key, each group's items by path. */
  method Listed(ghost failures: seq<FailedInput>, order: seq<Key>, table: map<Key, Group>,
                keyLeq: (Key, Key) -> bool, pathLeq: (FailedInput, FailedInput) -> bool)
    returns (groups: seq<Group>)
    requires Grouped(failures, order, table)
    ensures Summary(failures, groups)
    ensures TotalPreorder(keyLeq) ==> Sorted(Keys(groups), keyLeq)
    ensures TotalPreorder(pathLeq) ==> forall g :: g in groups ==> Sorted(g.items, pathLeq)
  {
    hide Having, SortBy, Insert, KeyOf, TotalPreorder, Sorted, Keys;
    var listed := seq(|order|, i requires 0 <= i < |order| => table[order[i]]);
    assert forall k :: 0 <= k < |order| ==> order[k] in order;
    var byKey := (a: Group, b: Group) => keyLeq(a.key, b.key);
    var sorted := SortBy(listed, byKey);
    SortPermutes(listed, byKey);
    groups := [];
    var j := 0;
    while j < |sorted|
      invariant j == |groups| <= |sorted|
      invariant forall k :: 0 <= k < j ==> groups[k].key == sorted[k].key && groups[k].count == sorted[k].count
                                           && multiset(groups[k].items) == multiset(sorted[k].items)
      invariant TotalPreorder(pathLeq) ==> forall g :: g in groups ==> Sorted(g.items, pathLeq)
    {
      var g := sorted[j];
      SortPermutes(g.items, pathLeq);
      if TotalPreorder(pathLeq) {
        SortSorts(g.items, pathLeq);
      }
      groups := groups + [Group(g.key, g.count, SortBy(g.items, pathLeq))];
      j := j + 1;
    }
    SortedSummary(failures, order, table, listed, sorted, groups);
    if TotalPreorder(keyLeq) {
      KeysSorted(listed, sorted, groups, keyLeq, byKey);
    }
  }

  lemma KeysSorted(listed: seq<Group>, sorted: seq<Group>, groups: seq<Group>, keyLeq: (Key, Key) -> bool,
                   byKey: (Group, Group) -> bool)
    requires TotalPreorder(keyLeq) && forall a, b :: byKey(a, b) <==> keyLeq(a.key, b.key)
    requires sorted == SortBy(listed, byKey) && |groups| == |sorted|
    requires forall k :: 0 <= k < |groups| ==> groups[k].key == sorted[k].key
    ensures Sorted(Keys(groups), keyLeq)
  {
    hide SortBy;
    SortSorts(listed, byKey);
    forall i, j | 0 <= i < j < |groups| ensures keyLeq(groups[i].key, groups[j].key) {
      assert byKey(sorted[i], sorted[j]);
    }
  }

  lemma SortedSummary(fs: seq<FailedInput>, order: seq<Key>, table: map<Key, Group>, listed: seq<Group>,
                      sorted: seq<Group>, groups: seq<Group>)
    requires Grouped(fs, order, table)
    requires |listed| == |order| && forall i :: 0 <= i < |order| ==> order[i] in table && listed[i] == table[order[i]]
    requires multiset(sorted) == multiset(listed) && |groups| == |sorted|
    requires forall k :: 0 <= k < |groups| ==> groups[k].key == sorted[k].key && groups[k].count == sorted[k].count
                                               && multiset(groups[k].items) == multiset(sorted[k].items)
    ensures Summary(fs, groups)
  {
    hide Having, KeyOf;
    forall g | g in sorted ensures g.key in order && g == table[g.key] {
      PermutedMember(sorted, listed, g);
    }
    ListedDistinct(order, table, listed);
    PermutedDistinct(listed, sorted);
    forall i, j | 0 <= i < j < |groups| ensures Keys(groups)[i] != Keys(groups)[j] {
      assert sorted[i] in sorted && sorted[j] in sorted;
    }
    forall g | g in groups ensures g.count == |g.items| && multiset(g.items) == multiset(Having(fs, g.key)) {
      var k :| 0 <= k < |groups| && groups[k] == g;
      assert sorted[k] in sorted;
      assert |multiset(g.items)| == |multiset(sorted[k].items)|;
    }
    forall f | f in fs ensures KeyOf(f) in Keys(groups) {
      var i :| 0 <= i < |order| && order[i] == KeyOf(f);
      PermutedMember(sorted, listed, listed[i]);
      assert listed[i] in listed;
      var k :| 0 <= k < |sorted| && sorted[k] == listed[i];
      assert Keys(groups)[k] == KeyOf(f);
    }
  }

  lemma ListedDistinct(order: seq<Key>, table: map<Key, Group>, listed: seq<Group>)
    requires Distinct(order) && |listed| == |order|
    requires forall i :: 0 <= i < |order| ==> order[i] in table && listed[i] == table[order[i]]
    requires forall k :: k in table ==> table[k].key == k
    ensures Distinct(listed)
  {
  }
}
