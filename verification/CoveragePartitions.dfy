/** Longest-processing-time assignment of spec files to coverage partitions, over an in-place binary heap. */
module CoveragePartitions {
  import opened Ordering
  import opened MakespanBound

  datatype Bucket = Bucket(sum: real, files: seq<string>)

  datatype Weighted = Weighted(file: string, weight: real)

  const UNKNOWN_FILE_WEIGHT := 1.0

  function WeightOf(file: string, weights: map<string, real>): real {
    if file in weights then weights[file] else UNKNOWN_FILE_WEIGHT
  }

  // ----- the heap -----

  predicate BucketLess(left: Bucket, right: Bucket) {
    if left.sum != right.sum then left.sum < right.sum else |left.files| < |right.files|
  }

  function Parent(j: nat): nat
    requires j > 0
  {
    (j - 1) / 2
  }

  /** Every slot names a bucket. */
  ghost predicate Slots(bs: seq<Bucket>, h: seq<nat>) {
    forall j :: 0 <= j < |h| ==> h[j] < |bs|
  }

  /** The bucket at position `j` is no leaner than the one at position `i`. */
  ghost predicate Above(bs: seq<Bucket>, h: seq<nat>, i: nat, j: nat)
    requires Slots(bs, h) && i < |h| && j < |h|
  {
    !BucketLess(bs[h[j]], bs[h[i]])
  }

  /** Heap order on every edge, except those leaving position `hole`. */
  ghost predicate HeapBut(bs: seq<Bucket>, h: seq<nat>, hole: nat)
    requires Slots(bs, h)
  {
    forall j :: 0 < j < |h| && Parent(j) != hole ==> Above(bs, h, Parent(j), j)
  }

  ghost predicate Heap(bs: seq<Bucket>, h: seq<nat>)
    requires Slots(bs, h)
  {
    forall j :: 0 < j < |h| ==> Above(bs, h, Parent(j), j)
  }

  /** The children of `hole` respect its parent. */
  ghost predicate Bridged(bs: seq<Bucket>, h: seq<nat>, hole: nat)
    requires Slots(bs, h)
  {
    forall j :: 0 < j < |h| && Parent(j) == hole && 0 < hole ==> Above(bs, h, Parent(hole), j)
  }

  /** The root of a heap is a leanest bucket. */
  lemma {:induction false} RootLeanest(bs: seq<Bucket>, h: seq<nat>, j: nat)
    requires Slots(bs, h) && Heap(bs, h) && j < |h|
    ensures Above(bs, h, 0, j)
  {
    if j != 0 {
      RootLeanest(bs, h, Parent(j));
      assert Above(bs, h, Parent(j), j);
    }
  }

  function Swap(h: seq<nat>, i: nat, c: nat): seq<nat>
    requires i < |h| && c < |h|
  {
    h[i := h[c]][c := h[i]]
  }

  lemma SwapKeeps(bs: seq<Bucket>, h: seq<nat>, i: nat, c: nat)
    requires Slots(bs, h) && i < |h| && c < |h|
    ensures Slots(bs, Swap(h, i, c)) && multiset(Swap(h, i, c)) == multiset(h)
  {
  }

  /** Moving the leaner child up repairs position `i` and leaves position `c` to repair. */
  lemma SwapDescends(bs: seq<Bucket>, h: seq<nat>, i: nat, c: nat)
    requires Slots(bs, h) && HeapBut(bs, h, i) && Bridged(bs, h, i)
    requires 0 < c < |h| && Parent(c) == i
    requires forall j :: 0 < j < |h| && Parent(j) == i ==> Above(bs, h, c, j)
    requires Above(bs, h, c, i)
    ensures Slots(bs, Swap(h, i, c)) && HeapBut(bs, Swap(h, i, c), c) && Bridged(bs, Swap(h, i, c), c)
  {
    var t := Swap(h, i, c);
    SwapKeeps(bs, h, i, c);
    forall j | 0 < j < |t| && Parent(j) != c ensures Above(bs, t, Parent(j), j) {
      if Parent(j) != i && j != i {
        assert Above(bs, h, Parent(j), j);
      } else if j == i {
        assert Above(bs, h, Parent(i), c);
      } else {
        assert Above(bs, h, c, j);
      }
    }
    forall j | 0 < j < |t| && Parent(j) == c ensures Above(bs, t, Parent(c), j) {
      assert Above(bs, h, Parent(j), j);
    }
  }

  /** Restore the heap below `start` after its bucket grew heavier. */
  method SiftDown(buckets: array<Bucket>, heap: array<nat>, start: nat)
    requires buckets != heap as object && start < heap.Length
    requires Slots(buckets[..], heap[..]) && HeapBut(buckets[..], heap[..], start)
        && Bridged(buckets[..], heap[..], start)
    modifies heap
    ensures multiset(heap[..]) == old(multiset(heap[..]))
    ensures Slots(buckets[..], heap[..]) && Heap(buckets[..], heap[..])
  {
    hide BucketLess;
    var size := heap.Length;
    var index := start;
    ghost var bs := buckets[..];
    while true
      invariant index < size && heap.Length == size && buckets[..] == bs
      invariant multiset(heap[..]) == old(multiset(heap[..]))
      invariant Slots(bs, heap[..]) && HeapBut(bs, heap[..], index) && Bridged(bs, heap[..], index)
      decreases size - index
    {
      ghost var h := heap[..];
      var smallest := Smallest(buckets, heap, index);
      if smallest == index {
        return;
      }
      SwapDescends(bs, h, index, smallest);
      SwapKeeps(bs, h, index, smallest);
      heap[index], heap[smallest] := heap[smallest], heap[index];
      assert heap[..] == Swap(h, index, smallest);
      index := smallest;
    }
  }

  /** The leanest of a position and its children, preferring the position, then the left child. */
  method Smallest(buckets: array<Bucket>, heap: array<nat>, index: nat) returns (smallest: nat)
    requires index < heap.Length && Slots(buckets[..], heap[..])
    ensures smallest == index || (0 < smallest < heap.Length && Parent(smallest) == index && index < smallest)
    ensures Above(buckets[..], heap[..], smallest, index)
    ensures forall j :: 0 < j < heap.Length && Parent(j) == index ==> Above(buckets[..], heap[..], smallest, j)
  {
    var left := 2 * index + 1;
    var right := 2 * index + 2;
    ghost var bs, h := buckets[..], heap[..];
    smallest := index;
    assert h[index] < |bs|;
    if left < heap.Length {
      assert h[left] < |bs|;
      if BucketLess(buckets[heap[left]], buckets[heap[smallest]]) {
        smallest := left;
      }
    }
    if right < heap.Length {
      assert h[right] < |bs| && h[smallest] < |bs|;
      if BucketLess(buckets[heap[right]], buckets[heap[smallest]]) {
        smallest := right;
      }
    }
    forall j | 0 < j < heap.Length && Parent(j) == index ensures Above(bs, h, smallest, j) {
      assert j == left || j == right;
    }
  }

  // ----- assignment -----

  function FilesOf(ws: seq<Weighted>): (r: seq<string>)
    ensures |r| == |ws|
  {
    seq(|ws|, i requires 0 <= i < |ws| => ws[i].file)
  }

  function WeightsOf(ws: seq<Weighted>): (r: seq<real>)
    ensures |r| == |ws|
  {
    seq(|ws|, i requires 0 <= i < |ws| => ws[i].weight)
  }

  /** The files of bucket `b` after the first `n`, in order of placement. */
  function Placed(files: seq<string>, a: seq<nat>, b: nat, n: nat): seq<string>
    requires n <= |files| && n <= |a|
  {
    if n == 0 then []
    else if a[n - 1] == b then Placed(files, a, b, n - 1) + [files[n - 1]]
    else Placed(files, a, b, n - 1)
  }

  /** Heavier files first, then by name. */
  function HeavierFirst(locale: (string, string) -> int): (Weighted, Weighted) -> bool {
    (a: Weighted, b: Weighted) => a.weight > b.weight || (a.weight == b.weight && locale(a.file, b.file) <= 0)
  }

  /** The buckets hold what the assignment so far put there. */
  ghost predicate Filled(bs: seq<Bucket>, ws: seq<Weighted>, a: seq<nat>) {
    && |a| <= |ws|
    && forall b :: 0 <= b < |bs| ==>
         && bs[b].sum == Load(WeightsOf(ws), a, b, |a|)
         && bs[b].files == Placed(FilesOf(ws), a, b, |a|)
         && |bs[b].files| == Count(a, b, |a|)
  }

  ghost predicate GreedySoFar(w: seq<real>, a: seq<nat>, p: nat) {
    && |a| <= |w| && (forall k :: 0 <= k < |a| ==> a[k] < p)
    && forall k :: 0 <= k < |a| ==> Leanest(w, a, p, a[k], k)
  }

  lemma {:induction false} Prefix(w: seq<real>, files: seq<string>, a: seq<nat>, x: nat, b: nat, n: nat)
    requires n <= |a| && |a| < |w| == |files|
    ensures Load(w, a + [x], b, n) == Load(w, a, b, n)
    ensures Count(a + [x], b, n) == Count(a, b, n)
    ensures Placed(files, a + [x], b, n) == Placed(files, a, b, n)
  {
    if n != 0 {
      Prefix(w, files, a, x, b, n - 1);
    }
  }

  lemma LeanestPrefix(w: seq<real>, files: seq<string>, a: seq<nat>, x: nat, p: nat, b: nat, k: nat)
    requires k <= |a| && |a| < |w| == |files| && Leanest(w, a, p, b, k)
    ensures Leanest(w, a + [x], p, b, k)
  {
    hide Load, Count, Leaner;
    Prefix(w, files, a, x, b, k);
    forall c | 0 <= c < p
      ensures !Leaner(Load(w, a + [x], c, k), Count(a + [x], c, k), Load(w, a + [x], b, k), Count(a + [x], b, k))
    {
      Prefix(w, files, a, x, c, k);
    }
  }

  /** Placing the next file in a leanest bucket keeps the assignment greedy. */
  lemma PlaceGreedily(ws: seq<Weighted>, a: seq<nat>, p: nat, x: nat)
    requires GreedySoFar(WeightsOf(ws), a, p) && |a| < |ws| && Leanest(WeightsOf(ws), a, p, x, |a|)
    ensures GreedySoFar(WeightsOf(ws), a + [x], p)
  {
    hide Leanest;
    var w := WeightsOf(ws);
    assert x < p by { LeanestBound(w, a, p, x, |a|); }
    forall k | 0 <= k < |a + [x]| ensures Leanest(w, a + [x], p, (a + [x])[k], k) {
      LeanestPrefix(w, FilesOf(ws), a, x, p, (a + [x])[k], k);
    }
  }

  lemma LeanestBound(w: seq<real>, a: seq<nat>, p: nat, x: nat, k: nat)
    requires k <= |w| && k <= |a| && Leanest(w, a, p, x, k)
    ensures x < p
  {
  }

  /** Updating one bucket matches one step of the assignment. */
  lemma FillOne(bs: seq<Bucket>, ws: seq<Weighted>, a: seq<nat>, x: nat, bs': seq<Bucket>)
    requires Filled(bs, ws, a) && |a| < |ws| && x < |bs|
    requires bs' == bs[x := Bucket(bs[x].sum + ws[|a|].weight, bs[x].files + [ws[|a|].file])]
    ensures Filled(bs', ws, a + [x])
  {
    forall b | 0 <= b < |bs|
      ensures bs'[b].sum == Load(WeightsOf(ws), a + [x], b, |a| + 1)
      ensures bs'[b].files == Placed(FilesOf(ws), a + [x], b, |a| + 1)
      ensures |bs'[b].files| == Count(a + [x], b, |a| + 1)
    {
      Prefix(WeightsOf(ws), FilesOf(ws), a, x, b, |a|);
    }
  }

  /** Every bucket is somewhere in the heap, so its root is a leanest bucket of all. */
  lemma RootIsLeanest(bs: seq<Bucket>, h: seq<nat>, ws: seq<Weighted>, a: seq<nat>)
    requires Slots(bs, h) && Heap(bs, h) && |h| > 0 && Filled(bs, ws, a)
    requires forall b :: 0 <= b < |bs| ==> b in h
    ensures Leanest(WeightsOf(ws), a, |bs|, h[0], |a|)
  {
    hide Load, Count, Placed, Heap;
    forall c | 0 <= c < |bs|
      ensures !Leaner(Load(WeightsOf(ws), a, c, |a|), Count(a, c, |a|),
                      Load(WeightsOf(ws), a, h[0], |a|), Count(a, h[0], |a|))
    {
      assert c in h;
      var j :| 0 <= j < |h| && h[j] == c;
      RootLeanest(bs, h, j);
    }
  }

  /** A heavier root is the only edge break, so `siftDown` may start there. */
  lemma HeavierRoot(bs: seq<Bucket>, h: seq<nat>, bs': seq<Bucket>)
    requires Slots(bs, h) && Heap(bs, h) && |h| > 0 && |bs'| == |bs|
    requires Distinct(h)
    requires forall b :: 0 <= b < |bs| && b != h[0] ==> bs'[b] == bs[b]
    ensures Slots(bs', h) && HeapBut(bs', h, 0) && Bridged(bs', h, 0)
  {
    hide BucketLess;
    forall j | 0 < j < |h| && Parent(j) != 0 ensures Above(bs', h, Parent(j), j) {
      assert Above(bs, h, Parent(j), j);
    }
  }

  datatype Result = Assigned(partitions: seq<seq<string>>) | NoHeap

  /** The weight recorded for the file; one that no run recorded counts as one. */
  ghost predicate Recorded(w: Weighted, weights: map<string, real>) {
    && (w.file in weights ==> w.weight == weights[w.file])
    && (w.file !in weights ==> w.weight == 1.0)
  }

  lemma RecordedExactly(w: Weighted, weights: map<string, real>)
    ensures Recorded(w, weights) <==> w.weight == WeightOf(w.file, weights)
  {
  }

  /** Of files with equal weight the smaller name stands first. */
  ghost predicate NamedInOrder(ws: seq<Weighted>, locale: (string, string) -> int) {
    forall i, j :: 0 <= i < j < |ws| && ws[i].weight == ws[j].weight ==> locale(ws[i].file, ws[j].file) <= 0
  }

  /** What an assignment owes its caller, told by the placement order `ws` and the buckets `a` chosen. */
  ghost predicate Plan(files: seq<string>, weights: map<string, real>, p: nat, locale: (string, string) -> int,
                       lists: seq<seq<string>>, ws: seq<Weighted>, a: seq<nat>)
  {
    && multiset(FilesOf(ws)) == multiset(files)
    && (forall i :: 0 <= i < |ws| ==> Recorded(ws[i], weights))
    && (LocaleOrder(locale) ==> Descending(WeightsOf(ws)) && NamedInOrder(ws, locale))
    && Greedy(WeightsOf(ws), a, p)
    && |lists| == p && (forall b :: 0 <= b < p ==> lists[b] == Placed(FilesOf(ws), a, b, |a|))
  }

  function Weigh(files: seq<string>, weights: map<string, real>): (r: seq<Weighted>)
    ensures |r| == |files|
  {
    seq(|files|, i requires 0 <= i < |files| => Weighted(files[i], WeightOf(files[i], weights)))
  }

  lemma HeavierPreorder(locale: (string, string) -> int)
    requires LocaleOrder(locale)
    ensures TotalPreorder(HeavierFirst(locale))
  {
    var leq := HeavierFirst(locale);
    forall a, b ensures leq(a, b) || leq(b, a) {
      assert locale(a.file, b.file) < 0 <==> locale(b.file, a.file) > 0;
    }
    forall a, b, c | leq(a, b) && leq(b, c) ensures leq(a, c) {
      if a.weight == b.weight == c.weight {
        assert locale(a.file, b.file) <= 0 && locale(b.file, c.file) <= 0;
      }
    }
  }

  function Removed<T>(s: seq<T>, i: nat): seq<T>
    requires i < |s|
  {
    s[..i] + s[i + 1..]
  }

  lemma RemovedBeforeLast<T>(s: seq<T>, i: nat)
    requires i + 1 < |s|
    ensures Removed(s, i) == Removed(s[..|s| - 1], i) + [s[|s| - 1]]
  {
  }

  lemma RemovedLast<T>(s: seq<T>)
    requires s != []
    ensures Removed(s, |s| - 1) == s[..|s| - 1]
  {
  }

  lemma RemoveOne<T>(s: seq<T>, i: nat)
    requires i < |s|
    ensures multiset(s) == multiset(Removed(s, i)) + multiset{s[i]}
  {
    assert s == s[..i] + [s[i]] + s[i + 1..];
  }

  lemma RemoveFile(ws: seq<Weighted>, i: nat)
    requires i < |ws|
    ensures FilesOf(Removed(ws, i)) == Removed(FilesOf(ws), i)
  {
  }

  lemma {:induction false} FilesPermute(a: seq<Weighted>, b: seq<Weighted>)
    requires multiset(a) == multiset(b)
    ensures multiset(FilesOf(a)) == multiset(FilesOf(b))
    decreases |a|, 1
  {
    hide FilesOf, Removed;
    if a == [] {
      assert |b| == |multiset(b)|;
      assert b == [];
    } else {
      assert a[0] in multiset(b);
      var i :| 0 <= i < |b| && b[i] == a[0];
      FilesStep(a, b, i);
    }
  }

  lemma FilesStep(a: seq<Weighted>, b: seq<Weighted>, i: nat)
    requires multiset(a) == multiset(b) && a != [] && i < |b| && b[i] == a[0]
    ensures multiset(FilesOf(a)) == multiset(FilesOf(b))
    decreases |a|, 0
  {
    hide Removed;
    RemoveOne(a, 0);
    RemoveOne(b, i);
    assert multiset(Removed(a, 0)) == multiset(a) - multiset{a[0]};
    assert multiset(Removed(b, i)) == multiset(b) - multiset{a[0]};
    RemoveOne(FilesOf(a), 0);
    RemoveOne(FilesOf(b), i);
    RemoveFile(a, 0);
    RemoveFile(b, i);
    assert |Removed(a, 0)| < |a| by { RemovedLength(a, 0); }
    FilesPermute(Removed(a, 0), Removed(b, i));
  }

  lemma RemovedLength<T>(s: seq<T>, i: nat)
    requires i < |s|
    ensures |Removed(s, i)| == |s| - 1
  {
  }

  /** The sorted inventory: same files, true weights, heaviest first. */
  lemma SortedInventory(files: seq<string>, weights: map<string, real>, locale: (string, string) -> int)
    ensures var ws := SortBy(Weigh(files, weights), HeavierFirst(locale));
            && |ws| == |files|
            && multiset(FilesOf(ws)) == multiset(files)
            && (forall i :: 0 <= i < |ws| ==> ws[i].weight == WeightOf(ws[i].file, weights))
            && (LocaleOrder(locale) ==> Descending(WeightsOf(ws)) && NamedInOrder(ws, locale))
  {
    hide Insert, SortBy, LocaleOrder;
    var raw := Weigh(files, weights);
    var ws := SortBy(raw, HeavierFirst(locale));
    SortPermutes(raw, HeavierFirst(locale));
    assert |multiset(ws)| == |multiset(raw)|;
    FilesPermute(ws, raw);
    assert FilesOf(raw) == files;
    forall i | 0 <= i < |ws| ensures ws[i].weight == WeightOf(ws[i].file, weights) {
      PermutedMember(ws, raw, ws[i]);
      assert ws[i] in ws;
    }
    if LocaleOrder(locale) {
      HeavierPreorder(locale);
      SortSorts(raw, HeavierFirst(locale));
    }
  }

  /** Every file goes, heaviest first, to a currently leanest partition. */
  method AssignWeightedPartitions(files: seq<string>, weights: map<string, real>, partitions: nat,
                                  locale: (string, string) -> int)
    returns (r: Result, ghost ws: seq<Weighted>, ghost a: seq<nat>)
    ensures r == NoHeap <==> files != [] && partitions == 0
    ensures r.Assigned? ==> Plan(files, weights, partitions, locale, r.partitions, ws, a)
  {
    hide Insert, SortBy, LocaleOrder, Greedy, Filled, Heap, HeapBut, Bridged, Slots, Plan, Leanest, Descending;
    if files == [] {
      ws, a := [], [];
      var lists := seq(partitions, _ => []);
      EmptyPlan(weights, partitions, locale, lists);
      return Assigned(lists), ws, a;
    }
    var weighted := SortBy(Weigh(files, weights), HeavierFirst(locale));
    SortedInventory(files, weights, locale);
    ws, a := weighted, [];
    if partitions == 0 {
      return NoHeap, ws, a;
    }
    var lists;
    lists, a := Fill(weighted, partitions);
    FullPlan(files, weights, partitions, locale, lists, ws, a);
    r := Assigned(lists);
  }

  lemma EmptyPlan(weights: map<string, real>, p: nat, locale: (string, string) -> int, lists: seq<seq<string>>)
    requires |lists| == p && forall b :: 0 <= b < p ==> lists[b] == []
    ensures Plan([], weights, p, locale, lists, [], [])
  {
    assert FilesOf([]) == [];
  }

  lemma FullPlan(files: seq<string>, weights: map<string, real>, p: nat, locale: (string, string) -> int,
                 lists: seq<seq<string>>, ws: seq<Weighted>, a: seq<nat>)
    requires multiset(FilesOf(ws)) == multiset(files)
    requires forall i :: 0 <= i < |ws| ==> ws[i].weight == WeightOf(ws[i].file, weights)
    requires LocaleOrder(locale) ==> Descending(WeightsOf(ws)) && NamedInOrder(ws, locale)
    requires GreedySoFar(WeightsOf(ws), a, p) && |a| == |ws|
    requires |lists| == p && forall b :: 0 <= b < p ==> lists[b] == Placed(FilesOf(ws), a, b, |a|)
    ensures Plan(files, weights, p, locale, lists, ws, a)
  {
    hide Leanest, LocaleOrder;
  }

  /** The placement loop over the heap of bucket indices. */
  method Fill(weighted: seq<Weighted>, partitions: nat) returns (lists: seq<seq<string>>, ghost a: seq<nat>)
    requires partitions > 0
    ensures GreedySoFar(WeightsOf(weighted), a, partitions) && |a| == |weighted|
    ensures |lists| == partitions
    ensures forall b :: 0 <= b < partitions ==> lists[b] == Placed(FilesOf(weighted), a, b, |a|)
  {
    hide Heap, HeapBut, Bridged, Leanest, Load, Count, GreedySoFar;
    var buckets := new Bucket[partitions](_ => Bucket(0.0, []));
    var heap := new nat[partitions](i => i);
    a := [];
    ghost var identity := heap[..];
    assert Distinct(identity) && forall b :: 0 <= b < partitions ==> identity[b] == b;
    FreshHeap(buckets[..], identity, weighted);
    var k := 0;
    while k < |weighted|
      invariant k == |a| <= |weighted|
      invariant buckets.Length == heap.Length == partitions
      invariant multiset(heap[..]) == multiset(identity)
      invariant Slots(buckets[..], heap[..]) && Heap(buckets[..], heap[..])
      invariant Filled(buckets[..], weighted, a)
      invariant GreedySoFar(WeightsOf(weighted), a, partitions)
    {
      ghost var bs, h := buckets[..], heap[..];
      PermutedDistinct(identity, h);
      forall b | 0 <= b < partitions ensures b in h {
        assert identity[b] in identity;
        PermutedMember(identity, h, b);
      }
      var top := heap[0];
      RootIsLeanest(bs, h, weighted, a);
      PlaceGreedily(weighted, a, partitions, top);
      buckets[top] := Bucket(buckets[top].sum + weighted[k].weight, buckets[top].files + [weighted[k].file]);
      FillOne(bs, weighted, a, top, buckets[..]);
      HeavierRoot(bs, h, buckets[..]);
      a := a + [top];
      SiftDown(buckets, heap, 0);
      k := k + 1;
    }
    lists := seq(partitions, i requires 0 <= i < partitions reads buckets => buckets[i].files);
    assert forall b :: 0 <= b < partitions ==> lists[b] == buckets[..][b].files;
  }

  lemma FreshHeap(bs: seq<Bucket>, h: seq<nat>, ws: seq<Weighted>)
    requires |bs| == |h| && (forall b :: 0 <= b < |bs| ==> bs[b] == Bucket(0.0, []))
    requires forall i :: 0 <= i < |h| ==> h[i] == i
    ensures Slots(bs, h) && Heap(bs, h) && Filled(bs, ws, []) && GreedySoFar(WeightsOf(ws), [], |bs|)
  {
  }

  // ----- what an assignment guarantees -----

  /** The coordinator's weight of one file list. */
  function PartitionWeight(files: seq<string>, weights: map<string, real>): real {
    if files == [] then 0.0
    else PartitionWeight(files[..|files| - 1], weights) + WeightOf(files[|files| - 1], weights)
  }

  /** Every file of every list, with multiplicity. */
  function AllFiles(lists: seq<seq<string>>): multiset<string> {
    if lists == [] then multiset{} else AllFiles(lists[..|lists| - 1]) + multiset(lists[|lists| - 1])
  }

  /** The heaviest list. */
  function Heaviest(lists: seq<seq<string>>, weights: map<string, real>): real
    requires lists != []
  {
    var last := PartitionWeight(lists[|lists| - 1], weights);
    if |lists| == 1 then last
    else
      var rest := Heaviest(lists[..|lists| - 1], weights);
      if rest < last then last else rest
  }

  /** The number of files whose recorded weight is not negative. */
  function NonNegativeFiles(files: seq<string>, weights: map<string, real>): nat {
    if files == [] then 0
    else NonNegativeFiles(files[..|files| - 1], weights) + if WeightOf(files[|files| - 1], weights) >= 0.0 then 1 else 0
  }

  lemma {:induction false} PlacedWeight(files: seq<string>, weights: map<string, real>, w: seq<real>, a: seq<nat>,
                                        b: nat, n: nat)
    requires n <= |files| == |w| && n <= |a|
    requires forall i :: 0 <= i < |w| ==> w[i] == WeightOf(files[i], weights)
    ensures PartitionWeight(Placed(files, a, b, n), weights) == Load(w, a, b, n)
    ensures |Placed(files, a, b, n)| == Count(a, b, n)
  {
    if n != 0 {
      PlacedWeight(files, weights, w, a, b, n - 1);
      if a[n - 1] == b {
        var p := Placed(files, a, b, n - 1);
        assert (p + [files[n - 1]])[..|p|] == p;
      }
    }
  }

  lemma {:induction false} AllPlaced(files: seq<string>, a: seq<nat>, lists: seq<seq<string>>, n: nat, f: string)
    requires n <= |files| && n <= |a|
    requires forall b :: 0 <= b < |lists| ==> lists[b] == Placed(files, a, b, n)
    requires forall k :: 0 <= k < n ==> a[k] < |lists|
    ensures AllFiles(lists)[f] == multiset(files[..n])[f]
    decreases n
  {
    hide AllFiles;
    if n == 0 {
      NoFiles(lists);
    } else {
      var before := seq(|lists|, b requires 0 <= b < |lists| => Placed(files, a, b, n - 1));
      AllPlaced(files, a, before, n - 1, f);
      var b, x := a[n - 1], files[n - 1];
      assert lists == before[b := before[b] + [x]];
      AllFilesUpdate(before, b, before[b] + [x], f);
      assert files[..n] == files[..n - 1] + [x];
    }
  }

  lemma {:induction false} NoFiles(lists: seq<seq<string>>)
    requires forall b :: 0 <= b < |lists| ==> lists[b] == []
    ensures AllFiles(lists) == multiset{}
  {
    if lists != [] {
      NoFiles(lists[..|lists| - 1]);
    }
  }

  lemma {:induction false} AllFilesUpdate(lists: seq<seq<string>>, b: nat, l: seq<string>, f: string)
    requires b < |lists|
    ensures AllFiles(lists[b := l])[f] + multiset(lists[b])[f] == AllFiles(lists)[f] + multiset(l)[f]
  {
    var n := |lists| - 1;
    if b < n {
      AllFilesUpdate(lists[..n], b, l, f);
      assert lists[b := l][..n] == lists[..n][b := l];
    } else {
      assert lists[b := l][..n] == lists[..n];
    }
  }

  /** No file is lost or run twice. */
  lemma FilesConserved(files: seq<string>, weights: map<string, real>, p: nat, locale: (string, string) -> int,
                       lists: seq<seq<string>>, ws: seq<Weighted>, a: seq<nat>)
    requires Plan(files, weights, p, locale, lists, ws, a)
    ensures AllFiles(lists) == multiset(files)
  {
    hide Descending, LocaleOrder, Leanest, FilesOf, WeightsOf;
    forall f ensures AllFiles(lists)[f] == multiset(files)[f] {
      AllPlaced(FilesOf(ws), a, lists, |a|, f);
      assert FilesOf(ws)[..|a|] == FilesOf(ws);
    }
  }

  lemma {:induction false} CountsMatch(ws: seq<Weighted>, weights: map<string, real>, n: nat)
    requires n <= |ws| && forall i :: 0 <= i < |ws| ==> ws[i].weight == WeightOf(ws[i].file, weights)
    ensures NonNegatives(WeightsOf(ws), n) == NonNegativeFiles(FilesOf(ws)[..n], weights)
  {
    if n != 0 {
      CountsMatch(ws, weights, n - 1);
      assert FilesOf(ws)[..n][..n - 1] == FilesOf(ws)[..n - 1];
    }
  }

  lemma {:induction false} NonNegativeRemoved(files: seq<string>, weights: map<string, real>, i: nat)
    requires i < |files|
    ensures NonNegativeFiles(files, weights)
            == NonNegativeFiles(Removed(files, i), weights) + if WeightOf(files[i], weights) >= 0.0 then 1 else 0
  {
    hide Removed, WeightOf;
    var n := |files| - 1;
    if i < n {
      NonNegativeRemoved(files[..n], weights, i);
      RemovedBeforeLast(files, i);
      var rest := Removed(files[..n], i);
      assert (rest + [files[n]])[..|rest|] == rest;
    } else {
      RemovedLast(files);
    }
  }

  lemma {:induction false} NonNegativePermuted(a: seq<string>, b: seq<string>, weights: map<string, real>)
    requires multiset(a) == multiset(b)
    ensures NonNegativeFiles(a, weights) == NonNegativeFiles(b, weights)
    decreases |a|
  {
    hide Removed;
    if a == [] {
      assert |b| == |multiset(b)|;
      assert b == [];
    } else {
      assert a[0] in multiset(b);
      var i :| 0 <= i < |b| && b[i] == a[0];
      RemoveOne(a, 0);
      RemoveOne(b, i);
      RemovedLength(a, 0);
      assert multiset(Removed(a, 0)) == multiset(a) - multiset{a[0]};
      assert multiset(Removed(b, i)) == multiset(b) - multiset{a[0]};
      NonNegativePermuted(Removed(a, 0), Removed(b, i), weights);
      NonNegativeRemoved(a, weights, 0);
      NonNegativeRemoved(b, weights, i);
    }
  }

  predicate Nonempty(lists: seq<seq<string>>, b: nat)
    requires b < |lists|
  {
    lists[b] != []
  }

  /**
   * Whatever the recorded weights, every partition is non-empty exactly when there are at least `p` files
   * and all but at most one of the first `p` can be of non-negative weight.
   */
  lemma NonEmptyExactly(files: seq<string>, weights: map<string, real>, p: nat, locale: (string, string) -> int,
                        lists: seq<seq<string>>, ws: seq<Weighted>, a: seq<nat>)
    requires Plan(files, weights, p, locale, lists, ws, a) && LocaleOrder(locale)
    ensures (forall b :: 0 <= b < p ==> Nonempty(lists, b))
            <==> |files| >= p && NonNegativeFiles(files, weights) + 1 >= p
  {
    hide LocaleOrder, Leanest, FilesOf, WeightsOf, Descending, Greedy, NonNegativeFiles;
    EveryBucketServed(WeightsOf(ws), a, p);
    NonNegativePermuted(FilesOf(ws), files, weights);
    CountsMatch(ws, weights, |ws|);
    assert FilesOf(ws)[..|ws|] == FilesOf(ws);
    assert |multiset(FilesOf(ws))| == |multiset(files)|;
    GreedyLength(WeightsOf(ws), a, p);
    if forall b :: 0 <= b < p ==> Nonempty(lists, b) {
      forall b: nat | b < p ensures Count(a, b, |ws|) > 0 {
        assert Nonempty(lists, b);
        PlacedLength(ws, weights, a, b);
      }
    }
    if AllServed(a, p, |ws|) {
      forall b | 0 <= b < p ensures Nonempty(lists, b) {
        PlacedLength(ws, weights, a, b);
      }
    }
  }

  const NEGATIVE_WEIGHTS: map<string, real> := map["a" := -1.0, "b" := -2.0]

  /** Two files of negative weight: both go to one of two partitions. */
  lemma NegativeWeightsLeaveEmpty(locale: (string, string) -> int, lists: seq<seq<string>>, ws: seq<Weighted>,
                                  a: seq<nat>)
    requires Plan(["a", "b"], NEGATIVE_WEIGHTS, 2, locale, lists, ws, a) && LocaleOrder(locale)
    ensures [] in lists
  {
    hide LocaleOrder, Greedy, Descending;
    var files := ["a", "b"];
    assert files[..1][..0] == [] && files[..1] == ["a"];
    assert NonNegativeFiles(["a"], NEGATIVE_WEIGHTS) == 0;
    NonEmptyExactly(files, NEGATIVE_WEIGHTS, 2, locale, lists, ws, a);
    NoneEmpty(lists);
  }

  /** So does a single file of any weight. */
  lemma OneFileLeavesEmpty(weights: map<string, real>, locale: (string, string) -> int, lists: seq<seq<string>>,
                           ws: seq<Weighted>, a: seq<nat>)
    requires Plan(["a"], weights, 2, locale, lists, ws, a) && LocaleOrder(locale)
    ensures [] in lists
  {
    hide LocaleOrder, Greedy, Descending, NonNegativeFiles;
    NonEmptyExactly(["a"], weights, 2, locale, lists, ws, a);
    NoneEmpty(lists);
  }

  lemma GreedyLength(w: seq<real>, a: seq<nat>, p: nat)
    requires Greedy(w, a, p)
    ensures |a| == |w| && forall k :: 0 <= k < |a| ==> a[k] < p
  {
  }

  lemma PlacedLength(ws: seq<Weighted>, weights: map<string, real>, a: seq<nat>, b: nat)
    requires |a| == |ws| && forall i :: 0 <= i < |ws| ==> ws[i].weight == WeightOf(ws[i].file, weights)
    ensures |Placed(FilesOf(ws), a, b, |a|)| == Count(a, b, |ws|)
    ensures PartitionWeight(Placed(FilesOf(ws), a, b, |a|), weights) == Load(WeightsOf(ws), a, b, |ws|)
  {
    PlacedWeight(FilesOf(ws), weights, WeightsOf(ws), a, b, |ws|);
  }

  // ----- the makespan bound over file lists -----

  lemma {:induction false} HeaviestIsMakespan(lists: seq<seq<string>>, weights: map<string, real>, w: seq<real>,
                                              a: seq<nat>)
    requires |a| == |w| && lists != []
    requires forall b :: 0 <= b < |lists| ==> PartitionWeight(lists[b], weights) == Load(w, a, b, |w|)
    ensures Heaviest(lists, weights) == Makespan(w, a, |lists|, |w|)
  {
    if |lists| > 1 {
      HeaviestIsMakespan(lists[..|lists| - 1], weights, w, a);
    }
  }

  lemma {:induction false} InSomeList(lists: seq<seq<string>>, f: string) returns (b: nat)
    requires f in AllFiles(lists)
    ensures b < |lists| && f in lists[b]
  {
    var n := |lists| - 1;
    if f in lists[n] {
      b := n;
    } else {
      assert f !in multiset(lists[n]);
      b := InSomeList(lists[..n], f);
    }
  }

  lemma {:induction false} WeightRemoved(files: seq<string>, weights: map<string, real>, i: nat)
    requires i < |files|
    ensures PartitionWeight(files, weights) == PartitionWeight(Removed(files, i), weights) + WeightOf(files[i], weights)
  {
    hide Removed, WeightOf;
    var n := |files| - 1;
    if i < n {
      WeightRemoved(files[..n], weights, i);
      RemovedBeforeLast(files, i);
      var rest := Removed(files[..n], i);
      assert (rest + [files[n]])[..|rest|] == rest;
    } else {
      RemovedLast(files);
    }
  }

  lemma TakeOut(lists: seq<seq<string>>, b: nat, i: nat, files: seq<string>)
    requires b < |lists| && i < |lists[b]| && files != [] && lists[b][i] == files[|files| - 1]
    requires AllFiles(lists) == multiset(files)
    ensures AllFiles(lists[b := Removed(lists[b], i)]) == multiset(files[..|files| - 1])
  {
    hide AllFiles, Removed;
    var n := |files| - 1;
    var fewer := Removed(lists[b], i);
    assert files == files[..n] + [files[n]];
    RemoveOne(lists[b], i);
    forall f ensures AllFiles(lists[b := fewer])[f] == multiset(files[..n])[f] {
      AllFilesUpdate(lists, b, fewer, f);
    }
  }

  /** Any split of the same files into lists is an assignment of the jobs in any given order. */
  lemma {:induction false} SplitIsAssignment(files: seq<string>, weights: map<string, real>, w: seq<real>,
                                             lists: seq<seq<string>>)
    returns (a: seq<nat>)
    requires |w| == |files| && forall i :: 0 <= i < |w| ==> w[i] == WeightOf(files[i], weights)
    requires AllFiles(lists) == multiset(files)
    ensures Assignment(w, a, |lists|)
    ensures forall b :: 0 <= b < |lists| ==> PartitionWeight(lists[b], weights) == Load(w, a, b, |w|)
    decreases |files|
  {
    hide AllFiles, Removed;
    if files == [] {
      a := [];
      forall b | 0 <= b < |lists| ensures lists[b] == [] {
        NothingLeft(lists, b);
      }
    } else {
      var n := |files| - 1;
      var f := files[n];
      assert f in multiset(files);
      var c := InSomeList(lists, f);
      var i :| 0 <= i < |lists[c]| && lists[c][i] == f;
      var fewer := lists[c := Removed(lists[c], i)];
      TakeOut(lists, c, i, files);
      var before := SplitIsAssignment(files[..n], weights, w[..n], fewer);
      a := before + [c];
      forall b | 0 <= b < |lists| ensures PartitionWeight(lists[b], weights) == Load(w, a, b, |w|) {
        LoadTake(w, before, c, b, n);
        if b == c {
          WeightRemoved(lists[c], weights, i);
        } else {
          assert fewer[b] == lists[b];
        }
      }
    }
  }

  lemma {:induction false} NothingLeft(lists: seq<seq<string>>, b: nat)
    requires AllFiles(lists) == multiset{} && b < |lists|
    ensures lists[b] == []
  {
    var n := |lists| - 1;
    assert |AllFiles(lists)| == |AllFiles(lists[..n])| + |multiset(lists[n])|;
    assert |multiset(lists[n])| == |lists[n]|;
    if b < n {
      assert AllFiles(lists[..n]) == multiset{};
      NothingLeft(lists[..n], b);
    }
  }

  lemma {:induction false} LoadTake(w: seq<real>, a: seq<nat>, c: nat, b: nat, n: nat)
    requires n <= |a| < |w|
    ensures Load(w, a + [c], b, n) == Load(w[..|a|], a, b, n)
  {
    if n != 0 {
      LoadTake(w, a, c, b, n - 1);
    }
  }

  /**
   * For non-negative weights the heaviest partition is within 4/3 - 1/(3p) of the heaviest of any way
   * to split the same files into as many lists.
   */
  lemma WithinGrahamOfAnySplit(files: seq<string>, weights: map<string, real>, p: nat, locale: (string, string) -> int,
                               lists: seq<seq<string>>, ws: seq<Weighted>, a: seq<nat>, other: seq<seq<string>>)
    requires Plan(files, weights, p, locale, lists, ws, a) && LocaleOrder(locale) && p > 0
    requires forall f :: f in files ==> WeightOf(f, weights) >= 0.0
    requires |other| == p && AllFiles(other) == multiset(files)
    ensures WithinGraham(p, Heaviest(lists, weights), Heaviest(other, weights))
  {
    hide LocaleOrder, AllFiles, Greedy, Descending, WithinGraham, Placed;
    var w := WeightsOf(ws);
    PlanNonNegative(files, weights, ws);
    var alt := SplitIsAssignment(FilesOf(ws), weights, w, other);
    GrahamBound(w, a, alt, p);
    GreedyLength(w, a, p);
    forall b | 0 <= b < p ensures PartitionWeight(lists[b], weights) == Load(w, a, b, |w|) {
      PlacedLength(ws, weights, a, b);
    }
    HeaviestIsMakespan(lists, weights, w, a);
    HeaviestIsMakespan(other, weights, w, alt);
  }

  lemma PlanNonNegative(files: seq<string>, weights: map<string, real>, ws: seq<Weighted>)
    requires multiset(FilesOf(ws)) == multiset(files)
    requires forall i :: 0 <= i < |ws| ==> ws[i].weight == WeightOf(ws[i].file, weights)
    requires forall f :: f in files ==> WeightOf(f, weights) >= 0.0
    ensures NonNegative(WeightsOf(ws))
  {
    forall i | 0 <= i < |ws| ensures ws[i].weight >= 0.0 {
      assert FilesOf(ws)[i] in FilesOf(ws);
      PermutedMember(FilesOf(ws), files, FilesOf(ws)[i]);
    }
  }

  // ----- the coordinator's assignment step -----

  datatype Step = Ready(partitions: seq<seq<string>>) | EmptyPartition(index: nat) | NoPartitions

  function HeavierList(weights: map<string, real>): (seq<string>, seq<string>) -> bool {
    (a, b) => PartitionWeight(a, weights) >= PartitionWeight(b, weights)
  }

  /** Assign, put the heaviest partition first, and refuse an empty one. */
  method AssignFiles(files: seq<string>, weights: map<string, real>, partitions: nat, locale: (string, string) -> int)
    returns (r: Step)
    requires LocaleOrder(locale)
    ensures r.NoPartitions? <==> files != [] && partitions == 0
    ensures r.Ready? <==> |files| >= partitions && NonNegativeFiles(files, weights) + 1 >= partitions
                          && (files == [] || partitions > 0)
    ensures r.Ready? ==> |r.partitions| == partitions && AllFiles(r.partitions) == multiset(files)
    ensures r.Ready? ==> forall i, j :: 0 <= i < j < partitions ==>
              PartitionWeight(r.partitions[i], weights) >= PartitionWeight(r.partitions[j], weights)
    ensures r.EmptyPartition? ==> r.index < partitions
  {
    hide Insert, SortBy, LocaleOrder, PartitionWeight, AllFiles, Plan, NonNegativeFiles;
    var plan, ws, a := AssignWeightedPartitions(files, weights, partitions, locale);
    if plan.NoHeap? {
      return NoPartitions;
    }
    var lists := plan.partitions;
    var heavy := HeavierList(weights);
    var sorted := SortBy(lists, heavy);
    SortPermutes(lists, heavy);
    SortSorts(lists, heavy);
    FilesConserved(files, weights, partitions, locale, lists, ws, a);
    NonEmptyExactly(files, weights, partitions, locale, lists, ws, a);
    AllFilesPermuted(lists, sorted);
    SameNonempty(lists, sorted);
    PlanLength(files, weights, partitions, locale, lists, ws, a);
    var i := 0;
    while i < |sorted|
      invariant i <= |sorted|
      invariant forall k :: 0 <= k < i ==> Nonempty(sorted, k)
    {
      if sorted[i] == [] {
        assert !Nonempty(sorted, i);
        return EmptyPartition(i);
      }
      i := i + 1;
    }
    r := Ready(sorted);
  }

  lemma PlanLength(files: seq<string>, weights: map<string, real>, p: nat, locale: (string, string) -> int,
                   lists: seq<seq<string>>, ws: seq<Weighted>, a: seq<nat>)
    requires Plan(files, weights, p, locale, lists, ws, a)
    ensures |lists| == p
  {
  }

  lemma SameNonempty(a: seq<seq<string>>, b: seq<seq<string>>)
    requires multiset(a) == multiset(b)
    ensures |a| == |b|
    ensures (forall i :: 0 <= i < |a| ==> Nonempty(a, i)) <==> forall i :: 0 <= i < |b| ==> Nonempty(b, i)
  {
    assert |multiset(a)| == |multiset(b)|;
    PermutedMember(a, b, []);
    NoneEmpty(a);
    NoneEmpty(b);
  }

  lemma NoneEmpty(a: seq<seq<string>>)
    ensures (forall i :: 0 <= i < |a| ==> Nonempty(a, i)) <==> [] !in a
  {
    if [] in a {
      var i :| 0 <= i < |a| && a[i] == [];
      assert !Nonempty(a, i);
    }
  }

  lemma AllFilesAppend(lists: seq<seq<string>>, l: seq<string>)
    ensures AllFiles(lists + [l]) == AllFiles(lists) + multiset(l)
  {
    assert (lists + [l])[..|lists|] == lists;
  }

  lemma {:induction false} AllFilesRemoved(lists: seq<seq<string>>, i: nat)
    requires i < |lists|
    ensures AllFiles(lists) == AllFiles(Removed(lists, i)) + multiset(lists[i])
  {
    hide Removed;
    var n := |lists| - 1;
    if i < n {
      AllFilesRemoved(lists[..n], i);
      RemovedBeforeLast(lists, i);
      AllFilesAppend(Removed(lists[..n], i), lists[n]);
    } else {
      RemovedLast(lists);
    }
  }

  lemma {:induction false} AllFilesPermuted(a: seq<seq<string>>, b: seq<seq<string>>)
    requires multiset(a) == multiset(b)
    ensures AllFiles(a) == AllFiles(b)
    decreases |a|
  {
    hide Removed;
    if a == [] {
      assert |b| == |multiset(b)|;
      assert b == [];
    } else {
      assert a[0] in multiset(b);
      var i :| 0 <= i < |b| && b[i] == a[0];
      RemoveOne(a, 0);
      RemoveOne(b, i);
      RemovedLength(a, 0);
      assert multiset(Removed(a, 0)) == multiset(a) - multiset{a[0]};
      assert multiset(Removed(b, i)) == multiset(b) - multiset{a[0]};
      AllFilesPermuted(Removed(a, 0), Removed(b, i));
      AllFilesRemoved(a, 0);
      AllFilesRemoved(b, i);
    }
  }
}
