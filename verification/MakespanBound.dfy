/** What longest-processing-time assignment guarantees: its heaviest bucket, and when every bucket gets a file. */
module MakespanBound {

  /** The weight of bucket `b` after the first `n` jobs of assignment `a`. */
  function Load(w: seq<real>, a: seq<nat>, b: nat, n: nat): real
    requires n <= |w| && n <= |a|
  {
    if n == 0 then 0.0
    else Load(w, a, b, n - 1) + if a[n - 1] == b then w[n - 1] else 0.0
  }

  /** The number of jobs in bucket `b` after the first `n` jobs. */
  function Count(a: seq<nat>, b: nat, n: nat): nat
    requires n <= |a|
  {
    if n == 0 then 0
    else Count(a, b, n - 1) + if a[n - 1] == b then 1 else 0
  }

  function Total(w: seq<real>, n: nat): real
    requires n <= |w|
  {
    if n == 0 then 0.0 else Total(w, n - 1) + w[n - 1]
  }

  /** The loads of the first `p` buckets together. */
  function Loads(w: seq<real>, a: seq<nat>, p: nat, n: nat): real
    requires n <= |w| && n <= |a|
  {
    if p == 0 then 0.0 else Loads(w, a, p - 1, n) + Load(w, a, p - 1, n)
  }

  /** The heaviest of the first `p` buckets. */
  function Makespan(w: seq<real>, a: seq<nat>, p: nat, n: nat): real
    requires n <= |w| && n <= |a| && p > 0
  {
    var last := Load(w, a, p - 1, n);
    if p == 1 then last
    else
      var rest := Makespan(w, a, p - 1, n);
      if rest < last then last else rest
  }

  ghost predicate Assignment(w: seq<real>, a: seq<nat>, p: nat) {
    |a| == |w| && forall k :: 0 <= k < |a| ==> a[k] < p
  }

  /** The heap's order: by weight, then by number of files. */
  predicate Leaner(sum: real, count: nat, sum': real, count': nat) {
    sum < sum' || (sum == sum' && count < count')
  }

  /** No bucket was leaner than `b` after `k` jobs. */
  ghost predicate Leanest(w: seq<real>, a: seq<nat>, p: nat, b: nat, k: nat)
    requires k <= |w| && k <= |a|
  {
    b < p && forall c :: 0 <= c < p ==> !Leaner(Load(w, a, c, k), Count(a, c, k), Load(w, a, b, k), Count(a, b, k))
  }

  /** Every job went to a leanest bucket of its time. */
  ghost predicate Greedy(w: seq<real>, a: seq<nat>, p: nat) {
    && Assignment(w, a, p)
    && forall k :: 0 <= k < |a| ==> Leanest(w, a, p, a[k], k)
  }

  ghost predicate Descending(w: seq<real>) {
    forall i, j :: 0 <= i < j < |w| ==> w[i] >= w[j]
  }

  ghost predicate NonNegative(w: seq<real>) {
    forall i :: 0 <= i < |w| ==> w[i] >= 0.0
  }

  // ----- sums over buckets -----

  lemma {:induction false} LoadsStep(w: seq<real>, a: seq<nat>, p: nat, n: nat)
    requires n < |w| && n < |a|
    ensures Loads(w, a, p, n + 1) == Loads(w, a, p, n) + if a[n] < p then w[n] else 0.0
  {
    if p != 0 {
      LoadsStep(w, a, p - 1, n);
    }
  }

  /** The buckets together hold every job once. */
  lemma {:induction false} LoadsAreTotal(w: seq<real>, a: seq<nat>, p: nat, n: nat)
    requires n <= |w| <= |a| && forall k :: 0 <= k < n ==> a[k] < p
    ensures Loads(w, a, p, n) == Total(w, n)
  {
    if n == 0 {
      NoLoads(w, a, p);
    } else {
      LoadsAreTotal(w, a, p, n - 1);
      LoadsStep(w, a, p, n - 1);
    }
  }

  lemma {:induction false} NoLoads(w: seq<real>, a: seq<nat>, p: nat)
    ensures Loads(w, a, p, 0) == 0.0
  {
    if p != 0 {
      NoLoads(w, a, p - 1);
    }
  }

  lemma {:induction false} LoadsAtLeast(w: seq<real>, a: seq<nat>, p: nat, n: nat, l: real)
    requires n <= |w| && n <= |a| && forall b :: 0 <= b < p ==> Load(w, a, b, n) >= l
    ensures Loads(w, a, p, n) >= p as real * l
  {
    if p != 0 {
      LoadsAtLeast(w, a, p - 1, n, l);
      assert p as real * l == (p - 1) as real * l + l;
    }
  }

  lemma {:induction false} LoadsAtMost(w: seq<real>, a: seq<nat>, p: nat, n: nat, l: real)
    requires n <= |w| && n <= |a| && forall b :: 0 <= b < p ==> Load(w, a, b, n) <= l
    ensures Loads(w, a, p, n) <= p as real * l
  {
    if p != 0 {
      LoadsAtMost(w, a, p - 1, n, l);
      assert p as real * l == (p - 1) as real * l + l;
    }
  }

  lemma {:induction false} LoadGrows(w: seq<real>, a: seq<nat>, b: nat, m: nat, n: nat)
    requires m <= n <= |w| && n <= |a| && NonNegative(w)
    ensures Load(w, a, b, m) <= Load(w, a, b, n)
    decreases n - m
  {
    if m < n {
      LoadGrows(w, a, b, m, n - 1);
    }
  }

  lemma {:induction false} TotalGrows(w: seq<real>, m: nat, n: nat)
    requires m <= n <= |w| && NonNegative(w)
    ensures 0.0 <= Total(w, m) <= Total(w, n)
    decreases n
  {
    if n == 0 {
    } else if m < n {
      TotalGrows(w, m, n - 1);
    } else {
      TotalGrows(w, m - 1, n - 1);
    }
  }

  lemma {:induction false} MakespanBounds(w: seq<real>, a: seq<nat>, p: nat, n: nat)
    requires n <= |w| && n <= |a| && p > 0
    ensures forall b :: 0 <= b < p ==> Load(w, a, b, n) <= Makespan(w, a, p, n)
    ensures exists b :: 0 <= b < p && Load(w, a, b, n) == Makespan(w, a, p, n)
  {
    assert Load(w, a, p - 1, n) <= Makespan(w, a, p, n);
    if p > 1 {
      MakespanBounds(w, a, p - 1, n);
      if Makespan(w, a, p, n) != Load(w, a, p - 1, n) {
        var b :| 0 <= b < p - 1 && Load(w, a, b, n) == Makespan(w, a, p - 1, n);
      }
    }
  }

  // ----- small jobs: a stepping stone on averages -----

  /** The bucket that takes job `k` ends at most at the average plus its share of the job. */
  lemma AverageBound(w: seq<real>, a: seq<nat>, p: nat, k: nat)
    requires Greedy(w, a, p) && NonNegative(w) && k < |w| && p > 0
    ensures p as real * Load(w, a, a[k], k + 1) <= Total(w, |w|) + (p - 1) as real * w[k]
  {
    hide Leaner, Loads, Load, Total, Leanest, NonNegative;
    var l := Load(w, a, a[k], k);
    LeanestLoads(w, a, p, k);
    LoadsAtLeast(w, a, p, k, l);
    LoadsAreTotal(w, a, p, k);
    OneJobMore(w, a, p, k);
    Share(p, l, w[k], Total(w, k), Total(w, |w|));
  }

  lemma OneJobMore(w: seq<real>, a: seq<nat>, p: nat, k: nat)
    requires Assignment(w, a, p) && NonNegative(w) && k < |w|
    ensures Load(w, a, a[k], k + 1) == Load(w, a, a[k], k) + w[k]
    ensures Total(w, k) + w[k] <= Total(w, |w|)
  {
    TotalGrows(w, k + 1, |w|);
  }

  lemma LeanestLoads(w: seq<real>, a: seq<nat>, p: nat, k: nat)
    requires Greedy(w, a, p) && k < |w|
    ensures forall b :: 0 <= b < p ==> Load(w, a, b, k) >= Load(w, a, a[k], k)
  {
    hide Load, Count;
    assert Leanest(w, a, p, a[k], k);
    forall b | 0 <= b < p ensures Load(w, a, b, k) >= Load(w, a, a[k], k) {
      assert !Leaner(Load(w, a, b, k), Count(a, b, k), Load(w, a, a[k], k), Count(a, a[k], k));
    }
  }

  lemma Share(p: nat, l: real, x: real, loads: real, total: real)
    requires p as real * l <= loads && loads + x <= total
    ensures p as real * (l + x) <= total + (p - 1) as real * x
  {
    var q := p as real;
    assert (p - 1) as real == q - 1.0;
    assert q * (l + x) == q * l + q * x;
    assert (q - 1.0) * x == q * x - x;
  }

  // ----- large jobs: counting units -----

  /** A job counts double when it cannot share a bucket of size `t` with a job of weight `x`. */
  function Units(w: seq<real>, t: real, x: real): (c: seq<real>)
    ensures |c| == |w|
  {
    seq(|w|, i requires 0 <= i < |w| => if w[i] > t - x then 2.0 else 1.0)
  }

  /** A bucket that has no room for `x` holds at least two units. */
  lemma {:induction false} FullBucket(w: seq<real>, a: seq<nat>, b: nat, n: nat, t: real, x: real)
    requires n <= |w| <= |a| && x <= t
    ensures var u := Load(Units(w, t, x), a, b, n);
            var l := Load(w, a, b, n);
            u >= 2.0 || (u == 1.0 && l <= t - x) || (u == 0.0 && l == 0.0)
  {
    if n != 0 {
      FullBucket(w, a, b, n - 1, t, x);
    }
  }

  /** A bucket of size `t` has room for at most two units of jobs no lighter than `x`. */
  lemma {:induction false} TightBucket(w: seq<real>, a: seq<nat>, b: nat, n: nat, t: real, x: real)
    requires n <= |w| <= |a| && 0.0 < x && t < 3.0 * x && x <= t
    requires forall i :: 0 <= i < n ==> w[i] >= x
    ensures var u := Load(Units(w, t, x), a, b, n);
            var l := Load(w, a, b, n);
            || l > t
            || (u == 2.0 && l > t - x)
            || (u == 1.0 && l >= x)
            || (u == 0.0 && l == 0.0)
  {
    if n != 0 {
      TightBucket(w, a, b, n - 1, t, x);
    }
  }

  lemma {:induction false} JobFits(w: seq<real>, a: seq<nat>, k: nat, n: nat, t: real)
    requires k < n <= |w| <= |a| && NonNegative(w) && Load(w, a, a[k], n) <= t
    ensures w[k] <= t
  {
    LoadGrows(w, a, a[k], k + 1, n);
    LoadGrows(w, a, a[k], 0, k);
  }

  /** Had a job over a third of `t` overflowed every greedy bucket, no assignment could stay within `t`. */
  lemma LargeJob(w: seq<real>, a: seq<nat>, alt: seq<nat>, p: nat, k: nat, t: real)
    requires Greedy(w, a, p) && NonNegative(w) && Descending(w) && k < |w| && p > 0
    requires Assignment(w, alt, p) && forall b :: 0 <= b < p ==> Load(w, alt, b, |w|) <= t
    requires 3.0 * w[k] > t
    ensures Load(w, a, a[k], k + 1) <= t
  {
    hide Leaner, Count, Loads, Leanest;
    var x := w[k];
    var c := Units(w, t, x);
    assert 0.0 <= t by {
      LoadGrows(w, alt, 0, 0, |w|);
      assert Load(w, alt, 0, |w|) <= t;
    }
    JobFits(w, alt, k, |w|, t);
    if Load(w, a, a[k], k) > t - x {
      LeanestLoads(w, a, p, k);
      forall b | 0 <= b < p ensures Load(c, a, b, k) >= 2.0 {
        FullBucket(w, a, b, k, t, x);
      }
      LoadsAtLeast(c, a, p, k, 2.0);
      LoadsAreTotal(c, a, p, k);
      var n := k + 1;
      forall b | 0 <= b < p ensures Load(c, alt, b, n) <= 2.0 {
        LoadGrows(w, alt, b, k + 1, |w|);
        TightBucket(w, alt, b, k + 1, t, x);
      }
      LoadsAtMost(c, alt, p, k + 1, 2.0);
      LoadsAreTotal(c, alt, p, k + 1);
      assert false;
    }
  }

  // ----- the bound -----

  /** `l` is at most 4/3 - 1/(3p) times `t`, cleared of fractions. */
  predicate WithinGraham(p: nat, l: real, t: real) {
    3.0 * p as real * l <= (4 * p - 1) as real * t
  }

  lemma PlacementBound(w: seq<real>, a: seq<nat>, alt: seq<nat>, p: nat, k: nat, t: real)
    requires Greedy(w, a, p) && NonNegative(w) && Descending(w) && k < |w| && p > 0
    requires Assignment(w, alt, p) && forall b :: 0 <= b < p ==> Load(w, alt, b, |w|) <= t
    requires t >= 0.0
    ensures WithinGraham(p, Load(w, a, a[k], k + 1), t)
  {
    hide WithinGraham, Load, Loads, Total, Leanest;
    var l := Load(w, a, a[k], k + 1);
    if 3.0 * w[k] > t {
      LargeJob(w, a, alt, p, k, t);
      Scale(p, l, t);
    } else {
      AverageBound(w, a, p, k);
      LoadsAtMost(w, alt, p, |w|, t);
      LoadsAreTotal(w, alt, p, |w|);
      Combine(p, l, w[k], t);
    }
  }

  lemma Scale(p: nat, l: real, t: real)
    requires p > 0 && l <= t && 0.0 <= t
    ensures WithinGraham(p, l, t)
  {
    var q := p as real;
    Product(3.0 * q, t - l);
    Product(q - 1.0, t);
    assert (4 * p - 1) as real * t == 3.0 * q * t + (q - 1.0) * t;
  }

  lemma Product(x: real, y: real)
    requires 0.0 <= x && 0.0 <= y
    ensures 0.0 <= x * y
  {
  }

  lemma Combine(p: nat, l: real, x: real, t: real)
    requires p > 0 && p as real * l <= p as real * t + (p - 1) as real * x && 3.0 * x <= t
    ensures WithinGraham(p, l, t)
  {
    var q := p as real;
    Product(q - 1.0, t - 3.0 * x);
    assert (q - 1.0) * (t - 3.0 * x) == (q - 1.0) * t - 3.0 * ((q - 1.0) * x);
    assert (4 * p - 1) as real * t == 3.0 * (q * t) + (q - 1.0) * t;
  }

  lemma {:induction false} BucketBound(w: seq<real>, a: seq<nat>, alt: seq<nat>, p: nat, b: nat, n: nat, t: real)
    requires Greedy(w, a, p) && NonNegative(w) && Descending(w) && n <= |w| && p > 0
    requires Assignment(w, alt, p) && forall c :: 0 <= c < p ==> Load(w, alt, c, |w|) <= t
    requires t >= 0.0
    ensures WithinGraham(p, Load(w, a, b, n), t)
  {
    if n == 0 {
      Product((4 * p - 1) as real, t);
    } else if a[n - 1] == b {
      PlacementBound(w, a, alt, p, n - 1, t);
    } else {
      BucketBound(w, a, alt, p, b, n - 1, t);
    }
  }

  /** Graham's bound: the greedy makespan is at most 4/3 - 1/(3p) times that of any assignment of the same jobs. */
  lemma GrahamBound(w: seq<real>, a: seq<nat>, alt: seq<nat>, p: nat)
    requires Greedy(w, a, p) && NonNegative(w) && Descending(w) && p > 0 && Assignment(w, alt, p)
    ensures WithinGraham(p, Makespan(w, a, p, |w|), Makespan(w, alt, p, |w|))
  {
    hide WithinGraham, Load, Makespan, Leanest;
    var t := Makespan(w, alt, p, |w|);
    var b := HeaviestBucket(w, a, alt, p);
    BucketBound(w, a, alt, p, b, |w|, t);
  }

  lemma HeaviestBucket(w: seq<real>, a: seq<nat>, alt: seq<nat>, p: nat) returns (b: nat)
    requires NonNegative(w) && p > 0 && |w| == |a| == |alt|
    ensures b < p && Load(w, a, b, |w|) == Makespan(w, a, p, |w|)
    ensures 0.0 <= Makespan(w, alt, p, |w|)
    ensures forall c :: 0 <= c < p ==> Load(w, alt, c, |w|) <= Makespan(w, alt, p, |w|)
  {
    MakespanBounds(w, alt, p, |w|);
    MakespanBounds(w, a, p, |w|);
    LoadGrows(w, alt, 0, 0, |w|);
    assert Load(w, alt, 0, |w|) <= Makespan(w, alt, p, |w|);
    b :| 0 <= b < p && Load(w, a, b, |w|) == Makespan(w, a, p, |w|);
  }

  // ----- when every bucket gets a job -----

  /** The number of jobs among the first `n` of non-negative weight. */
  function NonNegatives(w: seq<real>, n: nat): nat
    requires n <= |w|
  {
    if n == 0 then 0 else NonNegatives(w, n - 1) + if w[n - 1] >= 0.0 then 1 else 0
  }

  /** The number of the first `p` buckets holding a job after the first `n`. */
  function Served(a: seq<nat>, p: nat, n: nat): nat
    requires n <= |a|
  {
    if p == 0 then 0 else Served(a, p - 1, n) + if Count(a, p - 1, n) > 0 then 1 else 0
  }

  ghost predicate AllServed(a: seq<nat>, p: nat, n: nat)
    requires n <= |a|
  {
    forall b: nat :: b < p ==> Count(a, b, n) > 0
  }

  lemma {:induction false} ServedStep(a: seq<nat>, p: nat, n: nat)
    requires n < |a|
    ensures Served(a, p, n + 1) == Served(a, p, n) + if a[n] < p && Count(a, a[n], n) == 0 then 1 else 0
  {
    if p != 0 {
      ServedStep(a, p - 1, n);
    }
  }

  lemma {:induction false} ServedNone(a: seq<nat>, p: nat)
    ensures Served(a, p, 0) == 0
  {
    if p != 0 {
      ServedNone(a, p - 1);
    }
  }

  lemma {:induction false} ServedAtMost(a: seq<nat>, p: nat, n: nat)
    requires n <= |a|
    ensures Served(a, p, n) <= n
  {
    if n == 0 {
      ServedNone(a, p);
    } else {
      ServedAtMost(a, p, n - 1);
      ServedStep(a, p, n - 1);
    }
  }

  lemma {:induction false} ServedAll(a: seq<nat>, p: nat, n: nat)
    requires n <= |a|
    ensures Served(a, p, n) <= p
    ensures Served(a, p, n) == p <==> AllServed(a, p, n)
  {
    if p != 0 {
      var last := p - 1;
      ServedAll(a, last, n);
      if AllServed(a, p, n) {
        assert Count(a, last, n) > 0;
      }
    }
  }

  lemma {:induction false} ServedGrows(a: seq<nat>, p: nat, m: nat, n: nat)
    requires m <= n <= |a|
    ensures Served(a, p, m) <= Served(a, p, n)
  {
    if m < n {
      ServedGrows(a, p, m, n - 1);
      ServedStep(a, p, n - 1);
    }
  }

  lemma {:induction false} UnusedIsZero(w: seq<real>, a: seq<nat>, b: nat, n: nat)
    requires n <= |w| && n <= |a| && Count(a, b, n) == 0
    ensures Load(w, a, b, n) == 0.0
  {
    if n != 0 {
      UnusedIsZero(w, a, b, n - 1);
    }
  }

  lemma {:induction false} LoadSign(w: seq<real>, a: seq<nat>, b: nat, n: nat)
    requires n <= |w| && n <= |a| && forall i :: 0 <= i < n ==> w[i] >= 0.0
    ensures Load(w, a, b, n) >= 0.0
  {
    if n != 0 {
      LoadSign(w, a, b, n - 1);
    }
  }

  /** While loads are non-negative and a bucket is empty, the next job goes to an empty bucket. */
  lemma TakesEmpty(w: seq<real>, a: seq<nat>, p: nat, n: nat)
    requires Greedy(w, a, p) && n < |w| && Served(a, p, n) < p
    requires forall i :: 0 <= i < n ==> w[i] >= 0.0
    ensures Count(a, a[n], n) == 0 && Load(w, a, a[n], n) == 0.0
  {
    ServedAll(a, p, n);
    var e :| 0 <= e < p && Count(a, e, n) == 0;
    UnusedIsZero(w, a, e, n);
    LoadSign(w, a, a[n], n);
    assert Leanest(w, a, p, a[n], n);
    assert !Leaner(Load(w, a, e, n), Count(a, e, n), Load(w, a, a[n], n), Count(a, a[n], n));
  }

  /** The first `p` jobs go to different buckets when all but the last of them weigh at least zero. */
  lemma {:induction false} SpreadsOut(w: seq<real>, a: seq<nat>, p: nat, n: nat)
    requires Greedy(w, a, p) && n <= |w| && n <= p
    requires forall i :: 0 <= i < n - 1 ==> w[i] >= 0.0
    ensures Served(a, p, n) == n
  {
    if n == 0 {
      ServedNone(a, p);
    } else {
      SpreadsOut(w, a, p, n - 1);
      TakesEmpty(w, a, p, n - 1);
      ServedStep(a, p, n - 1);
    }
  }

  lemma {:induction false} NonNegativesFirst(w: seq<real>, n: nat)
    requires Descending(w) && n <= |w|
    ensures NonNegatives(w, n) <= n
    ensures forall i :: 0 <= i < n ==> (w[i] >= 0.0 <==> i < NonNegatives(w, n))
  {
    if n != 0 {
      NonNegativesFirst(w, n - 1);
    }
  }

  /** Once a bucket goes negative it takes every later job. */
  lemma {:induction false} Sticks(w: seq<real>, a: seq<nat>, p: nat, k: nat, n: nat)
    requires Greedy(w, a, p) && Descending(w) && k < n <= |w| && k < p
    requires (forall i :: 0 <= i < k ==> w[i] >= 0.0) && w[k] < 0.0
    ensures Served(a, p, n) <= k + 1
    ensures Count(a, a[k], n) > 0 && Load(w, a, a[k], n) < 0.0
    ensures forall b :: 0 <= b < p && b != a[k] ==> Load(w, a, b, n) >= 0.0
  {
    if n == k + 1 {
      ServedAtMost(a, p, n);
      SpreadsOut(w, a, p, k);
      TakesEmpty(w, a, p, k);
      forall b | 0 <= b < p && b != a[k] ensures Load(w, a, b, n) >= 0.0 {
        LoadSign(w, a, b, k);
      }
    } else {
      Sticks(w, a, p, k, n - 1);
      var c := a[n - 1];
      assert Leanest(w, a, p, c, n - 1);
      assert !Leaner(Load(w, a, a[k], n - 1), Count(a, a[k], n - 1), Load(w, a, c, n - 1), Count(a, c, n - 1));
      ServedStep(a, p, n - 1);
    }
  }

  /**
   * For weights of any sign, every bucket gets a job exactly when there are at least `p` jobs
   * and at least `p - 1` of them have non-negative weight.
   */
  lemma EveryBucketServed(w: seq<real>, a: seq<nat>, p: nat)
    requires Greedy(w, a, p) && Descending(w)
    ensures AllServed(a, p, |w|) <==> |w| >= p && NonNegatives(w, |w|) + 1 >= p
  {
    var k := NonNegatives(w, |w|);
    NonNegativesFirst(w, |w|);
    ServedAll(a, p, |w|);
    ServedAtMost(a, p, |w|);
    if |w| >= p && k + 1 >= p {
      SpreadsOut(w, a, p, p);
      ServedGrows(a, p, p, |w|);
    } else if |w| >= p {
      Sticks(w, a, p, k, |w|);
    }
  }
}
