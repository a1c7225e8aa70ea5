/** The bounded job pool with a deferred serial retry pass, as interleaved atomic steps. */
module JobPool {
  import opened Ordering

  datatype Call = Call(index: nat, retry: bool)

  /** How one visit settles; `R` is whatever a finished visit leaves behind. */
  datatype Settled<R> = Deferred | Finished(result: R) | Rejected

  datatype Event<R> = Begin(call: Call) | End(call: Call, settled: Settled<R>)

  datatype Worker = Idle | Busy(index: nat) | Exited | Failed

  datatype Phase = Pooling | Retrying(order: seq<nat>, done: nat, busy: bool) | Succeeded(order: seq<nat>)
                 | PoolAborted | RetryAborted(order: seq<nat>, done: nat)

  /** The variables of one `runMigrationJobs` call, with the history of its visits. */
  datatype State<R> = State(
    count: nat,
    jobs: nat,
    next: nat,
    deferred: seq<nat>,
    workers: seq<Worker>,
    phase: Phase,
    log: seq<Event<R>>)

  /** One atomic step: a worker claims or exits, a visit settles, or the main function moves on. */
  datatype Action<R> =
    | Proceed(worker: nat)
    | Settle(worker: nat, settled: Settled<R>)
    | Join
    | BeginRetry
    | EndRetry(settled: Settled<R>)
    | Finish

  function Start<R>(count: nat, jobs: nat): State<R> {
    State(count, jobs, 0, [], seq(Min(jobs, count), _ => Idle), Pooling, [])
  }

  function Leq(): (nat, nat) -> bool {
    (a, b) => a <= b
  }

  predicate Enabled<R>(s: State<R>, a: Action<R>) {
    match a
    case Proceed(w) => s.phase.Pooling? && w < |s.workers| && s.workers[w] == Idle
    case Settle(w, _) => s.phase.Pooling? && w < |s.workers| && s.workers[w].Busy?
    case Join => s.phase.Pooling? && forall w :: 0 <= w < |s.workers| ==> s.workers[w].Exited? || s.workers[w].Failed?
    case BeginRetry => s.phase.Retrying? && !s.phase.busy && s.phase.done < |s.phase.order|
    case EndRetry(_) => s.phase.Retrying? && s.phase.busy && s.phase.done < |s.phase.order|
    case Finish => s.phase.Retrying? && !s.phase.busy && s.phase.done == |s.phase.order|
  }

  function Step<R>(s: State<R>, a: Action<R>): State<R>
    requires Enabled(s, a)
  {
    match a
    case Proceed(w) =>
      if s.next < s.count then
        s.(next := s.next + 1, workers := s.workers[w := Busy(s.next)], log := s.log + [Begin(Call(s.next, false))])
      else s.(workers := s.workers[w := Exited])
    case Settle(w, r) =>
      var i := s.workers[w].index;
      var logged := s.log + [End(Call(i, false), r)];
      (match r
       case Deferred => s.(deferred := s.deferred + [i], workers := s.workers[w := Idle], log := logged)
       case Finished(_) => s.(workers := s.workers[w := Idle], log := logged)
       case Rejected => s.(workers := s.workers[w := Failed], log := logged))
    case Join =>
      if exists w :: 0 <= w < |s.workers| && s.workers[w].Failed? then s.(phase := PoolAborted)
      else s.(phase := Retrying(SortBy(s.deferred, Leq()), 0, false))
    case BeginRetry =>
      s.(phase := s.phase.(busy := true), log := s.log + [Begin(Call(s.phase.order[s.phase.done], true))])
    case EndRetry(r) =>
      var logged := s.log + [End(Call(s.phase.order[s.phase.done], true), r)];
      if r.Rejected? then s.(phase := RetryAborted(s.phase.order, s.phase.done), log := logged)
      else s.(phase := s.phase.(done := s.phase.done + 1, busy := false), log := logged)
    case Finish => s.(phase := Succeeded(s.phase.order))
  }

  /** `t` follows from `s` by the given schedule. */
  ghost predicate Runs<R(!new)>(s: State<R>, schedule: seq<Action<R>>, t: State<R>)
    decreases |schedule|
  {
    if schedule == [] then s == t
    else
      var n := |schedule| - 1;
      exists m :: Runs(s, schedule[..n], m) && Enabled(m, schedule[n]) && t == Step(m, schedule[n])
  }

  // ----- what the log records -----

  /** The calls begun, in order. */
  function Begun<R>(log: seq<Event<R>>): seq<Call> {
    if log == [] then []
    else
      var n := |log| - 1;
      if log[n].Begin? then Begun(log[..n]) + [log[n].call] else Begun(log[..n])
  }

  /** How many times a call ended. */
  function Ended<R>(log: seq<Event<R>>, call: Call): nat {
    if log == [] then 0
    else
      var n := |log| - 1;
      Ended(log[..n], call) + if log[n].End? && log[n].call == call then 1 else 0
  }

  /** First attempts at the indices below `n`, in ascending order. */
  function FirstCalls(n: nat): seq<Call> {
    seq(n, i requires 0 <= i < n => Call(i, false))
  }

  function RetryCalls(order: seq<nat>): seq<Call> {
    seq(|order|, i requires 0 <= i < |order| => Call(order[i], true))
  }

  /** The number of visits now running. */
  function Active(workers: seq<Worker>): nat {
    if workers == [] then 0
    else Active(workers[..|workers| - 1]) + if workers[|workers| - 1].Busy? then 1 else 0
  }

  function Running<R>(s: State<R>): nat {
    Active(s.workers) + if s.phase.Retrying? && s.phase.busy then 1 else 0
  }

  // ----- the invariant of the pool phase -----

  ghost predicate BusyWith(workers: seq<Worker>, i: nat) {
    exists w :: 0 <= w < |workers| && workers[w] == Busy(i)
  }

  ghost predicate SomeFailed(workers: seq<Worker>) {
    exists w :: 0 <= w < |workers| && workers[w].Failed?
  }

  ghost predicate SomeRejected<R>(log: seq<Event<R>>) {
    exists k :: 0 <= k < |log| && log[k].End? && log[k].settled.Rejected?
  }

  ghost predicate DeferredIn<R>(log: seq<Event<R>>, i: nat) {
    exists k :: 0 <= k < |log| && log[k] == End(Call(i, false), Deferred)
  }

  /** Workers hold distinct claimed indices, and leave only when every index is claimed. */
  ghost predicate Workers(workers: seq<Worker>, next: nat, count: nat) {
    && next <= count
    && (forall w :: 0 <= w < |workers| && workers[w].Busy? ==> workers[w].index < next)
    && (forall v, w :: 0 <= v < w < |workers| && workers[v].Busy? && workers[w].Busy? ==>
          workers[v].index != workers[w].index)
    && (forall w :: 0 <= w < |workers| && workers[w].Exited? ==> next == count)
  }

  /** Each claimed index was begun once, in order, and ended once unless a worker still holds it. */
  ghost predicate Attempts<R>(log: seq<Event<R>>, workers: seq<Worker>, next: nat) {
    && Begun(log) == FirstCalls(next)
    && (forall i: nat :: Ended(log, Call(i, false)) == if i < next && !BusyWith(workers, i) then 1 else 0)
    && (forall i: nat :: Ended(log, Call(i, true)) == 0)
  }

  /** The deferred list holds exactly the indices whose visit asked to be deferred. */
  ghost predicate Deferrals<R>(log: seq<Event<R>>, deferred: seq<nat>) {
    && Distinct(deferred)
    && forall i: nat :: i in deferred <==> DeferredIn(log, i)
  }

  ghost predicate Pool<R>(count: nat, jobs: nat, log: seq<Event<R>>, next: nat, deferred: seq<nat>,
                          workers: seq<Worker>) {
    && jobs > 0 && |workers| == Min(jobs, count)
    && Workers(workers, next, count)
    && Attempts(log, workers, next)
    && Deferrals(log, deferred)
    && (SomeFailed(workers) <==> SomeRejected(log))
    && (forall i :: i in deferred ==> i < next && !BusyWith(workers, i))
  }

  lemma StartPools<R>(count: nat, jobs: nat)
    requires jobs > 0
    ensures Pool<R>(count, jobs, [], 0, [], Start<R>(count, jobs).workers)
  {
  }

  lemma ClaimPools<R>(s: State<R>, w: nat)
    requires Pool(s.count, s.jobs, s.log, s.next, s.deferred, s.workers)
    requires w < |s.workers| && s.workers[w] == Idle && s.next < s.count
    ensures var t := Step(s.(phase := Pooling), Proceed(w)); Pool(t.count, t.jobs, t.log, t.next, t.deferred, t.workers)
  {
    hide Attempts, Deferrals, BusyWith, SomeFailed, SomeRejected;
    var e := Begin(Call(s.next, false));
    BusyClaimed(s.workers, w, s.next);
    ClaimAttempts(s.log, s.workers, s.next, w);
    ClaimDeferrals(s.log, e, s.deferred);
    RejectGrows(s.log, e);
    FailedSame(s.workers, w, Busy(s.next));
  }

  lemma BusyClaimed(workers: seq<Worker>, w: nat, next: nat)
    requires w < |workers| && workers[w] == Idle
    ensures forall i: nat :: BusyWith(workers[w := Busy(next)], i) <==> i == next || BusyWith(workers, i)
  {
    var more := workers[w := Busy(next)];
    assert more[w] == Busy(next);
    forall i: nat ensures BusyWith(more, i) <==> i == next || BusyWith(workers, i) {
      if BusyWith(workers, i) {
        var v :| 0 <= v < |workers| && workers[v] == Busy(i);
        assert more[v] == Busy(i);
      }
    }
  }

  lemma ClaimAttempts<R>(log: seq<Event<R>>, workers: seq<Worker>, next: nat, w: nat)
    requires Attempts(log, workers, next) && w < |workers| && workers[w] == Idle
    requires forall v :: 0 <= v < |workers| && workers[v].Busy? ==> workers[v].index < next
    ensures Attempts(log + [Begin(Call(next, false))], workers[w := Busy(next)], next + 1)
  {
    BusyClaimed(workers, w, next);
    assert !BusyWith(workers, next);
    assert (log + [Begin(Call(next, false))])[..|log|] == log;
    assert FirstCalls(next + 1) == FirstCalls(next) + [Call(next, false)];
  }

  lemma ClaimDeferrals<R>(log: seq<Event<R>>, e: Event<R>, deferred: seq<nat>)
    requires Deferrals(log, deferred) && e.Begin?
    ensures Deferrals(log + [e], deferred)
  {
    hide DeferredIn;
    forall i: nat ensures DeferredIn(log + [e], i) <==> DeferredIn(log, i) {
      LogGrows(log, e, i);
    }
  }

  lemma LogGrows<R>(log: seq<Event<R>>, e: Event<R>, i: nat)
    ensures DeferredIn(log + [e], i) <==> DeferredIn(log, i) || e == End(Call(i, false), Deferred)
  {
    var more := log + [e];
    assert more[|log|] == e;
    if DeferredIn(log, i) {
      var k :| 0 <= k < |log| && log[k] == End(Call(i, false), Deferred);
      assert more[k] == log[k];
    }
  }

  lemma RejectGrows<R>(log: seq<Event<R>>, e: Event<R>)
    ensures SomeRejected(log + [e]) <==> SomeRejected(log) || (e.End? && e.settled.Rejected?)
  {
    var more := log + [e];
    assert more[|log|] == e;
    if SomeRejected(log) {
      var k :| 0 <= k < |log| && log[k].End? && log[k].settled.Rejected?;
      assert more[k] == log[k];
    }
  }

  lemma FailedSame(workers: seq<Worker>, w: nat, x: Worker)
    requires w < |workers| && !workers[w].Failed?
    ensures SomeFailed(workers[w := x]) <==> SomeFailed(workers) || x.Failed?
  {
    var more := workers[w := x];
    assert more[w] == x;
    if SomeFailed(workers) {
      var v :| 0 <= v < |workers| && workers[v].Failed?;
      assert more[v] == workers[v];
    }
  }

  lemma ExitPools<R>(s: State<R>, w: nat)
    requires Pool(s.count, s.jobs, s.log, s.next, s.deferred, s.workers)
    requires w < |s.workers| && s.workers[w] == Idle && s.next >= s.count
    ensures Pool(s.count, s.jobs, s.log, s.next, s.deferred, s.workers[w := Exited])
  {
    var more := s.workers[w := Exited];
    forall i: nat ensures BusyWith(more, i) <==> BusyWith(s.workers, i) {
      if BusyWith(s.workers, i) {
        var v :| 0 <= v < |s.workers| && s.workers[v] == Busy(i);
        assert more[v] == Busy(i);
      }
    }
    FailedSame(s.workers, w, Exited);
  }

  lemma SettlePools<R>(s: State<R>, w: nat, r: Settled<R>)
    requires Pool(s.count, s.jobs, s.log, s.next, s.deferred, s.workers)
    requires w < |s.workers| && s.workers[w].Busy?
    ensures var t := Step(s.(phase := Pooling), Settle(w, r));
            Pool(t.count, t.jobs, t.log, t.next, t.deferred, t.workers)
  {
    hide Attempts, Deferrals, BusyWith, SomeFailed, SomeRejected;
    var i, x := s.workers[w].index, if r.Rejected? then Failed else Idle;
    var e := End(Call(i, false), r);
    BusySettled(s.workers, w, x);
    SettleAttempts(s.log, s.workers, s.next, w, r, x);
    SettleDeferrals(s.log, s.deferred, i, r);
    RejectGrows(s.log, e);
    FailedSame(s.workers, w, x);
  }

  lemma BusySettled(workers: seq<Worker>, w: nat, x: Worker)
    requires w < |workers| && workers[w].Busy? && !x.Busy?
    requires forall v, u :: 0 <= v < u < |workers| && workers[v].Busy? && workers[u].Busy? ==>
               workers[v].index != workers[u].index
    ensures BusyWith(workers, workers[w].index)
    ensures forall j: nat :: BusyWith(workers[w := x], j) <==> j != workers[w].index && BusyWith(workers, j)
  {
    var more := workers[w := x];
    forall j: nat ensures BusyWith(more, j) <==> j != workers[w].index && BusyWith(workers, j) {
      if v :| 0 <= v < |workers| && workers[v] == Busy(j) {
        assert j != workers[w].index ==> more[v] == Busy(j);
      }
    }
  }

  lemma SettleAttempts<R>(log: seq<Event<R>>, workers: seq<Worker>, next: nat, w: nat, r: Settled<R>, x: Worker)
    requires Attempts(log, workers, next)
    requires w < |workers| && workers[w].Busy? && !x.Busy? && workers[w].index < next
    requires BusyWith(workers, workers[w].index)
    requires forall j: nat :: BusyWith(workers[w := x], j) <==> j != workers[w].index && BusyWith(workers, j)
    ensures Attempts(log + [End(Call(workers[w].index, false), r)], workers[w := x], next)
  {
    hide BusyWith;
    assert (log + [End(Call(workers[w].index, false), r)])[..|log|] == log;
  }

  lemma SettleDeferrals<R>(log: seq<Event<R>>, deferred: seq<nat>, i: nat, r: Settled<R>)
    requires Deferrals(log, deferred) && i !in deferred
    ensures Deferrals(log + [End(Call(i, false), r)], if r.Deferred? then deferred + [i] else deferred)
  {
    hide DeferredIn;
    var e := End(Call(i, false), r);
    forall j: nat ensures DeferredIn(log + [e], j) <==> DeferredIn(log, j) || e == End(Call(j, false), Deferred) {
      LogGrows(log, e, j);
    }
  }

  // ----- the retry pass -----

  /** Visits begun and ended one at a time, in the order given; the last may still be running. */
  ghost predicate Serial<R>(tail: seq<Event<R>>, order: seq<nat>, done: nat, busy: bool) {
    && done <= |order| && (busy ==> done < |order|)
    && |tail| == 2 * done + (if busy then 1 else 0)
    && (forall j :: 0 <= j < done ==>
          && tail[2 * j] == Begin(Call(order[j], true))
          && tail[2 * j + 1].End? && tail[2 * j + 1].call == Call(order[j], true)
          && !tail[2 * j + 1].settled.Rejected?)
    && (busy ==> tail[2 * done] == Begin(Call(order[done], true)))
  }

  ghost predicate Drained(workers: seq<Worker>) {
    forall w :: 0 <= w < |workers| ==> workers[w].Exited? || workers[w].Failed?
  }

  /** The pool phase ended without rejection in the first `cut` events, and handed over its deferred indices. */
  ghost predicate Handed<R>(s: State<R>, cut: nat, order: seq<nat>) {
    && cut <= |s.log|
    && Pool(s.count, s.jobs, s.log[..cut], s.next, s.deferred, s.workers)
    && Drained(s.workers) && !SomeFailed(s.workers) && s.next == s.count
    && order == SortBy(s.deferred, Leq())
  }

  ghost predicate Inv<R>(s: State<R>) {
    match s.phase
    case Pooling => Pool(s.count, s.jobs, s.log, s.next, s.deferred, s.workers)
    case PoolAborted =>
      Pool(s.count, s.jobs, s.log, s.next, s.deferred, s.workers) && Drained(s.workers) && SomeFailed(s.workers)
    case Retrying(order, done, busy) =>
      exists cut: nat :: Handed(s, cut, order) && Serial(s.log[cut..], order, done, busy)
    case Succeeded(order) => exists cut: nat :: Handed(s, cut, order) && Serial(s.log[cut..], order, |order|, false)
    case RetryAborted(order, done) =>
      && done < |order| && |s.log| > 0 && s.log[|s.log| - 1].End? && s.log[|s.log| - 1].call == Call(order[done], true)
      && s.log[|s.log| - 1].settled.Rejected?
      && exists cut: nat :: cut < |s.log| && Handed(s, cut, order) && Serial(s.log[cut..|s.log| - 1], order, done, true)
  }

  lemma JoinKeeps<R>(s: State<R>)
    requires Inv(s) && Enabled(s, Join)
    ensures Inv(Step(s, Join))
  {
    hide Workers, Attempts, Deferrals, SortBy, Min;
    var t := Step(s, Join);
    if SomeFailed(s.workers) {
    } else {
      assert s.workers != [] ==> s.workers[0].Exited?;
      AllClaimed(s);
      assert t.log[..|t.log|] == s.log;
      assert Handed(t, |t.log|, t.phase.order) && Serial(t.log[|t.log|..], t.phase.order, 0, false);
    }
  }

  /** A worker that never failed leaves only after every index was claimed. */
  lemma AllClaimed<R>(s: State<R>)
    requires Pool(s.count, s.jobs, s.log, s.next, s.deferred, s.workers) && Drained(s.workers)
    requires s.workers == [] || exists w :: 0 <= w < |s.workers| && s.workers[w].Exited?
    ensures s.next == s.count
  {
    hide Attempts, Deferrals;
    if s.workers == [] {
      assert s.count == 0;
    }
  }

  /** The handover only looks at the events before it. */
  lemma HandedStays<R>(s: State<R>, t: State<R>, cut: nat, order: seq<nat>)
    requires Handed(s, cut, order) && cut <= |t.log| && t.log[..cut] == s.log[..cut]
    requires t.(phase := s.phase, log := s.log) == s
    ensures Handed(t, cut, order)
  {
    hide Pool, SortBy;
  }

  lemma SerialBegin<R>(tail: seq<Event<R>>, order: seq<nat>, done: nat)
    requires Serial(tail, order, done, false) && done < |order|
    ensures Serial(tail + [Begin(Call(order[done], true))], order, done, true)
  {
  }

  lemma SerialEnd<R>(tail: seq<Event<R>>, order: seq<nat>, done: nat, r: Settled<R>)
    requires Serial(tail, order, done, true) && done < |order| && !r.Rejected?
    ensures Serial(tail + [End(Call(order[done], true), r)], order, done + 1, false)
  {
  }

  lemma BeginRetryKeeps<R>(s: State<R>)
    requires Inv(s) && Enabled(s, BeginRetry)
    ensures Inv(Step(s, BeginRetry))
  {
    hide Pool, SortBy, SomeFailed, Drained, Serial;
    var t := Step(s, BeginRetry);
    var Retrying(order, done, busy) := s.phase;
    var cut: nat :| Handed(s, cut, order) && Serial(s.log[cut..], order, done, busy);
    HandedStays(s, t, cut, order);
    SerialBegin(s.log[cut..], order, done);
    assert t.log[cut..] == s.log[cut..] + [Begin(Call(order[done], true))];
  }

  lemma EndRetryKeeps<R>(s: State<R>, r: Settled<R>)
    requires Inv(s) && Enabled(s, EndRetry(r))
    ensures Inv(Step(s, EndRetry(r)))
  {
    hide Pool, SortBy, SomeFailed, Drained, Serial;
    var t := Step(s, EndRetry(r));
    var Retrying(order, done, busy) := s.phase;
    var cut: nat :| Handed(s, cut, order) && Serial(s.log[cut..], order, done, busy);
    HandedStays(s, t, cut, order);
    if r.Rejected? {
      assert t.log[cut..|t.log| - 1] == s.log[cut..];
    } else {
      SerialEnd(s.log[cut..], order, done, r);
      assert t.log[cut..] == s.log[cut..] + [End(Call(order[done], true), r)];
    }
  }

  lemma FinishKeeps<R>(s: State<R>)
    requires Inv(s) && Enabled(s, Finish)
    ensures Inv(Step(s, Finish))
  {
    hide Pool, SortBy, SomeFailed, Drained, Serial;
    var t := Step(s, Finish);
    var Retrying(order, done, busy) := s.phase;
    var cut: nat :| Handed(s, cut, order) && Serial(s.log[cut..], order, done, busy);
    HandedStays(s, t, cut, order);
  }

  lemma StepKeeps<R>(s: State<R>, a: Action<R>)
    requires Inv(s) && Enabled(s, a)
    ensures Inv(Step(s, a))
  {
    hide Pool, Serial, Handed;
    match a
    case Proceed(w) => if s.next < s.count { ClaimPools(s, w); } else { ExitPools(s, w); }
    case Settle(w, r) => SettlePools(s, w, r);
    case Join => JoinKeeps(s);
    case BeginRetry => BeginRetryKeeps(s);
    case EndRetry(r) => EndRetryKeeps(s, r);
    case Finish => FinishKeeps(s);
  }

  /** The invariant holds after every schedule. */
  lemma {:induction false} RunsKeep<R(!new)>(count: nat, jobs: nat, schedule: seq<Action<R>>, s: State<R>)
    requires jobs > 0 && Runs(Start(count, jobs), schedule, s)
    ensures Inv(s) && s.count == count && s.jobs == jobs
    decreases |schedule|
  {
    hide Inv, Step, Enabled;
    if schedule == [] {
      StartInv<R>(count, jobs);
    } else {
      var n := |schedule| - 1;
      var m :| Runs(Start(count, jobs), schedule[..n], m) && Enabled(m, schedule[n]) && s == Step(m, schedule[n]);
      RunsKeep(count, jobs, schedule[..n], m);
      StepKeeps(m, schedule[n]);
      StepFrame(m, schedule[n]);
    }
  }

  lemma StepFrame<R>(s: State<R>, a: Action<R>)
    requires Enabled(s, a)
    ensures Step(s, a).count == s.count && Step(s, a).jobs == s.jobs
  {
    hide SortBy;
  }

  lemma StartInv<R>(count: nat, jobs: nat)
    requires jobs > 0
    ensures Inv(Start<R>(count, jobs))
  {
    StartPools<R>(count, jobs);
  }

  // ----- guarantees over every schedule -----

  lemma {:induction false} EndedCounts<R>(log: seq<Event<R>>, k: nat)
    requires k < |log| && log[k].End?
    ensures Ended(log, log[k].call) > 0
  {
    var n := |log| - 1;
    if k < n {
      EndedCounts(log[..n], k);
    }
  }

  lemma PoolIndices<R>(count: nat, jobs: nat, log: seq<Event<R>>, next: nat, deferred: seq<nat>, workers: seq<Worker>)
    requires Pool(count, jobs, log, next, deferred, workers)
    ensures forall k :: 0 <= k < |log| && log[k].End? ==> log[k].call.index < count
  {
    hide Deferrals, Ended;
    forall k | 0 <= k < |log| && log[k].End? ensures log[k].call.index < count {
      EndedCounts(log, k);
      assert log[k].call == Call(log[k].call.index, log[k].call.retry);
    }
  }

  /** Retried indices were deferred, and deferred ones claimed. */
  lemma HandedIndices<R>(s: State<R>, cut: nat, order: seq<nat>)
    requires Handed(s, cut, order)
    ensures forall i :: i in order ==> i < s.count
    ensures forall k :: 0 <= k < cut && s.log[k].End? ==> s.log[k].call.index < s.count
  {
    hide Attempts, SortBy, Deferrals;
    PoolIndices(s.count, s.jobs, s.log[..cut], s.next, s.deferred, s.workers);
    assert forall k :: 0 <= k < cut ==> s.log[..cut][k] == s.log[k];
    SortPermutes(s.deferred, Leq());
    forall i | i in order ensures i < s.count {
      PermutedMember(order, s.deferred, i);
    }
  }

  lemma SerialIndices<R>(tail: seq<Event<R>>, order: seq<nat>, done: nat, busy: bool, k: nat)
    requires Serial(tail, order, done, busy) && k < |tail| && tail[k].End?
    ensures tail[k].call.index in order
  {
    var j := k / 2;
    assert k == 2 * j || k == 2 * j + 1;
  }

  /** The pool hands out indices below the count only. */
  lemma IndicesBelow<R>(s: State<R>)
    requires Inv(s)
    ensures forall k :: 0 <= k < |s.log| && s.log[k].End? ==> s.log[k].call.index < s.count
  {
    hide Pool, SortBy, SomeFailed, Drained, Serial;
    match s.phase
    case Pooling => PoolIndices(s.count, s.jobs, s.log, s.next, s.deferred, s.workers);
    case PoolAborted => PoolIndices(s.count, s.jobs, s.log, s.next, s.deferred, s.workers);
    case Retrying(order, done, busy) =>
      var cut: nat :| Handed(s, cut, order) && Serial(s.log[cut..], order, done, busy);
      TailIndices(s, cut, order, s.log[cut..], done, busy);
    case Succeeded(order) =>
      var cut: nat :| Handed(s, cut, order) && Serial(s.log[cut..], order, |order|, false);
      TailIndices(s, cut, order, s.log[cut..], |order|, false);
    case RetryAborted(order, done) =>
      var cut: nat :| cut < |s.log| && Handed(s, cut, order) && Serial(s.log[cut..|s.log| - 1], order, done, true);
      TailIndices(s, cut, order, s.log[cut..|s.log| - 1], done, true);
      assert s.log[|s.log| - 1].call.index == order[done];
      assert order[done] in order;
      assert cut + |s.log[cut..|s.log| - 1]| == |s.log| - 1;
  }

  lemma TailIndices<R>(s: State<R>, cut: nat, order: seq<nat>, tail: seq<Event<R>>, done: nat, busy: bool)
    requires Handed(s, cut, order) && Serial(tail, order, done, busy)
    requires cut + |tail| <= |s.log| && tail == s.log[cut..cut + |tail|]
    ensures forall k :: 0 <= k < cut + |tail| && s.log[k].End? ==> s.log[k].call.index < s.count
    ensures forall i :: i in order ==> i < s.count
  {
    hide Handed, Serial;
    HandedIndices(s, cut, order);
    forall k | cut <= k < cut + |tail| && s.log[k].End? ensures s.log[k].call.index < s.count {
      assert tail[k - cut] == s.log[k];
      SerialIndices(tail, order, done, busy, k - cut);
    }
  }

  lemma {:induction false} ActiveAtMost(workers: seq<Worker>)
    ensures Active(workers) <= |workers|
    ensures Drained(workers) ==> Active(workers) == 0
  {
    if workers != [] {
      ActiveAtMost(workers[..|workers| - 1]);
    }
  }

  lemma {:induction false} BegunAppend<R>(a: seq<Event<R>>, b: seq<Event<R>>)
    ensures Begun(a + b) == Begun(a) + Begun(b)
  {
    if b == [] {
      assert a + b == a;
    } else {
      var n := |b| - 1;
      BegunAppend(a, b[..n]);
      assert (a + b)[..|a + b| - 1] == a + b[..n];
    }
  }

  lemma {:induction false} EndedAppend<R>(a: seq<Event<R>>, b: seq<Event<R>>, c: Call)
    ensures Ended(a + b, c) == Ended(a, c) + Ended(b, c)
  {
    if b == [] {
      assert a + b == a;
    } else {
      var n := |b| - 1;
      EndedAppend(a, b[..n], c);
      assert (a + b)[..|a + b| - 1] == a + b[..n];
    }
  }

  /** A serial pass without its last event. */
  lemma SerialPop<R>(tail: seq<Event<R>>, order: seq<nat>, done: nat, busy: bool)
    requires Serial(tail, order, done, busy) && tail != []
    ensures var n := |tail| - 1;
            if busy then
              Serial(tail[..n], order, done, false) && tail[n] == Begin(Call(order[done], true))
            else
              && done > 0 && Serial(tail[..n], order, done - 1, true)
              && tail[n].End? && tail[n].call == Call(order[done - 1], true)
    ensures done <= |order| && (busy ==> done < |order|)
  {
    if !busy {
      var d := done - 1;
      assert tail[2 * d + 1].End? && tail[2 * d] == Begin(Call(order[d], true));
    }
  }

  lemma SerialEmpty<R>(order: seq<nat>, done: nat, busy: bool)
    requires Serial<R>([], order, done, busy)
    ensures done == 0 && !busy
  {
  }

  lemma NoRetries(order: seq<nat>)
    ensures RetryCalls(order[..0]) == []
  {
  }

  lemma OneMoreRetry(order: seq<nat>, done: nat)
    requires done < |order| && Distinct(order)
    ensures RetryCalls(order[..done + 1]) == RetryCalls(order[..done]) + [Call(order[done], true)]
    ensures order[done] !in order[..done]
    ensures forall i :: i in order[..done + 1] <==> i in order[..done] || i == order[done]
  {
    assert order[..done + 1] == order[..done] + [order[done]];
  }

  lemma {:induction false} SerialBegun<R>(tail: seq<Event<R>>, order: seq<nat>, done: nat, busy: bool)
    requires Serial(tail, order, done, busy) && Distinct(order)
    ensures done <= |order| && (busy ==> done < |order|)
    ensures Begun(tail) == RetryCalls(order[..done + if busy then 1 else 0])
    decreases |tail|
  {
    hide Serial, RetryCalls, Distinct;
    if tail == [] {
      SerialEmpty<R>(order, done, busy);
      NoRetries(order);
    } else {
      var n := |tail| - 1;
      SerialPop(tail, order, done, busy);
      if busy {
        SerialBegun(tail[..n], order, done, false);
        OneMoreRetry(order, done);
      } else {
        SerialBegun(tail[..n], order, done - 1, true);
      }
    }
  }

  lemma {:induction false} SerialEnded<R>(tail: seq<Event<R>>, order: seq<nat>, done: nat, busy: bool, i: nat)
    requires Serial(tail, order, done, busy) && Distinct(order)
    ensures done <= |order|
    ensures Ended(tail, Call(i, true)) == if i in order[..done] then 1 else 0
    ensures Ended(tail, Call(i, false)) == 0
    decreases |tail|
  {
    hide Serial, RetryCalls, Distinct;
    if tail == [] {
      SerialEmpty<R>(order, done, busy);
    } else {
      var n := |tail| - 1;
      SerialPop(tail, order, done, busy);
      if busy {
        SerialEnded(tail[..n], order, done, false, i);
      } else {
        SerialEnded(tail[..n], order, done - 1, true, i);
        OneMoreRetry(order, done - 1);
      }
    }
  }

  /** The calls begun and ended by a serial pass over the first `done` entries. */
  lemma SerialCalls<R>(tail: seq<Event<R>>, order: seq<nat>, done: nat, busy: bool)
    requires Serial(tail, order, done, busy) && Distinct(order)
    ensures done <= |order| && (busy ==> done < |order|)
    ensures Begun(tail) == RetryCalls(order[..done + if busy then 1 else 0])
    ensures forall i: nat :: Ended(tail, Call(i, true)) == if i in order[..done] then 1 else 0
    ensures forall i: nat :: Ended(tail, Call(i, false)) == 0
  {
    hide Serial, RetryCalls, Distinct, Ended, Begun;
    SerialBegun(tail, order, done, busy);
    forall i: nat
      ensures Ended(tail, Call(i, true)) == if i in order[..done] then 1 else 0
      ensures Ended(tail, Call(i, false)) == 0
    {
      SerialEnded(tail, order, done, busy, i);
    }
  }

  lemma SortedDeferrals(deferred: seq<nat>)
    requires Distinct(deferred)
    ensures Distinct(SortBy(deferred, Leq()))
    ensures forall i, j :: 0 <= i < j < |SortBy(deferred, Leq())| ==>
              SortBy(deferred, Leq())[i] < SortBy(deferred, Leq())[j]
    ensures forall i :: i in SortBy(deferred, Leq()) <==> i in deferred
  {
    hide SortBy;
    var order := SortBy(deferred, Leq());
    SortPermutes(deferred, Leq());
    SortSorts(deferred, Leq());
    PermutedDistinct(deferred, order);
    forall i ensures i in order <==> i in deferred {
      PermutedMember(order, deferred, i);
    }
    forall i, j | 0 <= i < j < |order| ensures order[i] < order[j] {
      assert Leq()(order[i], order[j]);
    }
  }

  /** At most `min(jobs, count)` visits run at any time. */
  lemma Bounded<R(!new)>(count: nat, jobs: nat, schedule: seq<Action<R>>, s: State<R>)
    requires jobs > 0 && Runs(Start(count, jobs), schedule, s)
    ensures Running(s) <= Min(jobs, count)
  {
    hide Workers, Attempts, Deferrals, SortBy;
    RunsKeep(count, jobs, schedule, s);
    ActiveAtMost(s.workers);
    if s.phase.Retrying? && s.phase.busy {
      var cut: nat :| Handed(s, cut, s.phase.order) && Serial(s.log[cut..], s.phase.order, s.phase.done, s.phase.busy);
      OrderNonempty(s, cut, s.phase.order, s.phase.done);
    }
  }

  lemma OrderNonempty<R>(s: State<R>, cut: nat, order: seq<nat>, done: nat)
    requires Handed(s, cut, order) && done < |order|
    ensures s.count > 0
  {
    hide Attempts, SortBy;
    SortedDeferrals(s.deferred);
    assert order[done] in order;
  }

  /** What a successful completion looks like. */
  ghost predicate Complete<R>(s: State<R>, order: seq<nat>) {
    && Begun(s.log) == FirstCalls(s.count) + RetryCalls(order)
    && (forall i: nat :: Ended(s.log, Call(i, false)) == if i < s.count then 1 else 0)
    && (forall i: nat :: Ended(s.log, Call(i, true)) == if i in order then 1 else 0)
    && (forall i, j :: 0 <= i < j < |order| ==> order[i] < order[j])
    && (forall i: nat :: i in order <==> i < s.count && DeferredIn(s.log, i))
    && !SomeRejected(s.log)
  }

  /** Every first attempt precedes every retry, and retries never overlap. */
  ghost predicate Staged<R>(s: State<R>, order: seq<nat>, cut: nat) {
    && cut <= |s.log|
    && Begun(s.log[..cut]) == FirstCalls(s.count)
    && (forall i: nat :: i < s.count ==> Ended(s.log[..cut], Call(i, false)) == 1)
    && Serial(s.log[cut..], order, |order|, false)
  }

  lemma TailDefers<R>(s: State<R>, cut: nat, order: seq<nat>, i: nat)
    requires cut <= |s.log| && Serial(s.log[cut..], order, |order|, false)
    ensures DeferredIn(s.log, i) <==> DeferredIn(s.log[..cut], i)
  {
    var tail := s.log[cut..];
    if DeferredIn(s.log, i) {
      var k :| 0 <= k < |s.log| && s.log[k] == End(Call(i, false), Deferred);
      if k >= cut {
        assert tail[k - cut] == s.log[k];
        SerialEntry(tail, order, |order|, k - cut);
      }
      assert s.log[..cut][k] == s.log[k];
    }
    if DeferredIn(s.log[..cut], i) {
      var k :| 0 <= k < cut && s.log[..cut][k] == End(Call(i, false), Deferred);
      assert s.log[k] == End(Call(i, false), Deferred);
    }
  }

  lemma SerialEntry<R>(tail: seq<Event<R>>, order: seq<nat>, done: nat, k: nat)
    requires Serial(tail, order, done, false) && k < |tail|
    ensures tail[k].call.retry && (tail[k].End? ==> !tail[k].settled.Rejected?)
  {
    var j := k / 2;
    assert k == 2 * j || k == 2 * j + 1;
  }

  lemma TailRejects<R>(s: State<R>, cut: nat, order: seq<nat>)
    requires cut <= |s.log| && Serial(s.log[cut..], order, |order|, false) && !SomeRejected(s.log[..cut])
    ensures !SomeRejected(s.log)
  {
    var tail := s.log[cut..];
    forall k | 0 <= k < |s.log| ensures !(s.log[k].End? && s.log[k].settled.Rejected?) {
      if k >= cut {
        assert tail[k - cut] == s.log[k];
        SerialEntry(tail, order, |order|, k - cut);
      } else {
        assert s.log[..cut][k] == s.log[k];
      }
    }
  }

  lemma NobodyBusy(workers: seq<Worker>, i: nat)
    requires Drained(workers)
    ensures !BusyWith(workers, i)
  {
  }

  /**
   * On success every index was attempted once, then exactly the deferred ones were retried once each,
   * one at a time in ascending order after every first attempt had ended.
   */
  lemma Succeeds<R(!new)>(count: nat, jobs: nat, schedule: seq<Action<R>>, s: State<R>)
    requires jobs > 0 && Runs(Start(count, jobs), schedule, s) && s.phase.Succeeded?
    ensures s.count == count && Complete(s, s.phase.order)
    ensures exists cut :: Staged(s, s.phase.order, cut)
  {
    hide Serial, Runs, Workers, SortBy, Min;
    RunsKeep(count, jobs, schedule, s);
    var order := s.phase.order;
    var cut: nat :| Handed(s, cut, order) && Serial(s.log[cut..], order, |order|, false);
    SortedDeferrals(s.deferred);
    SucceedsAt(s, cut, order);
  }

  lemma SucceedsAt<R>(s: State<R>, cut: nat, order: seq<nat>)
    requires Handed(s, cut, order) && Serial(s.log[cut..], order, |order|, false)
    ensures Complete(s, order) && Staged(s, order, cut)
  {
    hide Serial, Workers, SortBy, Min;
    SortedDeferrals(s.deferred);
    var head, tail := s.log[..cut], s.log[cut..];
    assert s.log == head + tail;
    BegunAppend(head, tail);
    SerialCalls(tail, order, |order|, false);
    assert order[..|order|] == order;
    forall i: nat
      ensures !BusyWith(s.workers, i)
      ensures Ended(s.log, Call(i, false)) == Ended(head, Call(i, false))
      ensures Ended(s.log, Call(i, true)) == Ended(tail, Call(i, true))
      ensures DeferredIn(s.log, i) <==> DeferredIn(head, i)
    {
      NobodyBusy(s.workers, i);
      EndedAppend(head, tail, Call(i, false));
      EndedAppend(head, tail, Call(i, true));
      TailDefers(s, cut, order, i);
    }
    TailRejects(s, cut, order);
  }

  /** The pass over the deferred indices begins only after every first attempt has ended. */
  lemma AttemptsApart<R>(s: State<R>, order: seq<nat>, cut: nat, i: nat)
    requires Complete(s, order) && Staged(s, order, cut)
    ensures Ended(s.log[..cut], Call(i, true)) == 0
    ensures i < s.count ==> Ended(s.log[cut..], Call(i, false)) == 0
  {
    hide Serial, Begun, Ended;
    var head, tail := s.log[..cut], s.log[cut..];
    assert s.log == head + tail;
    EndedAppend(head, tail, Call(i, true));
    EndedAppend(head, tail, Call(i, false));
    SerialCalls(tail, order, |order|, false);
    assert order[..|order|] == order;
  }

  /** A rejected first attempt drains the pool and no retry ever begins. */
  lemma RejectionSkipsRetries<R(!new)>(count: nat, jobs: nat, schedule: seq<Action<R>>, s: State<R>)
    requires jobs > 0 && Runs(Start(count, jobs), schedule, s) && s.phase.PoolAborted?
    ensures SomeRejected(s.log) && Begun(s.log) == FirstCalls(s.next)
    ensures forall i: nat :: i < s.next ==> Ended(s.log, Call(i, false)) == 1
    ensures (exists w :: 0 <= w < |s.workers| && s.workers[w].Exited?) ==> s.next == count
  {
    hide Deferrals;
    RunsKeep(count, jobs, schedule, s);
    forall i: nat ensures !BusyWith(s.workers, i) {
      NobodyBusy(s.workers, i);
    }
  }

  /** A rejected retry stops the pass right there. */
  lemma RejectedRetryStops<R(!new)>(count: nat, jobs: nat, schedule: seq<Action<R>>, s: State<R>)
    requires jobs > 0 && Runs(Start(count, jobs), schedule, s) && s.phase.RetryAborted?
    ensures s.phase.done < |s.phase.order|
    ensures Begun(s.log) == FirstCalls(count) + RetryCalls(s.phase.order[..s.phase.done + 1])
  {
    hide Serial, Runs, Workers, SortBy, Min;
    RunsKeep(count, jobs, schedule, s);
    var order, done := s.phase.order, s.phase.done;
    var cut: nat :| cut < |s.log| && Handed(s, cut, order) && Serial(s.log[cut..|s.log| - 1], order, done, true);
    SortedDeferrals(s.deferred);
    var tail := s.log[cut..|s.log| - 1];
    var last := s.log[|s.log| - 1];
    assert s.log == s.log[..cut] + tail + [last];
    BegunAppend(s.log[..cut], tail);
    BegunAppend(s.log[..cut] + tail, [last]);
    assert Begun([last]) == [];
    SerialCalls(tail, order, done, true);
  }

  // ----- every schedule ends -----

  function Weight(workers: seq<Worker>): nat {
    if workers == [] then 0
    else
      var w := workers[|workers| - 1];
      Weight(workers[..|workers| - 1]) + if w.Busy? then 2 else if w.Idle? then 1 else 0
  }

  /** How much is left to do at most. */
  function Remaining<R>(s: State<R>): int {
    match s.phase
    case Pooling => 3 * (s.count - s.next) + Weight(s.workers) + 2 * s.count + 2
    case Retrying(order, done, busy) => 2 * (|order| - done) + if busy then 0 else 1
    case _ => 0
  }

  lemma {:induction false} WeightUpdate(workers: seq<Worker>, w: nat, x: Worker)
    requires w < |workers|
    ensures Weight(workers[w := x]) == Weight(workers) - Weight([workers[w]]) + Weight([x])
  {
    var n := |workers| - 1;
    assert Weight([workers[w]]) == Weight([]) + (if workers[w].Busy? then 2 else if workers[w].Idle? then 1 else 0);
    assert Weight([x]) == Weight([]) + (if x.Busy? then 2 else if x.Idle? then 1 else 0);
    if w < n {
      WeightUpdate(workers[..n], w, x);
      assert workers[w := x][..n] == workers[..n][w := x];
    } else {
      assert workers[w := x][..n] == workers[..n];
    }
  }

  lemma {:induction false} FewBelow(s: seq<nat>, n: nat)
    requires Distinct(s) && forall i :: i in s ==> i < n
    ensures |s| <= n
    decreases n
  {
    if n == 0 {
      var first := if s == [] then 0 else s[0];
      assert s == [] || first in s;
    } else if k :| 0 <= k < |s| && s[k] == n - 1 {
      var rest := s[..k] + s[k + 1..];
      forall i | i in rest ensures i < n - 1 {
        assert i in s && i != n - 1;
      }
      FewBelow(rest, n - 1);
    } else {
      forall i | i in s ensures i < n - 1 {
      }
      FewBelow(s, n - 1);
    }
  }

  lemma FewDeferred<R>(s: State<R>)
    requires Pool(s.count, s.jobs, s.log, s.next, s.deferred, s.workers)
    ensures |SortBy(s.deferred, Leq())| <= s.count
  {
    hide Attempts, SortBy, SomeFailed, SomeRejected;
    SortedDeferrals(s.deferred);
    FewBelow(SortBy(s.deferred, Leq()), s.count);
  }

  /** Each step leaves strictly less to do. */
  lemma StepShortens<R>(s: State<R>, a: Action<R>)
    requires Inv(s) && Enabled(s, a)
    ensures 0 <= Remaining(Step(s, a)) < Remaining(s)
  {
    hide Attempts, SortBy, Serial, Deferrals, SomeFailed, SomeRejected, Drained;
    match a
    case Proceed(w) => WeightUpdate(s.workers, w, if s.next < s.count then Busy(s.next) else Exited);
    case Settle(w, r) => WeightUpdate(s.workers, w, if r.Rejected? then Failed else Idle);
    case Join =>
      FewDeferred(s);
    case _ =>
  }

  /** No schedule is longer than the work at the start. */
  lemma {:induction false} Terminates<R(!new)>(count: nat, jobs: nat, schedule: seq<Action<R>>, s: State<R>)
    requires jobs > 0 && Runs(Start(count, jobs), schedule, s)
    ensures |schedule| + Remaining(s) <= Remaining(Start<R>(count, jobs))
    decreases |schedule|
  {
    hide Inv, Remaining;
    if schedule != [] {
      var n := |schedule| - 1;
      var m :| Runs(Start(count, jobs), schedule[..n], m) && Enabled(m, schedule[n]) && s == Step(m, schedule[n]);
      RunsKeep(count, jobs, schedule[..n], m);
      Terminates(count, jobs, schedule[..n], m);
      StepShortens(m, schedule[n]);
    }
  }

  /** Until the pool has finished, some step is always possible: it cannot deadlock. */
  lemma Progress<R>(s: State<R>, any: Settled<R>) returns (a: Action<R>)
    requires Inv(s) && (s.phase.Pooling? || s.phase.Retrying?)
    ensures Enabled(s, a)
  {
    hide Pool;
    if s.phase.Pooling? {
      if w :| 0 <= w < |s.workers| && s.workers[w] == Idle {
        a := Proceed(w);
      } else if w :| 0 <= w < |s.workers| && s.workers[w].Busy? {
        a := Settle(w, any);
      } else {
        a := Join;
      }
    } else {
      var cut: nat :| Handed(s, cut, s.phase.order) && Serial(s.log[cut..], s.phase.order, s.phase.done, s.phase.busy);
      a := if s.phase.busy then EndRetry(any) else if s.phase.done < |s.phase.order| then BeginRetry else Finish;
    }
  }

  // ----- the running pool -----

  /** One `runMigrationJobs` call: workers share the cursor and the deferred list. */
  class Runner<R> {
    const count: nat
    const jobs: nat
    var next: nat
    var deferred: seq<nat>
    var workers: seq<Worker>
    var phase: Phase
    ghost var log: seq<Event<R>>

    ghost function S(): State<R>
      reads this
    {
      State(count, jobs, next, deferred, workers, phase, log)
    }

    constructor (count: nat, jobs: nat)
      requires jobs > 0
      ensures S() == Start(count, jobs) && Inv(S())
    {
      this.count, this.jobs := count, jobs;
      next, deferred, workers, phase, log := 0, [], seq(Min(jobs, count), _ => Idle), Pooling, [];
      new;
      StartInv<R>(count, jobs);
    }

    /** The head of a worker's loop: claim the next index and begin its visit, or leave. */
    method Advance(w: nat)
      requires Inv(S()) && Enabled(S(), Proceed(w))
      modifies this
      ensures S() == Step(old(S()), Proceed(w)) && Inv(S())
    {
      hide Inv;
      StepKeeps(S(), Proceed(w));
      if next < count {
        var index := next;
        next := next + 1;
        workers := workers[w := Busy(index)];
        log := log + [Begin(Call(index, false))];
      } else {
        workers := workers[w := Exited];
      }
    }

    /** A worker's visit settles: defer its index, carry on, or fail. */
    method Settled(w: nat, r: Settled<R>)
      requires Inv(S()) && Enabled(S(), Settle(w, r))
      modifies this
      ensures S() == Step(old(S()), Settle(w, r)) && Inv(S())
    {
      hide Inv;
      StepKeeps(S(), Settle(w, r));
      var index := workers[w].index;
      log := log + [End(Call(index, false), r)];
      if r.Deferred? {
        deferred := deferred + [index];
      }
      workers := workers[w := if r.Rejected? then Failed else Idle];
    }

    /** After every worker has settled: rethrow a failure, or sort the deferred indices for the retry pass. */
    method AllSettled()
      requires Inv(S()) && Enabled(S(), Join)
      modifies this
      ensures S() == Step(old(S()), Join) && Inv(S())
    {
      hide Inv;
      StepKeeps(S(), Join);
      if exists w :: 0 <= w < |workers| && workers[w].Failed? {
        phase := PoolAborted;
      } else {
        phase := Retrying(SortBy(deferred, Leq()), 0, false);
      }
    }

    /** One whole turn of the retry loop. */
    method Retry(r: Settled<R>)
      requires Inv(S()) && Enabled(S(), BeginRetry)
      modifies this
      ensures Inv(S()) && S() == Step(Step(old(S()), BeginRetry), EndRetry(r))
    {
      hide Inv;
      ghost var begun := Step(S(), BeginRetry);
      StepKeeps(S(), BeginRetry);
      StepKeeps(begun, EndRetry(r));
      var Retrying(order, done, _) := phase;
      var call := Call(order[done], true);
      log := log + [Begin(call)] + [End(call, r)];
      phase := if r.Rejected? then RetryAborted(order, done) else Retrying(order, done + 1, false);
    }
  }
}
