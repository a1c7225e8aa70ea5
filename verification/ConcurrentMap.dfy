/** `mapConcurrent`: the same shared-cursor pool, writing each result at its own index. */
module ConcurrentMap {
  import opened JobPool

  /** The results array after the logged visits: `results[index] = await operation(value)`. */
  function Results<R>(log: seq<Event<R>>): map<nat, R> {
    if log == [] then map[]
    else
      var e := log[|log| - 1];
      var before := Results(log[..|log| - 1]);
      if e.End? && !e.call.retry && e.settled.Finished? then before[e.call.index := e.settled.result] else before
  }

  /** Every visit that ended did as the operation does on its value: it left the result, or it rejected. */
  ghost predicate Computes<T, R>(values: seq<T>, operation: T -> Settled<R>, log: seq<Event<R>>) {
    forall k :: 0 <= k < |log| && log[k].End? ==>
      && log[k].call.index < |values| && log[k].settled == operation(values[log[k].call.index])
      && !log[k].settled.Deferred?
  }

  lemma {:induction false} ResultsAt<T, R>(values: seq<T>, operation: T -> Settled<R>, log: seq<Event<R>>, i: nat)
    requires Computes(values, operation, log)
    ensures Ended(log, Call(i, false)) > 0 ==> i < |values|
    ensures i in Results(log) <==> Ended(log, Call(i, false)) > 0 && operation(values[i]).Finished?
    ensures i in Results(log) ==> operation(values[i]) == Finished(Results(log)[i])
  {
    if log != [] {
      var n := |log| - 1;
      assert forall k :: 0 <= k < n ==> log[..n][k] == log[k];
      ResultsAt(values, operation, log[..n], i);
      assert log[n].call.retry || log[n].call == Call(log[n].call.index, false);
    }
  }

  lemma {:induction false} EndedSomewhere<R>(log: seq<Event<R>>, call: Call) returns (k: nat)
    requires Ended(log, call) > 0
    ensures k < |log| && log[k].End? && log[k].call == call
  {
    var n := |log| - 1;
    if log[n].End? && log[n].call == call {
      k := n;
    } else {
      k := EndedSomewhere(log[..n], call);
    }
  }

  /** At every moment of every run, with rejections or without, what has been written is right. */
  lemma WrittenIsRight<T, R>(values: seq<T>, operation: T -> Settled<R>, s: State<R>, i: nat)
    requires Computes(values, operation, s.log)
    ensures i in Results(s.log) ==> i < |values| && operation(values[i]) == Finished(Results(s.log)[i])
  {
    ResultsAt(values, operation, s.log, i);
  }

  /** Whatever the schedule, the pool ends with a rejection exactly when the operation rejects some value. */
  lemma RejectsExactly<T, R(!new)>(values: seq<T>, operation: T -> Settled<R>, jobs: nat, schedule: seq<Action<R>>,
                                   s: State<R>)
    requires jobs > 0 && Runs(Start(|values|, jobs), schedule, s)
    requires s.phase.PoolAborted? || s.phase.Succeeded?
    requires Computes(values, operation, s.log)
    ensures s.phase.PoolAborted? <==> exists v :: v in values && operation(v).Rejected?
  {
    hide Runs, Inv, Complete, Ended;
    if s.phase.PoolAborted? {
      RejectionSkipsRetries(|values|, jobs, schedule, s);
      var k :| 0 <= k < |s.log| && s.log[k].End? && s.log[k].settled.Rejected?;
      assert values[s.log[k].call.index] in values;
    } else {
      AllEnded(|values|, jobs, schedule, s);
      forall v | v in values ensures !operation(v).Rejected? {
        var i :| 0 <= i < |values| && values[i] == v;
        var k := EndedSomewhere(s.log, Call(i, false));
        assert s.log[k].settled == operation(v);
      }
    }
  }

  lemma AllEnded<R(!new)>(count: nat, jobs: nat, schedule: seq<Action<R>>, s: State<R>)
    requires jobs > 0 && Runs(Start(count, jobs), schedule, s) && s.phase.Succeeded?
    ensures !SomeRejected(s.log) && forall i: nat :: i < count ==> Ended(s.log, Call(i, false)) > 0
  {
    hide Runs;
    Succeeds(count, jobs, schedule, s);
  }

  /** Whatever the schedule, the concurrent map writes exactly what the sequential one would. */
  lemma MapsLikeSequential<T, R(!new)>(values: seq<T>, operation: T -> Settled<R>, jobs: nat,
                                       schedule: seq<Action<R>>, s: State<R>)
    requires jobs > 0 && Runs(Start(|values|, jobs), schedule, s) && s.phase.Succeeded?
    requires Computes(values, operation, s.log)
    ensures forall i :: 0 <= i < |values| ==> operation(values[i]).Finished?
    ensures Results(s.log) == map i: nat | i < |values| :: operation(values[i]).result
  {
    hide Runs, Ended;
    AllEnded(|values|, jobs, schedule, s);
    forall i: nat
      ensures i < |values| ==> operation(values[i]).Finished?
      ensures i in Results(s.log) <==> i < |values|
      ensures i in Results(s.log) ==> operation(values[i]) == Finished(Results(s.log)[i])
    {
      ResultsAt(values, operation, s.log, i);
      if i < |values| {
        var k := EndedSomewhere(s.log, Call(i, false));
        assert s.log[k].settled == operation(values[i]);
      }
    }
  }

  lemma OneMoreStep<R(!new)>(s: State<R>, run: seq<Action<R>>, k: nat, m: State<R>)
    requires k < |run| && Runs(s, run[..k], m) && Enabled(m, run[k])
    ensures Runs(s, run[..k + 1], Step(m, run[k]))
  {
    assert run[..k + 1][..k] == run[..k];
  }

  const REJECTED_RUN: seq<Action<nat>> :=
    [Proceed(0), Proceed(1), Settle(0, Rejected), Settle(1, Finished(7)), Proceed(1)]

  /** Three values and two workers: after the rejection of the first value the other worker claims the third. */
  lemma GoesOnAfterRejection()
    ensures exists s :: Runs(Start<nat>(3, 2), REJECTED_RUN, s) && s.log ==
              [Begin(Call(0, false)), Begin(Call(1, false)), End(Call(0, false), Rejected),
               End(Call(1, false), Finished(7)), Begin(Call(2, false))]
  {
    hide Runs;
    var start: State<nat> := State(3, 2, 0, [], [Idle, Idle], Pooling, []);
    assert start == Start(3, 2);
    NoStep(start, REJECTED_RUN);
    OneMoreStep(start, REJECTED_RUN, 0, start);
    var first := Step(start, Proceed(0));
    OneMoreStep(start, REJECTED_RUN, 1, first);
    var both := Step(first, Proceed(1));
    OneMoreStep(start, REJECTED_RUN, 2, both);
    var rejected := Step(both, Settle(0, Rejected));
    OneMoreStep(start, REJECTED_RUN, 3, rejected);
    var idle := Step(rejected, Settle(1, Finished(7)));
    OneMoreStep(start, REJECTED_RUN, 4, idle);
    assert REJECTED_RUN[..5] == REJECTED_RUN;
  }

  lemma NoStep<R(!new)>(s: State<R>, run: seq<Action<R>>)
    ensures Runs(s, run[..0], s)
  {
  }
}
