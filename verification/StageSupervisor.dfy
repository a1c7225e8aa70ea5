/** The dev-web stage supervisor: unexpected exits are reported, and a stop escalates until every stage is gone. */
module StageSupervisor {
  import opened Ordering
  import opened Options

  type Stage = nat

  datatype Signal = SIGINT | SIGTERM | SIGKILL | SignalNumber(n: nat)

  /** Where `stop` is: not called, in grace wait `k`, in the last wait, or resolved. */
  datatype Phase =
    | Supervising
    | Grace(escalation: seq<Option<Signal>>, k: nat)
    | LastWait(awaited: set<Stage>)
    | Resolved

  /** What happened to the stages so far, oldest first. */
  datatype Event = Added(stage: Stage) | Exited(stage: Stage) | StopRequested

  datatype State = State(
    live: set<Stage>,
    stopping: bool,
    requested: Option<Signal>,
    phase: Phase,
    received: map<Stage, seq<Signal>>,
    reports: seq<Stage>,
    waits: nat,
    late: set<Stage>,
    log: seq<Event>)

  datatype Action = Add(stage: Stage) | Exit(stage: Stage) | Stop(request: Option<Signal>) | Resume | Settle

  const INITIAL := State({}, false, None, Supervising, map[], [], 0, {}, [])

  /** The steps of one stop: the requested signal, if any, then SIGTERM unless that was it. */
  function Escalation(request: Option<Signal>): seq<Option<Signal>> {
    if request == Some(SIGTERM) then [request] else [request, Some(SIGTERM)]
  }

  /** Send `signal` to every live stage. */
  function Deliver(received: map<Stage, seq<Signal>>, live: set<Stage>,
                   signal: Option<Signal>): map<Stage, seq<Signal>> {
    map x | x in received :: if x in live && signal.Some? then received[x] + [signal.value] else received[x]
  }

  /** One turn of the escalation loop from step `k`, up to the next await. */
  function Escalate(s: State, escalation: seq<Option<Signal>>, k: nat): State {
    if k < |escalation| then
      if s.live == {} then s.(phase := Resolved)
      else
        s.(received := Deliver(s.received, s.live, escalation[k]), phase := Grace(escalation, k),
           waits := s.waits + 1)
    else
      s.(received := Deliver(s.received, s.live, Some(SIGKILL)),
         phase := LastWait(s.live))
  }

  predicate Enabled(s: State, a: Action) {
    match a
    case Add(x) => x !in s.received
    case Exit(x) => x in s.live
    case Stop(_) => s.phase.Supervising?
    case Resume => s.phase.Grace?
    case Settle => s.phase.LastWait? && s.phase.awaited !! s.live
  }

  function Step(s: State, a: Action): State
    requires Enabled(s, a)
  {
    match a
    case Add(x) =>
      s.(live := s.live + {x}, received := s.received[x := []], log := s.log + [Added(x)],
         late := if s.stopping then s.late + {x} else s.late)
    case Exit(x) =>
      s.(live := s.live - {x}, log := s.log + [Exited(x)], reports := if s.stopping then s.reports else s.reports + [x])
    case Stop(request) =>
      Escalate(s.(stopping := true, requested := request, log := s.log + [StopRequested]), Escalation(request), 0)
    case Resume => Escalate(s, s.phase.escalation, s.phase.k + 1)
    case Settle => s.(phase := Resolved)
  }

  ghost predicate Runs(schedule: seq<Action>, s: State) {
    if schedule == [] then s == INITIAL
    else
      var n := |schedule| - 1;
      exists m :: Runs(schedule[..n], m) && Enabled(m, schedule[n]) && s == Step(m, schedule[n])
  }

  // ----- the invariant -----

  /** The signals among the first `k` steps. */
  function SignalsIn(escalation: seq<Option<Signal>>, k: nat): seq<Signal>
    requires k <= |escalation|
  {
    if k == 0 then []
    else SignalsIn(escalation, k - 1) + if escalation[k - 1].Some? then [escalation[k - 1].value] else []
  }

  /** Everything a stage that never exits receives. */
  function Sequence(request: Option<Signal>): seq<Signal> {
    match request
    case None => [SIGTERM, SIGKILL]
    case Some(x) => if x == SIGTERM then [SIGTERM, SIGKILL] else [x, SIGTERM, SIGKILL]
  }

  /** That is what the escalation sends, with SIGKILL behind it. */
  lemma SequenceIsSent(request: Option<Signal>)
    ensures Sequence(request) == SignalsIn(Escalation(request), |Escalation(request)|) + [SIGKILL]
  {
    var e := Escalation(request);
    assert SignalsIn(e, 0) == [];
    assert SignalsIn(e, 1) == if request.Some? then [request.value] else [];
  }

  /** How many of the requested stop's signals have gone out. */
  ghost predicate Sent(phase: Phase, request: Option<Signal>, n: nat) {
    match phase
    case Supervising => n == 0
    case Grace(escalation, k) =>
      escalation == Escalation(request) && k < |escalation| && n == |SignalsIn(escalation, k + 1)|
    case LastWait(_) => n == |Sequence(request)|
    case Resolved => n <= |Sequence(request)|
  }

  ghost predicate ExitsEarly(log: seq<Event>, x: Stage) {
    exists k :: 0 <= k < |log| && log[k] == Exited(x) && StopRequested !in log[..k]
  }

  /** What is live, what was reported, and how the log tells it. */
  ghost predicate Books(s: State) {
    && s.live <= s.received.Keys && s.late <= s.received.Keys
    && (s.stopping <==> StopRequested in s.log) && (s.stopping <==> !s.phase.Supervising?)
    && (!s.stopping ==> s.late == {})
    && Distinct(s.reports) && (forall x :: x in s.reports <==> ExitsEarly(s.log, x))
    && (forall x :: x in s.reports ==> x in s.received && x !in s.live)
    && (forall x :: x in s.received ==> Added(x) in s.log && (x in s.live <==> Exited(x) !in s.log))
    && (forall x :: Exited(x) in s.log ==> x in s.received)
  }

  /** How far the stop has come. */
  ghost predicate Progress(s: State) {
    match s.phase
    case Supervising => s.waits == 0
    case Grace(escalation, k) =>
      s.waits == k + 1 <= |escalation| && |escalation| == (if s.requested == Some(SIGTERM) then 1 else 2)
    case LastWait(awaited) => s.waits == (if s.requested == Some(SIGTERM) then 1 else 2) && s.live - s.late <= awaited
    case Resolved => s.waits <= 2 && s.live <= s.late
  }

  ghost predicate Inv(s: State) {
    Books(s) && Progress(s) && Signalled(s)
  }

  /** Stages on time received a prefix of the sequence, and the live ones all of it so far. */
  ghost predicate Signalled(s: State) {
    exists n: nat :: Sent(s.phase, s.requested, n) && n <= |Sequence(s.requested)| && Prefixes(s, s.requested, n)
  }

  ghost predicate Prefixes(s: State, request: Option<Signal>, n: nat)
    requires n <= |Sequence(request)|
  {
    forall x :: x in s.received && x !in s.late ==>
      && s.received[x] <= Sequence(request)[..n]
      && (x in s.live ==> s.received[x] == Sequence(request)[..n])
  }

  lemma EarlyExitGrows(log: seq<Event>, e: Event, x: Stage)
    ensures ExitsEarly(log + [e], x) <==> ExitsEarly(log, x) || (e == Exited(x) && StopRequested !in log)
  {
    var more := log + [e];
    assert more[|log|] == e && more[..|log|] == log;
    if ExitsEarly(log, x) {
      var k :| 0 <= k < |log| && log[k] == Exited(x) && StopRequested !in log[..k];
      assert more[k] == log[k] && more[..k] == log[..k];
    }
    if ExitsEarly(more, x) {
      var k :| 0 <= k < |more| && more[k] == Exited(x) && StopRequested !in more[..k];
      if k < |log| {
        assert log[k] == Exited(x) && log[..k] == more[..k];
      }
    }
  }

  lemma AddKeepsBooks(s: State, x: Stage)
    requires Books(s) && Enabled(s, Add(x))
    ensures Books(Step(s, Add(x)))
  {
    hide ExitsEarly;
    var t := Step(s, Add(x));
    forall y ensures ExitsEarly(t.log, y) <==> ExitsEarly(s.log, y) {
      EarlyExitGrows(s.log, Added(x), y);
    }
  }

  lemma ExitKeepsBooks(s: State, x: Stage)
    requires Books(s) && Enabled(s, Exit(x))
    ensures Books(Step(s, Exit(x)))
  {
    hide ExitsEarly;
    var t := Step(s, Exit(x));
    forall y ensures ExitsEarly(t.log, y) <==> ExitsEarly(s.log, y) || (y == x && !s.stopping) {
      EarlyExitGrows(s.log, Exited(x), y);
    }
  }

  lemma EscalateKeepsBooks(s: State, escalation: seq<Option<Signal>>, k: nat)
    requires Books(s.(phase := Grace(escalation, 0))) && s.stopping
    ensures Books(Escalate(s, escalation, k))
  {
    hide ExitsEarly;
  }

  lemma StopKeepsBooks(s: State, request: Option<Signal>)
    requires Books(s) && Enabled(s, Stop(request))
    ensures Books(Step(s, Stop(request)))
  {
    hide ExitsEarly;
    var t := s.(stopping := true, requested := request, log := s.log + [StopRequested]);
    forall y ensures ExitsEarly(t.log, y) <==> ExitsEarly(s.log, y) {
      EarlyExitGrows(s.log, StopRequested, y);
    }
    EscalateKeepsBooks(t, Escalation(request), 0);
  }

  // ----- signals -----

  lemma {:induction false} SignalsGrow(escalation: seq<Option<Signal>>, m: nat, n: nat)
    requires m <= n <= |escalation|
    ensures SignalsIn(escalation, m) <= SignalsIn(escalation, n)
  {
    if m < n {
      SignalsGrow(escalation, m, n - 1);
    }
  }

  lemma SequenceStarts(request: Option<Signal>, k: nat)
    requires k <= |Escalation(request)|
    ensures |SignalsIn(Escalation(request), k)| < |Sequence(request)|
    ensures SignalsIn(Escalation(request), k) == Sequence(request)[..|SignalsIn(Escalation(request), k)|]
  {
    SequenceIsSent(request);
    SignalsGrow(Escalation(request), k, |Escalation(request)|);
  }

  /** Sending one more signal of the sequence moves every live stage on time to the longer prefix. */
  lemma DeliverExtends(s: State, t: State, request: Option<Signal>, n: nat, signal: Option<Signal>, m: nat)
    requires s.live <= s.received.Keys && n <= m <= |Sequence(request)| && Prefixes(s, request, n)
    requires Sequence(request)[..m] == Sequence(request)[..n] + (if signal.Some? then [signal.value] else [])
    requires t.live == s.live && t.late == s.late && t.received == Deliver(s.received, s.live, signal)
    ensures Prefixes(t, request, m)
  {
    hide Sequence;
  }

  /** The next step of the escalation brings every live stage on time to the next prefix. */
  lemma EscalateSignals(s: State, request: Option<Signal>, k: nat)
    requires request == s.requested && k <= |Escalation(request)| && s.live <= s.received.Keys
    requires |SignalsIn(Escalation(request), k)| <= |Sequence(request)|
    requires Prefixes(s, request, |SignalsIn(Escalation(request), k)|)
    ensures Signalled(Escalate(s, Escalation(request), k))
  {
    hide Prefixes, Deliver, Sequence;
    var e := Escalation(request);
    var t := Escalate(s, e, k);
    var n := |SignalsIn(e, k)|;
    SequenceStarts(request, k);
    if k < |e| && s.live == {} {
      SamePrefixes(s, t, request, n);
    } else if k < |e| {
      SequenceStarts(request, k + 1);
      var m := |SignalsIn(e, k + 1)|;
      DeliverExtends(s, t, request, n, e[k], m);
    } else {
      WholeSequence(request);
      var m := |Sequence(request)|;
      DeliverExtends(s, t, request, n, Some(SIGKILL), m);
    }
  }

  lemma SamePrefixes(s: State, t: State, request: Option<Signal>, n: nat)
    requires n <= |Sequence(request)| && Prefixes(s, request, n)
    requires t.live == s.live && t.late == s.late && t.received == s.received
    ensures Prefixes(t, request, n)
  {
    hide Sequence;
  }

  lemma WholeSequence(request: Option<Signal>)
    ensures Sequence(request)[..|Sequence(request)|]
        == SignalsIn(Escalation(request), |Escalation(request)|) + [SIGKILL]
  {
    SequenceIsSent(request);
  }

  lemma AddSignals(s: State, x: Stage)
    requires Inv(s) && Enabled(s, Add(x))
    ensures Signalled(Step(s, Add(x)))
  {
    hide Books, Progress, Sequence, SignalsIn;
    var t := Step(s, Add(x));
    var request := s.requested;
    var n: nat :| Sent(s.phase, request, n) && n <= |Sequence(request)| && Prefixes(s, request, n);
    StoppingPhase(s);
    assert Prefixes(t, request, n) by {
      assert Sequence(request)[..0] == [];
      assert !s.stopping ==> n == 0;
    }
  }

  lemma StoppingPhase(s: State)
    requires Books(s)
    ensures s.stopping <==> !s.phase.Supervising?
  {
  }

  lemma ExitSignals(s: State, x: Stage)
    requires Inv(s) && Enabled(s, Exit(x))
    ensures Signalled(Step(s, Exit(x)))
  {
    hide Books, Progress, Sequence, SignalsIn;
    var t := Step(s, Exit(x));
    var request := s.requested;
    var n: nat :| Sent(s.phase, request, n) && n <= |Sequence(request)| && Prefixes(s, request, n);
    assert Prefixes(t, request, n);
  }

  lemma StopSignals(s: State, request: Option<Signal>)
    requires Inv(s) && Enabled(s, Stop(request))
    ensures Signalled(Step(s, Stop(request)))
  {
    hide Progress, Sequence;
    var other := s.requested;
    var n: nat :| Sent(s.phase, other, n) && n <= |Sequence(other)| && Prefixes(s, other, n);
    var t := s.(stopping := true, requested := request, log := s.log + [StopRequested]);
    assert Sequence(other)[..0] == [] && Sequence(request)[..0] == [];
    assert Prefixes(t, request, 0);
    EscalateSignals(t, request, 0);
  }

  lemma ResumeSignals(s: State)
    requires Inv(s) && Enabled(s, Resume)
    ensures Signalled(Step(s, Resume))
  {
    hide Progress, Sequence;
    var request := s.requested;
    var n: nat :| Sent(s.phase, request, n) && n <= |Sequence(request)| && Prefixes(s, request, n);
    EscalateSignals(s, request, s.phase.k + 1);
  }

  lemma SettleSignals(s: State)
    requires Inv(s) && Enabled(s, Settle)
    ensures Signalled(Step(s, Settle))
  {
    hide Progress, Books, Sequence, SignalsIn;
    var t := Step(s, Settle);
    var request := s.requested;
    var n: nat :| Sent(s.phase, request, n) && n <= |Sequence(request)| && Prefixes(s, request, n);
    assert Sent(t.phase, request, n) && Prefixes(t, request, n);
  }

  lemma StepProgress(s: State, a: Action)
    requires Inv(s) && Enabled(s, a)
    ensures Progress(Step(s, a))
  {
    hide Prefixes, ExitsEarly, SignalsIn, Sequence;
  }

  lemma StepKeeps(s: State, a: Action)
    requires Inv(s) && Enabled(s, a)
    ensures Inv(Step(s, a))
  {
    hide Books, Progress, Signalled;
    StepProgress(s, a);
    match a
    case Add(x) => AddKeepsBooks(s, x); AddSignals(s, x);
    case Exit(x) => ExitKeepsBooks(s, x); ExitSignals(s, x);
    case Stop(request) => StopKeepsBooks(s, request); StopSignals(s, request);
    case Resume => ResumeBooks(s); ResumeSignals(s);
    case Settle => SettleBooks(s); SettleSignals(s);
  }

  lemma ResumeBooks(s: State)
    requires Books(s) && s.phase.Grace?
    ensures Books(Step(s, Resume))
  {
    hide ExitsEarly;
    EscalateKeepsBooks(s, s.phase.escalation, s.phase.k + 1);
  }

  lemma SettleBooks(s: State)
    requires Books(s) && Enabled(s, Settle)
    ensures Books(Step(s, Settle))
  {
    hide ExitsEarly;
  }

  lemma InitialInv()
    ensures Inv(INITIAL)
  {
    assert Sent(INITIAL.phase, None, 0) && Prefixes(INITIAL, None, 0);
  }

  /** The invariant holds after every schedule of exits, additions, grace expiries and one stop. */
  lemma {:induction false} RunsKeep(schedule: seq<Action>, s: State)
    requires Runs(schedule, s)
    ensures Inv(s)
  {
    hide Inv;
    if schedule == [] {
      InitialInv();
    } else {
      var n := |schedule| - 1;
      var m :| Runs(schedule[..n], m) && Enabled(m, schedule[n]) && s == Step(m, schedule[n]);
      RunsKeep(schedule[..n], m);
      StepKeeps(m, schedule[n]);
    }
  }

  // ----- guarantees over every run -----

  /** A stop resolves only when every stage tracked before it has exited, and with no later addition, every stage. */
  lemma ResolvesWhenGone(schedule: seq<Action>, s: State)
    requires Runs(schedule, s) && s.phase.Resolved?
    ensures s.live <= s.late
    ensures forall x :: Added(x) in s.log && x in s.received && x !in s.late ==> Exited(x) in s.log
    ensures s.late == {} ==> s.live == {}
  {
    hide Runs, ExitsEarly, Signalled;
    RunsKeep(schedule, s);
  }

  /** Each stage on time receives a prefix of the requested signal, SIGTERM, SIGKILL. */
  lemma SignalsInOrder(schedule: seq<Action>, s: State)
    requires Runs(schedule, s)
    ensures forall x :: x in s.received && x !in s.late ==> s.received[x] <= Sequence(s.requested)
    ensures s.phase.LastWait? ==>
              forall x :: x in s.live && x in s.received && x !in s.late ==> s.received[x] == Sequence(s.requested)
  {
    hide Runs, ExitsEarly, Books, Progress, Sequence;
    RunsKeep(schedule, s);
    var n: nat :| Sent(s.phase, s.requested, n) && n <= |Sequence(s.requested)| && Prefixes(s, s.requested, n);
  }

  /** In the last wait every live stage on time has received exactly this, after one wait or two. */
  lemma LastSignals(schedule: seq<Action>, s: State)
    requires Runs(schedule, s) && s.phase.LastWait?
    ensures forall x :: x in s.live && x !in s.late && s.requested in {None, Some(SIGTERM)} ==>
              x in s.received && s.received[x] == [SIGTERM, SIGKILL]
    ensures forall x :: x in s.live && x !in s.late && s.requested !in {None, Some(SIGTERM)} ==>
              x in s.received && s.received[x] == [s.requested.value, SIGTERM, SIGKILL]
    ensures s.waits == if s.requested == Some(SIGTERM) then 1 else 2
  {
    hide Runs, ExitsEarly, Signalled;
    SignalsInOrder(schedule, s);
    RunsKeep(schedule, s);
  }

  /** In every run a stage on time that received SIGKILL, save as the requested signal, received SIGTERM before it. */
  lemma TermBeforeKill(schedule: seq<Action>, s: State, x: Stage, k: nat)
    requires Runs(schedule, s) && x in s.received && x !in s.late && k < |s.received[x]|
    requires s.received[x][k] == SIGKILL && (k == 0 ==> s.requested != Some(SIGKILL))
    ensures k > 0 && s.received[x][k - 1] == SIGTERM && k == |s.received[x]| - 1
  {
    hide Runs;
    SignalsInOrder(schedule, s);
    assert s.received[x] <= Sequence(s.requested);
  }

  lemma SequenceDistinct(request: Option<Signal>)
    requires request != Some(SIGKILL)
    ensures Distinct(Sequence(request))
  {
  }

  /** No stage on time received the same signal twice. */
  ghost predicate NoneTwice(s: State) {
    forall x :: x in s.received && x !in s.late ==> Distinct(s.received[x])
  }

  lemma NoneSignalledTwice(schedule: seq<Action>, s: State)
    requires Runs(schedule, s) && s.requested != Some(SIGKILL)
    ensures NoneTwice(s)
  {
    hide Runs, Sequence;
    SignalsInOrder(schedule, s);
    SequenceDistinct(s.requested);
    forall x | x in s.received && x !in s.late ensures Distinct(s.received[x]) {
      var p := s.received[x];
      assert p <= Sequence(s.requested);
      assert forall k :: 0 <= k < |p| ==> p[k] == Sequence(s.requested)[k];
    }
  }

  /** A stop that requests SIGKILL of one stage that never exits. */
  const KILLED_TWICE: seq<Action> := [Add(0), Stop(Some(SIGKILL)), Resume, Resume]

  /** The run of that stop after its stage was added, having sent these signals. */
  function Killing(phase: Phase, sent: seq<Signal>, waits: nat): State {
    State({0}, true, Some(SIGKILL), phase, map[0 := sent], [], waits, {}, [Added(0), StopRequested])
  }

  lemma KillingSteps()
    ensures var e, added := [Some(SIGKILL), Some(SIGTERM)], Step(INITIAL, Add(0));
            && Enabled(added, Stop(Some(SIGKILL)))
            && Step(added, Stop(Some(SIGKILL))) == Killing(Grace(e, 0), [SIGKILL], 1)
            && Step(Killing(Grace(e, 0), [SIGKILL], 1), Resume) == Killing(Grace(e, 1), [SIGKILL, SIGTERM], 2)
  {
    var kill := Some(SIGKILL);
    assert Escalation(kill) == [kill, Some(SIGTERM)];
    assert [] + [SIGKILL] == [SIGKILL] && [SIGKILL] + [SIGTERM] == [SIGKILL, SIGTERM];
    assert [] + [Added(0)] == [Added(0)] && [Added(0)] + [StopRequested] == [Added(0), StopRequested];
    assert {} + {0} == {0};
    assert Deliver(map[0 := []], {0}, kill) == map[0 := [SIGKILL]];
    assert Deliver(map[0 := [SIGKILL]], {0}, Some(SIGTERM)) == map[0 := [SIGKILL, SIGTERM]];
  }

  lemma LastKill(s: State)
    requires s == Killing(Grace([Some(SIGKILL), Some(SIGTERM)], 1), [SIGKILL, SIGTERM], 2)
    ensures Enabled(s, Resume) && Step(s, Resume).requested == Some(SIGKILL) && Step(s, Resume).late == {}
    ensures Step(s, Resume).received == map[0 := [SIGKILL, SIGTERM, SIGKILL]]
  {
    assert [SIGKILL, SIGTERM] + [SIGKILL] == [SIGKILL, SIGTERM, SIGKILL];
  }

  /** That stage receives SIGKILL at the start and again at the end. */
  lemma SignalledTwice() returns (s: State)
    ensures Runs(KILLED_TWICE, s) && s.requested == Some(SIGKILL)
    ensures 0 in s.received && 0 !in s.late && s.received[0] == [SIGKILL, SIGTERM, SIGKILL]
  {
    hide Step, Enabled, Runs;
    var e := [Some(SIGKILL), Some(SIGTERM)];
    assert [] + [Add(0)] == [Add(0)];
    assert [Add(0)] + [Stop(Some(SIGKILL))] == [Add(0), Stop(Some(SIGKILL))];
    assert [Add(0), Stop(Some(SIGKILL))] + [Resume] == [Add(0), Stop(Some(SIGKILL)), Resume];
    assert [Add(0), Stop(Some(SIGKILL)), Resume] + [Resume] == KILLED_TWICE;
    StartsEmpty();
    KillingSteps();
    OneMore([], INITIAL, Add(0));
    OneMore([Add(0)], Step(INITIAL, Add(0)), Stop(Some(SIGKILL)));
    GraceResumes(Killing(Grace(e, 0), [SIGKILL], 1));
    OneMore([Add(0), Stop(Some(SIGKILL))], Killing(Grace(e, 0), [SIGKILL], 1), Resume);
    var last := Killing(Grace(e, 1), [SIGKILL, SIGTERM], 2);
    LastKill(last);
    OneMore([Add(0), Stop(Some(SIGKILL)), Resume], last, Resume);
    s := Step(last, Resume);
  }

  lemma StartsEmpty()
    ensures Runs([], INITIAL) && Enabled(INITIAL, Add(0))
  {
  }

  lemma GraceResumes(s: State)
    requires s.phase.Grace?
    ensures Enabled(s, Resume)
  {
  }

  lemma OneMore(schedule: seq<Action>, s: State, a: Action)
    requires Runs(schedule, s) && Enabled(s, a)
    ensures Runs(schedule + [a], Step(s, a))
  {
    hide Step, Enabled;
    assert (schedule + [a])[..|schedule|] == schedule;
  }

  /** In every run with this request no stage on time receives a signal twice, if and only if it is not SIGKILL. */
  lemma DuplicateFreeExactly(request: Option<Signal>)
    ensures (forall schedule, s :: Runs(schedule, s) && s.requested == request ==> NoneTwice(s))
            <==> request != Some(SIGKILL)
  {
    hide Runs, NoneTwice;
    if request == Some(SIGKILL) {
      var s := SignalledTwice();
      TwiceIsTwice(s);
      assert Runs(KILLED_TWICE, s) && s.requested == request && !NoneTwice(s);
    } else {
      forall schedule, s | Runs(schedule, s) && s.requested == request ensures NoneTwice(s) {
        NoneSignalledTwice(schedule, s);
      }
    }
  }

  lemma TwiceIsTwice(s: State)
    requires 0 in s.received && 0 !in s.late && s.received[0] == [SIGKILL, SIGTERM, SIGKILL]
    ensures !NoneTwice(s)
  {
    assert s.received[0][0] == s.received[0][2];
  }

  /** At most two grace waits come before SIGKILL, one for each step of the escalation. */
  lemma FewWaits(schedule: seq<Action>, s: State)
    requires Runs(schedule, s)
    ensures s.waits <= 2
  {
    hide Runs, Books, Signalled;
    RunsKeep(schedule, s);
  }

  /** A stage is reported stale exactly once if it exited before the stop request, and never otherwise. */
  lemma StaleExactly(schedule: seq<Action>, s: State, x: Stage)
    requires Runs(schedule, s)
    ensures multiset(s.reports)[x] == if ExitsEarly(s.log, x) then 1 else 0
  {
    hide Runs, Progress, Signalled, ExitsEarly;
    RunsKeep(schedule, s);
    AppearsOnce(s.reports, x);
    assert x in s.reports <==> multiset(s.reports)[x] > 0;
  }

  /** The stop's own next step, when it has one. */
  function Advance(s: State): State {
    if Enabled(s, Resume) then Step(s, Resume) else if Enabled(s, Settle) then Step(s, Settle) else s
  }

  /** Once every stage has exited, a stop under way resolves within two steps of its own. */
  lemma ResolvesSoon(s: State)
    requires Inv(s) && s.stopping && s.live == {}
    ensures Advance(Advance(s)).phase.Resolved?
  {
    hide Signalled, ExitsEarly;
  }

  lemma ResumeEscalates(s: State)
    requires s.phase.Grace?
    ensures Enabled(s, Resume) && Step(s, Resume) == Escalate(s, s.phase.escalation, s.phase.k + 1)
  {
    hide Escalate;
  }

  // ----- the supervisor object -----

  /** `StageSupervisor`: its live set and stopping flag, with the history the guarantees speak of. */
  class Supervisor {
    var live: set<Stage>
    var stopping: bool
    ghost var requested: Option<Signal>
    ghost var phase: Phase
    ghost var received: map<Stage, seq<Signal>>
    ghost var reports: seq<Stage>
    ghost var waits: nat
    ghost var late: set<Stage>
    ghost var log: seq<Event>

    ghost function S(): State
      reads this
    {
      State(live, stopping, requested, phase, received, reports, waits, late, log)
    }

    constructor ()
      ensures S() == INITIAL && Inv(S())
    {
      live, stopping, requested, phase := {}, false, None, Supervising;
      received, reports, waits, late, log := map[], [], 0, {}, [];
      new;
      InitialInv();
    }

    /** Track one started stage. */
    method Add(stage: Stage)
      requires Inv(S()) && Enabled(S(), Action.Add(stage))
      modifies this
      ensures S() == Step(old(S()), Action.Add(stage)) && Inv(S())
    {
      hide Inv;
      StepKeeps(S(), Action.Add(stage));
      live := live + {stage};
      received := received[stage := []];
      late := if stopping then late + {stage} else late;
      log := log + [Added(stage)];
    }

    /** The continuation of `stage.exited`: the returned flag says whether `onStale` is called. */
    method OnExit(stage: Stage) returns (stale: bool)
      requires Inv(S()) && Enabled(S(), Exit(stage))
      modifies this
      ensures S() == Step(old(S()), Exit(stage)) && Inv(S())
      ensures stale <==> !old(stopping)
    {
      hide Inv;
      StepKeeps(S(), Exit(stage));
      live := live - {stage};
      stale := !stopping;
      if stale {
        reports := reports + [stage];
      }
      log := log + [Exited(stage)];
    }

    /** `stop` up to its first await. */
    method Stop(request: Option<Signal>) returns (resolved: bool)
      requires Inv(S()) && Enabled(S(), Action.Stop(request))
      modifies this
      ensures S() == Step(old(S()), Action.Stop(request)) && Inv(S())
      ensures resolved <==> phase.Resolved?
    {
      hide Inv;
      StepKeeps(S(), Action.Stop(request));
      stopping := true;
      requested := request;
      log := log + [StopRequested];
      resolved := NextSignal(Escalation(request), 0);
    }

    /** `stop` from the end of grace wait `k` up to its next await. */
    method AfterGrace(escalation: seq<Option<Signal>>, k: nat) returns (resolved: bool)
      requires Inv(S()) && phase == Grace(escalation, k)
      modifies this
      ensures S() == Step(old(S()), Resume) && Inv(S())
      ensures resolved <==> phase.Resolved?
    {
      hide Inv, Escalate, Step;
      StepKeeps(S(), Resume);
      ResumeEscalates(S());
      resolved := NextSignal(escalation, k + 1);
    }

    /** The loop body at step `k`: return when nobody is left, otherwise signal and wait; after the loop, SIGKILL. */
    method NextSignal(escalation: seq<Option<Signal>>, k: nat) returns (resolved: bool)
      modifies this
      ensures S() == Escalate(old(S()), escalation, k)
      ensures resolved <==> phase.Resolved?
    {
      if k < |escalation| {
        if live == {} {
          phase := Resolved;
          return true;
        }
        received := Deliver(received, live, escalation[k]);
        phase := Grace(escalation, k);
        waits := waits + 1;
        return false;
      }
      received := Deliver(received, live, Some(SIGKILL));
      phase := LastWait(live);
      return false;
    }
  }
}
