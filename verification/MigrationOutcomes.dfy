/** The outcome accounting of the session migration, on top of its job pool. */
module MigrationOutcomes {
  import opened JobPool
  import opened Options

  datatype SourceVersion = Unknown | Version(number: nat)

  datatype Outcome = Converted | AlreadyV4 | Failure | Skipped

  /** What the failure classifier makes of an error. */
  datatype Diagnostic = Diagnostic(reason: string, errorName: string, eventType: Option<string>, member: Option<string>,
                                   child: bool)

  /** One failed input with the diagnostic facts the report groups by. */
  datatype FailedInput = FailedInput(inputPath: string, version: SourceVersion, diagnostic: Diagnostic)

  /** One recorded outcome; a failure comes with its diagnostic. */
  datatype Entry = Entry(version: SourceVersion, outcome: Outcome, failure: Option<FailedInput>)

  predicate WellKept(e: Entry) {
    && (e.failure.Some? <==> e.outcome == Failure)
    && (e.failure.Some? ==> e.failure.value.version == e.version)
  }

  /** A discovered input: its path, a directory error, and the newest generation if there is one. */
  datatype Candidate = Candidate(path: string, error: Option<Diagnostic>, source: Option<nat>)

  /** What opening the session did: it worked, its source changed meanwhile, or it failed otherwise. */
  datatype Opening = Opened | SourceChanged(changed: Diagnostic) | OpenFailed(failed: Diagnostic)

  const TARGET_VERSION := 4

  function VersionOf(c: Candidate): SourceVersion {
    if c.source.Some? then Version(c.source.value) else Unknown
  }

  function Success(version: SourceVersion, outcome: Outcome): Settled<Entry> {
    Finished(Entry(version, outcome, None))
  }

  function Failing(c: Candidate, d: Diagnostic): Settled<Entry> {
    Finished(Entry(VersionOf(c), Failure, Some(FailedInput(c.path, VersionOf(c), d))))
  }

  /**
   * The visit callback. It rejects an index that names no input; otherwise it defers a changed source on the
   * first attempt and records an outcome in every other case.
   */
  function Visit(candidates: seq<Candidate>, call: Call, o: Opening): Settled<Entry> {
    if call.index >= |candidates| then Rejected
    else
      var c := candidates[call.index];
      if c.error.Some? then Failing(c, c.error.value)
      else if c.source.None? then Success(Unknown, Skipped)
      else
        match o
        case Opened => Success(VersionOf(c), if c.source.value == TARGET_VERSION then AlreadyV4 else Converted)
        case SourceChanged(d) => if call.retry then Failing(c, d) else Deferred
        case OpenFailed(d) => Failing(c, d)
  }

  /** Every visit that ended in the log did what the callback does. */
  ghost predicate Faithful(candidates: seq<Candidate>, log: seq<Event<Entry>>) {
    forall k :: 0 <= k < |log| && log[k].End? ==> EndsAsVisited(candidates, log[k])
  }

  ghost predicate EndsAsVisited(candidates: seq<Candidate>, e: Event<Entry>)
    requires e.End?
  {
    exists o :: e.settled == Visit(candidates, e.call, o)
  }

  // ----- the ledger -----

  datatype Counts = Counts(converted: nat, alreadyV4: nat, failed: nat, skipped: nat)
  {
    function Sum(): nat { converted + alreadyV4 + failed + skipped }

    function Of(o: Outcome): nat {
      match o
      case Converted => converted
      case AlreadyV4 => alreadyV4
      case Failure => failed
      case Skipped => skipped
    }

    function Add(o: Outcome): Counts {
      match o
      case Converted => this.(converted := converted + 1)
      case AlreadyV4 => this.(alreadyV4 := alreadyV4 + 1)
      case Failure => this.(failed := failed + 1)
      case Skipped => this.(skipped := skipped + 1)
    }
  }

  const EMPTY_COUNTS := Counts(0, 0, 0, 0)

  /** How many of the entries carry this version and outcome. */
  function Tally(entries: seq<Entry>, v: SourceVersion, o: Outcome): nat {
    if entries == [] then 0
    else
      var last := entries[|entries| - 1];
      Tally(entries[..|entries| - 1], v, o) + if last.version == v && last.outcome == o then 1 else 0
  }

  function TallyAll(entries: seq<Entry>, o: Outcome): nat {
    if entries == [] then 0
    else TallyAll(entries[..|entries| - 1], o) + if entries[|entries| - 1].outcome == o then 1 else 0
  }

  /** The diagnostics of the failures among the entries, in order. */
  function FailuresOf(entries: seq<Entry>): seq<FailedInput> {
    if entries == [] then []
    else
      var last := entries[|entries| - 1];
      FailuresOf(entries[..|entries| - 1]) + if last.failure.Some? then [last.failure.value] else []
  }

  function CountsOf(bySourceVersion: map<SourceVersion, Counts>, v: SourceVersion): Counts {
    if v in bySourceVersion then bySourceVersion[v] else EMPTY_COUNTS
  }

  /** The counters are exactly the tallies of the entries, and the failure list is theirs. */
  ghost predicate Tallied(totals: Counts, bySourceVersion: map<SourceVersion, Counts>, failures: seq<FailedInput>,
                          entries: seq<Entry>) {
    && (forall o :: totals.Of(o) == TallyAll(entries, o))
    && (forall v, o :: CountsOf(bySourceVersion, v).Of(o) == Tally(entries, v, o))
    && failures == FailuresOf(entries)
  }

  lemma TalliedNext(totals: Counts, bySourceVersion: map<SourceVersion, Counts>, failures: seq<FailedInput>,
                    entries: seq<Entry>, e: Entry)
    requires Tallied(totals, bySourceVersion, failures, entries)
    ensures Tallied(totals.Add(e.outcome),
                    bySourceVersion[e.version := CountsOf(bySourceVersion, e.version).Add(e.outcome)],
                    failures + if e.failure.Some? then [e.failure.value] else [], entries + [e])
  {
    var more := entries + [e];
    assert more[..|entries|] == entries;
    forall o ensures totals.Add(e.outcome).Of(o) == TallyAll(more, o) {
      assert totals.Of(o) == TallyAll(entries, o);
    }
    forall v, o
      ensures CountsOf(bySourceVersion[e.version := CountsOf(bySourceVersion, e.version).Add(e.outcome)], v).Of(o)
           == Tally(more, v, o)
    {
      assert CountsOf(bySourceVersion, v).Of(o) == Tally(entries, v, o);
    }
  }

  /** `totals`, `bySourceVersion` and `failures`, updated in place by each outcome. */
  class Ledger {
    var totals: Counts
    var bySourceVersion: map<SourceVersion, Counts>
    var failures: seq<FailedInput>
    ghost var entries: seq<Entry>

    ghost predicate Valid()
      reads this
    {
      Tallied(totals, bySourceVersion, failures, entries)
    }

    constructor ()
      ensures Valid() && entries == []
    {
      totals, bySourceVersion, failures, entries := EMPTY_COUNTS, map[], [], [];
    }

    method RecordOutcome(version: SourceVersion, outcome: Outcome)
      modifies `totals, `bySourceVersion
      ensures totals == old(totals).Add(outcome)
      ensures bySourceVersion
           == old(bySourceVersion)[version := CountsOf(old(bySourceVersion), version).Add(outcome)]
    {
      totals := totals.Add(outcome);
      var counts := if version in bySourceVersion then bySourceVersion[version] else EMPTY_COUNTS;
      bySourceVersion := bySourceVersion[version := counts.Add(outcome)];
    }

    /** Push the failure and record its outcome. */
    method Fail(failed: FailedInput)
      requires Valid()
      modifies this
      ensures Valid() && entries == old(entries) + [Entry(failed.version, Failure, Some(failed))]
    {
      hide Tallied;
      ghost var e := Entry(failed.version, Failure, Some(failed));
      TalliedNext(totals, bySourceVersion, failures, entries, e);
      failures := failures + [failed];
      RecordOutcome(failed.version, Failure);
      entries := entries + [e];
    }

    /** How a visit that ends for good leaves the ledger. */
    method Settle(e: Entry)
      requires Valid() && WellKept(e)
      modifies this
      ensures Valid() && entries == old(entries) + [e]
    {
      hide Tallied;
      if e.failure.Some? {
        Fail(e.failure.value);
      } else {
        TalliedNext(totals, bySourceVersion, failures, entries, e);
        assert failures + [] == failures;
        RecordOutcome(e.version, e.outcome);
        entries := entries + [e];
      }
    }
  }

  /** Every entry is counted in exactly one of the four totals. */
  lemma {:induction false} TotalsCountEntries(entries: seq<Entry>)
    ensures TallyAll(entries, Converted) + TallyAll(entries, AlreadyV4) + TallyAll(entries, Failure)
        + TallyAll(entries, Skipped)
            == |entries|
  {
    if entries != [] {
      TotalsCountEntries(entries[..|entries| - 1]);
    }
  }

  /** The tallies of the listed versions together. */
  function TallyOver(entries: seq<Entry>, versions: seq<SourceVersion>, o: Outcome): nat {
    if versions == [] then 0
    else TallyOver(entries, versions[..|versions| - 1], o) + Tally(entries, versions[|versions| - 1], o)
  }

  lemma {:induction false} TallyOverAppend(entries: seq<Entry>, e: Entry, versions: seq<SourceVersion>, o: Outcome)
    requires forall i, j :: 0 <= i < j < |versions| ==> versions[i] != versions[j]
    ensures TallyOver(entries + [e], versions, o)
            == TallyOver(entries, versions, o) + if e.version in versions && e.outcome == o then 1 else 0
  {
    assert (entries + [e])[..|entries|] == entries;
    if versions != [] {
      var n := |versions| - 1;
      TallyOverAppend(entries, e, versions[..n], o);
      assert versions == versions[..n] + [versions[n]];
      assert versions[n] !in versions[..n];
    }
  }

  lemma {:induction false} TallyOverNothing(versions: seq<SourceVersion>, o: Outcome)
    ensures TallyOver([], versions, o) == 0
  {
    if versions != [] {
      TallyOverNothing(versions[..|versions| - 1], o);
    }
  }

  /** The per-version counts add up to the totals, over any listing of the versions that occur. */
  lemma {:induction false} VersionsAddUp(entries: seq<Entry>, versions: seq<SourceVersion>, o: Outcome)
    requires forall i, j :: 0 <= i < j < |versions| ==> versions[i] != versions[j]
    requires forall e :: e in entries ==> e.version in versions
    ensures TallyOver(entries, versions, o) == TallyAll(entries, o)
  {
    if entries == [] {
      TallyOverNothing(versions, o);
    } else {
      var n := |entries| - 1;
      assert entries == entries[..n] + [entries[n]];
      VersionsAddUp(entries[..n], versions, o);
      TallyOverAppend(entries[..n], entries[n], versions, o);
    }
  }

  // ----- conservation -----

  /** The outcomes recorded during a run, in order. */
  function Recorded(log: seq<Event<Entry>>): seq<Entry> {
    if log == [] then []
    else
      var e := log[|log| - 1];
      Recorded(log[..|log| - 1]) + if e.End? && e.settled.Finished? then [e.settled.result] else []
  }

  /** How many outcomes were recorded for input `i`. */
  function RecordedFor(log: seq<Event<Entry>>, i: nat): nat {
    if log == [] then 0
    else
      var e := log[|log| - 1];
      RecordedFor(log[..|log| - 1], i) + if e.End? && e.settled.Finished? && e.call.index == i then 1 else 0
  }

  function DeferredFor(log: seq<Event<Entry>>, i: nat): nat {
    if log == [] then 0
    else
      var e := log[|log| - 1];
      DeferredFor(log[..|log| - 1], i) + if e.End? && e.settled.Deferred? && e.call.index == i then 1 else 0
  }

  function RecordedBelow(log: seq<Event<Entry>>, n: nat): nat {
    if n == 0 then 0 else RecordedBelow(log, n - 1) + RecordedFor(log, n - 1)
  }

  lemma {:induction false} RecordedBelowNothing(n: nat)
    ensures RecordedBelow([], n) == 0
  {
    if n != 0 {
      RecordedBelowNothing(n - 1);
    }
  }

  lemma {:induction false} RecordedBelowStep(log: seq<Event<Entry>>, e: Event<Entry>, n: nat)
    ensures RecordedBelow(log + [e], n)
            == RecordedBelow(log, n) + if e.End? && e.settled.Finished? && e.call.index < n then 1 else 0
  {
    assert (log + [e])[..|log|] == log;
    if n != 0 {
      RecordedBelowStep(log, e, n - 1);
    }
  }

  lemma {:induction false} RecordedIsSum(log: seq<Event<Entry>>, n: nat)
    requires forall k :: 0 <= k < |log| && log[k].End? ==> log[k].call.index < n
    ensures |Recorded(log)| == RecordedBelow(log, n)
  {
    if log == [] {
      RecordedBelowNothing(n);
    } else {
      var m := |log| - 1;
      assert log == log[..m] + [log[m]];
      RecordedIsSum(log[..m], n);
      RecordedBelowStep(log[..m], log[m], n);
    }
  }

  /** Every ended visit either recorded its outcome or was deferred. */
  lemma {:induction false} EndedSplits(log: seq<Event<Entry>>, i: nat)
    requires forall k :: 0 <= k < |log| && log[k].End? ==> !log[k].settled.Rejected?
    ensures Ended(log, Call(i, false)) + Ended(log, Call(i, true)) == RecordedFor(log, i) + DeferredFor(log, i)
  {
    if log != [] {
      var m := |log| - 1;
      assert forall k :: 0 <= k < m ==> log[..m][k] == log[k];
      EndedSplits(log[..m], i);
      assert log[m].call.retry || log[m].call == Call(log[m].call.index, false);
      assert !log[m].call.retry || log[m].call == Call(log[m].call.index, true);
    }
  }

  /** Only first attempts defer, so an input is deferred as often as its first attempts say. */
  lemma {:induction false} DeferralsOnce(log: seq<Event<Entry>>, i: nat)
    requires forall k :: 0 <= k < |log| && log[k].End? && log[k].settled.Deferred? ==> !log[k].call.retry
    requires Ended(log, Call(i, false)) <= 1
    ensures DeferredFor(log, i) == if DeferredIn(log, i) then 1 else 0
    ensures DeferredFor(log, i) <= Ended(log, Call(i, false))
  {
    if log != [] {
      var m := |log| - 1;
      var e := log[m];
      assert log == log[..m] + [e];
      assert forall k :: 0 <= k < m ==> log[..m][k] == log[k];
      DeferralsOnce(log[..m], i);
      LogGrows(log[..m], e, i);
      assert e.End? && e.settled.Deferred? && e.call.index == i <==> e == End(Call(i, false), Deferred);
    }
  }

  /** The pool calls the callback with the indices of inputs only. */
  lemma CallsNameInputs(count: nat, jobs: nat, schedule: seq<Action<Entry>>, s: State<Entry>)
    requires jobs > 0 && Runs(Start(count, jobs), schedule, s)
    ensures forall k :: 0 <= k < |s.log| && s.log[k].End? ==> s.log[k].call.index < count
  {
    hide Runs, Inv;
    RunsKeep(count, jobs, schedule, s);
    IndicesBelow(s);
  }

  lemma FaithfulFacts(candidates: seq<Candidate>, log: seq<Event<Entry>>)
    requires Faithful(candidates, log)
    requires forall k :: 0 <= k < |log| && log[k].End? ==> log[k].call.index < |candidates|
    ensures forall k :: 0 <= k < |log| && log[k].End? ==>
              && !log[k].settled.Rejected? && (log[k].settled.Deferred? ==> !log[k].call.retry)
              && (log[k].settled.Finished? ==> WellKept(log[k].settled.result))
  {
  }

  /** Whatever the schedule, a completed migration recorded exactly one outcome for every input, deferred or not. */
  lemma OutcomesConserved(candidates: seq<Candidate>, jobs: nat, schedule: seq<Action<Entry>>, s: State<Entry>)
    requires jobs > 0 && Runs(Start(|candidates|, jobs), schedule, s) && s.phase.Succeeded?
    requires Faithful(candidates, s.log)
    ensures forall i: nat :: i < |candidates| ==> RecordedFor(s.log, i) == 1
    ensures |Recorded(s.log)| == |candidates|
  {
    hide Runs;
    Succeeds(|candidates|, jobs, schedule, s);
    CallsNameInputs(|candidates|, jobs, schedule, s);
    FaithfulFacts(candidates, s.log);
    forall i: nat | i < |candidates| ensures RecordedFor(s.log, i) == 1 {
      EndedSplits(s.log, i);
      DeferralsOnce(s.log, i);
    }
    RecordedIsSum(s.log, |candidates|);
    OneEach(s.log, |candidates|);
  }

  lemma {:induction false} OneEach(log: seq<Event<Entry>>, n: nat)
    requires forall i: nat :: i < n ==> RecordedFor(log, i) == 1
    ensures RecordedBelow(log, n) == n
  {
    if n != 0 {
      OneEach(log, n - 1);
    }
  }

  /** The callback never rejects an index the pool hands it, so no schedule aborts the pool. */
  lemma NeverAborts(candidates: seq<Candidate>, jobs: nat, schedule: seq<Action<Entry>>, s: State<Entry>)
    requires jobs > 0 && Runs(Start(|candidates|, jobs), schedule, s) && Faithful(candidates, s.log)
    ensures !s.phase.PoolAborted? && !s.phase.RetryAborted?
  {
    hide Runs;
    RunsKeep(|candidates|, jobs, schedule, s);
    CallsNameInputs(|candidates|, jobs, schedule, s);
    FaithfulFacts(candidates, s.log);
    if s.phase.PoolAborted? {
      RejectionSkipsRetries(|candidates|, jobs, schedule, s);
    }
  }

  // ----- which outcome an input gets -----

  /** The callback ran with these openings, one for each event of the log. */
  ghost predicate VisitedAs(candidates: seq<Candidate>, log: seq<Event<Entry>>, openings: seq<Opening>) {
    && |openings| == |log|
    && forall k :: 0 <= k < |log| && log[k].End? ==> log[k].settled == Visit(candidates, log[k].call, openings[k])
  }

  /** The outcome an input has earned when its last visit opened the session like this. */
  ghost predicate Earns(c: Candidate, o: Opening, outcome: Outcome) {
    match outcome
    case Failure => c.error.Some? || (c.source.Some? && !o.Opened?)
    case Skipped => c.error.None? && c.source.None?
    case AlreadyV4 => c.error.None? && c.source == Some(4) && o.Opened?
    case Converted => c.error.None? && c.source.Some? && c.source.value != 4 && o.Opened?
  }

  /** The entry tells that outcome, the generation, and of a failure the path and what went wrong. */
  ghost predicate Tells(c: Candidate, o: Opening, e: Entry) {
    && Earns(c, o, e.outcome)
    && (c.source.None? ==> e.version == Unknown) && (c.source.Some? ==> e.version == Version(c.source.value))
    && (e.outcome != Failure ==> e.failure == None)
    && (e.outcome == Failure ==>
          && e.failure.Some? && e.failure.value.inputPath == c.path && e.failure.value.version == e.version
          && (c.error.Some? ==> e.failure.value.diagnostic == c.error.value)
          && (c.error.None? && o.SourceChanged? ==> e.failure.value.diagnostic == o.changed)
          && (c.error.None? && o.OpenFailed? ==> e.failure.value.diagnostic == o.failed))
  }

  /** The last visit to input `i` that ended did so at `k`. */
  ghost predicate LastVisit(log: seq<Event<Entry>>, i: nat, k: nat) {
    && k < |log| && log[k].End? && log[k].call.index == i
    && forall j :: k < j < |log| && log[j].End? ==> log[j].call.index != i
  }

  lemma VisitTells(candidates: seq<Candidate>, call: Call, o: Opening)
    requires call.index < |candidates|
    ensures var c, r := candidates[call.index], Visit(candidates, call, o);
            && (r.Finished? ==> Tells(c, o, r.result))
            && (r.Deferred? <==> !call.retry && c.error.None? && c.source.Some? && o.SourceChanged?)
  {
  }

  lemma VisitsAreFaithful(candidates: seq<Candidate>, log: seq<Event<Entry>>, openings: seq<Opening>)
    requires VisitedAs(candidates, log, openings)
    ensures Faithful(candidates, log)
  {
    hide Visit;
    forall k | 0 <= k < |log| && log[k].End? ensures EndsAsVisited(candidates, log[k]) {
      assert log[k].settled == Visit(candidates, log[k].call, openings[k]);
    }
  }

  lemma {:induction false} RecordedSomewhere(log: seq<Event<Entry>>, i: nat) returns (k: nat)
    requires RecordedFor(log, i) > 0
    ensures k < |log| && log[k].End? && log[k].settled.Finished? && log[k].call.index == i
  {
    var n := |log| - 1;
    if log[n].End? && log[n].settled.Finished? && log[n].call.index == i {
      k := n;
    } else {
      k := RecordedSomewhere(log[..n], i);
    }
  }

  lemma {:induction false} RecordedHere(log: seq<Event<Entry>>, i: nat, k: nat)
    requires k < |log| && log[k].End? && log[k].settled.Finished? && log[k].call.index == i
    ensures RecordedFor(log, i) > RecordedFor(log[..k], i)
  {
    var n := |log| - 1;
    if k < n {
      assert log[..n][..k] == log[..k];
      RecordedHere(log[..n], i, k);
    }
  }

  lemma RecordedTwice(log: seq<Event<Entry>>, i: nat, k: nat, j: nat)
    requires k < j < |log|
    requires log[k].End? && log[k].settled.Finished? && log[k].call.index == i
    requires log[j].End? && log[j].settled.Finished? && log[j].call.index == i
    ensures RecordedFor(log, i) >= 2
  {
    RecordedHere(log, i, j);
    RecordedHere(log[..j], i, k);
  }

  lemma {:induction false} EndedHere(log: seq<Event<Entry>>, k: nat)
    requires k < |log| && log[k].End?
    ensures Ended(log, log[k].call) > Ended(log[..k], log[k].call)
  {
    var n := |log| - 1;
    if k < n {
      assert log[..n][..k] == log[..k];
      EndedHere(log[..n], k);
    }
  }

  lemma EndedTwice(log: seq<Event<Entry>>, k: nat, j: nat)
    requires k < j < |log| && log[k].End? && log[j].End? && log[k].call == log[j].call
    ensures Ended(log, log[k].call) >= 2
  {
    EndedHere(log, j);
    EndedHere(log[..j], k);
  }

  /** No first attempt at an input ends after its retry. */
  lemma RetryIsLast(s: State<Entry>, order: seq<nat>, cut: nat, k: nat, j: nat)
    requires Complete(s, order) && Staged(s, order, cut) && k < |s.log| && j < |s.log|
    requires s.log[k].End? && s.log[j].End? && s.log[k].call.index == s.log[j].call.index < s.count
    requires s.log[k].call.retry && !s.log[j].call.retry
    ensures j < k
  {
    hide Complete, Staged, Ended;
    var i := s.log[k].call.index;
    CutInside(s, order, cut);
    AttemptsApart(s, order, cut, i);
    assert s.log[k].call == Call(i, true) && s.log[j].call == Call(i, false);
    if k < cut {
      EndedCounts(s.log[..cut], k);
    }
    if cut <= j {
      assert s.log[cut..][j - cut] == s.log[j];
      EndedCounts(s.log[cut..], j - cut);
    }
  }

  lemma CutInside(s: State<Entry>, order: seq<nat>, cut: nat)
    requires Staged(s, order, cut)
    ensures cut <= |s.log|
  {
    hide Serial, Begun, Ended;
  }

  /** The one outcome recorded for an input is the one its last visit earned. */
  lemma OutcomeEarned(candidates: seq<Candidate>, jobs: nat, schedule: seq<Action<Entry>>, s: State<Entry>,
                      openings: seq<Opening>, i: nat)
    returns (k: nat)
    requires jobs > 0 && Runs(Start(|candidates|, jobs), schedule, s) && s.phase.Succeeded?
    requires VisitedAs(candidates, s.log, openings) && i < |candidates|
    ensures RecordedFor(s.log, i) == 1 && LastVisit(s.log, i, k) && s.log[k].settled.Finished?
    ensures Tells(candidates[i], openings[k], s.log[k].settled.result)
  {
    hide Runs, Visit, Tells, Complete, Staged, Faithful, RecordedFor, Ended;
    VisitsAreFaithful(candidates, s.log, openings);
    OutcomesConserved(candidates, jobs, schedule, s);
    CallsNameInputs(|candidates|, jobs, schedule, s);
    FaithfulFacts(candidates, s.log);
    Succeeds(|candidates|, jobs, schedule, s);
    k := RecordedSomewhere(s.log, i);
    VisitTells(candidates, s.log[k].call, openings[k]);
    forall j | k < j < |s.log| && s.log[j].End? ensures s.log[j].call.index != i {
      NothingAfter(s, s.phase.order, i, k, j);
    }
  }

  lemma NothingAfter(s: State<Entry>, order: seq<nat>, i: nat, k: nat, j: nat)
    requires Complete(s, order) && i < s.count && RecordedFor(s.log, i) == 1
    requires exists cut :: Staged(s, order, cut)
    requires k < j < |s.log| && s.log[k].End? && s.log[j].End? && s.log[k].call.index == i
    requires s.log[k].settled.Finished? && !s.log[j].settled.Rejected?
    requires s.log[j].settled.Deferred? ==> !s.log[j].call.retry
    ensures s.log[j].call.index != i
  {
    hide Staged, RecordedFor, Ended, Begun;
    var cut :| Staged(s, order, cut);
    FirstAttemptOnce(s, order, i);
    if s.log[j].call.index == i {
      if s.log[j].settled.Finished? {
        RecordedTwice(s.log, i, k, j);
      } else if s.log[k].call.retry {
        RetryIsLast(s, order, cut, k, j);
      } else {
        assert s.log[k].call == Call(i, false) == s.log[j].call;
        EndedTwice(s.log, k, j);
      }
    }
  }

  lemma FirstAttemptOnce(s: State<Entry>, order: seq<nat>, i: nat)
    requires Complete(s, order) && i < s.count
    ensures Ended(s.log, Call(i, false)) == 1
  {
    hide Ended, Begun;
  }

  /** An input is visited again exactly when its first visit found its source changed. */
  lemma RetriedExactly(candidates: seq<Candidate>, jobs: nat, schedule: seq<Action<Entry>>, s: State<Entry>,
                       openings: seq<Opening>, k: nat)
    requires jobs > 0 && Runs(Start(|candidates|, jobs), schedule, s) && s.phase.Succeeded?
    requires VisitedAs(candidates, s.log, openings) && k < |s.log| && s.log[k].End? && !s.log[k].call.retry
    ensures s.log[k].call.index < |candidates|
    ensures var c := candidates[s.log[k].call.index];
            Ended(s.log, Call(s.log[k].call.index, true)) > 0
            <==> c.error.None? && c.source.Some? && openings[k].SourceChanged?
  {
    hide Runs, Visit, Ended, Begun, Staged;
    CallsNameInputs(|candidates|, jobs, schedule, s);
    Succeeds(|candidates|, jobs, schedule, s);
    var i := s.log[k].call.index;
    assert s.log[k].call == Call(i, false);
    VisitTells(candidates, s.log[k].call, openings[k]);
    FirstAttemptOnce(s, s.phase.order, i);
    if DeferredIn(s.log, i) {
      var j :| 0 <= j < |s.log| && s.log[j] == End(Call(i, false), Deferred);
      if j < k {
        EndedTwice(s.log, j, k);
      } else if k < j {
        EndedTwice(s.log, k, j);
      }
    }
  }

  /** Inputs whose last visit earned this outcome. */
  ghost function Earning(candidates: seq<Candidate>, log: seq<Event<Entry>>, openings: seq<Opening>,
                         outcome: Outcome): set<nat>
    requires |openings| == |log|
  {
    set i: nat | i < |candidates| && EarnsLast(candidates[i], log, openings, i, outcome)
  }

  ghost predicate EarnsLast(c: Candidate, log: seq<Event<Entry>>, openings: seq<Opening>, i: nat, outcome: Outcome)
    requires |openings| == |log|
  {
    exists k: nat :: LastVisit(log, i, k) && Earns(c, openings[k], outcome)
  }

  /** Inputs for which this outcome was recorded. */
  ghost function RecordedAs(log: seq<Event<Entry>>, n: nat, outcome: Outcome): set<nat> {
    set i: nat | i < n && WasRecorded(log, i, outcome)
  }

  ghost predicate WasRecorded(log: seq<Event<Entry>>, i: nat, outcome: Outcome) {
    exists k :: 0 <= k < |log| && RecordsAt(log, k, i, outcome)
  }

  predicate RecordsAt(log: seq<Event<Entry>>, k: nat, i: nat, outcome: Outcome)
    requires k < |log|
  {
    log[k].End? && log[k].settled.Finished? && log[k].call.index == i && log[k].settled.result.outcome == outcome
  }

  lemma WasRecordedStep(log: seq<Event<Entry>>, e: Event<Entry>, i: nat, outcome: Outcome)
    ensures WasRecorded(log + [e], i, outcome)
        <==> WasRecorded(log, i, outcome) || RecordsAt([e], 0, i, outcome)
  {
    var more := log + [e];
    assert more[|log|] == e;
    if k :| 0 <= k < |log| && RecordsAt(log, k, i, outcome) {
      assert RecordsAt(more, k, i, outcome);
    }
    if RecordsAt([e], 0, i, outcome) {
      assert RecordsAt(more, |log|, i, outcome);
    }
    if k :| 0 <= k < |more| && RecordsAt(more, k, i, outcome) {
      if k < |log| {
        assert RecordsAt(log, k, i, outcome);
      }
    }
  }

  /** With one outcome an input at most, a tally counts the inputs. */
  lemma {:induction false} TallyCountsInputs(log: seq<Event<Entry>>, n: nat, outcome: Outcome)
    requires forall k :: 0 <= k < |log| && log[k].End? ==> log[k].call.index < n
    requires forall i: nat :: RecordedFor(log, i) <= 1
    ensures TallyAll(Recorded(log), outcome) == |RecordedAs(log, n, outcome)|
  {
    hide WasRecorded, RecordedFor, RecordedAs, Recorded, TallyAll, RecordsAt;
    if log == [] {
      NoneRecorded(n, outcome);
    } else {
      var m := |log| - 1;
      var before, e := log[..m], log[m];
      assert log == before + [e];
      forall i: nat ensures RecordedFor(before, i) <= 1 { RecordedForStep(log, i); }
      assert forall k :: 0 <= k < m ==> before[k] == log[k];
      TallyCountsInputs(before, n, outcome);
      TallyStep(before, e, outcome);
      OneMoreRecorded(before, e, n, outcome);
    }
  }

  /** The newest event adds the input it records the outcome for, if any. */
  lemma OneMoreRecorded(before: seq<Event<Entry>>, e: Event<Entry>, n: nat, outcome: Outcome)
    requires e.End? ==> e.call.index < n && RecordedFor(before + [e], e.call.index) <= 1
    ensures |RecordedAs(before + [e], n, outcome)|
         == |RecordedAs(before, n, outcome)| + if e.End? && RecordsAt([e], 0, e.call.index, outcome) then 1 else 0
  {
    hide WasRecorded, RecordedFor, RecordedAs;
    var log := before + [e];
    var records := e.End? && RecordsAt([e], 0, e.call.index, outcome);
    if records {
      NewlyRecorded(before, e, outcome);
      assert e.call.index !in RecordedAs(before, n, outcome) by { RecordedMember(before, n, e.call.index, outcome); }
    }
    forall i: nat
      ensures i in RecordedAs(log, n, outcome)
              <==> i in RecordedAs(before, n, outcome) || (records && i == e.call.index)
    {
      WasRecordedStep(before, e, i, outcome);
      RecordedMember(before, n, i, outcome);
      RecordedMember(log, n, i, outcome);
    }
    if records {
      assert RecordedAs(log, n, outcome) == RecordedAs(before, n, outcome) + {e.call.index};
    } else {
      assert RecordedAs(log, n, outcome) == RecordedAs(before, n, outcome);
    }
  }

  lemma RecordedMember(log: seq<Event<Entry>>, n: nat, i: nat, outcome: Outcome)
    ensures i in RecordedAs(log, n, outcome) <==> i < n && WasRecorded(log, i, outcome)
  {
    hide WasRecorded;
  }

  lemma NoneRecorded(n: nat, outcome: Outcome)
    ensures RecordedAs([], n, outcome) == {} && TallyAll(Recorded([]), outcome) == 0
  {
  }

  lemma RecordedForStep(log: seq<Event<Entry>>, i: nat)
    requires log != []
    ensures RecordedFor(log[..|log| - 1], i) <= RecordedFor(log, i)
  {
  }

  lemma TallyStep(before: seq<Event<Entry>>, e: Event<Entry>, outcome: Outcome)
    ensures TallyAll(Recorded(before + [e]), outcome)
         == TallyAll(Recorded(before), outcome)
            + if e.End? && RecordsAt([e], 0, e.call.index, outcome) then 1 else 0
  {
    assert (before + [e])[..|before|] == before;
    var r := Recorded(before);
    if e.End? && e.settled.Finished? {
      assert (r + [e.settled.result])[..|r|] == r;
    } else {
      assert r + [] == r;
    }
  }

  lemma NewlyRecorded(before: seq<Event<Entry>>, e: Event<Entry>, outcome: Outcome)
    requires e.End? && e.settled.Finished? && RecordedFor(before + [e], e.call.index) <= 1
    ensures !WasRecorded(before, e.call.index, outcome)
  {
    var log := before + [e];
    if k :| 0 <= k < |before| && RecordsAt(before, k, e.call.index, outcome) {
      assert log[k] == before[k] && log[|before|] == e;
      RecordedTwice(log, e.call.index, k, |before|);
    }
  }

  lemma EarnsOne(c: Candidate, o: Opening, a: Outcome, b: Outcome)
    requires Earns(c, o, a)
    ensures Earns(c, o, b) <==> a == b
  {
  }

  /** In every completed migration each total counts the inputs whose last visit earned that outcome. */
  lemma TotalsMean(candidates: seq<Candidate>, jobs: nat, schedule: seq<Action<Entry>>, s: State<Entry>,
                   openings: seq<Opening>, totals: Counts, bySourceVersion: map<SourceVersion, Counts>,
                   failures: seq<FailedInput>)
    requires jobs > 0 && Runs(Start(|candidates|, jobs), schedule, s) && s.phase.Succeeded?
    requires VisitedAs(candidates, s.log, openings)
    requires Tallied(totals, bySourceVersion, failures, Recorded(s.log))
    ensures totals.converted == |Earning(candidates, s.log, openings, Converted)|
    ensures totals.alreadyV4 == |Earning(candidates, s.log, openings, AlreadyV4)|
    ensures totals.failed == |Earning(candidates, s.log, openings, Failure)|
    ensures totals.skipped == |Earning(candidates, s.log, openings, Skipped)|
  {
    hide Runs, Visit, TallyAll, Recorded, RecordedAs, Earning;
    forall outcome ensures totals.Of(outcome) == |Earning(candidates, s.log, openings, outcome)| {
      TotalMeans(candidates, jobs, schedule, s, openings, outcome);
    }
    assert totals.converted == totals.Of(Converted) && totals.alreadyV4 == totals.Of(AlreadyV4);
    assert totals.failed == totals.Of(Failure) && totals.skipped == totals.Of(Skipped);
  }

  lemma TotalMeans(candidates: seq<Candidate>, jobs: nat, schedule: seq<Action<Entry>>, s: State<Entry>,
                   openings: seq<Opening>, outcome: Outcome)
    requires jobs > 0 && Runs(Start(|candidates|, jobs), schedule, s) && s.phase.Succeeded?
    requires VisitedAs(candidates, s.log, openings)
    ensures |openings| == |s.log|
    ensures TallyAll(Recorded(s.log), outcome) == |Earning(candidates, s.log, openings, outcome)|
  {
    hide Runs, Visit, Tells, TallyAll, Recorded, RecordedFor, WasRecorded, EarnsLast;
    CallsNameInputs(|candidates|, jobs, schedule, s);
    forall i: nat | i < |candidates|
      ensures RecordedFor(s.log, i) == 1
      ensures WasRecorded(s.log, i, outcome) <==> EarnsLast(candidates[i], s.log, openings, i, outcome)
    {
      var k := OutcomeEarned(candidates, jobs, schedule, s, openings, i);
      SameOutcome(candidates[i], s.log, openings, i, k, outcome);
    }
    forall i: nat ensures RecordedFor(s.log, i) <= 1 {
      if i >= |candidates| && RecordedFor(s.log, i) > 0 {
        var k := RecordedSomewhere(s.log, i);
      }
    }
    TallyCountsInputs(s.log, |candidates|, outcome);
    assert RecordedAs(s.log, |candidates|, outcome) == Earning(candidates, s.log, openings, outcome);
  }

  lemma SameOutcome(c: Candidate, log: seq<Event<Entry>>, openings: seq<Opening>, i: nat, k: nat, outcome: Outcome)
    requires |openings| == |log| && LastVisit(log, i, k) && RecordedFor(log, i) == 1 && log[k].settled.Finished?
    requires Tells(c, openings[k], log[k].settled.result)
    ensures WasRecorded(log, i, outcome) <==> EarnsLast(c, log, openings, i, outcome)
  {
    hide RecordedFor, Earns;
    EarnsOne(c, openings[k], log[k].settled.result.outcome, outcome);
    if WasRecorded(log, i, outcome) {
      var j :| 0 <= j < |log| && RecordsAt(log, j, i, outcome);
      if j < k {
        RecordedTwice(log, i, j, k);
      }
    }
    if EarnsLast(c, log, openings, i, outcome) {
      var j: nat :| LastVisit(log, i, j) && Earns(c, openings[j], outcome);
      assert j == k;
      assert RecordsAt(log, k, i, outcome);
    }
  }

  // ----- the totals of a run -----

  /** What the listed versions count of one outcome. */
  function VersionSum(bySourceVersion: map<SourceVersion, Counts>, versions: seq<SourceVersion>, o: Outcome): nat {
    if versions == [] then 0
    else
      var n := |versions| - 1;
      VersionSum(bySourceVersion, versions[..n], o) + CountsOf(bySourceVersion, versions[n]).Of(o)
  }

  lemma {:induction false} VersionSumIsTally(bySourceVersion: map<SourceVersion, Counts>, entries: seq<Entry>,
                                             versions: seq<SourceVersion>, o: Outcome)
    requires forall v :: CountsOf(bySourceVersion, v).Of(o) == Tally(entries, v, o)
    ensures VersionSum(bySourceVersion, versions, o) == TallyOver(entries, versions, o)
  {
    if versions != [] {
      VersionSumIsTally(bySourceVersion, entries, versions[..|versions| - 1], o);
    }
  }

  lemma {:induction false} EntryIsTallied(entries: seq<Entry>, e: Entry)
    requires e in entries
    ensures Tally(entries, e.version, e.outcome) > 0
  {
    var n := |entries| - 1;
    if entries[n] != e {
      assert entries == entries[..n] + [entries[n]];
      EntryIsTallied(entries[..n], e);
    }
  }

  lemma {:induction false} FailuresAreTallied(entries: seq<Entry>)
    requires forall e :: e in entries ==> WellKept(e)
    ensures |FailuresOf(entries)| == TallyAll(entries, Failure)
  {
    if entries != [] {
      var n := |entries| - 1;
      assert entries == entries[..n] + [entries[n]];
      assert entries[n] in entries;
      FailuresAreTallied(entries[..n]);
    }
  }

  lemma {:induction false} RecordedWellKept(log: seq<Event<Entry>>)
    requires forall k :: 0 <= k < |log| && log[k].End? && log[k].settled.Finished? ==> WellKept(log[k].settled.result)
    ensures forall e :: e in Recorded(log) ==> WellKept(e)
  {
    if log != [] {
      var n := |log| - 1;
      assert forall k :: 0 <= k < n ==> log[..n][k] == log[k];
      RecordedWellKept(log[..n]);
    }
  }

  /** Whatever is tallied adds up: totals to the entries, versions to the totals, failures to the failed total. */
  lemma TalliedAddsUp(totals: Counts, bySourceVersion: map<SourceVersion, Counts>, failures: seq<FailedInput>,
                      entries: seq<Entry>)
    requires Tallied(totals, bySourceVersion, failures, entries) && forall e :: e in entries ==> WellKept(e)
    ensures totals.Sum() == |entries| && |failures| == totals.failed
    ensures forall versions, o :: Lists(versions, bySourceVersion.Keys) ==>
              VersionSum(bySourceVersion, versions, o) == totals.Of(o)
  {
    hide TallyAll, Tally, FailuresOf, WellKept, VersionSum;
    assert totals.Sum() == totals.Of(Converted) + totals.Of(AlreadyV4) + totals.Of(Failure) + totals.Of(Skipped);
    TotalsCountEntries(entries);
    FailuresAreTallied(entries);
    assert totals.failed == totals.Of(Failure);
    forall versions, o | Lists(versions, bySourceVersion.Keys)
      ensures VersionSum(bySourceVersion, versions, o) == totals.Of(o)
    {
      VersionSumIsTally(bySourceVersion, entries, versions, o);
      forall e | e in entries ensures e.version in versions {
        EntryIsTallied(entries, e);
        assert CountsOf(bySourceVersion, e.version).Of(e.outcome) > 0;
      }
      VersionsAddUp(entries, versions, o);
    }
  }

  /** Every element of the set once. */
  ghost predicate Lists(versions: seq<SourceVersion>, s: set<SourceVersion>) {
    && (forall i, j :: 0 <= i < j < |versions| ==> versions[i] != versions[j])
    && (forall v :: v in versions <==> v in s)
  }

  /**
   * Whatever the schedule, the ledger of a completed migration adds up: its totals to the number of inputs,
   * the counts of all versions to the totals, and its failures to the failed total.
   */
  lemma TotalsConserved(candidates: seq<Candidate>, jobs: nat, schedule: seq<Action<Entry>>, s: State<Entry>,
                        totals: Counts, bySourceVersion: map<SourceVersion, Counts>, failures: seq<FailedInput>)
    requires jobs > 0 && Runs(Start(|candidates|, jobs), schedule, s) && s.phase.Succeeded?
    requires Faithful(candidates, s.log) && Tallied(totals, bySourceVersion, failures, Recorded(s.log))
    ensures totals.Sum() == |candidates| && |failures| == totals.failed
    ensures forall versions, o :: Lists(versions, bySourceVersion.Keys) ==>
              VersionSum(bySourceVersion, versions, o) == totals.Of(o)
  {
    hide Runs, Tallied, Lists, VersionSum, Faithful, WellKept, Recorded;
    OutcomesConserved(candidates, jobs, schedule, s);
    CallsNameInputs(|candidates|, jobs, schedule, s);
    FaithfulFacts(candidates, s.log);
    RecordedWellKept(s.log);
    TalliedAddsUp(totals, bySourceVersion, failures, Recorded(s.log));
  }

  /** The ledger of a run: every visit that ended for good settles in it, in the order of the log. */
  method Account(log: seq<Event<Entry>>) returns (ledger: Ledger)
    requires forall k :: 0 <= k < |log| && log[k].End? && log[k].settled.Finished? ==> WellKept(log[k].settled.result)
    ensures fresh(ledger) && ledger.Valid() && ledger.entries == Recorded(log)
  {
    hide Tallied, WellKept;
    ledger := new Ledger();
    for i := 0 to |log|
      invariant fresh(ledger) && ledger.Valid() && ledger.entries == Recorded(log[..i])
    {
      assert log[..i + 1][..i] == log[..i];
      if log[i].End? && log[i].settled.Finished? {
        ledger.Settle(log[i].settled.result);
      }
    }
    assert log[..|log|] == log;
  }
}
