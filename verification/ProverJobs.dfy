/** Model of `event_loop.rs`: the table of prover jobs, the spawned workers and the job channel. */
module ProverJobs {
  import opened Common

  /** The window a job proves, cut down to what the event loop passes on. */
  datatype Inputs = Inputs(expectedOutputSlot: nat, expectedOutputStoreHash: nat)

  datatype StageNotice = StageNotice(slot: nat, storeHash: nat)

  /** A worker reports its own job id, with a proof whose public values decode or not, or with an error. */
  datatype Report = Proved(jobId: nat, decodes: bool) | ProverError(jobId: nat)

  datatype State = State(
    jobId: nat, proverJobs: map<nat, Inputs>, running: set<nat>, channel: seq<Report>,
    crashed: set<nat>, retired: seq<nat>, exited: bool)

  datatype Event =
    | StageJob(inputs: Inputs)
    | WorkerReports(report: Report)
    | WorkerCrashes(jobId: nat)
    | HandleReport

  const Initial: State := State(0, map[], {}, [], {}, [], false)

  ghost predicate Enabled(s: State, e: Event) {
    && !s.exited
    && match e
       case StageJob(_) => s.jobId + 1 < TWO_POW_64
       case WorkerReports(r) => r.jobId in s.running
       case WorkerCrashes(id) => id in s.running
       case HandleReport => s.channel != []
  }

  ghost function Step(s: State, e: Event): State
    requires Enabled(s, e)
  {
    match e
    case StageJob(inputs) =>
      var id := s.jobId + 1;
      s.(jobId := id, proverJobs := s.proverJobs[id := inputs], running := s.running + {id})
    case WorkerReports(r) =>
      s.(running := s.running - {r.jobId}, channel := s.channel + [r])
    case WorkerCrashes(id) =>
      s.(running := s.running - {id}, crashed := s.crashed + {id})
    case HandleReport =>
      var r := s.channel[0];
      s.(channel := s.channel[1..], proverJobs := s.proverJobs - {r.jobId}, retired := s.retired + [r.jobId],
         exited := r.Proved? && !r.decodes)
  }

  class EventLoop {
    var jobId: nat
    var proverJobs: map<nat, Inputs>
    var running: set<nat>
    var channel: seq<Report>
    var exited: bool
    ghost var crashed: set<nat>
    ghost var retired: seq<nat>

    ghost function View(): State
      reads this
    {
      State(jobId, proverJobs, running, channel, crashed, retired, exited)
    }

    constructor ()
      ensures View() == Initial
    {
      jobId, proverJobs, running, channel, exited := 0, map[], {}, [], false;
      crashed, retired := {}, [];
    }

    /** The notice that goes to the finality change detector names the end of the staged window. */
    method StageTransitionProof(inputs: Inputs) returns (notice: StageNotice)
      requires Enabled(View(), StageJob(inputs))
      modifies this
      ensures View() == Step(old(View()), StageJob(inputs))
      ensures jobId in proverJobs && proverJobs[jobId] == inputs
      ensures notice == StageNotice(proverJobs[jobId].expectedOutputSlot, proverJobs[jobId].expectedOutputStoreHash)
    {
      jobId := jobId + 1;
      proverJobs := proverJobs[jobId := inputs];
      running := running + {jobId};
      notice := StageNotice(inputs.expectedOutputSlot, inputs.expectedOutputStoreHash);
    }

    /** The end of a spawned task: its report goes to the unbounded channel. */
    method Report(r: Report)
      requires Enabled(View(), WorkerReports(r))
      modifies this
      ensures View() == Step(old(View()), WorkerReports(r))
    {
      running := running - {r.jobId};
      channel := channel + [r];
    }

    /** The lookup is unwrapped, so the id must be in the table. */
    method HandleProverSuccess(id: nat, decodes: bool) returns (inputs: Inputs, ok: bool)
      requires id in proverJobs
      modifies this`proverJobs, this`retired
      ensures inputs == old(proverJobs)[id] && ok == decodes
      ensures proverJobs == old(proverJobs) - {id} && retired == old(retired) + [id]
    {
      inputs := proverJobs[id];
      proverJobs := proverJobs - {id};
      retired := retired + [id];
      ok := decodes;
    }

    method HandleProverFailure(id: nat) returns (inputs: Inputs, jobsLeft: nat)
      requires id in proverJobs
      modifies this`proverJobs, this`retired
      ensures inputs == old(proverJobs)[id] && jobsLeft == |proverJobs|
      ensures proverJobs == old(proverJobs) - {id} && retired == old(retired) + [id]
    {
      inputs := proverJobs[id];
      proverJobs := proverJobs - {id};
      retired := retired + [id];
      jobsLeft := |proverJobs|;
    }

    /** One turn of the select loop on the job channel; a proof that does not decode ends the process. */
    method HandleNext()
      requires Inv(View()) && Enabled(View(), HandleReport)
      modifies this
      ensures View() == Step(old(View()), HandleReport) && Inv(View())
    {
      KeepsInv(View(), HandleReport);
      ReportedIsKnown(View(), 0);
      var r := channel[0];
      channel := channel[1..];
      match r {
        case Proved(id, decodes) =>
          var _, ok := HandleProverSuccess(id, decodes);
          if !ok { exited := true; }
        case ProverError(id) =>
          var _, _ := HandleProverFailure(id);
      }
    }
  }

  // ----- where every job is

  function Reported(channel: seq<Report>): set<nat> {
    set i | 0 <= i < |channel| :: channel[i].jobId
  }

  ghost predicate Distinct(ids: seq<nat>) {
    forall i, j | 0 <= i < j < |ids| :: ids[i] != ids[j]
  }

  function Ids(channel: seq<Report>): seq<nat> {
    seq(|channel|, i requires 0 <= i < |channel| => channel[i].jobId)
  }

  /** The table holds exactly the jobs whose worker runs, whose report waits, or whose worker crashed;
      these and the retired ones are all the ids handed out, each once. */
  ghost predicate Inv(s: State) {
    && s.proverJobs.Keys == s.running + Reported(s.channel) + s.crashed
    && s.running !! s.crashed
    && s.running !! Reported(s.channel)
    && s.crashed !! Reported(s.channel)
    && Distinct(Ids(s.channel))
    && Distinct(s.retired)
    && (forall id | id in s.retired :: id !in s.proverJobs)
    && (forall id: nat {:trigger id in s.proverJobs} :: 1 <= id <= s.jobId <==> id in s.proverJobs || id in s.retired)
  }

  /** Both lookups find the reported job. */
  lemma ReportedIsKnown(s: State, i: nat)
    requires Inv(s) && i < |s.channel|
    ensures s.channel[i].jobId in s.proverJobs
  {
    assert s.channel[i].jobId in Reported(s.channel);
  }

  lemma ReportedSnoc(c: seq<Report>, r: Report)
    ensures Reported(c + [r]) == Reported(c) + {r.jobId} && Ids(c + [r]) == Ids(c) + [r.jobId]
  {
    forall id | id in Reported(c) ensures id in Reported(c + [r]) {
      var i :| 0 <= i < |c| && c[i].jobId == id;
      assert (c + [r])[i] == c[i];
    }
    assert (c + [r])[|c|] == r;
  }

  lemma ReportedTail(c: seq<Report>)
    requires c != [] && Distinct(Ids(c))
    ensures Reported(c[1..]) == Reported(c) - {c[0].jobId} && Ids(c[1..]) == Ids(c)[1..]
  {
    forall id | id in Reported(c) - {c[0].jobId} ensures id in Reported(c[1..]) {
      var i :| 0 <= i < |c| && c[i].jobId == id;
      assert c[1..][i - 1] == c[i];
    }
    forall id | id in Reported(c[1..]) ensures id in Reported(c) && id != c[0].jobId {
      var i :| 0 <= i < |c[1..]| && c[1..][i].jobId == id;
      assert c[i + 1].jobId == id && Ids(c)[i + 1] != Ids(c)[0];
    }
  }

  lemma KeepsInv(s: State, e: Event)
    requires Inv(s) && Enabled(s, e)
    ensures Inv(Step(s, e))
  {
    var t := Step(s, e);
    match e {
      case StageJob(inputs) =>
        assert t.jobId !in s.proverJobs && t.jobId !in s.retired;
      case WorkerReports(r) =>
        ReportedSnoc(s.channel, r);
        assert r.jobId !in Reported(s.channel);
      case WorkerCrashes(id) =>
      case HandleReport =>
        ReportedIsKnown(s, 0);
        ReportedTail(s.channel);
        RetireKeepsInv(s, t);
    }
  }

  lemma RetireKeepsInv(s: State, t: State)
    requires Inv(s) && Enabled(s, HandleReport) && t == Step(s, HandleReport)
    requires s.channel[0].jobId in s.proverJobs
    requires Reported(t.channel) == Reported(s.channel) - {s.channel[0].jobId} && Ids(t.channel) == Ids(s.channel)[1..]
    ensures Inv(t)
  {
    var id := s.channel[0].jobId;
    assert id !in s.retired;
    assert id in Reported(s.channel);
    forall x: nat ensures 1 <= x <= t.jobId <==> x in t.proverJobs || x in t.retired {
      assert x in t.retired <==> x in s.retired || x == id;
    }
  }

  // ----- whole runs

  ghost predicate Runs(s: State, es: seq<Event>)
    decreases es
  {
    es == [] || (Enabled(s, es[0]) && Runs(Step(s, es[0]), es[1..]))
  }

  ghost function After(s: State, es: seq<Event>): State
    requires Runs(s, es)
    decreases es
  {
    if es == [] then s else After(Step(s, es[0]), es[1..])
  }

  lemma {:induction false} EveryRun(s: State, es: seq<Event>)
    requires Inv(s) && Runs(s, es)
    ensures Inv(After(s, es))
    decreases es
  {
    hide Inv;
    if es != [] {
      KeepsInv(s, es[0]);
      EveryRun(Step(s, es[0]), es[1..]);
    }
  }

  // ----- what the events alone say

  /** The windows staged, in order. */
  function StagedBy(es: seq<Event>): seq<Inputs> {
    if es == [] then []
    else
      var e := es[|es| - 1];
      StagedBy(es[..|es| - 1]) + if e.StageJob? then [e.inputs] else []
  }

  /** The reports sent, in order. */
  function ReportsIn(es: seq<Event>): seq<Report> {
    if es == [] then []
    else
      var e := es[|es| - 1];
      ReportsIn(es[..|es| - 1]) + if e.WorkerReports? then [e.report] else []
  }

  lemma {:induction false} RunSplit(s: State, es: seq<Event>)
    requires Runs(s, es) && es != []
    ensures
      var before, last := es[..|es| - 1], es[|es| - 1];
      Runs(s, before) && Enabled(After(s, before), last) && After(s, es) == Step(After(s, before), last)
    decreases es
  {
    hide Step, Enabled;
    if |es| == 1 {
      assert es[..0] == [] && es[1..] == [];
    } else {
      RunSplit(Step(s, es[0]), es[1..]);
      assert es[1..][..|es| - 2] == es[..|es| - 1][1..];
    }
  }

  /** Job n is to prove the n-th window staged, for as long as it is in the table; reports are handled in the
      order they were sent; and the process has ended exactly when the last one handled is a proof that does not
      decode. */
  ghost predicate Decided(s: State, staged: seq<Inputs>, reports: seq<Report>) {
    && s.jobId == |staged|
    && (forall id | id in s.proverJobs :: 1 <= id <= |staged| && s.proverJobs[id] == staged[id - 1])
    && |s.retired| <= |reports| && s.channel == reports[|s.retired|..]
    && (forall i | 0 <= i < |s.retired| :: s.retired[i] == reports[i].jobId)
    && (s.exited <==> s.retired != [] && reports[|s.retired| - 1].Proved? && !reports[|s.retired| - 1].decodes)
  }

  lemma DecidedStep(s: State, staged: seq<Inputs>, reports: seq<Report>, e: Event)
    requires Decided(s, staged, reports) && Enabled(s, e)
    ensures Decided(Step(s, e), staged + (if e.StageJob? then [e.inputs] else []),
                    reports + (if e.WorkerReports? then [e.report] else []))
  {
    match e
    case WorkerReports(r) =>
      assert (reports + [r])[|s.retired|..] == s.channel + [r];
    case HandleReport =>
      assert s.channel[0] == reports[|s.retired|] && s.channel[1..] == reports[|s.retired| + 1..];
    case _ =>
  }

  /** The events alone decide what is proved, in which order reports are handled, and whether the process has
      ended. */
  lemma {:induction false} EventsDecide(es: seq<Event>)
    requires Runs(Initial, es)
    ensures Decided(After(Initial, es), StagedBy(es), ReportsIn(es))
    decreases |es|
  {
    hide Runs, After, Step, Enabled, Decided;
    if es == [] {
      NoEvents();
    } else {
      RunSplit(Initial, es);
      EventsDecide(es[..|es| - 1]);
      var before := es[..|es| - 1];
      DecidedStep(After(Initial, before), StagedBy(before), ReportsIn(before), es[|es| - 1]);
    }
  }

  lemma NoEvents()
    ensures After(Initial, []) == Initial && Decided(Initial, [], [])
  {
  }

  /** In every run each id handed out is in exactly one place: with a running worker, in the channel,
      lost with a crashed worker, or retired, and retired only once. */
  lemma EveryJobInOnePlace(es: seq<Event>, id: nat)
    requires Runs(Initial, es)
    ensures
      var s := After(Initial, es);
      && (1 <= id <= s.jobId <==> id in s.running || id in Reported(s.channel) || id in s.crashed || id in s.retired)
      && (id in s.retired ==> id !in s.running && id !in Reported(s.channel) && id !in s.crashed && id !in s.proverJobs)
      && Distinct(s.retired)
  {
    EveryRun(Initial, es);
  }

  /** Nothing is lost: retired jobs and table entries add up to the ids handed out, and once no worker
      runs and no report waits only crashed jobs are left in the table. */
  lemma NothingLeaks(es: seq<Event>)
    requires Runs(Initial, es)
    ensures
      var s := After(Initial, es);
      && (s.running == {} && s.channel == [] ==> s.proverJobs.Keys == s.crashed)
      && |s.retired| + |s.proverJobs| == s.jobId
  {
    EveryRun(Initial, es);
    AddsUp(After(Initial, es));
  }

  lemma AddsUp(s: State)
    requires Inv(s)
    ensures s.running == {} && s.channel == [] ==> s.proverJobs.Keys == s.crashed
    ensures |s.retired| + |s.proverJobs| == s.jobId
  {
    hide UpTo, Elements;
    var k, r := s.proverJobs.Keys, Elements(s.retired);
    DistinctSize(s.retired);
    UpToSize(s.jobId);
    SameMembers(s);
    assert |r + k| == |r| + |k| - |r * k|;
    assert r * k == {};
  }

  lemma SameMembers(s: State)
    requires Inv(s)
    ensures Elements(s.retired) + s.proverJobs.Keys == UpTo(s.jobId)
    ensures Elements(s.retired) * s.proverJobs.Keys == {}
  {
    hide UpTo, Elements;
    var k, r := s.proverJobs.Keys, Elements(s.retired);
    forall id: nat ensures id in r + k <==> id in UpTo(s.jobId) {
      assert id in s.proverJobs || id !in s.proverJobs;
    }
  }

  ghost function Elements(s: seq<nat>): (r: set<nat>)
    ensures forall x :: x in r <==> x in s
  {
    if s == [] then {} else Elements(s[..|s| - 1]) + {s[|s| - 1]}
  }

  lemma {:induction false} DistinctSize(s: seq<nat>)
    requires Distinct(s)
    ensures |Elements(s)| == |s|
  {
    if s != [] {
      DistinctSize(s[..|s| - 1]);
      assert s[|s| - 1] !in s[..|s| - 1];
    }
  }
}
