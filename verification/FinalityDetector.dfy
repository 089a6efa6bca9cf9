/** Model of `finality_change_detector.rs`: the select loop, the validation actor and the two
    capacity-1 channels between them, as a class whose methods are the arms of the loop and the
    actions of the actor. Arms and actions may happen in any order that their guards allow. */
module FinalityDetector {
  import opened Common

  /** A 256-bit hash; the detector only copies and compares it. */
  type B256(==)

  /** Start of a window: a slot with the hash of the store at that slot. */
  datatype Update = Update(slot: nat, storeHash: B256)

  datatype JobInput = JobInput(slot: nat, storeHash: B256, nextExpectedOutput: Option<Update>)

  /** The proof inputs of one window, cut down to what the detector looks at. */
  datatype Window = Window(inputSlot: nat, inputStoreHash: B256, expectedOutputSlot: nat)

  datatype Dual = Dual(currentWindow: Window, nextWindow: Option<Window>)

  datatype Answer = Failed | Prepared(inputs: Dual)

  /** What `prepare_consensus_mpt_proof_inputs` guarantees of a window it returns with validation on. */
  predicate PreparedFrom(slot: nat, storeHash: B256, w: Window) {
    && w.inputSlot == slot
    && w.inputStoreHash == storeHash
    && w.expectedOutputSlot > slot
    && w.expectedOutputSlot % 32 == 0
  }

  predicate AnswerTo(job: JobInput, a: Answer) {
    a.Prepared? ==>
      && PreparedFrom(job.slot, job.storeHash, a.inputs.currentWindow)
      && (a.inputs.nextWindow.Some? <==> job.nextExpectedOutput.Some?)
      && (job.nextExpectedOutput.Some? ==>
            PreparedFrom(job.nextExpectedOutput.value.slot, job.nextExpectedOutput.value.storeHash,
                         a.inputs.nextWindow.value))
  }

  /** A result whose output slot moved `latest_slot`, with the detector's values at that moment. */
  datatype Acceptance = Acceptance(
    message: Dual, slot: nat, storeHash: B256, next: Option<Update>,
    latestBefore: nat, advances: nat, emitted: bool)

  /** What happened so far: the job last started and how many updates had then been received, the accepted
      results, and four counters. */
  datatype History = History(
    origin: JobInput, startedAt: nat, accepted: seq<Acceptance>, updates: nat, advances: nat, drops: nat,
    mismatches: nat)

  datatype State = State(
    slot: nat, storeHash: B256, latestSlot: nat, inFlight: bool, stale: bool,
    nextExpectedOutput: Option<Update>,
    jobs: seq<JobInput>, busy: Option<JobInput>, results: seq<Answer>,
    output: seq<Dual>, history: History)

  datatype Event =
    | Stage(update: Update)
    | Advance(update: Update)
    | Tick
    | Receive
    | Take
    | Finish(current: Option<Window>, next: Option<Window>)

  function FilteredNext(slot: nat, next: Option<Update>): Option<Update> {
    if next.Some? && next.value.slot != slot then next else None
  }

  function CurrentJob(s: State): JobInput {
    JobInput(s.slot, s.storeHash, FilteredNext(s.slot, s.nextExpectedOutput))
  }

  /** `try_start_validation_job` once the send on the job channel has completed. */
  function Started(s: State): State {
    s.(jobs := s.jobs + [CurrentJob(s)], inFlight := true,
         history := s.history.(origin := CurrentJob(s), startedAt := s.history.updates))
  }

  /** The verdict on a fresh result: is it progress in the current window, and is it sent? */
  predicate Accepts(s: State, d: Dual) {
    d.currentWindow.inputSlot == s.slot && d.currentWindow.expectedOutputSlot > s.latestSlot
  }

  predicate Emits(s: State, d: Dual) {
    Accepts(s, d) && (d.nextWindow.Some? ==> d.nextWindow.value.expectedOutputSlot > s.latestSlot)
  }

  function AcceptanceOf(s: State, d: Dual): Acceptance {
    Acceptance(d, s.slot, s.storeHash, FilteredNext(s.slot, s.nextExpectedOutput),
               s.latestSlot, s.history.advances, Emits(s, d))
  }

  function Judged(s: State, d: Dual): State {
    if Accepts(s, d) then
      s.(latestSlot := d.currentWindow.expectedOutputSlot,
         output := if Emits(s, d) then s.output + [d] else s.output,
         history := s.history.(accepted := s.history.accepted + [AcceptanceOf(s, d)]))
    else if d.currentWindow.inputSlot == s.slot then s
    else s.(history := s.history.(mismatches := s.history.mismatches + 1))
  }

  ghost predicate Enabled(s: State, e: Event) {
    match e
    case Stage(_) => true
    case Advance(_) => true
    case Tick => true
    case Receive => s.results != []
    case Take => s.busy.None? && s.jobs != []
    case Finish(current, next) =>
      && s.busy.Some?
      && (current.Some? ==> PreparedFrom(s.busy.value.slot, s.busy.value.storeHash, current.value))
      && (next.Some? ==>
            && s.busy.value.nextExpectedOutput.Some?
            && PreparedFrom(s.busy.value.nextExpectedOutput.value.slot,
                            s.busy.value.nextExpectedOutput.value.storeHash, next.value))
  }

  function AnswerOf(job: JobInput, current: Option<Window>, next: Option<Window>): Answer {
    if current.None? || (job.nextExpectedOutput.Some? && next.None?) then Failed
    else Prepared(Dual(current.value, if job.nextExpectedOutput.Some? then next else None))
  }

  /** A job was staged: its output becomes the start of the next window. */
  function AfterStage(s: State, u: Update): State {
    s.(nextExpectedOutput := Some(u), stale := s.stale || s.inFlight,
       history := s.history.(updates := s.history.updates + 1))
  }

  /** The bridge advanced: the current window restarts, and a next window with the same start is scrubbed. */
  function AfterAdvance(s: State, u: Update): State {
    s.(slot := u.slot, storeHash := u.storeHash, latestSlot := u.slot, stale := s.stale || s.inFlight,
       nextExpectedOutput := FilteredNext(u.slot, s.nextExpectedOutput),
       history := s.history.(updates := s.history.updates + 1, advances := s.history.advances + 1))
  }

  function AfterTick(s: State): State {
    if s.inFlight then s else Started(s)
  }

  /** An error leaves the stale flag as it was; a stale result is dropped and a new job started at once. */
  function AfterReceive(s: State): State
    requires s.results != []
  {
    var a, r := s.results[0], s.(results := s.results[1..], inFlight := false);
    if a.Failed? then r
    else if s.stale then Started(r.(stale := false, history := s.history.(drops := s.history.drops + 1)))
    else Judged(r, a.inputs)
  }

  function AfterTake(s: State): State
    requires s.jobs != []
  {
    s.(jobs := s.jobs[1..], busy := Some(s.jobs[0]))
  }

  function AfterFinish(s: State, current: Option<Window>, next: Option<Window>): State
    requires s.busy.Some?
  {
    s.(busy := None, results := s.results + [AnswerOf(s.busy.value, current, next)])
  }

  ghost function Step(s: State, e: Event): State
    requires Enabled(s, e)
  {
    match e
    case Stage(u) => AfterStage(s, u)
    case Advance(u) => AfterAdvance(s, u)
    case Tick => AfterTick(s)
    case Receive => AfterReceive(s)
    case Take => AfterTake(s)
    case Finish(current, next) => AfterFinish(s, current, next)
  }

  function Initial(slot: nat, storeHash: B256, next: Option<Update>): State {
    State(slot, storeHash, slot, false, false, next, [], None, [], [],
          History(JobInput(slot, storeHash, None), 0, [], 0, 0, 0, 0))
  }

  // ----- the loop and the actor as they update their variables

  class Detector {
    var slot: nat
    var storeHash: B256
    var latestSlot: nat
    var inFlight: bool
    var stale: bool
    var nextExpectedOutput: Option<Update>
    var jobs: seq<JobInput>
    var busy: Option<JobInput>
    var results: seq<Answer>
    var output: seq<Dual>
    ghost var history: History

    ghost function View(): State
      reads this
    {
      State(slot, storeHash, latestSlot, inFlight, stale, nextExpectedOutput, jobs, busy, results, output, history)
    }

    constructor (slot: nat, storeHash: B256, pipelineInflightNextExpectedOutput: Option<Update>)
      ensures View() == Initial(slot, storeHash, pipelineInflightNextExpectedOutput)
    {
      this.slot, this.storeHash := slot, storeHash;
      latestSlot, inFlight, stale := slot, false, false;
      nextExpectedOutput := pipelineInflightNextExpectedOutput;
      jobs, busy, results, output := [], None, [], [];
      history := History(JobInput(slot, storeHash, None), 0, [], 0, 0, 0, 0);
    }

    /** A send on the job channel would block if a job were already waiting in it. */
    method TryStartValidationJob()
      requires |jobs| == 0
      modifies this
      ensures View() == Started(old(View()))
    {
      var filteredNext := None;
      if nextExpectedOutput.Some? && nextExpectedOutput.value.slot != slot {
        filteredNext := nextExpectedOutput;
      }
      var job := JobInput(slot, storeHash, filteredNext);
      jobs := jobs + [job];
      inFlight := true;
      history := history.(origin := job, startedAt := history.updates);
    }

    method OnStage(update: Update)
      modifies this
      ensures View() == AfterStage(old(View()), update)
    {
      nextExpectedOutput := Some(update);
      if inFlight {
        stale := true;
      }
      history := history.(updates := history.updates + 1);
    }

    method OnAdvance(update: Update)
      modifies this
      ensures View() == AfterAdvance(old(View()), update)
    {
      slot := update.slot;
      storeHash := update.storeHash;
      latestSlot := slot;
      if inFlight {
        stale := true;
      }
      if nextExpectedOutput.Some? {
        if nextExpectedOutput.value.slot == slot {
          nextExpectedOutput := None;
        }
      }
      history := history.(updates := history.updates + 1, advances := history.advances + 1);
    }

    method OnTick()
      requires !inFlight ==> |jobs| == 0
      modifies this
      ensures View() == AfterTick(old(View()))
    {
      if !inFlight {
        TryStartValidationJob();
      }
    }

    method OnResult()
      requires results != [] && |jobs| == 0
      modifies this
      ensures View() == AfterReceive(old(View()))
    {
      var result := results[0];
      results := results[1..];
      inFlight := false;
      match result {
        case Prepared(dual) =>
          if stale {
            stale := false;
            history := history.(drops := history.drops + 1);
            TryStartValidationJob();
            return;
          }
          var outputSlot := dual.currentWindow.expectedOutputSlot;
          if dual.currentWindow.inputSlot == slot {
            if outputSlot > latestSlot {
              history := history.(accepted := history.accepted + [AcceptanceOf(View(), dual)]);
              if dual.nextWindow.Some? {
                if dual.nextWindow.value.expectedOutputSlot > latestSlot {
                  output := output + [dual];
                }
              } else {
                output := output + [dual];
              }
              latestSlot := outputSlot;
            }
          } else {
            history := history.(mismatches := history.mismatches + 1);
          }
        case Failed =>
      }
    }

    method ActorTake()
      requires busy.None? && jobs != []
      modifies this
      ensures View() == AfterTake(old(View()))
    {
      busy := Some(jobs[0]);
      jobs := jobs[1..];
    }

    /** Both windows are prepared, the next one only if the job asks for it; the result channel is never full. */
    method ActorFinish(current: Option<Window>, next: Option<Window>)
      requires |results| == 0 && Enabled(View(), Finish(current, next))
      modifies this
      ensures View() == AfterFinish(old(View()), current, next)
    {
      var job := busy.value;
      busy := None;
      var res;
      if job.nextExpectedOutput.Some? {
        if current.None? {
          res := Failed;
        } else if next.None? {
          res := Failed;
        } else {
          res := Prepared(Dual(current.value, Some(next.value)));
        }
      } else {
        if current.None? {
          res := Failed;
        } else {
          res := Prepared(Dual(current.value, None));
        }
      }
      results := results + [res];
    }
  }

  // ----- what holds in every interleaving

  /** Jobs waiting, being worked on or answered: one exactly while a request is outstanding. */
  function Outstanding(s: State): nat {
    |s.jobs| + (if s.busy.Some? then 1 else 0) + |s.results|
  }

  /** Whatever is outstanding comes from the job last started. */
  ghost predicate FromOrigin(s: State) {
    && (forall j | j in s.jobs :: j == s.history.origin)
    && (s.busy.Some? ==> s.busy.value == s.history.origin)
    && (forall a | a in s.results :: AnswerTo(s.history.origin, a))
  }

  /** A recorded acceptance was computed from the values the detector held when it was judged. */
  ghost predicate Faithful(a: Acceptance) {
    && AnswerTo(JobInput(a.slot, a.storeHash, a.next), Prepared(a.message))
    && a.latestBefore >= a.slot
    && a.message.currentWindow.expectedOutputSlot > a.latestBefore
    && (a.emitted <==> a.message.nextWindow.Some? ==> a.message.nextWindow.value.expectedOutputSlot > a.latestBefore)
  }

  /** Between two advances of the bridge the accepted output slots strictly increase. */
  ghost predicate Increasing(s: State) {
    && (forall i, j | 0 <= i < j < |s.history.accepted| ::
          && s.history.accepted[i].advances <= s.history.accepted[j].advances
          && (s.history.accepted[i].advances == s.history.accepted[j].advances ==>
                s.history.accepted[i].message.currentWindow.expectedOutputSlot
                  <= s.history.accepted[j].latestBefore
                  < s.history.accepted[j].message.currentWindow.expectedOutputSlot))
    && (forall a | a in s.history.accepted ::
          && a.advances <= s.history.advances
          && (a.advances == s.history.advances ==> a.message.currentWindow.expectedOutputSlot <= s.latestSlot))
  }

  /** The output slot last accepted since the bridge last advanced, or else the input slot. */
  function LastAccepted(s: State): nat {
    var log := s.history.accepted;
    if log != [] && log[|log| - 1].advances == s.history.advances
    then log[|log| - 1].message.currentWindow.expectedOutputSlot
    else s.slot
  }

  function Sent(log: seq<Acceptance>): seq<Dual> {
    if log == [] then []
    else Sent(log[..|log| - 1]) + (if log[|log| - 1].emitted then [log[|log| - 1].message] else [])
  }

  /** The requests, the flags and the counters. */
  ghost predicate QueueInv(s: State) {
    && Outstanding(s) == (if s.inFlight then 1 else 0)
    && FromOrigin(s)
    && s.history.startedAt <= s.history.updates
    && (s.inFlight && !s.stale ==> s.history.startedAt == s.history.updates)
    && (s.inFlight && s.history.startedAt == s.history.updates ==> s.history.origin == CurrentJob(s))
    && s.latestSlot >= s.slot
    && s.history.drops + (if s.stale then 1 else 0) <= s.history.updates
    && s.history.mismatches == 0
  }

  /** The record of accepted results, and the output channel read off it. */
  ghost predicate HistoryInv(s: State) {
    && (forall a | a in s.history.accepted :: Faithful(a))
    && Increasing(s)
    && s.latestSlot == LastAccepted(s)
    && s.output == Sent(s.history.accepted)
  }

  ghost predicate Inv(s: State) { QueueInv(s) && HistoryInv(s) }

  lemma InitialInv(slot: nat, storeHash: B256, next: Option<Update>)
    ensures Inv(Initial(slot, storeHash, next))
  {
  }

  lemma KeepsInv(s: State, e: Event)
    requires Inv(s) && Enabled(s, e)
    ensures Inv(Step(s, e))
  {
    hide QueueInv, HistoryInv, Step, Enabled;
    KeepsQueue(s, e);
    KeepsHistory(s, e);
  }

  lemma KeepsQueue(s: State, e: Event)
    requires QueueInv(s) && Enabled(s, e)
    ensures QueueInv(Step(s, e))
  {
    match e
    case Receive =>
      assert s.results[0] in s.results;
    case Take =>
      assert s.jobs[0] in s.jobs;
    case Finish(current, next) =>
      assert AnswerTo(s.busy.value, AnswerOf(s.busy.value, current, next));
    case _ =>
  }

  /** A result that is not stale answers the very job the detector would start now. */
  lemma FreshResult(s: State)
    requires QueueInv(s) && s.results != [] && !s.stale
    ensures AnswerTo(CurrentJob(s), s.results[0])
    ensures s.results[0].Prepared? ==> s.results[0].inputs.currentWindow.inputSlot == s.slot
  {
    assert s.results[0] in s.results;
  }

  lemma KeepsHistory(s: State, e: Event)
    requires Inv(s) && Enabled(s, e)
    ensures HistoryInv(Step(s, e))
  {
    hide HistoryInv;
    match e {
      case Receive => ReceiveKeepsHistory(s);
      case Advance(u) => AdvanceKeepsHistory(s, u);
      case _ => SameHistory(s, Step(s, e));
    }
  }

  lemma AdvanceKeepsHistory(s: State, u: Update)
    requires HistoryInv(s)
    ensures HistoryInv(AfterAdvance(s, u))
  {
    hide Faithful, Sent;
    var log := s.history.accepted;
    if log != [] { assert log[|log| - 1] in log; }
  }

  lemma ReceiveKeepsHistory(s: State)
    requires Inv(s) && s.results != []
    ensures HistoryInv(AfterReceive(s))
  {
    hide Faithful, Sent, Increasing;
    if !s.stale && s.results[0].Prepared? {
      FreshResult(s);
      var r := s.(results := s.results[1..], inFlight := false);
      SameHistory(s, r);
      if Accepts(r, s.results[0].inputs) {
        AcceptKeepsHistory(r, s.results[0].inputs);
      }
    } else {
      SameHistory(s, AfterReceive(s));
    }
  }

  lemma SameHistory(s: State, t: State)
    requires HistoryInv(s) && t.history.accepted == s.history.accepted && t.history.advances == s.history.advances
    requires t.latestSlot == s.latestSlot && t.slot == s.slot && t.output == s.output
    ensures HistoryInv(t)
  {
    hide Faithful, Sent;
  }

  lemma AcceptKeepsHistory(s: State, d: Dual)
    requires HistoryInv(s) && s.latestSlot >= s.slot
    requires Accepts(s, d) && AnswerTo(CurrentJob(s), Prepared(d))
    ensures HistoryInv(Judged(s, d))
  {
    hide Faithful, AnswerTo, Sent;
    var t := Judged(s, d);
    var last := t.history.accepted[|s.history.accepted|];
    AcceptanceIsFaithful(s, d);
    SentSnoc(s.history.accepted, last);
    forall a | a in s.history.accepted
      ensures a.message.currentWindow.expectedOutputSlot <= s.latestSlot || a.advances < s.history.advances
    {
    }
    IncreasingSnoc(s, t, last);
  }

  lemma AcceptanceIsFaithful(s: State, d: Dual)
    requires s.latestSlot >= s.slot && Accepts(s, d) && AnswerTo(CurrentJob(s), Prepared(d))
    ensures Faithful(Judged(s, d).history.accepted[|s.history.accepted|])
  {
  }

  lemma SentSnoc(log: seq<Acceptance>, last: Acceptance)
    ensures Sent(log + [last]) == Sent(log) + (if last.emitted then [last.message] else [])
  {
    assert (log + [last])[..|log|] == log;
  }

  lemma IncreasingSnoc(s: State, t: State, last: Acceptance)
    requires Increasing(s)
    requires t.history.accepted == s.history.accepted + [last]
             && t.history.advances == last.advances == s.history.advances
    requires last.latestBefore == s.latestSlot < last.message.currentWindow.expectedOutputSlot == t.latestSlot
    ensures Increasing(t)
  {
    forall i, j | 0 <= i < j < |t.history.accepted|
      ensures t.history.accepted[i].advances <= t.history.accepted[j].advances
      ensures t.history.accepted[i].advances == t.history.accepted[j].advances ==>
                t.history.accepted[i].message.currentWindow.expectedOutputSlot
                  <= t.history.accepted[j].latestBefore < t.history.accepted[j].message.currentWindow.expectedOutputSlot
    {
      assert t.history.accepted[i] == s.history.accepted[i] && s.history.accepted[i] in s.history.accepted;
      if j < |s.history.accepted| { assert t.history.accepted[j] == s.history.accepted[j]; }
    }
  }

  // ----- whole runs

  ghost predicate Runs(s: State, es: seq<Event>)
    decreases es
  {
    es == [] || (Enabled(s, es[0]) && Runs(Step(s, es[0]), es[1..]))
  }

  ghost function After(s: State, es: seq<Event>): State
    requires Runs(s, es)
    decreases es
  {
    if es == [] then s else After(Step(s, es[0]), es[1..])
  }

  lemma {:induction false} EveryRun(s: State, es: seq<Event>)
    requires Inv(s) && Runs(s, es)
    ensures Inv(After(s, es))
    decreases es
  {
    hide Inv, Step, Enabled;
    if es != [] {
      KeepsInv(s, es[0]);
      EveryRun(Step(s, es[0]), es[1..]);
    }
  }

  /** Every message on the output channel was computed from a job whose slot, store hash and filtered
      next window are the values the detector held when it sent it; it ends after its input slot and
      after the previous latest slot, and so does its next window. */
  lemma EverySentMessage(slot: nat, storeHash: B256, next: Option<Update>, es: seq<Event>, d: Dual)
    returns (a: Acceptance)
    requires Runs(Initial(slot, storeHash, next), es)
    requires d in After(Initial(slot, storeHash, next), es).output
    ensures a in After(Initial(slot, storeHash, next), es).history.accepted && a.emitted && a.message == d
    ensures AnswerTo(JobInput(a.slot, a.storeHash, a.next), Prepared(d))
    ensures d.currentWindow.expectedOutputSlot > a.latestBefore >= d.currentWindow.inputSlot == a.slot
    ensures d.currentWindow.expectedOutputSlot % 32 == 0
    ensures d.nextWindow.Some? ==>
              && d.nextWindow.value.expectedOutputSlot > a.latestBefore
              && d.nextWindow.value.expectedOutputSlot > d.nextWindow.value.inputSlot
              && d.nextWindow.value.inputSlot == a.next.value.slot
  {
    InitialInv(slot, storeHash, next);
    EveryRun(Initial(slot, storeHash, next), es);
    a := SentComesFrom(After(Initial(slot, storeHash, next), es).history.accepted, d);
  }

  lemma {:induction false} SentComesFrom(log: seq<Acceptance>, d: Dual) returns (a: Acceptance)
    requires d in Sent(log)
    ensures a in log && a.emitted && a.message == d
  {
    var last := log[|log| - 1];
    if last.emitted && last.message == d { a := last; } else { a := SentComesFrom(log[..|log| - 1], d); }
  }

  /** The branch that ignores a result from another input slot is never reached, and a send on either
      validation channel finds it empty. */
  lemma NoMismatchNoBlocking(slot: nat, storeHash: B256, next: Option<Update>, es: seq<Event>)
    requires Runs(Initial(slot, storeHash, next), es)
    ensures
      var s := After(Initial(slot, storeHash, next), es);
      && s.history.mismatches == 0
      && (!s.inFlight ==> s.jobs == [] && s.busy.None? && s.results == [])
      && (s.results != [] ==> s.jobs == [] && s.busy.None? && |s.results| == 1)
      && (s.busy.Some? ==> s.jobs == [] && s.results == [])
      && |s.jobs| <= 1
  {
    InitialInv(slot, storeHash, next);
    EveryRun(Initial(slot, storeHash, next), es);
  }

  predicate IsUpdate(e: Event) { e.Stage? || e.Advance? }

  /** Without further updates at most one result is dropped as stale, and only if the flag was already set. */
  lemma {:induction false} DropsAfterUpdatesStop(s: State, es: seq<Event>)
    requires Runs(s, es) && forall e | e in es :: !IsUpdate(e)
    ensures
      var t := After(s, es);
      && t.history.updates == s.history.updates
      && t.history.drops + (if t.stale then 1 else 0) == s.history.drops + (if s.stale then 1 else 0)
    decreases es
  {
    if es != [] {
      assert es[0] in es;
      assert forall e | e in es[1..] :: e in es;
      DropsAfterUpdatesStop(Step(s, es[0]), es[1..]);
    }
  }

  /** Over a whole run stale drops never exceed the updates received. */
  lemma DropsBoundedByUpdates(slot: nat, storeHash: B256, next: Option<Update>, es: seq<Event>)
    requires Runs(Initial(slot, storeHash, next), es)
    ensures After(Initial(slot, storeHash, next), es).history.drops
            <= After(Initial(slot, storeHash, next), es).history.updates
  {
    InitialInv(slot, storeHash, next);
    EveryRun(Initial(slot, storeHash, next), es);
  }

  // ----- the bridge's head and the staged window, read off the events alone

  /** The update of the last advance, or the initial head if there was none. */
  ghost predicate IsHead(initial: Update, es: seq<Event>, head: Update) {
    || (head == initial && forall e | e in es :: !e.Advance?)
    || (exists i :: 0 <= i < |es| && es[i] == Advance(head) && forall e | e in es[i + 1..] :: !e.Advance?)
  }

  /** No advance among the events reaches the slot. */
  ghost predicate NotReached(es: seq<Event>, slot: nat) {
    forall e | e in es :: e.Advance? ==> e.update.slot != slot
  }

  /** The update staged last, or at the start, unless an advance since then reached its slot. */
  ghost predicate IsStaged(initial: Option<Update>, es: seq<Event>, staged: Option<Update>) {
    || (NothingStaged(es) && staged == Kept(initial, es))
    || exists i :: StagedAt(es, i, staged)
  }

  ghost predicate NothingStaged(es: seq<Event>) {
    forall e | e in es :: !e.Stage?
  }

  ghost predicate StagedAt(es: seq<Event>, i: int, staged: Option<Update>) {
    && 0 <= i < |es| && es[i].Stage? && NothingStaged(es[i + 1..])
    && staged == Kept(Some(es[i].update), es[i + 1..])
  }

  ghost function Kept(update: Option<Update>, es: seq<Event>): Option<Update> {
    if update.Some? && NotReached(es, update.value.slot) then update else None
  }

  lemma {:induction false} RunSplit(s: State, es: seq<Event>)
    requires Runs(s, es) && es != []
    ensures
      var before, last := es[..|es| - 1], es[|es| - 1];
      Runs(s, before) && Enabled(After(s, before), last) && After(s, es) == Step(After(s, before), last)
    decreases es
  {
    hide Step, Enabled;
    if |es| == 1 {
      assert es[..0] == [] && es[1..] == [];
    } else {
      RunSplit(Step(s, es[0]), es[1..]);
      assert es[1..][..|es| - 2] == es[..|es| - 1][1..];
    }
  }

  lemma HeadSnoc(initial: Update, es: seq<Event>, e: Event, head: Update)
    requires IsHead(initial, es, head)
    ensures IsHead(initial, es + [e], if e.Advance? then e.update else head)
  {
    var all := es + [e];
    if e.Advance? {
      assert all[|es|] == Advance(e.update) && all[|es| + 1..] == [];
    } else if i :| 0 <= i < |es| && es[i] == Advance(head) && forall d | d in es[i + 1..] :: !d.Advance? {
      assert all[i] == es[i] && all[i + 1..] == es[i + 1..] + [e];
    }
  }

  lemma KeptSnoc(update: Option<Update>, es: seq<Event>, e: Event)
    ensures
      var kept := Kept(update, es);
      Kept(update, es + [e]) == if e.Advance? && kept.Some? && kept.value.slot == e.update.slot then None else kept
    ensures NothingStaged(es + [e]) <==> NothingStaged(es) && !e.Stage?
  {
    assert e in es + [e];
  }

  lemma StagedSnoc(initial: Option<Update>, es: seq<Event>, e: Event, staged: Option<Update>)
    requires IsStaged(initial, es, staged)
    ensures IsStaged(initial, es + [e],
                     match e
                     case Stage(u) => Some(u)
                     case Advance(u) => if staged.Some? && staged.value.slot == u.slot then None else staged
                     case _ => staged)
  {
    var all := es + [e];
    KeptSnoc(initial, es, e);
    if e.Stage? {
      assert all[|es| + 1..] == [];
      assert StagedAt(all, |es|, Some(e.update));
    } else if i :| StagedAt(es, i, staged) {
      hide Kept, NothingStaged;
      KeptSnoc(Some(es[i].update), es[i + 1..], e);
      assert all[i] == es[i] && all[i + 1..] == es[i + 1..] + [e];
      assert StagedAt(all, i, Kept(Some(es[i].update), all[i + 1..]));
    }
  }

  /** After every run the detector's slot and store hash are the bridge's head, and its next expected output is
      what was staged. */
  lemma {:induction false} HoldsHeadAndStaged(slot: nat, storeHash: B256, next: Option<Update>, es: seq<Event>)
    requires Runs(Initial(slot, storeHash, next), es)
    ensures
      var t := After(Initial(slot, storeHash, next), es);
      && IsHead(Update(slot, storeHash), es, Update(t.slot, t.storeHash))
      && IsStaged(next, es, t.nextExpectedOutput)
    decreases |es|
  {
    hide Runs, After, Enabled, IsHead, IsStaged;
    var s := Initial(slot, storeHash, next);
    if es == [] {
      EmptyRun(s);
      NothingHappened(slot, storeHash, next);
    } else {
      var n := |es| - 1;
      RunSplit(s, es);
      HoldsHeadAndStaged(slot, storeHash, next, es[..n]);
      var t := After(s, es[..n]);
      HeadSnoc(Update(slot, storeHash), es[..n], es[n], Update(t.slot, t.storeHash));
      StagedSnoc(next, es[..n], es[n], t.nextExpectedOutput);
      assert es == es[..n] + [es[n]];
    }
  }

  lemma NothingHappened(slot: nat, storeHash: B256, next: Option<Update>)
    ensures IsHead(Update(slot, storeHash), [], Update(slot, storeHash)) && IsStaged(next, [], next)
  {
    assert NothingStaged([]) && Kept(next, []) == next;
  }

  /** What a message answers: the bridge's head when it was sent, and the staged window unless it starts there. */
  ghost predicate AnswersHead(head: Update, staged: Option<Update>, d: Dual) {
    && d.currentWindow.inputSlot == head.slot && d.currentWindow.inputStoreHash == head.storeHash
    && (d.nextWindow.Some? <==> staged.Some? && staged.value.slot != head.slot)
    && (d.nextWindow.Some? ==>
          && d.nextWindow.value.inputSlot == staged.value.slot
          && d.nextWindow.value.inputStoreHash == staged.value.storeHash)
  }

  /** A message appears on the output channel only when a result is received, and then it answers the state. */
  lemma SendingAnswers(s: State, e: Event)
    requires Inv(s) && Enabled(s, e)
    ensures Step(s, e).output == s.output || (e == Receive && s.results != [] && s.results[0].Prepared?)
    ensures Step(s, e).output != s.output ==>
              && Step(s, e).output == s.output + [s.results[0].inputs]
              && AnswersHead(Update(s.slot, s.storeHash), s.nextExpectedOutput, s.results[0].inputs)
  {
    hide HistoryInv;
    if e == Receive && !s.stale { FreshResult(s); }
  }

  /** Every message was sent at some result, and answers what the events before that result make the bridge's
      head and the staged window. */
  lemma {:induction false} EveryMessageAnswersTheBridge(slot: nat, storeHash: B256, next: Option<Update>,
                                                        es: seq<Event>,
                                                        d: Dual)
    returns (k: nat, head: Update, staged: Option<Update>)
    requires Runs(Initial(slot, storeHash, next), es)
    requires d in After(Initial(slot, storeHash, next), es).output
    ensures k < |es| && es[k] == Receive
    ensures IsHead(Update(slot, storeHash), es[..k], head) && IsStaged(next, es[..k], staged)
    ensures AnswersHead(head, staged, d)
    decreases |es|
  {
    hide Runs, After, Step, Enabled, IsHead, IsStaged, Inv, AnswersHead;
    var s := Initial(slot, storeHash, next);
    if es == [] {
      EmptyRun(s);
    } else {
      var n := |es| - 1;
      RunSplit(s, es);
      InitialInv(slot, storeHash, next);
      EveryRun(s, es[..n]);
      SendingAnswers(After(s, es[..n]), es[n]);
      if d in After(s, es[..n]).output {
        k, head, staged := EveryMessageAnswersTheBridge(slot, storeHash, next, es[..n], d);
        assert es[..n][..k] == es[..k];
      } else {
        HoldsHeadAndStaged(slot, storeHash, next, es[..n]);
        var t := After(s, es[..n]);
        k, head, staged := n, Update(t.slot, t.storeHash), t.nextExpectedOutput;
      }
    }
  }

  // ----- what the flags cost

  /** A prepared result is dropped exactly when the stale flag is set, and judged at once otherwise. The flag
      says less than its name: with no update since the job started the dropped result was still current. */
  lemma ReceiveVerdict(s: State)
    requires Inv(s) && s.results != [] && s.results[0].Prepared?
    ensures
      var t := AfterReceive(s);
      && (t.history.drops == s.history.drops + 1 <==> s.stale)
      && (s.stale ==> t.jobs == [CurrentJob(s)] && t.inFlight && !t.stale && t.output == s.output)
      && (!s.stale ==>
            var d := s.results[0].inputs;
            var ahead := d.currentWindow.expectedOutputSlot > s.latestSlot;
            var nextAhead := d.nextWindow.Some? ==> d.nextWindow.value.expectedOutputSlot > s.latestSlot;
            && t.output == (if ahead && nextAhead then s.output + [d] else s.output)
            && t.latestSlot == (if ahead then d.currentWindow.expectedOutputSlot else s.latestSlot)
            && t.slot == s.slot && t.storeHash == s.storeHash && t.nextExpectedOutput == s.nextExpectedOutput
            && !t.inFlight && t.jobs == [])
      && (s.history.startedAt == s.history.updates ==> AnswerTo(CurrentJob(s), s.results[0]))
  {
    assert s.results[0] in s.results;
    assert s.inFlight;
  }

  lemma {:induction false} RunSnoc(s: State, es: seq<Event>, t: State, e: Event)
    requires Runs(s, es) && After(s, es) == t && Enabled(t, e)
    ensures Runs(s, es + [e]) && After(s, es + [e]) == Step(t, e)
    decreases es
  {
    if es == [] {
      assert [e][1..] == [];
    } else {
      assert (es + [e])[1..] == es[1..] + [e];
      RunSnoc(Step(s, es[0]), es[1..], t, e);
    }
  }

  /** The flag survives an error: the second job starts after the last update, and its result is dropped
      although it answers the current job. */
  lemma FreshResultDropped(h: B256) returns (es: seq<Event>, s: State)
    ensures Runs(Initial(0, h, None), es) && s == After(Initial(0, h, None), es)
    ensures s.results != [] && s.results[0].Prepared? && AnswerTo(CurrentJob(s), s.results[0])
    ensures s.history.startedAt == s.history.updates == 1
    ensures AfterReceive(s).history.drops == 1 && AfterReceive(s).output == []
  {
    hide Runs, After;
    var s0, staged := Initial(0, h, None), Update(64, h);
    var es5, s5 := StaleAfterError(h);
    var cur, nxt := Window(0, h, 96), Window(64, h, 96);
    var s6 := AfterTick(s5);
    RunSnoc(s0, es5, s5, Tick);
    var s7 := AfterTake(s6);
    RunSnoc(s0, es5 + [Tick], s6, Take);
    s := AfterFinish(s7, Some(cur), Some(nxt));
    RunSnoc(s0, es5 + [Tick] + [Take], s7, Finish(Some(cur), Some(nxt)));
    es := es5 + [Tick] + [Take] + [Finish(Some(cur), Some(nxt))];
  }

  lemma StaleAfterError(h: B256) returns (es: seq<Event>, s: State)
    ensures Runs(Initial(0, h, None), es) && s == After(Initial(0, h, None), es)
    ensures s == Initial(0, h, None).(stale := true, nextExpectedOutput := Some(Update(64, h)), history := s.history)
    ensures s.history.updates == 1 && s.history.drops == 0
  {
    hide Runs, After;
    var s0, staged := Initial(0, h, None), Stage(Update(64, h));
    EmptyRun(s0);
    var s1 := AfterTick(s0);
    RunSnoc(s0, [], s0, Tick);
    var s2 := AfterStage(s1, staged.update);
    RunSnoc(s0, [] + [Tick], s1, staged);
    var s3 := AfterTake(s2);
    RunSnoc(s0, [] + [Tick] + [staged], s2, Take);
    var s4 := AfterFinish(s3, None, None);
    RunSnoc(s0, [] + [Tick] + [staged] + [Take], s3, Finish(None, None));
    s := AfterReceive(s4);
    RunSnoc(s0, [] + [Tick] + [staged] + [Take] + [Finish(None, None)], s4, Receive);
    es := [] + [Tick] + [staged] + [Take] + [Finish(None, None)] + [Receive];
  }

  lemma EmptyRun(s: State)
    ensures Runs(s, []) && After(s, []) == s
  {
  }

  /** At most two rounds: a stale result costs one more round, whose result is judged. */
  lemma SecondRoundIsJudged(s: State, current: Window, next: Option<Window>) returns (es: seq<Event>)
    requires Inv(s) && s.results != [] && s.results[0].Prepared? && s.stale
    requires AnswerTo(CurrentJob(s), Prepared(Dual(current, next)))
    requires Emits(s, Dual(current, next))
    ensures es == [] + [Receive] + [Take] + [Finish(Some(current), next)] + [Receive]
    ensures Runs(s, es) && After(s, es).output == s.output + [Dual(current, next)]
  {
    hide Runs, After, Inv, AnswerTo, Emits;
    EmptyRun(s);
    ReceiveVerdict(s);
    var s1 := AfterReceive(s);
    RunSnoc(s, [], s, Receive);
    StaleRound(s);
    AnsweringIsEnabled(s1, current, next);
    var s2 := AfterTake(s1);
    RunSnoc(s, [] + [Receive], s1, Take);
    var s3 := AfterFinish(s2, Some(current), next);
    RunSnoc(s, [] + [Receive] + [Take], s2, Finish(Some(current), next));
    RunSnoc(s, [] + [Receive] + [Take] + [Finish(Some(current), next)], s3, Receive);
    assert s3.results == [Prepared(Dual(current, next))];
    FinishThenReceive(s, s3, Dual(current, next));
    es := [] + [Receive] + [Take] + [Finish(Some(current), next)] + [Receive];
  }

  lemma StaleRound(s: State)
    requires Inv(s) && s.results != [] && s.results[0].Prepared? && s.stale
    ensures AfterReceive(s).busy.None? && AfterReceive(s).results == []
    ensures CurrentJob(AfterReceive(s)) == CurrentJob(s) && AfterReceive(s).jobs == [CurrentJob(s)]
  {
  }

  lemma AnsweringIsEnabled(s: State, current: Window, next: Option<Window>)
    requires s.jobs == [CurrentJob(s)] && s.busy.None?
    requires AnswerTo(CurrentJob(s), Prepared(Dual(current, next)))
    ensures Enabled(AfterTake(s), Finish(Some(current), next))
    ensures AnswerOf(CurrentJob(s), Some(current), next) == Prepared(Dual(current, next))
  {
  }

  lemma FinishThenReceive(s: State, t: State, d: Dual)
    requires t.results == [Prepared(d)] && !t.stale && t.output == s.output
    requires t.slot == s.slot && t.latestSlot == s.latestSlot && Emits(s, d)
    ensures AfterReceive(t).output == s.output + [d]
  {
  }

  /** `latest_slot` is the slot last accepted, whether or not that result was sent. It is not sent exactly
      when its next window lags behind, and then the slot is consumed without any message. */
  lemma LatestSlotMayBeSilent(s: State)
    requires Inv(s) && s.history.accepted != []
    requires s.history.accepted[|s.history.accepted| - 1].advances == s.history.advances
    ensures
      var log := s.history.accepted;
      var last := log[|log| - 1];
      var next := last.message.nextWindow;
      && s.latestSlot == last.message.currentWindow.expectedOutputSlot
      && (last.emitted <==> next.Some? ==> next.value.expectedOutputSlot > last.latestBefore)
      && s.output == Sent(log[..|log| - 1]) + (if last.emitted then [last.message] else [])
  {
    var log := s.history.accepted;
    assert log[|log| - 1] in log;
  }

  /** A run that consumes a slot, staging what was sent before: 96 is sent and staged, 128 is sent with a next
      window that ends at 128, and then 160 is accepted with a next window that still ends at 128, so nothing
      is sent; any later answer that ends at 160 is ignored. */
  lemma SlotConsumedSilently(h: B256) returns (es: seq<Event>, s: State)
    ensures Runs(Initial(0, h, None), es) && s == After(Initial(0, h, None), es)
    ensures s.latestSlot == 160
    ensures s.output == [Dual(Window(0, h, 96), None), Dual(Window(0, h, 128), Some(Window(96, h, 128)))]
    ensures forall d: Dual | d.currentWindow.expectedOutputSlot <= 160 :: Judged(s, d).output == s.output
  {
    hide Runs, After;
    var s0, nxt := Initial(0, h, None), Window(96, h, 128);
    var es4, s4 := FirstSlotSent(h);
    var s5 := AfterStage(s4, Update(96, h));
    RunSnoc(s0, es4, s4, Stage(Update(96, h)));
    var es8, s8 := Round(s0, es4 + [Stage(Update(96, h))], s5, Window(0, h, 128), nxt);
    es, s := Round(s0, es8, s8, Window(0, h, 160), nxt);
  }

  /** A job from tick to result, with a next window. */
  lemma Round(s0: State, before: seq<Event>, s: State, current: Window, next: Window) returns (es: seq<Event>, t: State)
    requires Runs(s0, before) && After(s0, before) == s
    requires !s.inFlight && s.jobs == [] && s.busy.None? && s.results == [] && !s.stale
    requires AnswerTo(CurrentJob(s), Prepared(Dual(current, Some(next))))
    ensures Runs(s0, es) && After(s0, es) == t
    ensures t.slot == s.slot && t.storeHash == s.storeHash && t.nextExpectedOutput == s.nextExpectedOutput
    ensures !t.inFlight && t.jobs == [] && t.busy.None? && t.results == [] && !t.stale
    ensures t.latestSlot == if Accepts(s, Dual(current, Some(next))) then current.expectedOutputSlot else s.latestSlot
    ensures t.output == if Emits(s, Dual(current, Some(next))) then s.output + [Dual(current, Some(next))] else s.output
  {
    hide Runs, After;
    var s1 := AfterTick(s);
    RunSnoc(s0, before, s, Tick);
    var s2 := AfterTake(s1);
    RunSnoc(s0, before + [Tick], s1, Take);
    var s3 := AfterFinish(s2, Some(current), Some(next));
    RunSnoc(s0, before + [Tick] + [Take], s2, Finish(Some(current), Some(next)));
    t := AfterReceive(s3);
    es := before + [Tick] + [Take] + [Finish(Some(current), Some(next))] + [Receive];
    RunSnoc(s0, before + [Tick] + [Take] + [Finish(Some(current), Some(next))], s3, Receive);
  }

  lemma FirstSlotSent(h: B256) returns (es: seq<Event>, s: State)
    ensures Runs(Initial(0, h, None), es) && s == After(Initial(0, h, None), es)
    ensures s == Initial(0, h, None).(latestSlot := 96, output := [Dual(Window(0, h, 96), None)], history := s.history)
  {
    hide Runs, After;
    var s0, cur := Initial(0, h, None), Window(0, h, 96);
    EmptyRun(s0);
    var s1 := AfterTick(s0);
    RunSnoc(s0, [], s0, Tick);
    var s2 := AfterTake(s1);
    RunSnoc(s0, [] + [Tick], s1, Take);
    var s3 := AfterFinish(s2, Some(cur), None);
    RunSnoc(s0, [] + [Tick] + [Take], s2, Finish(Some(cur), None));
    s := AfterReceive(s3);
    RunSnoc(s0, [] + [Tick] + [Take] + [Finish(Some(cur), None)], s3, Receive);
    es := [] + [Tick] + [Take] + [Finish(Some(cur), None)] + [Receive];
  }
}
