/** Model of the polling loop in `off-chain/cmd/node/main.go`. The methods follow the Go code, with map ranges
    in arbitrary order and any call failing; each of them records the steps it takes, and the safety properties
    are proved of every run of steps. */
module TaskPoller {
  import opened Common

  type ChainId(==, !new)
  type TaskId(==, !new)
  type RequestHash(==, !new)

  type Proof = seq<Byte>

  datatype Status = Created | Responded | Expired | NotFound

  /** A Go slice that is nil is None. */
  datatype Entry = Entry(
    chain: ChainId, result: nat, epoch: nat, requestHash: RequestHash, aggProof: Option<Proof>,
    statuses: map<ChainId, Status>)

  /** What the relay returns for a signing request. */
  datatype Signed = Signed(epoch: nat, requestHash: RequestHash)

  /** A task-creation event of a chain, with its place there. */
  datatype CreateTask = CreateTask(block: nat, index: nat, id: TaskId, numberA: nat, numberB: nat)

  /** An event with the replies to the calls made for it; None is an error. */
  datatype NewTask = NewTask(log: CreateTask, status: Option<Status>, signed: Option<Signed>)

  // ----- what is registered from a window

  /** One of the calls made for the event fails. */
  predicate Fails(v: NewTask) {
    v.status.None? || (v.status.value == Created && v.signed.None?)
  }

  /** The events before the first one for which a call fails. */
  function Usable(events: seq<NewTask>): (u: seq<NewTask>)
    ensures u <= events && forall i | 0 <= i < |u| :: !Fails(u[i])
    ensures u == events || Fails(events[|u|])
  {
    if events == [] || Fails(events[0]) then [] else [events[0]] + Usable(events[1..])
  }

  function EntryOf(chain: ChainId, log: CreateTask, signed: Signed): Entry {
    Entry(chain, log.numberA + log.numberB, signed.epoch, signed.requestHash, None, map[])
  }

  /** The steps that register the tasks of the events whose chain reports them as created. */
  function RegisterSteps(chain: ChainId, events: seq<NewTask>): seq<Step>
    requires forall i | 0 <= i < |events| :: !Fails(events[i])
  {
    if events == [] then []
    else
      var v, rest := events[0], RegisterSteps(chain, events[1..]);
      assert !Fails(v);
      if v.status.value == Created then [Register(chain, v.log, v.signed.value)] + rest else rest
  }

  // ----- the steps

  datatype Step =
    | Scan(chain: ChainId, first: nat, last: nat, events: seq<NewTask>)
    | Register(chain: ChainId, log: CreateTask, signed: Signed)
    | ReadStatus(task: TaskId, chain: ChainId, status: Status)
    | Delete(task: TaskId)
    | Fetch(task: TaskId, requestHash: RequestHash, proof: Option<Proof>)
    | Respond(task: TaskId, chain: ChainId, result: nat, epoch: nat, proof: Option<Proof>)

  /** The two maps, the tasks for which the relay has delivered a proof, and what is still to be registered
      from the window just scanned. */
  datatype State = State(
    tasks: map<TaskId, Entry>, lastBlocks: map<ChainId, nat>, fetched: set<TaskId>, pending: seq<Step>)

  const Start: State := State(map[], map[], {}, [])

  /** A missing key reads as zero, which is `TaskCreated`. */
  function StatusOf(e: Entry, c: ChainId): Status {
    if c in e.statuses then e.statuses[c] else Created
  }

  function LastBlock(s: State, c: ChainId): nat { WindowStart(s.lastBlocks, c) }

  function WindowStart(lastBlocks: map<ChainId, nat>, c: ChainId): nat {
    if c in lastBlocks then lastBlocks[c] else 0
  }

  predicate AllResponded(e: Entry) {
    forall c | c in e.statuses :: e.statuses[c] == Responded
  }

  predicate AllGone(e: Entry) {
    forall c | c in e.statuses :: e.statuses[c] == NotFound || e.statuses[c] == Expired
  }

  predicate Settled(e: Entry) {
    AllGone(e) || AllResponded(e)
  }

  /** All chains have been read and the entry is kept. */
  predicate Open(chains: set<ChainId>, tasks: map<TaskId, Entry>, t: TaskId) {
    t in tasks && tasks[t].statuses.Keys == chains && !Settled(tasks[t])
  }

  /** A window's tasks are registered before anything else happens. */
  predicate Enabled(chains: set<ChainId>, s: State, step: Step) {
    if s.pending != [] then step.Register? && step == s.pending[0]
    else
      match step
      case Scan(c, first, _, _) => c in chains && first == LastBlock(s, c)
      case Register(_, _, _) => false
      case ReadStatus(t, c, _) => t in s.tasks && c in chains && StatusOf(s.tasks[t], c) != Responded
      case Delete(t) => t in s.tasks && s.tasks[t].statuses.Keys == chains && Settled(s.tasks[t])
      case Fetch(t, hash, _) => Open(chains, s.tasks, t) && s.tasks[t].aggProof.None? && hash == s.tasks[t].requestHash
      case Respond(t, c, result, epoch, proof) =>
        && Open(chains, s.tasks, t) && c in chains && StatusOf(s.tasks[t], c) != Responded && t in s.fetched
        && result == s.tasks[t].result && epoch == s.tasks[t].epoch && proof == s.tasks[t].aggProof
  }

  function Apply(s: State, step: Step): State {
    match step
    case Scan(c, _, last, events) =>
      s.(lastBlocks := s.lastBlocks[c := last + 1], pending := RegisterSteps(c, Usable(events)))
    case Register(c, log, signed) =>
      s.(tasks := s.tasks[log.id := EntryOf(c, log, signed)], fetched := s.fetched - {log.id},
         pending := if s.pending == [] then [] else s.pending[1..])
    case ReadStatus(t, c, status) =>
      if t in s.tasks then s.(tasks := s.tasks[t := s.tasks[t].(statuses := s.tasks[t].statuses[c := status])]) else s
    case Delete(t) => s.(tasks := s.tasks - {t}, fetched := s.fetched - {t})
    case Fetch(t, _, proof) =>
      if t in s.tasks then s.(tasks := s.tasks[t := s.tasks[t].(aggProof := proof)], fetched := s.fetched + {t}) else s
    case Respond(_, _, _, _, _) => s
  }

  function After(trace: seq<Step>): State {
    if trace == [] then Start else Apply(After(trace[..|trace| - 1]), trace[|trace| - 1])
  }

  predicate Run(chains: set<ChainId>, trace: seq<Step>) {
    trace == []
    || (Run(chains, trace[..|trace| - 1]) && Enabled(chains, After(trace[..|trace| - 1]), trace[|trace| - 1]))
  }

  lemma Extend(chains: set<ChainId>, trace: seq<Step>, step: Step)
    ensures After(trace + [step]) == Apply(After(trace), step)
    ensures Run(chains, trace + [step]) <==> Run(chains, trace) && Enabled(chains, After(trace), step)
  {
    assert (trace + [step])[..|trace|] == trace;
  }

  /** A run without its last step is a run that enables it. */
  lemma LastStep(chains: set<ChainId>, trace: seq<Step>)
    requires trace != [] && Run(chains, trace)
    ensures
      var before, step := trace[..|trace| - 1], trace[|trace| - 1];
      Run(chains, before) && Enabled(chains, After(before), step) && After(trace) == Apply(After(before), step)
  {
  }

  // ----- what a run says about its past

  /** The latest registration of a task. */
  function LastRegistered(trace: seq<Step>, t: TaskId): Option<Entry> {
    if trace == [] then None
    else
      match trace[|trace| - 1]
      case Register(c, log, signed) =>
        if log.id == t then Some(EntryOf(c, log, signed)) else LastRegistered(trace[..|trace| - 1], t)
      case _ => LastRegistered(trace[..|trace| - 1], t)
  }

  /** The latest status read from a chain since the latest registration. */
  function LastRead(trace: seq<Step>, t: TaskId, c: ChainId): Option<Status> {
    if trace == [] then None
    else
      match trace[|trace| - 1]
      case Register(_, log, _) => if log.id == t then None else LastRead(trace[..|trace| - 1], t, c)
      case ReadStatus(u, d, status) => if u == t && d == c then Some(status) else LastRead(trace[..|trace| - 1], t, c)
      case _ => LastRead(trace[..|trace| - 1], t, c)
  }

  /** The latest proof the relay delivered since the latest registration. */
  function LastFetched(trace: seq<Step>, t: TaskId): Option<Option<Proof>> {
    if trace == [] then None
    else
      match trace[|trace| - 1]
      case Register(_, log, _) => if log.id == t then None else LastFetched(trace[..|trace| - 1], t)
      case Fetch(u, _, proof) => if u == t then Some(proof) else LastFetched(trace[..|trace| - 1], t)
      case _ => LastFetched(trace[..|trace| - 1], t)
  }

  /** The entry of a task is its latest registration with the proof delivered for it. */
  ghost predicate RemembersProof(trace: seq<Step>, t: TaskId) {
    var s := After(trace);
    t in s.tasks ==>
      var e := s.tasks[t];
      && LastRegistered(trace, t).Some?
      && e == LastRegistered(trace, t).value.(aggProof := e.aggProof, statuses := e.statuses)
      && LastFetched(trace, t) == (if t in s.fetched then Some(e.aggProof) else None)
      && (e.aggProof.Some? ==> t in s.fetched)
  }

  /** The statuses of a task's entry are those read since its latest registration. */
  ghost predicate RemembersStatus(chains: set<ChainId>, trace: seq<Step>, t: TaskId, c: ChainId) {
    var s := After(trace);
    t in s.tasks ==>
      && s.tasks[t].statuses.Keys <= chains
      && LastRead(trace, t, c) == if c in s.tasks[t].statuses then Some(s.tasks[t].statuses[c]) else None
  }

  lemma {:induction false} RunRemembersProof(chains: set<ChainId>, trace: seq<Step>, t: TaskId)
    requires Run(chains, trace)
    ensures RemembersProof(trace, t)
  {
    if trace != [] {
      LastStep(chains, trace);
      RunRemembersProof(chains, trace[..|trace| - 1], t);
      hide After, Run;
      match trace[|trace| - 1] {
        case Scan(_, _, _, _) =>
        case Register(_, _, _) =>
        case ReadStatus(_, _, _) =>
        case Delete(_) =>
        case Fetch(_, _, _) =>
        case Respond(_, _, _, _, _) =>
      }
    }
  }

  lemma {:induction false} RunRemembersStatus(chains: set<ChainId>, trace: seq<Step>, t: TaskId, c: ChainId)
    requires Run(chains, trace)
    ensures RemembersStatus(chains, trace, t, c)
  {
    if trace != [] {
      LastStep(chains, trace);
      RunRemembersStatus(chains, trace[..|trace| - 1], t, c);
      hide After, Run;
    }
  }

  predicate Registers(step: Step, t: TaskId) {
    step.Register? && step.log.id == t
  }

  /** The registration of the task by step i is the latest one in the trace. */
  ghost predicate LatestRegistration(trace: seq<Step>, i: int, t: TaskId) {
    && 0 <= i < |trace| && Registers(trace[i], t)
    && forall step | step in trace[i + 1..] :: !Registers(step, t)
  }

  /** What the latest registration of a task says, taken from its event and the relay's answer. */
  lemma {:induction false} RegistrationMeans(trace: seq<Step>, t: TaskId) returns (i: nat)
    requires LastRegistered(trace, t).Some?
    ensures LatestRegistration(trace, i, t)
    ensures
      var e, step := LastRegistered(trace, t).value, trace[i];
      && e.result == step.log.numberA + step.log.numberB
      && e.epoch == step.signed.epoch && e.requestHash == step.signed.requestHash && e.chain == step.chain
  {
    var n := |trace| - 1;
    if Registers(trace[n], t) {
      i := n;
    } else {
      i := RegistrationMeans(trace[..n], t);
      assert trace[..n][i] == trace[i] && trace[i + 1..] == trace[..n][i + 1..] + [trace[n]];
    }
  }

  /** Every response belongs to the latest registration of its task: it carries the sum of the two numbers of
      the registered event, the epoch of its signature and the proof the relay delivered for it, and goes to a
      chain that was last read as not responded, after every chain was read. */
  lemma ResponseIsBacked(chains: set<ChainId>, trace: seq<Step>, t: TaskId, c: ChainId, result: nat, epoch: nat,
                         proof: Option<Proof>) returns (i: nat)
    requires Run(chains, trace + [Respond(t, c, result, epoch, proof)])
    ensures LatestRegistration(trace, i, t)
    ensures result == trace[i].log.numberA + trace[i].log.numberB && epoch == trace[i].signed.epoch
    ensures LastFetched(trace, t) == Some(proof)
    ensures forall d | d in chains :: LastRead(trace, t, d).Some?
    ensures c in chains && LastRead(trace, t, c) != Some(Responded)
  {
    Extend(chains, trace, Respond(t, c, result, epoch, proof));
    RunRemembersProof(chains, trace, t);
    RunRemembersStatus(chains, trace, t, c);
    forall d | d in chains ensures LastRead(trace, t, d).Some? { RunRemembersStatus(chains, trace, t, d); }
    i := RegistrationMeans(trace, t);
  }

  /** The relay is asked for the proof of the request that the latest registration of the task led to. */
  lemma FetchIsBacked(chains: set<ChainId>, trace: seq<Step>, t: TaskId, hash: RequestHash, proof: Option<Proof>)
    returns (i: nat)
    requires Run(chains, trace + [Fetch(t, hash, proof)])
    ensures LatestRegistration(trace, i, t) && hash == trace[i].signed.requestHash
  {
    Extend(chains, trace, Fetch(t, hash, proof));
    RunRemembersProof(chains, trace, t);
    i := RegistrationMeans(trace, t);
  }

  /** A task is deleted only when every chain was last read as responded, or every chain as not found or
      expired. */
  lemma DeletedOnlyWhenSettled(chains: set<ChainId>, trace: seq<Step>, t: TaskId)
    requires Run(chains, trace + [Delete(t)])
    ensures
      || (forall c | c in chains :: LastRead(trace, t, c) == Some(Responded))
      || (forall c | c in chains :: LastRead(trace, t, c) == Some(NotFound) || LastRead(trace, t, c) == Some(Expired))
  {
    Extend(chains, trace, Delete(t));
    forall c | c in chains ensures LastRead(trace, t, c) == Some(After(trace).tasks[t].statuses[c]) {
      RunRemembersStatus(chains, trace, t, c);
    }
  }

  /** Within the life of an entry a chain that was read as responded stays so: it is not read again and gets
      no response. */
  lemma {:induction false} RespondedIsFinal(chains: set<ChainId>, before: seq<Step>, t: TaskId, c: ChainId,
                                            later: seq<Step>)
    requires Run(chains, before + [ReadStatus(t, c, Responded)] + later)
    requires forall i | 0 <= i < |later| :: !Registers(later[i], t)
    ensures forall i | 0 <= i < |later| ::
              && !(later[i].ReadStatus? && later[i].task == t && later[i].chain == c)
              && !(later[i].Respond? && later[i].task == t && later[i].chain == c)
    ensures
      var s := After(before + [ReadStatus(t, c, Responded)] + later);
      t in s.tasks ==> StatusOf(s.tasks[t], c) == Responded
    decreases |later|
  {
    hide After, Run, Enabled, Apply;
    var trace := before + [ReadStatus(t, c, Responded)];
    if later == [] {
      assert trace + later == trace;
      Extend(chains, before, ReadStatus(t, c, Responded));
      ReadIsResponded(After(before), t, c);
    } else {
      var n := |later| - 1;
      assert trace + later == (trace + later[..n]) + [later[n]];
      Extend(chains, trace + later[..n], later[n]);
      RespondedIsFinal(chains, before, t, c, later[..n]);
      StaysResponded(chains, After(trace + later[..n]), later[n], t, c);
    }
  }

  lemma ReadIsResponded(s: State, t: TaskId, c: ChainId)
    ensures
      var u := Apply(s, ReadStatus(t, c, Responded));
      t in u.tasks ==> StatusOf(u.tasks[t], c) == Responded
  {
  }

  lemma StaysResponded(chains: set<ChainId>, s: State, step: Step, t: TaskId, c: ChainId)
    requires Enabled(chains, s, step) && !Registers(step, t) && (t in s.tasks ==> StatusOf(s.tasks[t], c) == Responded)
    ensures !(step.ReadStatus? && step.task == t && step.chain == c)
    ensures !(step.Respond? && step.task == t && step.chain == c)
    ensures t in Apply(s, step).tasks ==> StatusOf(Apply(s, step).tasks[t], c) == Responded
  {
  }

  // ----- the scanned blocks

  function Range(first: nat, end: nat): (r: seq<nat>)
    ensures |r| == if first <= end then end - first else 0
    ensures forall i | 0 <= i < |r| :: r[i] == first + i
    decreases end
  {
    if end <= first then [] else Range(first, end - 1) + [end - 1]
  }

  /** The blocks of a chain in the order they were scanned. */
  function Scanned(trace: seq<Step>, c: ChainId): seq<nat> {
    if trace == [] then []
    else
      match trace[|trace| - 1]
      case Scan(d, first, last, _) =>
        if d == c then Scanned(trace[..|trace| - 1], c) + Range(first, last + 1) else Scanned(trace[..|trace| - 1], c)
      case _ => Scanned(trace[..|trace| - 1], c)
  }

  predicate ScanGrows(step: Step, c: ChainId) {
    step.Scan? && step.chain == c ==> step.first <= step.last + 1
  }

  /** The finalized heads of a chain never go back. */
  ghost predicate HeadsGrow(trace: seq<Step>, c: ChainId) {
    forall i | 0 <= i < |trace| :: ScanGrows(trace[i], c)
  }

  lemma HeadsGrowSnoc(trace: seq<Step>, c: ChainId)
    requires trace != []
    ensures HeadsGrow(trace, c) <==> HeadsGrow(trace[..|trace| - 1], c) && ScanGrows(trace[|trace| - 1], c)
  {
    assert trace == trace[..|trace| - 1] + [trace[|trace| - 1]];
  }

  lemma {:induction false} WindowsTileForward(chains: set<ChainId>, trace: seq<Step>, c: ChainId)
    requires Run(chains, trace)
    ensures |Scanned(trace, c)| >= LastBlock(After(trace), c)
    ensures |Scanned(trace, c)| == LastBlock(After(trace), c) <==> HeadsGrow(trace, c)
    ensures HeadsGrow(trace, c) ==> Scanned(trace, c) == Range(0, LastBlock(After(trace), c))
  {
    hide HeadsGrow, Range, After, Run, Enabled, Scanned, LastBlock;
    if trace == [] {
      NothingScanned(chains, trace, c);
    } else {
      var n := |trace| - 1;
      ScanStep(chains, trace, c);
      WindowsTileForward(chains, trace[..n], c);
      HeadsGrowSnoc(trace, c);
      if trace[n].Scan? && trace[n].chain == c {
        RangesJoin(LastBlock(After(trace[..n]), c), trace[n].last + 1);
      }
    }
  }

  lemma ScanStep(chains: set<ChainId>, trace: seq<Step>, c: ChainId)
    requires trace != [] && Run(chains, trace)
    ensures
      var before, step := trace[..|trace| - 1], trace[|trace| - 1];
      var from := LastBlock(After(before), c);
      Run(chains, before) &&
      if step.Scan? && step.chain == c then
        && step.first == from && LastBlock(After(trace), c) == step.last + 1
        && Scanned(trace, c) == Scanned(before, c) + Range(from, step.last + 1)
      else LastBlock(After(trace), c) == from && Scanned(trace, c) == Scanned(before, c)
  {
    LastStep(chains, trace);
    hide Range, After, Run;
  }

  lemma NothingScanned(chains: set<ChainId>, trace: seq<Step>, c: ChainId)
    requires trace == []
    ensures Scanned(trace, c) == [] == Range(0, 0) && LastBlock(After(trace), c) == 0 && HeadsGrow(trace, c)
  {
  }

  lemma RangesJoin(middle: nat, end: nat)
    ensures |Range(0, middle)| == middle
    ensures |Range(middle, end)| == if middle <= end then end - middle else 0
    ensures middle <= end ==> Range(0, middle) + Range(middle, end) == Range(0, end)
  {
  }

  /** The scan windows of a chain tile its blocks - every block before the next window was scanned exactly
      once, in order - exactly when the chain's finalized head never went back. */
  lemma WindowsTile(chains: set<ChainId>, trace: seq<Step>, c: ChainId)
    requires Run(chains, trace)
    ensures Scanned(trace, c) == Range(0, LastBlock(After(trace), c)) <==> HeadsGrow(trace, c)
  {
    hide After, Scanned, HeadsGrow;
    WindowsTileForward(chains, trace, c);
  }

  lemma LastBlockMoves(chains: set<ChainId>, trace: seq<Step>, step: Step, c: ChainId)
    requires Run(chains, trace + [step])
    ensures Run(chains, trace)
    ensures
      var from, to := LastBlock(After(trace), c), LastBlock(After(trace + [step]), c);
      if step.Scan? && step.chain == c then step.first == from && to == step.last + 1 else to == from
  {
    Extend(chains, trace, step);
  }

  /** A window that was taken over is not scanned again. */
  lemma {:induction false} NeverScannedAgain(chains: set<ChainId>, trace: seq<Step>, later: seq<Step>, c: ChainId)
    requires Run(chains, trace + later) && HeadsGrow(later, c)
    ensures LastBlock(After(trace + later), c) >= LastBlock(After(trace), c)
    ensures forall i | 0 <= i < |later| ::
              later[i].Scan? && later[i].chain == c ==> later[i].first >= LastBlock(After(trace), c)
    decreases |later|
  {
    hide After, Run, HeadsGrow, Enabled, LastBlock, WindowStart;
    if later == [] {
      assert trace + later == trace;
    } else {
      var n := |later| - 1;
      assert trace + later == (trace + later[..n]) + [later[n]];
      LastBlockMoves(chains, trace + later[..n], later[n], c);
      HeadsGrowSnoc(later, c);
      NeverScannedAgain(chains, trace, later[..n], c);
    }
  }

  // ----- which events are registered

  /** The step registers one of the tasks that the scan leaves to be registered. */
  predicate Owed(scan: Step, step: Step) {
    scan.Scan? && step in RegisterSteps(scan.chain, Usable(scan.events))
  }

  lemma {:induction false} InRegisterSteps(chain: ChainId, events: seq<NewTask>, step: Step)
    requires forall i | 0 <= i < |events| :: !Fails(events[i])
    ensures step in RegisterSteps(chain, events) <==>
            exists v | v in events :: v.status == Some(Created) && v.signed.Some?
                && step == Register(chain, v.log, v.signed.value)
  {
    if events != [] {
      InRegisterSteps(chain, events[1..], step);
      assert !Fails(events[0]);
      assert events == [events[0]] + events[1..];
    }
  }

  /** What is registered or still to be registered comes from a scan before. */
  ghost predicate FromScans(trace: seq<Step>) {
    && (forall step | step in After(trace).pending :: ScannedBy(trace, step))
    && forall step | step in trace :: step.Register? ==> ScannedBy(trace, step)
  }

  ghost predicate ScannedBy(trace: seq<Step>, step: Step) {
    exists scan :: scan in trace && Owed(scan, step)
  }

  lemma {:induction false} RunFromScans(chains: set<ChainId>, trace: seq<Step>)
    requires Run(chains, trace)
    ensures FromScans(trace)
  {
    if trace != [] {
      var before, last := trace[..|trace| - 1], trace[|trace| - 1];
      RunFromScans(chains, before);
      assert trace == before + [last];
      PendingMoves(chains, before, last);
      hide After, Run, Enabled, Owed;
      forall step | ScannedBy(before, step) ensures ScannedBy(trace, step) {
        var scan :| scan in before && Owed(scan, step);
        assert scan in trace;
      }
      forall step | Owed(last, step) ensures ScannedBy(trace, step) {
        assert last in trace;
      }
    }
  }

  /** Where a step leaves the registrations that are still to be made. */
  lemma PendingMoves(chains: set<ChainId>, trace: seq<Step>, step: Step)
    requires Run(chains, trace + [step])
    ensures
      var from, to := After(trace).pending, After(trace + [step]).pending;
      && Run(chains, trace)
      && (step.Register? ==> from != [] && step == from[0] && to == from[1..])
      && (step.Scan? ==> from == [] && forall r :: r in to <==> Owed(step, r))
      && (!step.Register? && !step.Scan? ==> from == to == [])
  {
    Extend(chains, trace, step);
  }

  /** What a scan leaves to be registered is registered, or still to be. */
  lemma {:induction false} ScansAreRegistered(chains: set<ChainId>, trace: seq<Step>, scan: Step, step: Step)
    requires Run(chains, trace) && scan in trace && Owed(scan, step)
    ensures step in trace || step in After(trace).pending
  {
    var before, last := trace[..|trace| - 1], trace[|trace| - 1];
    assert trace == before + [last];
    PendingMoves(chains, before, last);
    hide After, Run, Enabled, Owed;
    if scan in before {
      ScansAreRegistered(chains, before, scan, step);
      if step in After(before).pending && last.Register? {
        assert After(before).pending == [last] + After(trace).pending;
      }
    }
  }

  /** The events a chain returns for a window are events of the blocks of the window. */
  ghost predicate LogsInWindows(trace: seq<Step>, c: ChainId) {
    forall scan | scan in trace && scan.Scan? && scan.chain == c ::
      forall v | v in scan.events :: scan.first <= v.log.block <= scan.last
  }

  /** The scan reaches the event and its chain reports the task as created. */
  predicate Reaches(scan: Step, log: CreateTask) {
    scan.Scan? && exists v | v in Usable(scan.events) :: v.status == Some(Created) && v.log == log
  }

  /** An event is reached when its chain reports it as created, it can be signed, and no call fails for an event
      before it; events that are not reported as created are passed over. */
  lemma {:induction false} ReachesMeans(events: seq<NewTask>, log: CreateTask)
    ensures (exists v | v in Usable(events) :: v.status == Some(Created) && v.log == log) <==>
            exists k :: 0 <= k < |events| && ReachedAt(events, k, log)
  {
    var usable := Usable(events);
    if v :| v in usable && v.status == Some(Created) && v.log == log {
      var k :| 0 <= k < |usable| && usable[k] == v;
      assert forall j | 0 <= j <= k :: usable[j] == events[j] && !Fails(usable[j]);
      assert ReachedAt(events, k, log);
    }
    if k :| 0 <= k < |events| && ReachedAt(events, k, log) {
      NoneFails(events, k, log);
      assert usable[k] in usable;
    }
  }

  lemma NoneFails(events: seq<NewTask>, k: nat, log: CreateTask)
    requires k < |events| && ReachedAt(events, k, log)
    ensures k < |Usable(events)| && Usable(events)[k] == events[k]
  {
    assert forall j | 0 <= j <= k :: !Fails(events[j]);
  }

  predicate ReachedAt(events: seq<NewTask>, k: int, log: CreateTask)
    requires 0 <= k < |events|
  {
    && events[k].log == log && events[k].status == Some(Created)
    && forall j | 0 <= j <= k ::
         events[j].status.Some? && (events[j].status == Some(Created) ==> events[j].signed.Some?)
  }

  ghost predicate Registered(trace: seq<Step>, c: ChainId, log: CreateTask) {
    exists step | step in trace :: step.Register? && step.chain == c && step.log == log
  }

  lemma OwedMeansReached(scan: Step, log: CreateTask)
    requires scan.Scan?
    ensures Reaches(scan, log) <==> exists signed :: Owed(scan, Register(scan.chain, log, signed))
  {
    var usable := Usable(scan.events);
    if Reaches(scan, log) {
      var v :| v in usable && v.status == Some(Created) && v.log == log;
      assert !Fails(v);
      InRegisterSteps(scan.chain, usable, Register(scan.chain, log, v.signed.value));
    }
    if signed :| Owed(scan, Register(scan.chain, log, signed)) {
      InRegisterSteps(scan.chain, usable, Register(scan.chain, log, signed));
    }
  }

  /** Two windows of a chain have no block in common. */
  lemma WindowsAreDisjoint(chains: set<ChainId>, trace: seq<Step>, i: nat, j: nat, c: ChainId, block: nat)
    requires Run(chains, trace) && HeadsGrow(trace, c) && i < j < |trace|
    requires trace[i].Scan? && trace[i].chain == c && trace[j].Scan? && trace[j].chain == c
    ensures !(block <= trace[i].last && trace[j].first <= block)
  {
    hide Run, ScanGrows;
    var before, scan, later := trace[..i], trace[i], trace[i + 1..];
    assert trace == before + [scan] + later;
    assert HeadsGrow(later, c) by {
      forall k | 0 <= k < |later| ensures ScanGrows(later[k], c) { assert later[k] == trace[i + 1 + k]; }
    }
    LaterWindows(chains, before, scan, later, c);
    assert later[j - i - 1] == trace[j];
  }

  lemma LaterWindows(chains: set<ChainId>, before: seq<Step>, scan: Step, later: seq<Step>, c: ChainId)
    requires Run(chains, before + [scan] + later) && HeadsGrow(later, c) && scan.Scan? && scan.chain == c
    ensures forall k | 0 <= k < |later| :: later[k].Scan? && later[k].chain == c ==> later[k].first > scan.last
  {
    hide Run, After, HeadsGrow;
    RunPrefix(chains, before + [scan], later);
    LastBlockMoves(chains, before, scan, c);
    NeverScannedAgain(chains, before + [scan], later, c);
  }

  lemma {:induction false} RunPrefix(chains: set<ChainId>, trace: seq<Step>, later: seq<Step>)
    requires Run(chains, trace + later)
    ensures Run(chains, trace)
    decreases |later|
  {
    if later == [] {
      assert trace + later == trace;
    } else {
      assert trace + later == (trace + later[..|later| - 1]) + [later[|later| - 1]];
      Extend(chains, trace + later[..|later| - 1], later[|later| - 1]);
      RunPrefix(chains, trace, later[..|later| - 1]);
    }
  }

  /** An event is registered in a run exactly when the one window that holds its block reaches it and its chain
      reports the task as created: before that window's first failing call, or never. */
  lemma RegisteredExactly(chains: set<ChainId>, trace: seq<Step>, i: nat, c: ChainId, log: CreateTask)
    requires Run(chains, trace) && HeadsGrow(trace, c) && LogsInWindows(trace, c)
    requires i < |trace| && trace[i].Scan? && trace[i].chain == c && trace[i].first <= log.block <= trace[i].last
    ensures Registered(trace, c, log) ==> Reaches(trace[i], log)
    ensures After(trace).pending == [] ==> (Registered(trace, c, log) <==> Reaches(trace[i], log))
  {
    hide Run, After, HeadsGrow, Owed, Reaches;
    OwedMeansReached(trace[i], log);
    if Registered(trace, c, log) {
      RunFromScans(chains, trace);
      var step :| step in trace && step.Register? && step.chain == c && step.log == log;
      var scan :| scan in trace && Owed(scan, step);
      SameWindow(chains, trace, i, scan, c, step);
      OwedMeansReached(scan, log);
    }
    if Reaches(trace[i], log) {
      var signed :| Owed(trace[i], Register(c, log, signed));
      ScansAreRegistered(chains, trace, trace[i], Register(c, log, signed));
    }
  }

  lemma SameWindow(chains: set<ChainId>, trace: seq<Step>, i: nat, scan: Step, c: ChainId, step: Step)
    requires Run(chains, trace) && HeadsGrow(trace, c) && LogsInWindows(trace, c)
    requires i < |trace| && trace[i].Scan? && trace[i].chain == c
    requires step.Register? && step.chain == c && trace[i].first <= step.log.block <= trace[i].last
    requires scan in trace && Owed(scan, step)
    ensures scan == trace[i]
  {
    hide Run, HeadsGrow;
    InRegisterSteps(scan.chain, Usable(scan.events), step);
    var v :| v in Usable(scan.events) && v.signed.Some? && step == Register(scan.chain, v.log, v.signed.value);
    assert v in scan.events;
    var j :| 0 <= j < |trace| && trace[j] == scan;
    if i < j { WindowsAreDisjoint(chains, trace, i, j, c, step.log.block); }
    if j < i { WindowsAreDisjoint(chains, trace, j, i, c, step.log.block); }
  }

  /** A run that loses a task: the status call fails for one event of the window, and the task created by the
      next event, although it could be signed, is not registered however the run goes on. */
  lemma TaskIsLost(chains: set<ChainId>, c: ChainId, failed: CreateTask, lost: CreateTask, signed: Signed, last: nat)
    returns (trace: seq<Step>)
    requires c in chains && failed != lost && failed.block <= last && lost.block <= last
    ensures
      var events := [NewTask(failed, None, None), NewTask(lost, Some(Created), Some(signed))];
      trace == [Scan(c, 0, last, events)] && Run(chains, trace)
    ensures forall later ::
              Run(chains, trace + later) && HeadsGrow(trace + later, c) && LogsInWindows(trace + later, c) ==>
                              !Registered(trace + later, c, lost)
  {
    var events := [NewTask(failed, None, None), NewTask(lost, Some(Created), Some(signed))];
    trace := [Scan(c, 0, last, events)];
    assert [] + trace == trace;
    Extend(chains, [], trace[0]);
    assert Usable(events) == [];
    forall later | Run(chains, trace + later) && HeadsGrow(trace + later, c) && LogsInWindows(trace + later, c)
      ensures !Registered(trace + later, c, lost)
    {
      RegisteredExactly(chains, trace + later, 0, c, lost);
    }
  }

  // ----- the program

  /** The chain has to be read again in this pass. */
  predicate Unanswered(e: Entry, c: ChainId) {
    StatusOf(e, c) != Responded
  }

  /** Every status the pass has to read can be read. */
  predicate Readable(chains: set<ChainId>, e: Entry, reply: ChainId -> Option<Status>) {
    forall c | c in chains && Unanswered(e, c) :: reply(c).Some?
  }

  /** The entry with the status of each chain that had not responded read anew. */
  function Reread(chains: set<ChainId>, e: Entry, reply: ChainId -> Option<Status>): Entry
    requires Readable(chains, e, reply)
  {
    e.(statuses := map c | c in chains :: if Unanswered(e, c) then reply(c).value else Responded)
  }

  /** The status of a chain after the pass: responded as before, or what the chain says now. */
  predicate Now(e: Entry, reply: ChainId -> Option<Status>, c: ChainId, status: Status) {
    if c in e.statuses && e.statuses[c] == Responded then status == Responded else reply(c) == Some(status)
  }

  /** A task is deleted exactly when every chain has responded, or every chain says that it does not know the
      task or that it has expired; a task that is kept has the chains' statuses, the proof the relay delivers if
      it had none, and everything else as it was. */
  lemma RefreshedMeans(chains: set<ChainId>, e: Entry, reply: ChainId -> Option<Status>, proof: Option<Option<Proof>>)
    requires Readable(chains, e, reply)
    ensures Refreshed(chains, e, reply, proof).None? <==>
            || (forall c | c in chains :: Now(e, reply, c, Responded))
            || (forall c | c in chains :: Now(e, reply, c, NotFound) || Now(e, reply, c, Expired))
    ensures
      var r := Refreshed(chains, e, reply, proof);
      r.Some? ==>
        && r.value.statuses.Keys == chains
        && (forall c | c in chains :: Now(e, reply, c, r.value.statuses[c]))
        && r.value.aggProof == (if e.aggProof.Some? || proof.None? then e.aggProof else proof.value)
        && r.value.result == e.result && r.value.epoch == e.epoch
        && r.value.requestHash == e.requestHash && r.value.chain == e.chain
  {
    var f := Reread(chains, e, reply);
    forall c | c in chains ensures Now(e, reply, c, f.statuses[c]) {
      assert Unanswered(e, c) ==> reply(c).Some?;
    }
    assert f.statuses.Keys == chains;
    assert AllResponded(f) <==> forall c | c in chains :: Now(e, reply, c, Responded);
    assert AllGone(f) <==> forall c | c in chains :: Now(e, reply, c, NotFound) || Now(e, reply, c, Expired);
  }

  /** Some of those statuses read, the others as they were. */
  predicate PartlyRead(chains: set<ChainId>, e: Entry, f: Entry, reply: ChainId -> Option<Status>) {
    && f == e.(statuses := f.statuses)
    && e.statuses.Keys <= f.statuses.Keys <= e.statuses.Keys + chains
    && forall c | c in f.statuses ::
         || (c in e.statuses && f.statuses[c] == e.statuses[c])
         || (c in chains && Unanswered(e, c) && reply(c) == Some(f.statuses[c]))
  }

  /** A reading in progress: the chains still to do are as they were, the others are read. */
  predicate InReading(chains: set<ChainId>, e: Entry, f: Entry, todo: set<ChainId>, reply: ChainId -> Option<Status>) {
    && todo <= chains && e.statuses.Keys <= chains
    && PartlyRead(chains, e, f, reply)
    && (forall c | c in todo :: StatusOf(f, c) == StatusOf(e, c))
    && forall c | c in chains && c !in todo ::
         c in f.statuses && (Unanswered(e, c) ==> reply(c) == Some(f.statuses[c]))
  }

  lemma ReadingStarts(chains: set<ChainId>, e: Entry, reply: ChainId -> Option<Status>)
    requires e.statuses.Keys <= chains
    ensures InReading(chains, e, e, chains, reply)
  {
  }

  lemma ReadingGoesOn(chains: set<ChainId>, e: Entry, f: Entry, todo: set<ChainId>, c: ChainId,
                      reply: ChainId -> Option<Status>)
    requires InReading(chains, e, f, todo, reply) && c in todo
    ensures c in chains && PartlyRead(chains, e, f, reply)
    ensures StatusOf(f, c) == Responded ==> InReading(chains, e, f, todo - {c}, reply)
    ensures StatusOf(f, c) != Responded && reply(c).Some? ==>
              InReading(chains, e, f.(statuses := f.statuses[c := reply(c).value]), todo - {c}, reply)
    ensures StatusOf(f, c) != Responded && reply(c).None? ==> !Readable(chains, e, reply)
  {
  }

  lemma ReadingIsOver(chains: set<ChainId>, e: Entry, f: Entry, reply: ChainId -> Option<Status>)
    requires InReading(chains, e, f, {}, reply)
    ensures Readable(chains, e, reply) && f == Reread(chains, e, reply)
  {
  }

  /** What a pass makes of an entry, None if it is deleted. */
  function Refreshed(chains: set<ChainId>, e: Entry, reply: ChainId -> Option<Status>,
                     proof: Option<Option<Proof>>): Option<Entry>
    requires Readable(chains, e, reply)
  {
    var f := Reread(chains, e, reply);
    if Settled(f) then None
    else if f.aggProof.None? && proof.Some? then Some(f.(aggProof := proof.value))
    else Some(f)
  }

  /** The steps of a chain's turn: one window, and the tasks registered from it. */
  function TurnSteps(chain: ChainId, first: nat, last: nat, events: seq<NewTask>): seq<Step> {
    [Scan(chain, first, last, events)] + RegisterSteps(chain, Usable(events))
  }

  lemma NothingToRegister(chain: ChainId)
    ensures RegisterSteps(chain, []) == []
  {
  }

  lemma RegisterNext(usable: seq<NewTask>, i: nat, chain: ChainId)
    requires i < |usable| && forall k | 0 <= k < |usable| :: !Fails(usable[k])
    ensures
      var v, rest := usable[i], RegisterSteps(chain, usable[i + 1..]);
      && !Fails(v)
      && RegisterSteps(chain, usable[i..])
         == if v.status.value == Created then [Register(chain, v.log, v.signed.value)] + rest else rest
  {
    assert usable[i..][0] == usable[i] && usable[i..][1..] == usable[i + 1..];
  }

  class Poller {
    const chains: set<ChainId>
    var tasks: map<TaskId, Entry>
    var lastBlocks: map<ChainId, nat>
    ghost var trace: seq<Step>

    ghost predicate Consistent() reads this {
      && Run(chains, trace)
      && After(trace).tasks == tasks && After(trace).lastBlocks == lastBlocks
      && forall t | t in tasks ::
           && tasks[t].statuses.Keys <= chains
           && (tasks[t].aggProof.Some? ==> t in After(trace).fetched)
    }

    /** Between the turns nothing is left to be registered. */
    ghost predicate Valid() reads this {
      Consistent() && After(trace).pending == []
    }

    constructor (chains: set<ChainId>)
      ensures Valid() && this.chains == chains && trace == []
    {
      this.chains := chains;
      tasks, lastBlocks, trace := map[], map[], [];
    }

    method AddTask(chain: ChainId, log: CreateTask, signed: Signed, entry: Entry)
      requires Consistent() && After(trace).pending != [] && After(trace).pending[0] == Register(chain, log, signed)
      requires entry == EntryOf(chain, log, signed)
      modifies this
      ensures Consistent() && lastBlocks == old(lastBlocks) && tasks == old(tasks)[log.id := entry]
      ensures After(trace).pending == old(After(trace).pending)[1..]
      ensures trace + After(trace).pending == old(trace) + old(After(trace).pending)
    {
      hide Run, After;
      Extend(chains, trace, Register(chain, log, signed));
      ghost var pending := After(trace).pending;
      assert trace + pending == (trace + [pending[0]]) + pending[1..];
      tasks, trace := tasks[log.id := entry], trace + [Register(chain, log, signed)];
    }

    /** Registers the tasks of the events before the first one for which a call fails; the others are lost. */
    method ProcessNewTasks(chain: ChainId, events: seq<NewTask>) returns (ok: bool)
      requires Consistent() && After(trace).pending == RegisterSteps(chain, Usable(events))
      modifies this
      ensures Valid() && lastBlocks == old(lastBlocks)
      ensures ok <==> Usable(events) == events
      ensures trace == old(trace) + RegisterSteps(chain, Usable(events))
    {
      hide Run, After, Consistent, RegisterSteps;
      ghost var usable := Usable(events);
      assert usable[0..] == usable;
      NothingToRegister(chain);
      for i := 0 to |events|
        invariant Consistent() && lastBlocks == old(lastBlocks)
        invariant i <= |usable| && After(trace).pending == RegisterSteps(chain, usable[i..])
        invariant trace + After(trace).pending == old(trace) + RegisterSteps(chain, usable)
      {
        var v := events[i];
        if v.status.None? {
          assert usable[i..] == [];
          return false;
        }
        if v.status.value == Created {
          var taskResult := v.log.numberA + v.log.numberB;
          if v.signed.None? {
            assert usable[i..] == [];
            return false;
          }
          var s := v.signed.value;
          var entry := Entry(chain, taskResult, s.epoch, s.requestHash, None, map[]);
          RegisterNext(usable, i, chain);
          AddTask(chain, v.log, s, entry);
        } else {
          RegisterNext(usable, i, chain);
        }
      }
      assert usable[|events|..] == [];
      ok := true;
    }

    /** One chain's turn in the polling loop. The window is taken over even where registering its tasks fails;
        only failing to get the head or the events ends the program. */
    method PollChain(chain: ChainId, head: Option<nat>, filter: Option<seq<NewTask>>) returns (alive: bool)
      requires Valid() && chain in chains
      modifies this
      ensures Valid()
      ensures alive <==> head.Some? && filter.Some?
      ensures !alive ==> tasks == old(tasks) && lastBlocks == old(lastBlocks) && trace == old(trace)
      ensures alive ==>
                && lastBlocks == old(lastBlocks)[chain := head.value + 1]
                && trace == old(trace) + TurnSteps(chain, WindowStart(old(lastBlocks), chain), head.value, filter.value)
    {
      hide Run, After;
      if head.None? {
        return false;
      }
      var lastBlock := WindowStart(lastBlocks, chain);
      if filter.None? {
        return false;
      }
      Extend(chains, trace, Scan(chain, lastBlock, head.value, filter.value));
      trace := trace + [Scan(chain, lastBlock, head.value, filter.value)];
      lastBlocks := lastBlocks[chain := head.value + 1];
      var _ := ProcessNewTasks(chain, filter.value);
      alive := true;
    }

    method SetStatus(t: TaskId, c: ChainId, status: Status)
      requires Valid() && t in tasks && c in chains && Unanswered(tasks[t], c)
      modifies this
      ensures Valid() && lastBlocks == old(lastBlocks) && trace == old(trace) + [ReadStatus(t, c, status)]
      ensures tasks == old(tasks)[t := old(tasks[t]).(statuses := old(tasks[t]).statuses[c := status])]
    {
      hide Run, After;
      Extend(chains, trace, ReadStatus(t, c, status));
      trace := trace + [ReadStatus(t, c, status)];
      tasks := tasks[t := tasks[t].(statuses := tasks[t].statuses[c := status])];
    }

    /** Reads the statuses of a task, chain by chain in any order, until a call fails. */
    method ReadStatuses(t: TaskId, reply: ChainId -> Option<Status>) returns (ok: bool)
      requires Valid() && t in tasks
      modifies this
      ensures Valid() && lastBlocks == old(lastBlocks) && old(trace) <= trace
      ensures ok <==> Readable(chains, old(tasks[t]), reply)
      ensures ok ==> tasks == old(tasks)[t := Reread(chains, old(tasks[t]), reply)]
      ensures !ok ==> t in tasks && tasks == old(tasks)[t := tasks[t]]
                      && PartlyRead(chains, old(tasks[t]), tasks[t], reply)
    {
      hide Run, After, InReading, PartlyRead, Readable;
      ghost var e := tasks[t];
      ReadingStarts(chains, e, reply);
      var todo := chains;
      while todo != {}
        invariant Valid() && lastBlocks == old(lastBlocks) && old(trace) <= trace
        invariant t in tasks && tasks == old(tasks)[t := tasks[t]]
        invariant InReading(chains, e, tasks[t], todo, reply)
        decreases todo
      {
        var c :| c in todo;
        ReadingGoesOn(chains, e, tasks[t], todo, c, reply);
        todo := todo - {c};
        if StatusOf(tasks[t], c) != Responded {
          var status := reply(c);
          if status.None? {
            return false;
          }
          SetStatus(t, c, status.value);
        }
      }
      ReadingIsOver(chains, e, tasks[t], reply);
      ok := true;
    }

    /** Sends a response to each chain that has not responded, in any order, until one fails. */
    method ProcessProof(t: TaskId, send: ChainId -> bool) returns (ok: bool)
      requires Valid() && Open(chains, tasks, t) && (tasks[t].aggProof.Some? || t in After(trace).fetched)
      modifies this`trace
      ensures Valid() && old(trace) <= trace
      ensures ok <==> forall c | c in chains && Unanswered(tasks[t], c) :: send(c)
      ensures ok ==> Answered(chains, t, tasks[t], trace[|old(trace)|..])
    {
      hide Run, After;
      var task := tasks[t];
      var todo := task.statuses.Keys;
      while todo != {}
        invariant todo <= chains
        invariant Valid() && old(trace) <= trace && After(trace) == old(After(trace))
        invariant forall c | c in chains && c !in todo && Unanswered(task, c) ::
                    send(c) && ResponseTo(t, task, c) in trace[|old(trace)|..]
        decreases todo
      {
        var c :| c in todo;
        todo := todo - {c};
        if task.statuses[c] != Responded {
          if !send(c) {
            return false;
          }
          Extend(chains, trace, ResponseTo(t, task, c));
          ghost var sent := trace[|old(trace)|..];
          trace := trace + [ResponseTo(t, task, c)];
          assert trace[|old(trace)|..] == sent + [ResponseTo(t, task, c)];
        }
      }
      ok := true;
    }

    method SetProof(t: TaskId, proof: Option<Proof>)
      requires Valid() && Open(chains, tasks, t) && tasks[t].aggProof.None?
      modifies this
      ensures Valid() && lastBlocks == old(lastBlocks)
              && trace == old(trace) + [Fetch(t, old(tasks[t]).requestHash, proof)]
      ensures tasks == old(tasks)[t := old(tasks[t]).(aggProof := proof)]
      ensures Open(chains, tasks, t) && t in After(trace).fetched
    {
      hide Run, After;
      Extend(chains, trace, Fetch(t, tasks[t].requestHash, proof));
      trace := trace + [Fetch(t, tasks[t].requestHash, proof)];
      tasks := tasks[t := tasks[t].(aggProof := proof)];
    }

    method Remove(t: TaskId)
      requires Valid() && t in tasks && tasks[t].statuses.Keys == chains && Settled(tasks[t])
      modifies this
      ensures Valid() && lastBlocks == old(lastBlocks) && trace == old(trace) + [Delete(t)]
      ensures tasks == old(tasks) - {t}
    {
      hide Run, After;
      Extend(chains, trace, Delete(t));
      tasks, trace := tasks - {t}, trace + [Delete(t)];
    }

    /** One task's turn in `fetchResults`. */
    method RefreshTask(t: TaskId, reply: ChainId -> Option<Status>, relay: Option<Option<Proof>>, send: ChainId -> bool)
      returns (ok: bool)
      requires Valid() && t in tasks
      modifies this
      ensures Valid() && lastBlocks == old(lastBlocks) && old(trace) <= trace
      ensures ok <==> Readable(chains, old(tasks[t]), reply)
      ensures tasks - {t} == old(tasks) - {t}
      ensures ok ==> Dealt(chains, old(tasks[t]), tasks, t, reply, relay, send, trace[|old(trace)|..])
      ensures !ok ==> t in tasks && PartlyRead(chains, old(tasks[t]), tasks[t], reply)
    {
      hide Valid, After, PartlyRead, Readable, Settled;
      ok := ReadStatuses(t, reply);
      if !ok {
        return;
      }
      var state := tasks[t];
      if Settled(state) {
        Remove(t);
        return;
      }
      if state.aggProof.None? {
        if relay.None? {
          return;
        }
        SetProof(t, relay.value);
      }
      ghost var prefix := trace;
      var _ := ProcessProof(t, send);
      assert trace == prefix + trace[|prefix|..];
    }

    /** One pass over the tasks, in any order. It ends early at the first status that cannot be read; the tasks
        before that one have been dealt with, that one is partly read and the others are as they were. */
    method FetchResults(replies: Replies, relay: Relay, sends: Sends)
      returns (ok: bool)
      requires Valid()
      modifies this
      ensures Valid() && lastBlocks == old(lastBlocks) && old(trace) <= trace
      ensures ok <==> AllReadable(chains, old(tasks), replies)
      ensures Ended(chains, old(tasks), tasks, ok, replies, relay, sends, trace[|old(trace)|..])
    {
      hide Valid, InPass, Ended;
      var todo := tasks.Keys;
      ghost var start, from := tasks, |trace|;
      PassStarts(chains, tasks, replies, relay, sends);
      assert trace[from..] == [];
      while todo != {}
        invariant Valid() && lastBlocks == old(lastBlocks) && old(trace) <= trace && from == |old(trace)|
        invariant InPass(chains, start, tasks, todo, replies, relay, sends, trace[from..])
        decreases todo
      {
        var t :| t in todo;
        ghost var before, steps, middle := tasks, trace[from..], |trace|;
        TodoIsThere(chains, start, tasks, todo, t, replies, relay, sends, steps);
        ok := RefreshTask(t, replies(t), relay(t), sends(t));
        assert trace[from..] == steps + trace[middle..];
        if !ok {
          PassEnds(chains, start, before, tasks, todo, t, replies, relay, sends, steps, trace[from..]);
          return;
        }
        PassGoesOn(chains, start, before, tasks, todo, t, replies, relay, sends, steps, trace[middle..]);
        todo := todo - {t};
      }
      ok := true;
      PassIsOver(chains, start, tasks, replies, relay, sends, trace[from..]);
    }

    /** Every chain's turn, in any order, until one ends the program. The ghost result is the order of the
        chains whose turn was completed. */
    method PollChains(heads: ChainId -> Option<nat>, filters: ChainId -> Option<seq<NewTask>>)
      returns (alive: bool, ghost order: seq<ChainId>)
      requires Valid()
      modifies this
      ensures Valid()
      ensures alive <==> forall c | c in chains :: heads(c).Some? && filters(c).Some?
      ensures Distinct(order) && Members(order) <= chains && Polled(order, heads, filters)
      ensures trace == old(trace) + PollSteps(order, old(lastBlocks), heads, filters)
      ensures alive ==>
                && Members(order) == chains
                && forall c | c in chains :: c in lastBlocks && lastBlocks[c] == heads(c).value + 1
    {
      hide Valid, InTurns, PollSteps, TurnSteps, Polled;
      var todo := chains;
      order := [];
      ghost var last := lastBlocks;
      NothingPolled(chains, last, heads, filters);
      while todo != {}
        invariant Valid() && InTurns(chains, order, todo, last, lastBlocks, heads, filters)
        invariant Polled(order, heads, filters) && trace == old(trace) + PollSteps(order, last, heads, filters)
        decreases todo
      {
        var c :| c in todo;
        TurnsGoOn(chains, order, todo, c, last, lastBlocks, heads, filters);
        alive := PollChain(c, heads(c), filters(c));
        if !alive {
          return;
        }
        order := order + [c];
        todo := todo - {c};
      }
      TurnsAreOver(chains, order, last, lastBlocks, heads, filters);
      alive := true;
    }

    /** One tick: the chains' turns, and then a pass over the tasks as they are after them. */
    method Tick(heads: ChainId -> Option<nat>, filters: ChainId -> Option<seq<NewTask>>,
                replies: Replies, relay: Relay, sends: Sends)
      returns (alive: bool, ghost order: seq<ChainId>)
      requires Valid()
      modifies this
      ensures Valid()
      ensures alive <==> forall c | c in chains :: heads(c).Some? && filters(c).Some?
      ensures Distinct(order) && Members(order) <= chains && Polled(order, heads, filters)
      ensures var polled := old(trace) + PollSteps(order, old(lastBlocks), heads, filters);
              if !alive then trace == polled
              else
                && Members(order) == chains
                && (forall c | c in chains :: c in lastBlocks && lastBlocks[c] == heads(c).value + 1)
                && polled <= trace
                && Ended(chains, After(polled).tasks, tasks, AllReadable(chains, After(polled).tasks, replies),
                         replies, relay,
                         sends, trace[|polled|..])
    {
      hide After, Run, Ended, PollSteps, Distinct, Members, Polled;
      alive, order := PollChains(heads, filters);
      if alive {
        var _ := FetchResults(replies, relay, sends);
      }
    }
  }

  // ----- the order in which chains are polled

  function Members(order: seq<ChainId>): set<ChainId> {
    set c | c in order
  }

  predicate Distinct(order: seq<ChainId>) {
    forall i, j | 0 <= i < j < |order| :: order[i] != order[j]
  }

  predicate Polled(order: seq<ChainId>, heads: ChainId -> Option<nat>, filters: ChainId -> Option<seq<NewTask>>) {
    forall i | 0 <= i < |order| :: heads(order[i]).Some? && filters(order[i]).Some?
  }

  /** The steps of the chains' turns: one window each, and the tasks registered from it. */
  function PollSteps(order: seq<ChainId>, last: map<ChainId, nat>, heads: ChainId -> Option<nat>,
                     filters: ChainId -> Option<seq<NewTask>>): seq<Step>
    requires Polled(order, heads, filters)
  {
    if order == [] then []
    else
      var c := order[|order| - 1];
      PollSteps(order[..|order| - 1], last, heads, filters)
      + TurnSteps(c, WindowStart(last, c), heads(c).value, filters(c).value)
  }

  /** Polling in progress: the chains in the order had their turn, and the windows of the others are as before. */
  predicate InTurns(chains: set<ChainId>, order: seq<ChainId>, todo: set<ChainId>, last: map<ChainId, nat>,
                    now: map<ChainId, nat>, heads: ChainId -> Option<nat>, filters: ChainId -> Option<seq<NewTask>>)
  {
    && todo <= chains && Distinct(order) && Members(order) == chains - todo && Polled(order, heads, filters)
    && (forall c | c in todo :: WindowStart(now, c) == WindowStart(last, c))
    && forall c | c in chains && c !in todo :: heads(c).Some? && c in now && now[c] == heads(c).value + 1
  }

  lemma NothingPolled(chains: set<ChainId>, last: map<ChainId, nat>, heads: ChainId -> Option<nat>,
                      filters: ChainId -> Option<seq<NewTask>>)
    ensures InTurns(chains, [], chains, last, last, heads, filters)
    ensures Polled([], heads, filters) && PollSteps([], last, heads, filters) == []
  {
  }

  lemma TurnsGoOn(chains: set<ChainId>, order: seq<ChainId>, todo: set<ChainId>, c: ChainId, last: map<ChainId, nat>,
                  now: map<ChainId, nat>, heads: ChainId -> Option<nat>, filters: ChainId -> Option<seq<NewTask>>)
    requires InTurns(chains, order, todo, last, now, heads, filters) && c in todo
    ensures c in chains && WindowStart(now, c) == WindowStart(last, c)
    ensures Distinct(order) && Members(order) <= chains && Polled(order, heads, filters)
    ensures heads(c).Some? && filters(c).Some? ==>
              && InTurns(chains, order + [c], todo - {c}, last, now[c := heads(c).value + 1], heads, filters)
              && Polled(order + [c], heads, filters)
              && PollSteps(order + [c], last, heads, filters)
                 == PollSteps(order, last, heads, filters)
                    + TurnSteps(c, WindowStart(last, c), heads(c).value, filters(c).value)
  {
    hide TurnSteps;
    assert (order + [c])[..|order|] == order;
    assert Members(order + [c]) == Members(order) + {c};
    assert c !in Members(order);
  }

  lemma TurnsAreOver(chains: set<ChainId>, order: seq<ChainId>, last: map<ChainId, nat>, now: map<ChainId, nat>,
                     heads: ChainId -> Option<nat>, filters: ChainId -> Option<seq<NewTask>>)
    requires InTurns(chains, order, {}, last, now, heads, filters)
    ensures Distinct(order) && Members(order) == chains && Polled(order, heads, filters)
    ensures forall c | c in chains :: heads(c).Some? && filters(c).Some? && c in now && now[c] == heads(c).value + 1
  {
    forall c | c in chains ensures filters(c).Some? {
      assert c in Members(order);
    }
  }

  /** Every status that a pass over the tasks needs can be read. */
  predicate AllReadable(chains: set<ChainId>, tasks: map<TaskId, Entry>, replies: Replies) {
    forall t | t in tasks :: Readable(chains, tasks[t], replies(t))
  }

  /** The pass has dealt with the task: it is deleted or refreshed, and if it is kept, its proof is known and
      no sending fails, every chain that has not responded was sent a response. */
  predicate Dealt(chains: set<ChainId>, e: Entry, after: map<TaskId, Entry>, t: TaskId,
                  reply: ChainId -> Option<Status>,
                  relay: Option<Option<Proof>>, send: ChainId -> bool, steps: seq<Step>)
  {
    && Readable(chains, e, reply)
    && match Refreshed(chains, e, reply, relay)
       case None => t !in after
       case Some(f) =>
         && t in after && after[t] == f
         && ((e.aggProof.Some? || relay.Some?) && (forall c | c in chains && Unanswered(f, c) :: send(c)) ==>
               Answered(chains, t, f, steps))
  }

  lemma StaysDealt(chains: set<ChainId>, e: Entry, before: map<TaskId, Entry>, after: map<TaskId, Entry>, t: TaskId,
                   u: TaskId, reply: ChainId -> Option<Status>, relay: Option<Option<Proof>>, send: ChainId -> bool,
                   steps: seq<Step>, more: seq<Step>)
    requires Dealt(chains, e, before, u, reply, relay, send, steps)
    requires u != t && before - {t} == after - {t}
    ensures Dealt(chains, e, after, u, reply, relay, send, steps + more)
  {
    assert u in before <==> u in before - {t};
    assert u in after <==> u in after - {t};
    assert u in before ==> (before - {t})[u] == (after - {t})[u];
  }

  lemma DealtSince(chains: set<ChainId>, e: Entry, after: map<TaskId, Entry>, t: TaskId,
                   reply: ChainId -> Option<Status>,
                   relay: Option<Option<Proof>>, send: ChainId -> bool, steps: seq<Step>, more: seq<Step>)
    requires Dealt(chains, e, after, t, reply, relay, send, more)
    ensures Readable(chains, e, reply) && Dealt(chains, e, after, t, reply, relay, send, steps + more)
  {
  }

  type Replies = TaskId -> ChainId -> Option<Status>
  type Relay = TaskId -> Option<Option<Proof>>
  type Sends = TaskId -> ChainId -> bool

  /** A pass in progress: the tasks still to do are as they were, the others are dealt with. */
  predicate InPass(chains: set<ChainId>, start: map<TaskId, Entry>, now: map<TaskId, Entry>, todo: set<TaskId>,
                   replies: Replies, relay: Relay, sends: Sends, steps: seq<Step>)
  {
    && todo <= start.Keys && now.Keys <= start.Keys
    && (forall t | t in todo :: t in now && now[t] == start[t])
    && forall t | t in start && t !in todo :: Dealt(chains, start[t], now, t, replies(t), relay(t), sends(t), steps)
  }

  /** A pass that has ended: every task is dealt with, or the pass broke off and it is at most partly read. */
  predicate Ended(chains: set<ChainId>, start: map<TaskId, Entry>, now: map<TaskId, Entry>, ok: bool,
                  replies: Replies, relay: Relay, sends: Sends, steps: seq<Step>)
  {
    && now.Keys <= start.Keys
    && forall t | t in start ::
         || Dealt(chains, start[t], now, t, replies(t), relay(t), sends(t), steps)
         || (!ok && t in now && PartlyRead(chains, start[t], now[t], replies(t)))
  }

  lemma PassStarts(chains: set<ChainId>, start: map<TaskId, Entry>, replies: Replies, relay: Relay, sends: Sends)
    ensures InPass(chains, start, start, start.Keys, replies, relay, sends, [])
  {
  }

  lemma TodoIsThere(chains: set<ChainId>, start: map<TaskId, Entry>, now: map<TaskId, Entry>, todo: set<TaskId>,
                    t: TaskId,
                    replies: Replies, relay: Relay, sends: Sends, steps: seq<Step>)
    requires InPass(chains, start, now, todo, replies, relay, sends, steps) && t in todo
    ensures t in now && t in start && now[t] == start[t]
  {
  }

  lemma PassGoesOn(chains: set<ChainId>, start: map<TaskId, Entry>, before: map<TaskId, Entry>, now: map<TaskId, Entry>,
                   todo: set<TaskId>, t: TaskId, replies: Replies, relay: Relay, sends: Sends, steps: seq<Step>,
                   more: seq<Step>)
    requires InPass(chains, start, before, todo, replies, relay, sends, steps) && t in todo
    requires before - {t} == now - {t} && Dealt(chains, start[t], now, t, replies(t), relay(t), sends(t), more)
    ensures InPass(chains, start, now, todo - {t}, replies, relay, sends, steps + more)
  {
    hide Dealt;
    forall u | u in start && u !in todo - {t}
      ensures Dealt(chains, start[u], now, u, replies(u), relay(u), sends(u), steps + more)
    {
      if u == t {
        DealtSince(chains, start[t], now, t, replies(t), relay(t), sends(t), steps, more);
      } else {
        StaysDealt(chains, start[u], before, now, t, u, replies(u), relay(u), sends(u), steps, more);
      }
    }
    KeysOf(before, now, t);
  }

  lemma KeysOf(before: map<TaskId, Entry>, now: map<TaskId, Entry>, t: TaskId)
    requires t in before && before - {t} == now - {t}
    ensures now.Keys <= before.Keys
    ensures forall u | u in before && u != t :: u in now && now[u] == before[u]
  {
    forall u | u != t ensures u in now <==> u in before {
      assert u in now <==> u in now - {t};
      assert u in before <==> u in before - {t};
    }
    forall u | u in before && u != t ensures now[u] == before[u] {
      assert (now - {t})[u] == (before - {t})[u];
    }
  }

  lemma PassEnds(chains: set<ChainId>, start: map<TaskId, Entry>, before: map<TaskId, Entry>, now: map<TaskId, Entry>,
                 todo: set<TaskId>, t: TaskId, replies: Replies, relay: Relay, sends: Sends, steps: seq<Step>,
                 all: seq<Step>)
    requires InPass(chains, start, before, todo, replies, relay, sends, steps) && t in todo && steps <= all
    requires before - {t} == now - {t} && t in now && PartlyRead(chains, start[t], now[t], replies(t))
    ensures Ended(chains, start, now, false, replies, relay, sends, all)
  {
    hide Dealt, PartlyRead;
    KeysOf(before, now, t);
    forall u | u in start && u !in todo ensures Dealt(chains, start[u], now, u, replies(u), relay(u), sends(u), all) {
      StaysDealt(chains, start[u], before, now, t, u, replies(u), relay(u), sends(u), steps, all[|steps|..]);
      assert all == steps + all[|steps|..];
    }
    forall u | u in todo && u != t ensures PartlyRead(chains, start[u], now[u], replies(u)) {
      Untouched(chains, start[u], replies(u));
    }
  }

  lemma PassIsOver(chains: set<ChainId>, start: map<TaskId, Entry>, now: map<TaskId, Entry>, replies: Replies,
                   relay: Relay, sends: Sends, steps: seq<Step>)
    requires InPass(chains, start, now, {}, replies, relay, sends, steps)
    ensures Ended(chains, start, now, true, replies, relay, sends, steps)
    ensures forall t | t in start :: Readable(chains, start[t], replies(t))
  {
    forall t | t in start ensures Readable(chains, start[t], replies(t)) {
      assert Dealt(chains, start[t], now, t, replies(t), relay(t), sends(t), steps);
    }
  }

  lemma Untouched(chains: set<ChainId>, e: Entry, reply: ChainId -> Option<Status>)
    ensures PartlyRead(chains, e, e, reply)
  {
  }

  /** The response to a chain as the entry has it. */
  function ResponseTo(t: TaskId, e: Entry, c: ChainId): Step {
    Respond(t, c, e.result, e.epoch, e.aggProof)
  }

  /** Every chain that has not responded was sent a response. */
  predicate Answered(chains: set<ChainId>, t: TaskId, e: Entry, steps: seq<Step>) {
    forall c | c in chains && Unanswered(e, c) :: ResponseTo(t, e, c) in steps
  }
}
