/** The agent worker pool as a transition system.

    Any number of worker processes share two tables, support_agent_runs and
    agent_worker_pool.  A row's primary key is modelled by its position: rows are
    only ever appended.  One event is one database statement (or one commit) of one
    process, or one thing that happens to a process; an event that is not enabled
    changes nothing, so every sequence of events is an execution. */
module WorkerPool {
  import opened Wrappers

  datatype RunStatus = Pending | Preparing | Running | Completed | Failed

  datatype Run = Run(status: RunStatus, workerId: Option<nat>, createdAt: int)

  datatype RowStatus = Idle | Busy | Offline

  datatype WorkerRow = WorkerRow(name: string, status: RowStatus, currentRun: Option<nat>, totalCompleted: nat)

  /** Where a process stands in `main` and `run_container`. */
  datatype Pc =
    | AtPoll                              // top of the main loop
    | InClaim(run: nat)                   // row locked, transaction not yet committed
    | InSetup(run: nat)                   // claimed, before the launch block
    | InContainer(run: nat)               // inside the launch block
    | InCrash(run: nat)                   // in the launch block's exception handler
    | InRelease(run: nat, leaving: bool)  // in the inner finally; leaving: an exit is propagating
    | InShutdown                          // in the outer finally
    | Gone

  datatype Process = Process(row: nat, pc: Pc)

  /** `released` records the runs whose release reached the worker table. */
  datatype State = State(runs: seq<Run>, workers: seq<WorkerRow>, procs: seq<Process>, released: set<nat>)

  /** The outcome of a write as its client sees it: done; done, but the
      acknowledgement was an exception; or not done, with an exception. */
  datatype Write = Applied | Lost | Refused

  datatype Event =
    | Enqueue(createdAt: int)
    | Register(name: string)
    | Lock(p: nat, run: nat)
    | Commit(p: nat, w: Write)
    | SetupFails(p: nat, exits: bool)
    | Launch(p: nat, w: Write)
    | ContainerFails(p: nat)
    | Report(p: nat, success: bool, w: Write)
    | RecordCrash(p: nat, w: Write)
    | Release(p: nat, w: Write)
    | Stop(p: nat)
    | SignOff(p: nat, w: Write)
    | Kill(p: nat)

  const INIT := State([], [], [], {})

  // ----- reading the state -----

  /** The run a process has locked or holds. */
  function Target(pc: Pc): Option<nat> {
    match pc
    case InClaim(r) => Some(r)
    case InSetup(r) => Some(r)
    case InContainer(r) => Some(r)
    case InCrash(r) => Some(r)
    case InRelease(r, _) => Some(r)
    case _ => None
  }

  predicate Locked(s: State, r: nat) {
    exists p :: 0 <= p < |s.procs| && s.procs[p].pc == InClaim(r)
  }

  /** Rows the claiming SELECT may return: pending, and not skipped as locked. */
  predicate Eligible(s: State, r: nat) {
    r < |s.runs| && s.runs[r].status == Pending && !Locked(s, r)
  }

  predicate OldestEligible(s: State, r: nat) {
    Eligible(s, r) && forall q :: 0 <= q < |s.runs| && Eligible(s, q) ==> s.runs[r].createdAt <= s.runs[q].createdAt
  }

  function FindWorker(ws: seq<WorkerRow>, name: string): (r: Option<nat>)
    ensures r.Some? ==> r.value < |ws| && ws[r.value].name == name
    ensures r.None? ==> forall w :: 0 <= w < |ws| ==> ws[w].name != name
  {
    if ws == [] then None
    else
      var last := |ws| - 1;
      if ws[last].name == name then Some(last) else FindWorker(ws[..last], name)
  }

  // ----- one step -----

  /** The table positions a state mentions exist. */
  predicate InRange(s: State) {
    && (forall p :: 0 <= p < |s.procs| ==> s.procs[p].row < |s.workers|)
    && (forall p :: 0 <= p < |s.procs| && Target(s.procs[p].pc).Some? ==> Target(s.procs[p].pc).value < |s.runs|)
  }

  /** The event is a move of process e.p. */
  predicate IsMove(e: Event) { !e.Enqueue? && !e.Register? }

  /** Where in the program an event of a process can happen. */
  predicate CanMove(pc: Pc, e: Event) {
    match e
    case Lock(_, _) => pc.AtPoll?
    case Commit(_, _) => pc.InClaim?
    case SetupFails(_, _) => pc.InSetup?
    case Launch(_, _) => pc.InSetup?
    case ContainerFails(_) => pc.InContainer?
    case Report(_, _, _) => pc.InContainer?
    case RecordCrash(_, _) => pc.InCrash?
    case Release(_, _) => pc.InRelease?
    case Stop(_) => pc.AtPoll?
    case SignOff(_, _) => pc.InShutdown?
    case _ => true
  }

  predicate Enabled(s: State, e: Event) {
    IsMove(e) ==> e.p < |s.procs| && CanMove(s.procs[e.p].pc, e) && (e.Lock? ==> OldestEligible(s, e.run))
  }

  /** Where the process goes. */
  function NextPc(pc: Pc, e: Event): Pc
    requires IsMove(e) && CanMove(pc, e)
  {
    match e
    case Lock(_, r) => InClaim(r)
    case Commit(_, w) => if w.Applied? then InSetup(pc.run) else AtPoll
    case SetupFails(_, exits) => InRelease(pc.run, exits)
    case Launch(_, w) => if w.Applied? then InContainer(pc.run) else InRelease(pc.run, false)
    case ContainerFails(_) => InCrash(pc.run)
    case Report(_, _, w) => if w.Applied? then InRelease(pc.run, false) else InCrash(pc.run)
    case RecordCrash(_, _) => InRelease(pc.run, false)
    case Release(_, w) => if w.Applied? && !pc.leaving then AtPoll else InShutdown
    case Stop(_) => InShutdown
    case SignOff(_, _) => Gone
    case Kill(_) => Gone
  }

  /** The status an event writes to the run of its process.  The UPDATEs look at the run's
      id only, never at its old status. */
  function StatusWritten(e: Event): Option<RunStatus> {
    match e
    case Commit(_, w) => if w.Refused? then None else Some(Preparing)
    case Launch(_, w) => if w.Refused? then None else Some(Running)
    case Report(_, success, w) => if w.Refused? then None else Some(if success then Completed else Failed)
    case RecordCrash(_, w) => if w.Refused? then None else Some(Failed)
    case _ => None
  }

  function RunsAfter(s: State, e: Event): seq<Run>
    requires InRange(s) && Enabled(s, e)
  {
    if e.Enqueue? then s.runs + [Run(Pending, None, e.createdAt)]
    else if StatusWritten(e).Some? then
      var proc := s.procs[e.p];
      var run := s.runs[proc.pc.run];
      var workerId := if e.Commit? then Some(proc.row) else run.workerId;
      s.runs[proc.pc.run := Run(StatusWritten(e).value, workerId, run.createdAt)]
    else s.runs
  }

  /** The event writes to the worker row of its process. */
  predicate WritesRow(e: Event) {
    (e.Commit? || e.Release? || e.SignOff?) && !e.w.Refused?
  }

  function RowAfter(row: WorkerRow, pc: Pc, e: Event): WorkerRow
    requires IsMove(e) && CanMove(pc, e)
  {
    if e.Commit? then row.(status := Busy, currentRun := Some(pc.run))
    else if e.Release? then row.(status := Idle, currentRun := None, totalCompleted := row.totalCompleted + 1)
    else if e.SignOff? then row.(status := Offline)
    else row
  }

  /** Registration is INSERT .. ON CONFLICT (worker_name): refresh the row of that name, or
      add one. */
  function WorkersAfter(s: State, e: Event): seq<WorkerRow>
    requires InRange(s) && Enabled(s, e)
  {
    if e.Register? then
      var found := FindWorker(s.workers, e.name);
      if found.Some? then s.workers[found.value := s.workers[found.value].(status := Idle)]
      else s.workers + [WorkerRow(e.name, Idle, None, 0)]
    else if WritesRow(e) then
      var proc := s.procs[e.p];
      s.workers[proc.row := RowAfter(s.workers[proc.row], proc.pc, e)]
    else s.workers
  }

  function ProcsAfter(s: State, e: Event): seq<Process>
    requires Enabled(s, e)
  {
    if e.Enqueue? then s.procs
    else if e.Register? then
      var found := FindWorker(s.workers, e.name);
      s.procs + [Process(if found.Some? then found.value else |s.workers|, AtPoll)]
    else s.procs[e.p := s.procs[e.p].(pc := NextPc(s.procs[e.p].pc, e))]
  }

  function ReleasedAfter(s: State, e: Event): set<nat>
    requires Enabled(s, e)
  {
    if e.Release? && !e.w.Refused? then s.released + {s.procs[e.p].pc.run} else s.released
  }

  function Step(s: State, e: Event): (t: State)
    requires InRange(s)
  {
    if Enabled(s, e) then State(RunsAfter(s, e), WorkersAfter(s, e), ProcsAfter(s, e), ReleasedAfter(s, e)) else s
  }

  lemma StepInRange(s: State, e: Event)
    requires InRange(s)
    ensures InRange(Step(s, e))
  {
    var t := Step(s, e);
    forall p | 0 <= p < |t.procs|
      ensures t.procs[p].row < |t.workers|
      ensures Target(t.procs[p].pc).Some? ==> Target(t.procs[p].pc).value < |t.runs|
    {
      if Enabled(s, e) && IsMove(e) && p == e.p {
        TargetAfter(s.procs[p].pc, e);
      }
    }
  }

  /** A process goes on with the run it had, or with none, unless it locks one. */
  lemma TargetAfter(pc: Pc, e: Event)
    requires IsMove(e) && CanMove(pc, e)
    ensures Target(NextPc(pc, e)) == (if e.Lock? then Some(e.run) else Target(pc)) || Target(NextPc(pc, e)) == None
  {
  }

  // ----- the invariant -----

  predicate Holds(pc: Pc) { Target(pc).Some? && !pc.InClaim? }

  /** A locked run is still pending. */
  predicate LocksPending(s: State)
    requires InRange(s)
  {
    forall p :: 0 <= p < |s.procs| && s.procs[p].pc.InClaim? ==> s.runs[s.procs[p].pc.run].status == Pending
  }

  /** A held run has left 'pending', names the holder's row, and is not released. */
  predicate HoldsClaimed(s: State)
    requires InRange(s)
  {
    forall p :: 0 <= p < |s.procs| && Holds(s.procs[p].pc) ==>
      var r := Target(s.procs[p].pc).value;
      s.runs[r].status != Pending && s.runs[r].workerId == Some(s.procs[p].row) && r !in s.released
  }

  /** No run is locked or held by two processes. */
  predicate Exclusive(s: State) {
    forall p, q :: 0 <= p < q < |s.procs| && Target(s.procs[p].pc).Some? ==>
      Target(s.procs[p].pc) != Target(s.procs[q].pc)
  }

  predicate ReleasedClaimed(s: State) {
    forall r :: r in s.released ==> r < |s.runs| && s.runs[r].status != Pending
  }

  /** If row w has a current_run_id, it names a run claimed under that very row and not
      yet released. */
  predicate CurrentAgrees(w: nat, row: WorkerRow, runs: seq<Run>, released: set<nat>) {
    row.currentRun.Some? ==>
      var r := row.currentRun.value;
      r < |runs| && runs[r].status != Pending && runs[r].workerId == Some(w) && r !in released
  }

  predicate CurrentClaimed(s: State) {
    forall w :: 0 <= w < |s.workers| ==> CurrentAgrees(w, s.workers[w], s.runs, s.released)
  }

  /** The status a held run has, by where its holder stands. */
  predicate StatusAtPc(s: State)
    requires InRange(s)
  {
    forall p :: 0 <= p < |s.procs| ==>
      match s.procs[p].pc
      case InSetup(r) => s.runs[r].status == Preparing
      case InContainer(r) => s.runs[r].status == Running
      case InCrash(r) => s.runs[r].status in {Running, Completed, Failed}
      case _ => true
  }

  function SumTotals(ws: seq<WorkerRow>): nat {
    if ws == [] then 0 else SumTotals(ws[..|ws| - 1]) + ws[|ws| - 1].totalCompleted
  }

  predicate Inv(s: State) {
    && InRange(s)
    && LocksPending(s)
    && HoldsClaimed(s)
    && Exclusive(s)
    && ReleasedClaimed(s)
    && CurrentClaimed(s)
    && StatusAtPc(s)
    && |s.released| == SumTotals(s.workers)
  }

  lemma SumTotalsUpdate(ws: seq<WorkerRow>, w: nat, row: WorkerRow)
    requires w < |ws|
    ensures SumTotals(ws[w := row]) == SumTotals(ws) - ws[w].totalCompleted + row.totalCompleted
  {
    var last := |ws| - 1;
    if w < last {
      SumTotalsUpdate(ws[..last], w, row);
      assert ws[w := row][..last] == ws[..last][w := row];
    } else {
      assert ws[w := row][..last] == ws[..last];
    }
  }

  // ----- every step keeps it -----

  /** Nothing but a register or a row write of one process touches the worker table, and
      then only the one row. */
  lemma SumAfter(s: State, e: Event)
    requires Inv(s)
    ensures |Step(s, e).released| == SumTotals(Step(s, e).workers)
  {
    if Enabled(s, e) {
      var ws := WorkersAfter(s, e);
      if e.Register? {
        var found := FindWorker(s.workers, e.name);
        if found.Some? {
          SumTotalsUpdate(s.workers, found.value, ws[found.value]);
        } else {
          assert ws[..|ws| - 1] == s.workers;
        }
      } else if WritesRow(e) {
        SumTotalsUpdate(s.workers, s.procs[e.p].row, ws[s.procs[e.p].row]);
        if e.Release? { assert Holds(s.procs[e.p].pc); }
      }
    }
  }

  lemma TargetsStayExclusive(s: State, e: Event)
    requires Inv(s)
    ensures Exclusive(Step(s, e))
  {
    var t := Step(s, e);
    if Enabled(s, e) && IsMove(e) {
      TargetAfter(s.procs[e.p].pc, e);
      assert e.Lock? ==> !Locked(s, e.run);
    }
  }

  /** Only e.p, if anyone, targets the run an enabled event writes to. */
  lemma OnlyMoverTargets(s: State, e: Event, q: nat)
    requires Inv(s) && Enabled(s, e) && IsMove(e) && q < |s.procs| && q != e.p
    requires Target(s.procs[q].pc).Some?
    ensures Target(s.procs[q].pc) != Target(s.procs[e.p].pc)
  {
    assert Exclusive(s);
  }

  /** What a process's own place implies about its run, in a state with these runs. */
  predicate PlaceAgrees(proc: Process, runs: seq<Run>, released: set<nat>)
    requires Target(proc.pc).Some? ==> Target(proc.pc).value < |runs|
  {
    && (proc.pc.InClaim? ==> runs[proc.pc.run].status == Pending)
    && (Holds(proc.pc) ==>
          var r := Target(proc.pc).value;
          runs[r].status != Pending && runs[r].workerId == Some(proc.row) && r !in released)
    && (match proc.pc
        case InSetup(r) => runs[r].status == Preparing
        case InContainer(r) => runs[r].status == Running
        case InCrash(r) => runs[r].status in {Running, Completed, Failed}
        case _ => true)
  }

  lemma PlacesAgree(s: State)
    requires InRange(s)
    ensures LocksPending(s) && HoldsClaimed(s) && StatusAtPc(s)
            <==> forall p :: 0 <= p < |s.procs| ==> PlaceAgrees(s.procs[p], s.runs, s.released)
  {
  }

  lemma MoverAgrees(s: State, e: Event)
    requires Inv(s) && Enabled(s, e) && IsMove(e)
    ensures InRange(Step(s, e)) && PlaceAgrees(Step(s, e).procs[e.p], Step(s, e).runs, Step(s, e).released)
  {
    StepInRange(s, e);
    PlacesAgree(s);
    assert PlaceAgrees(s.procs[e.p], s.runs, s.released);
  }

  lemma OthersAgree(s: State, e: Event, q: nat)
    requires Inv(s) && Enabled(s, e) && q < |s.procs| && (IsMove(e) ==> q != e.p)
    ensures InRange(Step(s, e)) && PlaceAgrees(s.procs[q], Step(s, e).runs, Step(s, e).released)
  {
    StepInRange(s, e);
    PlacesAgree(s);
    assert PlaceAgrees(s.procs[q], s.runs, s.released);
    if IsMove(e) && Target(s.procs[q].pc).Some? {
      OnlyMoverTargets(s, e, q);
    }
  }

  lemma PlacesStayAgreed(s: State, e: Event)
    requires Inv(s) && Enabled(s, e)
    ensures var t := Step(s, e); InRange(t) && LocksPending(t) && HoldsClaimed(t) && StatusAtPc(t)
  {
    var t := Step(s, e);
    StepInRange(s, e);
    forall q | 0 <= q < |t.procs| ensures PlaceAgrees(t.procs[q], t.runs, t.released) {
      if IsMove(e) && q == e.p {
        MoverAgrees(s, e);
      } else if q < |s.procs| {
        OthersAgree(s, e, q);
      }
    }
    PlacesAgree(t);
  }

  lemma ReleasedStayClaimed(s: State, e: Event)
    requires Inv(s) && Enabled(s, e)
    ensures ReleasedClaimed(Step(s, e))
  {
    forall r | r in ReleasedAfter(s, e) ensures r < |RunsAfter(s, e)| && RunsAfter(s, e)[r].status != Pending {
      if r !in s.released {
        assert Holds(s.procs[e.p].pc);
      } else {
        assert r < |s.runs| && s.runs[r].status != Pending;
      }
    }
  }

  /** A row the event leaves alone still names a claimed run: the event writes no status to
      that run unless its holder does, and releases only a run of its own row. */
  lemma OtherRowAgrees(s: State, e: Event, w: nat)
    requires Inv(s) && Enabled(s, e) && w < |s.workers|
    requires WritesRow(e) ==> w != s.procs[e.p].row
    ensures CurrentAgrees(w, s.workers[w], RunsAfter(s, e), ReleasedAfter(s, e))
  {
    assert CurrentAgrees(w, s.workers[w], s.runs, s.released);
    if IsMove(e) && Target(s.procs[e.p].pc).Some? {
      assert PlaceAgrees(s.procs[e.p], s.runs, s.released);
    }
  }

  lemma WrittenRowAgrees(s: State, e: Event)
    requires Inv(s) && Enabled(s, e) && WritesRow(e)
    ensures CurrentAgrees(s.procs[e.p].row, WorkersAfter(s, e)[s.procs[e.p].row], RunsAfter(s, e), ReleasedAfter(s, e))
  {
    assert CurrentAgrees(s.procs[e.p].row, s.workers[s.procs[e.p].row], s.runs, s.released);
    if e.Commit? {
      assert s.procs[e.p].pc.run !in s.released;
    }
  }

  lemma CurrentStaysClaimed(s: State, e: Event)
    requires Inv(s) && Enabled(s, e)
    ensures CurrentClaimed(Step(s, e))
  {
    var t := Step(s, e);
    forall w | 0 <= w < |t.workers| ensures CurrentAgrees(w, t.workers[w], t.runs, t.released) {
      if WritesRow(e) && w == s.procs[e.p].row {
        WrittenRowAgrees(s, e);
      } else if w < |s.workers| {
        OtherRowAgrees(s, e, w);
      }
    }
  }

  /** Every step keeps the invariant, faults and interleavings included. */
  lemma StepKeepsInv(s: State, e: Event)
    requires Inv(s)
    ensures Inv(Step(s, e))
  {
    if Enabled(s, e) {
      SumAfter(s, e);
      TargetsStayExclusive(s, e);
      PlacesStayAgreed(s, e);
      ReleasedStayClaimed(s, e);
      CurrentStaysClaimed(s, e);
    }
  }
}
