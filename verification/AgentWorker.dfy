/** One worker process as a program over the two shared tables, interleaved with any
    steps of the other processes.  Every statement it runs is an enabled step of the
    pool's transition system, so what WorkerHistory proves of executions holds of the
    program. */
module AgentWorker {
  import opened Wrappers
  import opened WorkerPool
  import opened WorkerHistory
  import opened WorkerStatus

  // ----- what the outside world decides -----

  datatype SetupFault = NoFault | Raises | Exits

  /** The course of one claim: the steps other processes take in each gap, and how
      each write, the setup and the container turn out. */
  datatype Turn = Turn(
    beforeCommit: seq<Event>, commit: Write,
    beforeLaunch: seq<Event>, setup: SetupFault, launch: Write,
    beforeReport: seq<Event>, containerRaises: bool, success: bool, report: Write,
    beforeCrash: seq<Event>, crash: Write,
    beforeRelease: seq<Event>, release: Write,
    afterwards: seq<Event>)

  /** An event process p causes. */
  predicate Own(e: Event, p: nat) {
    IsMove(e) && e.p == p
  }

  predicate Foreign(es: seq<Event>, p: nat) {
    forall i :: 0 <= i < |es| ==> !Own(es[i], p)
  }

  predicate ForeignTurn(t: Turn, p: nat) {
    && Foreign(t.beforeCommit, p) && Foreign(t.beforeLaunch, p) && Foreign(t.beforeReport, p)
    && Foreign(t.beforeCrash, p) && Foreign(t.beforeRelease, p) && Foreign(t.afterwards, p)
  }

  // ----- histories -----

  /** new extends old, and every step of p in the extension was enabled. */
  ghost predicate Extends(old_: seq<Event>, new_: seq<Event>, p: nat) {
    && old_ <= new_
    && forall i :: |old_| <= i < |new_| && Own(new_[i], p) ==> Enabled(Before(new_, i), new_[i])
  }

  lemma ExtendsTransitive(a: seq<Event>, b: seq<Event>, c: seq<Event>, p: nat)
    requires Extends(a, b, p) && Extends(b, c, p)
    ensures Extends(a, c, p)
  {
    forall i | |a| <= i < |c| && Own(c[i], p) ensures Enabled(Before(c, i), c[i]) {
      if i < |b| {
        assert c[..i] == b[..i];
      }
    }
  }

  lemma ExtendsByStep(h: seq<Event>, e: Event, p: nat)
    requires Own(e, p) ==> Enabled(Exec(h), e)
    ensures Extends(h, h + [e], p)
    ensures Exec(h + [e]) == Step(Exec(h), e)
  {
    assert (h + [e])[..|h|] == h;
  }

  lemma ForeignExtends(h: seq<Event>, es: seq<Event>, p: nat)
    requires Foreign(es, p)
    ensures Extends(h, h + es, p)
  {
    forall i | |h| <= i < |h + es| ensures !Own((h + es)[i], p) {
      assert (h + es)[i] == es[i - |h|];
    }
  }

  lemma ForeignKeepsProcess(s: State, e: Event, p: nat)
    requires InRange(s) && p < |s.procs| && !Own(e, p)
    ensures p < |Step(s, e).procs| && Step(s, e).procs[p] == s.procs[p]
  {
  }

  /** No one else writes to a run a process holds. */
  lemma ForeignKeepsHeldRun(s: State, e: Event, p: nat, r: nat)
    requires Inv(s) && p < |s.procs| && !Own(e, p) && Holds(s.procs[p].pc) && Target(s.procs[p].pc) == Some(r)
    ensures r < |Step(s, e).runs| && Step(s, e).runs[r] == s.runs[r]
  {
    if Enabled(s, e) && IsMove(e) && Target(s.procs[e.p].pc) == Some(r) {
      OnlyMoverTargets(s, e, p);
    }
  }

  /** After the holder's release nobody holds its run. */
  lemma ReleaseLetsGo(h: seq<Event>, p: nat, w: Write)
    requires p < |Exec(h).procs| && Exec(h).procs[p].pc.InRelease?
    ensures Unheld(Step(Exec(h), Release(p, w)), Exec(h).procs[p].pc.run)
  {
    ExecInv(h);
    var s, e := Exec(h), Release(p, w);
    forall q | 0 <= q < |s.procs| ensures Target(Step(s, e).procs[q].pc) != Some(s.procs[p].pc.run) {
      if q != p && Target(s.procs[q].pc).Some? {
        OnlyMoverTargets(s, e, q);
      }
    }
  }

  /** Unless the write was refused, the row ends 'offline', its other columns and the other
      rows as they were. */
  predicate SignedOff(before: seq<WorkerRow>, after: seq<WorkerRow>, id: nat, w: Write) {
    if w.Refused? then after == before
    else
      && id < |before|
      && after == before[id := WorkerRow(before[id].name, Offline, before[id].currentRun, before[id].totalCompleted)]
  }

  /** Run r is pending, and no process has its row locked. */
  predicate PendingUnlocked(runs: seq<Run>, procs: seq<Process>, r: nat) {
    r < |runs| && runs[r].status == Pending && forall q :: 0 <= q < |procs| ==> procs[q].pc != InClaim(r)
  }

  predicate NoneUnlocked(runs: seq<Run>, procs: seq<Process>) {
    forall r :: 0 <= r < |runs| ==> !PendingUnlocked(runs, procs, r)
  }

  /** r is such a run, and none of them was created before it. */
  predicate OldestUnlocked(runs: seq<Run>, procs: seq<Process>, r: nat) {
    && PendingUnlocked(runs, procs, r)
    && forall q :: 0 <= q < |runs| && PendingUnlocked(runs, procs, q) ==> runs[r].createdAt <= runs[q].createdAt
  }

  lemma EligibleIsUnlocked(s: State)
    ensures forall r: nat :: Eligible(s, r) <==> PendingUnlocked(s.runs, s.procs, r)
  {
  }

  /** The database, with the history that led to its present contents. */
  class Database {
    var runs: seq<Run>
    var workers: seq<WorkerRow>
    var procs: seq<Process>
    var released: set<nat>
    ghost var history: seq<Event>

    ghost function View(): State
      reads this
    {
      State(runs, workers, procs, released)
    }

    ghost predicate Valid()
      reads this
    {
      View() == Exec(history)
    }

    ghost predicate At(p: nat, pc: Pc)
      reads this
    {
      Valid() && p < |procs| && procs[p].pc == pc
    }

    ghost function StatusOf(run: nat): Option<RunStatus>
      reads this
    {
      if run < |runs| then Some(runs[run].status) else None
    }

    constructor ()
      ensures Valid() && history == []
    {
      runs, workers, procs, released, history := [], [], [], {}, [];
    }

    /** The claiming query: a pending run nobody has locked, the oldest first. */
    method SelectOldestPending() returns (found: Option<nat>)
      ensures found.Some? ==> OldestEligible(View(), found.value) && OldestUnlocked(runs, procs, found.value)
      ensures found.None? ==> forall r :: 0 <= r < |runs| ==> !Eligible(View(), r)
      ensures found.None? ==> NoneUnlocked(runs, procs)
    {
      found := None;
      var i := 0;
      while i < |runs|
        invariant 0 <= i <= |runs|
        invariant found.Some? ==> found.value < i && Eligible(View(), found.value)
        invariant found.Some? ==> forall q :: 0 <= q < i && Eligible(View(), q) ==>
            runs[found.value].createdAt <= runs[q].createdAt
        invariant found.None? ==> forall q :: 0 <= q < i ==> !Eligible(View(), q)
      {
        var s := State(runs, workers, procs, released);
        if Eligible(s, i) && (found.None? || runs[i].createdAt < runs[found.value].createdAt) {
          found := Some(i);
        }
        i := i + 1;
      }
      EligibleIsUnlocked(View());
    }

    /** register_worker: insert or refresh the row of that name, and return its id. */
    method RegisterWorker(name: string) returns (id: nat, ghost p: nat)
      requires Valid()
      modifies this
      ensures Valid() && history == old(history) + [Register(name)]
      ensures id < |workers| && workers[id].name == name && workers[id].status == Idle
      ensures |old(workers)| <= |workers|
      ensures forall w :: 0 <= w < |old(workers)| && w != id ==> workers[w] == old(workers[w])
      ensures id < |old(workers)| ==> workers[id] == old(workers[id]).(status := Idle)
      ensures p == |old(procs)| && At(p, AtPoll) && procs[p].row == id
    {
      ExtendsByStep(history, Register(name), 0);
      p := |procs|;
      var row := FindWorker(workers, name);
      if row.Some? {
        id := row.value;
        workers := workers[id := workers[id].(status := Idle)];
      } else {
        id := |workers|;
        workers := workers + [WorkerRow(name, Idle, None, 0)];
      }
      procs := procs + [Process(id, AtPoll)];
      history := history + [Register(name)];
    }

    /** Another process takes a step. */
    method StepOther(e: Event, p: nat, ghost pc: Pc)
      requires !Own(e, p) && At(p, pc)
      modifies this
      ensures At(p, pc) && procs[p].row == old(procs[p]).row
      ensures history == old(history) + [e] && Extends(old(history), history, p)
      ensures Holds(pc) ==> StatusOf(Target(pc).value) == old(StatusOf(Target(pc).value))
    {
      ExtendsByStep(history, e, p);
      ForeignKeepsProcess(View(), e, p);
      if Holds(pc) {
        ExecInv(history);
        ForeignKeepsHeldRun(View(), e, p, Target(pc).value);
      }
      var s := Step(State(runs, workers, procs, released), e);
      runs, workers, procs, released := s.runs, s.workers, s.procs, s.released;
      history := history + [e];
    }

    /** Other processes run for a while. */
    method Interleave(es: seq<Event>, p: nat, ghost pc: Pc)
      requires Foreign(es, p) && At(p, pc)
      modifies this
      ensures At(p, pc) && procs[p].row == old(procs[p]).row
      ensures history == old(history) + es && Extends(old(history), history, p)
      ensures Holds(pc) ==> StatusOf(Target(pc).value) == old(StatusOf(Target(pc).value))
    {
      ghost var h := history;
      ghost var status := if Holds(pc) then StatusOf(Target(pc).value) else None;
      for i := 0 to |es|
        invariant At(p, pc) && procs[p].row == old(procs[p]).row
        invariant history == h + es[..i]
        invariant Holds(pc) ==> StatusOf(Target(pc).value) == status
      {
        assert es[..i + 1] == es[..i] + [es[i]];
        StepOther(es[i], p, pc);
      }
      assert es[..|es|] == es;
      ForeignExtends(h, es, p);
    }

    /** The process moves on without writing to a table. */
    method Advance(p: nat, e: Event, ghost pc: Pc)
      requires At(p, pc) && Own(e, p) && Enabled(View(), e)
      requires e.Lock? || e.SetupFails? || e.ContainerFails? || e.Stop?
      modifies this
      ensures At(p, NextPc(pc, e)) && procs[p].row == old(procs[p]).row
      ensures history == old(history) + [e] && Extends(old(history), history, p)
      ensures runs == old(runs) && workers == old(workers)
    {
      Record(p, e, View());
    }

    /** Commit or roll back the claim transaction and its two UPDATEs. */
    method CommitClaim(p: nat, run: nat, w: Write) returns (raised: bool)
      requires At(p, InClaim(run))
      modifies this
      ensures raised == !w.Applied? && At(p, if raised then AtPoll else InSetup(run))
      ensures history == old(history) + [Commit(p, w)] && Extends(old(history), history, p)
      ensures procs[p].row == old(procs)[p].row
      ensures w.Refused? ==> runs == old(runs) && workers == old(workers)
      ensures !w.Refused? ==>
                var (id, was) := (procs[p].row, old(runs)[run]);
                && runs == old(runs)[run := Run(Preparing, Some(id), was.createdAt)]
                && workers == old(workers)[id := old(workers)[id].(status := Busy, currentRun := Some(run))]
    {
      ghost var s := View();
      if !w.Refused? {
        var id := procs[p].row;
        runs := runs[run := runs[run].(status := Preparing, workerId := Some(id))];
        workers := workers[id := workers[id].(status := Busy, currentRun := Some(run))];
      }
      raised := !w.Applied?;
      Record(p, Commit(p, w), s);
    }

    /** A status is written over whatever status the run has. */
    method UpdateStatus(run: nat, status: RunStatus)
      requires run < |runs|
      modifies this
      ensures runs == old(runs)[run := old(runs)[run].(status := status)]
      ensures workers == old(workers) && procs == old(procs) && released == old(released) && history == old(history)
    {
      runs := runs[run := runs[run].(status := status)];
    }

    /** The row of a worker that lets go of its run: idle, no current run, one more
        completed. */
    method UpdateReleased(id: nat, run: nat)
      requires id < |workers|
      modifies this
      ensures workers == old(workers)[id := old(workers)[id].(status := Idle, currentRun := None,
                                                              totalCompleted := old(workers)[id].totalCompleted + 1)]
      ensures released == old(released) + {run}
      ensures runs == old(runs) && procs == old(procs) && history == old(history)
    {
      var row := workers[id];
      workers := workers[id := row.(status := Idle, currentRun := None, totalCompleted := row.totalCompleted + 1)];
      released := released + {run};
    }

    /** The process moves on, and its step enters the history. */
    method Record(p: nat, e: Event, ghost s: State)
      requires s == Exec(history) && Own(e, p) && Enabled(s, e)
      requires procs == s.procs && runs == RunsAfter(s, e) && workers == WorkersAfter(s, e) &&
          released == ReleasedAfter(s, e)
      modifies this
      ensures At(p, NextPc(s.procs[p].pc, e)) && procs[p].row == s.procs[p].row
      ensures history == old(history) + [e] && Extends(old(history), history, p)
      ensures runs == old(runs) && workers == old(workers) && released == old(released)
    {
      ExtendsByStep(history, e, p);
      procs := procs[p := procs[p].(pc := NextPc(procs[p].pc, e))];
      history := history + [e];
    }

    /** The three status writes of run_container; e says which one this is. */
    method SetRunStatus(p: nat, run: nat, status: RunStatus, e: Event) returns (raised: bool)
      requires Valid() && p < |procs| && Target(procs[p].pc) == Some(run) && Own(e, p) && Enabled(View(), e)
      requires (e.Launch? && status == Running)
               || (e.Report? && status == if e.success then Completed else Failed)
               || (e.RecordCrash? && status == Failed)
      modifies this
      ensures raised == !e.w.Applied?
      ensures At(p, if e.Launch? && !raised then InContainer(run)
                    else if e.Report? && raised then InCrash(run) else InRelease(run, false))
      ensures history == old(history) + [e] && Extends(old(history), history, p)
      ensures StatusOf(run) == if e.w.Refused? then old(StatusOf(run)) else Some(status)
      ensures procs[p].row == old(procs)[p].row && workers == old(workers)
      ensures runs == if e.w.Refused? then old(runs) else old(runs)[run := old(runs)[run].(status := status)]
    {
      ghost var s := View();
      if !e.w.Refused? {
        UpdateStatus(run, status);
      }
      raised := !e.w.Applied?;
      Record(p, e, s);
    }

    /** The worker-row UPDATE of the inner finally. */
    method ReleaseWorker(p: nat, run: nat, leaving: bool, w: Write) returns (raised: bool)
      requires At(p, InRelease(run, leaving))
      modifies this
      ensures raised == !w.Applied? && At(p, if raised || leaving then InShutdown else AtPoll)
      ensures history == old(history) + [Release(p, w)] && Extends(old(history), history, p)
      ensures runs == old(runs) && Unheld(View(), run)
      ensures procs[p].row == old(procs)[p].row
      ensures w.Refused? ==> workers == old(workers)
      ensures !w.Refused? ==>
                var (id, was) := (procs[p].row, old(workers)[procs[p].row]);
                workers == old(workers)[id := WorkerRow(was.name, Idle, None, was.totalCompleted + 1)]
    {
      ghost var s := View();
      ReleaseLetsGo(history, p, w);
      if !w.Refused? {
        UpdateReleased(procs[p].row, run);
      }
      raised := !w.Applied?;
      Record(p, Release(p, w), s);
    }

    /** The worker-row UPDATE of the outer finally. */
    method SignOffWorker(p: nat, w: Write)
      requires At(p, InShutdown)
      modifies this
      ensures At(p, Gone)
      ensures history == old(history) + [SignOff(p, w)] && Extends(old(history), history, p)
      ensures runs == old(runs) && procs[p].row == old(procs)[p].row
      ensures SignedOff(old(workers), workers, procs[p].row, w)
    {
      ghost var s := View();
      if !w.Refused? {
        var id := procs[p].row;
        workers := workers[id := workers[id].(status := Offline)];
      }
      Record(p, SignOff(p, w), s);
    }
  }

  // ----- the course of the program -----

  /** The steps taken in the exception handler of the launch block. */
  function HandlerSteps(t: Turn, p: nat): seq<Event> {
    t.beforeCrash + [RecordCrash(p, t.crash)]
  }

  /** The steps taken in the launch block. */
  function LaunchBlockSteps(t: Turn, p: nat): seq<Event> {
    t.beforeReport + ([LaunchBlockEnd(t, p)] + if LaunchBlockRaises(t) then HandlerSteps(t, p) else [])
  }

  function LaunchBlockEnd(t: Turn, p: nat): Event {
    if t.containerRaises then ContainerFails(p) else Report(p, t.success, t.report)
  }

  predicate LaunchBlockRaises(t: Turn) {
    t.containerRaises || !t.report.Applied?
  }

  /** The steps taken in run_container. */
  function ContainerSteps(t: Turn, p: nat): seq<Event> {
    t.beforeLaunch + if t.setup != NoFault then [SetupFails(p, t.setup.Exits?)] else LaunchSteps(t, p)
  }

  /** The steps taken in run_container from its first status write on. */
  function LaunchSteps(t: Turn, p: nat): seq<Event> {
    [Launch(p, t.launch)] + if t.launch.Applied? then LaunchBlockSteps(t, p) else []
  }

  /** The steps from a claim to its release, the others' steps included. */
  function HeldSteps(t: Turn, p: nat): seq<Event> {
    ContainerSteps(t, p) + (t.beforeRelease + [Release(p, t.release)])
  }

  function ClaimSteps(t: Turn, p: nat, run: nat): seq<Event> {
    [Lock(p, run)] + (t.beforeCommit + [Commit(p, t.commit)])
  }

  /** One pass of the main loop takes the history from h to k; down: the loop ends. */
  ghost predicate Pass(h: seq<Event>, p: nat, t: Turn, k: seq<Event>, down: bool) {
    || (!down && k == h + t.afterwards && forall r :: 0 <= r < |Exec(h).runs| ==> !Eligible(Exec(h), r))
    || exists r :: OldestEligible(Exec(h), r) &&
         if t.commit.Applied?
         then k == h + ClaimSteps(t, p, r) + HeldSteps(t, p) + t.afterwards
               && (down <==> t.setup.Exits? || !t.release.Applied?)
         else !down && k == h + ClaimSteps(t, p, r) + t.afterwards
  }

  /** The main loop takes the history from h to k, one pass a turn, until a pass ends
      it. */
  ghost predicate Passes(h: seq<Event>, p: nat, turns: seq<Turn>, k: seq<Event>, down: bool)
    decreases |turns|
  {
    if turns == [] then k == h && !down
    else
      var front, last := turns[..|turns| - 1], turns[|turns| - 1];
      || (down && Passes(h, p, front, k, down))
      || exists m :: Passes(h, p, front, m, false) && Pass(m, p, last, k, down)
  }

  /** Once the loop has ended, further turns are not used. */
  lemma {:induction false} PassesOver(h: seq<Event>, p: nat, turns: seq<Turn>, i: nat, k: seq<Event>)
    requires i <= |turns| && Passes(h, p, turns[..i], k, true)
    ensures Passes(h, p, turns, k, true)
    decreases |turns| - i
  {
    if i < |turns| {
      assert turns[..i + 1][..i] == turns[..i];
      PassesOver(h, p, turns, i + 1, k);
    } else {
      assert turns[..i] == turns;
    }
  }

  lemma Assoc(a: seq<Event>, b: seq<Event>, c: seq<Event>)
    ensures a + b + c == a + (b + c)
  {
  }

  // ----- the status a run ends with -----

  /** The status at the end of the launch block and its handler. */
  function Verdict(t: Turn): RunStatus {
    var reported := if t.success then Completed else Failed;
    if LaunchBlockRaises(t) && !t.crash.Refused? then Failed
    else if t.containerRaises || t.report.Refused? then Running
    else reported
  }

  /** The status a run is released with. */
  function FinalStatus(t: Turn): RunStatus {
    if t.setup != NoFault then Preparing else LaunchedStatus(t)
  }

  function LaunchedStatus(t: Turn): RunStatus {
    match t.launch
    case Applied => Verdict(t)
    case Lost => Running
    case Refused => Preparing
  }

  /** A run is let go while still running exactly when its launch reached the table, and
      either the launch was not acknowledged, or neither a report nor a crash record
      reached the table. */
  lemma LetGoRunningExactly(t: Turn)
    ensures FinalStatus(t) == Running <==>
            && t.setup == NoFault && !t.launch.Refused?
            && (t.launch.Lost? || ((t.containerRaises || t.report.Refused?) && t.crash.Refused?))
  {
  }

  /** A run is let go as completed exactly when its launch was acknowledged, its success
      reached the table, and no crash record overwrote it. */
  lemma LetGoCompletedExactly(t: Turn)
    ensures FinalStatus(t) == Completed <==>
            && t.setup == NoFault && t.launch.Applied? && !t.containerRaises && t.success && !t.report.Refused?
            && (t.report.Lost? ==> t.crash.Refused?)
  {
  }

  /** A run is let go as failed exactly when its launch was acknowledged and its failure
      reached the table: as the container's report, or as the record of a crash. */
  lemma LetGoFailedExactly(t: Turn)
    ensures FinalStatus(t) == Failed <==>
            && t.setup == NoFault && t.launch.Applied?
            && ((!t.containerRaises && !t.success && !t.report.Refused?)
                || ((t.containerRaises || !t.report.Applied?) && !t.crash.Refused?))
  {
  }

  /** A run is let go as it was claimed exactly when its launch never reached the table. */
  lemma LetGoPreparingExactly(t: Turn)
    ensures FinalStatus(t) == Preparing <==> t.setup != NoFault || t.launch.Refused?
  {
  }

  /** A held run names its holder's row. */
  lemma HeldUnderRow(h: seq<Event>, p: nat, run: nat)
    requires p < |Exec(h).procs| && Holds(Exec(h).procs[p].pc) && Target(Exec(h).procs[p].pc) == Some(run)
    ensures run < |Exec(h).runs| && Exec(h).runs[run].workerId == Some(Exec(h).procs[p].row)
  {
    ExecInv(h);
    assert PlaceAgrees(Exec(h).procs[p], Exec(h).runs, Exec(h).released);
  }

  /** Where a process stands gives the status of its run. */
  lemma StatusWhereHeld(h: seq<Event>, p: nat, run: nat)
    requires p < |Exec(h).procs|
    ensures Exec(h).procs[p].pc == InSetup(run) ==> run < |Exec(h).runs| && Exec(h).runs[run].status == Preparing
    ensures Exec(h).procs[p].pc == InContainer(run) ==> run < |Exec(h).runs| && Exec(h).runs[run].status == Running
  {
    ExecInv(h);
    assert PlaceAgrees(Exec(h).procs[p], Exec(h).runs, Exec(h).released);
  }

  // ----- the program -----

  /** The history went through a claim of the oldest eligible run that was not acknowledged. */
  ghost predicate AbortedClaim(s: State, h: seq<Event>, p: nat, t: Turn, k: seq<Event>) {
    exists r :: OldestEligible(s, r) && k == h + ClaimSteps(t, p, r)
  }

  /** claim_next_run, with the handler `main` puts around it: the oldest eligible run is
      locked and the claim committed, or there is none. */
  method ClaimNextRun(db: Database, p: nat, t: Turn) returns (run: Option<nat>, raised: bool)
    requires db.At(p, AtPoll) && ForeignTurn(t, p)
    modifies db
    ensures p < |db.procs| && db.procs[p].row == old(db.procs)[p].row
    ensures Extends(old(db.history), db.history, p)
    ensures db.At(p, if run.Some? then InSetup(run.value) else AtPoll)
    ensures run.None? && !raised ==>
              db.history == old(db.history) && forall r :: 0 <= r < |db.runs| ==> !Eligible(db.View(), r)
    ensures run.Some? ==>
              OldestEligible(old(db.View()), run.value) && db.history == old(db.history) + ClaimSteps(t, p, run.value)
    ensures raised ==> run.None? && AbortedClaim(old(db.View()), old(db.history), p, t, db.history)
    ensures raised || run.Some? ==> (run.Some? <==> t.commit.Applied?)
    ensures run.Some? ==> OldestUnlocked(old(db.runs), old(db.procs), run.value)
    ensures run.None? && t.commit.Applied? ==> NoneUnlocked(old(db.runs), old(db.procs))
  {
    var row := db.SelectOldestPending();
    if row.None? {
      return None, false;
    }
    ghost var h0 := db.history;
    db.Advance(p, Lock(p, row.value), AtPoll);
    ghost var h1 := db.history;
    db.Interleave(t.beforeCommit, p, InClaim(row.value));
    ExtendsTransitive(h0, h1, db.history, p);
    ghost var h2 := db.history;
    raised := db.CommitClaim(p, row.value, t.commit);
    ExtendsTransitive(h0, h2, db.history, p);
    Assoc(h1, t.beforeCommit, [Commit(p, t.commit)]);
    Assoc(h0, [Lock(p, row.value)], t.beforeCommit + [Commit(p, t.commit)]);
    run := if raised then None else row;
  }

  /** run_container: the status writes, and the handler around the launch block. */
  method RunContainer(db: Database, p: nat, run: nat, t: Turn) returns (leaving: bool)
    requires db.At(p, InSetup(run)) && ForeignTurn(t, p)
    modifies db
    ensures p < |db.procs| && db.procs[p].row == old(db.procs)[p].row
    ensures db.At(p, InRelease(run, leaving)) && Extends(old(db.history), db.history, p)
    ensures leaving <==> t.setup == Exits
    ensures db.StatusOf(run) == Some(FinalStatus(t))
    ensures db.history == old(db.history) + ContainerSteps(t, p)
  {
    ghost var h0 := db.history;
    StatusWhereHeld(h0, p, run);
    db.Interleave(t.beforeLaunch, p, InSetup(run));
    assert db.StatusOf(run) == Some(Preparing);
    ghost var h1 := db.history;
    if t.setup != NoFault {
      leaving := t.setup.Exits?;
      db.Advance(p, SetupFails(p, leaving), InSetup(run));
      ExtendsTransitive(h0, h1, db.history, p);
      Assoc(h0, t.beforeLaunch, [SetupFails(p, leaving)]);
      return;
    }
    leaving := false;
    LaunchAndRun(db, p, run, t);
    ExtendsTransitive(h0, h1, db.history, p);
    Assoc(h0, t.beforeLaunch, LaunchSteps(t, p));
  }

  /** run_container from its first status write on. */
  method LaunchAndRun(db: Database, p: nat, run: nat, t: Turn)
    requires db.At(p, InSetup(run)) && db.StatusOf(run) == Some(Preparing) && ForeignTurn(t, p)
    modifies db
    ensures p < |db.procs| && db.procs[p].row == old(db.procs)[p].row
    ensures db.At(p, InRelease(run, false)) && Extends(old(db.history), db.history, p)
    ensures db.history == old(db.history) + LaunchSteps(t, p)
    ensures db.StatusOf(run) == Some(LaunchedStatus(t))
  {
    ghost var h0 := db.history;
    var raised := db.SetRunStatus(p, run, Running, Launch(p, t.launch));
    if !raised {
      ghost var h1 := db.history;
      RunLaunchBlock(db, p, run, t);
      ExtendsTransitive(h0, h1, db.history, p);
      Assoc(h0, [Launch(p, t.launch)], LaunchBlockSteps(t, p));
    }
  }

  /** The try statement of run_container. */
  method RunLaunchBlock(db: Database, p: nat, run: nat, t: Turn)
    requires db.At(p, InContainer(run)) && ForeignTurn(t, p)
    modifies db
    ensures p < |db.procs| && db.procs[p].row == old(db.procs)[p].row
    ensures db.At(p, InRelease(run, false)) && Extends(old(db.history), db.history, p)
    ensures db.history == old(db.history) + LaunchBlockSteps(t, p)
    ensures db.StatusOf(run) == Some(Verdict(t))
  {
    ghost var h0 := db.history;
    StatusWhereHeld(h0, p, run);
    db.Interleave(t.beforeReport, p, InContainer(run));
    ghost var h1 := db.history;
    var crashed := t.containerRaises;
    if crashed {
      db.Advance(p, ContainerFails(p), InContainer(run));
    } else {
      crashed := db.SetRunStatus(p, run, if t.success then Completed else Failed, Report(p, t.success, t.report));
    }
    ghost var e := LaunchBlockEnd(t, p);
    assert db.history == h1 + [e] && (crashed <==> LaunchBlockRaises(t));
    ExtendsTransitive(h0, h1, db.history, p);
    ghost var h2 := db.history;
    if crashed {
      HandleCrash(db, p, run, t);
      ExtendsTransitive(h0, h2, db.history, p);
    }
    ghost var rest := if crashed then HandlerSteps(t, p) else [];
    assert db.history == h1 + [e] + rest;
    Assoc(h1, [e], rest);
    Assoc(h0, t.beforeReport, [e] + rest);
  }

  /** Its exception handler. */
  method HandleCrash(db: Database, p: nat, run: nat, t: Turn)
    requires db.At(p, InCrash(run)) && ForeignTurn(t, p)
    modifies db
    ensures p < |db.procs| && db.procs[p].row == old(db.procs)[p].row
    ensures db.At(p, InRelease(run, false)) && Extends(old(db.history), db.history, p)
    ensures db.history == old(db.history) + HandlerSteps(t, p)
    ensures db.StatusOf(run) == if t.crash.Refused? then old(db.StatusOf(run)) else Some(Failed)
  {
    ghost var h0 := db.history;
    db.Interleave(t.beforeCrash, p, InCrash(run));
    ghost var h1 := db.history;
    var _ := db.SetRunStatus(p, run, Failed, RecordCrash(p, t.crash));
    ExtendsTransitive(h0, h1, db.history, p);
    Assoc(h0, t.beforeCrash, [RecordCrash(p, t.crash)]);
  }

  /** The inner try and finally of the main loop, after a claim; returns whether the
      process must shut down. */
  method RunAndRelease(db: Database, p: nat, run: nat, t: Turn) returns (down: bool)
    requires db.At(p, InSetup(run)) && ForeignTurn(t, p)
    modifies db
    ensures db.At(p, if down then InShutdown else AtPoll) && Extends(old(db.history), db.history, p)
    ensures down <==> (t.setup == Exits || !t.release.Applied?)
    ensures db.history == old(db.history) + HeldSteps(t, p)
    ensures db.StatusOf(run) == Some(FinalStatus(t)) && Unheld(db.View(), run)
    ensures db.procs[p].row == old(db.procs)[p].row && db.procs[p].row < |db.workers|
    ensures !t.release.Refused? ==>
              db.workers[db.procs[p].row].status == Idle && db.workers[db.procs[p].row].currentRun == None
    ensures run < |db.runs| && db.runs[run].workerId == Some(db.procs[p].row)
  {
    ghost var h0 := db.history;
    var leaving := RunContainer(db, p, run, t);
    ghost var h1 := db.history;
    db.Interleave(t.beforeRelease, p, InRelease(run, leaving));
    ExtendsTransitive(h0, h1, db.history, p);
    ghost var h2 := db.history;
    HeldUnderRow(h2, p, run);
    var raised := db.ReleaseWorker(p, run, leaving, t.release);
    ExtendsTransitive(h0, h2, db.history, p);
    Assoc(h1, t.beforeRelease, [Release(p, t.release)]);
    Assoc(h0, ContainerSteps(t, p), t.beforeRelease + [Release(p, t.release)]);
    down := raised || leaving;
  }

  /** After the history the run has this status under this worker row, and nobody holds
      it. */
  ghost predicate LeftWith(h: seq<Event>, run: nat, row: nat, status: RunStatus) {
    && run < |Exec(h).runs| && Exec(h).runs[run].status == status && Exec(h).runs[run].workerId == Some(row)
    && Unheld(Exec(h), run)
  }

  /** A claimed run nobody holds stays as it is while any processes run. */
  lemma LetGoAt(h: seq<Event>, more: seq<Event>, run: nat)
    requires run < |Exec(h).runs| && Exec(h).runs[run].status != Pending && Unheld(Exec(h), run)
    ensures run < |Exec(h + more).runs| && Exec(h + more).runs[run] == Exec(h).runs[run] && Unheld(Exec(h + more), run)
  {
    var k := h + more;
    assert k[..|h|] == h && k[..|k|] == k;
    LetGoForGood(k, |h|, |k|, run, Exec(h).runs[run]);
  }

  /** A pass after its claim, up to the next poll. */
  method FinishPass(db: Database, p: nat, run: nat, t: Turn) returns (down: bool)
    requires db.At(p, InSetup(run)) && ForeignTurn(t, p)
    modifies db
    ensures p < |db.procs| && db.procs[p].row == old(db.procs)[p].row
    ensures db.At(p, if down then InShutdown else AtPoll) && Extends(old(db.history), db.history, p)
    ensures down <==> (t.setup == Exits || !t.release.Applied?)
    ensures db.history == old(db.history) + HeldSteps(t, p) + t.afterwards
    ensures LeftWith(db.history, run, db.procs[p].row, FinalStatus(t))
  {
    ghost var h0 := db.history;
    down := RunAndRelease(db, p, run, t);
    ghost var h := db.history;
    db.Interleave(t.afterwards, p, if down then InShutdown else AtPoll);
    ExtendsTransitive(h0, h, db.history, p);
    LetGoAt(h, t.afterwards, run);
  }

  /** What became of the pass that began at moment m: it claimed the oldest pending run
      nobody had locked, which after the history h has the status the turn dictates, under
      the worker's row; or there was no such run, or the commit failed. */
  ghost predicate PassDone(h: seq<Event>, m: nat, row: nat, t: Turn, claim: Option<nat>)
    requires m <= |h|
  {
    var s := Before(h, m);
    match claim
    case None => !t.commit.Applied? || NoneUnlocked(s.runs, s.procs)
    case Some(r) => OldestUnlocked(s.runs, s.procs, r) && LeftWith(h, r, row, FinalStatus(t))
  }

  lemma PassStaysDone(h: seq<Event>, k: seq<Event>, m: nat, row: nat, t: Turn, claim: Option<nat>)
    requires m <= |h| && h <= k && PassDone(h, m, row, t, claim)
    ensures PassDone(k, m, row, t, claim)
  {
    assert k[..m] == h[..m] && k == h + k[|h|..];
    if claim.Some? {
      LetGoAt(h, k[|h|..], claim.value);
    }
  }

  /** One pass of the main loop. */
  method MainPass(db: Database, p: nat, t: Turn) returns (down: bool, ghost claimed: Option<nat>)
    requires db.At(p, AtPoll) && ForeignTurn(t, p)
    modifies db
    ensures p < |db.procs| && db.procs[p].row == old(db.procs)[p].row
    ensures db.At(p, if down then InShutdown else AtPoll) && Extends(old(db.history), db.history, p)
    ensures Pass(old(db.history), p, t, db.history, down)
    ensures old(db.history) <= db.history && PassDone(db.history, |old(db.history)|, db.procs[p].row, t, claimed)
    ensures down <==> claimed.Some? && Ends(t)
  {
    ghost var h0 := db.history;
    ghost var runs, procs := db.runs, db.procs;
    down := false;
    var run, raised := ClaimNextRun(db, p, t);
    claimed := run;
    ghost var h := db.history;
    if run.Some? {
      down := FinishPass(db, p, run.value, t);
    } else {
      db.Interleave(t.afterwards, p, AtPoll);
    }
    ExtendsTransitive(h0, h, db.history, p);
    assert db.history[..|h0|] == h0;
  }

  /** After its claim, the pass ends the loop. */
  predicate Ends(t: Turn) {
    t.setup.Exits? || !t.release.Applied?
  }

  /** Leave the main loop, by the stop event unless an exception did it, and run the outer
      finally. */
  method ShutDown(db: Database, p: nat, down: bool, signOff: Write)
    requires db.At(p, if down then InShutdown else AtPoll)
    modifies db
    ensures p < |db.procs| && db.procs[p].row == old(db.procs)[p].row
    ensures db.At(p, Gone) && Extends(old(db.history), db.history, p)
    ensures db.history == old(db.history) + (if down then [] else [Stop(p)]) + [SignOff(p, signOff)]
    ensures db.runs == old(db.runs) && SignedOff(old(db.workers), db.workers, db.procs[p].row, signOff)
  {
    ghost var h0 := db.history;
    if !down {
      db.Advance(p, Stop(p), AtPoll);
    }
    ghost var h := db.history;
    assert h == h0 + if down then [] else [Stop(p)];
    db.SignOffWorker(p, signOff);
    ExtendsTransitive(h0, h, db.history, p);
  }

  /** The passes of the loop: the i-th began at moment starts[i] and claimed claims[i].  They
      are all the turns, or end with the first that ends the loop. */
  ghost predicate LoopDone(h: seq<Event>, row: nat, turns: seq<Turn>, starts: seq<nat>, claims: seq<Option<nat>>,
          down: bool)
  {
    && |starts| == |claims| <= |turns|
    && (forall i :: 0 <= i < |claims| ==> starts[i] <= |h| && PassDone(h, starts[i], row, turns[i], claims[i]))
    && (forall i :: 0 <= i < |claims| && claims[i].Some? && Ends(turns[i]) ==> down && i == |claims| - 1)
    && (down ==> claims != [] && claims[|claims| - 1].Some? && Ends(turns[|claims| - 1]))
  }

  lemma LoopStep(h: seq<Event>, k: seq<Event>, row: nat, turns: seq<Turn>, starts: seq<nat>, claims: seq<Option<nat>>,
          claim: Option<nat>, down: bool)
    requires LoopDone(h, row, turns, starts, claims, false) && |claims| < |turns| && h <= k
    requires PassDone(k, |h|, row, turns[|claims|], claim) && (down <==> claim.Some? && Ends(turns[|claims|]))
    ensures LoopDone(k, row, turns, starts + [|h|], claims + [claim], down)
  {
    var starts2, claims2 := starts + [|h|], claims + [claim];
    forall i | 0 <= i < |claims2|
      ensures starts2[i] <= |k| && PassDone(k, starts2[i], row, turns[i], claims2[i])
    {
      if i < |claims| {
        PassStaysDone(h, k, starts[i], row, turns[i], claims[i]);
      }
    }
  }

  /** The main loop; returns whether an exception ended it. */
  method MainLoop(db: Database, p: nat, turns: seq<Turn>)
    returns (down: bool, ghost starts: seq<nat>, ghost claims: seq<Option<nat>>)
    requires db.At(p, AtPoll) && forall i :: 0 <= i < |turns| ==> ForeignTurn(turns[i], p)
    modifies db
    ensures p < |db.procs| && db.procs[p].row == old(db.procs)[p].row
    ensures db.At(p, if down then InShutdown else AtPoll) && Extends(old(db.history), db.history, p)
    ensures Passes(old(db.history), p, turns, db.history, down)
    ensures LoopDone(db.history, db.procs[p].row, turns, starts, claims, down) && (!down ==> |claims| == |turns|)
    ensures claims != [] ==> starts[0] == |old(db.history)|
  {
    ghost var h0, row := db.history, db.procs[p].row;
    var i := 0;
    down, starts, claims := false, [], [];
    while i < |turns| && !down
      invariant 0 <= i <= |turns| && |claims| == i && p < |db.procs| && db.procs[p].row == row
      invariant db.At(p, if down then InShutdown else AtPoll) && Extends(h0, db.history, p)
      invariant Passes(h0, p, turns[..i], db.history, down)
      invariant LoopDone(db.history, row, turns, starts, claims, down)
      invariant if claims == [] then db.history == h0 else starts[0] == |h0|
    {
      assert turns[..i + 1][..i] == turns[..i];
      ghost var h := db.history;
      ghost var claimed;
      down, claimed := MainPass(db, p, turns[i]);
      ExtendsTransitive(h0, h, db.history, p);
      LoopStep(h, db.history, row, turns, starts, claims, claimed, down);
      starts, claims := starts + [|h|], claims + [claimed];
      i := i + 1;
    }
    if down {
      PassesOver(h0, p, turns, i, db.history);
    } else {
      assert turns[..i] == turns;
    }
  }

  lemma LoopStaysDone(h: seq<Event>, k: seq<Event>, row: nat, turns: seq<Turn>, starts: seq<nat>,
          claims: seq<Option<nat>>, down: bool)
    requires LoopDone(h, row, turns, starts, claims, down) && h <= k
    ensures LoopDone(k, row, turns, starts, claims, down)
  {
    forall i | 0 <= i < |claims| ensures starts[i] <= |k| && PassDone(k, starts[i], row, turns[i], claims[i]) {
      PassStaysDone(h, k, starts[i], row, turns[i], claims[i]);
    }
  }

  /** main: claim, run and release until told to stop (the turns run out) or until an
      exception ends the loop; then sign off.  Whatever happens, the process goes through
      its passes in order and ends, each of its steps was enabled, and the database is in
      a reachable state.  Each pass has claimed what it should and left it with the status
      its turn dictates; and the worker's row ends 'offline' unless the sign-off was
      refused. */
  method WorkerMain(db: Database, name: string, turns: seq<Turn>, signOff: Write)
    returns (ghost p: nat, ghost starts: seq<nat>, ghost claims: seq<Option<nat>>, ghost down: bool)
    requires db.Valid()
    requires forall i :: 0 <= i < |turns| ==> ForeignTurn(turns[i], |db.procs|)
    modifies db
    ensures p == |old(db.procs)| && db.At(p, Gone) && Inv(db.View())
    ensures Extends(old(db.history) + [Register(name)], db.history, p)
    ensures exists k :: Passes(old(db.history) + [Register(name)], p, turns, k, down) &&
              db.history == k + (if down then [] else [Stop(p)]) + [SignOff(p, signOff)] &&
              SignedOff(Exec(k).workers, db.workers, db.procs[p].row, signOff)
    ensures LoopDone(db.history, db.procs[p].row, turns, starts, claims, down) && (!down ==> |claims| == |turns|)
    ensures claims != [] ==> starts[0] == |old(db.history)| + 1
    ensures db.procs[p].row < |db.workers| && db.workers[db.procs[p].row].name == name
    ensures !signOff.Refused? ==> db.workers[db.procs[p].row].status == Offline
  {
    var me := |db.procs|;
    var _, self := db.RegisterWorker(name);
    p := self;
    ghost var h0 := db.history;
    var ended;
    ended, starts, claims := MainLoop(db, me, turns);
    down := ended;
    ghost var k := db.history;
    ShutDown(db, me, ended, signOff);
    ExtendsTransitive(h0, k, db.history, p);
    LoopStaysDone(k, db.history, db.procs[p].row, turns, starts, claims, down);
    ExecInv(db.history);
    NameKept(h0, db.history, db.procs[p].row);
  }

  /** Worker rows keep their names. */
  lemma {:induction false} NameKept(h: seq<Event>, k: seq<Event>, row: nat)
    requires h <= k && row < |Exec(h).workers|
    ensures row < |Exec(k).workers| && Exec(k).workers[row].name == Exec(h).workers[row].name
    decreases |k|
  {
    if h == k {
      assert k == h;
    } else {
      var front := k[..|k| - 1];
      assert h <= front;
      NameKept(h, front, row);
      ExecInv(front);
      WorkersStay(Exec(front), k[|k| - 1]);
      NamesStep(Exec(front), k[|k| - 1], row);
    }
  }

  lemma WorkersStay(s: State, e: Event)
    requires Inv(s)
    ensures |s.workers| <= |Step(s, e).workers|
  {
  }
}
