/** Executions that show which hypotheses of the pool's guarantees are needed. */
module WorkerFaults {
  import opened Wrappers
  import opened WorkerPool
  import opened WorkerHistory

  lemma ExecSnoc(es: seq<Event>, e: Event)
    ensures Exec(es + [e]) == Step(Exec(es), e)
  {
    assert (es + [e])[..|es|] == es;
  }

  lemma OneClaimedOneCurrent(s: State)
    requires s.runs == [Run(Preparing, Some(0), 0), Run(Pending, None, 1)]
    requires |s.workers| == 1 && s.workers[0].currentRun == Some(0) && s.workers[0].totalCompleted == 0
    ensures Deficit(s) == 0
  {
    assert Claimed(s) == {0};
    assert s.workers[..0] == [];
    assert SumTotals(s.workers) == SumTotals(s.workers[..0]);
    assert Holders(s.workers) == Holders(s.workers[..0]) + 1;
  }

  function Row(run: Option<nat>, total: nat): WorkerRow {
    WorkerRow("w", if run.Some? then Busy else Idle, run, total)
  }

  /** One worker has claimed the only run and is setting it up. */
  lemma SettingUp() returns (es: seq<Event>)
    ensures |es| == 4 && es[1] == Register("w") && Faultless(es)
    ensures Exec(es) == State([Run(Preparing, Some(0), 0)], [Row(Some(0), 0)], [Process(0, InSetup(0))], {})
  {
    ExecSnoc([], Enqueue(0));
    es := [] + [Enqueue(0)];
    ExecSnoc(es, Register("w"));
    es := es + [Register("w")];
    assert Exec(es) == State([Run(Pending, None, 0)], [Row(None, 0)], [Process(0, AtPoll)], {});
    ExecSnoc(es, Lock(0, 0));
    es := es + [Lock(0, 0)];
    assert Exec(es) == State([Run(Pending, None, 0)], [Row(None, 0)], [Process(0, InClaim(0))], {});
    ExecSnoc(es, Commit(0, Applied));
    es := es + [Commit(0, Applied)];
  }

  /** The worker was killed, with a second run waiting. */
  lemma Killed() returns (es: seq<Event>)
    ensures |es| == 6 && es[1] == Register("w") && Faultless(es)
    ensures Exec(es) ==
        State([Run(Preparing, Some(0), 0), Run(Pending, None, 1)], [Row(Some(0), 0)], [Process(0, Gone)], {})
  {
    es := SettingUp();
    ExecSnoc(es, Enqueue(1));
    es := es + [Enqueue(1)];
    ExecSnoc(es, Kill(0));
    es := es + [Kill(0)];
  }

  /** It was started again under its name, and has locked the second run. */
  lemma Restarted() returns (es: seq<Event>)
    ensures Faultless(es)
    ensures |es| == 8 && es[1] == Register("w") && es[6] == Register("w")
    ensures Exec(es) == State([Run(Preparing, Some(0), 0), Run(Pending, None, 1)], [Row(Some(0), 0).(status := Idle)],
                              [Process(0, Gone), Process(0, InClaim(1))], {})
  {
    es := Killed();
    ExecSnoc(es, Register("w"));
    es := es + [Register("w")];
    assert Exec(es) == State([Run(Preparing, Some(0), 0), Run(Pending, None, 1)], [Row(Some(0), 0).(status := Idle)],
                             [Process(0, Gone), Process(0, AtPoll)], {});
    ExecSnoc(es, Lock(1, 1));
    es := es + [Lock(1, 1)];
  }

  /** A worker killed while it holds a run, and started again under its name, claims
      over the current_run_id it never cleared: one run drops off the books. */
  lemma RestartLosesARun() returns (es: seq<Event>)
    ensures Faultless(es) && !NoRestarts(es)
    ensures Deficit(Exec(es)) == 1
  {
    var before := Restarted();
    ExecInv(before);
    var s := Exec(before);
    OneClaimedOneCurrent(s);
    DeficitMovesByDrift(s, Commit(1, Applied));
    ExecSnoc(before, Commit(1, Applied));
    es := before + [Commit(1, Applied)];
    assert es[1].name == es[6].name;
  }

  /** The commit is written but its acknowledgement is lost: the worker polls again with its
      current_run_id set, and claims over it. */
  lemma LostCommitLosesARun() returns (es: seq<Event>)
    ensures forall i, j :: 0 <= i < j < |es| ==> !(es[i].Register? && es[j].Register?)
    ensures forall i :: 0 <= i < |es| ==> es[i] == Commit(0, Lost) || WritesSucceed(es[i])
    ensures Deficit(Exec(es)) == 1
  {
    var before := LostCommit();
    ExecInv(before);
    var s := Exec(before);
    OneClaimedOneCurrent(s);
    DeficitMovesByDrift(s, Commit(0, Applied));
    ExecSnoc(before, Commit(0, Applied));
    es := before + [Commit(0, Applied)];
  }

  lemma LostCommit() returns (es: seq<Event>)
    ensures es == [Enqueue(0), Register("w"), Enqueue(1), Lock(0, 0), Commit(0, Lost), Lock(0, 1)]
    ensures Exec(es) == State([Run(Preparing, Some(0), 0), Run(Pending, None, 1)], [Row(Some(0), 0)],
                              [Process(0, InClaim(1))], {})
  {
    es := FirstLocked();
    ExecSnoc(es, Commit(0, Lost));
    es := es + [Commit(0, Lost)];
    assert Exec(es) ==
           State([Run(Preparing, Some(0), 0), Run(Pending, None, 1)], [Row(Some(0), 0)], [Process(0, AtPoll)], {});
    ExecSnoc(es, Lock(0, 1));
    es := es + [Lock(0, 1)];
  }

  lemma FirstLocked() returns (es: seq<Event>)
    ensures es == [Enqueue(0), Register("w"), Enqueue(1), Lock(0, 0)]
    ensures Exec(es) ==
            State([Run(Pending, None, 0), Run(Pending, None, 1)], [Row(None, 0)], [Process(0, InClaim(0))], {})
  {
    es := TwoPending();
    assert Eligible(Exec(es), 0);
    ExecSnoc(es, Lock(0, 0));
    es := es + [Lock(0, 0)];
  }

  lemma TwoPending() returns (es: seq<Event>)
    ensures es == [Enqueue(0), Register("w"), Enqueue(1)]
    ensures Exec(es) == State([Run(Pending, None, 0), Run(Pending, None, 1)], [Row(None, 0)], [Process(0, AtPoll)], {})
  {
    ExecSnoc([], Enqueue(0));
    es := [] + [Enqueue(0)];
    assert Exec(es) == State([Run(Pending, None, 0)], [], [], {});
    ExecSnoc(es, Register("w"));
    es := es + [Register("w")];
    assert Exec(es) == State([Run(Pending, None, 0)], [Row(None, 0)], [Process(0, AtPoll)], {});
    ExecSnoc(es, Enqueue(1));
    es := es + [Enqueue(1)];
  }

  /** The worker's container is running. */
  lemma InTheContainer() returns (es: seq<Event>)
    ensures Exec(es) == State([Run(Running, Some(0), 0)], [Row(Some(0), 0)], [Process(0, InContainer(0))], {})
  {
    es := SettingUp();
    ExecSnoc(es, Launch(0, Applied));
    es := es + [Launch(0, Applied)];
  }

  /** The report is written but its acknowledgement is lost: the crash handler then
      turns a completed run into a failed one. */
  lemma LostReportFailsACompletedRun() returns (es: seq<Event>, e: Event)
    ensures |Exec(es).runs| == 1 == |Exec(es + [e]).runs|
    ensures Exec(es).runs[0].status == Completed && Exec(es + [e]).runs[0].status == Failed
  {
    es := InTheContainer();
    ExecSnoc(es, Report(0, true, Lost));
    es := es + [Report(0, true, Lost)];
    e := RecordCrash(0, Applied);
    ExecSnoc(es, e);
  }

  /** The launch UPDATE is written but its acknowledgement is lost: the worker lets go
      of a run that stays 'running'. */
  lemma LostLaunchLeavesARunRunning() returns (es: seq<Event>)
    ensures |Exec(es).runs| == 1 && 0 in Exec(es).released && Exec(es).runs[0].status == Running
  {
    es := SettingUp();
    ExecSnoc(es, Launch(0, Lost));
    es := es + [Launch(0, Lost)];
    ExecSnoc(es, Release(0, Applied));
    es := es + [Release(0, Applied)];
  }

  lemma CrashRefused() returns (es: seq<Event>)
    ensures Exec(es) == State([Run(Running, Some(0), 0)], [Row(Some(0), 0)], [Process(0, InRelease(0, false))], {})
  {
    es := InTheHandler();
    ExecSnoc(es, RecordCrash(0, Refused));
    es := es + [RecordCrash(0, Refused)];
  }

  lemma InTheHandler() returns (es: seq<Event>)
    ensures Exec(es) == State([Run(Running, Some(0), 0)], [Row(Some(0), 0)], [Process(0, InCrash(0))], {})
  {
    es := InTheContainer();
    ExecSnoc(es, ContainerFails(0));
    es := es + [ContainerFails(0)];
  }

  /** The container fails and the crash record is refused: the worker lets go of a run that
      stays 'running'. */
  lemma RefusedCrashRecordLeavesARunRunning() returns (es: seq<Event>)
    ensures |Exec(es).runs| == 1 && 0 in Exec(es).released && Exec(es).runs[0].status == Running
  {
    es := CrashRefused();
    ExecSnoc(es, Release(0, Applied));
    es := es + [Release(0, Applied)];
  }
}
