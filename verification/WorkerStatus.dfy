/** What a run's status says about its history, whatever writes fail. */
module WorkerStatus {
  import opened Wrappers
  import opened WorkerPool
  import opened WorkerHistory

  // ----- statuses after any history -----

  /** The status an event writes to run r, if it writes one. */
  function Written(s: State, e: Event, r: nat): Option<RunStatus> {
    if IsMove(e) && Enabled(s, e) && Target(s.procs[e.p].pc) == Some(r) then StatusWritten(e) else None
  }

  /** Some UPDATE of the history wrote this status to run r, acknowledged or not. */
  ghost predicate EverWritten(es: seq<Event>, r: nat, status: RunStatus)
    decreases |es|
  {
    es != [] &&
    (EverWritten(es[..|es| - 1], r, status) || Written(Exec(es[..|es| - 1]), es[|es| - 1], r) == Some(status))
  }

  ghost function WrittenAt(es: seq<Event>, i: nat, r: nat): Option<RunStatus>
    requires i < |es|
  {
    Written(Before(es, i), es[i], r)
  }

  lemma WrittenAtPrefix(es: seq<Event>, n: nat, i: nat, r: nat)
    requires i < n <= |es|
    ensures WrittenAt(es[..n], i, r) == WrittenAt(es, i, r)
  {
    assert es[..n][..i] == es[..i];
  }

  lemma WrittenLast(es: seq<Event>, r: nat, status: RunStatus)
    requires es != []
    ensures EverWritten(es, r, status) <==>
            EverWritten(es[..|es| - 1], r, status) || WrittenAt(es, |es| - 1, r) == Some(status)
  {
  }

  lemma {:induction false} WrittenOnce(es: seq<Event>, n: nat, i: nat, r: nat, status: RunStatus)
    requires i < n <= |es| && WrittenAt(es, i, r) == Some(status)
    ensures EverWritten(es[..n], r, status)
    decreases n
  {
    var front := es[..n];
    WrittenLast(front, r, status);
    WrittenAtPrefix(es, n, i, r);
    if i < n - 1 {
      assert front[..n - 1] == es[..n - 1];
      WrittenOnce(es, n - 1, i, r, status);
    }
  }

  /** What a write presupposes. */
  lemma WrittenOver(s: State, e: Event, r: nat)
    requires Inv(s) && Written(s, e, r).Some?
    ensures r < |s.runs|
    ensures match Written(s, e, r).value
            case Pending => false
            case Preparing => s.runs[r].status == Pending
            case Running => s.runs[r].status == Preparing
            case Completed => s.runs[r].status == Running
            case Failed => s.runs[r].status in {Running, Completed, Failed}
  {
    assert PlaceAgrees(s.procs[e.p], s.runs, s.released);
  }

  lemma StatusAfter(s: State, e: Event, r: nat)
    requires Inv(s) && r < |Step(s, e).runs|
    ensures Step(s, e).runs[r].status ==
            if Written(s, e, r).Some? then Written(s, e, r).value
            else if r < |s.runs| then s.runs[r].status else Pending
    ensures |s.runs| <= |Step(s, e).runs|
  {
  }

  /** The latest of the statuses ever written. */
  ghost function Latest(es: seq<Event>, r: nat): RunStatus {
    if EverWritten(es, r, Failed) then Failed
    else if EverWritten(es, r, Completed) then Completed
    else if EverWritten(es, r, Running) then Running
    else if EverWritten(es, r, Preparing) then Preparing
    else Pending
  }

  /** Statuses are written in order, and only to runs that exist. */
  ghost predicate WrittenInOrder(es: seq<Event>, r: nat) {
    && (EverWritten(es, r, Failed) || EverWritten(es, r, Completed) ==> EverWritten(es, r, Running))
    && (EverWritten(es, r, Running) ==> EverWritten(es, r, Preparing))
    && (EverWritten(es, r, Preparing) ==> r < |Exec(es).runs|)
  }

  lemma LatestStep(es: seq<Event>, r: nat)
    requires es != [] && Written(Exec(es[..|es| - 1]), es[|es| - 1], r) == None
    ensures Latest(es, r) == Latest(es[..|es| - 1], r)
    ensures forall st :: EverWritten(es, r, st) <==> EverWritten(es[..|es| - 1], r, st)
  {
  }

  lemma LatestAfterWrite(es: seq<Event>, r: nat)
    requires es != [] && Written(Exec(es[..|es| - 1]), es[|es| - 1], r).Some?
    requires var s := Exec(es[..|es| - 1]); r < |s.runs| && s.runs[r].status == Latest(es[..|es| - 1], r)
    requires WrittenInOrder(es[..|es| - 1], r)
    ensures r < |Exec(es).runs| && Latest(es, r) == Exec(es).runs[r].status && WrittenInOrder(es, r)
  {
    var front, last := es[..|es| - 1], es[|es| - 1];
    ExecInv(front);
    WrittenOver(Exec(front), last, r);
    StatusAfter(Exec(front), last, r);
  }

  lemma {:induction false} StatusIsLatest(es: seq<Event>, r: nat)
    ensures WrittenInOrder(es, r)
    ensures r < |Exec(es).runs| ==> Exec(es).runs[r].status == Latest(es, r)
    decreases |es|
  {
    if es != [] {
      var front, last := es[..|es| - 1], es[|es| - 1];
      StatusIsLatest(front, r);
      ExecInv(front);
      if Written(Exec(front), last, r).Some? {
        WrittenOver(Exec(front), last, r);
        LatestAfterWrite(es, r);
      } else {
        LatestStep(es, r);
        if r < |Exec(es).runs| {
          StatusAfter(Exec(front), last, r);
        } else {
          RunsStay(Exec(front), last);
        }
      }
    }
  }

  lemma RunsStay(s: State, e: Event)
    requires Inv(s)
    ensures |s.runs| <= |Step(s, e).runs|
  {
  }

  /** After any history, whatever fails, a run's status says exactly which UPDATEs reached
      it: it is running when a launch did and no report and no crash record has. */
  lemma StatusExactly(es: seq<Event>, r: nat)
    requires r < |Exec(es).runs|
    ensures var status := Exec(es).runs[r].status;
            && (status == Pending <==> !EverWritten(es, r, Preparing))
            && (status == Preparing <==> EverWritten(es, r, Preparing) && !EverWritten(es, r, Running))
            && (status == Running <==>
                EverWritten(es, r, Running) && !EverWritten(es, r, Completed) && !EverWritten(es, r, Failed))
            && (status == Completed <==> EverWritten(es, r, Completed) && !EverWritten(es, r, Failed))
            && (status == Failed <==> EverWritten(es, r, Failed))
  {
    StatusIsLatest(es, r);
  }

  /** A released run is still running exactly when its launch reached the table and its
      verdict did not; it is still preparing exactly when its launch did not. */
  lemma ReleasedRunsExactly(es: seq<Event>, r: nat)
    requires r in Exec(es).released
    ensures r < |Exec(es).runs| && Exec(es).runs[r].status != Pending
    ensures Exec(es).runs[r].status == Preparing <==> !EverWritten(es, r, Running)
    ensures Exec(es).runs[r].status == Running <==>
            EverWritten(es, r, Running) && !EverWritten(es, r, Completed) && !EverWritten(es, r, Failed)
  {
    ExecInv(es);
    StatusExactly(es, r);
  }

  // ----- verdicts overturned -----

  /** At moment i process p reported success for run r, and the acknowledgement was
      lost. */
  ghost predicate LostSuccess(es: seq<Event>, i: nat, p: nat, r: nat)
    requires i < |es|
  {
    es[i] == Report(p, true, Lost) && Enabled(Before(es, i), es[i]) && Before(es, i).procs[p].pc == InContainer(r)
  }

  /** At moment j process p's crash record reached run r. */
  ghost predicate CrashRecorded(es: seq<Event>, j: nat, p: nat, r: nat)
    requires j < |es|
  {
    && es[j].RecordCrash? && es[j].p == p && !es[j].w.Refused?
    && Enabled(Before(es, j), es[j]) && Before(es, j).procs[p].pc == InCrash(r)
  }

  lemma CrashStep(s: State, e: Event, p: nat, r: nat)
    requires Inv(s) && p < |Step(s, e).procs| && Step(s, e).procs[p].pc == InCrash(r)
    requires r < |Step(s, e).runs| && Step(s, e).runs[r].status == Completed
    ensures (e == Report(p, true, Lost) && Enabled(s, e) && s.procs[p].pc == InContainer(r))
            || (p < |s.procs| && s.procs[p].pc == InCrash(r) && r < |s.runs| && s.runs[r].status == Completed)
  {
    TargetStep(s, e, p, r);
    assert PlaceAgrees(s.procs[p], s.runs, s.released);
    StatusAfter(s, e, r);
    if Enabled(s, e) && IsMove(e) && e.p != p && Target(s.procs[e.p].pc) == Some(r) {
      OnlyMoverTargets(s, e, p);
    }
  }

  /** The crash handler meets a completed run only after the report's acknowledgement was
      lost. */
  lemma {:induction false} CrashOfCompleted(es: seq<Event>, p: nat, r: nat) returns (i: nat)
    requires p < |Exec(es).procs| && Exec(es).procs[p].pc == InCrash(r)
    requires r < |Exec(es).runs| && Exec(es).runs[r].status == Completed
    ensures i < |es| && LostSuccess(es, i, p, r)
    decreases |es|
  {
    var n := |es| - 1;
    var front := es[..n];
    ExecInv(front);
    CrashStep(Exec(front), es[n], p, r);
    if es[n] == Report(p, true, Lost) && Enabled(Exec(front), es[n]) && Exec(front).procs[p].pc == InContainer(r) {
      i := n;
    } else {
      i := CrashOfCompleted(front, p, r);
      assert es[..i] == front[..i];
    }
  }

  ghost predicate Overturned(es: seq<Event>, r: nat) {
    EverWritten(es, r, Completed) && EverWritten(es, r, Failed)
  }

  lemma CrashOverturns(es: seq<Event>, i: nat, j: nat, p: nat, r: nat)
    requires i < j < |es| && LostSuccess(es, i, p, r) && CrashRecorded(es, j, p, r)
    ensures Overturned(es, r)
  {
    assert es[..|es|] == es;
    WrittenOnce(es, |es|, i, r, Completed);
    WrittenOnce(es, |es|, j, r, Failed);
  }

  lemma {:induction false} OverturnedBy(es: seq<Event>, r: nat) returns (i: nat, j: nat, p: nat)
    requires Overturned(es, r)
    ensures i < j < |es| && LostSuccess(es, i, p, r) && CrashRecorded(es, j, p, r)
    decreases |es|
  {
    var front := es[..|es| - 1];
    if Overturned(front, r) {
      i, j, p := OverturnedBy(front, r);
      assert es[..i] == front[..i] && es[..j] == front[..j];
    } else {
      i, j, p := OverturnedLast(es, r);
    }
  }

  lemma OverturnedLast(es: seq<Event>, r: nat) returns (i: nat, j: nat, p: nat)
    requires Overturned(es, r) && !Overturned(es[..|es| - 1], r)
    ensures i < j < |es| && LostSuccess(es, i, p, r) && CrashRecorded(es, j, p, r)
  {
    j := |es| - 1;
    p := es[j].p;
    LastWriteOverturns(es, r);
    i := CrashOfCompleted(es[..j], p, r);
    assert es[..i] == es[..j][..i];
  }

  lemma LastWriteOverturns(es: seq<Event>, r: nat)
    requires Overturned(es, r) && !Overturned(es[..|es| - 1], r)
    ensures IsMove(es[|es| - 1]) && CrashRecorded(es, |es| - 1, es[|es| - 1].p, r)
    ensures var s := Exec(es[..|es| - 1]); r < |s.runs| && s.runs[r].status == Completed
  {
    var front, last := es[..|es| - 1], es[|es| - 1];
    ExecInv(front);
    StatusIsLatest(front, r);
    WrittenOver(Exec(front), last, r);
    WrittenBy(Exec(front), last, r);
  }

  /** Which events write which verdict. */
  lemma WrittenBy(s: State, e: Event, r: nat)
    requires Inv(s) && Written(s, e, r).Some?
    ensures Written(s, e, r) == Some(Completed) ==> s.runs[r].status == Running
    ensures Written(s, e, r) == Some(Failed) && s.runs[r].status == Completed ==>
              e.RecordCrash? && !e.w.Refused? && s.procs[e.p].pc == InCrash(r)
  {
    assert PlaceAgrees(s.procs[e.p], s.runs, s.released);
  }

  /** A completed verdict becomes a failed one in a history exactly when the
      acknowledgement of a successful report was lost and the crash record of the same
      process then reached the table. */
  lemma OverturnedExactly(es: seq<Event>, r: nat)
    ensures Overturned(es, r) <==>
            exists i: nat, j: nat, p: nat :: i < j < |es| && LostSuccess(es, i, p, r) && CrashRecorded(es, j, p, r)
  {
    if Overturned(es, r) {
      var i, j, p := OverturnedBy(es, r);
    }
    if i: nat, j: nat, p: nat :| i < j < |es| && LostSuccess(es, i, p, r) && CrashRecorded(es, j, p, r) {
      CrashOverturns(es, i, j, p, r);
    }
  }

  // ----- runs nobody holds -----

  /** No process locks or holds run r. */
  predicate Unheld(s: State, r: nat) {
    forall p :: 0 <= p < |s.procs| ==> Target(s.procs[p].pc) != Some(r)
  }

  lemma UnheldStep(s: State, e: Event, r: nat)
    requires Inv(s) && r < |s.runs| && s.runs[r].status != Pending && Unheld(s, r)
    ensures r < |Step(s, e).runs| && Step(s, e).runs[r] == s.runs[r] && Unheld(Step(s, e), r)
  {
    forall p | 0 <= p < |Step(s, e).procs| ensures Target(Step(s, e).procs[p].pc) != Some(r) {
      if Target(Step(s, e).procs[p].pc) == Some(r) {
        ClaimedRunsAreNotTaken(s, e, p, r);
        assert false;
      }
    }
  }

  /** At moment i run r is this claimed run, and nobody holds it. */
  ghost predicate LetGo(es: seq<Event>, i: nat, r: nat, run: Run)
    requires i <= |es|
  {
    r < |Before(es, i).runs| && Before(es, i).runs[r] == run && run.status != Pending && Unheld(Before(es, i), r)
  }

  lemma LetGoStep(es: seq<Event>, i: nat, r: nat, run: Run)
    requires i < |es| && LetGo(es, i, r, run)
    ensures LetGo(es, i + 1, r, run)
  {
    StepAt(es, i);
    ExecInv(es[..i]);
    UnheldStep(Before(es, i), es[i], r);
  }

  /** Once nobody holds a claimed run, it never changes again. */
  lemma {:induction false} LetGoForGood(es: seq<Event>, i: nat, j: nat, r: nat, run: Run)
    requires i <= j <= |es| && LetGo(es, i, r, run)
    ensures LetGo(es, j, r, run)
    decreases j - i
  {
    if i < j {
      LetGoForGood(es, i, j - 1, r, run);
      LetGoStep(es, j - 1, r, run);
    }
  }
}
