/** The three published workflows and what every run of them satisfies. */
module WorkflowTables {
  import opened Wrappers
  import opened WorkflowRuns

  datatype AdsState =
    | Draft | Submitted | InitiatorReview | ProjectReview | Compliance | Validation
    | Arbitration | Approved | Rejected | Cancelled | RequiresReview | InProgress | Completed

  datatype PlannerState =
    | PDraft | PSubmitted | PApproved | PRejected | PCancelled | PInProgress | PCompleted

  datatype VoyageState =
    | Planned | Confirmed | Boarding | Departed | Delayed | Arrived | Closed | VCancelled

  /** paxlog.ads.submit, paxlog.ads.cancel, paxlog.compliance.manage, paxlog.ads.approve */
  datatype Permission = MaySubmit | MayCancel | MayManageCompliance | MayApprove

  const ADS: Table<AdsState, Permission> := {
    Transition(Draft, Submitted, Some(MaySubmit)),
    Transition(Draft, Cancelled, Some(MayCancel)),
    Transition(Submitted, InitiatorReview, None),
    Transition(InitiatorReview, ProjectReview, None),
    Transition(InitiatorReview, Compliance, None),
    Transition(InitiatorReview, Cancelled, None),
    Transition(Submitted, ProjectReview, None),
    Transition(ProjectReview, Compliance, None),
    Transition(ProjectReview, Rejected, None),
    Transition(Submitted, Compliance, None),
    Transition(Compliance, Validation, Some(MayManageCompliance)),
    Transition(Compliance, Rejected, Some(MayManageCompliance)),
    Transition(Validation, Approved, Some(MayApprove)),
    Transition(Validation, Rejected, Some(MayApprove)),
    Transition(Validation, Arbitration, Some(MayApprove)),
    Transition(Arbitration, Approved, Some(MayApprove)),
    Transition(Arbitration, Rejected, Some(MayApprove)),
    Transition(Approved, InProgress, Some(MayApprove)),
    Transition(Approved, RequiresReview, None),
    Transition(Approved, Cancelled, Some(MayCancel)),
    Transition(InProgress, Completed, Some(MayApprove)),
    Transition(InProgress, RequiresReview, None),
    Transition(RequiresReview, Compliance, Some(MaySubmit)),
    Transition(RequiresReview, Cancelled, Some(MayCancel)),
    Transition(RequiresReview, Submitted, Some(MaySubmit))
  }

  const PLANNER: Table<PlannerState, Permission> := {
    Transition(PDraft, PSubmitted, None),
    Transition(PDraft, PCancelled, None),
    Transition(PSubmitted, PApproved, None),
    Transition(PSubmitted, PRejected, None),
    Transition(PApproved, PInProgress, None),
    Transition(PApproved, PCancelled, None),
    Transition(PInProgress, PCompleted, None),
    Transition(PRejected, PDraft, None)
  }

  const VOYAGE: Table<VoyageState, Permission> := {
    Transition(Planned, Confirmed, None),
    Transition(Planned, VCancelled, None),
    Transition(Confirmed, Boarding, None),
    Transition(Confirmed, Delayed, None),
    Transition(Confirmed, VCancelled, None),
    Transition(Boarding, Departed, None),
    Transition(Boarding, VCancelled, None),
    Transition(Departed, Arrived, None),
    Transition(Departed, Delayed, None),
    Transition(Delayed, Confirmed, None),
    Transition(Delayed, Boarding, None),
    Transition(Delayed, Departed, None),
    Transition(Delayed, VCancelled, None),
    Transition(Arrived, Closed, None)
  }

  // ----- run lengths -----

  function AdsPotential(s: AdsState): nat {
    match s
    case Draft => 9
    case RequiresReview => 9
    case Submitted => 8
    case InitiatorReview => 7
    case ProjectReview => 6
    case Compliance => 5
    case Validation => 4
    case Arbitration => 3
    case Approved => 2
    case InProgress => 1
    case _ => 0
  }

  function PlannerPotential(s: PlannerState): nat {
    match s
    case PRejected => 5
    case PDraft => 4
    case PSubmitted => 3
    case PApproved => 2
    case PInProgress => 1
    case _ => 0
  }

  function VoyagePotential(s: VoyageState): nat {
    match s
    case Planned => 5
    case Delayed => 5
    case Confirmed => 4
    case Boarding => 3
    case Departed => 2
    case Arrived => 1
    case _ => 0
  }

  lemma AdsMeasured()
    ensures Measures(ADS, RequiresReview, 9, AdsPotential)
  {
  }

  lemma PlannerMeasured()
    ensures Measures(PLANNER, PRejected, 3, PlannerPotential)
  {
  }

  lemma VoyageMeasured()
    ensures Measures(VOYAGE, Delayed, 4, VoyagePotential)
  {
  }

  /** An ADS run with k visits to requires_review has at most 9(k+1) transitions. */
  lemma AdsRunLength(run: Run<AdsState, Permission>)
    requires IsRun(ADS, Draft, run)
    ensures |run| <= 9 * (Visits(run, RequiresReview) + 1)
  {
    AdsMeasured();
    RunIsBounded(ADS, Draft, run, RequiresReview, 9, AdsPotential);
  }

  /** A Planner run with r rejections has at most 3r+4. */
  lemma PlannerRunLength(run: Run<PlannerState, Permission>)
    requires IsRun(PLANNER, PDraft, run)
    ensures |run| <= 3 * Visits(run, PRejected) + 4
  {
    PlannerMeasured();
    RunIsBounded(PLANNER, PDraft, run, PRejected, 3, PlannerPotential);
  }

  /** A Voyage run with d delays has at most 4d+5. */
  lemma VoyageRunLength(run: Run<VoyageState, Permission>)
    requires IsRun(VOYAGE, Planned, run)
    ensures |run| <= 4 * Visits(run, Delayed) + 5
  {
    VoyageMeasured();
    RunIsBounded(VOYAGE, Planned, run, Delayed, 4, VoyagePotential);
  }

  // ----- the bounds are reached -----

  /** The long way from draft or requires_review to the start of execution. */
  lemma LongWay(from: AdsState) returns (run: Run<AdsState, Permission>)
    requires from == Draft || from == RequiresReview
    ensures IsRun(ADS, from, run) && End(from, run) == InProgress && |run| == 8 && Visits(run, RequiresReview) == 0
  {
    run := Extend(ADS, from, [], Transition(from, Submitted, Some(MaySubmit)));
    run := Extend(ADS, from, run, Transition(Submitted, InitiatorReview, None));
    run := Extend(ADS, from, run, Transition(InitiatorReview, ProjectReview, None));
    run := Extend(ADS, from, run, Transition(ProjectReview, Compliance, None));
    run := Extend(ADS, from, run, Transition(Compliance, Validation, Some(MayManageCompliance)));
    run := Extend(ADS, from, run, Transition(Validation, Arbitration, Some(MayApprove)));
    run := Extend(ADS, from, run, Transition(Arbitration, Approved, Some(MayApprove)));
    run := Extend(ADS, from, run, Transition(Approved, InProgress, Some(MayApprove)));
  }

  lemma UntilReview(from: AdsState) returns (run: Run<AdsState, Permission>)
    requires from == Draft || from == RequiresReview
    ensures IsRun(ADS, from, run) && End(from, run) == RequiresReview && |run| == 9 && Visits(run, RequiresReview) == 1
  {
    run := LongWay(from);
    run := Extend(ADS, from, run, Transition(InProgress, RequiresReview, None));
  }

  /** For every k some ADS run with k visits to requires_review has 9(k+1) transitions. */
  lemma AdsRunLengthIsReached(k: nat) returns (run: Run<AdsState, Permission>)
    ensures IsRun(ADS, Draft, run) && Visits(run, RequiresReview) == k && |run| == 9 * (k + 1)
  {
    var from := if k == 0 then Draft else RequiresReview;
    var out := LongWay(from);
    out := Extend(ADS, from, out, Transition(InProgress, Completed, Some(MayApprove)));
    if k == 0 {
      run := out;
    } else {
      var into := UntilReview(Draft);
      var loop := UntilReview(RequiresReview);
      run := InAroundOut(ADS, Draft, RequiresReview, into, loop, out, RequiresReview, k - 1);
    }
  }

  /** For every r some Planner run with r rejections has 3r+4 transitions. */
  lemma PlannerRunLengthIsReached(r: nat) returns (run: Run<PlannerState, Permission>)
    ensures IsRun(PLANNER, PDraft, run) && Visits(run, PRejected) == r && |run| == 3 * r + 4
  {
    var submit := Extend(PLANNER, PDraft, [], Transition(PDraft, PSubmitted, None));
    var loop := Extend(PLANNER, PDraft, submit, Transition(PSubmitted, PRejected, None));
    loop := Extend(PLANNER, PDraft, loop, Transition(PRejected, PDraft, None));
    var out := Extend(PLANNER, PDraft, submit, Transition(PSubmitted, PApproved, None));
    out := Extend(PLANNER, PDraft, out, Transition(PApproved, PInProgress, None));
    out := Extend(PLANNER, PDraft, out, Transition(PInProgress, PCompleted, None));
    run := InAroundOut(PLANNER, PDraft, PDraft, [], loop, out, PRejected, r);
  }

  lemma UntilDeparture(from: VoyageState) returns (run: Run<VoyageState, Permission>)
    requires from == Planned || from == Delayed
    ensures IsRun(VOYAGE, from, run) && End(from, run) == Departed && |run| == 3 && Visits(run, Delayed) == 0
  {
    run := Extend(VOYAGE, from, [], Transition(from, Confirmed, None));
    run := Extend(VOYAGE, from, run, Transition(Confirmed, Boarding, None));
    run := Extend(VOYAGE, from, run, Transition(Boarding, Departed, None));
  }

  /** For every d some Voyage run with d delays has 4d+5 transitions. */
  lemma VoyageRunLengthIsReached(d: nat) returns (run: Run<VoyageState, Permission>)
    ensures IsRun(VOYAGE, Planned, run) && Visits(run, Delayed) == d && |run| == 4 * d + 5
  {
    var from := if d == 0 then Planned else Delayed;
    var out := UntilDeparture(from);
    out := Extend(VOYAGE, from, out, Transition(Departed, Arrived, None));
    out := Extend(VOYAGE, from, out, Transition(Arrived, Closed, None));
    if d == 0 {
      run := out;
    } else {
      var into := UntilDeparture(Planned);
      into := Extend(VOYAGE, Planned, into, Transition(Departed, Delayed, None));
      var loop := UntilDeparture(Delayed);
      loop := Extend(VOYAGE, Delayed, loop, Transition(Departed, Delayed, None));
      run := InAroundOut(VOYAGE, Planned, Delayed, into, loop, out, Delayed, d - 1);
    }
  }

  // ----- what every ADS run has behind it -----

  /** Position j of the run crosses the compliance step, and the run has not returned to
      draft or requires_review between j and its end. */
  predicate ClearedAt(run: Run<AdsState, Permission>, j: nat) {
    && j < |run|
    && run[j] == Transition(Compliance, Validation, Some(MayManageCompliance))
    && forall k :: j <= k < |run| ==> run[k].target != Draft && run[k].target != RequiresReview
  }

  ghost predicate Cleared(run: Run<AdsState, Permission>) {
    exists j: nat :: ClearedAt(run, j)
  }

  /** What an ADS transition presupposes. */
  lemma AdsEntries(t: Transition<AdsState, Permission>)
    requires t in ADS
    ensures t.target == Validation ==> t == Transition(Compliance, Validation, Some(MayManageCompliance))
    ensures t.target == Arbitration ==> t.source == Validation
    ensures t.target == Approved ==> t.source in {Validation, Arbitration} && t.permission == Some(MayApprove)
    ensures t.target == InProgress ==> t.source == Approved
    ensures t.target == Completed ==> t.source == InProgress
    ensures t.target == RequiresReview ==> t.source in {Approved, InProgress}
    ensures t.target in {Submitted, InitiatorReview, ProjectReview, Compliance} ==>
              t.source in {Draft, RequiresReview, Submitted, InitiatorReview, ProjectReview}
    ensures t.target != Draft && t.source !in {Rejected, Cancelled, Completed}
  {
  }

  predicate PastCompliance(s: AdsState) {
    s in {Validation, Arbitration, Approved, InProgress, Completed}
  }

  lemma {:induction false} PastComplianceIsCleared(run: Run<AdsState, Permission>)
    requires IsRun(ADS, Draft, run) && PastCompliance(End(Draft, run))
    ensures Cleared(run)
    decreases |run|
  {
    var n := |run| - 1;
    var front, last := run[..n], run[n];
    RunPrefix(ADS, Draft, run);
    AdsEntries(last);
    if last.target == Validation {
      assert ClearedAt(run, n);
    } else {
      PastComplianceIsCleared(front);
      var j: nat :| ClearedAt(front, j);
      assert run[j] == front[j];
      assert ClearedAt(run, j);
    }
  }

  /** Every entry into approved needs the approve permission, and since the latest draft
      or requires_review the run crossed from pending_compliance to pending_validation
      with the compliance permission. */
  lemma {:induction false} ApprovalIsPreceded(run: Run<AdsState, Permission>, i: nat)
    requires IsRun(ADS, Draft, run) && i < |run| && run[i].target == Approved
    ensures run[i].permission == Some(MayApprove)
    ensures Cleared(run[..i])
    decreases |run|
  {
    RunPrefix(ADS, Draft, run);
    var n := |run| - 1;
    if i < n {
      ApprovalIsPreceded(run[..n], i);
      assert run[..n][..i] == run[..i];
    } else {
      AdsEntries(run[i]);
      PastComplianceIsCleared(run[..i]);
    }
  }

  /** An approval is under way or spent: visits to approved exceed visits to
      requires_review by one from approval until review is asked for, and by nothing
      before and after. */
  lemma {:induction false} ApprovalsAgainstReviews(run: Run<AdsState, Permission>)
    requires IsRun(ADS, Draft, run)
    ensures 0 <= Visits(run, Approved) - Visits(run, RequiresReview) <= 1
    ensures End(Draft, run) in {Approved, InProgress, Completed} ==>
        Visits(run, Approved) == Visits(run, RequiresReview) + 1
    ensures End(Draft, run) in {Draft, Submitted, InitiatorReview, ProjectReview, Compliance, Validation,
        Arbitration, Rejected, RequiresReview} ==>
              Visits(run, Approved) == Visits(run, RequiresReview)
    decreases |run|
  {
    if run != [] {
      RunPrefix(ADS, Draft, run);
      AdsEntries(run[|run| - 1]);
      if run[|run| - 1].target == Rejected { AdsRejections(run[|run| - 1]); }
      ApprovalsAgainstReviews(run[..|run| - 1]);
    }
  }

  lemma AdsRejections(t: Transition<AdsState, Permission>)
    requires t in ADS && t.target == Rejected
    ensures t.source in {ProjectReview, Compliance, Validation, Arbitration}
  {
  }
}
