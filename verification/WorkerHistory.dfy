/** What holds over every execution of the worker pool, of any length and with any
    interleaving of its processes. */
module WorkerHistory {
  import opened Wrappers
  import opened WorkerPool

  /** The state after a whole execution. */
  ghost function Exec(es: seq<Event>): (s: State)
    ensures InRange(s)
    decreases |es|
  {
    if es == [] then INIT
    else
      var before := Exec(es[..|es| - 1]);
      StepInRange(before, es[|es| - 1]);
      Step(before, es[|es| - 1])
  }

  /** Every reachable state satisfies the pool's invariant. */
  lemma {:induction false} ExecInv(es: seq<Event>)
    ensures Inv(Exec(es))
    decreases |es|
  {
    if es != [] {
      ExecInv(es[..|es| - 1]);
      StepKeepsInv(Exec(es[..|es| - 1]), es[|es| - 1]);
    }
  }

  ghost function Before(es: seq<Event>, i: nat): State
    requires i <= |es|
  {
    Exec(es[..i])
  }

  lemma StepAt(es: seq<Event>, i: nat)
    requires i < |es|
    ensures Before(es, i + 1) == Step(Before(es, i), es[i])
  {
    assert es[..i + 1][..i] == es[..i];
  }

  // ----- claims -----

  /** The run an event takes out of 'pending', if any. */
  function ClaimOf(s: State, e: Event): Option<nat> {
    if e.Commit? && Enabled(s, e) && !e.w.Refused? then Some(s.procs[e.p].pc.run) else None
  }

  /** Claimed runs stay claimed, under the same worker row. */
  lemma ClaimIsFinal(s: State, e: Event, r: nat)
    requires Inv(s) && r < |s.runs| && s.runs[r].status != Pending
    ensures r < |Step(s, e).runs|
    ensures Step(s, e).runs[r].status != Pending && Step(s, e).runs[r].workerId == s.runs[r].workerId
  {
  }

  lemma {:induction false} ClaimedEverAfter(es: seq<Event>, i: nat, j: nat, r: nat)
    requires i <= j <= |es|
    requires r < |Before(es, i).runs| && Before(es, i).runs[r].status != Pending
    ensures r < |Before(es, j).runs| && Before(es, j).runs[r].status != Pending
    ensures Before(es, j).runs[r].workerId == Before(es, i).runs[r].workerId
    decreases j - i
  {
    if i < j {
      ClaimedEverAfter(es, i, j - 1, r);
      StepAt(es, j - 1);
      ExecInv(es[..j - 1]);
      ClaimIsFinal(Before(es, j - 1), es[j - 1], r);
    }
  }

  /** A step gives a process a run it did not target only by locking it. */
  lemma TargetStep(s: State, e: Event, q: nat, r: nat)
    requires Inv(s) && q < |Step(s, e).procs| && Target(Step(s, e).procs[q].pc) == Some(r)
    ensures q < |s.procs| && (Target(s.procs[q].pc) == Some(r) || (e == Lock(q, r) && Enabled(s, e)))
    ensures Step(s, e).procs[q].row == s.procs[q].row
  {
  }

  lemma OnlyClaimerTargets(s: State, e: Event, q: nat)
    requires Inv(s) && ClaimOf(s, e).Some?
    requires q < |Step(s, e).procs| && Target(Step(s, e).procs[q].pc) == ClaimOf(s, e)
    ensures q == e.p
  {
    TargetStep(s, e, q, ClaimOf(s, e).value);
    assert Exclusive(s);
  }

  lemma ClaimedRunsAreNotTaken(s: State, e: Event, q: nat, r: nat)
    requires Inv(s) && r < |s.runs| && s.runs[r].status != Pending
    requires q < |Step(s, e).procs| && Target(Step(s, e).procs[q].pc) == Some(r)
    ensures q < |s.procs| && Target(s.procs[q].pc) == Some(r)
  {
    TargetStep(s, e, q, r);
  }

  /** Process q locks or holds run r at moment i. */
  ghost predicate Targets(es: seq<Event>, i: nat, q: nat, r: nat)
    requires i <= |es|
  {
    q < |Before(es, i).procs| && Target(Before(es, i).procs[q].pc) == Some(r)
  }

  ghost function ClaimAt(es: seq<Event>, i: nat): Option<nat>
    requires i < |es|
  {
    ClaimOf(Before(es, i), es[i])
  }

  lemma ClaimedAfter(es: seq<Event>, i: nat, j: nat)
    requires i < j <= |es| && ClaimAt(es, i).Some?
    ensures var r := ClaimAt(es, i).value; r < |Before(es, j).runs| && Before(es, j).runs[r].status != Pending
  {
    ExecInv(es[..i]);
    StepAt(es, i);
    ClaimedEverAfter(es, i + 1, j, ClaimAt(es, i).value);
  }

  lemma TargetsEarlier(es: seq<Event>, i: nat, q: nat, r: nat)
    requires i < |es| && Targets(es, i + 1, q, r)
    requires r < |Before(es, i).runs| && Before(es, i).runs[r].status != Pending
    ensures Targets(es, i, q, r)
  {
    ExecInv(es[..i]);
    StepAt(es, i);
    ClaimedRunsAreNotTaken(Before(es, i), es[i], q, r);
  }

  /** No run is claimed twice in a whole history. */
  lemma NoRunClaimedTwice(es: seq<Event>, i: nat, j: nat)
    requires i < j < |es| && ClaimAt(es, i).Some?
    ensures ClaimAt(es, i) != ClaimAt(es, j)
  {
    ExecInv(es[..j]);
    ClaimedAfter(es, i, j);
  }

  lemma ClaimerAlone(es: seq<Event>, i: nat, q: nat, r: nat)
    requires i < |es| && ClaimAt(es, i) == Some(r) && Targets(es, i + 1, q, r)
    ensures q == es[i].p
  {
    ExecInv(es[..i]);
    StepAt(es, i);
    OnlyClaimerTargets(Before(es, i), es[i], q);
  }

  /** No run is ever held by two processes: once p commits its claim on r, no other
      process locks or holds r at any later moment. */
  lemma {:induction false} NoRunHeldTwice(es: seq<Event>, i: nat, j: nat, q: nat, r: nat)
    requires i < j <= |es| && ClaimAt(es, i) == Some(r) && Targets(es, j, q, r)
    ensures q == es[i].p
    decreases j
  {
    if i + 1 == j {
      ClaimerAlone(es, i, q, r);
    } else {
      ClaimedAfter(es, i, j - 1);
      TargetsEarlier(es, j - 1, q, r);
      NoRunHeldTwice(es, i, j - 1, q, r);
    }
  }

  // ----- conservation -----

  function Claimed(s: State): set<nat> {
    set r | 0 <= r < |s.runs| && s.runs[r].status != Pending
  }

  /** How many worker rows have current_run_id set. */
  function Holders(ws: seq<WorkerRow>): nat {
    if ws == [] then 0 else Holders(ws[..|ws| - 1]) + if ws[|ws| - 1].currentRun.Some? then 1 else 0
  }

  /** Runs that left 'pending' and are neither counted as completed nor current. */
  function Deficit(s: State): int {
    |Claimed(s)| - SumTotals(s.workers) - Holders(s.workers)
  }

  /** The event claims a run over a current_run_id that is still set. */
  predicate ClaimsOver(s: State, e: Event)
    requires InRange(s)
  {
    ClaimOf(s, e).Some? && s.workers[s.procs[e.p].row].currentRun.Some?
  }

  /** How an event moves the deficit: a claim written over a current_run_id that is
      still set loses a run from the books; a release by a process whose row was
      already cleared brings one back. */
  function Drift(s: State, e: Event): int
    requires InRange(s)
  {
    if ClaimsOver(s, e) then 1
    else if e.Release? && Enabled(s, e) && !e.w.Refused? && s.workers[s.procs[e.p].row].currentRun.None? then -1
    else 0
  }

  lemma HoldersUpdate(ws: seq<WorkerRow>, w: nat, row: WorkerRow)
    requires w < |ws|
    ensures Holders(ws[w := row]) ==
            Holders(ws) - (if ws[w].currentRun.Some? then 1 else 0) + (if row.currentRun.Some? then 1 else 0)
  {
    var last := |ws| - 1;
    if w < last {
      HoldersUpdate(ws[..last], w, row);
      assert ws[w := row][..last] == ws[..last][w := row];
    } else {
      assert ws[w := row][..last] == ws[..last];
    }
  }

  lemma LeavesPending(s: State, e: Event, r: nat)
    requires Inv(s) && r < |Step(s, e).runs|
    ensures r < |s.runs| || Step(s, e).runs[r].status == Pending
    ensures r < |s.runs| && s.runs[r].status == Pending ==>
              (Step(s, e).runs[r].status != Pending <==> ClaimOf(s, e) == Some(r))
  {
  }

  lemma ClaimedRunsAfter(s: State, e: Event, r: nat)
    requires Inv(s)
    ensures r in Claimed(Step(s, e)) <==> r in Claimed(s) || ClaimOf(s, e) == Some(r)
    ensures ClaimOf(s, e) == Some(r) ==> r !in Claimed(s)
  {
    if r in Claimed(s) {
      ClaimIsFinal(s, e, r);
    }
    if r < |Step(s, e).runs| {
      LeavesPending(s, e, r);
    }
  }

  lemma ClaimedStep(s: State, e: Event)
    requires Inv(s)
    ensures |Claimed(Step(s, e))| == |Claimed(s)| + if ClaimOf(s, e).Some? then 1 else 0
  {
    var before, after, claim := Claimed(s), Claimed(Step(s, e)), ClaimOf(s, e);
    forall r: nat
      ensures r in after <==> r in before || claim == Some(r)
      ensures claim == Some(r) ==> r !in before
    {
      ClaimedRunsAfter(s, e, r);
    }
    if claim.Some? {
      assert after == before + {claim.value};
    } else {
      assert after == before;
    }
  }

  lemma HoldersStep(s: State, e: Event)
    requires Inv(s)
    ensures Holders(Step(s, e).workers) + SumTotals(Step(s, e).workers) ==
            Holders(s.workers) + SumTotals(s.workers) + (if ClaimOf(s, e).Some? then 1 else 0) - Drift(s, e)
  {
    if Enabled(s, e) {
      var ws := WorkersAfter(s, e);
      if e.Register? {
        var found := FindWorker(s.workers, e.name);
        if found.Some? {
          UpdateBoth(s.workers, ws, found.value);
        } else {
          assert ws[..|s.workers|] == s.workers;
        }
      } else if WritesRow(e) {
        UpdateBoth(s.workers, ws, s.procs[e.p].row);
      }
    }
  }

  lemma UpdateBoth(ws: seq<WorkerRow>, xs: seq<WorkerRow>, w: nat)
    requires w < |ws| == |xs| && xs == ws[w := xs[w]]
    ensures Holders(xs) == Holders(ws)
            - (if ws[w].currentRun.Some? then 1 else 0) + (if xs[w].currentRun.Some? then 1 else 0)
    ensures SumTotals(xs) == SumTotals(ws) - ws[w].totalCompleted + xs[w].totalCompleted
  {
    HoldersUpdate(ws, w, xs[w]);
    SumTotalsUpdate(ws, w, xs[w]);
  }

  /** The exact book-keeping of every step, whatever faults occur. */
  lemma DeficitMovesByDrift(s: State, e: Event)
    requires Inv(s)
    ensures Deficit(Step(s, e)) == Deficit(s) + Drift(s, e)
  {
    ClaimedStep(s, e);
    HoldersStep(s, e);
  }

  /** The runs some current_run_id names. */
  function Held(ws: seq<WorkerRow>): set<nat> {
    if ws == [] then {}
    else
      var last := ws[|ws| - 1];
      Held(ws[..|ws| - 1]) + if last.currentRun.Some? then {last.currentRun.value} else {}
  }

  lemma {:induction false} HeldRow(ws: seq<WorkerRow>, r: nat)
    ensures r in Held(ws) <==> exists w :: 0 <= w < |ws| && ws[w].currentRun == Some(r)
  {
    if ws != [] {
      var front := ws[..|ws| - 1];
      HeldRow(front, r);
      assert forall w :: 0 <= w < |front| ==> front[w] == ws[w];
    }
  }

  lemma {:induction false} HeldCount(ws: seq<WorkerRow>)
    requires forall v, w :: 0 <= v < w < |ws| && ws[v].currentRun.Some? ==> ws[v].currentRun != ws[w].currentRun
    ensures |Held(ws)| == Holders(ws)
  {
    if ws != [] {
      var front, last := ws[..|ws| - 1], ws[|ws| - 1];
      HeldCount(front);
      if last.currentRun.Some? {
        HeldRow(front, last.currentRun.value);
      }
    }
  }

  predicate EveryClaimOnTheBooks(s: State) {
    forall r :: r in Claimed(s) ==> r in s.released || r in Held(s.workers)
  }

  /** In every reachable state, completed totals plus current holders are at most the
      runs that left 'pending', with equality exactly when every claimed run is
      released or is some row's current_run_id. */
  lemma AtMostClaimed(es: seq<Event>)
    ensures SumTotals(Exec(es).workers) + Holders(Exec(es).workers) <= |Claimed(Exec(es))|
    ensures SumTotals(Exec(es).workers) + Holders(Exec(es).workers) == |Claimed(Exec(es))|
            <==> EveryClaimOnTheBooks(Exec(es))
  {
    ExecInv(es);
    BooksAgainstClaims(Exec(es));
  }

  lemma BooksAgainstClaims(s: State)
    requires Inv(s)
    ensures SumTotals(s.workers) + Holders(s.workers) <= |Claimed(s)|
    ensures SumTotals(s.workers) + Holders(s.workers) == |Claimed(s)| <==> EveryClaimOnTheBooks(s)
  {
    HeldCount(s.workers);
    var held := Held(s.workers);
    forall r | r in held ensures r in Claimed(s) && r !in s.released {
      HeldRow(s.workers, r);
      var w :| 0 <= w < |s.workers| && s.workers[w].currentRun == Some(r);
      assert CurrentAgrees(w, s.workers[w], s.runs, s.released);
    }
    assert |s.released + held| == |s.released| + |held|;
    SubsetCount(s.released + held, Claimed(s));
  }

  lemma SubsetCount(a: set<nat>, b: set<nat>)
    requires a <= b
    ensures |a| <= |b| && (|a| == |b| <==> a == b)
  {
    assert b == a + (b - a);
  }

  ghost predicate ClaimsOverAt(es: seq<Event>, i: nat)
    requires i < |es|
  {
    ClaimsOver(Exec(es[..i]), es[i])
  }

  ghost predicate BalancedAt(es: seq<Event>, i: nat)
    requires i <= |es|
  {
    SumTotals(Before(es, i).workers) + Holders(Before(es, i).workers) == |Claimed(Before(es, i))|
  }

  /** Between two balanced moments nothing is claimed over; and from a balanced moment, only
      that unbalances the books, since they never show more than was claimed. */
  lemma BalanceStep(es: seq<Event>, i: nat)
    requires i < |es| && BalancedAt(es, i)
    ensures BalancedAt(es, i + 1) <==> !ClaimsOverAt(es, i)
  {
    StepAt(es, i);
    ExecInv(es[..i]);
    DeficitMovesByDrift(Before(es, i), es[i]);
    AtMostClaimed(es[..i + 1]);
  }

  lemma {:induction false} BalancedFromTheStart(es: seq<Event>, i: nat)
    requires i <= |es| && forall j :: 0 <= j < i ==> !ClaimsOverAt(es, j)
    ensures BalancedAt(es, i)
    decreases i
  {
    if i == 0 {
      assert Before(es, 0) == INIT && Claimed(INIT) == {};
    } else {
      BalancedFromTheStart(es, i - 1);
      BalanceStep(es, i - 1);
    }
  }

  /** Throughout a history completed totals plus current holders equal the runs that left
      'pending', exactly when no claim of the history is committed by a worker whose
      current_run_id is still set. */
  lemma ConservedExactly(es: seq<Event>)
    ensures (forall i :: 0 <= i <= |es| ==> BalancedAt(es, i)) <==> (forall i :: 0 <= i < |es| ==> !ClaimsOverAt(es, i))
  {
    if forall i :: 0 <= i < |es| ==> !ClaimsOverAt(es, i) {
      forall i | 0 <= i <= |es| ensures BalancedAt(es, i) {
        BalancedFromTheStart(es, i);
      }
    }
    if forall i :: 0 <= i <= |es| ==> BalancedAt(es, i) {
      forall i | 0 <= i < |es| ensures !ClaimsOverAt(es, i) {
        assert BalancedAt(es, i) && BalancedAt(es, i + 1);
        BalanceStep(es, i);
      }
    }
  }

  // ----- conservation without restarts -----

  /** No worker name registers twice, and no commit's acknowledgement is lost. */
  ghost predicate NoRestarts(es: seq<Event>) {
    && (forall i, j :: 0 <= i < j < |es| && es[i].Register? && es[j].Register? ==> es[i].name != es[j].name)
    && (forall i :: 0 <= i < |es| && es[i].Commit? ==> !es[i].w.Lost?)
  }

  predicate RowMatches(proc: Process, row: WorkerRow) {
    && (Holds(proc.pc) ==> row.currentRun == Target(proc.pc))
    && (proc.pc.AtPoll? || proc.pc.InClaim? ==> row.currentRun == None)
  }

  /** One process a row; a row's current_run_id is exactly what its process holds. */
  predicate OneProcessPerRow(s: State)
    requires InRange(s)
  {
    && (forall p, q :: 0 <= p < q < |s.procs| ==> s.procs[p].row != s.procs[q].row)
    && (forall p :: 0 <= p < |s.procs| ==> RowMatches(s.procs[p], s.workers[s.procs[p].row]))
  }

  lemma OwnRowStaysMatched(s: State, e: Event)
    requires InRange(s) && Enabled(s, e) && IsMove(e)
    requires RowMatches(s.procs[e.p], s.workers[s.procs[e.p].row])
    requires e.Commit? ==> !e.w.Lost?
    ensures RowMatches(ProcsAfter(s, e)[e.p], WorkersAfter(s, e)[s.procs[e.p].row])
  {
  }

  lemma MatchedRowsDoNotDrift(s: State, e: Event)
    requires InRange(s)
    requires Enabled(s, e) && IsMove(e) ==> RowMatches(s.procs[e.p], s.workers[s.procs[e.p].row])
    ensures Drift(s, e) == 0
  {
  }

  lemma RegisterKeepsRows(s: State, name: string)
    requires Inv(s) && OneProcessPerRow(s) && FindWorker(s.workers, name) == None
    ensures InRange(Step(s, Register(name))) && OneProcessPerRow(Step(s, Register(name)))
  {
    var t := Step(s, Register(name));
    StepInRange(s, Register(name));
    assert t.workers[..|s.workers|] == s.workers && t.procs[..|s.procs|] == s.procs;
    forall p | 0 <= p < |s.procs|
      ensures t.procs[p] == s.procs[p] && t.workers[t.procs[p].row] == s.workers[s.procs[p].row]
    {
      assert RowMatches(s.procs[p], s.workers[s.procs[p].row]);
    }
  }

  lemma MoveKeepsRows(s: State, e: Event)
    requires Inv(s) && OneProcessPerRow(s) && Enabled(s, e) && IsMove(e)
    requires e.Commit? ==> !e.w.Lost?
    ensures InRange(Step(s, e)) && OneProcessPerRow(Step(s, e))
  {
    var t := Step(s, e);
    StepInRange(s, e);
    OwnRowStaysMatched(s, e);
    assert forall p :: 0 <= p < |s.procs| ==> t.procs[p].row == s.procs[p].row;
    forall p | 0 <= p < |t.procs| ensures RowMatches(t.procs[p], t.workers[t.procs[p].row]) {
      if p < e.p { assert s.procs[p].row != s.procs[e.p].row; }
      if e.p < p { assert s.procs[e.p].row != s.procs[p].row; }
    }
  }

  lemma StepKeepsRows(s: State, e: Event)
    requires Inv(s) && OneProcessPerRow(s)
    requires e.Register? ==> FindWorker(s.workers, e.name) == None
    requires e.Commit? ==> !e.w.Lost?
    ensures InRange(Step(s, e)) && OneProcessPerRow(Step(s, e))
    ensures Drift(s, e) == 0
  {
    MatchedRowsDoNotDrift(s, e);
    if e.Register? {
      RegisterKeepsRows(s, e.name);
    } else if IsMove(e) && Enabled(s, e) {
      MoveKeepsRows(s, e);
    }
  }

  lemma NamesStep(s: State, e: Event, w: nat)
    requires Inv(s) && w < |Step(s, e).workers|
    ensures if w < |s.workers| then Step(s, e).workers[w].name == s.workers[w].name
            else e == Register(Step(s, e).workers[w].name)
  {
  }

  lemma {:induction false} NamesComeFromRegisters(es: seq<Event>, w: nat)
    requires w < |Exec(es).workers|
    ensures exists i :: 0 <= i < |es| && es[i] == Register(Exec(es).workers[w].name)
    decreases |es|
  {
    var last := |es| - 1;
    var s := Exec(es[..last]);
    ExecInv(es[..last]);
    NamesStep(s, es[last], w);
    if w < |s.workers| {
      NamesComeFromRegisters(es[..last], w);
      var i :| 0 <= i < last && es[..last][i] == Register(s.workers[w].name);
      assert es[i] == Register(Exec(es).workers[w].name);
    }
  }

  lemma {:induction false} RowsStayTidy(es: seq<Event>)
    requires NoRestarts(es)
    ensures OneProcessPerRow(Exec(es)) && Deficit(Exec(es)) == 0
    decreases |es|
  {
    if es == [] {
      assert Claimed(INIT) == {};
    } else {
      var last := |es| - 1;
      var s, e := Exec(es[..last]), es[last];
      RowsStayTidy(es[..last]);
      ExecInv(es[..last]);
      if e.Register? && FindWorker(s.workers, e.name).Some? {
        NamesComeFromRegisters(es[..last], FindWorker(s.workers, e.name).value);
        assert false;
      }
      StepKeepsRows(s, e);
      DeficitMovesByDrift(s, e);
    }
  }

  /** Without restarts and lost commits, completed totals plus current holders are exactly
      the runs that left 'pending'. */
  lemma Conservation(es: seq<Event>)
    requires NoRestarts(es)
    ensures SumTotals(Exec(es).workers) + Holders(Exec(es).workers) == |Claimed(Exec(es))|
  {
    RowsStayTidy(es);
  }

  // ----- statuses -----

  /** The documented course of a run. */
  predicate Forward(a: RunStatus, b: RunStatus) {
    a == b || (a == Pending && b == Preparing) || (a == Preparing && b == Running)
    || (a == Running && (b == Completed || b == Failed))
  }

  function Rank(a: RunStatus): nat {
    match a
    case Pending => 0
    case Preparing => 1
    case Running => 2
    case Completed => 3
    case Failed => 3
  }

  /** Although no UPDATE checks the old status, a step moves a run forward by at most
      one stage, except that the crash handler turns a completed run into a failed
      one when the report was written but its acknowledgement was lost. */
  lemma StatusStep(s: State, e: Event, r: nat)
    requires Inv(s) && r < |s.runs|
    ensures r < |Step(s, e).runs|
    ensures var (a, b) := (s.runs[r].status, Step(s, e).runs[r].status);
            Forward(a, b) || (a == Completed && b == Failed && e.RecordCrash? && Enabled(s, e)
                              && s.procs[e.p].pc == InCrash(r))
  {
  }

  // ----- histories without failing writes -----

  /** Every write of the event succeeds. */
  predicate WritesSucceed(e: Event) {
    match e
    case Commit(_, w) => w.Applied?
    case Launch(_, w) => w.Applied?
    case Report(_, _, w) => w.Applied?
    case RecordCrash(_, w) => w.Applied?
    case Release(_, w) => w.Applied?
    case SignOff(_, w) => w.Applied?
    case _ => true
  }

  ghost predicate Faultless(es: seq<Event>) {
    forall i :: 0 <= i < |es| ==> WritesSucceed(es[i])
  }

  /** A handler runs only for a running run; a run being released, or released, has
      stopped. */
  predicate Settled(s: State)
    requires InRange(s)
  {
    && (forall p :: 0 <= p < |s.procs| ==> SettledAt(s.procs[p].pc, s.runs))
    && (forall r :: r in s.released ==> r < |s.runs| && s.runs[r].status != Running)
  }

  predicate SettledAt(pc: Pc, runs: seq<Run>)
    requires Target(pc).Some? ==> Target(pc).value < |runs|
  {
    && (pc.InCrash? ==> runs[pc.run].status == Running)
    && (pc.InRelease? ==> runs[pc.run].status != Running)
  }

  function LaunchOf(s: State, e: Event): Option<nat> {
    if e.Launch? && Enabled(s, e) then Some(s.procs[e.p].pc.run) else None
  }

  /** The launch UPDATE of run r was issued at some moment of the history. */
  ghost predicate Launched(es: seq<Event>, r: nat)
    decreases |es|
  {
    es != [] && (Launched(es[..|es| - 1], r) || LaunchOf(Exec(es[..|es| - 1]), es[|es| - 1]) == Some(r))
  }

  /** Only a run's own holder changes its status. */
  lemma StatusWriter(s: State, e: Event, r: nat)
    requires Inv(s) && r < |s.runs| && Step(s, e).runs[r].status != s.runs[r].status
    ensures IsMove(e) && Enabled(s, e) && Target(s.procs[e.p].pc) == Some(r)
  {
  }

  lemma MoverStaysSettled(s: State, e: Event)
    requires Inv(s) && Settled(s) && WritesSucceed(e) && Enabled(s, e) && IsMove(e)
    ensures InRange(Step(s, e)) && SettledAt(Step(s, e).procs[e.p].pc, Step(s, e).runs)
    ensures e.Release? ==> s.runs[s.procs[e.p].pc.run].status != Running
  {
    StepInRange(s, e);
    assert SettledAt(s.procs[e.p].pc, s.runs);
  }

  lemma OtherStaysSettled(s: State, e: Event, q: nat)
    requires Inv(s) && Settled(s) && Enabled(s, e) && q < |s.procs| && (IsMove(e) ==> q != e.p)
    ensures InRange(Step(s, e)) && SettledAt(s.procs[q].pc, Step(s, e).runs)
  {
    StepInRange(s, e);
    assert SettledAt(s.procs[q].pc, s.runs);
    if IsMove(e) && Target(s.procs[q].pc).Some? {
      OnlyMoverTargets(s, e, q);
    }
  }

  lemma ReleasedStaySettled(s: State, e: Event, r: nat)
    requires Inv(s) && Settled(s) && WritesSucceed(e) && Enabled(s, e) && r in Step(s, e).released
    ensures r < |Step(s, e).runs| && Step(s, e).runs[r].status != Running
  {
    if e.Release? && s.procs[e.p].pc.run == r {
      MoverStaysSettled(s, e);
    } else if r < |s.runs| && Step(s, e).runs[r].status != s.runs[r].status {
      StatusWriter(s, e, r);
      assert HoldsClaimed(s) && LocksPending(s);
    }
  }

  lemma StepKeepsSettled(s: State, e: Event)
    requires Inv(s) && Settled(s) && WritesSucceed(e)
    ensures InRange(Step(s, e)) && Settled(Step(s, e))
  {
    if Enabled(s, e) {
      var t := Step(s, e);
      StepInRange(s, e);
      forall q | 0 <= q < |t.procs| ensures SettledAt(t.procs[q].pc, t.runs) {
        if IsMove(e) && q == e.p {
          MoverStaysSettled(s, e);
        } else if q < |s.procs| {
          OtherStaysSettled(s, e, q);
        }
      }
      forall r | r in t.released ensures r < |t.runs| && t.runs[r].status != Running {
        ReleasedStaySettled(s, e, r);
      }
    }
  }

  lemma LaunchedStep(s: State, e: Event, r: nat)
    requires Inv(s) && Settled(s) && WritesSucceed(e)
    ensures r < |Step(s, e).runs| && Rank(Step(s, e).runs[r].status) >= 2
            <==> (r < |s.runs| && Rank(s.runs[r].status) >= 2) || LaunchOf(s, e) == Some(r)
  {
  }

  lemma {:induction false} FaultlessHistory(es: seq<Event>, r: nat)
    requires Faultless(es)
    ensures Settled(Exec(es))
    ensures Launched(es, r) <==> r < |Exec(es).runs| && Rank(Exec(es).runs[r].status) >= 2
    decreases |es|
  {
    if es != [] {
      var front, last := es[..|es| - 1], es[|es| - 1];
      FaultlessHistory(front, r);
      ExecInv(front);
      StepKeepsSettled(Exec(front), last);
      LaunchedStep(Exec(front), last, r);
    }
  }

  /** When every write succeeds, a released run is completed, failed, or still
      preparing -- never running -- and it is still preparing exactly when its
      launch was never reached. */
  lemma ReleasedRunsAreSettled(es: seq<Event>, r: nat)
    requires Faultless(es) && r in Exec(es).released
    ensures r < |Exec(es).runs| && Exec(es).runs[r].status in {Preparing, Completed, Failed}
    ensures Exec(es).runs[r].status == Preparing <==> !Launched(es, r)
  {
    ExecInv(es);
    FaultlessHistory(es, r);
  }

  lemma FaultlessStatusStep(s: State, e: Event, r: nat)
    requires Inv(s) && Settled(s) && WritesSucceed(e) && r < |s.runs|
    ensures r < |Step(s, e).runs| && Forward(s.runs[r].status, Step(s, e).runs[r].status)
  {
    StatusStep(s, e, r);
  }

  lemma FaultlessAt(es: seq<Event>, i: nat, r: nat)
    requires Faultless(es) && i < |es| && r < |Before(es, i).runs|
    ensures r < |Before(es, i + 1).runs|
    ensures Forward(Before(es, i).runs[r].status, Before(es, i + 1).runs[r].status)
  {
    FaultlessHistory(es[..i], r);
    ExecInv(es[..i]);
    StepAt(es, i);
    FaultlessStatusStep(Before(es, i), es[i], r);
  }

  /** Run r's status at moment i, if it exists by then. */
  ghost function StatusAt(es: seq<Event>, i: nat, r: nat): Option<RunStatus>
    requires i <= |es|
  {
    if r < |Before(es, i).runs| then Some(Before(es, i).runs[r].status) else None
  }

  /** When every write succeeds, between any two moments a run's status only
      advances, and a finished run keeps its verdict. */
  lemma {:induction false} StatusOnlyAdvances(es: seq<Event>, i: nat, j: nat, r: nat)
    requires Faultless(es) && i <= j <= |es| && StatusAt(es, i, r).Some?
    ensures StatusAt(es, j, r).Some? && Rank(StatusAt(es, i, r).value) <= Rank(StatusAt(es, j, r).value)
    ensures StatusAt(es, i, r).value in {Completed, Failed} ==> StatusAt(es, j, r) == StatusAt(es, i, r)
    decreases j
  {
    if i < j {
      StatusOnlyAdvances(es, i, j - 1, r);
      FaultlessAt(es, j - 1, r);
    }
  }
}
