/** Runs of a workflow given by a transition table, and a bound on how long they are. */
module WorkflowRuns {
  import opened Wrappers

  /** A row of the table: from, to, and the permission it requires, if any. */
  datatype Transition<S, P> = Transition(source: S, target: S, permission: Option<P>)

  /** The rows of a workflow definition; their order plays no part. */
  type Table<S(==), P(==)> = set<Transition<S, P>>

  type Run<S, P> = seq<Transition<S, P>>

  /** The transitions of the run chain up, starting from `start`. */
  predicate Chained<S(==), P>(start: S, run: Run<S, P>) {
    run == [] ||
    (Chained(start, run[..|run| - 1]) && run[|run| - 1].source == End(start, run[..|run| - 1]))
  }

  /** Where a run ends. */
  function End<S, P>(start: S, run: Run<S, P>): S {
    if run == [] then start else run[|run| - 1].target
  }

  /** A run crosses transitions of the table, each from where the last one led. */
  predicate IsRun<S(==), P(==)>(table: Table<S, P>, start: S, run: Run<S, P>) {
    Chained(start, run) && forall t :: t in run ==> t in table
  }

  function Visits<S(==), P>(run: Run<S, P>, state: S): nat {
    if run == [] then 0
    else Visits(run[..|run| - 1], state) + if run[|run| - 1].target == state then 1 else 0
  }

  /** potential measures how far a run can go from a state before it ends or enters
      `reset`: it drops at every transition, except that a transition into `reset` buys
      `round` more steps. */
  predicate Measures<S(==), P(==)>(table: Table<S, P>, reset: S, round: nat, potential: S -> nat) {
    forall t :: t in table ==>
      potential(t.target) + 1 <= potential(t.source) + if t.target == reset then round else 0
  }

  lemma RunPrefix<S, P>(table: Table<S, P>, start: S, run: Run<S, P>)
    requires IsRun(table, start, run) && run != []
    ensures IsRun(table, start, run[..|run| - 1])
    ensures run[|run| - 1] in table && run[|run| - 1].source == End(start, run[..|run| - 1])
  {
  }

  /** A run is no longer than the potential it started with plus `round` for every visit
      to `reset`, less the potential it has left. */
  lemma {:induction false} RunIsBounded<S, P>(table: Table<S, P>, start: S, run: Run<S, P>, reset: S, round: nat,
          potential: S -> nat)
    requires IsRun(table, start, run) && Measures(table, reset, round, potential)
    ensures |run| + potential(End(start, run)) <= potential(start) + Visits(run, reset) * round
    decreases |run|
  {
    if run != [] {
      var front, last := run[..|run| - 1], run[|run| - 1];
      RunPrefix(table, start, run);
      RunIsBounded(table, start, front, reset, round, potential);
      Distribute(Visits(front, reset), if last.target == reset then 1 else 0, round);
    }
  }

  lemma Distribute(a: nat, b: nat, c: nat)
    ensures (a + b) * c == a * c + b * c
    ensures b == 0 ==> (a + b) * c == a * c
    ensures b == 1 ==> (a + b) * c == a * c + c
  {
  }

  lemma {:induction false} RunConcat<S, P>(table: Table<S, P>, start: S, a: Run<S, P>, b: Run<S, P>)
    requires IsRun(table, start, a) && IsRun(table, End(start, a), b)
    ensures IsRun(table, start, a + b) && End(start, a + b) == End(End(start, a), b)
    decreases |b|
  {
    if b == [] {
      assert a + b == a;
    } else {
      RunPrefix(table, End(start, a), b);
      RunConcat(table, start, a, b[..|b| - 1]);
      assert (a + b)[..|a + b| - 1] == a + b[..|b| - 1];
    }
  }

  lemma {:induction false} VisitsConcat<S, P>(a: Run<S, P>, b: Run<S, P>, state: S)
    ensures Visits(a + b, state) == Visits(a, state) + Visits(b, state)
    decreases |b|
  {
    if b == [] {
      assert a + b == a;
    } else {
      VisitsConcat(a, b[..|b| - 1], state);
      assert (a + b)[..|a + b| - 1] == a + b[..|b| - 1];
    }
  }

  /** A way back to a state can be taken any number of times. */
  lemma {:induction false} Around<S, P>(table: Table<S, P>, base: S, loop: Run<S, P>, reset: S, k: nat)
    returns (run: Run<S, P>)
    requires IsRun(table, base, loop) && End(base, loop) == base
    ensures IsRun(table, base, run) && End(base, run) == base
    ensures |run| == k * |loop| && Visits(run, reset) == k * Visits(loop, reset)
    decreases k
  {
    if k == 0 {
      run := [];
    } else {
      var rest := Around(table, base, loop, reset, k - 1);
      RunConcat(table, base, rest, loop);
      VisitsConcat(rest, loop, reset);
      run := rest + loop;
      Distribute(k - 1, 1, |loop|);
      Distribute(k - 1, 1, Visits(loop, reset));
    }
  }

  /** Into a state, k times around it, and out again. */
  lemma InAroundOut<S, P>(table: Table<S, P>, start: S, base: S, into: Run<S, P>, loop: Run<S, P>, out: Run<S, P>,
          reset: S, k: nat)
    returns (run: Run<S, P>)
    requires IsRun(table, start, into) && End(start, into) == base
    requires IsRun(table, base, loop) && End(base, loop) == base
    requires IsRun(table, base, out)
    ensures IsRun(table, start, run)
    ensures |run| == |into| + k * |loop| + |out|
    ensures Visits(run, reset) == Visits(into, reset) + k * Visits(loop, reset) + Visits(out, reset)
  {
    var loops := Around(table, base, loop, reset, k);
    RunConcat(table, start, into, loops);
    VisitsConcat(into, loops, reset);
    RunConcat(table, start, into + loops, out);
    VisitsConcat(into + loops, out, reset);
    run := into + loops + out;
  }

  lemma Extend<S, P>(table: Table<S, P>, start: S, run: Run<S, P>, t: Transition<S, P>) returns (longer: Run<S, P>)
    requires IsRun(table, start, run) && t in table && t.source == End(start, run)
    ensures IsRun(table, start, longer) && longer == run + [t] && End(start, longer) == t.target
    ensures forall s :: Visits(longer, s) == Visits(run, s) + if t.target == s then 1 else 0
  {
    longer := run + [t];
    assert longer[..|longer| - 1] == run;
  }
}
