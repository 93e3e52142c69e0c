/** Sequences of steps: what they execute to, what they reach, and how this relates to runs. */
module Reachability {
  import opened Bytes
  import opened TwoPhase
  import opened TwoPhaseInvariant

  /** The state after the steps, if each is enabled in its turn. */
  ghost function Exec(route: Route, s: System, steps: seq<Step>): Option<System> {
    if |steps| == 0 then Some(s)
    else
      match Exec(route, s, steps[..|steps| - 1])
      case None => None
      case Some(m) =>
        if Enabled(route, m, steps[|steps| - 1]) then Some(Do(route, m, steps[|steps| - 1])) else None
  }

  ghost predicate Reaches(route: Route, s: System, s': System) {
    exists steps :: Exec(route, s, steps) == Some(s')
  }

  lemma ReachesSelf(route: Route, s: System)
    ensures Reaches(route, s, s)
  {
    assert Exec(route, s, []) == Some(s);
  }

  lemma ReachesNext(route: Route, s: System, m: System, step: Step)
    requires Reaches(route, s, m) && Enabled(route, m, step)
    ensures Reaches(route, s, Do(route, m, step))
  {
    var steps :| Exec(route, s, steps) == Some(m);
    assert (steps + [step])[..|steps|] == steps;
    assert Exec(route, s, steps + [step]) == Some(Do(route, m, step));
  }

  lemma ReachesTrans(route: Route, a: System, b: System, c: System)
    requires Reaches(route, a, b) && Reaches(route, b, c)
    ensures Reaches(route, a, c)
  {
    var steps :| Exec(route, b, steps) == Some(c);
    ReachesExec(route, a, b, steps);
  }

  lemma {:induction false} ReachesExec(route: Route, a: System, b: System, steps: seq<Step>)
    requires Reaches(route, a, b) && Exec(route, b, steps).Some?
    ensures Reaches(route, a, Exec(route, b, steps).value)
  {
    if |steps| > 0 {
      var front := steps[..|steps| - 1];
      ReachesExec(route, a, b, front);
      ReachesNext(route, a, Exec(route, b, front).value, steps[|steps| - 1]);
    }
  }

  /** What is executed from a good state ends in a good state. */
  lemma {:induction false} ExecGood(route: Route, s: System, steps: seq<Step>)
    requires Good(route, s) && Exec(route, s, steps).Some?
    ensures Good(route, Exec(route, s, steps).value)
  {
    if |steps| > 0 {
      var front := steps[..|steps| - 1];
      ExecGood(route, s, front);
      StepKeepsGood(route, Exec(route, s, front).value, steps[|steps| - 1]);
    }
  }

  /** What is reached from an initial state ends a run. */
  lemma {:induction false} ExecIsRun(route: Route, s: System, steps: seq<Step>) returns (run: seq<System>)
    requires Init(s) && Exec(route, s, steps).Some?
    ensures IsRun(route, run) && run[|run| - 1] == Exec(route, s, steps).value
  {
    if |steps| == 0 {
      run := [s];
    } else {
      var front, step := steps[..|steps| - 1], steps[|steps| - 1];
      var before := ExecIsRun(route, s, front);
      run := before + [Do(route, Exec(route, s, front).value, step)];
      assert Next(route, run[|run| - 2], run[|run| - 1]);
    }
  }

  /** The states of a run reach each other in turn. */
  lemma {:induction false} RunReaches(route: Route, run: seq<System>, i: nat, j: nat)
    requires IsRun(route, run) && i <= j < |run|
    ensures Reaches(route, run[i], run[j])
    decreases j
  {
    if i == j {
      ReachesSelf(route, run[i]);
    } else {
      RunReaches(route, run, i, j - 1);
      var step := StepAt(route, run, j);
      ReachesNext(route, run[i], run[j - 1], step);
    }
  }
}
