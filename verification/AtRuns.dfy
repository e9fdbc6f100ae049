/** Runs of the approximately-timed bus, in which the queues deliver in any order. */
module AtRuns {
  import opened AtProtocol
  import opened AtSafety

  // A run: the states met, and the action taken in each state but the last.
  ghost predicate IsRun(c: Config, run: seq<State>, acts: seq<Action>) {
    && |run| == |acts| + 1
    && run[0] == Init()
    && forall i :: 0 <= i < |acts| ==> StepAt(c, run, acts, i)
  }

  ghost predicate StepAt(c: Config, run: seq<State>, acts: seq<Action>, i: nat)
    requires i < |acts| < |run|
  {
    IsStep(c, run[i], acts[i], run[i + 1])
  }

  ghost predicate IsStep(c: Config, s: State, a: Action, n: State) {
    Ready(c, s) && Enabled(c, s, a) && n == Next(c, s, a)
  }

  lemma StepOfRun(c: Config, run: seq<State>, acts: seq<Action>, i: nat)
    requires IsRun(c, run, acts) && 0 < i < |run|
    ensures IsStep(c, run[i - 1], acts[i - 1], run[i])
  {
    assert StepAt(c, run, acts, i - 1);
  }

  lemma StartSafe(c: Config, run: seq<State>, acts: seq<Action>)
    requires ValidConfig(c) && IsRun(c, run, acts)
    ensures Inv(c, run[0])
  {
    InitHolds(c);
  }

  lemma StepSafe(c: Config, run: seq<State>, acts: seq<Action>, i: nat)
    requires IsRun(c, run, acts) && 0 < i < |run| && Inv(c, run[i - 1])
    ensures Inv(c, run[i])
  {
    StepOfRun(c, run, acts, i);
    InvKept(c, run[i - 1], acts[i - 1]);
  }

  // Every state of every run satisfies the invariant.
  lemma {:induction false} RunsSafe(c: Config, run: seq<State>, acts: seq<Action>, i: nat)
    requires ValidConfig(c) && IsRun(c, run, acts) && i < |run|
    ensures Inv(c, run[i])
    decreases i
  {
    if i == 0 {
      StartSafe(c, run, acts);
    } else {
      RunsSafe(c, run, acts, i - 1);
      StepSafe(c, run, acts, i);
    }
  }

  // The parts of the invariant that most steps need.
  lemma RunsPlaced(c: Config, run: seq<State>, acts: seq<Action>, i: nat)
    requires ValidConfig(c) && IsRun(c, run, acts) && i < |run|
    ensures Placed(c, run[i]) && AllGenuine(c, run[i])
  {
    RunsSafe(c, run, acts, i);
  }
}
