/**
 * The per-mailbox session limiter. A released waiter is only woken; it takes its place
 * when it resumes, and other callers may arrive in between.
 */
module Semaphore {

  /** `queued` and `wakes` are the histories of callers that had to wait and of wake-ups. */
  datatype State = State(limit: int, active: int, waiters: seq<nat>, woken: set<nat>, running: set<nat>,
                         queued: seq<nat>, wakes: seq<nat>)

  datatype Step =
    | Arrive(caller: nat)
    | Release(caller: nat)
    | Resume(caller: nat)

  function Start(limit: int): State {
    State(limit, 0, [], {}, {}, [], [])
  }

  predicate Known(s: State, caller: nat) {
    caller in s.waiters || caller in s.woken || caller in s.running || caller in s.queued
  }

  predicate CanStep(s: State, step: Step) {
    match step
    case Arrive(c) => !Known(s, c)
    case Release(c) => c in s.running
    case Resume(c) => c in s.woken
  }

  function Enter(s: State, caller: nat): State {
    s.(active := s.active + 1, running := s.running + {caller})
  }

  function Apply(s: State, step: Step): State {
    match step
    case Arrive(c) =>
      if s.active >= s.limit then s.(waiters := s.waiters + [c], queued := s.queued + [c]) else Enter(s, c)
    case Release(c) =>
      var left := s.(active := s.active - 1, running := s.running - {c});
      if left.waiters == [] then left
      else left.(waiters := left.waiters[1..], woken := left.woken + {left.waiters[0]},
                 wakes := left.wakes + [left.waiters[0]])
    case Resume(c) => Enter(s.(woken := s.woken - {c}), c)
  }

  // ----- the invariant -----

  predicate NoRepeats(callers: seq<nat>) {
    forall i, j :: 0 <= i < j < |callers| ==> callers[i] != callers[j]
  }

  predicate Inv(s: State) {
    && s.active == |s.running|
    && s.queued == s.wakes + s.waiters && NoRepeats(s.queued)
    && s.woken !! s.running
    && (forall c :: c in s.woken ==> c in s.wakes)
    && (forall c :: c in s.waiters ==> c !in s.woken && c !in s.running)
    && (s.waiters != [] ==> s.active + |s.woken| >= s.limit)
  }

  lemma ReleaseKeeps(s: State, c: nat)
    requires Inv(s) && c in s.running
    ensures Inv(Apply(s, Release(c)))
  {
    var t := Apply(s, Release(c));
    if s.waiters != [] {
      var w := s.waiters[0];
      assert w in s.waiters;
      assert s.waiters == [w] + s.waiters[1..];
      assert s.queued == s.wakes + [w] + s.waiters[1..];
      assert s.queued[|s.wakes|] == w;
      forall x | x in t.waiters ensures x in s.waiters && x != w {
        var k :| 0 <= k < |t.waiters| && t.waiters[k] == x;
        assert s.queued[|s.wakes| + 1 + k] == x;
      }
    }
  }

  lemma StepKeeps(s: State, step: Step)
    requires Inv(s) && CanStep(s, step)
    ensures Inv(Apply(s, step)) && Apply(s, step).limit == s.limit
  {
    match step
    case Arrive(c) =>
    case Release(c) => ReleaseKeeps(s, c);
    case Resume(c) =>
  }

  ghost predicate IsRun(states: seq<State>, steps: seq<Step>, limit: int) {
    && |states| == |steps| + 1 && states[0] == Start(limit)
    && forall i :: 0 <= i < |steps| ==> CanStep(states[i], steps[i]) && states[i + 1] == Apply(states[i], steps[i])
  }

  /**
   * In every run `active` is the number of bodies running, waiters are woken in the
   * order they queued, and while one waits at least `limit` are active or about to be.
   */
  lemma {:induction false} EveryStateIsSound(states: seq<State>, steps: seq<Step>, limit: int, n: nat)
    requires IsRun(states, steps, limit) && n < |states|
    ensures var s := states[n];
            && Inv(s) && s.limit == limit
            && s.active == |s.running|
            && s.wakes + s.waiters == s.queued
            && (s.waiters != [] ==> s.active + |s.woken| >= limit)
  {
    hide Inv, Apply, CanStep;
    if n == 0 {
      StartIsSound(limit);
    } else {
      EveryStateIsSound(states, steps, limit, n - 1);
      StepKeeps(states[n - 1], steps[n - 1]);
      InvMeans(states[n]);
    }
  }

  lemma StartIsSound(limit: int)
    ensures Inv(Start(limit))
  {
  }

  lemma InvMeans(s: State)
    requires Inv(s)
    ensures s.active == |s.running| && s.wakes + s.waiters == s.queued
    ensures s.waiters != [] ==> s.active + |s.woken| >= s.limit
  {
  }

  // ----- the limit -----

  /** A caller takes a place when all that are free have been promised to woken waiters. */
  predicate Oversells(s: State, step: Step) {
    step.Arrive? && s.active < s.limit <= s.active + |s.woken|
  }

  predicate WithinLimit(s: State) {
    s.active + |s.woken| <= s.limit
  }

  lemma StepWithinLimit(s: State, step: Step)
    requires Inv(s) && CanStep(s, step) && WithinLimit(s)
    ensures WithinLimit(Apply(s, step)) <==> !Oversells(s, step)
  {
  }

  /** In every run, the places taken and promised stay within the limit exactly as long as no step oversells. */
  lemma {:induction false} LimitHoldsIff(states: seq<State>, steps: seq<Step>, limit: nat, n: nat)
    requires IsRun(states, steps, limit) && n < |states|
    ensures (forall m :: 0 <= m <= n ==> states[m].active + |states[m].woken| <= limit)
            <==> (forall i :: 0 <= i < n ==> !Oversells(states[i], steps[i]))
  {
    hide Inv, Apply, CanStep, Oversells, WithinLimit;
    EveryStateIsSound(states, steps, limit, n);
    MeansWithinLimit(states[n]);
    if n > 0 {
      LimitHoldsIff(states, steps, limit, n - 1);
      EveryStateIsSound(states, steps, limit, n - 1);
      MeansWithinLimit(states[n - 1]);
      if WithinLimit(states[n - 1]) {
        StepWithinLimit(states[n - 1], steps[n - 1]);
      }
    }
  }

  lemma MeansWithinLimit(s: State)
    ensures WithinLimit(s) <==> s.active + |s.woken| <= s.limit
  {
  }

  /**
   * A run that ends with more places taken and promised than there are can go on, by the woken
   * waiters resuming, to more bodies running than the limit.
   */
  lemma {:induction false} OversoldOvershoots(states: seq<State>, steps: seq<Step>, limit: int)
      returns (states': seq<State>, steps': seq<Step>)
    requires IsRun(states, steps, limit) && !WithinLimit(states[|steps|])
    ensures IsRun(states', steps', limit) && states <= states' && steps <= steps'
    ensures forall i :: |steps| <= i < |steps'| ==> steps'[i].Resume?
    ensures |states'[|steps'|].running| > limit
    decreases |states[|steps|].woken|
  {
    var s := states[|steps|];
    EveryStateIsSound(states, steps, limit, |steps|);
    if s.woken == {} {
      return states, steps;
    }
    var c :| c in s.woken;
    states', steps' := OversoldOvershoots(states + [Apply(s, Resume(c))], steps + [Resume(c)], limit);
  }

  /** So can every run whose last step oversells. */
  lemma OversellingOvershoots(states: seq<State>, steps: seq<Step>, limit: int)
      returns (states': seq<State>, steps': seq<Step>)
    requires IsRun(states, steps, limit) && steps != [] && Oversells(states[|steps| - 1], steps[|steps| - 1])
    ensures IsRun(states', steps', limit) && states <= states' && steps <= steps'
    ensures forall i :: |steps| <= i < |steps'| ==> steps'[i].Resume?
    ensures |states'[|steps'|].running| > limit
  {
    EveryStateIsSound(states, steps, limit, |steps| - 1);
    states', steps' := OversoldOvershoots(states, steps, limit);
  }

  /** A caller arrives between a wake and its resumption. */
  predicate Barges(s: State, step: Step) {
    step.Arrive? && s.woken != {}
  }

  /** Where nobody barges, nothing is oversold. */
  lemma LimitHolds(states: seq<State>, steps: seq<Step>, limit: nat, n: nat)
    requires IsRun(states, steps, limit) && n < |states|
    requires forall i :: 0 <= i < n ==> !Barges(states[i], steps[i])
    ensures states[n].active + |states[n].woken| <= limit
  {
    LimitHoldsIff(states, steps, limit, n);
  }

  /** It can happen: with one place, a second caller gets in beside the waiter that was promised it. */
  lemma OvershootIsReachable() returns (states: seq<State>, steps: seq<Step>)
    ensures IsRun(states, steps, 1) && states[|steps|].active == 2
  {
    steps := [Arrive(0), Arrive(1), Release(0), Arrive(2), Resume(1)];
    var s0 := Start(1);
    var s1 := Apply(s0, steps[0]);
    var s2 := Apply(s1, steps[1]);
    var s3 := Apply(s2, steps[2]);
    assert s2.waiters == [1];
    assert s3.woken == {1} && s3.active == 0;
    var s4 := Apply(s3, steps[3]);
    var s5 := Apply(s4, steps[4]);
    states := [s0, s1, s2, s3, s4, s5];
  }

  /** One step of a run, which does not oversell. */
  predicate Goes(s: State, step: Step, t: State) {
    CanStep(s, step) && t == Apply(s, step) && !Oversells(s, step)
  }

  lemma Queueing()
    ensures Goes(Start(2), Arrive(0), State(2, 1, [], {}, {0}, [], []))
    ensures Goes(State(2, 1, [], {}, {0}, [], []), Arrive(1), State(2, 2, [], {}, {0, 1}, [], []))
    ensures Goes(State(2, 2, [], {}, {0, 1}, [], []), Arrive(2), State(2, 2, [2], {}, {0, 1}, [2], []))
  {
  }

  lemma WakingAndBarging()
    ensures Goes(State(2, 2, [2], {}, {0, 1}, [2], []), Release(0), State(2, 1, [], {2}, {1}, [2], [2]))
    ensures Goes(State(2, 1, [], {2}, {1}, [2], [2]), Release(1), State(2, 0, [], {2}, {}, [2], [2]))
    ensures Goes(State(2, 0, [], {2}, {}, [2], [2]), Arrive(3), State(2, 1, [], {2}, {3}, [2], [2]))
  {
    assert [2][1..] == [];
  }

  /** Barging alone is harmless: with both of two places free, the barger and the woken waiter fit. */
  lemma BargingMayBeHarmless() returns (states: seq<State>, steps: seq<Step>)
    ensures IsRun(states, steps, 2) && |steps| == 6 && Barges(states[5], steps[5])
    ensures forall i :: 0 <= i < |steps| ==> !Oversells(states[i], steps[i])
  {
    hide Apply, CanStep, Oversells;
    Queueing();
    WakingAndBarging();
    steps := [Arrive(0), Arrive(1), Arrive(2), Release(0), Release(1), Arrive(3)];
    states := [Start(2), State(2, 1, [], {}, {0}, [], []), State(2, 2, [], {}, {0, 1}, [], []),
               State(2, 2, [2], {}, {0, 1}, [2], []), State(2, 1, [], {2}, {1}, [2], [2]),
               State(2, 0, [], {2}, {}, [2], [2]), State(2, 1, [], {2}, {3}, [2], [2])];
  }
}
