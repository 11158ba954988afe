/**
  How long a round of the barrier takes: every step that does not start a
  round brings some thread one step nearer to the next round, except for
  spurious wakeups, each of which costs two steps.
*/
module BarrierRounds {
  import opened Barrier
  import opened Wrappers

  /** The steps that a thread still takes before it waits for, or completes, the current round. */
  function Distance(s: State, t: nat): nat
    requires t < |s.pcs| == |s.entered|
  {
    match s.pcs[t]
    case Broadcast => 6
    case Callback => 5
    case Unlock(_) => 4
    case Outside => 3
    case Decrement => 2
    case Sample => 1
    case Complete => 1
    case Asleep(_, _) => if s.entered[t] == s.round then 6 else 0
    case Check(_) => if s.entered[t] == s.round then 5 else 1
  }

  /** The distances of the first `n` threads together. */
  function Rank(s: State, n: nat): nat
    requires n <= |s.pcs| == |s.entered|
  {
    if n == 0 then 0 else Rank(s, n - 1) + Distance(s, n - 1)
  }

  lemma {:induction false} RankChange(s: State, s': State, t: nat, n: nat)
    requires n <= |s.pcs| == |s.entered| == |s'.pcs| == |s'.entered| && t < |s.pcs|
    requires forall u :: 0 <= u < |s.pcs| && u != t ==> Distance(s', u) == Distance(s, u)
    ensures Rank(s', n) + (if t < n then Distance(s, t) else 0) == Rank(s, n) + (if t < n then Distance(s', t) else 0)
  {
    if n > 0 {
      RankChange(s, s', t, n - 1);
    }
  }

  lemma {:induction false} RankConstant(s: State, n: nat, d: nat)
    requires n <= |s.pcs| == |s.entered|
    requires forall t :: 0 <= t < n ==> Distance(s, t) == d
    ensures Rank(s, n) == d * n
  {
    if n > 0 {
      RankConstant(s, n - 1, d);
    }
  }

  /** A thread wakes up that nobody has signalled. */
  ghost predicate Spurious(s: State, step: Step) {
    step.WakeUp? && step.thread < |s.pcs| && s.pcs[step.thread].Asleep? && !s.pcs[step.thread].signalled
  }

  lemma StepDistance(s: State, step: Step, s': State)
    requires Inv(s) && Next(s, step, s') && !step.StartRound?
    ensures |s'.pcs| == |s'.entered| == |s.pcs| && s'.round == s.round
    ensures forall u :: 0 <= u < |s.pcs| && u != step.thread ==> Distance(s', u) == Distance(s, u)
    ensures if Spurious(s, step) then Distance(s', step.thread) == Distance(s, step.thread) + 1
            else Distance(s', step.thread) + 1 == Distance(s, step.thread)
  {
    assert ThreadInv(s, step.thread);
  }

  lemma RankStep(s: State, step: Step, s': State)
    requires Inv(s) && Next(s, step, s') && !step.StartRound?
    ensures |s'.pcs| == |s'.entered| == |s.pcs| == |s.entered|
    ensures if Spurious(s, step) then Rank(s', |s.pcs|) == Rank(s, |s.pcs|) + 1
            else Rank(s', |s.pcs|) + 1 == Rank(s, |s.pcs|)
  {
    StepDistance(s, step, s');
    RankChange(s, s', step.thread, |s.pcs|);
  }

  /** The distances of all threads together. */
  function Total(s: State): nat {
    if |s.pcs| == |s.entered| then Rank(s, |s.pcs|) else 0
  }

  /** Step `k` brings some thread nearer to the next round, or is a spurious wakeup. */
  ghost predicate Paid(states: seq<State>, steps: seq<Step>, k: nat)
    requires k < |steps| < |states|
  {
    && |states[k + 1].pcs| == |states[k].pcs|
    && if Spurious(states[k], steps[k]) then Total(states[k + 1]) == Total(states[k]) + 1
       else Total(states[k + 1]) + 1 == Total(states[k])
  }

  lemma RunStep(states: seq<State>, steps: seq<Step>, k: nat)
    requires Run(states, steps) && k < |steps| && !steps[k].StartRound?
    ensures Paid(states, steps, k)
  {
    RunInv(states, steps);
    RankStep(states[k], steps[k], states[k + 1]);
  }

  /** The number of spurious wakeups from step `i` to step `j`. */
  ghost function Wasted(states: seq<State>, steps: seq<Step>, i: nat, j: nat): nat
    requires i <= j <= |steps| && |states| == |steps| + 1
  {
    if i == j then 0 else Wasted(states, steps, i, j - 1) + (if Spurious(states[j - 1], steps[j - 1]) then 1 else 0)
  }

  ghost predicate NoStart(steps: seq<Step>, i: nat, j: nat)
    requires i <= j <= |steps|
  {
    forall k :: i <= k < j ==> !steps[k].StartRound?
  }

  lemma {:induction false} Accumulate(states: seq<State>, steps: seq<Step>, i: nat, j: nat)
    requires i <= j <= |steps| && |states| == |steps| + 1
    requires forall k :: i <= k < j ==> Paid(states, steps, k)
    ensures |states[i].pcs| == |states[j].pcs|
    ensures j - i + Total(states[j]) == Total(states[i]) + 2 * Wasted(states, steps, i, j)
  {
    if i < j {
      Accumulate(states, steps, i, j - 1);
      assert Paid(states, steps, j - 1);
    }
  }

  /** As long as no round starts, steps are paid for by the rank, and spurious wakeups cost two each. */
  lemma StepsAndRank(states: seq<State>, steps: seq<Step>, i: nat, j: nat)
    requires Run(states, steps) && i <= j <= |steps| && NoStart(steps, i, j)
    ensures |states[i].pcs| == |states[j].pcs|
    ensures j - i + Total(states[j]) == Total(states[i]) + 2 * Wasted(states, steps, i, j)
  {
    forall k | i <= k < j ensures Paid(states, steps, k) {
      RunStep(states, steps, k);
    }
    Accumulate(states, steps, i, j);
  }

  /** When a round starts, all are as far from the next one as they can be. */
  lemma RankAtStart(s: State, step: Step, s': State)
    requires Inv(s) && Next(s, step, s') && step.StartRound?
    ensures |s'.pcs| == |s.pcs| && Total(s') == 6 * |s.pcs| && Total(s) == 1
  {
    var t, n := step.thread, |s.pcs|;
    assert ThreadInv(s, t);
    AllArrived(s);
    forall u | 0 <= u < n ensures Distance(s', u) == 6 && Distance(s, u) == if u == t then 1 else 0 {
      assert ThreadInv(s, u);
    }
    RankConstant(s', n, 6);
    RankSingle(s, t, n);
  }

  lemma {:induction false} RankSingle(s: State, t: nat, n: nat)
    requires n <= |s.pcs| == |s.entered| && t < |s.pcs|
    requires forall u :: 0 <= u < |s.pcs| ==> Distance(s, u) == if u == t then 1 else 0
    ensures Rank(s, n) == if t < n then 1 else 0
  {
    if n > 0 {
      RankSingle(s, t, n - 1);
    }
  }

  /**
    From the start of one round to the start of the next every thread takes
    six steps, plus two for each spurious wakeup.
  */
  lemma RoundLength(states: seq<State>, steps: seq<Step>, i: nat, j: nat)
    requires Run(states, steps) && i < j < |steps|
    requires steps[i].StartRound? && steps[j].StartRound? && NoStart(steps, i + 1, j)
    ensures j - i == 6 * |states[i].pcs| + 2 * Wasted(states, steps, i + 1, j)
  {
    RunInv(states, steps);
    assert Next(states[i], steps[i], states[i + 1]) && Next(states[j], steps[j], states[j + 1]);
    RankAtStart(states[i], steps[i], states[i + 1]);
    RankAtStart(states[j], steps[j], states[j + 1]);
    StepsAndRank(states, steps, i + 1, j);
  }

  lemma {:induction false} RankBound(s: State, n: nat)
    requires n <= |s.pcs| == |s.entered|
    ensures Rank(s, n) <= 6 * n
  {
    if n > 0 {
      RankBound(s, n - 1);
    }
  }

  /** Without spurious wakeups a new round starts within 6 steps per thread, whatever the schedule. */
  lemma RoundStartsSoon(states: seq<State>, steps: seq<Step>, i: nat, j: nat)
    requires Run(states, steps) && i <= j <= |steps| && NoStart(steps, i, j)
    requires Wasted(states, steps, i, j) == 0
    ensures j - i <= 6 * |states[i].pcs|
  {
    StepsAndRank(states, steps, i, j);
    if |states[i].pcs| == |states[i].entered| {
      RankBound(states[i], |states[i].pcs|);
    }
  }

  // ---------------------------------------------------------------------
  // A failed callback outlives its round
  // ---------------------------------------------------------------------

  /** A run that can be extended. */
  datatype Prefix = Prefix(states: seq<State>, steps: seq<Step>) {
    ghost predicate Valid() {
      Run(states, steps)
    }

    function Last(): State
      requires |states| > 0
    {
      states[|states| - 1]
    }
  }

  lemma Extend(r: Prefix, step: Step, s': State) returns (r': Prefix)
    requires r.Valid() && Shape(r.Last()) && Next(r.Last(), step, s')
    ensures r'.Valid() && r'.Last() == s'
  {
    r' := Prefix(r.states + [s'], r.steps + [step]);
    forall i | 0 <= i < |r'.steps|
      ensures Shape(r'.states[i]) && Next(r'.states[i], r'.steps[i], r'.states[i + 1])
    {
      if i < |r.steps| {
        assert r'.states[i] == r.states[i] && r'.states[i + 1] == r.states[i + 1] && r'.steps[i] == r.steps[i];
      }
    }
  }

  /** Two threads outside, with the barrier ready for another round that thread 1 may complete. */
  ghost predicate Between(s: State) {
    && Shape(s) && |s.pcs| == 2 && s.pcs == [Outside, Outside] && s.owner.None? && s.count == 2
  }

  /** Thread 0 arrives and goes to sleep. */
  lemma FirstArrives(r: Prefix) returns (r': Prefix)
    requires r.Valid() && Between(r.Last())
    ensures r'.Valid()
    ensures var s := r.Last();
      r'.Last() == s.(count := 1, pcs := [Asleep(s.serial, false), Outside],
                      entered := [s.entered[0] + 1, s.entered[1]])
  {
    var s := r.Last();
    var s1 := s.(owner := Some(0), pcs := [Decrement, Outside]);
    r' := Extend(r, LockMutex(0), s1);
    var s2 := s1.(count := 1, pcs := [Sample, Outside], entered := [s.entered[0] + 1, s.entered[1]]);
    r' := Extend(r', DecrementCount(0), s2);
    r' := Extend(r', ReadSerial(0), s2.(owner := None, pcs := [Asleep(s.serial, false), Outside]));
  }

  /** Thread 1 arrives, completes the round and runs the callback. */
  lemma SecondCompletes(r: Prefix, failed: bool) returns (r': Prefix)
    requires r.Valid() && Shape(r.Last()) && |r.Last().pcs| == 2
    requires var s := r.Last();
      s.pcs[1].Outside? && s.pcs[0] == Asleep(s.serial, false) && s.owner.None? && s.count == 1
    requires |r.Last().failures| == r.Last().round
    ensures r'.Valid()
    ensures var s := r.Last();
      r'.Last() == s.(serial := (s.serial + 1) % SERIALS, count := 2, error := s.error || failed,
                      pcs := [Asleep(s.serial, true), Outside], round := s.round + 1, last := s.last + [1],
                      entered := [s.entered[0], s.entered[1] + 1], failures := s.failures + [failed],
                      returned := [s.returned[0], s.returned[1] + [if failed then -1 else SERIAL_THREAD]])
  {
    var s := r.Last();
    var asleep := s.pcs[0];
    var s1 := s.(owner := Some(1), pcs := [asleep, Decrement]);
    r' := Extend(r, LockMutex(1), s1);
    var s2 := s1.(count := 0, pcs := [asleep, Complete], entered := [s.entered[0], s.entered[1] + 1]);
    r' := Extend(r', DecrementCount(1), s2);
    var s3 := s2.(serial := (s.serial + 1) % SERIALS, count := 2, pcs := [asleep, Broadcast],
                  round := s.round + 1, last := s.last + [1]);
    r' := Extend(r', StartRound(1), s3);
    var s4 := s3.(pcs := [Asleep(s.serial, true), Callback]);
    r' := Extend(r', WakeAll(1), s4);
    var res := if failed then -1 else SERIAL_THREAD;
    var s5 := s4.(error := s.error || failed, pcs := [Asleep(s.serial, true), Unlock(res)],
                  failures := s.failures + [failed]);
    r' := Extend(r', RunCallback(1, failed), s5);
    r' := Extend(r', UnlockMutex(1),
                 s5.(owner := None, pcs := [Asleep(s.serial, true), Outside],
                     returned := [s.returned[0], s.returned[1] + [res]]));
  }

  /** Thread 0 wakes up and returns. */
  lemma FirstReturns(r: Prefix, serial: nat) returns (r': Prefix)
    requires r.Valid() && Shape(r.Last()) && |r.Last().pcs| == 2 && serial < SERIALS && serial != r.Last().serial
    requires var s := r.Last(); s.pcs == [Asleep(serial, true), Outside] && s.owner.None?
    ensures r'.Valid()
    ensures var s := r.Last();
      r'.Last() == s.(pcs := [Outside, Outside],
                      returned := [s.returned[0] + [if s.error then -1 else 0], s.returned[1]])
  {
    var s := r.Last();
    var s1 := s.(owner := Some(0), pcs := [Check(serial), Outside]);
    r' := Extend(r, WakeUp(0), s1);
    var res := if s.error then -1 else 0;
    var s2 := s1.(pcs := [Unlock(res), Outside]);
    r' := Extend(r', CompareSerial(0), s2);
    r' := Extend(r', UnlockMutex(0),
                 s2.(owner := None, pcs := [Outside, Outside], returned := [s.returned[0] + [res], s.returned[1]]));
  }

  /** One whole round of two threads. */
  lemma WholeRound(r: Prefix, failed: bool) returns (r': Prefix)
    requires r.Valid() && Between(r.Last()) && |r.Last().failures| == r.Last().round
    ensures r'.Valid() && Between(r'.Last()) && |r'.Last().failures| == r'.Last().round
    ensures r'.Last().failures == r.Last().failures + [failed] && r'.Last().error == (r.Last().error || failed)
    ensures r'.Last().returned[0] == r.Last().returned[0] + [if r.Last().error || failed then -1 else 0]
  {
    var serial := r.Last().serial;
    r' := FirstArrives(r);
    r' := SecondCompletes(r', failed);
    r' := FirstReturns(r', serial);
  }

  /**
    A run in which a waiting thread gets a negative result in a round whose
    own callback succeeded, because an earlier one had failed.
  */
  lemma ErrorIsNeverCleared() returns (states: seq<State>, steps: seq<Step>)
    ensures Run(states, steps)
    ensures var s := states[|steps|];
      Shape(s) && s.failures == [true, false] && |s.pcs| == 2 && s.returned[0] == [-1, -1]
  {
    var s := State(2, 0, false, None, [Outside, Outside], 0, [0, 0], [[], []], [], []);
    var r := Prefix([s], []);
    r := WholeRound(r, true);
    r := WholeRound(r, false);
    states, steps := r.states, r.steps;
  }
}
