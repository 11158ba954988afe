/**
  The cyclic thread barrier with a callback. `init_count` threads call
  `sb_barrier_wait` in a loop; each statement of the call is a step, and
  steps of different threads interleave as the mutex and the condition
  variable allow, with spurious wakeups at any time. The round number
  `serial` wraps at 2^32.
*/
module Barrier {
  import opened FiniteSets
  import opened Machine
  import opened Wrappers

  const SERIALS: nat := TWO_TO_THE_32

  const SERIAL_THREAD: int := 1

  /** Where a thread is in `sb_barrier_wait`. */
  datatype Pc =
    | Outside                                   // not in the call
    | Decrement                                 // about to decrement count
    | Complete                                  // count is zero: about to start the next round
    | Broadcast                                 // about to wake the waiting threads
    | Callback                                  // about to run the callback
    | Sample                                    // about to read serial and wait
    | Asleep(serial: uint32, signalled: bool)   // waiting on the condition variable
    | Check(serial: uint32)                     // awake, about to compare serials
    | Unlock(res: int)                          // about to unlock and return

  /** All places but two hold the mutex. */
  predicate Holds(pc: Pc) {
    !pc.Outside? && !pc.Asleep?
  }

  /**
    The barrier's fields and the threads, with a history that the code does
    not keep: completed rounds, how often each thread has entered, what its
    calls returned, whether each round's callback failed, and which thread
    was the last to arrive in each round.
  */
  datatype State = State(
    count: uint32, serial: uint32, error: bool, owner: Option<nat>, pcs: seq<Pc>,
    round: nat, entered: seq<nat>, returned: seq<seq<int>>, failures: seq<bool>, last: seq<nat>)

  datatype Step =
    | LockMutex(thread: nat)
    | DecrementCount(thread: nat)
    | StartRound(thread: nat)
    | WakeAll(thread: nat)
    | RunCallback(thread: nat, failed: bool)
    | ReadSerial(thread: nat)
    | WakeUp(thread: nat)
    | CompareSerial(thread: nat)
    | UnlockMutex(thread: nat)

  function Signalled(pc: Pc): Pc {
    if pc.Asleep? then pc.(signalled := true) else pc
  }

  /** One step of one thread. A thread may wake up although nobody signalled it. */
  ghost predicate Next(s: State, step: Step, s': State)
    requires Shape(s)
  {
    var t := step.thread;
    t < |s.pcs| &&
    match step
    case LockMutex(_) =>
      && s.pcs[t].Outside? && s.owner.None?
      && s' == s.(owner := Some(t), pcs := s.pcs[t := Decrement])
    case DecrementCount(_) =>
      && s.pcs[t].Decrement?
      && var count := if s.count == 0 then SERIALS - 1 else s.count - 1;
         s' == s.(count := count,
                  pcs := s.pcs[t := if count == 0 then Complete else Sample],
                  entered := s.entered[t := s.entered[t] + 1])
    case StartRound(_) =>
      && s.pcs[t].Complete?
      && s' == s.(serial := (s.serial + 1) % SERIALS, count := |s.pcs|, pcs := s.pcs[t := Broadcast],
                  round := s.round + 1, last := s.last + [t])
    case WakeAll(_) =>
      && s.pcs[t].Broadcast?
      && s' == s.(pcs := seq(|s.pcs|, u requires 0 <= u < |s.pcs| => if u == t then Callback else Signalled(s.pcs[u])))
    case RunCallback(_, failed) =>
      && s.pcs[t].Callback?
      && s' == s.(error := s.error || failed,
                  pcs := s.pcs[t := Unlock(if failed then -1 else SERIAL_THREAD)],
                  failures := s.failures + [failed])
    case ReadSerial(_) =>
      && s.pcs[t].Sample?
      && s' == s.(owner := None, pcs := s.pcs[t := Asleep(s.serial, false)])
    case WakeUp(_) =>
      && s.pcs[t].Asleep? && s.owner.None?
      && s' == s.(owner := Some(t), pcs := s.pcs[t := Check(s.pcs[t].serial)])
    case CompareSerial(_) =>
      && s.pcs[t].Check?
      && s' == if s.pcs[t].serial == s.serial
               then s.(owner := None, pcs := s.pcs[t := Asleep(s.serial, false)])
               else s.(pcs := s.pcs[t := Unlock(if s.error then -1 else 0)])
    case UnlockMutex(_) =>
      && s.pcs[t].Unlock?
      && s' == s.(owner := None, pcs := s.pcs[t := Outside],
                  returned := s.returned[t := s.returned[t] + [s.pcs[t].res]])
  }

  ghost predicate Shape(s: State) {
    && 0 < |s.pcs| < SERIALS && |s.entered| == |s.pcs| && |s.returned| == |s.pcs|
    && |s.last| == s.round && |s.failures| <= s.round
  }

  /** A barrier just initialised for `|pcs|` threads; a zero count is refused by `sb_barrier_init`. */
  ghost predicate Initial(s: State) {
    && Shape(s)
    && s.count == |s.pcs| && s.serial == 0 && !s.error && s.owner.None?
    && s.round == 0 && s.failures == [] && s.last == []
    && forall t :: 0 <= t < |s.pcs| ==> s.pcs[t] == Outside && s.entered[t] == 0 && s.returned[t] == []
  }

  ghost predicate Run(states: seq<State>, steps: seq<Step>) {
    && |states| == |steps| + 1
    && Initial(states[0])
    && forall i :: 0 <= i < |steps| ==> Shape(states[i]) && Next(states[i], steps[i], states[i + 1])
  }

  // ---------------------------------------------------------------------
  // What each call must return
  // ---------------------------------------------------------------------

  /**
    The result of round `k` for thread `t`: the last thread to arrive gets
    its own callback's verdict, the others learn whether any callback so far
    has failed.
  */
  function Result(s: State, t: nat, k: nat): int
    requires k < |s.failures| <= |s.last|
  {
    if s.last[k] == t then (if s.failures[k] then -1 else SERIAL_THREAD)
    else if true in s.failures[..k + 1] then -1 else 0
  }

  // ---------------------------------------------------------------------
  // The invariant
  // ---------------------------------------------------------------------

  /** The threads that have entered the current round. */
  function Arrived(s: State): set<nat>
    requires Shape(s)
  {
    set t | 0 <= t < |s.pcs| && s.entered[t] == s.round + 1
  }

  /** What is known about one thread. */
  ghost predicate ThreadInv(s: State, t: nat)
    requires Shape(s) && t < |s.pcs|
  {
    && (Holds(s.pcs[t]) <==> s.owner == Some(t))
    && s.entered[t] == |s.returned[t]| + (if s.pcs[t].Outside? || s.pcs[t].Decrement? then 0 else 1)
    && match s.pcs[t]
       case Outside => s.entered[t] == s.round
       case Decrement => s.entered[t] == s.round
       case Complete => s.entered[t] == s.round + 1 && s.count == 0
       case Broadcast => s.entered[t] == s.round && s.round > 0 && s.last[s.round - 1] == t
       case Callback => s.entered[t] == s.round && s.round > 0 && s.last[s.round - 1] == t
       case Sample => s.entered[t] == s.round + 1
       case Asleep(serial, _) => Waiting(s, t, serial)
       case Check(serial) => Waiting(s, t, serial)
       case Unlock(res) =>
         s.entered[t] == s.round == |s.failures| && s.round > 0 && res == Result(s, t, s.round - 1)
  }

  /** A waiting thread sampled the serial of its own round, which is the current one or the one before. */
  ghost predicate Waiting(s: State, t: nat, serial: uint32)
    requires Shape(s) && t < |s.pcs|
  {
    && s.round <= s.entered[t] <= s.round + 1
    && s.entered[t] > 0
    && serial == (s.entered[t] - 1) % SERIALS
    && (s.entered[t] == s.round ==> s.last[s.entered[t] - 1] != t)
  }

  /** The barrier's own fields. */
  ghost predicate BarrierInv(s: State)
    requires Shape(s)
  {
    && s.serial == s.round % SERIALS
    && (s.owner.Some? ==> s.owner.value < |s.pcs|)
    && |s.failures| == (if CallbackPending(s) then s.round - 1 else s.round)
    && (s.error <==> true in s.failures)
    && s.count + |Arrived(s)| == |s.pcs|
    && (s.count == 0 ==> s.owner.Some? && s.pcs[s.owner.value].Complete?)
    && (CallbackPending(s) ==> s.count == |s.pcs|)
  }

  /** The call of thread `t` in round `k` returned what it must, after the callback of that round. */
  ghost predicate ReturnedRight(s: State, t: nat, k: nat)
    requires Shape(s) && t < |s.pcs| && k < |s.returned[t]|
  {
    k < |s.failures| && s.returned[t][k] == Result(s, t, k)
  }

  ghost predicate ResultsInv(s: State)
    requires Shape(s)
  {
    forall t, k :: 0 <= t < |s.pcs| && 0 <= k < |s.returned[t]| ==> ReturnedRight(s, t, k)
  }

  /**
    Whoever sleeps through the end of its round has been signalled or is
    about to be, and nobody else has been signalled.
  */
  ghost predicate SignalInv(s: State)
    requires Shape(s)
  {
    && (forall t :: 0 <= t < |s.pcs| && s.pcs[t].Asleep? && !s.pcs[t].signalled && s.entered[t] == s.round ==>
          BroadcastPending(s))
    && (forall t :: 0 <= t < |s.pcs| && s.pcs[t].Asleep? && s.pcs[t].signalled ==> s.entered[t] == s.round)
  }

  ghost predicate Inv(s: State) {
    && Shape(s) && BarrierInv(s) && ResultsInv(s) && SignalInv(s)
    && forall t :: 0 <= t < |s.pcs| ==> ThreadInv(s, t)
  }

  ghost predicate BroadcastPending(s: State) {
    s.owner.Some? && s.owner.value < |s.pcs| && s.pcs[s.owner.value].Broadcast?
  }

  /** A round has started and its callback has not run yet. */
  ghost predicate CallbackPending(s: State) {
    s.owner.Some? && s.owner.value < |s.pcs| && (s.pcs[s.owner.value].Broadcast? || s.pcs[s.owner.value].Callback?)
  }

  lemma InitialInv(s: State)
    requires Initial(s)
    ensures Inv(s)
  {
    assert Arrived(s) == {};
  }

  /** When the count is down to zero, every thread has arrived. */
  lemma AllArrived(s: State)
    requires Shape(s) && BarrierInv(s) && s.count == 0
    ensures forall t :: 0 <= t < |s.pcs| ==> s.entered[t] == s.round + 1
  {
    SubsetOfSameSize(Arrived(s), Below(|s.pcs|));
    forall t | 0 <= t < |s.pcs| ensures s.entered[t] == s.round + 1 {
      assert t in Arrived(s);
    }
  }

  /** While the callback is pending, nobody has arrived again. */
  lemma NoneArrived(s: State)
    requires Shape(s) && BarrierInv(s) && s.count == |s.pcs|
    ensures forall t :: 0 <= t < |s.pcs| ==> s.entered[t] != s.round + 1
  {
    assert Arrived(s) == {};
    assert forall t :: 0 <= t < |s.pcs| && s.entered[t] == s.round + 1 ==> t in Arrived(s);
  }

  lemma SameResults(s: State, s': State)
    requires Shape(s) && Shape(s') && ResultsInv(s)
    requires |s'.pcs| == |s.pcs| && s'.returned == s.returned && s.failures <= s'.failures && s.last <= s'.last
    ensures ResultsInv(s')
  {
    forall t, k | 0 <= t < |s'.pcs| && 0 <= k < |s'.returned[t]|
      ensures ReturnedRight(s', t, k)
    {
      assert ReturnedRight(s, t, k);
      assert s'.failures[..k + 1] == s.failures[..k + 1];
    }
  }

  lemma LockMutexInv(s: State, step: Step, s': State)
    requires Inv(s) && step.LockMutex? && Next(s, step, s')
    ensures Inv(s')
  {
    assert ThreadInv(s, step.thread);
    SameResults(s, s');
    forall u | 0 <= u < |s.pcs| ensures ThreadInv(s', u) {
      assert ThreadInv(s, u);
    }
    assert Arrived(s') == Arrived(s);
  }

  lemma OneArrives(s: State, step: Step, s': State)
    requires Inv(s) && step.DecrementCount? && Next(s, step, s')
    ensures |Arrived(s')| == |Arrived(s)| + 1
  {
    assert ThreadInv(s, step.thread);
    assert Arrived(s') == Arrived(s) + {step.thread};
  }

  lemma DecrementCountInv(s: State, step: Step, s': State)
    requires Inv(s) && step.DecrementCount? && Next(s, step, s')
    ensures Inv(s')
  {
    assert ThreadInv(s, step.thread);
    SameResults(s, s');
    OneArrives(s, step, s');
    forall u | 0 <= u < |s.pcs| ensures ThreadInv(s', u) {
      assert ThreadInv(s, u);
    }
  }

  lemma StartRoundInv(s: State, step: Step, s': State)
    requires Inv(s) && step.StartRound? && Next(s, step, s')
    ensures Inv(s')
  {
    assert ThreadInv(s, step.thread);
    SameResults(s, s');
    AllArrived(s);
    forall u | 0 <= u < |s.pcs| ensures ThreadInv(s', u) && s'.entered[u] == s'.round {
      assert ThreadInv(s, u);
    }
    assert Arrived(s') == {};
  }

  lemma WakeAllInv(s: State, step: Step, s': State)
    requires Inv(s) && step.WakeAll? && Next(s, step, s')
    ensures Inv(s')
  {
    assert ThreadInv(s, step.thread);
    NoneArrived(s);
    SameResults(s, s');
    forall u | 0 <= u < |s.pcs| ensures ThreadInv(s', u) && (s.pcs[u].Asleep? ==> s.entered[u] == s.round) {
      assert ThreadInv(s, u);
    }
    assert Arrived(s') == Arrived(s);
  }

  lemma RunCallbackInv(s: State, step: Step, s': State)
    requires Inv(s) && step.RunCallback? && Next(s, step, s')
    ensures Inv(s')
  {
    assert ThreadInv(s, step.thread);
    SameResults(s, s');
    forall u | 0 <= u < |s.pcs| ensures ThreadInv(s', u) {
      assert ThreadInv(s, u);
    }
    assert Arrived(s') == Arrived(s);
  }

  lemma ReadSerialInv(s: State, step: Step, s': State)
    requires Inv(s) && step.ReadSerial? && Next(s, step, s')
    ensures Inv(s')
  {
    assert ThreadInv(s, step.thread);
    SameResults(s, s');
    forall u | 0 <= u < |s.pcs| ensures ThreadInv(s', u) {
      assert ThreadInv(s, u);
    }
    assert Arrived(s') == Arrived(s);
  }

  lemma WakeUpInv(s: State, step: Step, s': State)
    requires Inv(s) && step.WakeUp? && Next(s, step, s')
    ensures Inv(s')
  {
    assert ThreadInv(s, step.thread);
    SameResults(s, s');
    forall u | 0 <= u < |s.pcs| ensures ThreadInv(s', u) {
      assert ThreadInv(s, u);
    }
    assert Arrived(s') == Arrived(s);
  }

  lemma CompareSerialInv(s: State, step: Step, s': State)
    requires Inv(s) && step.CompareSerial? && Next(s, step, s')
    ensures Inv(s')
  {
    assert ThreadInv(s, step.thread);
    SameResults(s, s');
    forall u | 0 <= u < |s.pcs| ensures ThreadInv(s', u) {
      assert ThreadInv(s, u);
    }
    assert Arrived(s') == Arrived(s);
  }

  lemma UnlockMutexInv(s: State, step: Step, s': State)
    requires Inv(s) && step.UnlockMutex? && Next(s, step, s')
    ensures Inv(s')
  {
    assert ThreadInv(s, step.thread);
    forall t, k | 0 <= t < |s'.pcs| && 0 <= k < |s'.returned[t]| ensures ReturnedRight(s', t, k) {
      if t != step.thread || k < |s.returned[t]| {
        assert ReturnedRight(s, t, k);
      }
    }
    forall u | 0 <= u < |s.pcs| ensures ThreadInv(s', u) {
      assert ThreadInv(s, u);
    }
    assert Arrived(s') == Arrived(s);
  }

  lemma NextInv(s: State, step: Step, s': State)
    requires Inv(s) && Next(s, step, s')
    ensures Inv(s')
  {
    match step
    case LockMutex(_) =>
      LockMutexInv(s, step, s');
    case DecrementCount(_) =>
      DecrementCountInv(s, step, s');
    case StartRound(_) =>
      StartRoundInv(s, step, s');
    case WakeAll(_) =>
      WakeAllInv(s, step, s');
    case RunCallback(_, _) =>
      RunCallbackInv(s, step, s');
    case ReadSerial(_) =>
      ReadSerialInv(s, step, s');
    case WakeUp(_) =>
      WakeUpInv(s, step, s');
    case CompareSerial(_) =>
      CompareSerialInv(s, step, s');
    case UnlockMutex(_) =>
      UnlockMutexInv(s, step, s');
  }

  lemma {:induction false} RunInv(states: seq<State>, steps: seq<Step>)
    requires Run(states, steps)
    ensures forall i :: 0 <= i <= |steps| ==> Inv(states[i])
  {
    if |steps| == 0 {
      InitialInv(states[0]);
    } else {
      var n := |steps| - 1;
      RunInv(states[..n + 1], steps[..n]);
      assert Inv(states[..n + 1][n]);
      NextInv(states[n], steps[n], states[n + 1]);
      forall i | 0 <= i <= |steps| ensures Inv(states[i]) {
        if i <= n {
          assert states[i] == states[..n + 1][i];
        }
      }
    }
  }

  // ---------------------------------------------------------------------
  // What every run guarantees
  // ---------------------------------------------------------------------

  /**
    No thread leaves a round before all threads have entered it and its
    callback has run.
  */
  lemma NoneLeavesEarly(states: seq<State>, steps: seq<Step>, i: nat, t: nat, u: nat, k: nat)
    requires Run(states, steps) && i <= |steps|
    requires Shape(states[i]) && t < |states[i].pcs| && u < |states[i].pcs|
    requires k < |states[i].returned[t]|
    ensures k < states[i].entered[u] && k < |states[i].failures|
  {
    RunInv(states, steps);
    var s := states[i];
    assert Inv(s) && ThreadInv(s, t) && ThreadInv(s, u) && ReturnedRight(s, t, k);
  }

  /**
    What each call returns: in every finished round exactly one thread, the
    last to arrive, takes the serial role; the others get zero until some
    round's callback has failed.
  */
  lemma CallsReturnResult(states: seq<State>, steps: seq<Step>, i: nat, t: nat, k: nat)
    requires Run(states, steps) && i <= |steps|
    requires Shape(states[i]) && t < |states[i].pcs| && k < |states[i].returned[t]|
    ensures k < |states[i].failures|
    ensures var s := states[i];
      s.returned[t][k] ==
        if s.last[k] == t then (if s.failures[k] then -1 else SERIAL_THREAD)
        else if true in s.failures[..k + 1] then -1 else 0
    ensures states[i].returned[t][k] == SERIAL_THREAD <==> t == states[i].last[k] && !states[i].failures[k]
  {
    RunInv(states, steps);
    assert Inv(states[i]) && ReturnedRight(states[i], t, k);
  }

  /** In the first round whose callback fails every thread gets a negative result. */
  lemma FirstFailureSeenByAll(states: seq<State>, steps: seq<Step>, i: nat, t: nat, k: nat)
    requires Run(states, steps) && i <= |steps|
    requires Shape(states[i]) && t < |states[i].pcs| && k < |states[i].returned[t]|
    requires k < |states[i].failures| && true !in states[i].failures[..k]
    ensures states[i].returned[t][k] < 0 <==> states[i].failures[k]
  {
    CallsReturnResult(states, steps, i, t, k);
    var f := states[i].failures;
    assert f[..k + 1] == f[..k] + [f[k]];
  }

  /**
    A result tells the verdict of its own round's callback exactly if that
    callback failed, no earlier one did, or the thread is the one that ran it.
  */
  lemma ResultTellsVerdict(states: seq<State>, steps: seq<Step>, i: nat, t: nat, k: nat)
    requires Run(states, steps) && i <= |steps|
    requires Shape(states[i]) && t < |states[i].pcs| && k < |states[i].returned[t]|
    ensures k < |states[i].failures|
    ensures var s := states[i];
      (s.returned[t][k] < 0 <==> s.failures[k]) <==> t == s.last[k] || s.failures[k] || true !in s.failures[..k]
  {
    CallsReturnResult(states, steps, i, t, k);
    var f := states[i].failures;
    assert f[..k + 1] == f[..k] + [f[k]];
  }

  /** The callback of a round runs once, before the next round can start. */
  lemma OneCallbackPerRound(states: seq<State>, steps: seq<Step>, i: nat)
    requires Run(states, steps) && i < |steps|
    ensures steps[i].RunCallback? ==> states[i].round == |states[i].failures| + 1 == |states[i + 1].failures|
    ensures steps[i].StartRound? ==> states[i].round == |states[i].failures|
    ensures !steps[i].RunCallback? ==> states[i + 1].failures == states[i].failures
  {
    RunInv(states, steps);
    assert Next(states[i], steps[i], states[i + 1]);
    assert Inv(states[i]) && ThreadInv(states[i], steps[i].thread);
  }

  /** The counter never underflows: whoever decrements it finds it positive. */
  lemma CountPositive(states: seq<State>, steps: seq<Step>, i: nat, t: nat)
    requires Run(states, steps) && i <= |steps|
    requires Shape(states[i]) && t < |states[i].pcs| && states[i].pcs[t].Decrement?
    ensures states[i].count > 0
  {
    RunInv(states, steps);
    assert Inv(states[i]) && ThreadInv(states[i], t);
  }

  /** A step that does not rest on a spurious wakeup. */
  ghost predicate Unforced(s: State, step: Step)
    requires Shape(s)
  {
    step.thread < |s.pcs| && (step.WakeUp? ==> s.pcs[step.thread].Asleep? && s.pcs[step.thread].signalled)
  }

  /**
    The barrier never gets stuck: in every reachable state some thread has a
    step that does not rest on a spurious wakeup, so no wakeup is lost.
  */
  lemma NeverStuck(states: seq<State>, steps: seq<Step>, i: nat) returns (step: Step, s': State)
    requires Run(states, steps) && i <= |steps|
    ensures Shape(states[i]) && Unforced(states[i], step) && Next(states[i], step, s')
  {
    RunInv(states, steps);
    var s := states[i];
    assert Inv(s);
    if s.owner.Some? {
      step, s' := OwnerStep(s);
    } else {
      var t := SomeoneReady(s);
      assert ThreadInv(s, t);
      if s.pcs[t].Outside? {
        step := LockMutex(t);
        s' := s.(owner := Some(t), pcs := s.pcs[t := Decrement]);
      } else {
        step := WakeUp(t);
        s' := s.(owner := Some(t), pcs := s.pcs[t := Check(s.pcs[t].serial)]);
      }
    }
  }

  /** With the mutex free, some thread is outside or has been signalled. */
  lemma SomeoneReady(s: State) returns (t: nat)
    requires Inv(s) && s.owner.None?
    ensures t < |s.pcs| && (s.pcs[t].Outside? || (s.pcs[t].Asleep? && s.pcs[t].signalled))
  {
    assert s.count > 0;
    t := NotArrived(s);
    assert ThreadInv(s, t);
  }

  lemma NotArrived(s: State) returns (t: nat)
    requires Inv(s) && s.count > 0
    ensures t < |s.pcs| && s.entered[t] != s.round + 1
  {
    var all := Below(|s.pcs|);
    assert Arrived(s) <= all && Arrived(s) != all;
    t :| t in all && t !in Arrived(s);
  }

  lemma OwnerStep(s: State) returns (step: Step, s': State)
    requires Inv(s) && s.owner.Some?
    ensures Unforced(s, step) && Next(s, step, s')
  {
    var t := s.owner.value;
    assert ThreadInv(s, t);
    match s.pcs[t]
    case Decrement =>
      step := DecrementCount(t);
      var count := if s.count == 0 then SERIALS - 1 else s.count - 1;
      s' := s.(count := count, pcs := s.pcs[t := if count == 0 then Complete else Sample],
               entered := s.entered[t := s.entered[t] + 1]);
    case Complete =>
      step := StartRound(t);
      s' := s.(serial := (s.serial + 1) % SERIALS, count := |s.pcs|, pcs := s.pcs[t := Broadcast],
               round := s.round + 1, last := s.last + [t]);
    case Broadcast =>
      step := WakeAll(t);
      s' := s.(pcs := seq(|s.pcs|, u requires 0 <= u < |s.pcs| => if u == t then Callback else Signalled(s.pcs[u])));
    case Callback =>
      step := RunCallback(t, false);
      s' := s.(pcs := s.pcs[t := Unlock(SERIAL_THREAD)], failures := s.failures + [false]);
    case Sample =>
      step := ReadSerial(t);
      s' := s.(owner := None, pcs := s.pcs[t := Asleep(s.serial, false)]);
    case Check(serial) =>
      step := CompareSerial(t);
      s' := if serial == s.serial
            then s.(owner := None, pcs := s.pcs[t := Asleep(s.serial, false)])
            else s.(pcs := s.pcs[t := Unlock(if s.error then -1 else 0)]);
    case Unlock(res) =>
      step := UnlockMutex(t);
      s' := s.(owner := None, pcs := s.pcs[t := Outside], returned := s.returned[t := s.returned[t] + [res]]);
  }
}
