/**
  The 64-bit fetch-and-add and fetch-and-store built from a compare-and-swap
  retry loop, and the event limit of `sb_more_events` that rests on it. Any
  number of threads work on one shared cell; the load and each attempt of the
  compare-and-swap are atomic steps that interleave freely.
*/
module AtomicOps {
  import opened Machine

  const CELLS: nat := TWO_TO_THE_64

  /** Fetch-and-add with a delta, or fetch-and-store with a value. */
  datatype Op = Add(delta: uint64) | Store(value: uint64)

  function Apply(op: Op, cell: uint64): uint64 {
    match op
    case Add(delta) => (cell + delta) % CELLS
    case Store(value) => value
  }

  /**
    Where a thread is in `ck_pr_faa_64` or `ck_pr_fas_64`. `begun` is the
    number of calls that had returned when this call began, and `entry` the
    place of its compare-and-swap in the history; the code has neither.
  */
  datatype Pc =
    | Idle
    | Load(op: Op, begun: nat)                        // about to load the cell
    | Swap(op: Op, begun: nat, previous: uint64)      // about to try the compare-and-swap
    | Return(op: Op, begun: nat, entry: nat, previous: uint64)

  /** A compare-and-swap that succeeded. */
  datatype Entry = Entry(thread: nat, op: Op, previous: uint64)

  /** A call that has returned `value`. */
  datatype Call = Call(thread: nat, op: Op, begun: nat, entry: nat, value: uint64)

  /** `calls` are the calls in the order in which they returned; `history` is kept for the proofs. */
  datatype State = State(cell: uint64, pcs: seq<Pc>, history: seq<Entry>, calls: seq<Call>)

  datatype Step = Begin(thread: nat, op: Op) | DoLoad(thread: nat) | TrySwap(thread: nat) | Finish(thread: nat)

  ghost predicate Next(s: State, step: Step, s': State) {
    var t := step.thread;
    t < |s.pcs| &&
    match step
    case Begin(_, op) =>
      s.pcs[t].Idle? && s' == s.(pcs := s.pcs[t := Load(op, |s.calls|)])
    case DoLoad(_) =>
      s.pcs[t].Load? && s' == s.(pcs := s.pcs[t := Swap(s.pcs[t].op, s.pcs[t].begun, s.cell)])
    case TrySwap(_) =>
      && s.pcs[t].Swap?
      && var Swap(op, begun, previous) := s.pcs[t];
         if s.cell == previous then
           s' == s.(cell := Apply(op, previous),
                    pcs := s.pcs[t := Return(op, begun, |s.history|, previous)],
                    history := s.history + [Entry(t, op, previous)])
         else
           s' == s.(pcs := s.pcs[t := Swap(op, begun, s.cell)])
    case Finish(_) =>
      && s.pcs[t].Return?
      && var Return(op, begun, entry, previous) := s.pcs[t];
         s' == s.(pcs := s.pcs[t := Idle], calls := s.calls + [Call(t, op, begun, entry, previous)])
  }

  ghost predicate Quiet(s: State) {
    forall t :: 0 <= t < |s.pcs| ==> s.pcs[t].Idle?
  }

  ghost predicate Initial(s: State) {
    s.history == [] && s.calls == [] && Quiet(s)
  }

  ghost predicate Run(states: seq<State>, steps: seq<Step>) {
    && |states| == |steps| + 1
    && Initial(states[0])
    && forall i :: 0 <= i < |steps| ==> Next(states[i], steps[i], states[i + 1])
  }

  // ---------------------------------------------------------------------
  // Every call takes effect once, at one instant between its begin and its end
  // ---------------------------------------------------------------------

  /** The cell after the operations of `history`, one after the other. */
  function Replay(cell: uint64, history: seq<Entry>): uint64 {
    if |history| == 0 then cell
    else Apply(history[|history| - 1].op, Replay(cell, history[..|history| - 1]))
  }

  /** Each operation saw what the operations before it left. */
  ghost predicate Sequential(cell: uint64, history: seq<Entry>) {
    forall i :: 0 <= i < |history| ==> history[i].previous == Replay(cell, history[..i])
  }

  /** The call's operation is entry `entry` of the history, and what the call returned is what that entry saw. */
  ghost predicate CallRight(s: State, k: nat)
    requires k < |s.calls|
  {
    var c := s.calls[k];
    c.entry < |s.history| && s.history[c.entry] == Entry(c.thread, c.op, c.value) && c.begun <= k
  }

  /** Different calls are different entries, and a call that began after another had returned comes later. */
  ghost predicate CallsOrdered(s: State, k: nat, l: nat)
    requires k < l < |s.calls|
  {
    s.calls[k].entry != s.calls[l].entry && (k < s.calls[l].begun ==> s.calls[k].entry < s.calls[l].entry)
  }

  ghost predicate CallsInv(s: State) {
    && (forall k :: 0 <= k < |s.calls| ==> CallRight(s, k))
    && (forall k, l :: 0 <= k < l < |s.calls| ==> CallsOrdered(s, k, l))
  }

  /** The same for a call that took effect and has not returned. */
  ghost predicate PendingRight(s: State, t: nat)
    requires t < |s.pcs|
  {
    && (!s.pcs[t].Idle? ==> s.pcs[t].begun <= |s.calls|)
    && (s.pcs[t].Return? ==>
          && s.pcs[t].entry < |s.history|
          && s.history[s.pcs[t].entry] == Entry(t, s.pcs[t].op, s.pcs[t].previous)
          && (forall k :: 0 <= k < |s.calls| ==>
                && s.calls[k].entry != s.pcs[t].entry
                && (k < s.pcs[t].begun ==> s.calls[k].entry < s.pcs[t].entry)))
  }

  ghost predicate PendingInv(s: State) {
    forall t :: 0 <= t < |s.pcs| ==> PendingRight(s, t)
  }

  ghost predicate Inv(s: State, cell: uint64) {
    && s.cell == Replay(cell, s.history)
    && Sequential(cell, s.history)
    && CallsInv(s) && PendingInv(s)
  }

  lemma SwapSequential(cell: uint64, history: seq<Entry>, e: Entry)
    requires Sequential(cell, history) && e.previous == Replay(cell, history)
    ensures Sequential(cell, history + [e])
    ensures Replay(cell, history + [e]) == Apply(e.op, e.previous)
  {
    var longer := history + [e];
    assert longer[..|history|] == history;
    forall i | 0 <= i < |longer| ensures longer[i].previous == Replay(cell, longer[..i]) {
      assert longer[..i] == history[..i];
      if i == |history| {
        assert history[..i] == history;
      }
    }
  }

  lemma NextCalls(s: State, step: Step, s': State)
    requires CallsInv(s) && PendingInv(s) && Next(s, step, s')
    ensures CallsInv(s')
  {
    forall k | 0 <= k < |s'.calls| ensures CallRight(s', k) {
      if k < |s.calls| {
        assert CallRight(s, k);
      } else {
        assert PendingRight(s, step.thread);
      }
    }
    forall k, l | 0 <= k < l < |s'.calls| ensures CallsOrdered(s', k, l) {
      if l < |s.calls| {
        assert CallsOrdered(s, k, l);
      } else {
        assert PendingRight(s, step.thread);
      }
    }
  }

  lemma NextPending(s: State, step: Step, s': State)
    requires CallsInv(s) && PendingInv(s) && Next(s, step, s')
    ensures PendingInv(s')
  {
    forall t | 0 <= t < |s'.pcs| ensures PendingRight(s', t) {
      assert PendingRight(s, t) && PendingRight(s, step.thread);
      forall k | 0 <= k < |s.calls| ensures s.calls[k].entry < |s.history| {
        assert CallRight(s, k);
      }
    }
  }

  lemma NextInv(s: State, step: Step, s': State, cell: uint64)
    requires Inv(s, cell) && Next(s, step, s')
    ensures Inv(s', cell)
  {
    NextCalls(s, step, s');
    NextPending(s, step, s');
    if step.TrySwap? && s.cell == s.pcs[step.thread].previous {
      SwapSequential(cell, s.history, Entry(step.thread, s.pcs[step.thread].op, s.cell));
    }
  }

  lemma {:induction false} RunInv(states: seq<State>, steps: seq<Step>)
    requires Run(states, steps)
    ensures Inv(states[|steps|], states[0].cell)
  {
    if |steps| > 0 {
      var n := |steps| - 1;
      RunInv(states[..n + 1], steps[..n]);
      NextInv(states[n], steps[n], states[n + 1], states[0].cell);
    }
  }

  /**
    In every interleaving the calls form a sequential history: the cell is
    what replaying it gives, each call is one entry of its own and returned
    what was in the cell just before that entry, and a call that began after
    another had returned comes after it.
  */
  lemma Linearizable(states: seq<State>, steps: seq<Step>)
    requires Run(states, steps)
    ensures var s := states[|steps|];
      && s.cell == Replay(states[0].cell, s.history)
      && (forall k :: 0 <= k < |s.calls| ==>
            && s.calls[k].entry < |s.history|
            && s.history[s.calls[k].entry].thread == s.calls[k].thread
            && s.history[s.calls[k].entry].op == s.calls[k].op
            && s.calls[k].value == Replay(states[0].cell, s.history[..s.calls[k].entry]))
      && (forall k, l :: 0 <= k < l < |s.calls| ==>
            && s.calls[k].entry != s.calls[l].entry
            && (k < s.calls[l].begun ==> s.calls[k].entry < s.calls[l].entry))
  {
    RunInv(states, steps);
    var s := states[|steps|];
    forall k | 0 <= k < |s.calls|
      ensures s.calls[k].entry < |s.history| && s.history[s.calls[k].entry].thread == s.calls[k].thread
      ensures s.history[s.calls[k].entry].op == s.calls[k].op
      ensures s.calls[k].value == Replay(states[0].cell, s.history[..s.calls[k].entry])
    {
      assert CallRight(s, k);
    }
    forall k, l | 0 <= k < l < |s.calls|
      ensures s.calls[k].entry != s.calls[l].entry
      ensures k < s.calls[l].begun ==> s.calls[k].entry < s.calls[l].entry
    {
      assert CallsOrdered(s, k, l);
    }
  }

  // ---------------------------------------------------------------------
  // Sums over calls and sums over the history
  // ---------------------------------------------------------------------

  /** What an operation that returned a value weighs. */
  type Weight = (Op, uint64) -> nat

  function OfCalls(w: Weight, calls: seq<Call>): nat {
    if |calls| == 0 then 0
    else
      var c := calls[|calls| - 1];
      OfCalls(w, calls[..|calls| - 1]) + w(c.op, c.value)
  }

  function OfHistory(w: Weight, history: seq<Entry>): nat {
    if |history| == 0 then 0
    else
      var e := history[|history| - 1];
      OfHistory(w, history[..|history| - 1]) + w(e.op, e.previous)
  }

  function OfPc(w: Weight, pc: Pc): nat {
    if pc.Return? then w(pc.op, pc.previous) else 0
  }

  /** The weight of the calls that took effect and have not returned. */
  function OfPending(w: Weight, pcs: seq<Pc>): nat {
    if |pcs| == 0 then 0 else OfPending(w, pcs[..|pcs| - 1]) + OfPc(w, pcs[|pcs| - 1])
  }

  lemma {:induction false} PendingUpdate(w: Weight, pcs: seq<Pc>, t: nat, pc: Pc)
    requires t < |pcs|
    ensures OfPending(w, pcs[t := pc]) + OfPc(w, pcs[t]) == OfPending(w, pcs) + OfPc(w, pc)
  {
    var n := |pcs| - 1;
    if t < n {
      PendingUpdate(w, pcs[..n], t, pc);
      assert pcs[t := pc][..n] == pcs[..n][t := pc];
    } else {
      assert pcs[t := pc][..n] == pcs[..n];
    }
  }

  lemma {:induction false} PendingNone(w: Weight, pcs: seq<Pc>)
    requires forall t :: 0 <= t < |pcs| ==> pcs[t].Idle?
    ensures OfPending(w, pcs) == 0
  {
    if |pcs| > 0 {
      PendingNone(w, pcs[..|pcs| - 1]);
    }
  }

  ghost predicate Balanced(w: Weight, s: State) {
    OfCalls(w, s.calls) + OfPending(w, s.pcs) == OfHistory(w, s.history)
  }

  lemma NextBalanced(w: Weight, s: State, step: Step, s': State)
    requires Balanced(w, s) && Next(s, step, s')
    ensures Balanced(w, s')
  {
    PendingUpdate(w, s.pcs, step.thread, s'.pcs[step.thread]);
    assert s'.pcs == s.pcs[step.thread := s'.pcs[step.thread]];
    if step.Finish? {
      assert s'.calls[..|s.calls|] == s.calls;
    } else if |s'.history| > |s.history| {
      assert s'.history[..|s.history|] == s.history;
    }
  }

  /** Whatever is summed up: the calls and the operations in progress make up the history. */
  lemma {:induction false} RunBalanced(w: Weight, states: seq<State>, steps: seq<Step>)
    requires Run(states, steps)
    ensures Balanced(w, states[|steps|])
  {
    if |steps| == 0 {
      PendingNone(w, states[0].pcs);
    } else {
      var n := |steps| - 1;
      RunBalanced(w, states[..n + 1], steps[..n]);
      NextBalanced(w, states[n], steps[n], states[n + 1]);
    }
  }

  function One(): Weight {
    (op: Op, value: uint64) => 1
  }

  lemma {:induction false} OneOfCalls(calls: seq<Call>)
    ensures OfCalls(One(), calls) == |calls|
  {
    if |calls| > 0 {
      OneOfCalls(calls[..|calls| - 1]);
    }
  }

  lemma {:induction false} OneOfHistory(history: seq<Entry>)
    ensures OfHistory(One(), history) == |history|
  {
    if |history| > 0 {
      OneOfHistory(history[..|history| - 1]);
    }
  }

  lemma {:induction false} OneOfPending(pcs: seq<Pc>)
    ensures OfPending(One(), pcs) <= |pcs|
  {
    if |pcs| > 0 {
      OneOfPending(pcs[..|pcs| - 1]);
    }
  }

  /** Every operation of the history is a call that has returned or one in progress. */
  lemma HistorySize(states: seq<State>, steps: seq<Step>)
    requires Run(states, steps)
    ensures var s := states[|steps|];
      && |s.calls| <= |s.history| <= |s.calls| + |s.pcs|
      && (Quiet(s) ==> |s.calls| == |s.history|)
  {
    var s := states[|steps|];
    RunBalanced(One(), states, steps);
    OneOfCalls(s.calls);
    OneOfHistory(s.history);
    OneOfPending(s.pcs);
    if Quiet(s) {
      PendingNone(One(), s.pcs);
    }
  }

  // ---------------------------------------------------------------------
  // Which operations a run begins
  // ---------------------------------------------------------------------

  ghost predicate Begins(steps: seq<Step>, allowed: Op -> bool) {
    forall i :: 0 <= i < |steps| && steps[i].Begin? ==> allowed(steps[i].op)
  }

  ghost predicate Allowed(s: State, allowed: Op -> bool) {
    && (forall t :: 0 <= t < |s.pcs| && !s.pcs[t].Idle? ==> allowed(s.pcs[t].op))
    && (forall e :: 0 <= e < |s.history| ==> allowed(s.history[e].op))
  }

  lemma {:induction false} RunAllowed(states: seq<State>, steps: seq<Step>, allowed: Op -> bool)
    requires Run(states, steps) && Begins(steps, allowed)
    ensures Allowed(states[|steps|], allowed)
  {
    if |steps| > 0 {
      var n := |steps| - 1;
      RunAllowed(states[..n + 1], steps[..n], allowed);
      assert Next(states[n], steps[n], states[n + 1]);
    }
  }

  // ---------------------------------------------------------------------
  // Fetch-and-add tickets and the event limit
  // ---------------------------------------------------------------------

  function Increment(): Op -> bool {
    (op: Op) => op == Add(1)
  }

  lemma {:induction false} ReplayIncrements(cell: uint64, history: seq<Entry>)
    requires forall i :: 0 <= i < |history| ==> history[i].op == Add(1)
    ensures Replay(cell, history) == (cell + |history|) % CELLS
  {
    if |history| > 0 {
      ReplayIncrements(cell, history[..|history| - 1]);
      IncrementModulo(cell + |history| - 1);
    }
  }

  lemma IncrementModulo(n: nat)
    ensures (n % CELLS + 1) % CELLS == (n + 1) % CELLS
  {
  }

  lemma HistoryOfIncrements(states: seq<State>, steps: seq<Step>)
    requires Run(states, steps) && Begins(steps, Increment())
    ensures var s := states[|steps|];
      forall e :: 0 <= e < |s.history| ==> s.history[e].previous == (states[0].cell + e) % CELLS
  {
    RunInv(states, steps);
    RunAllowed(states, steps, Increment());
    var s := states[|steps|];
    forall e | 0 <= e < |s.history| ensures s.history[e].previous == (states[0].cell + e) % CELLS {
      ReplayIncrements(states[0].cell, s.history[..e]);
    }
  }

  lemma CallTicket(states: seq<State>, steps: seq<Step>, k: nat)
    requires Run(states, steps) && Begins(steps, Increment())
    requires k < |states[|steps|].calls|
    ensures var c := states[|steps|].calls[k];
      && c.value == (states[0].cell + c.entry) % CELLS
      && c.entry < |states[|steps|].calls| + |states[|steps|].pcs|
  {
    RunInv(states, steps);
    HistorySize(states, steps);
    HistoryOfIncrements(states, steps);
    assert CallRight(states[|steps|], k);
  }

  lemma EqualTickets(cell: uint64, a: nat, b: nat)
    ensures (cell + a) % CELLS == (cell + b) % CELLS <==> (a - b) % CELLS == 0
  {
  }

  lemma DifferentTickets(a: nat, b: nat)
    requires a < CELLS && b < CELLS && a != b
    ensures (a - b) % CELLS != 0
  {
  }

  /**
    When all calls increment, each returns a ticket of its own: the start
    value plus its place in the history. Two calls return the same value only
    a multiple of 2^64 places apart, so not with at most 2^64 calls and threads.
  */
  lemma TicketsAreConsecutive(states: seq<State>, steps: seq<Step>, k: nat, l: nat)
    requires Run(states, steps) && Begins(steps, Increment())
    requires k < l < |states[|steps|].calls|
    ensures var calls, c, d := states[|steps|].calls, states[|steps|].calls[k], states[|steps|].calls[l];
      && c.value == (states[0].cell + c.entry) % CELLS && c.entry != d.entry
      && (c.value == d.value <==> (c.entry - d.entry) % CELLS == 0)
      && (|calls| + |states[|steps|].pcs| <= CELLS ==> c.value != d.value)
  {
    var s := states[|steps|];
    RunInv(states, steps);
    CallTicket(states, steps, k);
    CallTicket(states, steps, l);
    assert CallsOrdered(s, k, l);
    EqualTickets(states[0].cell, s.calls[k].entry, s.calls[l].entry);
    if |s.calls| + |s.pcs| <= CELLS {
      DifferentTickets(s.calls[k].entry, s.calls[l].entry);
    }
  }

  /**
    `sb_more_events` without the rate mode, given the current time and the
    ticket that its fetch-and-add returned (which it takes only if there is
    an event limit).
  */
  predicate MoreEvents(error: bool, maxTime: uint64, now: uint64, maxEvents: uint64, ticket: uint64) {
    if error then false
    else if maxTime > 0 && now >= maxTime then false
    else if maxEvents > 0 && ticket >= maxEvents then false
    else true
  }

  /** What a call sees before its ticket: whether an error has occurred, and the time. */
  datatype Moment = Moment(error: bool, now: uint64)

  /** Errors stay and time does not go back. */
  ghost predicate GoesForward(moments: seq<Moment>) {
    forall i, j :: 0 <= i < j < |moments| ==>
      (moments[i].error ==> moments[j].error) && moments[i].now <= moments[j].now
  }

  predicate Over(m: Moment, maxTime: uint64) {
    m.error || (maxTime > 0 && m.now >= maxTime)
  }

  /** Without an event limit all calls go on up to the first error or the end of the time limit, and none after that. */
  lemma {:induction false} NoEventLimit(moments: seq<Moment>, maxTime: uint64, ticket: uint64) returns (n: nat)
    requires GoesForward(moments)
    ensures n <= |moments| && (n < |moments| ==> Over(moments[n], maxTime))
    ensures forall i :: 0 <= i < |moments| ==>
      (MoreEvents(moments[i].error, maxTime, moments[i].now, 0, ticket) <==> i < n)
  {
    n := 0;
    while n < |moments| && !Over(moments[n], maxTime)
      invariant n <= |moments| && forall i :: 0 <= i < n ==> !Over(moments[i], maxTime)
    {
      n := n + 1;
    }
  }

  /** With one, a call goes on if also its ticket is below the limit. */
  lemma EventLimitAdds(m: Moment, maxTime: uint64, maxEvents: uint64, ticket: uint64)
    requires maxEvents > 0
    ensures MoreEvents(m.error, maxTime, m.now, maxEvents, ticket) <==> !Over(m, maxTime) && ticket < maxEvents
  {
  }

  function Goes(maxEvents: uint64): Weight {
    (op: Op, value: uint64) => if MoreEvents(false, 0, 0, maxEvents, value) then 1 else 0
  }

  /** The number of calls that were told to go on. */
  function Granted(calls: seq<Call>, maxEvents: uint64): nat {
    OfCalls(Goes(maxEvents), calls)
  }

  /** How many of the first `n` tickets are below the limit; the counter starts over after 2^64 of them. */
  function Grants(n: nat, maxEvents: uint64): nat {
    maxEvents * (n / CELLS) + Min(n % CELLS, maxEvents)
  }

  ghost predicate TicketBelow(n: nat, maxEvents: uint64) {
    n % CELLS < maxEvents
  }

  lemma NextGrant(n: nat, maxEvents: uint64)
    ensures Grants(n + 1, maxEvents) == Grants(n, maxEvents) + (if TicketBelow(n, maxEvents) then 1 else 0)
  {
    if n % CELLS == CELLS - 1 {
      assert (n + 1) / CELLS == n / CELLS + 1;
      assert maxEvents * (n / CELLS + 1) == maxEvents * (n / CELLS) + maxEvents;
    } else {
      assert (n + 1) / CELLS == n / CELLS;
    }
  }

  lemma FirstTurn(n: nat, maxEvents: uint64)
    requires n <= CELLS
    ensures Grants(n, maxEvents) == Min(n, maxEvents)
  {
    if n == CELLS {
      assert n / CELLS == 1;
    } else {
      assert n / CELLS == 0;
    }
  }

  lemma {:induction false} GrantsMonotone(m: nat, n: nat, maxEvents: uint64)
    requires m <= n
    ensures Grants(m, maxEvents) <= Grants(n, maxEvents)
    decreases n - m
  {
    if m < n {
      NextGrant(m, maxEvents);
      GrantsMonotone(m + 1, n, maxEvents);
    }
  }

  lemma GoesStep(e: Entry, n: nat, maxEvents: uint64)
    requires maxEvents > 0 && e.previous == n % CELLS
    ensures Goes(maxEvents)(e.op, e.previous) == if TicketBelow(n, maxEvents) then 1 else 0
  {
  }

  lemma {:induction false} GrantedInHistory(history: seq<Entry>, maxEvents: uint64)
    requires maxEvents > 0 && forall e :: 0 <= e < |history| ==> history[e].previous == e % CELLS
    ensures OfHistory(Goes(maxEvents), history) == Grants(|history|, maxEvents)
  {
    if |history| == 0 {
      FirstTurn(0, maxEvents);
    } else {
      var n := |history| - 1;
      GrantedInHistory(history[..n], maxEvents);
      NextGrant(n, maxEvents);
      GoesStep(history[n], n, maxEvents);
    }
  }

  lemma GrantedBalance(states: seq<State>, steps: seq<Step>, maxEvents: uint64)
    requires Run(states, steps) && states[0].cell == 0
    requires maxEvents > 0 && Begins(steps, Increment())
    ensures var s := states[|steps|];
      Granted(s.calls, maxEvents) + OfPending(Goes(maxEvents), s.pcs) == Grants(|s.history|, maxEvents)
  {
    HistoryOfIncrements(states, steps);
    GrantedInHistory(states[|steps|].history, maxEvents);
    RunBalanced(Goes(maxEvents), states, steps);
  }

  /**
    With a positive event limit and no error or time limit, once all threads
    are back from their calls exactly min(calls, limit) of them were told to
    go on, in any interleaving; beyond 2^64 calls, that many in each turn of
    the counter.
  */
  lemma EventLimitExact(states: seq<State>, steps: seq<Step>, maxEvents: uint64)
    requires Run(states, steps) && states[0].cell == 0
    requires maxEvents > 0 && Begins(steps, Increment())
    requires Quiet(states[|steps|])
    ensures var calls := states[|steps|].calls;
      && Granted(calls, maxEvents) == Grants(|calls|, maxEvents)
      && (|calls| <= CELLS ==> Granted(calls, maxEvents) == Min(|calls|, maxEvents))
  {
    var s := states[|steps|];
    GrantedBalance(states, steps, maxEvents);
    PendingNone(Goes(maxEvents), s.pcs);
    HistorySize(states, steps);
    if |s.calls| <= CELLS {
      FirstTurn(|s.calls|, maxEvents);
    }
  }

  /** At every moment of such a run no more calls have been told to go on; up to 2^64 calls, at most `maxEvents`. */
  lemma EventLimitNeverExceeded(states: seq<State>, steps: seq<Step>, maxEvents: uint64)
    requires Run(states, steps) && states[0].cell == 0
    requires maxEvents > 0 && Begins(steps, Increment())
    ensures var s := states[|steps|];
      && Granted(s.calls, maxEvents) <= Grants(|s.calls| + |s.pcs|, maxEvents)
      && (|s.calls| + |s.pcs| <= CELLS ==> Granted(s.calls, maxEvents) <= maxEvents)
  {
    var s := states[|steps|];
    GrantedBalance(states, steps, maxEvents);
    HistorySize(states, steps);
    GrantsMonotone(|s.history|, |s.calls| + |s.pcs|, maxEvents);
    if |s.calls| + |s.pcs| <= CELLS {
      FirstTurn(|s.calls| + |s.pcs|, maxEvents);
    }
  }

  // ---------------------------------------------------------------------
  // Increments drained by fetch-and-store lose nothing
  // ---------------------------------------------------------------------

  function AddOrDrain(): Op -> bool {
    (op: Op) => op.Add? || op == Store(0)
  }

  function AddedBy(): Weight {
    (op: Op, value: uint64) => if op.Add? then op.delta else 0
  }

  function DrainedBy(): Weight {
    (op: Op, value: uint64) => if op == Store(0) then value else 0
  }

  lemma {:induction false} ReplayConserves(cell: uint64, history: seq<Entry>)
    requires Sequential(cell, history)
    requires forall i :: 0 <= i < |history| ==> history[i].op.Add? || history[i].op == Store(0)
    requires cell + OfHistory(AddedBy(), history) < CELLS
    ensures OfHistory(DrainedBy(), history) + Replay(cell, history) == cell + OfHistory(AddedBy(), history)
  {
    if |history| > 0 {
      var n := |history| - 1;
      assert forall i :: 0 <= i < n ==> history[..n][..i] == history[..i];
      ReplayConserves(cell, history[..n]);
      assert history[n].previous == Replay(cell, history[..n]);
    }
  }

  /**
    A cell that threads only add to and drain by storing zero: in every
    interleaving, once all calls are back, what the draining calls returned
    and what is left is what the adding calls added.
  */
  lemma DrainingLosesNothing(states: seq<State>, steps: seq<Step>)
    requires Run(states, steps) && Begins(steps, AddOrDrain())
    requires Quiet(states[|steps|]) && states[0].cell + OfCalls(AddedBy(), states[|steps|].calls) < CELLS
    ensures var s := states[|steps|];
      OfCalls(DrainedBy(), s.calls) + s.cell == states[0].cell + OfCalls(AddedBy(), s.calls)
  {
    var s := states[|steps|];
    RunInv(states, steps);
    RunAllowed(states, steps, AddOrDrain());
    RunBalanced(AddedBy(), states, steps);
    RunBalanced(DrainedBy(), states, steps);
    PendingNone(AddedBy(), s.pcs);
    PendingNone(DrainedBy(), s.pcs);
    ReplayConserves(states[0].cell, s.history);
  }
}
