/**
  The per-thread statistic counters and the two streams of reports on them.
  Each worker adds to its own cells; a reporter reads all cells one by one
  while the workers go on, and reports the growth since its last report of
  the same kind. All arithmetic is on unsigned 64-bit words and wraps.

  A worker's load and store of its own cell are one step here: no other
  thread writes that cell.
*/
module Counters {
  import opened Machine

  const TYPES: nat := 8                             // SB_CNT_MAX
  const WRAP: nat := TWO_TO_THE_64

  /** What each worker has really counted, without wrap-around: one row per thread. */
  type Truth = seq<seq<nat>>

  ghost predicate Rectangular<T>(rows: seq<seq<T>>, threads: nat) {
    |rows| == threads && forall i :: 0 <= i < threads ==> |rows[i]| == TYPES
  }

  /** The total of counter `t` over the first `n` threads. */
  ghost function Total(truth: Truth, t: nat, n: nat): nat
    requires n <= |truth| && forall i :: 0 <= i < n ==> t < |truth[i]|
  {
    if n == 0 then 0 else Total(truth, t, n - 1) + truth[n - 1][t]
  }

  /** Thread `i` has counted `val` more of type `t`. */
  ghost function Counted(truth: Truth, i: nat, t: nat, val: nat): Truth
    requires i < |truth| && t < |truth[i]|
  {
    var row: seq<nat> := truth[i][t := truth[i][t] + val];
    truth[i := row]
  }

  ghost predicate AtMost(a: Truth, b: Truth, threads: nat)
    requires Rectangular(a, threads) && Rectangular(b, threads)
  {
    forall i, t :: 0 <= i < threads && 0 <= t < TYPES ==> a[i][t] <= b[i][t]
  }

  lemma {:induction false} TotalMonotone(a: Truth, b: Truth, threads: nat, t: nat, n: nat)
    requires Rectangular(a, threads) && Rectangular(b, threads) && AtMost(a, b, threads)
    requires n <= threads && t < TYPES
    ensures Total(a, t, n) <= Total(b, t, n)
  {
    if n > 0 {
      TotalMonotone(a, b, threads, t, n - 1);
    }
  }

  // ---------------------------------------------------------------------
  // Wrapping arithmetic
  // ---------------------------------------------------------------------

  function WrapAdd(a: uint64, b: uint64): uint64 {
    (a + b) % WRAP
  }

  /** Unsigned subtraction. */
  function WrapSub(a: uint64, b: uint64): uint64 {
    if a >= b then a - b else a + WRAP - b
  }

  lemma WrapSum(a: nat, b: nat)
    ensures WrapAdd(a % WRAP, b % WRAP) == (a + b) % WRAP
  {
  }

  lemma WrapDifference(a: nat, b: nat)
    requires b <= a
    ensures WrapSub(a % WRAP, b % WRAP) == (a - b) % WRAP
  {
  }

  // ---------------------------------------------------------------------
  // Report streams
  // ---------------------------------------------------------------------

  /**
    What one kind of report has done so far: the total it merged last time,
    as true counts, and the sum of all the values it has reported.
  */
  datatype Stream = Stream(merged: seq<nat>, reported: seq<nat>)

  ghost predicate StreamValid(s: Stream, last: seq<uint64>, truth: Truth, threads: nat)
    requires Rectangular(truth, threads)
  {
    && |s.merged| == TYPES && |s.reported| == TYPES && |last| == TYPES
    && forall t :: 0 <= t < TYPES ==> CounterValid(s, last, truth, threads, t)
  }

  /** The reports of counter `t` add up to its last merged total, which the workers have since reached. */
  ghost predicate CounterValid(s: Stream, last: seq<uint64>, truth: Truth, threads: nat, t: nat)
    requires Rectangular(truth, threads)
    requires |s.merged| == TYPES && |s.reported| == TYPES && |last| == TYPES && t < TYPES
  {
    && last[t] == s.merged[t] % WRAP
    && s.reported[t] % WRAP == s.merged[t] % WRAP
    && (s.merged[t] < WRAP ==> s.reported[t] == s.merged[t])
    && s.merged[t] <= Total(truth, t, threads)
  }

  lemma StreamGrows(s: Stream, last: seq<uint64>, truth: Truth, truth': Truth, threads: nat)
    requires Rectangular(truth, threads) && Rectangular(truth', threads) && AtMost(truth, truth', threads)
    requires StreamValid(s, last, truth, threads)
    ensures StreamValid(s, last, truth', threads)
  {
    forall t | 0 <= t < TYPES ensures CounterValid(s, last, truth', threads, t) {
      TotalMonotone(truth, truth', threads, t, threads);
      assert CounterValid(s, last, truth, threads, t);
    }
  }

  /** One more report of counter `t`. */
  lemma ReportExtends(merged: nat, reported: nat, merged': nat, value: uint64)
    requires merged <= merged' && reported % WRAP == merged % WRAP && (merged < WRAP ==> reported == merged)
    requires value == (merged' - merged) % WRAP
    ensures (reported + value) % WRAP == merged' % WRAP
    ensures merged' < WRAP ==> reported + value == merged'
  {
    WrapSum(reported, value);
    WrapSum(merged, merged' - merged);
  }

  // ---------------------------------------------------------------------
  // The counters
  // ---------------------------------------------------------------------

  class WorkerCounters {
    const threads: nat
    var cells: seq<seq<uint64>>                   // sb_counters
    const lastIntermediate: array<uint64>         // last_intermediate_counters
    const lastCumulative: array<uint64>           // last_cumulative_counters

    ghost var truth: Truth
    ghost var intermediate: Stream
    ghost var cumulative: Stream

    ghost predicate Shape()
      reads this
    {
      && Rectangular(cells, threads) && Rectangular(truth, threads)
      && lastIntermediate.Length == TYPES && lastCumulative.Length == TYPES
      && lastIntermediate != lastCumulative
      && forall i, t :: 0 <= i < threads && 0 <= t < TYPES ==> cells[i][t] == truth[i][t] % WRAP
    }

    ghost predicate Valid()
      reads this, lastIntermediate, lastCumulative
    {
      && Shape()
      && StreamValid(intermediate, lastIntermediate[..], truth, threads)
      && StreamValid(cumulative, lastCumulative[..], truth, threads)
    }

    constructor (n: nat)
      ensures Valid() && threads == n && fresh(lastIntermediate) && fresh(lastCumulative)
      ensures truth == seq(n, i => seq(TYPES, t => 0))
    {
      threads := n;
      cells := seq(n, i => seq(TYPES, t => 0));
      truth := seq(n, i => seq(TYPES, t => 0));
      lastIntermediate := new uint64[TYPES](t => 0);
      lastCumulative := new uint64[TYPES](t => 0);
      intermediate := Stream(seq(TYPES, t => 0), seq(TYPES, t => 0));
      cumulative := Stream(seq(TYPES, t => 0), seq(TYPES, t => 0));
    }

    /** `sb_counter_add` */
    method AddTo(i: nat, t: nat, val: uint64)
      requires Shape() && i < threads && t < TYPES
      modifies `cells, `truth
      ensures Shape() && AtMost(old(truth), truth, threads)
      ensures truth == Counted(old(truth), i, t, val)
    {
      WrapSum(truth[i][t], val);
      var row: seq<uint64> := cells[i][t := WrapAdd(cells[i][t], val)];
      cells := cells[i := row];
      truth := Counted(truth, i, t, val);
    }

    /** Any number of additions by the workers. */
    method Interfere()
      requires Shape()
      modifies `cells, `truth
      ensures Shape() && AtMost(old(truth), truth, threads)
    {
      var n: nat := *;
      while n > 0 && threads > 0
        invariant Shape() && AtMost(old(truth), truth, threads)
      {
        var i: nat := *;
        var t: nat := *;
        var val: uint64 := *;
        AddTo(i % threads, t % TYPES, val);
        n := n - 1;
      }
    }

    /** `sb_counters_merge`, one load at a time with the workers running in between. */
    method Merge(dst: array<uint64>) returns (ghost merged: seq<nat>)
      requires Shape() && dst.Length == TYPES
      requires forall t :: 0 <= t < TYPES ==> dst[t] == 0
      modifies `cells, `truth, dst
      ensures Shape() && AtMost(old(truth), truth, threads)
      ensures |merged| == TYPES
      ensures forall t :: 0 <= t < TYPES ==>
        && dst[t] == merged[t] % WRAP
        && Total(old(truth), t, threads) <= merged[t] <= Total(truth, t, threads)
    {
      merged := [];
      var t := 0;
      while t < TYPES
        invariant 0 <= t <= TYPES && Shape() && AtMost(old(truth), truth, threads)
        invariant |merged| == t
        invariant forall u :: t <= u < TYPES ==> dst[u] == 0
        invariant forall u :: 0 <= u < t ==>
          && dst[u] == merged[u] % WRAP
          && Total(old(truth), u, threads) <= merged[u] <= Total(truth, u, threads)
      {
        label row:
        ghost var sum := MergeType(dst, t);
        forall u | 0 <= u < t ensures merged[u] <= Total(truth, u, threads) {
          TotalMonotone(old@row(truth), truth, threads, u, threads);
        }
        TotalMonotone(old(truth), old@row(truth), threads, t, threads);
        merged := merged + [sum];
        t := t + 1;
      }
    }

    /** The inner loop of the merge, for one counter type. */
    method MergeType(dst: array<uint64>, t: nat) returns (ghost sum: nat)
      requires Shape() && dst.Length == TYPES && t < TYPES && dst[t] == 0
      modifies `cells, `truth, dst
      ensures Shape() && AtMost(old(truth), truth, threads)
      ensures forall u :: 0 <= u < TYPES && u != t ==> dst[u] == old(dst[u])
      ensures dst[t] == sum % WRAP
      ensures Total(old(truth), t, threads) <= sum <= Total(truth, t, threads)
    {
      sum := 0;
      var i := 0;
      while i < threads
        invariant 0 <= i <= threads && Shape() && AtMost(old(truth), truth, threads)
        invariant forall u :: 0 <= u < TYPES && u != t ==> dst[u] == old(dst[u])
        invariant dst[t] == sum % WRAP
        invariant Total(old(truth), t, i) <= sum <= Total(truth, t, i)
      {
        label load:
        Interfere();
        TotalMonotone(old@load(truth), truth, threads, t, i);
        WrapSum(sum, truth[i][t]);
        dst[t] := WrapAdd(dst[t], cells[i][t]);
        sum := sum + truth[i][t];
        i := i + 1;
      }
    }

    /** `sb_counters_checkpoint` */
    static method Checkpoint(dst: array<uint64>, cp: array<uint64>)
      requires dst.Length == TYPES && cp.Length == TYPES && dst != cp
      modifies dst, cp
      ensures cp[..] == old(dst[..])
      ensures forall t :: 0 <= t < TYPES ==> dst[t] == WrapSub(old(dst[t]), old(cp[t]))
    {
      var i := 0;
      while i < TYPES
        invariant 0 <= i <= TYPES
        invariant forall t :: 0 <= t < i ==> cp[t] == old(dst[t]) && dst[t] == WrapSub(old(dst[t]), old(cp[t]))
        invariant forall t :: i <= t < TYPES ==> cp[t] == old(cp[t]) && dst[t] == old(dst[t])
      {
        var tmp := cp[i];
        cp[i] := dst[i];
        dst[i] := WrapSub(dst[i], tmp);
        i := i + 1;
      }
    }

    /**
      `sb_counters_agg_intermediate`: each value is the growth since the last
      intermediate report of a total that lies between the workers' totals at
      the start and at the end of the call. The cumulative stream is untouched.
    */
    method AggIntermediate(val: array<uint64>)
      requires Valid() && val.Length == TYPES && val != lastIntermediate && val != lastCumulative
      modifies `cells, `truth, `intermediate, val, lastIntermediate
      ensures Valid() && AtMost(old(truth), truth, threads)
      ensures Extended(old(intermediate), intermediate, val[..], old(truth), truth, threads)
    {
      Clear(val);
      ghost var merged := Merge(val);
      StreamGrows(intermediate, lastIntermediate[..], old(truth), truth, threads);
      StreamGrows(cumulative, lastCumulative[..], old(truth), truth, threads);
      ghost var last := lastIntermediate[..];
      Checkpoint(val, lastIntermediate);
      ghost var s := Extend(intermediate, merged, val[..]);
      StreamExtends(intermediate, last, s, lastIntermediate[..], val[..], old(truth), truth, threads);
      intermediate := s;
    }

    /** `sb_counters_agg_cumulative` */
    method AggCumulative(val: array<uint64>)
      requires Valid() && val.Length == TYPES && val != lastIntermediate && val != lastCumulative
      modifies `cells, `truth, `cumulative, val, lastCumulative
      ensures Valid() && AtMost(old(truth), truth, threads)
      ensures Extended(old(cumulative), cumulative, val[..], old(truth), truth, threads)
    {
      Clear(val);
      ghost var merged := Merge(val);
      StreamGrows(intermediate, lastIntermediate[..], old(truth), truth, threads);
      StreamGrows(cumulative, lastCumulative[..], old(truth), truth, threads);
      ghost var last := lastCumulative[..];
      Checkpoint(val, lastCumulative);
      ghost var s := Extend(cumulative, merged, val[..]);
      StreamExtends(cumulative, last, s, lastCumulative[..], val[..], old(truth), truth, threads);
      cumulative := s;
    }

    /** The `memset` at the start of a report. */
    static method Clear(val: array<uint64>)
      modifies val
      ensures forall t :: 0 <= t < val.Length ==> val[t] == 0
    {
      forall t | 0 <= t < val.Length {
        val[t] := 0;
      }
    }
  }

  /** The stream after a report that merged `merged` and returned `val`. */
  ghost function Extend(s: Stream, merged: seq<nat>, val: seq<uint64>): Stream
    requires |s.reported| == TYPES && |val| == TYPES
  {
    Stream(merged, seq(TYPES, t requires 0 <= t < TYPES => s.reported[t] + val[t]))
  }

  /** `s'` is `s` after a report of `val` made while the workers went from `before` to `after`. */
  ghost predicate Extended(s: Stream, s': Stream, val: seq<uint64>, before: Truth, after: Truth, threads: nat)
    requires Rectangular(before, threads) && Rectangular(after, threads)
  {
    && |s.merged| == TYPES && |s'.merged| == TYPES && |s.reported| == TYPES && |s'.reported| == TYPES && |val| == TYPES
    && forall t :: 0 <= t < TYPES ==>
      && s.merged[t] <= Total(before, t, threads) <= s'.merged[t] <= Total(after, t, threads)
      && val[t] == (s'.merged[t] - s.merged[t]) % WRAP
      && s'.reported[t] == s.reported[t] + val[t]
  }

  lemma StreamExtends(s: Stream, last: seq<uint64>, s': Stream, last': seq<uint64>, val: seq<uint64>,
                      before: Truth, truth: Truth, threads: nat)
    requires Rectangular(before, threads) && Rectangular(truth, threads) && AtMost(before, truth, threads)
    requires StreamValid(s, last, before, threads)
    requires |s'.merged| == TYPES && |last'| == TYPES && |val| == TYPES && s' == Extend(s, s'.merged, val)
    requires forall t :: 0 <= t < TYPES ==>
      && last'[t] == s'.merged[t] % WRAP && val[t] == WrapSub(last'[t], last[t])
      && Total(before, t, threads) <= s'.merged[t] <= Total(truth, t, threads)
    ensures StreamValid(s', last', truth, threads)
    ensures Extended(s, s', val, before, truth, threads)
  {
    forall t | 0 <= t < TYPES
      ensures CounterValid(s', last', truth, threads, t)
      ensures s.merged[t] <= Total(before, t, threads) && val[t] == (s'.merged[t] - s.merged[t]) % WRAP
    {
      assert CounterValid(s, last, before, threads, t);
      WrapDifference(s'.merged[t], s.merged[t]);
      ReportExtends(s.merged[t], s.reported[t], s'.merged[t], val[t]);
    }
  }

  /**
    A report made while all workers are idle is exact: the reports of its
    kind then add up to everything the workers have counted, as long as that
    is below 2^64, and otherwise modulo 2^64.
  */
  lemma LastReportExact(s: Stream, s': Stream, val: seq<uint64>, last: seq<uint64>, truth: Truth, threads: nat, t: nat)
    requires Rectangular(truth, threads) && t < TYPES
    requires Extended(s, s', val, truth, truth, threads) && StreamValid(s', last, truth, threads)
    ensures s'.merged[t] == Total(truth, t, threads)
    ensures s'.reported[t] % WRAP == Total(truth, t, threads) % WRAP
    ensures Total(truth, t, threads) < WRAP ==> s'.reported[t] == Total(truth, t, threads)
  {
    assert CounterValid(s', last, truth, threads, t);
  }
}
