/**
  The latency histogram. Updates increment one of 128 slots per bucket with
  an atomic instruction and take no lock; reports hold the lock, drain the
  slots one element at a time by fetch-and-store, and fold what they drained
  into the cumulative array. Between any two steps of a report any number of
  updates may happen: `Interfere` stands for them.

  A bucket is given by its index; the logarithmic mapping from latencies to
  buckets and back is not part of this model. Counts are natural numbers.
*/
module Histogram {
  const NSLOTS: nat := 128

  // ---------------------------------------------------------------------
  // Sums
  // ---------------------------------------------------------------------

  function Sum(s: seq<nat>): nat {
    if |s| == 0 then 0 else Sum(s[..|s| - 1]) + s[|s| - 1]
  }

  lemma {:induction false} SumUpdate(s: seq<nat>, i: nat, v: nat)
    requires i < |s|
    ensures Sum(s[i := v]) + s[i] == Sum(s) + v
  {
    var n := |s| - 1;
    if i < n {
      SumUpdate(s[..n], i, v);
      assert s[i := v][..n] == s[..n][i := v];
    } else {
      assert s[i := v][..n] == s[..n];
    }
  }

  lemma SumStep(s: seq<nat>, i: nat)
    requires i < |s|
    ensures Sum(s[..i + 1]) == Sum(s[..i]) + s[i]
  {
    assert s[..i + 1][..i] == s[..i];
  }

  lemma {:induction false} SumMonotone(s: seq<nat>, i: nat, j: nat)
    requires i <= j <= |s|
    ensures Sum(s[..i]) <= Sum(s[..j])
  {
    if i < j {
      SumMonotone(s, i, j - 1);
      SumStep(s, j - 1);
    }
  }

  // ---------------------------------------------------------------------
  // Percentiles
  // ---------------------------------------------------------------------

  /** The rank that the code looks for: the given percentage of the events, rounded half up. */
  function Rank(nevents: nat, percentile: real): int {
    (nevents as real * percentile / 100.0 + 0.5).Floor
  }

  /** The events in the buckets up to and including `j`. */
  function UpTo(counts: seq<nat>, j: nat): nat
    requires j < |counts|
  {
    Sum(counts[..j + 1])
  }

  /** Whether `n` events are at least the given percentage of `nevents` events, up to half an event. */
  predicate Reaches(n: nat, nevents: nat, percentile: real) {
    100.0 * n as real > nevents as real * percentile - 50.0
  }

  /** The first bucket such that the events up to it are that share of all. */
  ghost predicate IsPercentile(counts: seq<nat>, percentile: real, bucket: nat) {
    && bucket < |counts|
    && Reaches(UpTo(counts, bucket), Sum(counts), percentile)
    && forall j :: 0 <= j < bucket ==> !Reaches(UpTo(counts, j), Sum(counts), percentile)
  }

  /** The rank is the percentage of the events to the nearest integer. */
  lemma RankRounds(nevents: nat, p: real)
    ensures nevents as real * p - 50.0 < 100.0 * Rank(nevents, p) as real <= nevents as real * p + 50.0
  {
    var share := nevents as real * p;
    assert share / 100.0 - 0.5 < Rank(nevents, p) as real <= share / 100.0 + 0.5;
  }

  /** So reaching the rank is reaching the share. */
  lemma ReachesRank(n: nat, nevents: nat, p: real)
    ensures n >= Rank(nevents, p) <==> Reaches(n, nevents, p)
  {
    RankRounds(nevents, p);
    if n < Rank(nevents, p) {
      assert 100.0 * n as real + 100.0 <= 100.0 * Rank(nevents, p) as real;
    }
  }

  lemma ShareMonotone(nevents: nat, p: real, q: real)
    requires p <= q
    ensures nevents as real * p <= nevents as real * q
  {
  }

  lemma RankMonotone(nevents: nat, p: real, q: real)
    requires p <= q
    ensures Rank(nevents, p) <= Rank(nevents, q)
  {
    ShareMonotone(nevents, p, q);
  }

  lemma RankInRange(nevents: nat, p: real)
    requires 0.0 <= p <= 100.0
    ensures 0 <= Rank(nevents, p) <= nevents
    ensures Rank(nevents, 0.0) == 0 && Rank(nevents, 100.0) == nevents
  {
    RankMonotone(nevents, 0.0, p);
    RankMonotone(nevents, p, 100.0);
  }

  /** The answer is unique and grows with the percentage. */
  lemma PercentileMonotone(counts: seq<nat>, p: real, q: real, i: nat, j: nat)
    requires p <= q
    requires IsPercentile(counts, p, i) && IsPercentile(counts, q, j)
    ensures i <= j
  {
    ShareMonotone(Sum(counts), p, q);
  }

  /**
    The answer is the bucket at which the running count passes the rank, so
    that it splits the events: up to half an event, the share lies above the
    buckets before it and not above the bucket itself.
  */
  lemma PercentileSplitsEvents(counts: seq<nat>, p: real, bucket: nat)
    ensures IsPercentile(counts, p, bucket) <==>
      && bucket < |counts|
      && UpTo(counts, bucket) >= Rank(Sum(counts), p)
      && (bucket > 0 ==> UpTo(counts, bucket - 1) < Rank(Sum(counts), p))
  {
    if bucket < |counts| {
      forall j | 0 <= j <= bucket
        ensures Reaches(UpTo(counts, j), Sum(counts), p) <==> UpTo(counts, j) >= Rank(Sum(counts), p)
        ensures j < bucket ==> UpTo(counts, j) <= UpTo(counts, bucket - 1)
      {
        ReachesRank(UpTo(counts, j), Sum(counts), p);
        if j < bucket {
          SumMonotone(counts, j + 1, bucket);
        }
      }
    }
  }

  /** The scan of the two percentile functions. */
  method Scan(counts: array<nat>, nmax: int) returns (i: nat)
    ensures i <= counts.Length
    ensures forall j :: 0 <= j < i ==> UpTo(counts[..], j) < nmax
    ensures i < counts.Length ==> UpTo(counts[..], i) >= nmax
    ensures counts.Length > 0 && nmax <= Sum(counts[..]) ==> i < counts.Length
  {
    ghost var all := counts[..];
    var ncur := 0;
    i := 0;
    while i < counts.Length
      invariant i <= counts.Length && ncur == Sum(all[..i])
      invariant forall j :: 0 <= j < i ==> UpTo(all, j) < nmax
    {
      SumStep(all, i);
      ncur := ncur + counts[i];
      if ncur >= nmax {
        break;
      }
      i := i + 1;
    }
    if i == |all| && i > 0 {
      assert all[..i - 1 + 1] == all;
      assert UpTo(all, i - 1) < nmax;
    }
  }

  // ---------------------------------------------------------------------
  // Slots
  // ---------------------------------------------------------------------

  /** One row of counters per slot, one counter per bucket. */
  type Slots = seq<seq<nat>>

  ghost predicate SlotShape(slots: Slots, size: nat) {
    |slots| == NSLOTS && forall s :: 0 <= s < NSLOTS ==> |slots[s]| == size
  }

  /** What bucket `b` holds in its first `n` slots. */
  ghost function Held(slots: Slots, b: nat, n: nat): nat
    requires n <= |slots| && forall s :: 0 <= s < n ==> b < |slots[s]|
  {
    if n == 0 then 0 else Held(slots, b, n - 1) + slots[n - 1][b]
  }

  function Put(slots: Slots, s: nat, b: nat, v: nat): Slots
    requires s < |slots| && b < |slots[s]|
  {
    var row: seq<nat> := slots[s][b := v];
    slots[s := row]
  }

  lemma {:induction false} HeldPut(slots: Slots, size: nat, s: nat, b: nat, v: nat, c: nat, n: nat)
    requires SlotShape(slots, size) && s < NSLOTS && b < size && c < size && n <= NSLOTS
    ensures Held(Put(slots, s, b, v), c, n) + (if c == b && s < n then slots[s][b] else 0)
         == Held(slots, c, n) + (if c == b && s < n then v else 0)
  {
    if n > 0 {
      HeldPut(slots, size, s, b, v, c, n - 1);
    }
  }

  /** From slot `lo` on, every counter has kept or raised its value. */
  ghost predicate Grown(before: Slots, after: Slots, lo: nat) {
    && |before| == |after| && (forall s :: 0 <= s < |before| ==> |before[s]| == |after[s]|)
    && forall s, b :: lo <= s < |before| && 0 <= b < |before[s]| ==> before[s][b] <= after[s][b]
  }

  // ---------------------------------------------------------------------
  // The histogram object
  // ---------------------------------------------------------------------

  class LatencyHistogram {
    const size: nat                 // array_size
    var slots: Slots                // interm_slots
    const temp: array<nat>          // temp_array
    const cumulative: array<nat>    // cumulative_array
    var nevents: nat                // cumulative_nevents

    /** Per bucket: the updates so far, and the counts that checkpoints have reported and reset. */
    ghost var updates: seq<nat>
    ghost var reported: seq<nat>

    ghost predicate Shape()
      reads this
    {
      && size > 0 && SlotShape(slots, size)
      && temp.Length == size && cumulative.Length == size && temp != cumulative
      && |updates| == size && |reported| == size
    }

    /** The updates of a bucket that reports have already taken out of its slots. */
    ghost function Drained(b: nat): int
      requires Shape() && b < size
      reads this
    {
      updates[b] - Held(slots, b, NSLOTS)
    }

    ghost function Tally(): (t: seq<int>)
      requires Shape()
      reads this
      ensures |t| == size && forall b :: 0 <= b < size ==> t[b] == Drained(b)
    {
      seq(size, b requires 0 <= b < size && Shape() reads this => Drained(b))
    }

    /** What holds whenever the lock is free: no update is lost or counted twice. */
    ghost predicate Valid()
      reads this, cumulative
    {
      && Shape()
      && (forall b :: 0 <= b < size ==> updates[b] == Held(slots, b, NSLOTS) + cumulative[b] + reported[b])
      && nevents == Sum(cumulative[..])
    }

    /**
      `sb_histogram_init`, which leaves `cumulative_nevents` as it finds it:
      the object is usable only if that memory was zero.
    */
    constructor (arraySize: nat, leftover: nat)
      requires arraySize > 0
      ensures size == arraySize && Shape() && fresh(temp) && fresh(cumulative)
      ensures updates == seq(arraySize, i => 0) && reported == seq(arraySize, i => 0)
      ensures Valid() <==> leftover == 0
    {
      size := arraySize;
      slots := seq(NSLOTS, s => seq(arraySize, b => 0));
      temp := new nat[arraySize](i => 0);
      cumulative := new nat[arraySize](i => 0);
      nevents := leftover;
      updates := seq(arraySize, i => 0);
      reported := seq(arraySize, i => 0);
      new;
      forall b | 0 <= b < size ensures Held(slots, b, NSLOTS) == 0 {
        HeldZero(slots, b, NSLOTS);
      }
      SumZero(cumulative[..]);
    }

    /** `sb_histogram_update`: `i` is the computed bucket before clamping, `random` the draw that picks the slot. */
    method Update(random: nat, i: int)
      requires Shape()
      modifies `slots, `updates
      ensures Shape()
      ensures var b := if i < 0 then 0 else if i >= size then size - 1 else i;
        && updates == old(updates)[b := old(updates)[b] + 1]
        && slots == Put(old(slots), random % NSLOTS, b, old(slots)[random % NSLOTS][b] + 1)
      ensures Tally() == old(Tally())
    {
      var slot := random % NSLOTS;
      var b: nat := if i < 0 then 0 else if i >= size then size - 1 else i;
      forall c | 0 <= c < size {
        HeldPut(slots, size, slot, b, slots[slot][b] + 1, c, NSLOTS);
      }
      slots := Put(slots, slot, b, slots[slot][b] + 1);
      updates := updates[b := updates[b] + 1];
    }

    /** Any number of updates by other threads. */
    method Interfere()
      requires Shape()
      modifies `slots, `updates
      ensures Shape()
      ensures Tally() == old(Tally())
      ensures forall b :: 0 <= b < size ==> updates[b] >= old(updates[b])
      ensures Grown(old(slots), slots, 0)
    {
      var n: nat := *;
      while n > 0
        invariant Shape() && Tally() == old(Tally()) && Grown(old(slots), slots, 0)
        invariant forall b :: 0 <= b < size ==> updates[b] >= old(updates[b])
      {
        var random: nat := *;
        var i: int := *;
        Update(random, i);
        n := n - 1;
      }
    }

    /** Other threads run, then one slot is fetched and cleared. */
    method FetchAndClear(s: nat, b: nat) returns (t: nat)
      requires Shape() && s < NSLOTS && b < size
      modifies `slots, `updates
      ensures Shape()
      ensures Tally() == old(Tally())[b := old(Tally())[b] + t]
      ensures t >= old(slots)[s][b]
      ensures forall r, c :: 0 <= r < NSLOTS && 0 <= c < size && (r != s || c != b) ==> slots[r][c] >= old(slots)[r][c]
    {
      Interfere();
      t := slots[s][b];
      forall c | 0 <= c < size {
        HeldPut(slots, size, s, b, 0, c, NSLOTS);
      }
      slots := Put(slots, s, b, 0);
    }

    static method PutCount(into: array<nat>, i: nat, t: nat, n: nat) returns (n': nat)
      requires i < into.Length && n == Sum(into[..i])
      modifies into
      ensures n' == Sum(into[..i + 1]) && into[i] == t
      ensures forall b :: 0 <= b < into.Length && b != i ==> into[b] == old(into[b])
    {
      ghost var prefix := into[..i];
      into[i] := t;
      assert into[..i + 1] == prefix + [t];
      SumStep(into[..i + 1], i);
      n' := n + t;
    }

    static method AddCount(into: array<nat>, i: nat, t: nat, n: nat) returns (n': nat)
      requires i < into.Length && n == Sum(into[..])
      modifies into
      ensures n' == Sum(into[..]) && into[i] == old(into[i]) + t
      ensures forall b :: 0 <= b < into.Length && b != i ==> into[b] == old(into[b])
    {
      ghost var before := into[..];
      into[i] := into[i] + t;
      assert into[..] == before[i := before[i] + t];
      SumUpdate(before, i, before[i] + t);
      n' := n + t;
    }

    /** The first loop of sb_histogram_get_pct_intermediate: the old contents of temp are overwritten. */
    method DrainFirstSlot() returns (n: nat)
      requires Shape()
      modifies `slots, temp, `updates
      ensures Shape()
      ensures n == Sum(temp[..])
      ensures forall b :: 0 <= b < size ==> Tally()[b] == old(Tally())[b] + temp[b]
      ensures forall b :: 0 <= b < size ==> temp[b] >= old(slots)[0][b]
      ensures Grown(old(slots), slots, 1)
    {
      n := 0;
      var i := 0;
      while i < size
        invariant 0 <= i <= size && Shape()
        invariant n == Sum(temp[..i])
        invariant forall b :: 0 <= b < i ==> Tally()[b] == old(Tally())[b] + temp[b] && temp[b] >= old(slots)[0][b]
        invariant forall b :: i <= b < size ==> Tally()[b] == old(Tally())[b] && slots[0][b] >= old(slots)[0][b]
        invariant Grown(old(slots), slots, 1)
      {
        var t := FetchAndClear(0, i);
        n := PutCount(temp, i, t, n);
        i := i + 1;
      }
      assert temp[..i] == temp[..];
    }

    /** The inner loop over one slot, the same in both merges. */
    method DrainSlot(s: nat, into: array<nat>, n: nat) returns (n': nat)
      requires Shape() && s < NSLOTS && into.Length == size
      requires n == Sum(into[..])
      modifies `slots, into, `updates
      ensures Shape()
      ensures n' == Sum(into[..])
      ensures forall b :: 0 <= b < size ==> Tally()[b] + old(into[..])[b] == old(Tally())[b] + into[b]
      ensures forall b :: 0 <= b < size ==> into[b] >= old(into[..])[b] + old(slots)[s][b]
      ensures Grown(old(slots), slots, s + 1)
    {
      n' := n;
      var i := 0;
      while i < size
        invariant 0 <= i <= size && Shape()
        invariant n' == Sum(into[..])
        invariant forall b :: 0 <= b < size ==> Tally()[b] + old(into[..])[b] == old(Tally())[b] + into[b]
        invariant forall b :: 0 <= b < i ==> into[b] >= old(into[..])[b] + old(slots)[s][b]
        invariant forall b :: i <= b < size ==> into[b] == old(into[..])[b] && slots[s][b] >= old(slots)[s][b]
        invariant Grown(old(slots), slots, s + 1)
      {
        var t := FetchAndClear(s, i);
        n' := AddCount(into, i, t, n');
        i := i + 1;
      }
    }

    /** Drains all slots into temp; whatever was recorded before the call is drained by its end. */
    method DrainIntoTemp() returns (n: nat)
      requires Shape()
      modifies `slots, temp, `updates
      ensures Shape()
      ensures n == Sum(temp[..])
      ensures forall b :: 0 <= b < size ==> Tally()[b] == old(Tally())[b] + temp[b]
      ensures forall b :: 0 <= b < size ==> temp[b] >= Held(old(slots), b, NSLOTS)
    {
      n := DrainFirstSlot();
      var s := 1;
      while s < NSLOTS
        invariant 1 <= s <= NSLOTS && Shape()
        invariant n == Sum(temp[..])
        invariant forall b :: 0 <= b < size ==> Tally()[b] == old(Tally())[b] + temp[b]
        invariant forall b :: 0 <= b < size ==> temp[b] >= Held(old(slots), b, s)
        invariant Grown(old(slots), slots, s)
      {
        n := DrainSlot(s, temp, n);
        s := s + 1;
      }
    }

    /** `merge_intermediate_into_cumulative` */
    method MergeIntoCumulative()
      requires Valid()
      modifies `slots, cumulative, `updates, `nevents
      ensures Valid()
      ensures forall b :: 0 <= b < size ==> cumulative[b] + reported[b] >= old(updates)[b]
    {
      var n := nevents;
      var s := 0;
      while s < NSLOTS
        invariant 0 <= s <= NSLOTS && Shape()
        invariant n == Sum(cumulative[..])
        invariant forall b :: 0 <= b < size ==> Tally()[b] + old(cumulative[..])[b] == old(Tally())[b] + cumulative[b]
        invariant forall b :: 0 <= b < size ==> cumulative[b] >= old(cumulative[..])[b] + Held(old(slots), b, s)
        invariant Grown(old(slots), slots, s)
      {
        n := DrainSlot(s, cumulative, n);
        s := s + 1;
      }
      nevents := n;
    }

    /** The loop that adds temp to cumulative. */
    method FoldTemp()
      requires Shape()
      modifies cumulative
      ensures forall b :: 0 <= b < size ==> cumulative[b] == old(cumulative[b]) + temp[b]
      ensures Sum(cumulative[..]) == old(Sum(cumulative[..])) + Sum(temp[..])
    {
      var i := 0;
      ghost var batch := temp[..];
      while i < size
        invariant 0 <= i <= size
        invariant forall b :: 0 <= b < i ==> cumulative[b] == old(cumulative[b]) + temp[b]
        invariant forall b :: i <= b < size ==> cumulative[b] == old(cumulative[b])
        invariant Sum(cumulative[..]) == old(Sum(cumulative[..])) + Sum(batch[..i])
      {
        ghost var before := cumulative[..];
        cumulative[i] := cumulative[i] + temp[i];
        assert cumulative[..] == before[i := before[i] + temp[i]];
        SumUpdate(before, i, before[i] + temp[i]);
        SumStep(batch, i);
        i := i + 1;
      }
      assert batch[..i] == batch;
    }

    /**
      `sb_histogram_get_pct_intermediate`: the percentile of what was drained
      by this call, which then joins the cumulative counts.
    */
    method GetPctIntermediate(percentile: real) returns (bucket: nat, ghost batch: seq<nat>)
      requires Valid() && 0.0 <= percentile <= 100.0
      modifies `slots, temp, cumulative, `updates, `nevents
      ensures Valid()
      ensures |batch| == size && IsPercentile(batch, percentile, bucket)
      ensures forall b :: 0 <= b < size ==> cumulative[b] == old(cumulative[b]) + batch[b]
      ensures forall b :: 0 <= b < size ==> cumulative[b] + reported[b] >= old(updates)[b]
    {
      var n := DrainIntoTemp();
      batch := temp[..];
      RankInRange(n, percentile);
      bucket := Scan(temp, Rank(n, percentile));
      FoldTemp();
      nevents := nevents + n;
    }

    /** `get_pct_cumulative` */
    method PctCumulative(percentile: real) returns (bucket: nat)
      requires Shape() && nevents == Sum(cumulative[..]) && 0.0 <= percentile <= 100.0
      ensures IsPercentile(cumulative[..], percentile, bucket)
    {
      RankInRange(nevents, percentile);
      bucket := Scan(cumulative, Rank(nevents, percentile));
    }

    /** `sb_histogram_get_pct_cumulative` */
    method GetPctCumulative(percentile: real) returns (bucket: nat)
      requires Valid() && 0.0 <= percentile <= 100.0
      modifies `slots, cumulative, `updates, `nevents
      ensures Valid()
      ensures IsPercentile(cumulative[..], percentile, bucket)
      ensures forall b :: 0 <= b < size ==> cumulative[b] + reported[b] >= old(updates)[b]
    {
      MergeIntoCumulative();
      bucket := PctCumulative(percentile);
    }

    /** `sb_histogram_get_pct_checkpoint`: the same, then the cumulative counts are reported and reset. */
    method GetPctCheckpoint(percentile: real) returns (bucket: nat, ghost batch: seq<nat>)
      requires Valid() && 0.0 <= percentile <= 100.0
      modifies `slots, cumulative, `updates, `nevents, `reported
      ensures Valid()
      ensures |batch| == size && IsPercentile(batch, percentile, bucket)
      ensures forall b :: 0 <= b < size ==> reported[b] == old(reported[b]) + batch[b] && cumulative[b] == 0
      ensures forall b :: 0 <= b < size ==> reported[b] >= old(updates)[b]
    {
      MergeIntoCumulative();
      bucket := PctCumulative(percentile);
      batch := cumulative[..];
      Reset();
    }

    /** The end of a checkpoint: `memset` and the zero event count. */
    method Reset()
      requires Valid()
      modifies cumulative, `nevents, `reported
      ensures Valid()
      ensures forall b :: 0 <= b < size ==> reported[b] == old(reported[b]) + old(cumulative[b]) && cumulative[b] == 0
    {
      ghost var was, counts := reported, cumulative[..];
      reported := seq(size, b requires 0 <= b < size => was[b] + counts[b]);
      forall b | 0 <= b < size {
        cumulative[b] := 0;
      }
      nevents := 0;
      SumZero(cumulative[..]);
    }
  }

  lemma {:induction false} HeldZero(slots: Slots, b: nat, n: nat)
    requires n <= |slots| && forall s :: 0 <= s < n ==> b < |slots[s]| && slots[s][b] == 0
    ensures Held(slots, b, n) == 0
  {
    if n > 0 {
      HeldZero(slots, b, n - 1);
    }
  }

  lemma {:induction false} SumZero(s: seq<nat>)
    requires forall i :: 0 <= i < |s| ==> s[i] == 0
    ensures Sum(s) == 0
  {
    if |s| > 0 {
      SumZero(s[..|s| - 1]);
    }
  }
}
