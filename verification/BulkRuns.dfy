/**
  Whole multi-row inserts: `db_bulk_insert_init`, one `db_bulk_insert_next`
  per row and `db_bulk_insert_done`, on any connection and driver.
*/
module BulkRuns {
  import opened BulkInsert
  import opened ConnectionRuns
  import opened DbConnection
  import opened Machine

  // ---------------------------------------------------------------------
  // One row after the other
  // ---------------------------------------------------------------------

  /** What can be seen of the connection after the first `k` rows. */
  ghost function At(con: Connection, v: Snapshot, rows: seq<string>, k: nat): Snapshot
    requires k <= |rows|
  {
    if k == 0 then v else AfterNext(con, At(con, v, rows, k - 1), rows[k - 1])
  }

  /** Those of the first `k` rows that are passed while the connection can be used. */
  ghost function Picked(con: Connection, v: Snapshot, rows: seq<string>, k: nat): seq<string>
    requires k <= |rows|
  {
    if k == 0 then []
    else if Usable(con, At(con, v, rows, k - 1)) then Picked(con, v, rows, k - 1) + [rows[k - 1]]
    else Picked(con, v, rows, k - 1)
  }

  /** The call reports success: the row is taken, or not even looked at. */
  ghost predicate GoesOn(con: Connection, v: Snapshot, row: string) {
    Takes(con, v, row) || !Usable(con, v)
  }

  /** It does not: the row is refused, or would be written past the buffer. */
  ghost predicate Stopped(con: Connection, v: Snapshot, row: cstring, rc: int, overrun: bool) {
    !GoesOn(con, v, row) && overrun == Stops(con, CallBulkNext(row), v) && rc == if overrun then 0 else 1
  }

  /** The end of an insert reports whether its flush, if it needs one, goes through. */
  ghost predicate Finished(con: Connection, v: Snapshot, rc: int, overrun: bool) {
    !overrun && rc == if v.bulk.pending == [] || PlanOf(con, v, true).Ok() then 0 else 1
  }

  /** It reports success for all of the first `n` rows. */
  ghost predicate AllGoOn(con: Connection, v: Snapshot, rows: seq<string>, n: nat)
    requires n <= |rows|
  {
    n == 0 || (AllGoOn(con, v, rows, n - 1) && GoesOn(con, At(con, v, rows, n - 1), rows[n - 1]))
  }

  /** Whether a flush repeats rows, for a row that makes the code flush. */
  ghost predicate RepeatsAt(con: Connection, v: Snapshot, row: string) {
    var w := LeftBy(con, v);
    Usable(con, v) && v.buffer && PlaceOf(w, row).Flushes? && PlanOf(con, w, false).Repeats()
  }

  /** What a row does to the history of the insert; `b` and `sent` are that at its start. */
  lemma NextHistory(con: Connection, v: Snapshot, row: string, b: Bulk, sent: seq<string>)
    requires Logged(b, sent, v.bulk, v.sent)
    ensures var n := AfterNext(con, v, row);
      && Logged(b, sent, n.bulk, n.sent)
      && n.bulk.accepted == (if Takes(con, v, row) then v.bulk.accepted + [row] else v.bulk.accepted)
      && n.bulk.failed == (v.bulk.failed || RepeatsAt(con, v, row))
      && (Takes(con, v, row) ==> |n.bulk.pending| > 0)
      && n.buffer == v.buffer && n.buflen == v.buflen && n.commitMax == v.commitMax
  {
    var w := LeftBy(con, v);
    var p, f := PlaceOf(w, row), PlanOf(con, w, false);
    NextAccepted(v.bulk, row, p, f, v.buflen);
    if Usable(con, v) && v.buffer {
      var n := AfterNext(con, v, row);
      LoggedNext(v.bulk, v.sent, row, p, f, v.buflen);
      LoggedThrough(b, sent, v.bulk, v.sent, n.bulk, n.sent);
    }
  }

  lemma RepeatsExactly(con: Connection, v: Snapshot, row: string)
    ensures RepeatsAt(con, v, row) ==> !GoesOn(con, v, row)
    ensures v.buffer && !GoesOn(con, v, row) ==>
      (RepeatsAt(con, v, row) <==> v.bulk.pending != [] && PlanOf(con, LeftBy(con, v), false).Repeats())
  {
  }

  /** The same for all of the first `n` rows. */
  lemma {:induction false} PassedHistory(con: Connection, v: Snapshot, rows: seq<string>, n: nat)
    requires n <= |rows| && AllGoOn(con, v, rows, n)
    requires v.bulk.accepted == [] && !v.bulk.failed && v.buffer
    ensures var w := At(con, v, rows, n);
      && Logged(v.bulk, v.sent, w.bulk, w.sent) && w.bulk.accepted == Picked(con, v, rows, n) && !w.bulk.failed
      && w.buffer && w.buflen == v.buflen && w.commitMax == v.commitMax
  {
    if n == 0 {
      LoggedNothing(v.bulk, v.sent);
    } else {
      var w := At(con, v, rows, n - 1);
      PassedHistory(con, v, rows, n - 1);
      assert GoesOn(con, w, rows[n - 1]);
      RepeatsExactly(con, w, rows[n - 1]);
      NextHistory(con, w, rows[n - 1], v.bulk, v.sent);
    }
  }

  lemma OneMore(con: Connection, v: Snapshot, rows: seq<string>, n: nat)
    requires n < |rows| && AllGoOn(con, v, rows, n) && GoesOn(con, At(con, v, rows, n), rows[n])
    ensures At(con, v, rows, n + 1) == AfterNext(con, At(con, v, rows, n), rows[n]) && AllGoOn(con, v, rows, n + 1)
    ensures Picked(con, v, rows, n + 1) ==
      if Takes(con, At(con, v, rows, n), rows[n]) then Picked(con, v, rows, n) + [rows[n]] else Picked(con, v, rows, n)
  {
  }

  /** The loop over the rows, of which the first `n` go through. */
  method AddRows(con: Connection, rows: seq<cstring>) returns (rc: int, loaded: seq<string>, overrun: bool, n: nat)
    requires con.BulkValid()
    modifies con, con.bulkBuffer
    ensures con.Valid() && con.bulk.Valid() && con.bulkBuffer == old(con.bulkBuffer)
    ensures n <= |rows| && AllGoOn(con, old(Seen(con)), rows, n) && loaded == Picked(con, old(Seen(con)), rows, n)
    ensures n == |rows| ==>
      con.BulkValid() && rc == 0 && !overrun && Seen(con) == At(con, old(Seen(con)), rows, n)
    ensures n < |rows| ==>
      var v := At(con, old(Seen(con)), rows, n);
      Stopped(con, v, rows[n], rc, overrun) && Seen(con) == AfterNext(con, v, rows[n])
  {
    loaded, rc, overrun, n := [], 0, false, 0;
    ghost var v := Seen(con);
    while n < |rows|
      invariant n <= |rows| && con.BulkValid() && con.bulkBuffer == old(con.bulkBuffer)
      invariant rc == 0 && !overrun && Seen(con) == At(con, v, rows, n)
      invariant AllGoOn(con, v, rows, n) && loaded == Picked(con, v, rows, n)
    {
      var took;
      rc, took, overrun := PerformNext(con, rows[n]);
      if rc != 0 || overrun {
        return;
      }
      OneMore(con, v, rows, n);
      loaded := if took then loaded + [rows[n]] else loaded;
      n := n + 1;
    }
  }

  // ---------------------------------------------------------------------
  // How the rows are spread over statements
  // ---------------------------------------------------------------------

  ghost function AllBatches(b: Bulk): seq<seq<string>> {
    if b.pending == [] then Batches(b.log) else Batches(b.log) + [b.pending]
  }

  /** Every INSERT but the last is full, and COMMITs are where they are due. */
  ghost predicate Tidy(v: Snapshot) {
    && Packed(v.bulk.header, AllBatches(v.bulk), v.buflen)
    && Spaced(v.bulk.log, v.commitMax, |v.bulk.log|)
    && (v.bulk.pending == [] ==> v.bulk.log == [])
  }

  lemma TidyFits(b: Bulk, row: string, buflen: nat)
    requires Packed(b.header, AllBatches(b), buflen) && (b.pending == [] ==> b.log == [])
    ensures Packed(b.header, AllBatches(b.With(row)), buflen)
  {
    if b.pending != [] {
      PackedGrows(b.header, Batches(b.log), b.pending, row, buflen);
    }
  }

  lemma TidyFlushes(b: Bulk, row: string, f: Flush, buflen: nat)
    requires Packed(b.header, AllBatches(b), buflen) && b.pending != [] && f.Ok()
    requires |Insert(b.header, b.pending + [row])| >= buflen
    ensures Packed(b.header, AllBatches(b.After(f).With(row)), buflen)
  {
    BatchesNext(b.log, b.pending);
    PackedNext(b.header, Batches(b.log), b.pending, row, buflen);
    assert b.After(f).With(row).pending == [row];
  }

  /** A row that goes through keeps that. */
  lemma TidyNext(con: Connection, v: Snapshot, row: string)
    requires Tidy(v) && GoesOn(con, v, row)
    ensures Tidy(AfterNext(con, v, row))
  {
    var w := LeftBy(con, v);
    var p, f := PlaceOf(w, row), PlanOf(con, w, false);
    PlacedExactly(v.bulk.header, v.bulk.pending, row, v.buflen);
    if Usable(con, v) {
      if p.Flushes? {
        TidyFlushes(v.bulk, row, f, v.buflen);
        SpacedFlush(v.bulk.log, v.bulk.pending, f, v.commitMax);
      } else {
        TidyFits(v.bulk, row, v.buflen);
      }
    }
  }

  lemma {:induction false} TidyRows(con: Connection, v: Snapshot, rows: seq<string>, n: nat)
    requires n <= |rows| && AllGoOn(con, v, rows, n) && Tidy(v)
    ensures Tidy(At(con, v, rows, n))
  {
    if n > 0 {
      TidyRows(con, v, rows, n - 1);
      TidyNext(con, At(con, v, rows, n - 1), rows[n - 1]);
    }
  }

  /** What is left of that at the end, whatever comes of the last flush. */
  ghost predicate TidyEnd(b: Bulk, buflen: nat, limit: nat) {
    Packed(b.header, Batches(b.log), buflen) && Spaced(b.log, limit, |b.log| - 2)
  }

  lemma EndsTidy(b: Bulk, f: Flush, buflen: nat, limit: nat)
    requires Packed(b.header, AllBatches(b), buflen) && Spaced(b.log, limit, |b.log|)
    ensures TidyEnd(b, buflen, limit) && (b.pending != [] ==> TidyEnd(b.After(f), buflen, limit))
  {
    if b.pending != [] {
      BatchesNext(b.log, b.pending);
      PackedPrefix(b.header, Batches(b.log), b.pending, buflen);
      SpacedFlush(b.log, b.pending, f, limit);
    }
  }

  lemma StoppedBulk(con: Connection, v: Snapshot, row: string)
    requires !GoesOn(con, v, row)
    ensures var n := AfterNext(con, v, row).bulk;
      n == v.bulk || (v.bulk.pending != [] && n == v.bulk.After(PlanOf(con, LeftBy(con, v), false)))
  {
  }

  // ---------------------------------------------------------------------
  // Drivers that never fail
  // ---------------------------------------------------------------------

  /** Whether a row fits into the buffer behind the bare header. */
  predicate Fitting(row: string, header: string) {
    |header| + |row| + 1 <= BULK_PACKET_SIZE
  }

  lemma StaysOpen(con: Connection, v: Snapshot, row: string)
    requires v.core.state != Invalid
    ensures AfterNext(con, v, row).core.state != Invalid
  {
  }

  lemma CooperativeNext(con: Connection, v: Snapshot, row: cstring)
    requires con.Cooperative() && v.core.state != Invalid && v.buffer && v.buflen == BULK_PACKET_SIZE
    ensures Usable(con, v) && (Takes(con, v, row) <==> Fitting(row, v.bulk.header))
    ensures Stops(con, CallBulkNext(row), v) <==> !Fitting(row, v.bulk.header) && v.bulk.pending != []
  {
    var w := LeftBy(con, v);
    var h, rows := v.bulk.header, v.bulk.pending;
    con.CooperativeGoes(v.core.state, v.core.operations);
    con.CooperativeGoes(w.core.state, w.core.operations);
    EmptyInsert(h);
    assert |Insert(h, rows)| >= |h|;
    TakenExactly(|h|, |Insert(h, rows)|, |rows|, v.buflen, |row|, PlanOf(con, w, false));
  }

  /** The rows up to the first that does not fit behind the header. */
  ghost predicate LongestFitting(rows: seq<string>, header: string, loaded: seq<string>) {
    && loaded <= rows && (forall i :: 0 <= i < |loaded| ==> Fitting(rows[i], header))
    && (|loaded| < |rows| ==> !Fitting(rows[|loaded|], header))
  }

  ghost predicate AllFit(rows: seq<string>, header: string, n: nat) {
    n <= |rows| && forall i :: 0 <= i < n ==> Fitting(rows[i], header)
  }

  lemma AllFitNext(rows: seq<string>, header: string, n: nat)
    requires n < |rows| && AllFit(rows, header, n) && Fitting(rows[n], header)
    ensures AllFit(rows, header, n + 1) && rows[..n + 1] == rows[..n] + [rows[n]]
  {
  }

  lemma AllFitLongest(rows: seq<string>, header: string, n: nat)
    requires AllFit(rows, header, n) && (n < |rows| ==> !Fitting(rows[n], header))
    ensures LongestFitting(rows, header, rows[..n])
  {
  }

  /** With such a driver every row that goes through is taken, and fits. */
  lemma {:induction false} CooperativeRows(con: Connection, v: Snapshot, rows: seq<cstring>, n: nat)
    requires con.Cooperative() && v.core.state != Invalid && v.buffer && v.buflen == BULK_PACKET_SIZE
    requires v.bulk.accepted == v.bulk.pending == [] && !v.bulk.failed
    requires n <= |rows| && AllGoOn(con, v, rows, n)
    ensures At(con, v, rows, n).core.state != Invalid && Picked(con, v, rows, n) == rows[..n]
    ensures AllFit(rows, v.bulk.header, n) && (At(con, v, rows, n).bulk.pending != [] <==> n > 0)
  {
    if n > 0 {
      var w, row := At(con, v, rows, n - 1), rows[n - 1];
      PassedHistory(con, v, rows, n - 1);
      CooperativeRows(con, v, rows, n - 1);
      CooperativeNext(con, w, row);
      StaysOpen(con, w, row);
      NextHistory(con, w, row, v.bulk, v.sent);
      AllFitNext(rows, v.bulk.header, n - 1);
    }
  }

  /** So an insert stops at the first row that does not fit. */
  lemma CooperativeInsert(con: Connection, v: Snapshot, rows: seq<cstring>, n: nat)
    requires con.Cooperative() && v.core.state != Invalid && v.buffer && v.buflen == BULK_PACKET_SIZE
    requires v.bulk.accepted == v.bulk.pending == [] && !v.bulk.failed
    requires n <= |rows| && AllGoOn(con, v, rows, n)
    requires n < |rows| ==> !GoesOn(con, At(con, v, rows, n), rows[n])
    ensures Picked(con, v, rows, n) == rows[..n] && LongestFitting(rows, v.bulk.header, rows[..n])
    ensures n < |rows| ==> (Stops(con, CallBulkNext(rows[n]), At(con, v, rows, n)) <==> n > 0)
    ensures PlanOf(con, At(con, v, rows, n), true).Ok()
  {
    var w := At(con, v, rows, n);
    PassedHistory(con, v, rows, n);
    CooperativeRows(con, v, rows, n);
    con.CooperativeGoes(w.core.state, w.core.operations);
    if n < |rows| {
      CooperativeNext(con, w, rows[n]);
    }
    AllFitLongest(rows, v.bulk.header, n);
  }

  // ---------------------------------------------------------------------
  // A whole insert
  // ---------------------------------------------------------------------

  /** The flush at the end. */
  lemma DoneHistory(con: Connection, v: Snapshot, b: Bulk, sent: seq<string>)
    requires Logged(b, sent, v.bulk, v.sent) && !v.bulk.failed
    ensures var n := AfterDone(con, v);
      && Logged(b, sent, n.bulk, n.sent) && n.bulk.accepted == v.bulk.accepted && n.commitMax == v.commitMax
      && (n.bulk.failed <==> v.bulk.pending != [] && PlanOf(con, v, true).Repeats())
      && (v.bulk.pending == [] || PlanOf(con, v, true).Ok() ==> n.bulk.pending == [])
  {
    var n := AfterDone(con, v);
    LoggedFlush(v.bulk, v.sent, PlanOf(con, v, true));
    LoggedNothing(v.bulk, v.sent);
    LoggedThrough(b, sent, v.bulk, v.sent, n.bulk, n.sent);
  }

  /** The state in which the last flush of an insert begins, if there is one, and whether it is the one at the end. */
  ghost function LastFlush(con: Connection, v: Snapshot, rows: seq<string>, n: nat): (Snapshot, bool)
    requires n <= |rows|
  {
    if n == |rows| then (At(con, v, rows, n), true) else (LeftBy(con, At(con, v, rows, n)), false)
  }

  /** Whether the insert stops in a flush whose INSERT goes through and whose COMMIT, which is due, does not. */
  ghost predicate StopsInCommit(con: Connection, v: Snapshot, rows: seq<string>, n: nat)
    requires n <= |rows|
  {
    var (w, isLast) := LastFlush(con, v, rows, n);
    var s, ops := w.core.state, w.core.operations;
    && w.bulk.pending != [] && con.Ran(s, ops, true, Fatal).error == NoError
    && w.commitMax != 0 && (isLast || Uncommitted(w.bulk.log) + |w.bulk.pending| >= w.commitMax)
    && !con.CommitGoes(s, ops)
  }

  /** What a started insert comes to. */
  ghost function LoadedTo(con: Connection, v: Snapshot, rows: seq<string>, n: nat): Snapshot
    requires n <= |rows|
  {
    if n == |rows| then AfterDone(con, At(con, v, rows, n)) else AfterNext(con, At(con, v, rows, n), rows[n])
  }

  lemma LoadedHistory(con: Connection, v: Snapshot, rows: seq<string>, n: nat)
    requires n <= |rows| && AllGoOn(con, v, rows, n)
    requires v.bulk.accepted == [] && v.bulk.log == [] && !v.bulk.failed && v.buffer
    requires n < |rows| ==> !GoesOn(con, At(con, v, rows, n), rows[n])
    ensures var w := LoadedTo(con, v, rows, n);
      && w.sent == v.sent + Texts(v.bulk.header, w.bulk.log) && w.bulk.accepted == Picked(con, v, rows, n)
      && w.bulk.failed == StopsInCommit(con, v, rows, n) && w.commitMax == v.commitMax
  {
    var at, w := At(con, v, rows, n), LoadedTo(con, v, rows, n);
    PassedHistory(con, v, rows, n);
    if n < |rows| {
      NextHistory(con, at, rows[n], v.bulk, v.sent);
      RepeatsExactly(con, at, rows[n]);
    } else {
      DoneHistory(con, at, v.bulk, v.sent);
    }
    assert w.bulk.log[0..] == w.bulk.log;
  }

  /** However it ends, every INSERT but the last was full, and every COMMIT but the last was due. */
  lemma LoadedTidy(con: Connection, v: Snapshot, rows: seq<string>, n: nat)
    requires n <= |rows| && AllGoOn(con, v, rows, n) && (n < |rows| ==> !GoesOn(con, At(con, v, rows, n), rows[n]))
    requires v.bulk.log == [] && v.bulk.pending == []
    ensures TidyEnd(LoadedTo(con, v, rows, n).bulk, v.buflen, v.commitMax)
  {
    var at := At(con, v, rows, n);
    TidyRows(con, v, rows, n);
    SameFrame(con, v, rows, n);
    if n == |rows| {
      EndsTidy(at.bulk, PlanOf(con, at, true), at.buflen, at.commitMax);
    } else {
      EndsTidy(at.bulk, PlanOf(con, LeftBy(con, at), false), at.buflen, at.commitMax);
      StoppedBulk(con, at, rows[n]);
    }
  }

  lemma {:induction false} SameFrame(con: Connection, v: Snapshot, rows: seq<string>, n: nat)
    requires n <= |rows|
    ensures var w := At(con, v, rows, n);
      w.bulk.header == v.bulk.header && w.buflen == v.buflen && w.commitMax == v.commitMax
  {
    if n > 0 {
      SameFrame(con, v, rows, n - 1);
    }
  }

  /** All rows and the end, in an insert that has been started. */
  method PassRows(con: Connection, rows: seq<cstring>) returns (rc: int, loaded: seq<string>, overrun: bool, n: nat)
    requires con.BulkValid()
    modifies con, con.bulkBuffer
    ensures con.Valid() && con.bulk.Valid() && n <= |rows|
    ensures AllGoOn(con, old(Seen(con)), rows, n) && loaded == Picked(con, old(Seen(con)), rows, n)
    ensures Seen(con) == LoadedTo(con, old(Seen(con)), rows, n)
    ensures n < |rows| ==> Stopped(con, At(con, old(Seen(con)), rows, n), rows[n], rc, overrun)
    ensures n == |rows| ==> Finished(con, At(con, old(Seen(con)), rows, n), rc, overrun)
    ensures rc == 0 && !overrun ==>
      con.bulkBuffer == null && (con.bulkCommitMax != 0 ==> Uncommitted(con.bulk.log) == 0)
  {
    rc, loaded, overrun, n := AddRows(con, rows);
    if n == |rows| {
      rc := PerformDone(con);
    }
  }

  /** An insert that has just been started, which left the connection as `v`. */
  ghost predicate Started(v: Snapshot, header: string) {
    v.bulk == Bulk(header, [], [], [], false) && v.buffer && v.buflen == BULK_PACKET_SIZE
  }

  /** What becomes of it. */
  ghost predicate Loaded(con: Connection, v: Snapshot, rows: seq<cstring>, n: nat, loaded: seq<string>,
                         log: seq<Entry>, kept: seq<string>)
    requires n <= |rows|
  {
    && AllGoOn(con, v, rows, n) && loaded == Picked(con, v, rows, n)
    && (AllRows(log) + kept == loaded <==> !StopsInCommit(con, v, rows, n))
    && Packed(v.bulk.header, Batches(log), BULK_PACKET_SIZE) && Spaced(log, v.commitMax, |log| - 2)
  }

  lemma LoadedAll(con: Connection, v: Snapshot, rows: seq<cstring>, n: nat, b: Bulk)
    requires n <= |rows| && AllGoOn(con, v, rows, n) && (n < |rows| ==> !GoesOn(con, At(con, v, rows, n), rows[n]))
    requires Started(v, v.bulk.header) && b == LoadedTo(con, v, rows, n).bulk && b.Valid()
    ensures Loaded(con, v, rows, n, Picked(con, v, rows, n), b.log, b.pending)
    ensures LoadedTo(con, v, rows, n).sent == v.sent + Texts(v.bulk.header, b.log)
    ensures n == |rows| && Finished(con, At(con, v, rows, n), 0, false) ==>
      b.pending == [] && AllRows(b.log) == Picked(con, v, rows, n)
  {
    LoadedHistory(con, v, rows, n);
    LoadedTidy(con, v, rows, n);
    SameFrame(con, v, rows, n);
    b.OnceExactly();
    assert AllRows(b.log) + [] == AllRows(b.log);
  }

  /** All of an insert after its start. */
  method LoadStarted(con: Connection, rows: seq<cstring>)
    returns (rc: int, loaded: seq<string>, overrun: bool, n: nat, ghost log: seq<Entry>, ghost kept: seq<string>)
    requires con.BulkValid() && Started(Seen(con), con.bulk.header)
    modifies con, con.bulkBuffer
    ensures con.Valid() && n <= |rows|
    ensures var v := old(Seen(con));
      && Loaded(con, v, rows, n, loaded, log, kept) && Seen(con) == LoadedTo(con, v, rows, n)
      && (if n == |rows| then Finished(con, At(con, v, rows, n), rc, overrun)
          else Stopped(con, At(con, v, rows, n), rows[n], rc, overrun))
    ensures con.sent == old(con.sent) + Texts(old(con.bulk.header), log)
    ensures rc == 0 && !overrun ==>
      && n == |rows| && kept == [] && AllRows(log) == loaded && con.bulkBuffer == null
      && (old(con.bulkCommitMax) != 0 ==> Uncommitted(log) == 0)
    ensures con.Cooperative() && old(con.state) != Invalid ==>
      && LongestFitting(rows, old(con.bulk.header), loaded)
      && overrun == (0 < |loaded| < |rows|) && (rc != 0 <==> 0 == |loaded| < |rows|)
  {
    ghost var v := Seen(con);
    rc, loaded, overrun, n := PassRows(con, rows);
    SameFrame(con, v, rows, n);
    LoadedAll(con, v, rows, n, con.bulk);
    if con.Cooperative() && v.core.state != Invalid {
      CooperativeInsert(con, v, rows, n);
    }
    log, kept := con.bulk.log, con.bulk.pending;
  }

  /**
    A whole multi-row insert: `n` rows go through, `log` is what it sent and
    `kept` what is still in the buffer. The rows it took are those passed
    while the connection could be used. No INSERT that another one follows
    had room for the next row, and before the last flush COMMITs come just
    when enough rows are uncommitted. The rows have been sent and kept once
    and in order exactly if it did not stop in the COMMIT of a flush whose
    INSERT had gone through. Success means that they are all sent, and that
    a driver that needs commits has nothing uncommitted left. With a driver
    that never fails the rows are taken up to the first that does not fit
    behind the header: the insert succeeds if there is none, writes past its
    buffer if rows came before it, and refuses it if none did.
  */
  method LoadRows(con: Connection, header: cstring, rows: seq<cstring>)
    returns (rc: int, loaded: seq<string>, overrun: bool, started: bool, n: nat,
             ghost log: seq<Entry>, ghost kept: seq<string>)
    requires con.Valid()
    modifies con
    ensures con.Valid() && n <= |rows|
    ensures started == (Usable(con, old(Seen(con))) && con.driver.describes && |header| < BULK_PACKET_SIZE)
    ensures !started ==>
      && Seen(con) == AfterInit(con, old(Seen(con)), header)
      && rc == 1 && loaded == kept == [] && log == [] && !overrun
    ensures started ==>
      var v := AfterInit(con, old(Seen(con)), header);
      && Loaded(con, v, rows, n, loaded, log, kept) && Seen(con) == LoadedTo(con, v, rows, n)
      && (if n == |rows| then Finished(con, At(con, v, rows, n), rc, overrun)
          else Stopped(con, At(con, v, rows, n), rows[n], rc, overrun))
      && con.sent == old(con.sent) + Texts(header, log)
    ensures rc == 0 && !overrun ==>
      && started && n == |rows| && kept == [] && AllRows(log) == loaded && con.bulkBuffer == null
      && (con.driver.needsCommit ==> Uncommitted(log) == 0)
    ensures con.Cooperative() && old(con.state) != Invalid && con.driver.describes && |header| < BULK_PACKET_SIZE ==>
      && LongestFitting(rows, header, loaded)
      && overrun == (0 < |loaded| < |rows|) && (rc != 0 <==> 0 == |loaded| < |rows|)
  {
    if con.Cooperative() && con.state != Invalid {
      con.CooperativeGoes(con.state, con.operations);
    }
    rc, started := PerformInit(con, header);
    if !started {
      return 1, [], false, false, 0, [], [];
    }
    rc, loaded, overrun, n, log, kept := LoadStarted(con, rows);
  }

  // ---------------------------------------------------------------------
  // Two inserts that go wrong
  // ---------------------------------------------------------------------

  function Committing(): Driver {
    Driver(false, false, false, false, false, true, true)
  }

  /** All operations succeed but the one with the given number. */
  function FailingAt(k: nat): nat -> Answer {
    n => Answer(0, if n == k then Fatal else NoError, Write, 0, 0, false)
  }

  /** A new connection to a driver that needs commits, with one short row in its buffer. */
  method StartWithRow(k: nat) returns (con: Connection)
    requires k > 0
    ensures fresh(con) && con.BulkValid() && con.answers == FailingAt(k)
    ensures con.bulkBuffer != null && fresh(con.bulkBuffer) && con.bulkBuflen == BULK_PACKET_SIZE
    ensures con.bulk == Bulk("I", ["r"], ["r"], [], false) && con.sent == []
    ensures con.state == Ready && con.operations == 1 && con.bulkCnt == 1 && con.bulkCommitMax == ROWS_BEFORE_COMMIT
  {
    con := new Connection(Committing(), FailingAt(k));
    var _, started := con.BulkInit("I");
    EmptyInsert("I");
    AddFirst(con);
  }

  method AddFirst(con: Connection)
    requires con.BulkValid() && con.bulk == Bulk("I", [], [], [], false) && con.state == Ready
    requires con.bulkBuffer != null && con.bulkBuflen == BULK_PACKET_SIZE
    modifies con, con.bulkBuffer
    ensures con.BulkValid() && con.bulk == Bulk("I", ["r"], ["r"], [], false)
    ensures con.sent == old(con.sent) && con.operations == old(con.operations) && con.state == Ready
    ensures con.bulkBuffer == old(con.bulkBuffer) && con.bulkBuflen == BULK_PACKET_SIZE
    ensures con.bulkCommitMax == old(con.bulkCommitMax)
  {
    EmptyInsert("I");
    ghost var p, f := con.PlaceOf(1), con.Plan(Ready, con.operations, false);
    assert p == Fits(3);
    FirstNext(p, f);
    var _, _, _ := con.BulkNext("r", p, f);
  }

  lemma FirstNext(p: Place, f: Flush)
    requires p == Fits(3)
    ensures Bulk("I", [], [], [], false).Next("r", p, f, BULK_PACKET_SIZE) == Bulk("I", ["r"], ["r"], [], false)
    ensures !p.Overruns(f, BULK_PACKET_SIZE)
  {
  }

  /** The INSERT goes through and the COMMIT fails: the row has been sent and is still in the buffer. */
  method FailedCommit() returns (con: Connection)
    ensures fresh(con) && con.BulkValid() && con.answers == FailingAt(2)
    ensures con.bulk == Bulk("I", ["r"], ["r"], [Rows(["r"])], true) && con.sent == [Insert("I", ["r"])]
    ensures con.state == Ready && con.operations == 3 && con.bulkCnt == 1 && con.bulkCommitMax == ROWS_BEFORE_COMMIT
  {
    con := StartWithRow(2);
    ghost var f := con.Plan(con.state, con.operations, true);
    assert f == Flush(true, true, false);
    assert con.bulk.After(f) == Bulk("I", ["r"], ["r"], [Rows(["r"])], true);
    var _ := con.BulkDone(f);
  }

  lemma TwiceInLog()
    ensures AllRows([Rows(["r"]), Rows(["r"]), Commit]) == ["r", "r"]
  {
    var log := [Rows(["r"])];
    InsertAppended([], ["r"]);
    assert [] + log == log;
    InsertAppended(log, ["r"]);
    CommitAppended(log + [Rows(["r"])]);
    assert [Rows(["r"]), Rows(["r"]), Commit] == log + [Rows(["r"])] + [Commit];
  }

  /** A second try then succeeds: the one row that was accepted has been inserted twice. */
  method RepeatedRow() returns (con: Connection)
    ensures fresh(con) && con.bulk.accepted == ["r"] && con.bulk.pending == []
    ensures con.sent == [Insert("I", ["r"]), Insert("I", ["r"]), COMMIT]
    ensures AllRows(con.bulk.log) == ["r", "r"] && !con.bulk.Once()
  {
    con := FailedCommit();
    ghost var f := con.Plan(con.state, con.operations, true);
    assert f == Flush(true, true, true);
    assert con.bulk.After(f).log == [Rows(["r"]), Rows(["r"]), Commit];
    TwiceInLog();
    var _ := con.BulkDone(f);
  }

  /**
    A row as long as the buffer without the header, after a short one: the
    short one is sent, and the code would write the long one past its buffer.
  */
  method TooLongRow() returns (con: Connection, row: cstring, overrun: bool, ghost before: Snapshot)
    ensures fresh(con) && before.bulk == Bulk("I", ["r"], ["r"], [], false) && before.sent == []
    ensures |before.bulk.header| + |row| + 1 > before.buflen == con.bulkBuflen
    ensures overrun && overrun == Stops(con, CallBulkNext(row), before) && Seen(con) == AfterNext(con, before, row)
    ensures con.sent == [Insert("I", ["r"])]
  {
    con := StartWithRow(1000);
    row := Filler(BULK_PACKET_SIZE - 1);
    before := Seen(con);
    assert PlanOf(con, before, false) == Flush(true, false, true);
    assert PlaceOf(before, row).Flushes?;
    var _, _, over := PerformNext(con, row);
    overrun := over;
  }

  function Filler(n: nat): (s: cstring)
    ensures |s| == n
  {
    seq(n, _ => 'x')
  }
}
