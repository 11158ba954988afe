/**
  Whole sequences of calls on a connection. What can be seen of a connection
  after a call is a function of what could be seen before it and of the
  driver's answers; every call does what that function says.
*/
module ConnectionRuns {
  import opened BulkInsert
  import opened DbConnection
  import opened Machine
  import opened Wrappers

  datatype Call =
    | CallExecute(stmt: nat) | CallStmtNextResult(stmt: nat) | CallQuery(text: string) | CallNextResult
    | CallMoreResults | CallFetchRow | CallFreeResults | CallPrepare | CallBind | CallCloseStatement
    | CallClose | CallReconnect | CallBulkInit(header: cstring) | CallBulkNext(row: cstring) | CallBulkDone

  /** What can be seen of a connection between two calls. */
  datatype Snapshot = Snapshot(core: Core, buffer: bool, buflen: nat, commitMax: nat, bulk: Bulk, sent: seq<string>)

  ghost function Seen(con: Connection): Snapshot
    reads con
  {
    Snapshot(con.Now(), con.bulkBuffer != null, con.bulkBuflen, con.bulkCommitMax, con.bulk, con.sent)
  }

  // ---------------------------------------------------------------------
  // The effect of a call
  // ---------------------------------------------------------------------

  predicate Usable(con: Connection, v: Snapshot) {
    con.Usable(v.core.state, v.core.operations)
  }

  /** After an open result set has been released. */
  function LeftBy(con: Connection, v: Snapshot): Snapshot {
    v.(core := con.LeftCore(v.core))
  }

  /** How a flush would go. */
  ghost function PlanOf(con: Connection, v: Snapshot, isLast: bool): Flush {
    var s, n := v.core.state, v.core.operations;
    Flush(con.Ran(s, n, true, Fatal).error == NoError,
          v.commitMax != 0 && (isLast || Uncommitted(v.bulk.log) + |v.bulk.pending| >= v.commitMax),
          con.CommitGoes(s, n))
  }

  /** What the size check decides about a row. */
  ghost function PlaceOf(v: Snapshot, row: string): Place {
    Placed(|v.bulk.header|, |Insert(v.bulk.header, v.bulk.pending)|, |v.bulk.pending|, v.buflen, |row|)
  }

  ghost function AfterInit(con: Connection, v: Snapshot, header: string): Snapshot {
    if Usable(con, v) && con.driver.describes && |header| < BULK_PACKET_SIZE then
      LeftBy(con, v).(buffer := true, buflen := BULK_PACKET_SIZE, bulk := Bulk(header, [], [], [], false),
                      commitMax := if con.driver.needsCommit then ROWS_BEFORE_COMMIT else 0)
    else LeftBy(con, v)
  }

  ghost function AfterNext(con: Connection, v: Snapshot, row: string): Snapshot {
    var w := LeftBy(con, v);
    if !Usable(con, v) || !v.buffer then w
    else
      var p, f := PlaceOf(w, row), PlanOf(con, w, false);
      w.(core := if p.Flushes? then con.FlushCore(w.core, f.due) else w.core,
         bulk := w.bulk.Next(row, p, f, w.buflen),
         sent := p.Sends(f, w.sent, w.bulk.header, w.bulk.pending))
  }

  ghost function AfterDone(con: Connection, v: Snapshot): Snapshot {
    if v.bulk.pending == [] then v.(buffer := false)
    else
      var f := PlanOf(con, v, true);
      v.(core := con.FlushCore(v.core, f.due), buffer := v.buffer && !f.Ok(),
         bulk := v.bulk.After(f), sent := f.Sends(v.sent, v.bulk.header, v.bulk.pending))
  }

  function Counted(c: Core, n: nat): Core {
    c.(operations := c.operations + n)
  }

  /** What a call without a statement to run does to the connection. */
  function AfterOther(con: Connection, call: Call, c: Core): Core {
    match call
    case CallMoreResults => Counted(c, if c.state == ResultSet && con.driver.moreResults then 1 else 0)
    case CallFetchRow =>
      if c.state == ResultSet && c.nrows > 0 && c.nfields > 0
      then Counted(c.(rowValues := Some(c.nfields)), if con.driver.fetchRow then 1 else 0)
      else c
    case CallFreeResults => con.LeftCore(c)
    case CallPrepare => Counted(c, if c.state == Invalid then 0 else 1)
    case CallBind => Counted(c, if c.state == Invalid then 0 else 1)
    case CallCloseStatement => Counted(con.LeftCore(c), if con.Usable(c.state, c.operations) then 1 else 0)
    case CallClose => if c.state == Invalid then c else Counted(con.LeftCore(c), 1).(state := Invalid)
    case CallReconnect =>
      if !con.driver.reconnect || c.state == Invalid then c
      else
        var d := con.LeftCore(c);
        Counted(d, 1).(state := if con.answers(d.operations).error == Fatal then Invalid else Ready)
    case _ => c
  }

  ghost function Do(con: Connection, call: Call, v: Snapshot): Snapshot {
    match call
    case CallExecute(_) => v.(core := con.RanCore(v.core, true))
    case CallStmtNextResult(_) => v.(core := con.RanCore(v.core, con.driver.stmtNextResult))
    case CallNextResult => v.(core := con.RanCore(v.core, con.driver.nextResult))
    case CallQuery(text) =>
      var ok := con.Ran(v.core.state, v.core.operations, true, Fatal).error == NoError;
      v.(core := con.RanCore(v.core, true), sent := if ok then v.sent + [text] else v.sent)
    case CallBulkInit(header) => AfterInit(con, v, header)
    case CallBulkNext(row) => AfterNext(con, v, row)
    case CallBulkDone => AfterDone(con, v)
    case _ => v.(core := AfterOther(con, call, v.core))
  }

  /** Whether the code then calls a missing driver operation or writes past its buffer. */
  ghost predicate Stops(con: Connection, call: Call, v: Snapshot) {
    match call
    case CallFetchRow => v.core.state == ResultSet && v.core.nrows > 0 && v.core.nfields > 0 && !con.driver.fetchRow
    case CallBulkNext(row) =>
      && Usable(con, v) && v.buffer && v.bulk.pending != [] && |v.bulk.header| + |row| + 1 > v.buflen
      && PlanOf(con, LeftBy(con, v), false).Ok()
    case _ => false
  }

  // ---------------------------------------------------------------------
  // What every call keeps
  // ---------------------------------------------------------------------

  /** One result set is open in state ResultSet and none otherwise, and a dead connection leaves the driver alone. */
  lemma DoRight(con: Connection, call: Call, v: Snapshot)
    requires v.core.Right()
    ensures Do(con, call, v).core.Right() && Dead(v.core, Do(con, call, v).core)
  {
    match call
    case CallExecute(_) => con.RanCoreRight(v.core, true);
    case CallQuery(_) => con.RanCoreRight(v.core, true);
    case CallStmtNextResult(_) => con.RanCoreRight(v.core, con.driver.stmtNextResult);
    case CallNextResult => con.RanCoreRight(v.core, con.driver.nextResult);
    case CallBulkNext(_) =>
      con.RanCoreRight(v.core, false);
      con.FlushCoreRight(con.LeftCore(v.core), PlanOf(con, LeftBy(con, v), false).due);
    case CallBulkDone => con.FlushCoreRight(v.core, PlanOf(con, v, true).due);
    case _ =>
  }

  /** A sequence of snapshots that the calls lead through. */
  ghost predicate Follows(con: Connection, calls: seq<Call>, trace: seq<Snapshot>) {
    && 0 < |trace| <= |calls| + 1
    && forall i :: 0 <= i < |trace| - 1 ==> trace[i + 1] == Do(con, calls[i], trace[i])
  }

  /** So they hold along any sequence of calls and answers. */
  lemma {:induction false} RunRight(con: Connection, calls: seq<Call>, trace: seq<Snapshot>, i: nat, j: nat)
    requires Follows(con, calls, trace) && trace[0].core.Right() && i <= j < |trace|
    ensures trace[j].core.Right() && Dead(trace[i].core, trace[j].core)
    decreases j
  {
    if j > 0 {
      RunRight(con, calls, trace, if i < j then i else j - 1, j - 1);
      DoRight(con, calls[j - 1], trace[j - 1]);
    }
  }

  // ---------------------------------------------------------------------
  // Which answers open result sets
  // ---------------------------------------------------------------------

  /** The number of the driver operation that runs a statement, if the connection can be used. */
  function StatementRun(con: Connection, c: Core): seq<nat> {
    if c.state == Ready then [c.operations]
    else if c.state == ResultSet && con.answers(c.operations).rc == 0 then [c.operations + 1]
    else []
  }

  function FlushRuns(con: Connection, c: Core, due: bool): seq<nat> {
    var first := StatementRun(con, c);
    if due && first != [] && con.answers(first[0]).error == NoError
    then first + StatementRun(con, con.RanCore(c, true))
    else first
  }

  /** The numbers of the driver operations that run statements in a call. */
  ghost function Runs(con: Connection, call: Call, v: Snapshot): seq<nat> {
    match call
    case CallExecute(_) => StatementRun(con, v.core)
    case CallQuery(_) => StatementRun(con, v.core)
    case CallStmtNextResult(_) => if con.driver.stmtNextResult then StatementRun(con, v.core) else []
    case CallNextResult => if con.driver.nextResult then StatementRun(con, v.core) else []
    case CallBulkNext(row) =>
      var w := LeftBy(con, v);
      if Usable(con, v) && v.buffer && PlaceOf(w, row).Flushes?
      then FlushRuns(con, w.core, PlanOf(con, w, false).due)
      else []
    case CallBulkDone => if v.bulk.pending == [] then [] else FlushRuns(con, v.core, PlanOf(con, v, true).due)
    case _ => []
  }

  /** How many of them the driver answered without an error and with rows to read. */
  function Reads(con: Connection, runs: seq<nat>): nat {
    if |runs| == 0 then 0
    else
      var n := |runs| - 1;
      Reads(con, runs[..n]) +
      if con.answers(runs[n]).error == NoError && con.answers(runs[n]).counter == Read then 1 else 0
  }

  lemma {:induction false} ReadsConcat(con: Connection, a: seq<nat>, b: seq<nat>)
    ensures Reads(con, a + b) == Reads(con, a) + Reads(con, b)
  {
    if |b| == 0 {
      assert a + b == a;
    } else {
      var n := |b| - 1;
      ReadsConcat(con, a, b[..n]);
      assert (a + b)[..|a| + n] == a + b[..n];
    }
  }

  lemma StatementReads(con: Connection, c: Core)
    ensures con.RanCore(c, true).resultSets == c.resultSets + Reads(con, StatementRun(con, c))
    ensures con.RanCore(c, false).resultSets == c.resultSets
  {
    var runs := StatementRun(con, c);
    if runs != [] {
      assert runs[..0] == [];
      assert Reads(con, runs[..0]) == 0;
    }
  }

  lemma FlushReads(con: Connection, c: Core, due: bool)
    ensures con.FlushCore(c, due).resultSets == c.resultSets + Reads(con, FlushRuns(con, c, due))
  {
    var d := con.RanCore(c, true);
    StatementReads(con, c);
    StatementReads(con, d);
    ReadsConcat(con, StatementRun(con, c), StatementRun(con, d));
  }

  /** A call opens as many result sets as statements it runs are answered that way. */
  lemma DoReads(con: Connection, call: Call, v: Snapshot)
    ensures Do(con, call, v).core.resultSets == v.core.resultSets + Reads(con, Runs(con, call, v))
  {
    StatementReads(con, v.core);
    if call.CallBulkNext? {
      FlushReads(con, LeftBy(con, v).core, PlanOf(con, LeftBy(con, v), false).due);
    } else if call.CallBulkDone? {
      FlushReads(con, v.core, PlanOf(con, v, true).due);
    }
  }

  ghost function AllRuns(con: Connection, calls: seq<Call>, trace: seq<Snapshot>, j: nat): seq<nat>
    requires j <= |calls| && j <= |trace|
  {
    if j == 0 then [] else AllRuns(con, calls, trace, j - 1) + Runs(con, calls[j - 1], trace[j - 1])
  }

  /** So does any sequence of calls. */
  lemma {:induction false} RunReads(con: Connection, calls: seq<Call>, trace: seq<Snapshot>, j: nat)
    requires Follows(con, calls, trace) && j < |trace|
    ensures trace[j].core.resultSets == trace[0].core.resultSets + Reads(con, AllRuns(con, calls, trace, j))
  {
    if j > 0 {
      RunReads(con, calls, trace, j - 1);
      DoReads(con, calls[j - 1], trace[j - 1]);
      ReadsConcat(con, AllRuns(con, calls, trace, j - 1), Runs(con, calls[j - 1], trace[j - 1]));
    }
  }

  /** Increasing numbers from `lo` on and below `hi`. */
  ghost predicate Ascending(s: seq<nat>, lo: nat, hi: nat) {
    && lo <= hi && (forall i :: 0 <= i < |s| ==> lo <= s[i] < hi)
    && forall i, j :: 0 <= i < j < |s| ==> s[i] < s[j]
  }

  lemma AscendingConcat(s: seq<nat>, t: seq<nat>, lo: nat, mid: nat, hi: nat)
    requires Ascending(s, lo, mid) && Ascending(t, mid, hi)
    ensures Ascending(s + t, lo, hi)
  {
  }

  lemma StatementAscends(con: Connection, c: Core)
    ensures Ascending(StatementRun(con, c), c.operations, con.RanCore(c, true).operations)
    ensures c.operations <= con.RanCore(c, false).operations
  {
  }

  lemma FlushAscends(con: Connection, c: Core, due: bool)
    ensures Ascending(FlushRuns(con, c, due), c.operations, con.FlushCore(c, due).operations)
  {
    var d, first := con.RanCore(c, true), StatementRun(con, c);
    StatementAscends(con, c);
    if due && first != [] && con.answers(first[0]).error == NoError {
      StatementAscends(con, d);
      AscendingConcat(first, StatementRun(con, d), c.operations, d.operations, con.RanCore(d, true).operations);
    }
  }

  /** They are operations of that call, in order. */
  lemma RunsAscend(con: Connection, call: Call, v: Snapshot)
    ensures Ascending(Runs(con, call, v), v.core.operations, Do(con, call, v).core.operations)
  {
    StatementAscends(con, v.core);
    if call.CallBulkNext? {
      FlushAscends(con, LeftBy(con, v).core, PlanOf(con, LeftBy(con, v), false).due);
    } else if call.CallBulkDone? {
      FlushAscends(con, v.core, PlanOf(con, v, true).due);
    }
  }

  lemma {:induction false} AllRunsAscend(con: Connection, calls: seq<Call>, trace: seq<Snapshot>, j: nat)
    requires Follows(con, calls, trace) && j < |trace|
    ensures Ascending(AllRuns(con, calls, trace, j), trace[0].core.operations, trace[j].core.operations)
  {
    if j > 0 {
      AllRunsAscend(con, calls, trace, j - 1);
      RunsAscend(con, calls[j - 1], trace[j - 1]);
      AscendingConcat(AllRuns(con, calls, trace, j - 1), Runs(con, calls[j - 1], trace[j - 1]),
                      trace[0].core.operations, trace[j - 1].core.operations, trace[j].core.operations);
    }
  }

  // ---------------------------------------------------------------------
  // The calls themselves
  // ---------------------------------------------------------------------

  lemma SeenPlan(con: Connection, isLast: bool)
    requires con.BulkValid()
    ensures con.Plan(con.state, con.operations, isLast) == PlanOf(con, Seen(con), isLast)
  {
  }

  // Each of the following methods performs some of the calls.

  method PerformQuery(con: Connection, call: Call)
    requires con.BulkValid() && (call.CallQuery? || call.CallNextResult?)
    modifies con
    ensures con.BulkValid() && con.bulkBuffer == old(con.bulkBuffer)
    ensures Seen(con) == Do(con, call, old(Seen(con)))
  {
    match call
    case CallQuery(text) => var _ := con.Query(text);
    case CallNextResult => var _ := con.NextResult();
  }

  method PerformExecute(con: Connection, call: Call)
    requires con.BulkValid() && (call.CallExecute? || call.CallStmtNextResult?)
    modifies con
    ensures con.BulkValid() && con.bulkBuffer == old(con.bulkBuffer)
    ensures Seen(con) == Do(con, call, old(Seen(con)))
  {
    match call
    case CallExecute(stmt) => var _ := con.Execute(stmt);
    case CallStmtNextResult(stmt) => var _ := con.StmtNextResult(stmt);
  }

  method PerformResult(con: Connection, call: Call) returns (stopped: bool)
    requires con.BulkValid() && (call.CallMoreResults? || call.CallFetchRow?)
    modifies con
    ensures con.BulkValid() && con.bulkBuffer == old(con.bulkBuffer)
    ensures Seen(con) == Do(con, call, old(Seen(con))) && stopped == Stops(con, call, old(Seen(con)))
  {
    stopped := false;
    match call
    case CallMoreResults => var _ := con.MoreResults();
    case CallFetchRow => var _, crashed := con.FetchRow(); stopped := crashed;
  }

  method PerformStatement(con: Connection, call: Call)
    requires con.BulkValid() && (call.CallPrepare? || call.CallBind?)
    modifies con
    ensures con.BulkValid() && con.bulkBuffer == old(con.bulkBuffer)
    ensures Seen(con) == Do(con, call, old(Seen(con)))
  {
    match call
    case CallPrepare => var _ := con.Prepare();
    case CallBind => var _ := con.Bind();
  }

  method PerformFree(con: Connection, call: Call)
    requires con.BulkValid() && call.CallFreeResults?
    modifies con
    ensures con.BulkValid() && con.bulkBuffer == old(con.bulkBuffer)
    ensures Seen(con) == Do(con, call, old(Seen(con)))
  {
    var _ := con.FreeResults();
  }

  method PerformCloseStatement(con: Connection, call: Call)
    requires con.BulkValid() && call.CallCloseStatement?
    modifies con
    ensures con.BulkValid() && con.bulkBuffer == old(con.bulkBuffer)
    ensures Seen(con) == Do(con, call, old(Seen(con)))
  {
    var _, _ := con.CloseStatement();
  }

  method PerformClose(con: Connection, call: Call)
    requires con.BulkValid() && call.CallClose?
    modifies con
    ensures con.BulkValid() && con.bulkBuffer == old(con.bulkBuffer)
    ensures Seen(con) == Do(con, call, old(Seen(con)))
  {
    var _ := con.Close();
  }

  method PerformReconnect(con: Connection, call: Call)
    requires con.BulkValid() && call.CallReconnect?
    modifies con
    ensures con.BulkValid() && con.bulkBuffer == old(con.bulkBuffer)
    ensures Seen(con) == Do(con, call, old(Seen(con)))
  {
    var _ := con.Reconnect();
  }

  method PerformInit(con: Connection, header: cstring) returns (rc: int, started: bool)
    requires con.Valid()
    modifies con
    ensures con.Valid() && (started || old(con.BulkValid()) ==> con.BulkValid())
    ensures con.bulkBuffer == old(con.bulkBuffer) || fresh(con.bulkBuffer)
    ensures Seen(con) == AfterInit(con, old(Seen(con)), header)
    ensures started == (Usable(con, old(Seen(con))) && con.driver.describes && |header| < BULK_PACKET_SIZE)
    ensures started ==> con.bulkBuffer != null && fresh(con.bulkBuffer)
  {
    rc, started := con.BulkInit(header);
  }

  /** Whether a row is accepted. */
  ghost predicate Takes(con: Connection, v: Snapshot, row: string) {
    && Usable(con, v) && v.buffer
    && PlaceOf(LeftBy(con, v), row).Takes(PlanOf(con, LeftBy(con, v), false), v.buflen)
  }

  lemma SeenNext(con: Connection, row: string)
    requires con.BulkValid() && con.bulkBuffer != null && Usable(con, Seen(con))
    ensures con.PlaceOf(|row|) == PlaceOf(LeftBy(con, Seen(con)), row)
    ensures con.Plan(Ready, con.Left(con.state, con.operations), false) == PlanOf(con, LeftBy(con, Seen(con)), false)
  {
  }

  method NextOpen(con: Connection, row: cstring) returns (rc: int, took: bool, overrun: bool)
    requires con.BulkValid() && con.bulkBuffer != null && Usable(con, Seen(con))
    modifies con, con.bulkBuffer
    ensures con.Valid() && con.bulk.Valid() && (!overrun ==> con.BulkValid()) && con.bulkBuffer == old(con.bulkBuffer)
    ensures Seen(con) == AfterNext(con, old(Seen(con)), row)
    ensures overrun == Stops(con, CallBulkNext(row), old(Seen(con))) && took == Takes(con, old(Seen(con)), row)
    ensures rc == if took || overrun then 0 else 1
  {
    SeenNext(con, row);
    ghost var p, f := PlaceOf(LeftBy(con, Seen(con)), row), PlanOf(con, LeftBy(con, Seen(con)), false);
    rc, took, overrun := con.BulkNext(row, p, f);
  }

  method NextShut(con: Connection, row: cstring) returns (rc: int, took: bool, overrun: bool)
    requires con.BulkValid() && (con.bulkBuffer == null || !Usable(con, Seen(con)))
    modifies con, con.bulkBuffer
    ensures con.BulkValid() && con.bulkBuffer == old(con.bulkBuffer)
    ensures Seen(con) == AfterNext(con, old(Seen(con)), row) && !took && !overrun
    ensures rc == if Usable(con, old(Seen(con))) then 1 else 0
  {
    ghost var p, f := con.PlaceOf(|row|), con.Plan(Ready, con.Left(con.state, con.operations), false);
    rc, took, overrun := con.BulkNext(row, p, f);
  }

  method PerformNext(con: Connection, row: cstring) returns (rc: int, took: bool, overrun: bool)
    requires con.BulkValid()
    modifies con, con.bulkBuffer
    ensures con.Valid() && con.bulk.Valid() && (!overrun ==> con.BulkValid()) && con.bulkBuffer == old(con.bulkBuffer)
    ensures Seen(con) == AfterNext(con, old(Seen(con)), row)
    ensures overrun == Stops(con, CallBulkNext(row), old(Seen(con))) && took == Takes(con, old(Seen(con)), row)
    ensures rc == if took || overrun || !Usable(con, old(Seen(con))) then 0 else 1
  {
    if con.bulkBuffer != null && con.Usable(con.state, con.operations) {
      rc, took, overrun := NextOpen(con, row);
    } else {
      rc, took, overrun := NextShut(con, row);
    }
  }

  method PerformDone(con: Connection) returns (rc: int)
    requires con.BulkValid()
    modifies con
    ensures con.BulkValid() && (con.bulkBuffer == null || con.bulkBuffer == old(con.bulkBuffer))
    ensures Seen(con) == AfterDone(con, old(Seen(con)))
    ensures rc == if old(con.bulk.pending) == [] || PlanOf(con, old(Seen(con)), true).Ok() then 0 else 1
    ensures rc == 0 && con.bulkCommitMax != 0 ==> Uncommitted(con.bulk.log) == 0
    ensures rc == 0 ==> con.bulkBuffer == null
  {
    SeenPlan(con, true);
    rc := con.BulkDone(con.Plan(con.state, con.operations, true));
  }

  method Perform(con: Connection, call: Call) returns (stopped: bool)
    requires con.BulkValid()
    modifies con, con.bulkBuffer
    ensures con.Valid() && (!stopped ==> con.BulkValid())
    ensures con.bulkBuffer == null || con.bulkBuffer == old(con.bulkBuffer) || fresh(con.bulkBuffer)
    ensures Seen(con) == Do(con, call, old(Seen(con))) && stopped == Stops(con, call, old(Seen(con)))
  {
    stopped := false;
    if call.CallBulkInit? {
      var _, _ := PerformInit(con, call.header);
    } else if call.CallBulkNext? {
      var _, _, overrun := PerformNext(con, call.row);
      stopped := overrun;
    } else if call.CallBulkDone? {
      var _ := PerformDone(con);
    } else if call.CallMoreResults? || call.CallFetchRow? {
      stopped := PerformResult(con, call);
    } else if call.CallQuery? || call.CallNextResult? {
      PerformQuery(con, call);
    } else if call.CallExecute? || call.CallStmtNextResult? {
      PerformExecute(con, call);
    } else if call.CallPrepare? || call.CallBind? {
      PerformStatement(con, call);
    } else if call.CallFreeResults? {
      PerformFree(con, call);
    } else if call.CallCloseStatement? {
      PerformCloseStatement(con, call);
    } else if call.CallClose? {
      PerformClose(con, call);
    } else {
      PerformReconnect(con, call);
    }
  }

  method TraceCalls(con: Connection, calls: seq<Call>) returns (ghost trace: seq<Snapshot>, stopped: bool)
    requires con.BulkValid()
    modifies con, con.bulkBuffer
    ensures Follows(con, calls, trace) && trace[0] == old(Seen(con)) && trace[|trace| - 1] == Seen(con)
    ensures forall i :: 0 <= i < |trace| - 1 ==>
      (Stops(con, calls[i], trace[i]) <==> stopped && i == |trace| - 2)
    ensures if stopped then |trace| > 1 else |trace| == |calls| + 1
  {
    trace, stopped := [Seen(con)], false;
    for k := 0 to |calls|
      invariant !stopped && con.BulkValid() && |trace| == k + 1
      invariant con.bulkBuffer == null || con.bulkBuffer == old(con.bulkBuffer) || fresh(con.bulkBuffer)
      invariant Follows(con, calls, trace) && trace[0] == old(Seen(con)) && trace[k] == Seen(con)
      invariant forall i :: 0 <= i < k ==> !Stops(con, calls[i], trace[i])
    {
      stopped := Perform(con, calls[k]);
      trace := trace + [Seen(con)];
      if stopped {
        break;
      }
    }
  }

  /**
    Any sequence of calls on any connection and driver: the trace is what the
    calls lead through, and it ends early exactly at a call that stops. Along
    it one result set is open in state ResultSet and none otherwise, row values
    are allocated only then and one per field, and once the connection is
    invalid it stays so and the driver is left alone. As many result sets are
    opened as statements run, each by an operation of its own, are answered
    without an error and with rows.
  */
  method RunCalls(con: Connection, calls: seq<Call>) returns (ghost trace: seq<Snapshot>, stopped: bool)
    requires con.BulkValid()
    modifies con, con.bulkBuffer
    ensures Follows(con, calls, trace) && trace[0] == old(Seen(con)) && trace[|trace| - 1] == Seen(con)
    ensures forall i :: 0 <= i < |trace| - 1 ==>
      (Stops(con, calls[i], trace[i]) <==> stopped && i == |trace| - 2)
    ensures if stopped then |trace| > 1 else |trace| == |calls| + 1
    ensures forall i, j :: 0 <= i <= j < |trace| ==>
      trace[j].core.Right() && Dead(trace[i].core, trace[j].core)
    ensures var runs := AllRuns(con, calls, trace, |trace| - 1);
      && con.resultSets == old(con.resultSets) + Reads(con, runs)
      && Ascending(runs, old(con.operations), con.operations)
  {
    ghost var before := con.Now();
    assert before.Right();
    trace, stopped := TraceCalls(con, calls);
    forall i, j | 0 <= i <= j < |trace|
      ensures trace[j].core.Right() && Dead(trace[i].core, trace[j].core)
    {
      RunRight(con, calls, trace, i, j);
    }
    RunReads(con, calls, trace, |trace| - 1);
    AllRunsAscend(con, calls, trace, |trace| - 1);
  }
}
