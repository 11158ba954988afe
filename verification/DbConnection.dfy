/**
  A database connection of the driver layer: its state machine around result
  sets, and the multi-row insert that collects rows in a buffer. The driver
  behind it is arbitrary: `answers` is any function from the number of a
  driver operation to what that operation returns.
*/
module DbConnection {
  import opened BulkInsert
  import opened Machine
  import opened Wrappers

  const BULK_PACKET_SIZE: nat := 524288
  const ROWS_BEFORE_COMMIT: nat := 1000

  datatype ConnState = Ready | ResultSet | Invalid
  datatype DbError = NoError | Ignorable | Fatal
  datatype Counter = Other | Read | Write | Error

  /** Which optional operations the driver implements, and whether it needs explicit commits. */
  datatype Driver = Driver(
    reconnect: bool, stmtNextResult: bool, fetchRow: bool, moreResults: bool, nextResult: bool, describes: bool,
    needsCommit: bool)

  /** What a driver operation returns; each operation uses the parts that it has. */
  datatype Answer = Answer(rc: int, error: DbError, counter: Counter, nrows: nat, nfields: nat, more: bool)

  /** A result set comes with an execution or query without error that reads. */
  predicate Opens(a: Answer) {
    a.error == NoError && a.counter == Read
  }

  predicate Good(a: Answer) {
    a.rc == 0 && a.error == NoError
  }

  /**
    What a connection is apart from its multi-row insert; `resultSets` counts
    the result sets that the driver has opened, `releases` those it has freed.
  */
  datatype Core = Core(
    state: ConnState, resultSets: nat, releases: nat, nrows: nat, nfields: nat, rowValues: Option<nat>,
    operations: nat)
  {
    /** One result set is open in state ResultSet and none otherwise; row values fit it. */
    predicate Right() {
      && resultSets == releases + (if state == ResultSet then 1 else 0)
      && (rowValues.Some? ==> state == ResultSet && rowValues.value == nfields)
    }
  }

  /** The driver was left alone since `c`, if the connection was invalid then. */
  predicate Dead(c: Core, d: Core) {
    c.state == Invalid ==> d.state == Invalid && d.operations == c.operations
  }

  /** What a call that runs a statement leaves behind. */
  datatype Effect = Effect(state: ConnState, operations: nat, error: DbError, rs: bool)

  // ---------------------------------------------------------------------
  // The connection
  // ---------------------------------------------------------------------

  class Connection {
    const driver: Driver
    const answers: nat -> Answer

    var error: DbError
    var state: ConnState

    // rs: the result set
    var counter: Counter
    var nrows: nat
    var nfields: nat
    var statement: Option<nat>
    var rowValues: Option<nat>        // row.values, as the number of values it has room for

    var operations: nat               // driver operations so far

    // History: result sets opened by the driver and calls of its free_results.
    ghost var resultSets: nat
    ghost var releases: nat
    ghost var sent: seq<string>       // the queries that the driver has run without an error

    /**
      Exactly in state ResultSet one result set is open, and row values are
      allocated only for them and with one value per field.
    */
    ghost predicate Valid()
      reads `resultSets, `releases, `state, `rowValues, `nfields
    {
      && resultSets == releases + (if state == ResultSet then 1 else 0)
      && (rowValues.Some? ==> state == ResultSet && rowValues.value == nfields)
    }

    /** A connection that was invalid has stayed so, and the driver has not been called. */
    ghost predicate Frozen(before: ConnState, ops: nat)
      reads `state, `operations
    {
      && (before == Invalid ==> state == Invalid && operations == ops)
      && operations >= ops
    }

    // How most calls begin: a result set is freed first. In the functions
    // below `s` is the state and `n` the number of operations at the start.

    predicate Usable(s: ConnState, n: nat) {
      s == Ready || (s == ResultSet && answers(n).rc == 0)
    }

    function Left(s: ConnState, n: nat): nat {
      if s == ResultSet then n + 1 else n
    }

    /** What a call leaves that runs a statement; `unusable` is its error if it cannot. */
    function Ran(s: ConnState, n: nat, supported: bool, unusable: DbError): Effect {
      var n' := Left(s, n);
      if !Usable(s, n) then Effect(if s == Invalid then Invalid else Ready, n', unusable, false)
      else if !supported then Effect(Ready, n', NoError, false)
      else
        var a := answers(n');
        Effect(if Opens(a) then ResultSet else Ready, n' + 1, a.error, Opens(a))
    }

    ghost function Now(): Core
      reads `state, `resultSets, `releases, `nrows, `nfields, `rowValues, `operations
    {
      Core(state, resultSets, releases, nrows, nfields, rowValues, operations)
    }

    // The same on everything that a connection is.

    function Freed(c: Core): Core {
      c.(state := Ready, releases := c.releases + 1, nrows := 0, nfields := 0, rowValues := None,
         operations := c.operations + 1)
    }

    function LeftCore(c: Core): Core {
      if c.state == ResultSet then Freed(c) else c
    }

    /** After the driver has run a statement. */
    function Asked(c: Core): Core {
      var a := answers(c.operations);
      c.(state := if Opens(a) then ResultSet else c.state,
         resultSets := if a.error == NoError && a.counter == Read then c.resultSets + 1 else c.resultSets,
         nrows := a.nrows, nfields := a.nfields, operations := c.operations + 1)
    }

    function RanCore(c: Core, supported: bool): Core {
      if Usable(c.state, c.operations) && supported then Asked(LeftCore(c)) else LeftCore(c)
    }

    /** After a flush that commits if that is `due`. */
    function FlushCore(c: Core, due: bool): Core {
      var d := RanCore(c, true);
      if due && Ran(c.state, c.operations, true, Fatal).error == NoError then RanCore(d, true) else d
    }

    lemma RanCoreState(c: Core)
      ensures RanCore(c, true).state == Ran(c.state, c.operations, true, Fatal).state
      ensures RanCore(c, true).operations == Ran(c.state, c.operations, true, Fatal).operations
    {
    }

    lemma RanCoreRight(c: Core, supported: bool)
      requires c.Right()
      ensures RanCore(c, supported).Right() && Dead(c, RanCore(c, supported))
      ensures RanCore(c, supported).state == Invalid <==> c.state == Invalid
    {
    }

    lemma FlushCoreRight(c: Core, due: bool)
      requires c.Right()
      ensures FlushCore(c, due).Right() && Dead(c, FlushCore(c, due))
      ensures FlushCore(c, due).state == Invalid <==> c.state == Invalid
    {
      RanCoreRight(c, true);
      RanCoreRight(RanCore(c, true), true);
    }

    /** The driver never fails. */
    ghost predicate Cooperative() {
      forall n: nat :: Good(answers(n))
    }

    lemma CooperativeGoes(s: ConnState, n: nat)
      requires Cooperative() && s != Invalid
      ensures Usable(s, n) && Ran(s, n, true, Fatal).error == NoError && CommitGoes(s, n)
    {
      assert Good(answers(n)) && Good(answers(Left(s, n)));
      var e := Ran(s, n, true, Fatal);
      assert Good(answers(e.operations)) && Good(answers(Left(e.state, e.operations)));
    }

    constructor (d: Driver, a: nat -> Answer)
      ensures BulkValid() && driver == d && answers == a && state == Ready && operations == 1 && sent == []
      ensures bulkBuffer == null
    {
      driver, answers := d, a;
      error, state := NoError, Ready;
      counter, nrows, nfields, statement, rowValues := Other, 0, 0, None, None;
      operations, resultSets, releases, sent := 1, 0, 0, [];
      bulkCnt, bulkBuflen, bulkBuffer, bulkPtr, bulkValues, bulkCommitCnt, bulkCommitMax := 0, 0, null, 0, 0, 0, 0;
      bulk := Bulk("", [], [], [], false);
    }

    /** `db_free_results_int` */
    method FreeResultsInt() returns (rc: int)
      requires Valid() && state == ResultSet
      modifies `state, `nrows, `nfields, `statement, `rowValues, `releases, `operations
      ensures Valid() && state == Ready && releases == old(releases) + 1 && operations == old(operations) + 1
      ensures rc == answers(old(operations)).rc && Now() == Freed(old(Now())) && statement.None?
    {
      rc := answers(operations).rc;
      releases, operations := releases + 1, operations + 1;
      rowValues := None;
      nrows, nfields := 0, 0;
      statement := None;
      state := Ready;
    }

    /** How most calls begin: a result set is freed; a dead connection or a failure ends the call. */
    method LeaveResultSet() returns (usable: bool)
      requires Valid()
      modifies `state, `nrows, `nfields, `statement, `rowValues, `releases, `operations
      ensures Valid() && Frozen(old(state), old(operations))
      ensures usable == Usable(old(state), old(operations)) && Now() == LeftCore(old(Now()))
    {
      if state == Invalid {
        return false;
      } else if state == ResultSet {
        var rc := FreeResultsInt();
        return rc == 0;
      }
      return true;
    }

    /** The end of execute, query and the two next-result calls: the driver's answer decides the state. */
    method Outcome() returns (rs: bool)
      requires Valid() && state == Ready
      modifies `error, `state, `counter, `nrows, `nfields, `resultSets, `operations
      ensures Valid()
      ensures Effect(state, operations, error, rs) == Ran(Ready, old(operations), true, NoError)
      ensures Now() == Asked(old(Now()))
    {
      var a := answers(operations);
      operations := operations + 1;
      error, counter, nrows, nfields := a.error, a.counter, a.nrows, a.nfields;
      if a.error == NoError && a.counter == Read {
        resultSets := resultSets + 1;
      }
      rs := false;
      if error == NoError {
        if counter == Read {
          state := ResultSet;
          rs := true;
        } else {
          state := Ready;
        }
      }
    }

    /** `db_execute` */
    method Execute(stmt: nat) returns (rs: bool)
      requires Valid()
      modifies `error, `state, `counter, `nrows, `nfields, `statement, `rowValues, `resultSets, `releases, `operations
      ensures Valid() && Frozen(old(state), old(operations))
      ensures Effect(state, operations, error, rs) == Ran(old(state), old(operations), true, old(error))
      ensures rs == (state == ResultSet) && (rs <==>
        && Usable(old(state), old(operations))
        && answers(Left(old(state), old(operations))).error == NoError
        && answers(Left(old(state), old(operations))).counter == Read)
      ensures Usable(old(state), old(operations)) ==> statement == Some(stmt)
      ensures Now() == RanCore(old(Now()), true)
    {
      var usable := LeaveResultSet();
      if !usable {
        return false;
      }
      statement := Some(stmt);
      rs := Outcome();
    }

    /** `db_stmt_next_result` */
    method StmtNextResult(stmt: nat) returns (rs: bool)
      requires Valid()
      modifies `error, `state, `counter, `nrows, `nfields, `statement, `rowValues, `resultSets, `releases, `operations
      ensures Valid() && Frozen(old(state), old(operations))
      ensures Effect(state, operations, error, rs)
           == Ran(old(state), old(operations), driver.stmtNextResult, old(error))
      ensures rs == (state == ResultSet) && (rs <==>
        && Usable(old(state), old(operations)) && driver.stmtNextResult
        && answers(Left(old(state), old(operations))).error == NoError
        && answers(Left(old(state), old(operations))).counter == Read)
      ensures Usable(old(state), old(operations)) ==> statement == Some(stmt)
      ensures Now() == RanCore(old(Now()), driver.stmtNextResult)
    {
      var usable := LeaveResultSet();
      if !usable {
        return false;
      }
      statement := Some(stmt);
      if !driver.stmtNextResult {
        error := NoError;
        return false;
      }
      rs := Outcome();
    }

    /** `db_query` */
    method Query(text: string) returns (rs: bool)
      requires Valid()
      modifies `error, `state, `counter, `nrows, `nfields, `statement, `rowValues
      modifies `resultSets, `releases, `operations, `sent
      ensures Valid() && Frozen(old(state), old(operations))
      ensures Effect(state, operations, error, rs) == Ran(old(state), old(operations), true, Fatal)
      ensures rs == (state == ResultSet) && (rs <==>
        && Usable(old(state), old(operations))
        && answers(Left(old(state), old(operations))).error == NoError
        && answers(Left(old(state), old(operations))).counter == Read)
      ensures sent == if error == NoError then old(sent) + [text] else old(sent)
      ensures Now() == RanCore(old(Now()), true)
    {
      var usable := LeaveResultSet();
      if !usable {
        error := Fatal;
        return false;
      }
      rs := Outcome();
      if error == NoError {
        sent := sent + [text];
      }
    }

    /** `db_next_result` */
    method NextResult() returns (rs: bool)
      requires Valid()
      modifies `error, `state, `counter, `nrows, `nfields, `statement, `rowValues, `resultSets, `releases, `operations
      ensures Valid() && Frozen(old(state), old(operations))
      ensures Effect(state, operations, error, rs) == Ran(old(state), old(operations), driver.nextResult, Fatal)
      ensures rs == (state == ResultSet) && (rs <==>
        && Usable(old(state), old(operations)) && driver.nextResult
        && answers(Left(old(state), old(operations))).error == NoError
        && answers(Left(old(state), old(operations))).counter == Read)
      ensures Now() == RanCore(old(Now()), driver.nextResult)
    {
      var usable := LeaveResultSet();
      if !usable {
        error := Fatal;
        return false;
      }
      if !driver.nextResult {
        error := NoError;
        return false;
      }
      rs := Outcome();
    }

    /** `db_more_results`: the driver is asked only about an open result set. */
    method MoreResults() returns (more: bool)
      requires Valid()
      modifies `operations
      ensures Valid() && Frozen(old(state), old(operations))
      ensures var asked := state == ResultSet && driver.moreResults;
        && operations == old(operations) + (if asked then 1 else 0)
        && more == (asked && answers(old(operations)).more)
    {
      if state == Invalid {
        return false;
      }
      if state != ResultSet || !driver.moreResults {
        return false;
      }
      more := answers(operations).more;
      operations := operations + 1;
    }

    /**
      `db_fetch_row`. The code notices that the driver cannot fetch rows but
      then calls the missing operation: `crashed` tells that it gets there.
    */
    method FetchRow() returns (row: bool, crashed: bool)
      requires Valid()
      modifies `rowValues, `operations
      ensures Valid() && Frozen(old(state), old(operations))
      ensures var asked := state == ResultSet && nrows > 0 && nfields > 0;
        && crashed == (asked && !driver.fetchRow)
        && operations == old(operations) + (if asked && driver.fetchRow then 1 else 0)
        && row == (asked && driver.fetchRow && answers(old(operations)).rc == 0)
        && rowValues == if asked then Some(nfields) else old(rowValues)
    {
      if state == Invalid {
        return false, false;
      } else if state != ResultSet {
        return false, false;
      }
      if nrows == 0 || nfields == 0 {
        return false, false;
      }
      if rowValues.None? {
        rowValues := Some(nfields);
      }
      if !driver.fetchRow {
        return false, true;
      }
      row, crashed := answers(operations).rc == 0, false;
      operations := operations + 1;
    }

    /** `db_free_results` */
    method FreeResults() returns (rc: int)
      requires Valid()
      modifies `state, `nrows, `nfields, `statement, `rowValues, `releases, `operations
      ensures Valid() && Frozen(old(state), old(operations))
      ensures old(state) == ResultSet ==>
        state == Ready && releases == old(releases) + 1 && rc == answers(old(operations)).rc
      ensures old(state) != ResultSet ==>
        rc == 1 && state == old(state) && releases == old(releases) && operations == old(operations)
      ensures Now() == LeftCore(old(Now()))
    {
      if state == Invalid {
        return 1;
      } else if state != ResultSet {
        return 1;
      }
      rc := FreeResultsInt();
    }

    /** `db_prepare`; a statement is represented by its success. */
    method Prepare() returns (ok: bool)
      requires Valid()
      modifies `error, `operations
      ensures Valid() && Frozen(old(state), old(operations))
      ensures ok == (state != Invalid && answers(old(operations)).rc == 0)
      ensures error == if state != Invalid && !ok then Fatal else old(error)
      ensures operations == old(operations) + (if state == Invalid then 0 else 1)
    {
      if state == Invalid {
        return false;
      }
      var rc := answers(operations).rc;
      operations := operations + 1;
      if rc != 0 {
        error := Fatal;
        return false;
      }
      return true;
    }

    /** `db_bind_param` and `db_bind_result` */
    method Bind() returns (rc: int)
      requires Valid()
      modifies `operations
      ensures Valid() && Frozen(old(state), old(operations))
      ensures rc == if state == Invalid then 1 else answers(old(operations)).rc
      ensures operations == old(operations) + (if state == Invalid then 0 else 1)
    {
      if state == Invalid {
        return 1;
      }
      rc := answers(operations).rc;
      operations := operations + 1;
    }

    /** `db_close`: no result set is open when the driver closes the statement. */
    method CloseStatement() returns (rc: int, closed: bool)
      requires Valid()
      modifies `state, `nrows, `nfields, `statement, `rowValues, `releases, `operations
      ensures Valid() && Frozen(old(state), old(operations))
      ensures state == if old(state) == Invalid then Invalid else Ready
      ensures closed == Usable(old(state), old(operations)) && (closed ==> resultSets == releases)
      ensures operations == Left(old(state), old(operations)) + (if closed then 1 else 0)
      ensures rc == if closed then answers(operations - 1).rc else if old(state) == Invalid then 0 else 2
      ensures Now() == LeftCore(old(Now())).(operations := operations)
    {
      closed := false;
      if state == Invalid {
        return 0, false;
      } else if state == ResultSet {
        var freeRc := FreeResultsInt();
        if freeRc != 0 {
          return 2, false;
        }
      }
      // The code tests the state a second time here; by now it is always Ready.
      assert state == Ready;
      rc, closed := answers(operations).rc, true;
      operations := operations + 1;
    }

    /** `db_connection_close` */
    method Close() returns (rc: int)
      requires Valid()
      modifies `state, `nrows, `nfields, `statement, `rowValues, `releases, `operations
      ensures Valid() && Frozen(old(state), old(operations))
      ensures state == Invalid && resultSets == releases
      ensures old(state) != Invalid ==> operations == Left(old(state), old(operations)) + 1
      ensures rc == if old(state) == Invalid then 0 else answers(operations - 1).rc
      ensures old(state) != Invalid ==> Now() == LeftCore(old(Now())).(operations := operations, state := Invalid)
      ensures old(state) == Invalid ==> Now() == old(Now())
    {
      if state == Invalid {
        return 0;
      } else if state == ResultSet {
        var ignored := FreeResultsInt();
      }
      rc := answers(operations).rc;
      operations := operations + 1;
      state := Invalid;
    }

    /** `db_connection_reconnect` */
    method Reconnect() returns (rc: DbError)
      requires Valid()
      modifies `state, `nrows, `nfields, `statement, `rowValues, `releases, `operations
      ensures Valid() && Frozen(old(state), old(operations))
      ensures !driver.reconnect || old(state) == Invalid ==>
        rc == NoError && Now() == old(Now())
      ensures driver.reconnect && old(state) != Invalid ==>
        var n := Left(old(state), old(operations));
        && operations == n + 1 && rc == (if answers(n).error == Fatal then Fatal else NoError)
        && Now() == LeftCore(old(Now())).(operations := n + 1, state := if rc == Fatal then Invalid else Ready)
    {
      if !driver.reconnect {
        return NoError;
      }
      if state == Invalid {
        return NoError;
      } else if state == ResultSet {
        var ignored := FreeResultsInt();
      }
      rc := answers(operations).error;
      operations := operations + 1;
      if rc == Fatal {
        state := Invalid;
      } else {
        state := Ready;
        rc := NoError;
      }
    }

    // -------------------------------------------------------------------
    // Multi-row insert
    // -------------------------------------------------------------------

    var bulkCnt: nat
    var bulkBuflen: nat
    var bulkBuffer: array?<char>
    var bulkPtr: nat
    var bulkValues: nat
    var bulkCommitCnt: nat
    var bulkCommitMax: nat

    ghost var bulk: Bulk

    /** What the buffer holds. */
    ghost predicate BufferValid()
      reads `bulkCnt, `bulkBuflen, `bulkBuffer, `bulkPtr, `bulkValues, `bulk, bulkBuffer
    {
      var text := Insert(bulk.header, bulk.pending);
      && bulkCnt == |bulk.pending|
      && (bulkBuffer == null ==> bulkCnt == 0)
      && (bulkBuffer != null ==>
            && bulkBuffer.Length == bulkBuflen
            && bulkValues == |bulk.header| && bulkPtr == |text| < bulkBuflen
            && bulkBuffer[..bulkPtr] == text && NUL !in text
            && (bulkCnt > 0 ==> bulkBuffer[bulkPtr] == NUL))
    }

    /** Uncommitted rows are counted exactly and stay below the limit. */
    ghost predicate CommitValid()
      reads `bulkCommitMax, `bulkCommitCnt, `bulk
    {
      && (bulkCommitMax == 0 || bulkCommitMax == ROWS_BEFORE_COMMIT)
      && bulkCommitCnt == (if bulkCommitMax == 0 then 0 else Uncommitted(bulk.log))
      && (bulkCommitMax != 0 && !bulk.failed ==> bulkCommitCnt < bulkCommitMax)
    }

    /** What holds between calls: in particular, an empty buffer leaves nothing uncommitted. */
    ghost predicate BulkValid()
      reads this, bulkBuffer
    {
      && Valid() && BufferValid() && bulk.Valid() && CommitValid()
      && (bulkCommitCnt > 0 ==> bulkCnt > 0)
    }

    static method Strcpy(buf: array<char>, at: nat, s: cstring)
      requires at + |s| < buf.Length
      modifies buf
      ensures buf[..at] == old(buf[..at])
      ensures buf[at..at + |s|] == s && buf[at + |s|] == NUL
    {
      forall i | 0 <= i < |s| {
        buf[at + i] := s[i];
      }
      buf[at + |s|] := NUL;
    }

    static method NewBuffer(query: cstring) returns (buffer: array<char>)
      requires |query| + 1 <= BULK_PACKET_SIZE
      ensures fresh(buffer) && buffer.Length == BULK_PACKET_SIZE && buffer[..|query|] == query
    {
      buffer := new char[BULK_PACKET_SIZE];
      Strcpy(buffer, 0, query);
      assert buffer[..|query|] == buffer[0..0 + |query|];
    }

    /** The part of `db_bulk_insert_init` after its checks. */
    method StartBulk(query: cstring)
      requires Valid() && |query| + 1 <= BULK_PACKET_SIZE
      modifies `bulkCnt, `bulkBuflen, `bulkBuffer, `bulkPtr, `bulkValues, `bulkCommitCnt, `bulkCommitMax, `bulk
      ensures BulkValid() && bulkBuffer != null && fresh(bulkBuffer) && bulkBuflen == BULK_PACKET_SIZE
      ensures bulk == Bulk(query, [], [], [], false)
      ensures bulkCommitMax == if driver.needsCommit then ROWS_BEFORE_COMMIT else 0
    {
      EmptyInsert(query);
      var buffer := NewBuffer(query);
      bulkBuflen, bulkBuffer := BULK_PACKET_SIZE, buffer;
      bulkCommitMax, bulkCommitCnt := if driver.needsCommit then ROWS_BEFORE_COMMIT else 0, 0;
      bulkPtr, bulkValues, bulkCnt := |query|, |query|, 0;
      bulk := Bulk(query, [], [], [], false);
    }

    /** `db_bulk_insert_init`; `started` tells whether there is a new buffer. */
    method BulkInit(query: cstring) returns (rc: int, started: bool)
      requires Valid()
      modifies `state, `nrows, `nfields, `statement, `rowValues, `releases, `operations
      modifies `bulkCnt, `bulkBuflen, `bulkBuffer, `bulkPtr, `bulkValues, `bulkCommitCnt, `bulkCommitMax, `bulk
      ensures Valid() && Frozen(old(state), old(operations)) && (state == Invalid <==> old(state) == Invalid)
      ensures started == (Usable(old(state), old(operations)) && driver.describes && |query| < BULK_PACKET_SIZE)
      ensures rc == if started || !Usable(old(state), old(operations)) then 0 else 1
      ensures started ==> BulkValid() && bulkBuffer != null && fresh(bulkBuffer)
      ensures Now() == LeftCore(old(Now()))
      ensures started ==> bulk == Bulk(query, [], [], [], false) && bulkBuflen == BULK_PACKET_SIZE
      ensures started ==> bulkCommitMax == if driver.needsCommit then ROWS_BEFORE_COMMIT else 0
      ensures !started ==> unchanged(`bulkCnt, `bulkBuflen, `bulkBuffer, `bulkPtr, `bulkValues)
      ensures !started ==> unchanged(`bulkCommitCnt, `bulkCommitMax, `bulk)
    {
      var usable := LeaveResultSet();
      if !usable {
        return 0, false;
      }
      if !driver.describes {
        return 1, false;
      }
      if |query| + 1 > BULK_PACKET_SIZE {
        return 1, false;
      }
      StartBulk(query);
      return 0, true;
    }

    /** Whether the COMMIT goes through that follows a query started in state `s`. */
    predicate CommitGoes(s: ConnState, n: nat) {
      var e := Ran(s, n, true, Fatal);
      Ran(e.state, e.operations, true, Fatal).error == NoError
    }

    /** Whether a flush must commit. */
    ghost predicate Due(isLast: bool)
      reads `bulkCommitMax, `bulkCommitCnt, `bulkCnt
    {
      bulkCommitMax != 0 && (isLast || bulkCommitCnt + bulkCnt >= bulkCommitMax)
    }

    /** How a flush would go that starts in state `s` with `n` operations behind it. */
    ghost function Plan(s: ConnState, n: nat, isLast: bool): Flush
      reads `bulkCommitMax, `bulkCommitCnt, `bulkCnt
    {
      Flush(Ran(s, n, true, Fatal).error == NoError, Due(isLast), CommitGoes(s, n))
    }

    /** The INSERT of the buffered rows; also a driver that reads up to the NUL sees just them. */
    method SendBatch() returns (ok: bool)
      requires Valid() && BufferValid() && bulkCnt > 0
      modifies `error, `state, `counter, `nrows, `nfields, `statement, `rowValues
      modifies `resultSets, `releases, `operations, `sent
      ensures Valid()
      ensures Now() == RanCore(old(Now()), true)
      ensures ok == (Ran(old(state), old(operations), true, Fatal).error == NoError)
      ensures CString(bulkBuffer[..]) == Insert(bulk.header, bulk.pending)
      ensures sent == if ok then old(sent) + [Insert(bulk.header, bulk.pending)] else old(sent)
    {
      CStringEnds(bulkBuffer[..], bulkPtr);
      var rs := Query(bulkBuffer[..bulkPtr]);
      ok := rs || error == NoError;
    }

    /** The COMMIT, if one is due; `left` is the number of rows uncommitted afterwards. */
    method CommitIfDue(isLast: bool) returns (ok: bool, left: nat)
      requires Valid()
      modifies `error, `state, `counter, `nrows, `nfields, `statement, `rowValues
      modifies `resultSets, `releases, `operations, `sent
      ensures Valid()
      ensures ok == (Due(isLast) ==> Ran(old(state), old(operations), true, Fatal).error == NoError)
      ensures Now() == if Due(isLast) then RanCore(old(Now()), true) else old(Now())
      ensures left == (if bulkCommitMax == 0 || (Due(isLast) && ok) then 0 else bulkCommitCnt + bulkCnt)
      ensures sent == if Due(isLast) && ok then old(sent) + [COMMIT] else old(sent)
    {
      ok, left := true, 0;
      if bulkCommitMax != 0 {
        left := bulkCommitCnt + bulkCnt;
        if isLast || left >= bulkCommitMax {
          var rs := Query(COMMIT);
          ok := rs || error == NoError;
          if ok {
            left := 0;
          }
        }
      }
    }

    /** The buffer is cut back to the header. */
    method CutBuffer(ghost next: Bulk)
      requires BufferValid() && bulkBuffer != null && next.header == bulk.header && next.pending == []
      modifies `bulkCnt, `bulkPtr, `bulk
      ensures BufferValid() && bulkCnt == 0 && bulkPtr == |bulk.header| && bulk == next
    {
      EmptyInsert(bulk.header);
      assert bulkBuffer[..bulkValues] == bulkBuffer[..bulkPtr][..bulkValues];
      bulkPtr := bulkValues;
      bulkCnt := 0;
      bulk := next;
    }

    /** After a successful INSERT and the COMMIT that may follow it. */
    method Settle(ok: bool, left: nat, ghost f: Flush)
      requires BufferValid() && bulk.Valid() && CommitValid() && bulkCnt > 0
      requires f.inserts && ok == f.Ok() && (f.due ==> bulkCommitMax != 0)
      requires !f.due && bulkCommitMax != 0 ==> bulkCommitCnt + bulkCnt < bulkCommitMax
      requires left == if bulkCommitMax == 0 || (f.due && ok) then 0 else bulkCommitCnt + bulkCnt
      modifies `bulkCnt, `bulkPtr, `bulkCommitCnt, `bulk
      ensures BufferValid() && bulk.Valid() && CommitValid() && bulkCommitCnt == left
      ensures bulk == old(bulk).After(f) && (ok ==> bulkCnt == 0 && bulkPtr == |bulk.header|)
      ensures !ok ==> bulkCnt == old(bulkCnt)
      ensures Now() == old(Now()) && sent == old(sent)
    {
      bulk.AfterValid(f);
      bulk.AfterCount(f, bulkCommitMax, bulkCommitCnt, left);
      bulkCommitCnt := left;
      if ok {
        CutBuffer(bulk.After(f));
      } else {
        bulk := bulk.After(f);
      }
    }

    /** The end of `db_bulk_do_insert`, after a successful INSERT. */
    method CommitAndCut(isLast: bool, ghost f: Flush) returns (rc: int)
      requires Valid() && BufferValid() && bulk.Valid() && CommitValid() && bulkCnt > 0
      requires f == Flush(true, Due(isLast), Ran(state, operations, true, Fatal).error == NoError)
      modifies `error, `state, `counter, `nrows, `nfields, `statement, `rowValues
      modifies `resultSets, `releases, `operations, `sent, `bulkCnt, `bulkPtr, `bulkCommitCnt, `bulk
      ensures Valid()
      ensures BufferValid() && bulk.Valid() && CommitValid()
      ensures rc == (if f.Ok() then 0 else 1) && bulk == old(bulk).After(f)
      ensures sent == if f.due && f.commits then old(sent) + [COMMIT] else old(sent)
      ensures rc == 0 ==> bulkCnt == 0 && bulkPtr == |bulk.header| && (isLast ==> bulkCommitCnt == 0)
      ensures rc != 0 ==> bulkCnt == old(bulkCnt)
      ensures Now() == if f.due then RanCore(old(Now()), true) else old(Now())
    {
      var ok, left := CommitIfDue(isLast);
      Settle(ok, left, f);
      rc := if ok then 0 else 1;
    }

    /** `db_bulk_do_insert` for a buffer that is not empty. */
    method FlushRows(isLast: bool, ghost f: Flush) returns (rc: int)
      requires Valid() && BufferValid() && bulk.Valid() && CommitValid() && bulkCnt > 0
      requires f == Plan(state, operations, isLast)
      modifies `error, `state, `counter, `nrows, `nfields, `statement, `rowValues
      modifies `resultSets, `releases, `operations, `sent, `bulkCnt, `bulkPtr, `bulkCommitCnt, `bulk
      ensures Valid()
      ensures BufferValid() && bulk.Valid() && CommitValid()
      ensures rc == (if f.Ok() then 0 else 1) && bulk == old(bulk).After(f)
      ensures sent == f.Sends(old(sent), old(bulk).header, old(bulk).pending)
      ensures rc == 0 ==> bulkCnt == 0 && bulkPtr == |bulk.header| && (isLast ==> bulkCommitCnt == 0)
      ensures rc != 0 ==> bulkCnt == old(bulkCnt)
      ensures Now() == FlushCore(old(Now()), f.due)
    {
      AppendTwo(sent, Insert(bulk.header, bulk.pending), COMMIT);
      RanCoreState(Now());
      var ok := SendBatch();
      if !ok {
        return 1;
      }
      rc := CommitAndCut(isLast, f);
    }

    /**
      `db_bulk_do_insert`. On failure the rows stay in the buffer, also when
      their INSERT went through and only the COMMIT failed.
    */
    method DoInsert(isLast: bool, ghost f: Flush) returns (rc: int)
      requires BulkValid() && f == Plan(state, operations, isLast)
      modifies `error, `state, `counter, `nrows, `nfields, `statement, `rowValues
      modifies `resultSets, `releases, `operations, `sent, `bulkCnt, `bulkPtr, `bulkCommitCnt, `bulk
      ensures Valid()
      ensures BufferValid() && bulk.Valid() && CommitValid()
      ensures old(bulkCnt) == 0 ==> rc == 0 && bulk == old(bulk) && sent == old(sent)
      ensures old(bulkCnt) > 0 ==>
        && rc == (if f.Ok() then 0 else 1) && bulk == old(bulk).After(f)
        && sent == f.Sends(old(sent), old(bulk).header, old(bulk).pending)
      ensures rc == 0 ==> bulkCnt == 0 && (isLast ==> bulkCommitCnt == 0)
      ensures rc == 0 && old(bulkCnt) > 0 ==> bulkPtr == |bulk.header|
      ensures rc != 0 ==> bulkCnt > 0
      ensures Now() == if old(bulkCnt) > 0 then FlushCore(old(Now()), f.due) else old(Now())
    {
      if bulkCnt == 0 {
        return 0;
      }
      rc := FlushRows(isLast, f);
    }

    /** Copies a row to `ptr`, after a comma if asked for, and returns the new end. */
    static method PutRow(buf: array<char>, ptr: nat, comma: bool, row: cstring) returns (end: nat)
      requires ptr + |row| + 1 + (if comma then 1 else 0) <= buf.Length
      modifies buf
      ensures end < buf.Length && buf[end] == NUL
      ensures buf[..end] == old(buf[..ptr]) + (if comma then "," else "") + row
    {
      ghost var text := buf[..ptr];
      if comma {
        buf[ptr] := ',';
        assert buf[..ptr + 1] == text + ",";
        Strcpy(buf, ptr + 1, row);
        end := ptr + |row| + 1;
        assert buf[..end] == buf[..ptr + 1] + buf[ptr + 1..end];
      } else {
        Strcpy(buf, ptr, row);
        end := ptr + |row|;
        assert buf[..end] == buf[..ptr] + buf[ptr..end];
      }
    }

    /** The end of `db_bulk_insert_next`: the row joins those in the buffer. */
    method AppendRow(row: cstring)
      requires BufferValid() && bulk.Valid() && bulkBuffer != null
      requires bulkPtr + |row| + 1 + (if bulkCnt > 0 then 1 else 0) <= bulkBuflen
      modifies `bulkCnt, `bulkPtr, `bulk, bulkBuffer
      ensures BufferValid() && bulk.Valid() && bulk == old(bulk).With(row)
    {
      InsertNext(bulk.header, bulk.pending, row);
      bulk.WithValid(row);
      bulkPtr := PutRow(bulkBuffer, bulkPtr, bulkCnt > 0, row);
      bulkCnt := bulkCnt + 1;
      bulk := bulk.With(row);
    }

    /** The same if the row ends inside the buffer. */
    method WriteInside(row: cstring, end: nat) returns (inside: bool)
      requires Valid() && BufferValid() && bulk.Valid() && CommitValid() && bulkBuffer != null
      requires end == bulkPtr + |row| + 1 + (if bulkCnt > 0 then 1 else 0)
      modifies `bulkCnt, `bulkPtr, `bulk, bulkBuffer
      ensures inside == (end <= bulkBuflen) && bulk.Valid()
      ensures inside ==> BulkValid()
      ensures bulk == if inside then old(bulk).With(row) else old(bulk)
      ensures Now() == old(Now()) && sent == old(sent)
    {
      inside := end <= bulkBuflen;
      if inside {
        AppendRow(row);
      }
    }

    /** What the size check decides about a row of the given length. */
    ghost function PlaceOf(row: nat): Place
      reads `bulk, `bulkPtr, `bulkCnt, `bulkBuflen
    {
      Placed(|bulk.header|, bulkPtr, bulkCnt, bulkBuflen, row)
    }

    /** Whether the INSERT of the buffered rows and one more fits into the buffer. */
    ghost predicate FitsBuffer(row: string)
      reads `bulk, `bulkBuflen
    {
      |Insert(bulk.header, bulk.pending + [row])| < bulkBuflen
    }

    lemma PlacedInBuffer(row: string)
      requires BufferValid()
      ensures bulkBuffer != null ==> (PlaceOf(|row|).Flushes? <==> bulkCnt > 0 && !FitsBuffer(row))
      ensures bulkBuffer != null ==> (PlaceOf(|row|).Fits? <==> FitsBuffer(row))
    {
      PlacedExactly(bulk.header, bulk.pending, row, bulkBuflen);
    }

    /** The size check of `db_bulk_insert_next`, with the flush it may lead to; `end` is where the row would end. */
    method MakeRoom(row: cstring, ghost p: Place, ghost f: Flush) returns (ok: bool, end: nat)
      requires BulkValid() && bulkBuffer != null
      requires p == PlaceOf(|row|) && f == Plan(state, operations, false)
      modifies `error, `state, `counter, `nrows, `nfields, `statement, `rowValues
      modifies `resultSets, `releases, `operations, `sent, `bulkCnt, `bulkPtr, `bulkCommitCnt, `bulk
      ensures Valid()
      ensures BufferValid() && bulk.Valid() && CommitValid() && (!ok ==> BulkValid())
      ensures ok == p.Writes(f) && bulk == old(bulk).Moved(p, f)
      ensures sent == p.Sends(f, old(sent), old(bulk).header, old(bulk).pending)
      ensures ok ==> end == p.end == bulkPtr + |row| + 1 + (if bulkCnt > 0 then 1 else 0)
      ensures Now() == if p.Flushes? then FlushCore(old(Now()), f.due) else old(Now())
    {
      end := bulkPtr + |row| + 1 + (if bulkCnt > 0 then 1 else 0);
      if end > bulkBuflen {
        if bulkCnt == 0 {
          return false, end;
        }
        var rc := DoInsert(false, f);
        return rc == 0, bulkPtr + |row| + 1 + (if bulkCnt > 0 then 1 else 0);
      }
      return true, end;
    }

    /**
      The part of `db_bulk_insert_next` after its checks of the connection.
      The code does not look at the size again after a flush: `overrun` tells
      that it would write past the buffer, and the model stops before that.
    */
    method AddRow(row: cstring, ghost p: Place, ghost f: Flush) returns (took: bool, overrun: bool)
      requires BulkValid() && bulkBuffer != null
      requires p == PlaceOf(|row|) && f == Plan(state, operations, false)
      modifies `error, `state, `counter, `nrows, `nfields, `statement, `rowValues
      modifies `resultSets, `releases, `operations, `sent, `bulkCnt, `bulkPtr, `bulkCommitCnt, `bulk, bulkBuffer
      ensures Valid()
      ensures bulk.Valid() && (!overrun ==> BulkValid())
      ensures took == p.Takes(f, bulkBuflen) && overrun == p.Overruns(f, bulkBuflen)
      ensures bulk == old(bulk).Next(row, p, f, bulkBuflen)
      ensures sent == p.Sends(f, old(sent), old(bulk).header, old(bulk).pending)
      ensures Now() == if p.Flushes? then FlushCore(old(Now()), f.due) else old(Now())
    {
      var room, end := MakeRoom(row, p, f);
      if !room {
        return false, false;
      }
      var inside := WriteInside(row, end);
      return inside, !inside;
    }

    /** The same, with the exact conditions for an overrun and for rows that are there twice. */
    method NextRow(row: cstring, ghost p: Place, ghost f: Flush) returns (took: bool, overrun: bool)
      requires BulkValid() && bulkBuffer != null
      requires p == PlaceOf(|row|) && f == Plan(state, operations, false)
      modifies `error, `state, `counter, `nrows, `nfields, `statement, `rowValues
      modifies `resultSets, `releases, `operations, `sent, `bulkCnt, `bulkPtr, `bulkCommitCnt, `bulk, bulkBuffer
      ensures Valid()
      ensures bulk.Valid() && (!overrun ==> BulkValid())
      ensures took == p.Takes(f, bulkBuflen)
      ensures overrun == (old(bulkCnt) > 0 && |old(bulk).header| + |row| + 1 > bulkBuflen && f.Ok())
      ensures bulk == old(bulk).Next(row, p, f, bulkBuflen)
      ensures sent == p.Sends(f, old(sent), old(bulk).header, old(bulk).pending)
      ensures bulk.Once() <==> !(old(bulk).failed || (p.Flushes? && f.Repeats()))
      ensures Now() == if p.Flushes? then FlushCore(old(Now()), f.due) else old(Now())
    {
      EmptyInsert(bulk.header);
      PlacedOutside(|bulk.header|, bulkPtr, bulkCnt, bulkBuflen, |row|, f);
      took, overrun := AddRow(row, p, f);
      bulk.OnceExactly();
    }

    /** The checks at the start of `db_bulk_insert_next`; the multi-row insert is as it was. */
    method OpenForRow(ghost f: Flush) returns (usable: bool)
      requires BulkValid() && f == Plan(Ready, Left(state, operations), false)
      modifies `state, `nrows, `nfields, `statement, `rowValues, `releases, `operations
      ensures BulkValid()
      ensures usable == Usable(old(state), old(operations)) && (usable ==> f == Plan(state, operations, false))
      ensures Now() == LeftCore(old(Now()))
    {
      usable := LeaveResultSet();
    }

    /**
      `db_bulk_insert_next`; `took` tells whether the row was accepted, which
      a zero result alone does not, and `overrun` that the code would write
      past its buffer: exactly when it has flushed rows out of the buffer for
      a row that does not fit behind the header either. Rows are flushed only
      if the INSERT with one more row does not fit. The given `p` and `f`
      are what the size check decides and how a flush would go.
    */
    method BulkNext(row: cstring, ghost p: Place, ghost f: Flush) returns (rc: int, took: bool, overrun: bool)
      requires BulkValid()
      requires p == PlaceOf(|row|) && f == Plan(Ready, Left(state, operations), false)
      modifies `error, `state, `counter, `nrows, `nfields, `statement, `rowValues
      modifies `resultSets, `releases, `operations, `sent, `bulkCnt, `bulkPtr, `bulkCommitCnt, `bulk, bulkBuffer
      ensures Valid()
      ensures bulk.Valid() && (!overrun ==> BulkValid())
      ensures Usable(old(state), old(operations)) && bulkBuffer != null ==>
        && took == p.Takes(f, bulkBuflen)
        && overrun == (old(bulkCnt) > 0 && |old(bulk).header| + |row| + 1 > bulkBuflen && f.Ok())
        && bulk == old(bulk).Next(row, p, f, bulkBuflen)
        && sent == p.Sends(f, old(sent), old(bulk).header, old(bulk).pending)
        && (bulk.Once() <==> !(old(bulk).failed || (p.Flushes? && f.Repeats())))
        && Now() == (if p.Flushes? then FlushCore(LeftCore(old(Now())), f.due) else LeftCore(old(Now())))
        && rc == if took || overrun then 0 else 1
      ensures !Usable(old(state), old(operations)) || bulkBuffer == null ==>
        && !took && !overrun && bulk == old(bulk) && sent == old(sent) && Now() == LeftCore(old(Now()))
        && rc == if Usable(old(state), old(operations)) then 1 else 0
      ensures old(FitsBuffer(row)) ==> sent == old(sent)
    {
      rc, took, overrun := 0, false, false;
      PlacedInBuffer(row);
      var usable := OpenForRow(f);
      if usable {
        rc := 1;
        if bulkBuffer != null {
          took, overrun := NextRow(row, p, f);
          rc := if took || overrun then 0 else 1;
        }
      }
    }

    method DropBuffer()
      requires Valid() && BufferValid() && bulk.Valid() && CommitValid() && bulkCommitCnt == 0 && bulkCnt == 0
      modifies `bulkBuffer
      ensures BulkValid() && bulkBuffer == null
    {
      if bulkBuffer != null {
        bulkBuffer := null;
      }
    }

    /** `db_bulk_insert_done`: success means that everything is inserted and committed. */
    method BulkDone(ghost f: Flush) returns (rc: int)
      requires BulkValid() && f == Plan(state, operations, true)
      modifies `error, `state, `counter, `nrows, `nfields, `statement, `rowValues
      modifies `resultSets, `releases, `operations, `sent, `bulkCnt, `bulkPtr, `bulkCommitCnt, `bulkBuffer, `bulk
      ensures BulkValid()
      ensures rc == if old(bulkCnt) == 0 || f.Ok() then 0 else 1
      ensures if old(bulkCnt) == 0 then bulk == old(bulk) && sent == old(sent)
              else bulk == old(bulk).After(f) && sent == f.Sends(old(sent), old(bulk).header, old(bulk).pending)
      ensures bulk.Once() <==> !(old(bulk).failed || (old(bulkCnt) > 0 && f.Repeats()))
      ensures rc == 0 ==> bulkBuffer == null && bulk.pending == []
      ensures rc == 0 && bulkCommitMax != 0 ==> Uncommitted(bulk.log) == 0
      ensures rc != 0 ==> bulkBuffer == old(bulkBuffer)
      ensures Now() == if old(bulkCnt) > 0 then FlushCore(old(Now()), f.due) else old(Now())
    {
      rc := DoInsert(true, f);
      bulk.OnceExactly();
      if rc != 0 {
        return 1;
      }
      DropBuffer();
    }
  }
}
