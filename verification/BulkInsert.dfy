/**
  The history of a multi-row insert: the rows it was given, the statements it
  sent for them, and what a flush of its buffer adds to both.
*/
module BulkInsert {
  const COMMIT: string := "COMMIT"

  // ---------------------------------------------------------------------
  // Statements
  // ---------------------------------------------------------------------

  /** The rows separated by commas. */
  function Joined(rows: seq<string>): string {
    if |rows| == 0 then ""
    else if |rows| == 1 then rows[0]
    else Joined(rows[..|rows| - 1]) + "," + rows[|rows| - 1]
  }

  /** The statement that inserts the given rows. */
  function Insert(header: string, rows: seq<string>): (text: string)
    ensures |text| >= |header|
  {
    header + Joined(rows)
  }

  lemma EmptyInsert(header: string)
    ensures Insert(header, []) == header
  {
  }

  lemma InsertNext(header: string, rows: seq<string>, row: string)
    ensures Insert(header, rows + [row]) == Insert(header, rows) + (if |rows| > 0 then "," else "") + row
  {
    assert (rows + [row])[..|rows|] == rows;
  }

  /** A statement that the driver has run: an INSERT of some rows, or a COMMIT. */
  datatype Entry = Rows(rows: seq<string>) | Commit

  function Text(header: string, e: Entry): string {
    match e
    case Rows(rows) => Insert(header, rows)
    case Commit => COMMIT
  }

  function Texts(header: string, log: seq<Entry>): (r: seq<string>)
    ensures |r| == |log| && forall i :: 0 <= i < |log| ==> r[i] == Text(header, log[i])
  {
    seq(|log|, i requires 0 <= i < |log| => Text(header, log[i]))
  }

  /** All rows inserted, in order. */
  function AllRows(log: seq<Entry>): seq<string> {
    if |log| == 0 then []
    else
      var n := |log| - 1;
      AllRows(log[..n]) + (match log[n] case Rows(rows) => rows case Commit => [])
  }

  /** The number of rows inserted since the last COMMIT. */
  function Uncommitted(log: seq<Entry>): nat {
    if |log| == 0 then 0
    else
      var n := |log| - 1;
      match log[n]
      case Rows(rows) => Uncommitted(log[..n]) + |rows|
      case Commit => 0
  }

  lemma InsertAppended(log: seq<Entry>, rows: seq<string>)
    ensures AllRows(log + [Rows(rows)]) == AllRows(log) + rows
    ensures Uncommitted(log + [Rows(rows)]) == Uncommitted(log) + |rows|
  {
    assert (log + [Rows(rows)])[..|log|] == log;
  }

  lemma CommitAppended(log: seq<Entry>)
    ensures AllRows(log + [Commit]) == AllRows(log)
    ensures Uncommitted(log + [Commit]) == 0
  {
    assert (log + [Commit])[..|log|] == log;
  }

  // ---------------------------------------------------------------------
  // Flushing
  // ---------------------------------------------------------------------

  /** How a flush of a non-empty buffer goes: whether its INSERT and its COMMIT go through, and whether one is due. */
  datatype Flush = Flush(inserts: bool, due: bool, commits: bool) {
    predicate Ok() {
      inserts && (due ==> commits)
    }

    /** The INSERT goes through and the COMMIT that is due does not. */
    predicate Repeats() {
      inserts && due && !commits
    }

    /** The log with the statements that go through, for a buffer with the given rows. */
    function Logs(log: seq<Entry>, rows: seq<string>): seq<Entry> {
      if !inserts then log
      else if due && commits then log + [Rows(rows), Commit]
      else log + [Rows(rows)]
    }

    /** What has then been sent. */
    function Sends(sent: seq<string>, header: string, rows: seq<string>): seq<string> {
      if !inserts then sent
      else if due && commits then sent + [Insert(header, rows), COMMIT]
      else sent + [Insert(header, rows)]
    }
  }

  // ---------------------------------------------------------------------
  // Where a row is written
  // ---------------------------------------------------------------------

  /**
    What the size check decides: the row fits behind what is in the buffer,
    it is refused, or the buffer is flushed and the row goes right behind the
    header, whether or not it fits there. `end` is where its NUL ends.
  */
  datatype Place = Fits(end: nat) | Refused | Flushes(end: nat) {
    /** Whether the code goes on to write the row, given how a flush goes. */
    predicate Writes(f: Flush) {
      Fits? || (Flushes? && f.Ok())
    }

    predicate Takes(f: Flush, buflen: nat) {
      Writes(f) && end <= buflen
    }

    /** The row goes to a place that ends outside the buffer. */
    predicate Overruns(f: Flush, buflen: nat) {
      Writes(f) && end > buflen
    }

    /** What has been sent after that. */
    function Sends(f: Flush, sent: seq<string>, header: string, rows: seq<string>): seq<string> {
      if Flushes? then f.Sends(sent, header, rows) else sent
    }
  }

  function Placed(header: nat, ptr: nat, cnt: nat, buflen: nat, row: nat): Place {
    var need := ptr + row + 1 + (if cnt > 0 then 1 else 0);
    if need <= buflen then Fits(need)
    else if cnt == 0 then Refused
    else Flushes(header + row + 1)
  }

  /** A row fits exactly if its INSERT with the buffered rows does; otherwise rows in the buffer are flushed first. */
  lemma PlacedExactly(header: string, rows: seq<string>, row: string, buflen: nat)
    ensures var p := Placed(|header|, |Insert(header, rows)|, |rows|, buflen, |row|);
      && (p.Fits? <==> |Insert(header, rows + [row])| < buflen)
      && (p.Flushes? <==> |Insert(header, rows + [row])| >= buflen && rows != [])
  {
    InsertNext(header, rows, row);
  }

  /** With rows in the buffer, the row leaves it exactly if it does not fit behind the bare header. */
  lemma PlacedOutside(header: nat, ptr: nat, cnt: nat, buflen: nat, row: nat, f: Flush)
    requires header <= ptr && (cnt == 0 ==> header == ptr)
    ensures var p := Placed(header, ptr, cnt, buflen, row);
      && (p.Overruns(f, buflen) <==> cnt > 0 && header + row + 1 > buflen && f.Ok())
      && (p.Refused? <==> cnt == 0 && header + row + 1 > buflen)
  {
  }

  // ---------------------------------------------------------------------
  // The history
  // ---------------------------------------------------------------------

  /**
    The history of a multi-row insert: the rows accepted, those in the
    buffer, the statements that went through, and whether the rows of an
    INSERT that went through were ever kept in the buffer.
  */
  datatype Bulk = Bulk(header: string, accepted: seq<string>, pending: seq<string>, log: seq<Entry>, failed: bool) {
    /** What is inserted and what is buffered are the accepted rows in order exactly if that never happened. */
    ghost predicate Valid() {
      && (!failed ==> AllRows(log) + pending == accepted)
      && (failed ==> |AllRows(log)| + |pending| > |accepted|)
      && NoEmptyRows(log)
    }

    /** Each accepted row has been inserted or is buffered, once and in order. */
    ghost predicate Once() {
      AllRows(log) + pending == accepted
    }

    lemma OnceExactly()
      requires Valid()
      ensures Once() <==> !failed
    {
      assert |AllRows(log) + pending| == |AllRows(log)| + |pending|;
    }

    /** One more row. */
    ghost function With(row: string): Bulk {
      this.(accepted := accepted + [row], pending := pending + [row])
    }

    /** After a flush: unless it fails the buffer is empty; a failed COMMIT leaves inserted rows in it. */
    ghost function After(f: Flush): Bulk {
      this.(log := f.Logs(log, pending), pending := if f.Ok() then [] else pending, failed := failed || f.Repeats())
    }

    /** After the size check for a row. */
    ghost function Moved(p: Place, f: Flush): Bulk {
      if p.Flushes? then After(f) else this
    }

    /** After the whole call for a row. */
    ghost function Next(row: string, p: Place, f: Flush, buflen: nat): Bulk {
      if p.Takes(f, buflen) then Moved(p, f).With(row) else Moved(p, f)
    }

    lemma WithValid(row: string)
      requires Valid()
      ensures With(row).Valid()
    {
      assert AllRows(log) + (pending + [row]) == AllRows(log) + pending + [row];
    }

    lemma AfterRows(f: Flush)
      ensures AllRows(After(f).log) == if f.inserts then AllRows(log) + pending else AllRows(log)
      ensures Uncommitted(After(f).log) ==
        if !f.inserts then Uncommitted(log) else if f.due && f.commits then 0 else Uncommitted(log) + |pending|
    {
      InsertAppended(log, pending);
      var longer := log + [Rows(pending)];
      CommitAppended(longer);
      assert log + [Rows(pending), Commit] == longer + [Commit];
    }

    /** The count of uncommitted rows that the code keeps for a driver that needs commits. */
    lemma AfterCount(f: Flush, limit: nat, count: nat, left: nat)
      requires f.inserts && (f.due ==> limit != 0)
      requires count == if limit == 0 then 0 else Uncommitted(log)
      requires left == if limit == 0 || (f.due && f.Ok()) then 0 else count + |pending|
      ensures left == if limit == 0 then 0 else Uncommitted(After(f).log)
    {
      AfterRows(f);
    }

    lemma AfterValid(f: Flush)
      requires Valid() && pending != []
      ensures After(f).Valid()
    {
      AfterRows(f);
      RowsAppended(log, [Rows(pending)]);
      RowsAppended(log, [Rows(pending), Commit]);
    }
  }

  ghost predicate NoEmptyRows(log: seq<Entry>) {
    forall i :: 0 <= i < |log| && log[i].Rows? ==> |log[i].rows| > 0
  }

  lemma RowsAppended(log: seq<Entry>, more: seq<Entry>)
    requires NoEmptyRows(log) && NoEmptyRows(more)
    ensures NoEmptyRows(log + more)
  {
  }

  /**
    From one moment of an insert to a later one: the log has grown, and the
    queries sent in between are exactly its new entries.
  */
  ghost predicate Logged(b: Bulk, sent: seq<string>, b': Bulk, sent': seq<string>) {
    && b'.header == b.header && b.log <= b'.log
    && sent' == sent + Texts(b.header, b'.log[|b.log|..])
  }

  lemma LoggedNothing(b: Bulk, sent: seq<string>)
    ensures Logged(b, sent, b, sent)
  {
    assert b.log[|b.log|..] == [];
  }

  /** The entries that a flush adds to the log are the statements it sends. */
  lemma LoggedFlush(b: Bulk, sent: seq<string>, f: Flush)
    ensures Logged(b, sent, b.After(f), f.Sends(sent, b.header, b.pending))
  {
    var log := b.After(f).log;
    if !f.inserts {
      LoggedNothing(b, sent);
    } else if f.due && f.commits {
      assert log[|b.log|..] == [Rows(b.pending), Commit];
    } else {
      assert log[|b.log|..] == [Rows(b.pending)];
    }
  }

  /** So are those that a call for a row adds. */
  lemma LoggedNext(b: Bulk, sent: seq<string>, row: string, p: Place, f: Flush, buflen: nat)
    ensures Logged(b, sent, b.Next(row, p, f, buflen), p.Sends(f, sent, b.header, b.pending))
  {
    LoggedFlush(b, sent, f);
    LoggedNothing(b, sent);
  }

  lemma LoggedThrough(b: Bulk, sent: seq<string>, b': Bulk, sent': seq<string>, b'': Bulk, sent'': seq<string>)
    requires Logged(b, sent, b', sent') && Logged(b', sent', b'', sent'')
    ensures Logged(b, sent, b'', sent'')
  {
    assert b''.log[|b.log|..] == b'.log[|b.log|..] + b''.log[|b'.log|..];
  }

  lemma AppendTwo(sent: seq<string>, a: string, b: string)
    ensures (sent + [a]) + [b] == sent + [a, b]
  {
  }

  /** What a call for a row does to the accepted rows. */
  lemma NextAccepted(b: Bulk, row: string, p: Place, f: Flush, buflen: nat)
    ensures var n := b.Next(row, p, f, buflen);
      && n.header == b.header
      && n.accepted == (if p.Takes(f, buflen) then b.accepted + [row] else b.accepted)
      && (p.Takes(f, buflen) ==> |n.pending| > 0)
      && (p.Takes(f, buflen) || p.Overruns(f, buflen) ==> n.failed == b.failed)
  {
  }

  /** If no flush fails, a row is taken exactly if it fits behind the header. */
  lemma TakenExactly(header: nat, ptr: nat, cnt: nat, buflen: nat, row: nat, f: Flush)
    requires header <= ptr && (cnt == 0 ==> header == ptr) && f.Ok()
    ensures Placed(header, ptr, cnt, buflen, row).Takes(f, buflen) <==> header + row + 1 <= buflen
  {
  }

  // ---------------------------------------------------------------------
  // How rows are spread over statements
  // ---------------------------------------------------------------------

  /** The rows of each INSERT. */
  function Batches(log: seq<Entry>): seq<seq<string>> {
    if |log| == 0 then []
    else
      var n := |log| - 1;
      match log[n]
      case Rows(rows) => Batches(log[..n]) + [rows]
      case Commit => Batches(log[..n])
  }

  /** The i-th INSERT had no room for the first row of the one that follows it. */
  ghost predicate Full(header: string, batches: seq<seq<string>>, i: nat, buflen: nat)
    requires i + 1 < |batches|
  {
    |batches[i + 1]| > 0 && |Insert(header, batches[i] + [batches[i + 1][0]])| >= buflen
  }

  ghost predicate Packed(header: string, batches: seq<seq<string>>, buflen: nat) {
    forall i :: 0 <= i < |batches| - 1 ==> Full(header, batches, i, buflen)
  }

  ghost predicate Committed(log: seq<Entry>, i: nat) {
    i + 1 < |log| && log[i + 1].Commit?
  }

  /** An INSERT is followed by a COMMIT exactly if it brings the uncommitted rows up to the limit, if there is one. */
  ghost predicate CommitRight(log: seq<Entry>, limit: nat, i: nat)
    requires i < |log|
  {
    if log[i].Rows? then Committed(log, i) <==> limit != 0 && Uncommitted(log[..i + 1]) >= limit
    else i > 0 && log[i - 1].Rows? && limit != 0
  }

  /** That is so for the first `n` statements. */
  ghost predicate Spaced(log: seq<Entry>, limit: nat, n: int) {
    forall i :: 0 <= i < |log| && i < n ==> CommitRight(log, limit, i)
  }

  lemma BatchesNext(log: seq<Entry>, rows: seq<string>)
    ensures Batches(log + [Rows(rows)]) == Batches(log) + [rows]
    ensures Batches(log + [Rows(rows), Commit]) == Batches(log) + [rows]
  {
    var longer := log + [Rows(rows)];
    assert longer[..|log|] == log;
    assert (log + [Rows(rows), Commit])[..|longer|] == longer;
  }

  lemma PackedPrefix(header: string, batches: seq<seq<string>>, last: seq<string>, buflen: nat)
    requires Packed(header, batches + [last], buflen)
    ensures Packed(header, batches, buflen)
  {
    forall i | 0 <= i < |batches| - 1 ensures Full(header, batches, i, buflen) {
      assert Full(header, batches + [last], i, buflen);
    }
  }

  /** One more row for the last INSERT. */
  lemma PackedGrows(header: string, batches: seq<seq<string>>, last: seq<string>, row: string, buflen: nat)
    requires Packed(header, batches + [last], buflen) && last != []
    ensures Packed(header, batches + [last + [row]], buflen)
  {
    forall i | 0 <= i < |batches| ensures Full(header, batches + [last + [row]], i, buflen) {
      assert Full(header, batches + [last], i, buflen);
    }
  }

  /** One more INSERT, for a row that the last one has no room for. */
  lemma PackedNext(header: string, batches: seq<seq<string>>, last: seq<string>, row: string, buflen: nat)
    requires Packed(header, batches + [last], buflen) && |Insert(header, last + [row])| >= buflen
    ensures Packed(header, batches + [last] + [[row]], buflen)
  {
    forall i | 0 <= i <= |batches| ensures Full(header, batches + [last] + [[row]], i, buflen) {
      if i < |batches| {
        assert Full(header, batches + [last], i, buflen);
      }
    }
  }

  /** A flush leaves the statements before it as they were. */
  lemma SpacedBefore(log: seq<Entry>, more: seq<Entry>, limit: nat)
    requires Spaced(log, limit, |log|) && |more| > 0 && more[0].Rows?
    ensures Spaced(log + more, limit, |log|)
  {
    forall i | 0 <= i < |log| ensures CommitRight(log + more, limit, i) {
      assert CommitRight(log, limit, i);
      assert (log + more)[..i + 1] == log[..i + 1];
    }
  }

  /** Its own are right as well if it goes through and commits when that is due. */
  lemma SpacedFlush(log: seq<Entry>, rows: seq<string>, f: Flush, limit: nat)
    requires Spaced(log, limit, |log|)
    ensures var log' := f.Logs(log, rows);
      && Spaced(log', limit, |log|) && |log'| - 2 <= |log|
      && (f.Ok() && (f.due <==> limit != 0 && Uncommitted(log) + |rows| >= limit) ==> Spaced(log', limit, |log'|))
  {
    var log' := f.Logs(log, rows);
    if f.inserts {
      SpacedBefore(log, log'[|log|..], limit);
      assert log' == log + log'[|log|..];
      InsertAppended(log, rows);
      assert log'[..|log| + 1] == log + [Rows(rows)];
    }
  }
}
