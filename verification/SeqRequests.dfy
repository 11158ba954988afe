/**
  The sequential request generator of the fileio test: reads or writes that
  walk through all files over and over, interrupted in the write modes by
  rounds of fsync, and the checker that validation mode runs on them.
*/
module SeqRequests {
  import opened Machine
  import NumberTheory

  const COUNTS: nat := TWO_TO_THE_32

  datatype Operation = Null | Read | Write | Fsync

  datatype Request = Request(operation: Operation, file: uint32, pos: nat, size: nat)

  /**
    The options: how many files of which size, the request size, how many
    writes between fsyncs (zero for none), and whether the mode writes.
  */
  datatype Config = Config(files: uint32, fileSize: nat, requestSize: nat, fsyncFreq: uint32, writes: bool) {
    ghost predicate Valid() {
      files > 0 && fileSize > 0 && requestSize > 0
    }

    /** Whether the generator ever asks for an fsync. */
    predicate Syncs() {
      writes && fsyncFreq > 0
    }

    function Op(): Operation {
      if writes then Write else Read
    }
  }

  /** The generator's global variables. */
  datatype State = State(
    position: nat, currentFile: uint32, fsyncedFile: uint32, isDirty: bool, reqPerformed: uint32, prev: Request)

  /** `init_vars` */
  const INITIAL := State(0, 0, 0, false, 0, Request(Null, 0, 0, 0))


  // ---------------------------------------------------------------------
  // One request
  // ---------------------------------------------------------------------

  predicate TimeToSync(c: Config, s: State) {
    c.Syncs() && s.isDirty && s.reqPerformed % c.fsyncFreq == 0
  }

  /** What `file_get_seq_request` returns in a given state. */
  function RequestOf(c: Config, s: State): Request
    requires c.Valid() && s.position <= c.fileSize
  {
    if TimeToSync(c, s) then Request(Fsync, s.fsyncedFile, 0, 0)
    else
      var rewind := s.currentFile == c.files;
      var position := if rewind then 0 else s.position;
      Request(c.Op(), if rewind then 0 else s.currentFile, position, Min(c.requestSize, c.fileSize - position))
  }

  /** The state it leaves behind. */
  function Next(c: Config, s: State): State
    requires c.Valid() && s.position <= c.fileSize && s.currentFile <= c.files && s.fsyncedFile < c.files
  {
    var r := RequestOf(c, s);
    if TimeToSync(c, s) then
      if s.fsyncedFile + 1 == c.files then s.(fsyncedFile := 0, isDirty := false)
      else s.(fsyncedFile := s.fsyncedFile + 1)
    else
      var done := r.pos + r.size == c.fileSize;
      State(if done then 0 else r.pos + r.size,
            if done then (r.file + 1) % COUNTS else r.file,
            s.fsyncedFile,
            c.writes || s.isDirty,
            (s.reqPerformed + 1) % COUNTS,
            r)
  }

  /** `check_seq_req`: whether it logs a warning; file numbers are subtracted as unsigned words. */
  predicate Warns(c: Config, prev: Request, r: Request) {
    if r.operation == Fsync || r.operation == Null || prev.operation == Null then false
    else if (r.file - prev.file) % COUNTS > 1 && !(r.file == 0 && prev.file == c.files - 1) then true
    else if r.file == prev.file then r.pos - prev.pos != prev.size
    else prev.pos + prev.size != c.fileSize || r.pos != 0
  }

  /** The parameter checks of `file_execute_event`. */
  predicate Executable(c: Config, r: Request) {
    !(r.file > c.files) && !(r.pos + r.size > c.fileSize)
  }

  /** The generator as the code has it. */
  class Generator {
    const c: Config
    const validate: bool
    var position: nat
    var currentFile: uint32
    var fsyncedFile: uint32
    var isDirty: bool
    var reqPerformed: uint32
    var prevReq: Request

    ghost function Current(): State
      reads this
    {
      State(position, currentFile, fsyncedFile, isDirty, reqPerformed, prevReq)
    }

    ghost predicate Valid()
      reads this
    {
      c.Valid() && position <= c.fileSize && currentFile <= c.files && fsyncedFile < c.files
    }

    constructor (config: Config, check: bool)
      requires config.Valid()
      ensures Valid() && c == config && validate == check && Current() == INITIAL
    {
      c, validate := config, check;
      position, currentFile, fsyncedFile := 0, 0, 0;
      reqPerformed, isDirty := 0, false;
      prevReq := Request(Null, 0, 0, 0);
    }

    /** The branch of `file_get_seq_request` that asks for an fsync. */
    method GetFsync() returns (r: Request)
      requires Valid() && TimeToSync(c, Current())
      modifies `fsyncedFile, `isDirty
      ensures Valid()
      ensures r == RequestOf(c, old(Current())) && Current() == Next(c, old(Current()))
    {
      r := Request(Fsync, fsyncedFile, 0, 0);
      var next := fsyncedFile + 1;
      if next == c.files {
        fsyncedFile := 0;
        isDirty := false;
      } else {
        fsyncedFile := next;
      }
    }

    /** The branch that asks for a read or write. */
    method GetData(operation: Operation) returns (r: Request)
      requires Valid() && !TimeToSync(c, Current()) && operation == c.Op()
      modifies `position, `currentFile, `isDirty, `reqPerformed
      ensures Valid()
      ensures r == RequestOf(c, old(Current()))
      ensures Current() == Next(c, old(Current())).(prev := prevReq)
    {
      reqPerformed := (reqPerformed + 1) % COUNTS;
      if operation == Write {
        isDirty := true;
      }
      if currentFile == c.files {
        position := 0;
        currentFile := 0;
      }
      r := Request(operation, currentFile, position, Min(c.requestSize, c.fileSize - position));
      position := position + r.size;
      if position == c.fileSize {
        currentFile := (currentFile + 1) % COUNTS;
        position := 0;
      }
    }

    /** `file_get_seq_request`; `warned` tells whether the checker complained. */
    method GetRequest() returns (r: Request, warned: bool)
      requires Valid()
      modifies this
      ensures Valid()
      ensures r == RequestOf(c, old(Current()))
      ensures Current() ==
        Next(c, old(Current())).(prev := if validate && r.operation != Fsync then r else old(prevReq))
      ensures warned == (validate && Warns(c, old(prevReq), r))
    {
      warned := false;
      var operation := if c.writes then Write else Read;
      if c.fsyncFreq != 0 && operation == Write && isDirty && reqPerformed % c.fsyncFreq == 0 {
        r := GetFsync();
        return;
      }
      r := GetData(operation);
      if validate {
        warned := Warns(c, prevReq, r);
        prevReq := r;
      }
    }
  }

  // ---------------------------------------------------------------------
  // Division by a variable
  // ---------------------------------------------------------------------

  /** Quotient and remainder are unique. */
  lemma DivUnique(m: nat, k: nat, a: nat, j: nat)
    requires j < k && m == k * a + j
    ensures m / k == a && m % k == j
  {
    var q, r := m / k, m % k;
    assert k * (a - q) == r - j;
    NumberTheory.MultipleBound(k, a - q);
  }

  lemma DivNext(m: nat, k: nat)
    requires k > 0
    ensures if m % k + 1 < k then (m + 1) / k == m / k && (m + 1) % k == m % k + 1
            else (m + 1) / k == m / k + 1 && (m + 1) % k == 0
  {
    if m % k + 1 < k {
      DivUnique(m + 1, k, m / k, m % k + 1);
    } else {
      assert k * (m / k + 1) == k * (m / k) + k;
      DivUnique(m + 1, k, m / k + 1, 0);
    }
  }

  // ---------------------------------------------------------------------
  // The ideal sequence, in closed form
  // ---------------------------------------------------------------------

  /** The number of requests that cover one file. */
  function PerFile(c: Config): nat
    requires c.Valid()
  {
    (c.fileSize - 1) / c.requestSize + 1
  }

  lemma PerFileBounds(c: Config)
    requires c.Valid()
    ensures c.requestSize * (PerFile(c) - 1) < c.fileSize <= c.requestSize * PerFile(c)
  {
    var q := (c.fileSize - 1) / c.requestSize;
    assert c.requestSize * (q + 1) == c.requestSize * q + c.requestSize;
  }

  /** The m-th read or write: request m % PerFile of file m / PerFile, counting files round and round. */
  function DataRequest(c: Config, m: nat): (r: Request)
    requires c.Valid()
  {
    PerFileBounds(c);
    OffsetInside(c, m % PerFile(c));
    var pos := c.requestSize * (m % PerFile(c));
    Request(c.Op(), m / PerFile(c) % c.files, pos, Min(c.requestSize, c.fileSize - pos))
  }

  lemma OffsetInside(c: Config, j: nat)
    requires c.Valid() && j < PerFile(c)
    ensures c.requestSize * j < c.fileSize
    ensures c.requestSize * (j + 1) < c.fileSize <==> j + 1 < PerFile(c)
    ensures j + 1 == PerFile(c) ==> c.fileSize - c.requestSize * j <= c.requestSize
    ensures c.requestSize * (j + 1) == c.requestSize * j + c.requestSize
  {
    PerFileBounds(c);
    var k := PerFile(c);
    assert c.requestSize * (k - 1 - j) == c.requestSize * (k - 1) - c.requestSize * j;
    NumberTheory.MultipleBound(c.requestSize, k - 1 - j);
    assert c.requestSize * (j + 1) == c.requestSize * j + c.requestSize;
  }

  /** Consecutive requests join without gap or overlap, fill each file exactly, and then go to the next. */
  lemma RequestsTile(c: Config, m: nat)
    requires c.Valid()
    ensures DataRequest(c, 0) == Request(c.Op(), 0, 0, Min(c.requestSize, c.fileSize))
    ensures var r, r' := DataRequest(c, m), DataRequest(c, m + 1);
      && 0 < r.size <= c.requestSize && r.pos + r.size <= c.fileSize
      && if r.pos + r.size < c.fileSize
         then r'.file == r.file && r'.pos == r.pos + r.size
         else r'.file == (r.file + 1) % c.files && r'.pos == 0
    ensures DataRequest(c, m).pos + DataRequest(c, m).size == c.fileSize <==> (m + 1) % PerFile(c) == 0
  {
    var k := PerFile(c);
    FirstRequest(c);
    RequestEnds(c, m, m % k);
    LastOfFile(m, k);
    NextTile(c, m, m / k, m % k);
  }

  lemma FirstRequest(c: Config)
    requires c.Valid()
    ensures DataRequest(c, 0) == Request(c.Op(), 0, 0, Min(c.requestSize, c.fileSize))
  {
    DivUnique(0, PerFile(c), 0, 0);
    DivUnique(0, c.files, 0, 0);
    RequestNumbered(c, 0, 0, 0);
  }

  lemma LastOfFile(m: nat, k: nat)
    requires k > 0
    ensures (m + 1) % k == 0 <==> m % k + 1 == k
  {
    DivNext(m, k);
  }

  /** The request that follows number `j` of a file. */
  lemma NextTile(c: Config, m: nat, walk: nat, j: nat)
    requires c.Valid() && walk == m / PerFile(c) && j == m % PerFile(c)
    ensures var r, r' := DataRequest(c, m), DataRequest(c, m + 1);
      if j + 1 < PerFile(c) then r'.file == r.file && r'.pos == c.requestSize * (j + 1)
      else r'.file == (r.file + 1) % c.files && r'.pos == 0
  {
    DivNext(m, PerFile(c));
    RequestNumbered(c, m, walk, j);
    if j + 1 < PerFile(c) {
      RequestNumbered(c, m + 1, walk, j + 1);
    } else {
      RequestNumbered(c, m + 1, walk + 1, 0);
      NextFile(walk % c.files, c.files);
      DivNext(walk, c.files);
    }
  }

  lemma RequestEnds(c: Config, m: nat, j: nat)
    requires c.Valid() && j == m % PerFile(c)
    ensures var r := DataRequest(c, m);
      && 0 < r.size <= c.requestSize
      && if j + 1 == PerFile(c) then r.pos + r.size == c.fileSize
         else r.pos + r.size == c.requestSize * (j + 1) < c.fileSize
  {
    OffsetInside(c, j);
  }

  lemma NextFile(f: nat, n: nat)
    requires f < n
    ensures (f + 1) % n == if f + 1 == n then 0 else f + 1
  {
    if f + 1 < n {
      DivUnique(f + 1, n, 0, f + 1);
    } else {
      DivUnique(n, n, 1, 0);
    }
  }

  lemma NumberParts(k: nat, n: nat, pass: nat, g: nat, j: nat)
    requires g < n && j < k
    ensures var walk := n * pass + g;
      walk % n == g && (k * walk + j) / k == walk && (k * walk + j) % k == j
  {
    var walk := n * pass + g;
    DivUnique(walk, n, pass, g);
    DivUnique(k * walk + j, k, walk, j);
  }

  lemma RequestNumbered(c: Config, m: nat, walk: nat, j: nat)
    requires c.Valid() && m / PerFile(c) == walk && m % PerFile(c) == j
    ensures c.requestSize * j < c.fileSize
    ensures DataRequest(c, m) ==
      Request(c.Op(), walk % c.files, c.requestSize * j, Min(c.requestSize, c.fileSize - c.requestSize * j))
  {
    OffsetInside(c, j);
  }

  lemma BlockOfByte(rs: nat, x: nat, j: nat)
    requires rs > 0
    ensures rs * j <= x < rs * j + rs <==> j == x / rs
  {
    if rs * j <= x < rs * j + rs {
      DivUnique(x, rs, j, x - rs * j);
    }
  }

  predicate Covers(r: Request, g: nat, x: nat) {
    r.file == g && r.pos <= x < r.pos + r.size
  }

  /** The request that a byte falls into is one of its file's. */
  lemma BlockInside(c: Config, x: nat)
    requires c.Valid() && x < c.fileSize
    ensures x / c.requestSize < PerFile(c)
  {
    PerFileBounds(c);
    var j := x / c.requestSize;
    BlockOfByte(c.requestSize, x, j);
    if j >= PerFile(c) {
      assert c.requestSize * (j - PerFile(c)) == c.requestSize * j - c.requestSize * PerFile(c);
      NumberTheory.MultipleBound(c.requestSize, j - PerFile(c));
    }
  }

  lemma RequestCovers(c: Config, g: nat, x: nat, m: nat)
    requires c.Valid() && x < c.fileSize
    ensures Covers(DataRequest(c, m), g, x) <==>
      m / PerFile(c) % c.files == g && m % PerFile(c) == x / c.requestSize
  {
    var j := m % PerFile(c);
    RequestNumbered(c, m, m / PerFile(c), j);
    BlockOfByte(c.requestSize, x, j);
  }

  lemma SplitNumber(k: nat, n: nat, m: nat)
    requires k > 0 && n > 0
    ensures m == k * (n * (m / k / n) + m / k % n) + m % k
  {
    var walk := m / k;
    assert walk == n * (walk / n) + walk % n;
  }

  lemma NumberUnique(k: nat, f: nat, pass: nat, g: nat, j: nat, n: nat, m: nat)
    requires g < f && j < k && n == k * (f * pass + g) + j && m / k / f == pass
    ensures n / k / f == pass && (m / k % f == g && m % k == j <==> m == n)
  {
    NumberParts(k, f, pass, g, j);
    DivUnique(f * pass + g, f, pass, g);
    SplitNumber(k, f, m);
  }

  /** In every pass each byte of each file is covered by one request, and by only one. */
  lemma EveryByteCovered(c: Config, pass: nat, g: nat, x: nat, n: nat, m: nat)
    requires c.Valid() && g < c.files && x < c.fileSize
    requires n == PerFile(c) * (c.files * pass + g) + x / c.requestSize
    requires m / PerFile(c) / c.files == pass
    ensures n / PerFile(c) / c.files == pass
    ensures Covers(DataRequest(c, m), g, x) <==> m == n
  {
    BlockInside(c, x);
    RequestCovers(c, g, x, m);
    NumberUnique(PerFile(c), c.files, pass, g, x / c.requestSize, n, m);
  }

  // ---------------------------------------------------------------------
  // Whole runs
  // ---------------------------------------------------------------------

  /** The number of reads or writes among the first `e` requests of the ideal sequence. */
  function DataCount(c: Config, e: nat): nat
    requires c.Valid()
  {
    if c.Syncs() then
      var period := c.fsyncFreq + c.files;
      c.fsyncFreq * (e / period) + Min(e % period, c.fsyncFreq)
    else e
  }

  /** The e-th request of the ideal sequence: fsyncFreq writes, then an fsync of each file in order. */
  function EventAt(c: Config, e: nat): Request
    requires c.Valid()
  {
    var period := c.fsyncFreq + c.files;
    if c.Syncs() && e % period >= c.fsyncFreq then Request(Fsync, e % period - c.fsyncFreq, 0, 0)
    else DataRequest(c, DataCount(c, e))
  }

  /** Where the walk through the files stands after `m` reads or writes. */
  ghost predicate CursorAt(c: Config, s: State, m: nat)
    requires c.Valid()
  {
    var k := PerFile(c);
    if m % k > 0 then s.position == c.requestSize * (m % k) && s.currentFile == m / k % c.files
    else s.position == 0 && s.currentFile == if m == 0 then 0 else (m / k - 1) % c.files + 1
  }

  /** The generator's state after `e` requests of the ideal sequence. */
  ghost predicate StateAt(c: Config, s: State, e: nat)
    requires c.Valid()
  {
    var m := DataCount(c, e);
    var period := c.fsyncFreq + c.files;
    && CursorAt(c, s, m)
    && s.reqPerformed == m % COUNTS
    && (if c.Syncs() then
          && s.isDirty == (e % period != 0)
          && s.fsyncedFile == (if e % period > c.fsyncFreq then e % period - c.fsyncFreq else 0)
        else
          s.isDirty == (c.writes && e > 0) && s.fsyncedFile == 0)
    && s.prev == if m == 0 then Request(Null, 0, 0, 0) else DataRequest(c, m - 1)
  }

  lemma CursorInside(c: Config, s: State, m: nat)
    requires c.Valid() && CursorAt(c, s, m)
    ensures s.position < c.fileSize && s.currentFile <= c.files
  {
    OffsetInside(c, m % PerFile(c));
  }

  lemma DivPositive(m: nat, k: nat)
    requires 0 < k && 0 < m && m % k == 0
    ensures m / k > 0
  {
  }

  /** The file and position of the next read or write, after a rewind if one is due. */
  lemma CursorTarget(c: Config, s: State, m: nat)
    requires c.Valid() && CursorAt(c, s, m)
    ensures (if s.currentFile == c.files then 0 else s.currentFile) == m / PerFile(c) % c.files
    ensures (if s.currentFile == c.files then 0 else s.position) == c.requestSize * (m % PerFile(c))
  {
    var k := PerFile(c);
    if m == 0 {
      DivUnique(0, k, 0, 0);
      DivUnique(0, c.files, 0, 0);
    } else if m % k == 0 {
      DivPositive(m, k);
      DivNext(m / k - 1, c.files);
    }
  }

  lemma CursorRequest(c: Config, s: State, m: nat)
    requires c.Valid() && CursorAt(c, s, m) && !TimeToSync(c, s) && s.position <= c.fileSize
    ensures RequestOf(c, s) == DataRequest(c, m)
  {
    CursorTarget(c, s, m);
  }

  /** A read or write follows the closed form and moves the cursor on. */
  lemma CursorNext(c: Config, s: State, m: nat)
    requires c.Valid() && CursorAt(c, s, m) && !TimeToSync(c, s)
    requires s.position <= c.fileSize && s.currentFile <= c.files && s.fsyncedFile < c.files
    ensures RequestOf(c, s) == DataRequest(c, m)
    ensures CursorAt(c, Next(c, s), m + 1)
  {
    var k := PerFile(c);
    CursorRequest(c, s, m);
    OffsetInside(c, m % k);
    DivNext(m, k);
  }

  // ---------------------------------------------------------------------
  // Periods of writes and fsyncs
  // ---------------------------------------------------------------------

  /** Whether the 32-bit request counter can still be trusted after `m` reads or writes. */
  predicate CounterReliable(c: Config, m: nat) {
    c.Syncs() ==> m < COUNTS || COUNTS % c.fsyncFreq == 0
  }

  lemma RemainderOfRemainder(m: nat, f: nat)
    requires 0 < f < COUNTS && (m < COUNTS || COUNTS % f == 0)
    ensures m % COUNTS % f == m % f
  {
    if m >= COUNTS {
      var q, r := m / COUNTS, m % COUNTS;
      var h := COUNTS / f;
      assert m == f * (h * q + r / f) + r % f by {
        assert COUNTS * q == f * (h * q);
        assert r == f * (r / f) + r % f;
        assert f * (h * q + r / f) == f * (h * q) + f * (r / f);
      }
      DivUnique(m, f, h * q + r / f, r % f);
    }
  }

  lemma PeriodicCount(f: nat, q: nat, r: nat)
    requires f > 0
    ensures r < f ==> (f * q + r) % f == r
    ensures (f * q + f) % f == 0
  {
    if r < f {
      DivUnique(f * q + r, f, q, r);
    }
    assert f * (q + 1) == f * q + f;
    DivUnique(f * q + f, f, q + 1, 0);
  }

  lemma CountModulo(c: Config, e: nat)
    requires c.Valid() && c.Syncs()
    ensures var r := e % (c.fsyncFreq + c.files);
      DataCount(c, e) % c.fsyncFreq == if r < c.fsyncFreq then r else 0
  {
    var period := c.fsyncFreq + c.files;
    PeriodicCount(c.fsyncFreq, e / period, e % period);
  }

  lemma SyncDue(c: Config, s: State, e: nat)
    requires c.Valid() && c.Syncs() && CounterReliable(c, DataCount(c, e))
    requires s.reqPerformed == DataCount(c, e) % COUNTS && s.isDirty == (e % (c.fsyncFreq + c.files) != 0)
    ensures TimeToSync(c, s) <==> e % (c.fsyncFreq + c.files) >= c.fsyncFreq
  {
    CountModulo(c, e);
    RemainderOfRemainder(DataCount(c, e), c.fsyncFreq);
  }

  lemma CountNext(c: Config, e: nat)
    requires c.Valid()
    ensures DataCount(c, e + 1) ==
      if c.Syncs() && e % (c.fsyncFreq + c.files) >= c.fsyncFreq then DataCount(c, e) else DataCount(c, e) + 1
  {
    var f, period := c.fsyncFreq, c.fsyncFreq + c.files;
    DivNext(e, period);
    assert f * (e / period + 1) == f * (e / period) + f;
  }

  predicate InBounds(c: Config, s: State) {
    s.position <= c.fileSize && s.currentFile <= c.files && s.fsyncedFile < c.files
  }

  lemma StateInBounds(c: Config, s: State, e: nat)
    requires c.Valid() && StateAt(c, s, e)
    ensures InBounds(c, s)
  {
    CursorInside(c, s, DataCount(c, e));
  }

  lemma CounterNext(m: nat)
    ensures (m % COUNTS + 1) % COUNTS == (m + 1) % COUNTS
  {
  }

  lemma DataNext(c: Config, s: State, e: nat)
    requires c.Valid() && StateAt(c, s, e) && InBounds(c, s) && !TimeToSync(c, s)
    requires c.Syncs() ==> e % (c.fsyncFreq + c.files) < c.fsyncFreq
    ensures RequestOf(c, s) == EventAt(c, e)
    ensures StateAt(c, Next(c, s), e + 1)
  {
    CountNext(c, e);
    if c.Syncs() {
      DivNext(e, c.fsyncFreq + c.files);
    }
    CursorNext(c, s, DataCount(c, e));
    CounterNext(DataCount(c, e));
  }

  lemma SyncNext(c: Config, s: State, e: nat)
    requires c.Valid() && StateAt(c, s, e) && InBounds(c, s) && TimeToSync(c, s)
    requires e % (c.fsyncFreq + c.files) >= c.fsyncFreq
    ensures RequestOf(c, s) == EventAt(c, e)
    ensures StateAt(c, Next(c, s), e + 1)
  {
    CountNext(c, e);
    DivNext(e, c.fsyncFreq + c.files);
  }

  /** As long as the counter is reliable the generator follows the ideal sequence. */
  lemma StateNext(c: Config, s: State, e: nat)
    requires c.Valid() && StateAt(c, s, e) && CounterReliable(c, DataCount(c, e))
    ensures InBounds(c, s)
    ensures RequestOf(c, s) == EventAt(c, e)
    ensures StateAt(c, Next(c, s), e + 1)
  {
    StateInBounds(c, s, e);
    if c.Syncs() {
      SyncDue(c, s, e);
    }
    if TimeToSync(c, s) {
      SyncNext(c, s, e);
    } else {
      DataNext(c, s, e);
    }
  }

  // ---------------------------------------------------------------------
  // Runs from the initial state
  // ---------------------------------------------------------------------

  lemma NextInBounds(c: Config, s: State)
    requires c.Valid() && InBounds(c, s)
    ensures InBounds(c, Next(c, s))
  {
  }

  /** The state after `e` requests. */
  function StateAfter(c: Config, e: nat): (s: State)
    requires c.Valid()
    ensures InBounds(c, s)
  {
    if e == 0 then INITIAL else NextInBounds(c, StateAfter(c, e - 1)); Next(c, StateAfter(c, e - 1))
  }

  /** The e-th request of the run. */
  function RequestAt(c: Config, e: nat): Request
    requires c.Valid()
  {
    RequestOf(c, StateAfter(c, e))
  }

  lemma InitialState(c: Config)
    requires c.Valid()
    ensures StateAt(c, INITIAL, 0)
  {
    DivUnique(0, PerFile(c), 0, 0);
    DivUnique(0, c.fsyncFreq + c.files, 0, 0);
  }

  lemma {:induction false} RunState(c: Config, e: nat)
    requires c.Valid() && (e > 0 ==> CounterReliable(c, DataCount(c, e - 1)))
    ensures StateAt(c, StateAfter(c, e), e)
  {
    if e == 0 {
      InitialState(c);
    } else {
      if e > 1 {
        CountNext(c, e - 2);
      }
      RunState(c, e - 1);
      StateNext(c, StateAfter(c, e - 1), e - 1);
    }
  }

  /**
    Below 2^32 reads or writes, or for any number if the fsync frequency
    divides 2^32, the e-th request of a run is that of the ideal sequence,
    and files are dirty except at the start and just after a full round of
    fsyncs.
  */
  lemma RunFollowsPattern(c: Config, e: nat)
    requires c.Valid() && CounterReliable(c, DataCount(c, e))
    ensures RequestAt(c, e) == EventAt(c, e)
    ensures c.Syncs() ==> (StateAfter(c, e).isDirty <==> e % (c.fsyncFreq + c.files) != 0)
  {
    if e > 0 {
      CountNext(c, e - 1);
    }
    RunState(c, e);
    StateNext(c, StateAfter(c, e), e);
  }

  function EventNumber(period: nat, q: nat, r: nat): nat {
    period * q + r
  }

  /** The request after exactly 2^32 writes, where an unlucky counter wraps to zero. */
  function WrapEvent(c: Config): nat
    requires c.Syncs()
  {
    EventNumber(c.fsyncFreq + c.files, COUNTS / c.fsyncFreq, COUNTS % c.fsyncFreq)
  }

  lemma CountAtWrap(c: Config)
    requires c.Valid() && c.Syncs() && COUNTS % c.fsyncFreq != 0
    ensures DataCount(c, WrapEvent(c)) == COUNTS && WrapEvent(c) > 0
    ensures DataCount(c, WrapEvent(c) - 1) == COUNTS - 1
    ensures 0 < WrapEvent(c) % (c.fsyncFreq + c.files) < c.fsyncFreq
  {
    var f: nat, n: nat := c.fsyncFreq, c.files;
    var q, r := COUNTS / f, COUNTS % f;
    DivUnique(WrapEvent(c), f + n, q, r);
    DivUnique(WrapEvent(c) - 1, f + n, q, r - 1);
  }

  /** If the frequency does not divide 2^32, the wrapped counter makes the run leave the pattern. */
  lemma WrapBreaksPattern(c: Config)
    requires c.Valid() && c.Syncs() && COUNTS % c.fsyncFreq != 0
    ensures RequestAt(c, WrapEvent(c)).operation == Fsync
    ensures EventAt(c, WrapEvent(c)).operation == Write
  {
    var e := WrapEvent(c);
    CountAtWrap(c);
    RunState(c, e);
    DivUnique(0, c.fsyncFreq, 0, 0);
  }

  /** A run follows the pattern forever exactly if there are no fsyncs or their frequency divides 2^32. */
  lemma PatternForever(c: Config)
    requires c.Valid()
    ensures (forall e: nat :: RequestAt(c, e) == EventAt(c, e)) <==> !c.Syncs() || COUNTS % c.fsyncFreq == 0
  {
    if !c.Syncs() || COUNTS % c.fsyncFreq == 0 {
      forall e: nat ensures RequestAt(c, e) == EventAt(c, e) {
        RunFollowsPattern(c, e);
      }
    } else {
      WrapBreaksPattern(c);
    }
  }

  // ---------------------------------------------------------------------
  // Reads and writes, in every run without any bound
  // ---------------------------------------------------------------------

  /** The number of reads or writes among the first `e` requests of the run. */
  function DataSoFar(c: Config, e: nat): nat
    requires c.Valid()
  {
    if e == 0 then 0
    else DataSoFar(c, e - 1) + (if TimeToSync(c, StateAfter(c, e - 1)) then 0 else 1)
  }

  /** Where a run stands after `m` reads or writes. */
  ghost predicate Follows(c: Config, s: State, m: nat)
    requires c.Valid()
  {
    CursorAt(c, s, m) && s.prev == if m == 0 then Request(Null, 0, 0, 0) else DataRequest(c, m - 1)
  }

  lemma FollowsNext(c: Config, s: State, m: nat)
    requires c.Valid() && InBounds(c, s) && Follows(c, s, m)
    ensures Follows(c, Next(c, s), if TimeToSync(c, s) then m else m + 1)
  {
    if !TimeToSync(c, s) {
      CursorNext(c, s, m);
    }
  }

  lemma {:induction false} RunCursor(c: Config, e: nat)
    requires c.Valid()
    ensures Follows(c, StateAfter(c, e), DataSoFar(c, e))
  {
    if e == 0 {
      InitialState(c);
    } else {
      RunCursor(c, e - 1);
      FollowsNext(c, StateAfter(c, e - 1), DataSoFar(c, e - 1));
    }
  }

  /** The k-th read or write of any run is the k-th of the closed form, and every request can be executed. */
  lemma RunTiles(c: Config, e: nat)
    requires c.Valid()
    ensures RequestAt(c, e).operation != Fsync ==> RequestAt(c, e) == DataRequest(c, DataSoFar(c, e))
    ensures Executable(c, RequestAt(c, e)) && RequestAt(c, e).file < c.files
  {
    RunCursor(c, e);
    var s := StateAfter(c, e);
    if !TimeToSync(c, s) {
      CursorRequest(c, s, DataSoFar(c, e));
      RequestsTile(c, DataSoFar(c, e));
    }
  }

  lemma WarnsExactly(c: Config, m: nat)
    requires c.Valid()
    ensures Warns(c, DataRequest(c, m), DataRequest(c, m + 1)) <==> c.files == 1 && (m + 1) % PerFile(c) == 0
  {
    RequestsTile(c, m);
    NextFile(DataRequest(c, m).file, c.files);
  }

  lemma WarnsFollowing(c: Config, s: State, m: nat)
    requires c.Valid() && InBounds(c, s) && Follows(c, s, m)
    ensures Warns(c, s.prev, RequestOf(c, s)) <==>
      RequestOf(c, s).operation != Fsync && c.files == 1 && m > 0 && m % PerFile(c) == 0
  {
    if !TimeToSync(c, s) {
      CursorRequest(c, s, m);
      if m > 0 {
        WarnsExactly(c, m - 1);
      }
    }
  }

  /** The checker warns exactly when the only file starts over; with two or more files it never does. */
  lemma CheckerWarnsExactly(c: Config, e: nat)
    requires c.Valid()
    ensures Warns(c, StateAfter(c, e).prev, RequestAt(c, e)) <==>
      RequestAt(c, e).operation != Fsync && c.files == 1 && DataSoFar(c, e) > 0 && DataSoFar(c, e) % PerFile(c) == 0
  {
    RunCursor(c, e);
    WarnsFollowing(c, StateAfter(c, e), DataSoFar(c, e));
  }

  /** A round of fsyncs ends: from any moment on, a read or write comes next sooner or later. */
  lemma {:induction false} SyncsEnd(c: Config, e: nat) returns (e': nat)
    requires c.Valid()
    ensures e' >= e && DataSoFar(c, e') == DataSoFar(c, e) && !TimeToSync(c, StateAfter(c, e'))
    decreases StateAfter(c, e).isDirty, c.files - StateAfter(c, e).fsyncedFile
  {
    e' := e;
    if TimeToSync(c, StateAfter(c, e)) {
      e' := SyncsEnd(c, e + 1);
    }
  }

  /** Every number of reads or writes is reached with a read or write next. */
  lemma {:induction false} DataReached(c: Config, m: nat) returns (e: nat)
    requires c.Valid()
    ensures DataSoFar(c, e) == m && !TimeToSync(c, StateAfter(c, e))
  {
    if m == 0 {
      e := SyncsEnd(c, 0);
    } else {
      e := DataReached(c, m - 1);
      e := SyncsEnd(c, e + 1);
    }
  }

  /** The checker stays silent forever exactly if there are two files or more. */
  lemma SilentForever(c: Config)
    requires c.Valid()
    ensures (forall e: nat :: !Warns(c, StateAfter(c, e).prev, RequestAt(c, e))) <==> c.files > 1
  {
    forall e: nat ensures c.files > 1 ==> !Warns(c, StateAfter(c, e).prev, RequestAt(c, e)) {
      CheckerWarnsExactly(c, e);
    }
    if c.files == 1 {
      var e := DataReached(c, PerFile(c));
      DivUnique(PerFile(c), PerFile(c), 1, 0);
      CheckerWarnsExactly(c, e);
      assert Warns(c, StateAfter(c, e).prev, RequestAt(c, e));
    }
  }
}
