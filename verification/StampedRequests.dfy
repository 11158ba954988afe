/**
  Sequential runs in validation mode: which writes have room for their stamp,
  and that what a run has written is accepted when it is read again.
*/
module StampedRequests {
  import opened BlockStamp
  import opened Crc32
  import opened Machine
  import opened SeqRequests

  const STAMP: nat := CHECKSUM_LENGTH + OFFSET_LENGTH

  // ---------------------------------------------------------------------
  // Room for the stamp
  // ---------------------------------------------------------------------

  /** The condition on the options. */
  predicate Stampable(c: Config)
    requires c.Valid()
  {
    c.requestSize >= STAMP && (c.fileSize % c.requestSize == 0 || c.fileSize % c.requestSize >= STAMP)
  }

  /** The size of a request; `t` is that of the last request of a file. */
  lemma TailSize(c: Config, m: nat, t: nat)
    requires c.Valid() && t == c.fileSize - c.requestSize * (PerFile(c) - 1)
    ensures 0 < t <= c.requestSize
    ensures DataRequest(c, m).size == if m % PerFile(c) == PerFile(c) - 1 then t else c.requestSize
    ensures c.fileSize % c.requestSize == if t == c.requestSize then 0 else t
  {
    var k := PerFile(c);
    PerFileBounds(c);
    OffsetInside(c, m % k);
    assert c.requestSize * k == c.requestSize * (k - 1) + c.requestSize;
    if t < c.requestSize {
      DivUnique(c.fileSize, c.requestSize, k - 1, t);
    } else {
      DivUnique(c.fileSize, c.requestSize, k, 0);
    }
  }

  lemma StampableRequest(c: Config, m: nat)
    requires c.Valid() && Stampable(c)
    ensures DataRequest(c, m).size >= STAMP
  {
    PerFileBounds(c);
    TailSize(c, m, c.fileSize - c.requestSize * (PerFile(c) - 1));
  }

  lemma ShortRequest(c: Config, m: nat)
    requires c.Valid() && !Stampable(c) && m == PerFile(c) - 1
    ensures DataRequest(c, m).size < STAMP
  {
    PerFileBounds(c);
    DivUnique(m, PerFile(c), 0, m);
    TailSize(c, m, c.fileSize - c.requestSize * m);
  }

  /**
    All reads and writes of a run have room for the stamp exactly if a request
    and, when it is shorter, the last request of a file have.
  */
  lemma EveryRequestStampable(c: Config)
    requires c.Valid()
    ensures (forall e: nat :: RequestAt(c, e).operation != Fsync ==> RequestAt(c, e).size >= STAMP) <==> Stampable(c)
  {
    if Stampable(c) {
      forall e: nat ensures RequestAt(c, e).operation != Fsync ==> RequestAt(c, e).size >= STAMP {
        RunTiles(c, e);
        StampableRequest(c, DataSoFar(c, e));
      }
    } else {
      PerFileBounds(c);
      var e := DataReached(c, PerFile(c) - 1);
      RunTiles(c, e);
      ShortRequest(c, PerFile(c) - 1);
      assert RequestAt(c, e).operation != Fsync && RequestAt(c, e).size < STAMP;
    }
  }

  /** One file of 16385 bytes in requests of 16384: the second write is a single byte. */
  lemma OneByteWrite(c: Config) returns (e: nat)
    requires c == Config(1, 16385, 16384, 100, true)
    ensures RequestAt(c, e) == Request(Write, 0, 16384, 1)
  {
    e := DataReached(c, 1);
    RunTiles(c, e);
    RequestNumbered(c, 1, 0, 1);
  }

  // ---------------------------------------------------------------------
  // Writing and reading back
  // ---------------------------------------------------------------------

  /** The contents of the files. */
  type Disk = seq<seq<byte>>

  ghost predicate Sized(c: Config, disk: Disk) {
    |disk| == c.files && forall g :: 0 <= g < c.files ==> |disk[g]| == c.fileSize
  }

  ghost predicate Inside(c: Config, r: Request) {
    r.file < c.files && r.pos + r.size <= c.fileSize
  }

  /** What a read request returns. */
  ghost function Get(c: Config, disk: Disk, r: Request): seq<byte>
    requires Sized(c, disk) && Inside(c, r)
  {
    disk[r.file][r.pos..r.pos + r.size]
  }

  /** The files after a write request. */
  ghost function Put(c: Config, disk: Disk, r: Request, block: seq<byte>): (disk': Disk)
    requires Sized(c, disk) && Inside(c, r) && |block| == r.size
    ensures Sized(c, disk')
  {
    var contents: seq<byte> := disk[r.file][..r.pos] + block + disk[r.file][r.pos + r.size..];
    disk[r.file := contents]
  }

  /** Two requests for the same bytes, or for different ones. */
  ghost predicate Apart(q: Request, r: Request) {
    q.file != r.file || q.pos + q.size <= r.pos || r.pos + r.size <= q.pos
  }

  lemma GetPut(c: Config, disk: Disk, q: Request, r: Request, block: seq<byte>)
    requires Sized(c, disk) && Inside(c, q) && Inside(c, r) && |block| == r.size
    ensures Apart(q, r) ==> Get(c, Put(c, disk, r, block), q) == Get(c, disk, q)
    ensures q.file == r.file && q.pos == r.pos && q.size == r.size ==> Get(c, Put(c, disk, r, block), q) == block
  {
    var old', new' := disk[r.file], Put(c, disk, r, block)[r.file];
    assert forall i :: 0 <= i < r.pos || r.pos + r.size <= i < c.fileSize ==> new'[i] == old'[i];
    assert new'[r.pos..r.pos + r.size] == block;
    if q.file == r.file && Apart(q, r) {
      assert new'[q.pos..q.pos + q.size] == old'[q.pos..q.pos + q.size];
    }
  }

  /** Any two requests of sequential runs over the same files are for the same bytes or for different ones. */
  lemma SameOrApart(c: Config, m: nat, n: nat)
    requires c.Valid()
    ensures var q, r := DataRequest(c, m), DataRequest(c, n);
      Apart(q, r) || (q.file == r.file && q.pos == r.pos && q.size == r.size)
  {
    var i, j := m % PerFile(c), n % PerFile(c);
    RequestNumbered(c, m, m / PerFile(c), i);
    RequestNumbered(c, n, n / PerFile(c), j);
    if i < j {
      NextMultiple(c.requestSize, i, j);
    } else if j < i {
      NextMultiple(c.requestSize, j, i);
    }
  }

  lemma NextMultiple(d: nat, i: nat, j: nat)
    requires i < j
    ensures d * i + d <= d * j
  {
    var k := j - i - 1;
    assert d * j == d * i + d + d * k;
    assert d * k >= 0;
  }

  lemma RequestInside(c: Config, m: nat)
    requires c.Valid()
    ensures Inside(c, DataRequest(c, m))
  {
    RequestsTile(c, m);
  }

  /** The block that write number `m` puts on disk, for the random bytes it draws. */
  ghost function BlockOf(c: Config, m: nat, random: nat -> nat -> byte, bigEndian: bool): (block: seq<byte>)
    requires c.Valid() && Stampable(c) && c.fileSize <= TWO_TO_THE_64
    ensures |block| == DataRequest(c, m).size
  {
    var r := DataRequest(c, m);
    StampableRequest(c, m);
    RequestsTile(c, m);
    Stamped(Drawn(r.size - STAMP, random(m)), r.pos, bigEndian)
  }

  /** The files after the m-th write. */
  ghost function DiskWith(c: Config, disk: Disk, m: nat, random: nat -> nat -> byte, bigEndian: bool): (disk': Disk)
    requires c.Valid() && Stampable(c) && c.fileSize <= TWO_TO_THE_64 && Sized(c, disk)
    ensures Sized(c, disk')
  {
    RequestInside(c, m);
    Put(c, disk, DataRequest(c, m), BlockOf(c, m, random, bigEndian))
  }

  /**
    The files after the first `e` requests of a run that writes; fsyncs change
    nothing, and the other requests are those of the closed form (`RunTiles`).
  */
  ghost function DiskAfter(c: Config, disk: Disk, e: nat, random: nat -> nat -> byte, bigEndian: bool): (disk': Disk)
    requires c.Valid() && c.writes && Stampable(c) && c.fileSize <= TWO_TO_THE_64 && Sized(c, disk)
    ensures Sized(c, disk')
  {
    if e == 0 then disk
    else
      var before := DiskAfter(c, disk, e - 1, random, bigEndian);
      if RequestAt(c, e - 1).operation == Fsync then before
      else DiskWith(c, before, DataSoFar(c, e - 1), random, bigEndian)
  }

  /** The bytes of request `m` are a block that validation accepts. */
  ghost predicate Good(c: Config, disk: Disk, m: nat, bigEndian: bool)
    requires c.Valid() && Stampable(c) && c.fileSize <= TWO_TO_THE_64 && Sized(c, disk)
  {
    RequestInside(c, m);
    StampableRequest(c, m);
    Accepts(Get(c, disk, DataRequest(c, m)), DataRequest(c, m).pos, bigEndian)
  }

  lemma WriteGood(c: Config, disk: Disk, n: nat, m: nat, random: nat -> nat -> byte, bigEndian: bool)
    requires c.Valid() && Stampable(c) && c.fileSize <= TWO_TO_THE_64 && Sized(c, disk)
    requires m != n ==> Good(c, disk, m, bigEndian)
    ensures Good(c, DiskWith(c, disk, n, random, bigEndian), m, bigEndian)
  {
    var q, r, block := DataRequest(c, m), DataRequest(c, n), BlockOf(c, n, random, bigEndian);
    RequestInside(c, m);
    RequestInside(c, n);
    SameOrApart(c, m, n);
    GetPut(c, disk, q, r, block);
    StampedAccepted(Drawn(r.size - STAMP, random(n)), r.pos, r.pos, bigEndian);
  }

  /** After any number of requests, whatever has been written is accepted. */
  lemma {:induction false} WrittenGood(c: Config, disk: Disk, e: nat, m: nat,
                                           random: nat -> nat -> byte, bigEndian: bool)
    requires c.Valid() && c.writes && Stampable(c) && c.fileSize <= TWO_TO_THE_64 && Sized(c, disk)
    requires m < DataSoFar(c, e)
    ensures Good(c, DiskAfter(c, disk, e, random, bigEndian), m, bigEndian)
  {
    var n := DataSoFar(c, e - 1);
    RunTiles(c, e - 1);
    if m < n {
      WrittenGood(c, disk, e - 1, m, random, bigEndian);
    }
    if RequestAt(c, e - 1).operation != Fsync {
      WriteGood(c, DiskAfter(c, disk, e - 1, random, bigEndian), n, m, random, bigEndian);
    }
  }

  /** A request of a later pass is for the same bytes as one of the first. */
  lemma FirstPass(c: Config, m: nat) returns (m': nat)
    requires c.Valid()
    ensures m' < PerFile(c) * c.files && DataRequest(c, m') == DataRequest(c, m)
  {
    var k, j, g := PerFile(c), m % PerFile(c), m / PerFile(c) % c.files;
    m' := k * g + j;
    DivUnique(m', k, g, j);
    DivUnique(g, c.files, 0, g);
    RequestNumbered(c, m, m / k, j);
    RequestNumbered(c, m', g, j);
    NextMultiple(k, g, c.files);
  }

  /**
    Once a run that writes has gone through all files, at every moment every
    block that a run that reads the same files asks for is accepted.
  */
  lemma ReadBackAccepted(c: Config, disk: Disk, e: nat, e': nat, random: nat -> nat -> byte, bigEndian: bool)
    requires c.Valid() && c.writes && Stampable(c) && c.fileSize <= TWO_TO_THE_64 && Sized(c, disk)
    requires DataSoFar(c, e) >= PerFile(c) * c.files
    ensures var r := RequestAt(c.(writes := false), e');
      && Inside(c, r) && r.size >= STAMP && r.operation == Read
      && Accepts(Get(c, DiskAfter(c, disk, e, random, bigEndian), r), r.pos, bigEndian)
  {
    var reading := c.(writes := false);
    RunTiles(reading, e');
    var m := DataSoFar(reading, e');
    ReadRequest(c, m);
    var m' := FirstPass(c, m);
    WrittenGood(c, disk, e, m', random, bigEndian);
    GoodRequest(c, DiskAfter(c, disk, e, random, bigEndian), m', bigEndian);
  }

  lemma ReadRequest(c: Config, m: nat)
    requires c.Valid() && c.writes
    ensures DataRequest(c.(writes := false), m) == DataRequest(c, m).(operation := Read)
  {
  }

  lemma GoodRequest(c: Config, disk: Disk, m: nat, bigEndian: bool)
    requires c.Valid() && Stampable(c) && c.fileSize <= TWO_TO_THE_64 && Sized(c, disk) && Good(c, disk, m, bigEndian)
    ensures var r := DataRequest(c, m).(operation := Read);
      Inside(c, r) && r.size >= STAMP && Accepts(Get(c, disk, r), r.pos, bigEndian)
  {
    RequestInside(c, m);
    StampableRequest(c, m);
  }
}
