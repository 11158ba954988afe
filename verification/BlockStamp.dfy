/**
  The stamp that the fileio test puts on every block in validation mode: a
  random payload, its CRC-32, and the offset of the block in its file.
*/
module BlockStamp {
  import opened Machine
  import opened Words
  import opened Wrappers
  import opened Crc32
  import opened Crc32Code

  const CHECKSUM_LENGTH: nat := 4
  const OFFSET_LENGTH: nat := 8

  // ---------------------------------------------------------------------
  // Native integers in memory
  // ---------------------------------------------------------------------

  function Digits(n: nat, v: nat): (s: seq<byte>)
    ensures |s| == n
  {
    if n == 0 then [] else [v % 0x100] + Digits(n - 1, v / 0x100)
  }

  function Reverse(s: seq<byte>): (r: seq<byte>)
    ensures |r| == |s|
  {
    seq(|s|, i requires 0 <= i < |s| => s[|s| - 1 - i])
  }

  /** The `n` bytes that a store of `v` leaves in memory. */
  function Store(n: nat, v: nat, bigEndian: bool): (s: seq<byte>)
    ensures |s| == n
  {
    if bigEndian then Reverse(Digits(n, v)) else Digits(n, v)
  }

  /** The value that a load of the bytes `s` returns. */
  function Load(s: seq<byte>, bigEndian: bool): nat {
    LittleEndian(if bigEndian then Reverse(s) else s)
  }

  lemma {:induction false} DigitsOfValue(s: seq<byte>)
    ensures Digits(|s|, LittleEndian(s)) == s
  {
    if |s| > 0 {
      DigitsOfValue(s[1..]);
      assert LittleEndian(s) / 0x100 == LittleEndian(s[1..]);
    }
  }

  lemma {:induction false} ValueOfDigits(n: nat, v: nat)
    requires v < Pow2(8 * n)
    ensures LittleEndian(Digits(n, v)) == v
  {
    if n > 0 {
      assert Pow2(8 * n) == 0x100 * Pow2(8 * (n - 1)) by {
        ShlIsProduct(8, Pow2(8 * (n - 1)));
        Pow2Sum(8, 8 * (n - 1));
        PowerFacts();
      }
      ValueOfDigits(n - 1, v / 0x100);
      assert Digits(n, v)[1..] == Digits(n - 1, v / 0x100);
    }
  }

  lemma {:induction false} Pow2Sum(m: nat, n: nat)
    ensures Pow2(m + n) == Pow2(m) * Pow2(n)
  {
    if m > 0 {
      Pow2Sum(m - 1, n);
      assert Pow2(m) * Pow2(n) == 2 * (Pow2(m - 1) * Pow2(n));
    }
  }

  /** A stored value is read back, and stored bytes are determined by the value. */
  lemma LoadStore(n: nat, v: nat, bigEndian: bool)
    requires v < Pow2(8 * n)
    ensures Load(Store(n, v, bigEndian), bigEndian) == v
  {
    ValueOfDigits(n, v);
    assert Reverse(Reverse(Digits(n, v))) == Digits(n, v);
  }

  lemma StoreLoad(s: seq<byte>, bigEndian: bool)
    ensures Store(|s|, Load(s, bigEndian), bigEndian) == s
  {
    DigitsOfValue(s);
    DigitsOfValue(Reverse(s));
    assert Reverse(Reverse(s)) == s;
  }

  lemma WordAndSizeFit()
    ensures Pow2(8 * CHECKSUM_LENGTH) == 0x1_0000_0000
    ensures Pow2(8 * OFFSET_LENGTH) == 0x1_0000_0000_0000_0000
  {
    PowerFacts();
    Pow2Sum(32, 32);
  }

  // ---------------------------------------------------------------------
  // Stamped blocks
  // ---------------------------------------------------------------------

  /** A payload followed by its checksum and the block's offset. */
  function Stamped(payload: seq<byte>, offset: uint64, bigEndian: bool): seq<byte> {
    payload + Store(CHECKSUM_LENGTH, Crc(0, payload), bigEndian) + Store(OFFSET_LENGTH, offset, bigEndian)
  }

  /** Where its parts are, and what a load of them gives. */
  lemma StampedFields(payload: seq<byte>, offset: uint64, bigEndian: bool)
    ensures var block, n := Stamped(payload, offset, bigEndian), |payload|;
      && |block| == n + 12 && block[..n] == payload
      && Load(block[n..n + 4], bigEndian) == Crc(0, payload)
      && Load(block[n + 4..n + 12], bigEndian) == offset
  {
    var block, n := Stamped(payload, offset, bigEndian), |payload|;
    WordAndSizeFit();
    assert block[n..n + 4] == Store(CHECKSUM_LENGTH, Crc(0, payload), bigEndian);
    assert block[n + 4..n + 12] == Store(OFFSET_LENGTH, offset, bigEndian);
    LoadStore(CHECKSUM_LENGTH, Crc(0, payload), bigEndian);
    LoadStore(OFFSET_LENGTH, offset, bigEndian);
  }

  /** The fields of a block. */
  function Payload(block: seq<byte>): seq<byte>
    requires |block| >= CHECKSUM_LENGTH + OFFSET_LENGTH
  {
    block[..|block| - (CHECKSUM_LENGTH + OFFSET_LENGTH)]
  }

  function Trailer(block: seq<byte>): seq<byte>
    requires |block| >= CHECKSUM_LENGTH + OFFSET_LENGTH
  {
    block[|block| - (CHECKSUM_LENGTH + OFFSET_LENGTH)..]
  }

  /** The two comparisons of `file_validate_buffer`. */
  predicate Accepts(block: seq<byte>, offset: uint64, bigEndian: bool)
    requires |block| >= CHECKSUM_LENGTH + OFFSET_LENGTH
  {
    && Load(Trailer(block)[..CHECKSUM_LENGTH], bigEndian) == Crc(0, Payload(block))
    && Load(Trailer(block)[CHECKSUM_LENGTH..], bigEndian) == offset
  }

  /** A block is accepted for an offset exactly if it is a payload stamped with it. */
  lemma AcceptsExactlyStamped(block: seq<byte>, offset: uint64, bigEndian: bool)
    requires |block| >= CHECKSUM_LENGTH + OFFSET_LENGTH
    ensures Accepts(block, offset, bigEndian) <==> block == Stamped(Payload(block), offset, bigEndian)
  {
    var sum, off := Trailer(block)[..CHECKSUM_LENGTH], Trailer(block)[CHECKSUM_LENGTH..];
    WordAndSizeFit();
    assert block == Payload(block) + sum + off;
    StoreLoad(sum, bigEndian);
    StoreLoad(off, bigEndian);
    LoadStore(CHECKSUM_LENGTH, Crc(0, Payload(block)), bigEndian);
    LoadStore(OFFSET_LENGTH, offset, bigEndian);
    if block == Stamped(Payload(block), offset, bigEndian) {
      assert sum == Store(CHECKSUM_LENGTH, Crc(0, Payload(block)), bigEndian);
      assert off == Store(OFFSET_LENGTH, offset, bigEndian);
    }
  }

  /** Every block that was filled for an offset is accepted at that offset, and at no other. */
  lemma StampedAccepted(payload: seq<byte>, offset: uint64, offset': uint64, bigEndian: bool)
    ensures Accepts(Stamped(payload, offset, bigEndian), offset', bigEndian) <==> offset == offset'
  {
    var block := Stamped(payload, offset, bigEndian);
    assert Payload(block) == payload;
    AcceptsExactlyStamped(block, offset, bigEndian);
  }

  /** Altering a stamped block only in its checksum and offset is always detected. */
  lemma AlteredTrailerRejected(block: seq<byte>, block': seq<byte>, offset: uint64, bigEndian: bool)
    requires |block| == |block'| >= CHECKSUM_LENGTH + OFFSET_LENGTH
    requires Accepts(block, offset, bigEndian)
    requires Payload(block) == Payload(block') && block != block'
    ensures !Accepts(block', offset, bigEndian)
  {
    AcceptsExactlyStamped(block, offset, bigEndian);
    AcceptsExactlyStamped(block', offset, bigEndian);
  }

  // ---------------------------------------------------------------------
  // Altered payloads
  // ---------------------------------------------------------------------

  lemma {:induction false} LowBitsInjective(v: nat, w: nat, n: nat)
    requires v < Pow2(n) && w < Pow2(n)
    requires LowBits(v, n) == LowBits(w, n)
    ensures v == w
  {
    if n > 0 {
      assert LowBits(v, n)[0] == LowBits(w, n)[0];
      assert LowBits(v, n)[1..] == LowBits(v / 2, n - 1);
      assert LowBits(w, n)[1..] == LowBits(w / 2, n - 1);
      LowBitsInjective(v / 2, w / 2, n - 1);
    }
  }

  lemma {:induction false} BitsInjective(s: seq<byte>, t: seq<byte>)
    requires |s| == |t| && Bits(s) == Bits(t)
    ensures s == t
  {
    if |s| > 0 {
      assert Bits(s)[..8] == LowBits(s[0], 8) && Bits(t)[..8] == LowBits(t[0], 8);
      assert Bits(s)[8..] == Bits(s[1..]) && Bits(t)[8..] == Bits(t[1..]);
      PowerFacts();
      LowBitsInjective(s[0], t[0], 8);
      BitsInjective(s[1..], t[1..]);
      assert s == [s[0]] + s[1..] && t == [t[0]] + t[1..];
    }
  }

  lemma BurstChangesCrc(p: seq<byte>, q: seq<byte>, lo: nat, hi: nat)
    requires |p| == |q| && p != q
    requires lo <= hi <= |Bits(p)| && hi - lo <= 32
    requires Bits(p)[..lo] == Bits(q)[..lo] && Bits(p)[hi..] == Bits(q)[hi..]
    ensures Crc(0, p) != Crc(0, q)
  {
    if Bits(p) == Bits(q) {
      BitsInjective(p, q);
    } else {
      BurstDetected(Complement(0), Bits(p), Bits(q), lo, hi);
    }
  }

  lemma PayloadsDiffer(block: seq<byte>, block': seq<byte>)
    requires |block| == |block'| >= CHECKSUM_LENGTH + OFFSET_LENGTH
    requires Trailer(block) == Trailer(block') && block != block'
    ensures Payload(block) != Payload(block')
  {
    assert block == Payload(block) + Trailer(block) && block' == Payload(block') + Trailer(block');
  }

  lemma ChangedCrcRejected(block: seq<byte>, block': seq<byte>, offset: uint64, bigEndian: bool)
    requires |block| == |block'| >= CHECKSUM_LENGTH + OFFSET_LENGTH
    requires Accepts(block, offset, bigEndian)
    requires Trailer(block) == Trailer(block')
    requires Crc(0, Payload(block)) != Crc(0, Payload(block'))
    ensures !Accepts(block', offset, bigEndian)
  {
  }

  /** Altering a payload only within 32 consecutive bits is always detected. */
  lemma BurstRejected(block: seq<byte>, block': seq<byte>, offset: uint64, bigEndian: bool, lo: nat, hi: nat)
    requires |block| == |block'| >= CHECKSUM_LENGTH + OFFSET_LENGTH
    requires Accepts(block, offset, bigEndian)
    requires Trailer(block) == Trailer(block') && block != block'
    requires lo <= hi <= |Bits(Payload(block))| && hi - lo <= 32
    requires Bits(Payload(block))[..lo] == Bits(Payload(block'))[..lo]
    requires Bits(Payload(block))[hi..] == Bits(Payload(block'))[hi..]
    ensures !Accepts(block', offset, bigEndian)
  {
    PayloadsDiffer(block, block');
    BurstChangesCrc(Payload(block), Payload(block'), lo, hi);
    ChangedCrcRejected(block, block', offset, bigEndian);
  }

  /** In particular, so is altering it only within four consecutive bytes. */
  lemma FourBytesRejected(block: seq<byte>, block': seq<byte>, offset: uint64, bigEndian: bool, i: nat, j: nat)
    requires |block| == |block'| >= CHECKSUM_LENGTH + OFFSET_LENGTH
    requires Accepts(block, offset, bigEndian)
    requires i <= j <= |Payload(block)| && j - i <= 4
    requires block[..i] == block'[..i] && block[j..] == block'[j..] && block != block'
    ensures !Accepts(block', offset, bigEndian)
  {
    var p, q := Payload(block), Payload(block');
    assert p[..i] == block[..i] && q[..i] == block'[..i];
    assert Trailer(block) == block[j..][|p| - j..] && Trailer(block') == block'[j..][|p| - j..];
    assert p[j..] == block[j..][..|p| - j] && q[j..] == block'[j..][..|p| - j];
    SliceBits(p, i);
    SliceBits(q, i);
    SliceBits(p, j);
    SliceBits(q, j);
    BurstRejected(block, block', offset, bigEndian, 8 * i, 8 * j);
  }

  lemma SliceBits(s: seq<byte>, i: nat)
    requires i <= |s|
    ensures Bits(s)[..8 * i] == Bits(s[..i]) && Bits(s)[8 * i..] == Bits(s[i..])
  {
    assert s == s[..i] + s[i..];
    BitsConcat(s[..i], s[i..]);
  }

  // ---------------------------------------------------------------------
  // The code
  // ---------------------------------------------------------------------

  method PutBytes(buf: array<byte>, at: nat, s: seq<byte>)
    requires at + |s| <= buf.Length
    modifies buf
    ensures buf[..] == old(buf[..at]) + s + old(buf[at + |s|..])
  {
    forall i | 0 <= i < |s| {
      buf[at + i] := s[i];
    }
  }

  /** The payload length as the code computes it, in unsigned 64-bit arithmetic. */
  function PayloadLength(len: uint32): uint64 {
    (len - (CHECKSUM_LENGTH + OFFSET_LENGTH)) % TWO_TO_THE_64
  }

  /** It is the length of a payload in the block exactly if there is room for checksum and offset. */
  lemma PayloadInside(len: uint32)
    ensures PayloadLength(len) + CHECKSUM_LENGTH + OFFSET_LENGTH == len <==> len >= CHECKSUM_LENGTH + OFFSET_LENGTH
    ensures len < CHECKSUM_LENGTH + OFFSET_LENGTH ==> PayloadLength(len) > TWO_TO_THE_32
  {
  }

  /** The first `n` bytes of the generator. */
  function Drawn(n: nat, random: nat -> byte): (s: seq<byte>)
    ensures |s| == n && forall i :: 0 <= i < n ==> s[i] == random(i)
  {
    seq(n, i requires 0 <= i < n => random(i))
  }

  /** The loop of `file_fill_buffer`. */
  method FillPayload(buf: array<byte>, n: nat, random: nat -> byte) returns (i: nat)
    requires n <= buf.Length
    modifies buf
    ensures i == n && buf[..] == Drawn(n, random) + old(buf[n..])
  {
    i := 0;
    while i < n
      invariant 0 <= i <= n
      invariant forall j :: 0 <= j < i ==> buf[j] == random(j)
      invariant forall j :: i <= j < buf.Length ==> buf[j] == old(buf[j])
    {
      buf[i] := random(i);
      i := i + 1;
    }
  }

  /**
    `file_fill_buffer`; `random` gives the bytes drawn from the generator.
    For a block without room for checksum and offset the computed payload
    length is larger than any buffer; `inside` is false exactly then, and the
    model stops before the write that would leave the buffer.
  */
  method FillBuffer(t: array2<word>, buf: array<byte>, len: uint32, offset: uint64, random: nat -> byte,
                    addr: nat, bigEndian: bool)
    returns (inside: bool)
    requires TablesMade(t) && t as object != buf && len <= buf.Length <= TWO_TO_THE_32
    modifies buf
    ensures inside <==> len >= CHECKSUM_LENGTH + OFFSET_LENGTH
    ensures inside ==> buf[..len] == Stamped(Drawn(PayloadLength(len), random), offset, bigEndian)
    ensures inside ==> buf[len..] == old(buf[len..])
    ensures !inside ==> PayloadLength(len) > buf.Length
  {
    var n := PayloadLength(len);
    PayloadInside(len);
    if n > buf.Length {
      return false;
    }
    var i := FillPayload(buf, n, random);
    var checksum := Compute(t, 0, Some(buf[..n]), addr, bigEndian);
    PutBytes(buf, i, Store(CHECKSUM_LENGTH, checksum, bigEndian));
    PutBytes(buf, i + CHECKSUM_LENGTH, Store(OFFSET_LENGTH, offset, bigEndian));
    inside := true;
  }

  /**
    `file_validate_buffer`: zero means the block is accepted. The payload
    length is stored in 32 bits; there is no result exactly for a block
    without room for checksum and offset, where it points past the block.
  */
  method ValidateBuffer(t: array2<word>, buf: array<byte>, len: uint32, offset: uint64, addr: nat, bigEndian: bool)
    returns (rc: Option<int>)
    requires TablesMade(t) && len <= buf.Length
    ensures rc.None? <==> len < CHECKSUM_LENGTH + OFFSET_LENGTH
    ensures rc.Some? ==> rc.value == if Accepts(buf[..len], offset, bigEndian) then 0 else 1
  {
    var n := PayloadLength(len) % TWO_TO_THE_32;
    ChecksumOffset(len);
    if n > len {
      return None;
    }
    var checksum := Compute(t, 0, Some(buf[..n]), addr, bigEndian);
    ghost var block := buf[..len];
    assert Payload(block) == buf[..n];
    assert Trailer(block)[..CHECKSUM_LENGTH] == buf[n..n + CHECKSUM_LENGTH];
    assert Trailer(block)[CHECKSUM_LENGTH..] == buf[n + CHECKSUM_LENGTH..len];
    if checksum != Load(buf[n..n + CHECKSUM_LENGTH], bigEndian) {
      return Some(1);
    }
    if offset != Load(buf[n + CHECKSUM_LENGTH..len], bigEndian) {
      return Some(1);
    }
    return Some(0);
  }

  lemma ChecksumOffset(len: uint32)
    ensures var n := PayloadLength(len) % TWO_TO_THE_32;
      if len >= CHECKSUM_LENGTH + OFFSET_LENGTH then n + CHECKSUM_LENGTH + OFFSET_LENGTH == len else n > len
  {
  }
}
