/**
  The CRC-32 of the fileio test: the bit-at-a-time shift register that
  defines it, what a table entry means, why lookups of one or four bytes
  advance the register, and which changes of a message it always detects.

  Registers and table entries are 32-bit words; the C code keeps them in
  `unsigned long`, whose upper half it never sets.
*/
module Crc32 {
  import opened Machine
  import opened Words

  type byte = b: nat | b < 0x100
  type word = uint32

  /** Exclusive-or of two words. */
  function Add(a: word, b: word): word {
    PowerFacts();
    XorBound(32, a, b);
    Xor(a, b)
  }

  // ---------------------------------------------------------------------
  // Specification: one bit at a time
  // ---------------------------------------------------------------------

  /** x^32 mod p, with the lowest power of x in the most significant bit. */
  const POLY: word := 0xedb88320

  /** Multiplies the register by x, modulo the CRC polynomial. */
  function Shift(c: word): word {
    if c % 2 == 1 then Add(POLY, c / 2) else c / 2
  }

  /** Feeds one message bit: adds it at x^31, then multiplies by x. */
  function FeedBit(c: word, bit: bool): word {
    Shift(Add(c, if bit then 1 else 0))
  }

  function FeedBits(c: word, bits: seq<bool>): word
    decreases |bits|
  {
    if |bits| == 0 then c else FeedBits(FeedBit(c, bits[0]), bits[1..])
  }

  /** The `n` low bits of `w`, least significant first. */
  function LowBits(w: nat, n: nat): (bits: seq<bool>)
    ensures |bits| == n
  {
    if n == 0 then [] else [w % 2 == 1] + LowBits(w / 2, n - 1)
  }

  /** A byte string as a bit string, the low bit of each byte first. */
  function Bits(s: seq<byte>): (bits: seq<bool>)
    ensures |bits| == 8 * |s|
  {
    if |s| == 0 then [] else LowBits(s[0], 8) + Bits(s[1..])
  }

  /** The register after a byte string. */
  function Register(c: word, s: seq<byte>): word {
    FeedBits(c, Bits(s))
  }

  function Complement(c: word): word {
    0xffff_ffff - c
  }

  /** The CRC-32 of `s`, continuing from the CRC `crc` of what came before it. */
  function Crc(crc: word, s: seq<byte>): word {
    Complement(Register(Complement(crc), s))
  }

  // ---------------------------------------------------------------------
  // Shifting is linear over GF(2) and injective
  // ---------------------------------------------------------------------

  function ShiftN(n: nat, c: word): word {
    if n == 0 then c else ShiftN(n - 1, Shift(c))
  }

  lemma AddHalves(a: word, b: word)
    ensures Add(a, b) / 2 == Add(a / 2, b / 2)
    ensures (Add(a, b) % 2 == 1) == (a % 2 != b % 2)
  {
    XorStep(a / 2, b / 2, a % 2, b % 2);
  }

  lemma ShiftLinear(a: word, b: word)
    ensures Shift(Add(a, b)) == Add(Shift(a), Shift(b))
  {
    AddHalves(a, b);
    var x, y := a / 2, b / 2;
    XorSwap(POLY, x, POLY, y);
    XorSelf(POLY);
    XorAssoc(POLY, x, y);
    XorAssoc(x, POLY, y);
    XorComm(POLY, x);
    XorComm(Xor(x, y), 0);
    XorZero(Xor(x, y));
  }

  lemma {:induction false} ShiftNLinear(n: nat, a: word, b: word)
    ensures ShiftN(n, Add(a, b)) == Add(ShiftN(n, a), ShiftN(n, b))
  {
    if n > 0 {
      ShiftLinear(a, b);
      ShiftNLinear(n - 1, Shift(a), Shift(b));
    }
  }

  lemma {:induction false} ShiftNAdd(m: nat, n: nat, c: word)
    ensures ShiftN(m + n, c) == ShiftN(n, ShiftN(m, c))
  {
    if m > 0 {
      ShiftNAdd(m - 1, n, Shift(c));
    }
  }

  /** The feedback sets the top bit, so a zero register came from zero. */
  lemma ShiftZero(c: word)
    requires Shift(c) == 0
    ensures c == 0
  {
    if c % 2 == 1 {
      XorZeroEqual(POLY, c / 2);
    }
  }

  lemma {:induction false} ShiftNZero(n: nat, c: word)
    requires ShiftN(n, c) == 0
    ensures c == 0
  {
    if n > 0 {
      ShiftNZero(n - 1, Shift(c));
      ShiftZero(c);
    }
  }

  // ---------------------------------------------------------------------
  // Feeding a whole byte at once
  // ---------------------------------------------------------------------

  lemma FeedBitAndRest(c: word, i: nat, v: word)
    requires i < 2 && 2 * v + i < 0x1_0000_0000
    ensures Shift(Add(c, 2 * v + i)) == Add(FeedBit(c, i == 1), v)
  {
    XorStep(0, v, i, 0);
    XorComm(0, v);
    XorZero(v);
    assert Xor(i, 2 * v) == 2 * v + i;
    XorAssoc(c, i, 2 * v);
    ShiftLinear(Add(c, i), 2 * v);
  }

  /** Feeding the `n` bits of `w` is adding `w` and shifting `n` times. */
  lemma {:induction false} FeedLowBits(c: word, w: word, n: nat)
    requires w < Pow2(n)
    ensures FeedBits(c, LowBits(w, n)) == ShiftN(n, Add(c, w))
    decreases n
  {
    if n == 0 {
      XorZero(c);
    } else {
      FeedBitAndRest(c, w % 2, w / 2);
      FeedLowBits(FeedBit(c, w % 2 == 1), w / 2, n - 1);
      assert LowBits(w, n)[1..] == LowBits(w / 2, n - 1);
    }
  }

  lemma {:induction false} LowBitsConcat(k: nat, low: nat, high: nat, n: nat)
    requires low < Pow2(k)
    ensures LowBits(low + Shl(k, high), k + n) == LowBits(low, k) + LowBits(high, n)
  {
    if k > 0 {
      LowBitsConcat(k - 1, low / 2, high, n);
      assert (low + Shl(k, high)) / 2 == low / 2 + Shl(k - 1, high);
    }
  }

  lemma {:induction false} FeedConcat(c: word, s: seq<bool>, t: seq<bool>)
    ensures FeedBits(c, s + t) == FeedBits(FeedBits(c, s), t)
    decreases |s|
  {
    if |s| == 0 {
      assert s + t == t;
    } else {
      assert (s + t)[1..] == s[1..] + t;
      FeedConcat(FeedBit(c, s[0]), s[1..], t);
    }
  }

  lemma {:induction false} BitsConcat(s: seq<byte>, t: seq<byte>)
    ensures Bits(s + t) == Bits(s) + Bits(t)
    decreases |s|
  {
    if |s| == 0 {
      assert s + t == t;
    } else {
      assert (s + t)[1..] == s[1..] + t;
      BitsConcat(s[1..], t);
    }
  }

  lemma RegisterConcat(c: word, s: seq<byte>, t: seq<byte>)
    ensures Register(c, s + t) == Register(Register(c, s), t)
  {
    BitsConcat(s, t);
    FeedConcat(c, Bits(s), Bits(t));
  }

  /** Continuing from the CRC of `s` gives the CRC of the whole string. */
  lemma CrcConcat(crc: word, s: seq<byte>, t: seq<byte>)
    ensures Crc(Crc(crc, s), t) == Crc(crc, s + t)
  {
    RegisterConcat(Complement(crc), s, t);
  }

  lemma RegisterByte(c: word, b: byte)
    ensures Register(c, [b]) == ShiftN(8, Add(c, b))
  {
    PowerFacts();
    FeedLowBits(c, b, 8);
    assert Bits([b]) == LowBits(b, 8);
  }

  /** The number whose base-256 digits are `s`, the lowest first. */
  function LittleEndian(s: seq<byte>): nat {
    if |s| == 0 then 0 else s[0] + 0x100 * LittleEndian(s[1..])
  }

  lemma {:induction false} BitsOfLittleEndian(s: seq<byte>)
    ensures Bits(s) == LowBits(LittleEndian(s), 8 * |s|)
    decreases |s|
  {
    if |s| > 0 {
      BitsOfLittleEndian(s[1..]);
      PowerFacts();
      ShlIsProduct(8, LittleEndian(s[1..]));
      LowBitsConcat(8, s[0], LittleEndian(s[1..]), 8 * |s[1..]|);
    }
  }

  /** A word from its four bytes, the lowest first. */
  function Join(b0: byte, b1: byte, b2: byte, b3: byte): word {
    b0 + 0x100 * b1 + 0x1_0000 * b2 + 0x100_0000 * b3
  }

  lemma JoinIsLittleEndian(b0: byte, b1: byte, b2: byte, b3: byte)
    ensures LittleEndian([b0, b1, b2, b3]) == Join(b0, b1, b2, b3)
  {
    assert LittleEndian([b3]) == b3;
    assert [b2, b3][1..] == [b3];
    assert LittleEndian([b2, b3]) == b2 + 0x100 * b3;
    assert [b1, b2, b3][1..] == [b2, b3];
    assert LittleEndian([b1, b2, b3]) == b1 + 0x100 * b2 + 0x1_0000 * b3;
    assert [b0, b1, b2, b3][1..] == [b1, b2, b3];
  }

  /** Feeding four bytes is adding them as one word and shifting 32 times. */
  lemma RegisterFour(c: word, b0: byte, b1: byte, b2: byte, b3: byte)
    ensures Register(c, [b0, b1, b2, b3]) == ShiftN(32, Add(c, Join(b0, b1, b2, b3)))
  {
    PowerFacts();
    BitsOfLittleEndian([b0, b1, b2, b3]);
    JoinIsLittleEndian(b0, b1, b2, b3);
    FeedLowBits(c, Join(b0, b1, b2, b3), 32);
  }

  lemma {:induction false} ShiftNInjective(n: nat, c: word, d: word)
    requires ShiftN(n, c) == ShiftN(n, d)
    ensures c == d
  {
    ShiftNLinear(n, c, d);
    XorSelf(ShiftN(n, c));
    ShiftNZero(n, Add(c, d));
    XorZeroEqual(c, d);
  }

  lemma {:induction false} XorOnes(n: nat, a: nat)
    requires a < Pow2(n)
    ensures Xor(a, Pow2(n) - 1) == Pow2(n) - 1 - a
  {
    if n > 0 {
      XorOnes(n - 1, a / 2);
      XorStep(a / 2, Pow2(n - 1) - 1, a % 2, 1);
    }
  }

  const ONES: word := 0xffff_ffff
  const WORD_BITS: nat := 32

  lemma FourBytesWord(t: seq<byte>)
    requires |t| == 4
    ensures LittleEndian(t) < 0x1_0000_0000
  {
    assert t == [t[0], t[1], t[2], t[3]];
    JoinIsLittleEndian(t[0], t[1], t[2], t[3]);
  }

  /** What four bytes do to a register, by the number they make. */
  lemma FourBytes(c: word, t: seq<byte>)
    requires |t| == 4
    ensures LittleEndian(t) < 0x1_0000_0000 && Register(c, t) == ShiftN(WORD_BITS, Add(c, LittleEndian(t)))
  {
    assert t == [t[0], t[1], t[2], t[3]];
    JoinIsLittleEndian(t[0], t[1], t[2], t[3]);
    RegisterFour(c, t[0], t[1], t[2], t[3]);
  }

  lemma CrcFourMore(crc: word, s: seq<byte>, t: seq<byte>, v: word)
    requires |t| == 4 && v == LittleEndian(t)
    ensures Crc(crc, s + t) == 0xffff_ffff - ShiftN(WORD_BITS, Add(0xffff_ffff - Crc(crc, s), v))
  {
    RegisterConcat(0xffff_ffff - crc, s, t);
    FourBytes(Register(0xffff_ffff - crc, s), t);
  }

  lemma SameOnlyIfZero(c: word, v: word)
    ensures ShiftN(WORD_BITS, Add(c, v)) == 0 <==> c == v
  {
    XorSelf(c);
    ShiftNLinear(WORD_BITS, c, c);
    XorSelf(ShiftN(WORD_BITS, c));
    if ShiftN(WORD_BITS, Add(c, v)) == 0 {
      ShiftNZero(WORD_BITS, Add(c, v));
      XorZeroEqual(c, v);
    }
  }

  lemma InverseOnlyIfOnes(c: word, v: word)
    ensures ShiftN(WORD_BITS, Add(c, v)) == ShiftN(WORD_BITS, ONES) <==> v == 0xffff_ffff - c
  {
    PowerFacts();
    XorOnes(32, c);
    XorComm(c, v);
    XorCancel(v, c);
    if ShiftN(WORD_BITS, Add(c, v)) == ShiftN(WORD_BITS, ONES) {
      ShiftNInjective(WORD_BITS, Add(c, v), ONES);
      XorComm(0xffff_ffff, c);
    }
    if v == 0xffff_ffff - c {
      XorComm(0xffff_ffff, c);
      XorCancel(0xffff_ffff, c);
    }
  }

  lemma ResidueOf(crc: word, v: word)
    ensures ShiftN(WORD_BITS, Add(0xffff_ffff - crc, v)) == 0 <==> v == 0xffff_ffff - crc
    ensures ShiftN(WORD_BITS, Add(0xffff_ffff - crc, v)) == ShiftN(WORD_BITS, ONES) <==> v == crc
  {
    SameOnlyIfZero(0xffff_ffff - crc, v);
    InverseOnlyIfOnes(0xffff_ffff - crc, v);
  }

  /** Four bytes lead the CRC of a message to all ones exactly if they hold its inverted CRC. */
  lemma InvertedResidue(crc: word, s: seq<byte>, t: seq<byte>)
    requires |t| == 4
    ensures Crc(crc, s + t) == 0xffff_ffff <==> LittleEndian(t) == 0xffff_ffff - Crc(crc, s)
  {
    FourBytesWord(t);
    CrcFourMore(crc, s, t, LittleEndian(t));
    ResidueOf(Crc(crc, s), LittleEndian(t));
  }

  /** In particular, the CRC of four bytes 0xff is all ones. */
  lemma FourOnes()
    ensures Crc(0, [0xff, 0xff, 0xff, 0xff]) == 0xffff_ffff
  {
    var t: seq<byte> := [0xff, 0xff, 0xff, 0xff];
    JoinIsLittleEndian(0xff, 0xff, 0xff, 0xff);
    assert [] + t == t;
    assert Crc(0, []) == 0;
    InvertedResidue(0, [], t);
  }

  /** Four bytes lead it to one other constant exactly if they hold the CRC. */
  lemma Residue(crc: word, s: seq<byte>, t: seq<byte>)
    requires |t| == 4
    ensures Crc(crc, s + t) == 0xffff_ffff - ShiftN(WORD_BITS, ONES) <==> LittleEndian(t) == Crc(crc, s)
  {
    FourBytesWord(t);
    CrcFourMore(crc, s, t, LittleEndian(t));
    ResidueOf(Crc(crc, s), LittleEndian(t));
  }

  // ---------------------------------------------------------------------
  // Tables
  // ---------------------------------------------------------------------

  function Zeros(k: nat): seq<byte> {
    seq(k, i => 0)
  }

  /** What the k-th table holds: the register of `b` followed by `k` zero bytes. */
  function Entry(k: nat, b: byte): word {
    Register(0, [b] + Zeros(k))
  }

  lemma EntryNext(k: nat, b: byte)
    ensures Entry(k + 1, b) == ShiftN(8, Entry(k, b))
  {
    assert [b] + Zeros(k + 1) == ([b] + Zeros(k)) + [0];
    RegisterConcat(0, [b] + Zeros(k), [0]);
    RegisterByte(Entry(k, b), 0);
    XorZero(Entry(k, b));
  }

  lemma {:induction false} EntryIsShift(k: nat, b: byte)
    ensures Entry(k, b) == ShiftN(8 * (k + 1), b)
  {
    if k == 0 {
      XorComm(0, b);
      XorZero(b);
      assert [b] + Zeros(0) == [b];
      RegisterByte(0, b);
    } else {
      EntryIsShift(k - 1, b);
      EntryNext(k - 1, b);
      ShiftNAdd(8 * k, 8, b);
    }
  }

  lemma {:induction false} ShiftUndoesShl(n: nat, y: nat)
    requires Shl(n, y) < 0x1_0000_0000
    ensures y < 0x1_0000_0000 && ShiftN(n, Shl(n, y)) == y
  {
    if n > 0 {
      ShiftUndoesShl(n - 1, y);
    }
  }

  /** Shifting by a byte's worth or more separates the low byte from the rest. */
  lemma PeelByte(n: nat, low: byte, high: nat)
    requires low + 0x100 * high < 0x1_0000_0000
    ensures ShiftN(8 + n, low + 0x100 * high) == Add(ShiftN(8 + n, low), ShiftN(n, high))
  {
    PowerFacts();
    ShlIsProduct(8, high);
    XorSplit(8, low, 0, 0, high);
    XorZero(low);
    XorComm(0, high);
    XorZero(high);
    assert Add(low, 0x100 * high) == low + 0x100 * high;
    ShiftNLinear(8 + n, low, 0x100 * high);
    ShiftNAdd(8, n, 0x100 * high);
    ShiftUndoesShl(8, high);
  }

  /** The byte step: one table lookup replaces eight shifts. */
  lemma ByteStep(c: word, b: byte)
    ensures Register(c, [b]) == Add(Entry(0, Add(c, b) % 0x100), c / 0x100)
  {
    var x := Add(c, b);
    PowerFacts();
    XorSplit(8, c % 0x100, b, c / 0x100, 0);
    XorBound(8, c % 0x100, b);
    XorZero(c / 0x100);
    assert x / 0x100 == c / 0x100;
    RegisterByte(c, b);
    PeelByte(0, x % 0x100, x / 0x100);
    EntryIsShift(0, x % 0x100);
  }

  /** Four lookups, one for each byte of `x`, the low byte in the last table. */
  function FourEntries(x: word): word {
    Add(Add(Add(Entry(3, x % 0x100), Entry(2, x / 0x100 % 0x100)), Entry(1, x / 0x1_0000 % 0x100)),
        Entry(0, x / 0x100_0000))
  }

  lemma JoinBytes(x: word)
    ensures x == Join(x % 0x100, x / 0x100 % 0x100, x / 0x1_0000 % 0x100, x / 0x100_0000)
  {
    assert x / 0x1_0000 == x / 0x100 / 0x100 && x / 0x100_0000 == x / 0x1_0000 / 0x100;
  }

  /** The word step: four lookups replace thirty-two shifts. */
  lemma WordStep(c: word, b0: byte, b1: byte, b2: byte, b3: byte)
    ensures Register(c, [b0, b1, b2, b3]) == FourEntries(Add(c, Join(b0, b1, b2, b3)))
  {
    RegisterFour(c, b0, b1, b2, b3);
    ShiftIsFourEntries(Add(c, Join(b0, b1, b2, b3)));
  }

  lemma ShiftIsFourEntries(x: word)
    ensures ShiftN(32, x) == FourEntries(x)
  {
    JoinBytes(x);
    SplitLookups(x % 0x100, x / 0x100 % 0x100, x / 0x1_0000 % 0x100, x / 0x100_0000);
  }

  lemma AddFour(a: word, b: word, c: word, d: word)
    ensures Add(a, Add(b, Add(c, d))) == Add(Add(Add(a, b), c), d)
  {
    XorAssoc(b, c, d);
    XorAssoc(a, Xor(b, c), d);
    XorAssoc(a, b, c);
  }

  lemma SplitLookups(x0: byte, x1: byte, x2: byte, x3: byte)
    ensures ShiftN(32, Join(x0, x1, x2, x3)) ==
      Add(Add(Add(Entry(3, x0), Entry(2, x1)), Entry(1, x2)), Entry(0, x3))
  {
    var (e0, e1, e2, e3) := (ShiftN(32, x0), ShiftN(24, x1), ShiftN(16, x2), ShiftN(8, x3));
    PeelByte(24, x0, x1 + 0x100 * x2 + 0x1_0000 * x3);
    PeelByte(16, x1, x2 + 0x100 * x3);
    PeelByte(8, x2, x3);
    assert ShiftN(32, Join(x0, x1, x2, x3)) == Add(e0, Add(e1, Add(e2, e3)));
    AddFour(e0, e1, e2, e3);
    EntryIsShift(3, x0);
    EntryIsShift(2, x1);
    EntryIsShift(1, x2);
    EntryIsShift(0, x3);
  }

  // ---------------------------------------------------------------------
  // Error detection: a burst of at most 32 bits always changes the register
  // ---------------------------------------------------------------------

  function XorBits(s: seq<bool>, t: seq<bool>): (r: seq<bool>)
    requires |s| == |t|
    ensures |r| == |s|
  {
    seq(|s|, i requires 0 <= i < |s| => s[i] != t[i])
  }

  lemma FeedBitLinear(c: word, d: word, a: bool, b: bool)
    ensures FeedBit(Add(c, d), a != b) == Add(FeedBit(c, a), FeedBit(d, b))
  {
    var x, y: word := if a then 1 else 0, if b then 1 else 0;
    XorStep(0, 0, x, y);
    XorSwap(c, d, x, y);
    ShiftLinear(Add(c, x), Add(d, y));
  }

  lemma {:induction false} FeedBitsLinear(c: word, d: word, s: seq<bool>, t: seq<bool>)
    requires |s| == |t|
    ensures FeedBits(Add(c, d), XorBits(s, t)) == Add(FeedBits(c, s), FeedBits(d, t))
    decreases |s|
  {
    if |s| > 0 {
      FeedBitLinear(c, d, s[0], t[0]);
      FeedBitsLinear(FeedBit(c, s[0]), FeedBit(d, t[0]), s[1..], t[1..]);
      XorBitsTail(s, t);
    }
  }

  lemma XorBitsTail(s: seq<bool>, t: seq<bool>)
    requires |s| == |t| > 0
    ensures XorBits(s, t)[0] == (s[0] != t[0]) && XorBits(s, t)[1..] == XorBits(s[1..], t[1..])
  {
    var u, v := XorBits(s, t)[1..], XorBits(s[1..], t[1..]);
    forall i | 0 <= i < |u| ensures u[i] == v[i] {
      assert u[i] == XorBits(s, t)[i + 1] == (s[i + 1] != t[i + 1]);
      assert v[i] == (s[1..][i] != t[1..][i]);
    }
  }

  /** Feeding the same bits to different registers leaves them different. */
  lemma {:induction false} FeedInjective(c: word, d: word, s: seq<bool>)
    requires FeedBits(c, s) == FeedBits(d, s)
    ensures c == d
    decreases |s|
  {
    if |s| > 0 {
      FeedInjective(FeedBit(c, s[0]), FeedBit(d, s[0]), s[1..]);
      FeedBitLinear(c, d, s[0], s[0]);
      XorSelf(FeedBit(c, s[0]));
      XorZero(Add(c, d));
      ShiftZero(Add(c, d));
      XorZeroEqual(c, d);
    }
  }

  lemma FeedbackSetsTopBit(x: word)
    requires x < 0x8000_0000
    ensures Add(POLY, x) >= 0x8000_0000
  {
    PowerFacts();
    XorSplit(31, POLY - 0x8000_0000, x, 1, 0);
    XorZero(1);
  }

  lemma FeedBitLarge(r: word, bit: bool, m: nat)
    requires 0 < m <= 31 && r >= Pow2(m)
    ensures FeedBit(r, bit) >= Pow2(m - 1)
  {
    AddHalves(r, if bit then 1 else 0);
    XorZero(r / 2);
    FeedbackSetsTopBit(r / 2);
    PowerFacts();
    Pow2Monotone(m - 1, 31);
  }

  lemma {:induction false} Pow2Monotone(m: nat, n: nat)
    requires m <= n
    ensures Pow2(m) <= Pow2(n)
  {
    if m < n {
      Pow2Monotone(m, n - 1);
    }
  }

  lemma {:induction false} FeedBitsLarge(r: word, s: seq<bool>, m: nat)
    requires |s| <= m <= 31 && r >= Pow2(m)
    ensures FeedBits(r, s) >= Pow2(m - |s|)
    decreases |s|
  {
    if |s| > 0 {
      FeedBitLarge(r, s[0], m);
      FeedBitsLarge(FeedBit(r, s[0]), s[1..], m - 1);
    }
  }

  /** At most 32 bits fed to a zero register leave it zero only if all are zero. */
  lemma {:induction false} NonzeroBurst(s: seq<bool>)
    requires |s| <= 32 && true in s
    ensures FeedBits(0, s) != 0
  {
    XorZero(0);
    XorStep(0, 0, 0, 1);
    XorZero(POLY);
    PowerFacts();
    if s[0] {
      assert FeedBit(0, true) == POLY;
      FeedBitsLarge(POLY, s[1..], 31);
    } else {
      assert FeedBit(0, false) == 0;
      NonzeroBurst(s[1..]);
    }
  }

  lemma BurstChangesRegister(c: word, s: seq<bool>, t: seq<bool>)
    requires |s| == |t| <= 32 && s != t
    ensures FeedBits(c, s) != FeedBits(c, t)
  {
    if FeedBits(c, s) == FeedBits(c, t) {
      FeedBitsLinear(c, c, s, t);
      XorSelf(c);
      XorSelf(FeedBits(c, s));
      var i :| 0 <= i < |s| && s[i] != t[i];
      assert XorBits(s, t)[i];
      NonzeroBurst(XorBits(s, t));
    }
  }

  /** Two messages that differ, but only within 32 consecutive bits, are told apart. */
  lemma BurstDetected(c: word, s: seq<bool>, t: seq<bool>, lo: nat, hi: nat)
    requires |s| == |t| && lo <= hi <= |s| && hi - lo <= 32
    requires s[..lo] == t[..lo] && s[hi..] == t[hi..] && s != t
    ensures FeedBits(c, s) != FeedBits(c, t)
  {
    var p, u, v, q := s[..lo], s[lo..hi], t[lo..hi], s[hi..];
    assert s == p + (u + q) && t == p + (v + q);
    var d := FeedBits(c, p);
    FeedConcat(c, p, u + q);
    FeedConcat(c, p, v + q);
    FeedConcat(d, u, q);
    FeedConcat(d, v, q);
    BurstChangesRegister(d, u, v);
    if FeedBits(c, s) == FeedBits(c, t) {
      FeedInjective(FeedBits(d, u), FeedBits(d, v), q);
    }
  }
}
