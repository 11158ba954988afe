/**
  The CRC-32 code of the fileio test: table generation and the two loops that
  consume four bytes a step, one for little-endian and one for big-endian
  word loads. Both are proved to compute `Crc32.Crc`.
*/
module Crc32Code {
  import opened Wrappers
  import opened Words
  import opened Crc32

  // ---------------------------------------------------------------------
  // Byte reversal
  // ---------------------------------------------------------------------

  /** The `REV` macro: the four bytes of a word in the opposite order. */
  function Rev(w: word): word {
    w / 0x100_0000 + w / 0x1_0000 % 0x100 * 0x100 + w / 0x100 % 0x100 * 0x1_0000 + w % 0x100 * 0x100_0000
  }

  /** The base-256 digits of a word joined from four bytes. */
  lemma JoinDigits(b0: byte, b1: byte, b2: byte, b3: byte)
    ensures var w := Join(b0, b1, b2, b3);
      w % 0x100 == b0 && w / 0x100 % 0x100 == b1 && w / 0x1_0000 % 0x100 == b2 && w / 0x100_0000 == b3
  {
    var w := Join(b0, b1, b2, b3);
    assert w / 0x100 == b1 + 0x100 * b2 + 0x1_0000 * b3;
    assert w / 0x1_0000 == b2 + 0x100 * b3;
  }

  lemma RevJoin(b0: byte, b1: byte, b2: byte, b3: byte)
    ensures Rev(Join(b0, b1, b2, b3)) == Join(b3, b2, b1, b0)
  {
    JoinDigits(b0, b1, b2, b3);
  }

  lemma XorByte(a: byte, b: byte, x: nat, y: nat)
    ensures Xor(a, b) < 0x100
    ensures Xor(a + 0x100 * x, b + 0x100 * y) == Xor(a, b) + 0x100 * Xor(x, y)
  {
    PowerFacts();
    XorBound(8, a, b);
    XorSplit(8, a, b, x, y);
  }

  /** Exclusive-or works byte by byte. */
  function XorBytes(s: seq<byte>, t: seq<byte>): (r: seq<byte>)
    requires |s| == |t|
    ensures |r| == |s|
  {
    if |s| == 0 then [] else XorByte(s[0], t[0], 0, 0); [Xor(s[0], t[0])] + XorBytes(s[1..], t[1..])
  }

  lemma {:induction false} XorLittleEndian(s: seq<byte>, t: seq<byte>)
    requires |s| == |t|
    ensures Xor(LittleEndian(s), LittleEndian(t)) == LittleEndian(XorBytes(s, t))
  {
    if |s| > 0 {
      XorLittleEndian(s[1..], t[1..]);
      XorByte(s[0], t[0], LittleEndian(s[1..]), LittleEndian(t[1..]));
      assert XorBytes(s, t)[1..] == XorBytes(s[1..], t[1..]);
    }
  }

  lemma AddJoin(a0: byte, a1: byte, a2: byte, a3: byte, b0: byte, b1: byte, b2: byte, b3: byte)
    ensures Xor(a0, b0) < 0x100 && Xor(a1, b1) < 0x100 && Xor(a2, b2) < 0x100 && Xor(a3, b3) < 0x100
    ensures Add(Join(a0, a1, a2, a3), Join(b0, b1, b2, b3))
         == Join(Xor(a0, b0), Xor(a1, b1), Xor(a2, b2), Xor(a3, b3))
  {
    var s, t := [a0, a1, a2, a3], [b0, b1, b2, b3];
    XorLittleEndian(s, t);
    JoinIsLittleEndian(a0, a1, a2, a3);
    JoinIsLittleEndian(b0, b1, b2, b3);
    var r := XorBytes(s, t);
    XorBytesAt(s, t);
    assert r == [r[0], r[1], r[2], r[3]];
    JoinIsLittleEndian(r[0], r[1], r[2], r[3]);
  }

  lemma {:induction false} XorBytesAt(s: seq<byte>, t: seq<byte>)
    requires |s| == |t|
    ensures forall i :: 0 <= i < |s| ==> XorBytes(s, t)[i] == Xor(s[i], t[i])
  {
    if |s| > 0 {
      XorBytesAt(s[1..], t[1..]);
    }
  }

  lemma RevRev(w: word)
    ensures Rev(Rev(w)) == w
  {
    var b0, b1, b2, b3 := w % 0x100, w / 0x100 % 0x100, w / 0x1_0000 % 0x100, w / 0x100_0000;
    JoinBytes(w);
    RevJoin(b0, b1, b2, b3);
    RevJoin(b3, b2, b1, b0);
  }

  lemma RevAddJoin(a0: byte, a1: byte, a2: byte, a3: byte, b0: byte, b1: byte, b2: byte, b3: byte)
    ensures var a, b := Join(a0, a1, a2, a3), Join(b0, b1, b2, b3);
      Rev(Add(a, b)) == Add(Rev(a), Rev(b))
  {
    AddJoin(a0, a1, a2, a3, b0, b1, b2, b3);
    RevJoin(Xor(a0, b0), Xor(a1, b1), Xor(a2, b2), Xor(a3, b3));
    RevJoin(a0, a1, a2, a3);
    RevJoin(b0, b1, b2, b3);
    AddJoin(a3, a2, a1, a0, b3, b2, b1, b0);
  }

  lemma RevAdd(a: word, b: word)
    ensures Rev(Add(a, b)) == Add(Rev(a), Rev(b))
  {
    JoinBytes(a);
    JoinBytes(b);
    RevAddJoin(a % 0x100, a / 0x100 % 0x100, a / 0x1_0000 % 0x100, a / 0x100_0000,
               b % 0x100, b / 0x100 % 0x100, b / 0x1_0000 % 0x100, b / 0x100_0000);
  }

  lemma RevComplement(w: word)
    ensures Rev(Complement(w)) == Complement(Rev(w))
  {
    var b0, b1, b2, b3 := w % 0x100, w / 0x100 % 0x100, w / 0x1_0000 % 0x100, w / 0x100_0000;
    JoinBytes(w);
    assert Complement(w) == Join(0xff - b0, 0xff - b1, 0xff - b2, 0xff - b3);
    RevJoin(0xff - b0, 0xff - b1, 0xff - b2, 0xff - b3);
  }

  /** The bytes of a reversed word. */
  lemma RevBytes(w: word)
    ensures Rev(w) % 0x100 == w / 0x100_0000
    ensures Rev(w) / 0x100 % 0x100 == w / 0x1_0000 % 0x100
    ensures Rev(w) / 0x1_0000 % 0x100 == w / 0x100 % 0x100
    ensures Rev(w) / 0x100_0000 == w % 0x100
  {
    JoinDigits(w / 0x100_0000, w / 0x1_0000 % 0x100, w / 0x100 % 0x100, w % 0x100);
  }

  lemma Truncate(r: word, q: nat)
    ensures (r + 0x1_0000_0000 * q) % 0x1_0000_0000 == r
  {
  }

  lemma JoinShift(b0: byte, b1: byte, b2: byte, b3: byte)
    ensures Join(b0, b1, b2, b3) / 0x100 == Join(b1, b2, b3, 0)
    ensures Join(b0, b1, b2, b3) * 0x100 % 0x1_0000_0000 == Join(0, b0, b1, b2)
  {
    Truncate(Join(0, b0, b1, b2), b3);
  }

  lemma RevShiftJoin(b0: byte, b1: byte, b2: byte, b3: byte)
    ensures Rev(Join(b0, b1, b2, b3) / 0x100) == Rev(Join(b0, b1, b2, b3)) * 0x100 % 0x1_0000_0000
  {
    RevJoin(b0, b1, b2, b3);
    JoinShift(b0, b1, b2, b3);
    JoinShift(b3, b2, b1, b0);
    RevJoin(b1, b2, b3, 0);
  }

  /** Reversal turns a right shift by a byte into a left shift. */
  lemma RevShift(w: word)
    ensures Rev(w / 0x100) == Rev(w) * 0x100 % 0x1_0000_0000
  {
    JoinBytes(w);
    RevShiftJoin(w % 0x100, w / 0x100 % 0x100, w / 0x1_0000 % 0x100, w / 0x100_0000);
  }

  // ---------------------------------------------------------------------
  // Tables
  // ---------------------------------------------------------------------

  ghost predicate FirstTable(t: array2<word>, n: nat)
    requires t.Length0 == 8 && t.Length1 == 256 && n <= 256
    reads t
  {
    forall b :: 0 <= b < n ==> t[0, b] == Entry(0, b)
  }

  /** Columns `0..n` of tables `0..k` and of their reversals are done. */
  ghost predicate Columns(t: array2<word>, k: nat, lo: nat, n: nat)
    requires t.Length0 == 8 && t.Length1 == 256 && k <= 4 && n <= 256
    reads t
  {
    forall j, b :: 0 <= j < k && lo <= b < n ==> t[j, b] == Entry(j, b) && t[j + 4, b] == Rev(Entry(j, b))
  }

  /** Table k holds each byte followed by k zero bytes; table k + 4 its reversal. */
  ghost predicate TablesMade(t: array2<word>)
    reads t
  {
    t.Length0 == 8 && t.Length1 == 256 && Columns(t, 4, 0, 256)
  }

  /** The exponents of the polynomial's terms below x^32. */
  const TERMS: seq<nat> := [0, 1, 2, 4, 5, 7, 8, 10, 11, 12, 16, 22, 23, 26]

  /** `w | 1 << k` */
  function SetBit(w: nat, k: nat): nat {
    if w / Pow2(k) % 2 == 1 then w else w + Pow2(k)
  }

  /** The first `n` terms as a word, x^0 in the most significant bit. */
  function Pattern(n: nat): nat
    requires n <= |TERMS|
  {
    if n == 0 then 0 else SetBit(Pattern(n - 1), 31 - TERMS[n - 1])
  }

  lemma PowersOfTwo()
    ensures Pow2(5) == 0x20 && Pow2(8) == 0x100 && Pow2(9) == 0x200 && Pow2(15) == 0x8000
    ensures Pow2(19) == 0x8_0000 && Pow2(20) == 0x10_0000 && Pow2(21) == 0x20_0000
    ensures Pow2(23) == 0x80_0000 && Pow2(24) == 0x100_0000 && Pow2(26) == 0x400_0000
    ensures Pow2(27) == 0x800_0000 && Pow2(29) == 0x2000_0000 && Pow2(30) == 0x4000_0000
    ensures Pow2(31) == 0x8000_0000
  {
  }

  lemma PatternStep(n: nat, w: nat, p: nat)
    requires n < |TERMS| && Pattern(n) == w
    requires Pow2(31 - TERMS[n]) == p && w / p % 2 == 0
    ensures Pattern(n + 1) == w + p
  {
  }

  lemma PatternIsPoly()
    ensures Pattern(|TERMS|) == POLY
  {
    PowersOfTwo();
    PatternStep(0, 0x0, 0x8000_0000);
    PatternStep(1, 0x8000_0000, 0x4000_0000);
    PatternStep(2, 0xc000_0000, 0x2000_0000);
    PatternStep(3, 0xe000_0000, 0x800_0000);
    PatternStep(4, 0xe800_0000, 0x400_0000);
    PatternStep(5, 0xec00_0000, 0x100_0000);
    PatternStep(6, 0xed00_0000, 0x80_0000);
    PatternStep(7, 0xed80_0000, 0x20_0000);
    PatternStep(8, 0xeda0_0000, 0x10_0000);
    PatternStep(9, 0xedb0_0000, 0x8_0000);
    PatternStep(10, 0xedb8_0000, 0x8000);
    PatternStep(11, 0xedb8_8000, 0x200);
    PatternStep(12, 0xedb8_8200, 0x100);
    PatternStep(13, 0xedb8_8300, 0x20);
  }

  lemma NextEntry(k: nat, b: byte)
    ensures Entry(k + 1, b) == Add(Entry(0, Entry(k, b) % 0x100), Entry(k, b) / 0x100)
  {
    var c := Entry(k, b);
    assert [b] + Zeros(k + 1) == ([b] + Zeros(k)) + [0];
    RegisterConcat(0, [b] + Zeros(k), [0]);
    ByteStep(c, 0);
    XorZero(c);
  }

  method MakePolynomial() returns (poly: word)
    ensures poly == POLY
  {
    var w := 0;
    var n := 0;
    while n < |TERMS|
      invariant 0 <= n <= |TERMS| && w == Pattern(n)
    {
      w := SetBit(w, 31 - TERMS[n]);
      n := n + 1;
    }
    PatternIsPoly();
    poly := w;
  }

  method MakeFirstEntry(poly: word, n: byte) returns (c: word)
    requires poly == POLY
    ensures c == Entry(0, n)
  {
    c := n;
    var k := 0;
    while k < 8
      invariant 0 <= k <= 8 && c == ShiftN(k, n)
    {
      ShiftNAdd(k, 1, n);
      c := if c % 2 == 1 then Add(poly, c / 2) else c / 2;
      k := k + 1;
    }
    EntryIsShift(0, n);
  }

  method PutEntry(t: array2<word>, k: nat, n: byte, c: word)
    requires t.Length0 == 8 && t.Length1 == 256 && FirstTable(t, 256)
    requires 1 <= k < 4 && Columns(t, k, n, n + 1) && c == Entry(k, n)
    modifies t
    ensures FirstTable(t, 256) && Columns(t, k + 1, n, n + 1)
    ensures forall j, b :: 0 <= j < 8 && 0 <= b < 256 && b != n ==> t[j, b] == old(t[j, b])
  {
    t[k, n] := c;
    t[k + 4, n] := Rev(c);
  }

  /** Fills column `n` of tables 1 to 7 from the finished first table. */
  method MakeColumn(t: array2<word>, n: byte)
    requires t.Length0 == 8 && t.Length1 == 256 && FirstTable(t, 256)
    modifies t
    ensures FirstTable(t, 256) && Columns(t, 4, n, n + 1)
    ensures forall j, b :: 0 <= j < 8 && 0 <= b < 256 && b != n ==> t[j, b] == old(t[j, b])
  {
    var c := t[0, n];
    t[4, n] := Rev(c);
    var k := 1;
    while k < 4
      invariant 1 <= k <= 4 && c == Entry(k - 1, n)
      invariant FirstTable(t, 256) && Columns(t, k, n, n + 1)
      invariant forall j, b :: 0 <= j < 8 && 0 <= b < 256 && b != n ==> t[j, b] == old(t[j, b])
    {
      NextEntry(k - 1, n);
      c := Add(t[0, c % 0x100], c / 0x100);
      PutEntry(t, k, n, c);
      k := k + 1;
    }
  }

  method MakeCrcTable(t: array2<word>)
    requires t.Length0 == 8 && t.Length1 == 256
    modifies t
    ensures TablesMade(t)
  {
    var poly := MakePolynomial();
    var n := 0;
    while n < 256
      invariant 0 <= n <= 256 && FirstTable(t, n)
    {
      var c := MakeFirstEntry(poly, n);
      t[0, n] := c;
      n := n + 1;
    }
    n := 0;
    while n < 256
      invariant 0 <= n <= 256
      invariant FirstTable(t, 256) && Columns(t, 4, 0, n)
    {
      MakeColumn(t, n);
      n := n + 1;
    }
  }

  // ---------------------------------------------------------------------
  // Four bytes a step
  // ---------------------------------------------------------------------

  /** An aligned 32-bit load at `buf + i`, where `buf` itself is at `addr`. */
  function LoadWord(buf: seq<byte>, addr: nat, i: nat, bigEndian: bool): word
    requires i + 4 <= |buf| && (addr + i) % 4 == 0
  {
    if bigEndian then Join(buf[i + 3], buf[i + 2], buf[i + 1], buf[i])
    else Join(buf[i], buf[i + 1], buf[i + 2], buf[i + 3])
  }

  /** The register after a prefix extends over the next `n` bytes. */
  lemma Extend(c: word, buf: seq<byte>, i: nat, n: nat)
    requires i + n <= |buf|
    ensures Register(c, buf[..i + n]) == Register(Register(c, buf[..i]), buf[i..i + n])
  {
    assert buf[..i + n] == buf[..i] + buf[i..i + n];
    RegisterConcat(c, buf[..i], buf[i..i + n]);
  }

  // In the methods below `c0` is the register before the first byte of `buf`.

  method StepLittle(t: array2<word>, c: word, buf: seq<byte>, i: nat, ghost c0: word) returns (c': word)
    requires TablesMade(t) && i < |buf|
    requires c == Register(c0, buf[..i])
    ensures c' == Register(c0, buf[..i + 1])
  {
    Extend(c0, buf, i, 1);
    assert buf[i..i + 1] == [buf[i]];
    ByteStep(c, buf[i]);
    c' := Add(t[0, Add(c, buf[i]) % 0x100], c / 0x100);
  }

  /** `DOLIT4` */
  method StepLittle4(t: array2<word>, c: word, buf: seq<byte>, addr: nat, i: nat, ghost c0: word) returns (c': word)
    requires TablesMade(t) && i + 4 <= |buf| && (addr + i) % 4 == 0
    requires c == Register(c0, buf[..i])
    ensures c' == Register(c0, buf[..i + 4])
  {
    Extend(c0, buf, i, 4);
    assert buf[i..i + 4] == [buf[i], buf[i + 1], buf[i + 2], buf[i + 3]];
    WordStep(c, buf[i], buf[i + 1], buf[i + 2], buf[i + 3]);
    var x := Add(c, LoadWord(buf, addr, i, false));
    c' := Add(Add(Add(t[3, x % 0x100], t[2, x / 0x100 % 0x100]), t[1, x / 0x1_0000 % 0x100]),
              t[0, x / 0x100_0000]);
  }

  /** `DOLIT32` */
  method StepLittle32(t: array2<word>, c: word, buf: seq<byte>, addr: nat, i: nat, ghost c0: word) returns (c': word)
    requires TablesMade(t) && i + 32 <= |buf| && (addr + i) % 4 == 0
    requires c == Register(c0, buf[..i])
    ensures c' == Register(c0, buf[..i + 32])
  {
    c' := StepLittle4(t, c, buf, addr, i, c0);
    c' := StepLittle4(t, c', buf, addr, i + 4, c0);
    c' := StepLittle4(t, c', buf, addr, i + 8, c0);
    c' := StepLittle4(t, c', buf, addr, i + 12, c0);
    c' := StepLittle4(t, c', buf, addr, i + 16, c0);
    c' := StepLittle4(t, c', buf, addr, i + 20, c0);
    c' := StepLittle4(t, c', buf, addr, i + 24, c0);
    c' := StepLittle4(t, c', buf, addr, i + 28, c0);
  }

  lemma StillAligned(n: nat, k: nat)
    requires n % 4 == 0
    ensures (n + 4 * k) % 4 == 0
  {
  }

  /** The loop over groups of eight words. */
  method GroupsLittle(t: array2<word>, c: word, buf: seq<byte>, addr: nat, i: nat, ghost c0: word)
    returns (c': word, i': nat)
    requires TablesMade(t) && i <= |buf| && (i < |buf| ==> (addr + i) % 4 == 0)
    requires c == Register(c0, buf[..i])
    ensures i' <= |buf| && (i' < |buf| ==> (addr + i') % 4 == 0) && c' == Register(c0, buf[..i'])
  {
    c', i' := c, i;
    var len: nat := |buf| - i;
    while len >= 32
      invariant i' + len == |buf| && (len > 0 ==> (addr + i') % 4 == 0)
      invariant c' == Register(c0, buf[..i'])
    {
      c' := StepLittle32(t, c', buf, addr, i', c0);
      StillAligned(addr + i', 8);
      i', len := i' + 32, len - 32;
    }
  }

  /** The loop over the remaining words. */
  method WordsLittle(t: array2<word>, c: word, buf: seq<byte>, addr: nat, i: nat, ghost c0: word)
    returns (c': word, i': nat)
    requires TablesMade(t) && i <= |buf| && (i < |buf| ==> (addr + i) % 4 == 0)
    requires c == Register(c0, buf[..i])
    ensures i' <= |buf| && c' == Register(c0, buf[..i'])
  {
    c', i' := c, i;
    var len: nat := |buf| - i;
    while len >= 4
      invariant i' + len == |buf| && (len > 0 ==> (addr + i') % 4 == 0)
      invariant c' == Register(c0, buf[..i'])
    {
      c' := StepLittle4(t, c', buf, addr, i', c0);
      i', len := i' + 4, len - 4;
    }
  }

  method Crc32Little(t: array2<word>, crc: nat, buf: seq<byte>, addr: nat) returns (r: word)
    requires TablesMade(t)
    ensures r == Crc(crc % 0x1_0000_0000, buf)
  {
    var c := Complement(crc % 0x1_0000_0000);
    ghost var c0 := c;
    var i: nat, len: nat := 0, |buf|;
    while len > 0 && (addr + i) % 4 != 0
      invariant i + len == |buf|
      invariant c == Register(c0, buf[..i])
    {
      c := StepLittle(t, c, buf, i, c0);
      i, len := i + 1, len - 1;
    }
    c, i := GroupsLittle(t, c, buf, addr, i, c0);
    c, i := WordsLittle(t, c, buf, addr, i, c0);
    len := |buf| - i;
    while len > 0
      invariant i + len == |buf|
      invariant c == Register(c0, buf[..i])
    {
      c := StepLittle(t, c, buf, i, c0);
      i, len := i + 1, len - 1;
    }
    assert buf[..i] == buf;
    r := Complement(c);
  }

  // ---------------------------------------------------------------------
  // The same over big-endian loads: the register is kept byte-reversed
  // ---------------------------------------------------------------------

  lemma LowByteOfSum(c: word, b: byte)
    ensures Add(c, b) % 0x100 == Xor(c % 0x100, b) < 0x100
  {
    LowByteOfSplit(c % 0x100, c / 0x100, b);
  }

  lemma LowByteOfSplit(low: byte, high: nat, b: byte)
    ensures Xor(low + 0x100 * high, b) % 0x100 == Xor(low, b) < 0x100
  {
    XorByte(low, b, high, 0);
    ByteModulo(Xor(low, b), Xor(high, 0));
  }

  lemma ByteModulo(low: byte, high: nat)
    ensures (low + 0x100 * high) % 0x100 == low
  {
  }

  lemma ByteStepReversed(c: word, b: byte)
    ensures Xor(Rev(c) / 0x100_0000, b) < 0x100
    ensures Rev(Register(c, [b])) ==
      Add(Rev(Entry(0, Xor(Rev(c) / 0x100_0000, b))), Rev(c) * 0x100 % 0x1_0000_0000)
  {
    ByteStep(c, b);
    LowByteOfSum(c, b);
    RevBytes(c);
    RevShift(c);
    RevAdd(Entry(0, Add(c, b) % 0x100), c / 0x100);
  }

  /** Four lookups in the reversed tables, the low byte in the first of them. */
  function FourReversed(x: word): word {
    Add(Add(Add(Rev(Entry(0, x % 0x100)), Rev(Entry(1, x / 0x100 % 0x100))), Rev(Entry(2, x / 0x1_0000 % 0x100))),
        Rev(Entry(3, x / 0x100_0000)))
  }

  lemma RevSum(a: word, b: word, c: word, d: word)
    ensures Rev(Add(Add(Add(a, b), c), d)) == Add(Add(Add(Rev(d), Rev(c)), Rev(b)), Rev(a))
  {
    RevAdd(Add(Add(a, b), c), d);
    RevAdd(Add(a, b), c);
    RevAdd(a, b);
    var (p, q, u, v) := (Rev(a), Rev(b), Rev(c), Rev(d));
    calc {
      Add(Add(Add(p, q), u), v);
      { XorComm(p, q); }
      Add(Add(Add(q, p), u), v);
      { XorComm(Xor(Xor(q, p), u), v); XorComm(Xor(q, p), u); }
      Add(v, Add(u, Add(q, p)));
      { XorAssoc(u, q, p); XorAssoc(v, Xor(u, q), p); XorAssoc(v, u, q); }
      Add(Add(Add(v, u), q), p);
    }
  }

  lemma WordStepReversed(c: word, b0: byte, b1: byte, b2: byte, b3: byte)
    ensures Rev(Register(c, [b0, b1, b2, b3])) == FourReversed(Add(Rev(c), Join(b3, b2, b1, b0)))
  {
    var x := Add(c, Join(b0, b1, b2, b3));
    WordStep(c, b0, b1, b2, b3);
    RevAdd(c, Join(b0, b1, b2, b3));
    RevJoin(b0, b1, b2, b3);
    assert Rev(x) == Add(Rev(c), Join(b3, b2, b1, b0));
    RevBytes(x);
    RevSum(Entry(3, x % 0x100), Entry(2, x / 0x100 % 0x100), Entry(1, x / 0x1_0000 % 0x100), Entry(0, x / 0x100_0000));
  }

  method StepBig(t: array2<word>, c: word, buf: seq<byte>, i: nat, ghost c0: word) returns (c': word)
    requires TablesMade(t) && i < |buf|
    requires c == Rev(Register(c0, buf[..i]))
    ensures c' == Rev(Register(c0, buf[..i + 1]))
  {
    Extend(c0, buf, i, 1);
    assert buf[i..i + 1] == [buf[i]];
    ByteStepReversed(Register(c0, buf[..i]), buf[i]);
    c' := Add(t[4, Xor(c / 0x100_0000, buf[i])], c * 0x100 % 0x1_0000_0000);
  }

  /** `DOBIG4`: `buf4` trails the next word by one and is advanced first. */
  method StepBig4(t: array2<word>, c: word, buf: seq<byte>, addr: nat, buf4: int, ghost c0: word) returns (c': word)
    requires TablesMade(t) && 0 <= buf4 + 4 && buf4 + 8 <= |buf| && (addr + buf4 + 4) % 4 == 0
    requires c == Rev(Register(c0, buf[..buf4 + 4]))
    ensures c' == Rev(Register(c0, buf[..buf4 + 8]))
  {
    var i := buf4 + 4;
    Extend(c0, buf, i, 4);
    assert buf[i..i + 4] == [buf[i], buf[i + 1], buf[i + 2], buf[i + 3]];
    WordStepReversed(Register(c0, buf[..i]), buf[i], buf[i + 1], buf[i + 2], buf[i + 3]);
    var x := Add(c, LoadWord(buf, addr, i, true));
    c' := Add(Add(Add(t[4, x % 0x100], t[5, x / 0x100 % 0x100]), t[6, x / 0x1_0000 % 0x100]),
              t[7, x / 0x100_0000]);
  }

  // `DOBIG32` is eight words, taken here as two halves twice over.

  method StepBig8(t: array2<word>, c: word, buf: seq<byte>, addr: nat, buf4: int, ghost c0: word) returns (c': word)
    requires TablesMade(t) && 0 <= buf4 + 4 && buf4 + 12 <= |buf| && (addr + buf4 + 4) % 4 == 0
    requires c == Rev(Register(c0, buf[..buf4 + 4]))
    ensures c' == Rev(Register(c0, buf[..buf4 + 12]))
  {
    c' := StepBig4(t, c, buf, addr, buf4, c0);
    c' := StepBig4(t, c', buf, addr, buf4 + 4, c0);
  }

  method StepBig16(t: array2<word>, c: word, buf: seq<byte>, addr: nat, buf4: int, ghost c0: word) returns (c': word)
    requires TablesMade(t) && 0 <= buf4 + 4 && buf4 + 20 <= |buf| && (addr + buf4 + 4) % 4 == 0
    requires c == Rev(Register(c0, buf[..buf4 + 4]))
    ensures c' == Rev(Register(c0, buf[..buf4 + 20]))
  {
    c' := StepBig8(t, c, buf, addr, buf4, c0);
    c' := StepBig8(t, c', buf, addr, buf4 + 8, c0);
  }

  /** `DOBIG32` */
  method StepBig32(t: array2<word>, c: word, buf: seq<byte>, addr: nat, buf4: int, ghost c0: word) returns (c': word)
    requires TablesMade(t) && 0 <= buf4 + 4 && buf4 + 36 <= |buf| && (addr + buf4 + 4) % 4 == 0
    requires c == Rev(Register(c0, buf[..buf4 + 4]))
    ensures c' == Rev(Register(c0, buf[..buf4 + 36]))
  {
    c' := StepBig16(t, c, buf, addr, buf4, c0);
    c' := StepBig16(t, c', buf, addr, buf4 + 16, c0);
  }

  lemma StaysAligned(addr: nat, i: nat, n: nat)
    requires (addr + i) % 4 == 0
    ensures (addr + i + 4 * n) % 4 == 0
  {
  }

  /** The loop over groups of eight words. */
  method GroupsBig(t: array2<word>, c: word, buf: seq<byte>, addr: nat, i: nat, ghost c0: word)
    returns (c': word, i': nat)
    requires TablesMade(t) && i <= |buf| && (i < |buf| ==> (addr + i) % 4 == 0)
    requires c == Rev(Register(c0, buf[..i]))
    ensures i' <= |buf| && (i' < |buf| ==> (addr + i') % 4 == 0) && c' == Rev(Register(c0, buf[..i']))
  {
    c', i' := c, i;
    while |buf| - i' >= 32
      invariant i' <= |buf| && (i' < |buf| ==> (addr + i') % 4 == 0)
      invariant c' == Rev(Register(c0, buf[..i']))
    {
      c' := StepBig32(t, c', buf, addr, i' - 4, c0);
      StaysAligned(addr, i', 8);
      i' := i' + 32;
    }
  }

  /** The loop over the remaining words. */
  method WordsBig(t: array2<word>, c: word, buf: seq<byte>, addr: nat, i: nat, ghost c0: word)
    returns (c': word, i': nat)
    requires TablesMade(t) && i <= |buf| && (i < |buf| ==> (addr + i) % 4 == 0)
    requires c == Rev(Register(c0, buf[..i]))
    ensures i' <= |buf| && c' == Rev(Register(c0, buf[..i']))
  {
    c', i' := c, i;
    while |buf| - i' >= 4
      invariant i' <= |buf| && (i' < |buf| ==> (addr + i') % 4 == 0)
      invariant c' == Rev(Register(c0, buf[..i']))
    {
      c' := StepBig4(t, c', buf, addr, i' - 4, c0);
      StaysAligned(addr, i', 1);
      i' := i' + 4;
    }
  }

  method Crc32Big(t: array2<word>, crc: nat, buf: seq<byte>, addr: nat) returns (r: word)
    requires TablesMade(t)
    ensures r == Crc(crc % 0x1_0000_0000, buf)
  {
    var c := Complement(Rev(crc % 0x1_0000_0000));
    RevComplement(crc % 0x1_0000_0000);
    ghost var c0 := Complement(crc % 0x1_0000_0000);
    var i: nat := 0;
    while i < |buf| && (addr + i) % 4 != 0
      invariant i <= |buf|
      invariant c == Rev(Register(c0, buf[..i]))
    {
      c := StepBig(t, c, buf, i, c0);
      i := i + 1;
    }
    c, i := GroupsBig(t, c, buf, addr, i, c0);
    c, i := WordsBig(t, c, buf, addr, i, c0);
    while i < |buf|
      invariant i <= |buf|
      invariant c == Rev(Register(c0, buf[..i]))
    {
      c := StepBig(t, c, buf, i, c0);
      i := i + 1;
    }
    assert buf[..i] == buf;
    r := FinishBig(c, Register(c0, buf));
  }

  method FinishBig(c: word, ghost register: word) returns (r: word)
    requires c == Rev(register)
    ensures r == Complement(register)
  {
    RevComplement(register);
    RevRev(Complement(register));
    r := Rev(Complement(c));
  }

  /** `crc32`: a null buffer yields zero, otherwise the machine's byte order decides. */
  method Compute(t: array2<word>, crc: nat, buf: Option<seq<byte>>, addr: nat, bigEndian: bool) returns (r: word)
    requires TablesMade(t)
    ensures r == if buf.None? then 0 else Crc(crc % 0x1_0000_0000, buf.value)
  {
    if buf.None? {
      r := 0;
    } else if bigEndian {
      r := Crc32Big(t, crc, buf.value, addr);
    } else {
      r := Crc32Little(t, crc, buf.value, addr);
    }
  }
}
