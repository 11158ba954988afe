/**
  The xoroshiro128+ generator: its state is a pair of 64-bit words, stepped
  by rotations, shifts and exclusive-ors, and `xoroshiro_jump` adds up some
  of the next 128 states.
*/
module Xoroshiro {
  import opened LinearMaps
  import opened Machine
  import opened Words

  // ---------------------------------------------------------------------
  // Cutting words in two, bit by bit
  // ---------------------------------------------------------------------

  /** `x >> n` */
  function Shr(x: nat, n: nat): nat {
    if n == 0 then x else Shr(x / 2, n - 1)
  }

  /** The `n` low bits of `x`. */
  function Low(x: nat, n: nat): nat {
    if n == 0 then 0 else x % 2 + 2 * Low(x / 2, n - 1)
  }

  lemma {:induction false} Cut(x: nat, n: nat)
    ensures x == Low(x, n) + Shl(n, Shr(x, n)) && Low(x, n) < Pow2(n)
  {
    if n > 0 {
      Cut(x / 2, n - 1);
    }
  }

  lemma {:induction false} Paste(low: nat, high: nat, n: nat)
    requires low < Pow2(n)
    ensures Low(low + Shl(n, high), n) == low && Shr(low + Shl(n, high), n) == high
  {
    if n > 0 {
      Paste(low / 2, high, n - 1);
      assert (low + Shl(n, high)) / 2 == low / 2 + Shl(n - 1, high);
    }
  }

  lemma {:induction false} ShrBound(x: nat, m: nat, n: nat)
    requires x < Pow2(m + n)
    ensures Shr(x, n) < Pow2(m)
  {
    if n > 0 {
      ShrBound(x / 2, m, n - 1);
    }
  }

  lemma {:induction false} PasteBound(low: nat, high: nat, m: nat, n: nat)
    requires low < Pow2(n) && high < Pow2(m)
    ensures low + Shl(n, high) < Pow2(m + n)
  {
    if n > 0 {
      PasteBound(low / 2, high, m, n - 1);
    }
  }

  lemma XorHalves(x: nat, y: nat)
    ensures Xor(x, y) / 2 == Xor(x / 2, y / 2)
    ensures Xor(x, y) % 2 == if x % 2 == y % 2 then 0 else 1
  {
    XorStep(x / 2, y / 2, x % 2, y % 2);
  }

  lemma {:induction false} XorShr(x: nat, y: nat, n: nat)
    ensures Shr(Xor(x, y), n) == Xor(Shr(x, n), Shr(y, n))
  {
    if n > 0 {
      XorHalves(x, y);
      XorShr(x / 2, y / 2, n - 1);
    }
  }

  lemma {:induction false} XorLow(x: nat, y: nat, n: nat)
    ensures Low(Xor(x, y), n) == Xor(Low(x, n), Low(y, n))
  {
    if n > 0 {
      XorLow(x / 2, y / 2, n - 1);
      XorLowStep(x, y, Low(x / 2, n - 1), Low(y / 2, n - 1), n);
    }
  }

  lemma XorLowStep(x: nat, y: nat, u: nat, v: nat, n: nat)
    requires n > 0 && Low(Xor(x / 2, y / 2), n - 1) == Xor(u, v)
    ensures Low(Xor(x, y), n) == Xor(x % 2 + 2 * u, y % 2 + 2 * v)
  {
    XorHalves(x, y);
    XorStep(u, v, x % 2, y % 2);
  }

  // ---------------------------------------------------------------------
  // 64-bit words
  // ---------------------------------------------------------------------

  lemma Pow64()
    ensures Pow2(64) == 0x1_0000_0000_0000_0000
  {
    PowerFacts();
    assert Pow2(40) == 0x100_0000_0000;
    assert Pow2(48) == 0x1_0000_0000_0000;
    assert Pow2(56) == 0x100_0000_0000_0000;
  }

  function Add(a: uint64, b: uint64): uint64 {
    Pow64();
    XorBound(64, a, b);
    Xor(a, b)
  }

  /** `(x << k) | (x >> (64 - k))` */
  function Rotl(x: uint64, k: nat): uint64
    requires k <= 64
  {
    RotlBound(x, k);
    Shr(x, 64 - k) + Shl(k, Low(x, 64 - k))
  }

  lemma RotlBound(x: uint64, k: nat)
    requires k <= 64
    ensures Shr(x, 64 - k) < Pow2(k) && Low(x, 64 - k) < Pow2(64 - k)
    ensures Shr(x, 64 - k) + Shl(k, Low(x, 64 - k)) < 0x1_0000_0000_0000_0000
  {
    Pow64();
    Cut(x, 64 - k);
    ShrBound(x, k, 64 - k);
    PasteBound(Shr(x, 64 - k), Low(x, 64 - k), 64 - k, k);
  }

  /** `x << k`, cut to 64 bits. */
  function ShiftLeft(x: uint64, k: nat): uint64
    requires k <= 64
  {
    Pow64();
    Cut(x, 64 - k);
    PasteBound(0, Low(x, 64 - k), 64 - k, k);
    Shl(k, Low(x, 64 - k))
  }

  /** Rotating on to 64 in all brings every bit back. */
  lemma RotlInverse(x: uint64, k: nat)
    requires k <= 64
    ensures Rotl(Rotl(x, k), 64 - k) == x
  {
    var high, low := Shr(x, 64 - k), Low(x, 64 - k);
    RotlBound(x, k);
    Paste(high, low, k);
    assert Rotl(Rotl(x, k), 64 - k) == low + Shl(64 - k, high);
    Cut(x, 64 - k);
  }

  lemma RotlLinear(x: uint64, y: uint64, k: nat)
    requires k <= 64
    ensures Rotl(Add(x, y), k) == Add(Rotl(x, k), Rotl(y, k))
  {
    XorLow(x, y, 64 - k);
    XorShr(x, y, 64 - k);
    RotlBound(x, k);
    RotlBound(y, k);
    XorShl(k, Shr(x, 64 - k), Shr(y, 64 - k), Low(x, 64 - k), Low(y, 64 - k));
  }

  lemma ShiftLeftLinear(x: uint64, y: uint64, k: nat)
    requires k <= 64
    ensures ShiftLeft(Add(x, y), k) == Add(ShiftLeft(x, k), ShiftLeft(y, k))
  {
    XorLow(x, y, 64 - k);
    XorShl(k, 0, 0, Low(x, 64 - k), Low(y, 64 - k));
  }

  // ---------------------------------------------------------------------
  // What these do to each bit
  // ---------------------------------------------------------------------

  /** Bit `i` of `x`. */
  predicate Bit(x: nat, i: nat) {
    Shr(x, i) % 2 == 1
  }

  lemma {:induction false} ShrShr(x: nat, m: nat, n: nat)
    ensures Shr(Shr(x, m), n) == Shr(x, m + n)
  {
    if m > 0 {
      ShrShr(x / 2, m - 1, n);
    }
  }

  lemma {:induction false} LowBit(x: nat, n: nat, i: nat)
    ensures Bit(Low(x, n), i) <==> i < n && Bit(x, i)
    decreases n
  {
    if n == 0 {
      ShrZero(i);
    } else if i > 0 {
      LowBit(x / 2, n - 1, i - 1);
      assert Low(x, n) / 2 == Low(x / 2, n - 1);
    }
  }

  lemma {:induction false} ShrZero(i: nat)
    ensures Shr(0, i) == 0
  {
    if i > 0 {
      ShrZero(i - 1);
    }
  }

  lemma {:induction false} PastedBit(low: nat, high: nat, n: nat, i: nat)
    requires low < Pow2(n)
    ensures Bit(low + Shl(n, high), i) <==> if i < n then Bit(low, i) else Bit(high, i - n)
  {
    if n > 0 {
      assert (low + Shl(n, high)) / 2 == low / 2 + Shl(n - 1, high);
      if i > 0 {
        PastedBit(low / 2, high, n - 1, i - 1);
      }
    }
  }

  lemma {:induction false} XorBit(x: nat, y: nat, i: nat)
    ensures Bit(Xor(x, y), i) <==> Bit(x, i) != Bit(y, i)
  {
    XorHalves(x, y);
    if i > 0 {
      XorBit(x / 2, y / 2, i - 1);
    }
  }

  lemma RotlPasted(x: uint64, k: nat, j: nat)
    requires k <= 64
    ensures Bit(Rotl(x, k), j) <==> if j < k then Bit(Shr(x, 64 - k), j) else Bit(Low(x, 64 - k), j - k)
  {
    RotlBound(x, k);
    PastedBit(Shr(x, 64 - k), Low(x, 64 - k), k, j);
  }

  /** Rotating left by `k` takes bit `i` to bit `i + k`, counted around. */
  lemma RotlBit(x: uint64, k: nat, i: nat)
    requires k <= 64 && i < 64
    ensures Bit(Rotl(x, k), if i + k < 64 then i + k else i + k - 64) <==> Bit(x, i)
  {
    if i + k < 64 {
      RotlPasted(x, k, i + k);
      LowBit(x, 64 - k, i);
    } else {
      RotlPasted(x, k, i + k - 64);
      ShrShr(x, 64 - k, i + k - 64);
    }
  }

  /** Shifting left by `k` does the same, but drops what leaves the word. */
  lemma ShiftLeftBit(x: uint64, k: nat, j: nat)
    requires k <= 64 && j < 64
    ensures Bit(ShiftLeft(x, k), j) <==> j >= k && Bit(x, j - k)
  {
    PastedBit(0, Low(x, 64 - k), k, j);
    ShrZero(j);
    if j >= k {
      LowBit(x, 64 - k, j - k);
    }
  }

  // ---------------------------------------------------------------------
  // The state and its step
  // ---------------------------------------------------------------------

  datatype State = State(s0: uint64, s1: uint64)

  const ZERO := State(0, 0)

  function Plus(a: State, b: State): State {
    State(Add(a.s0, b.s0), Add(a.s1, b.s1))
  }

  /** What `xoroshiro_next` does to the state. */
  function Step(s: State): State {
    var t := Add(s.s1, s.s0);
    State(Add(Add(Rotl(s.s0, 55), t), ShiftLeft(t, 14)), Rotl(t, 36))
  }

  /** The step, bit by bit, with indices counted around. */
  lemma StepBits(s: State, i: nat)
    requires i < 64
    ensures Bit(Step(s).s1, if i + 36 < 64 then i + 36 else i - 28) <==> Bit(s.s0, i) != Bit(s.s1, i)
    ensures Bit(Step(s).s0, i) <==>
      ((Bit(s.s0, if i < 55 then i + 9 else i - 55) != (Bit(s.s0, i) != Bit(s.s1, i)))
       != (i >= 14 && Bit(s.s0, i - 14) != Bit(s.s1, i - 14)))
  {
    var t := Add(s.s1, s.s0);
    XorBit(s.s1, s.s0, i);
    RotlBit(t, 36, i);
    FirstWordBit(Rotl(s.s0, 55), t, i);
    RotlBit(s.s0, 55, if i < 55 then i + 9 else i - 55);
    if i >= 14 {
      XorBit(s.s1, s.s0, i - 14);
    }
  }

  lemma FirstWordBit(u: uint64, t: uint64, i: nat)
    requires i < 64
    ensures Bit(Add(Add(u, t), ShiftLeft(t, 14)), i) <==> ((Bit(u, i) != Bit(t, i)) != (i >= 14 && Bit(t, i - 14)))
  {
    XorBit(u, t, i);
    XorBit(Xor(u, t), ShiftLeft(t, 14), i);
    ShiftLeftBit(t, 14, i);
  }

  /** The step undone. */
  function Unstep(s: State): State {
    var t := Rotl(s.s1, 28);
    var s0 := Rotl(Add(Add(s.s0, ShiftLeft(t, 14)), t), 9);
    State(s0, Add(t, s0))
  }

  /** No two states have the same successor. */
  lemma StepInvertible(s: State)
    ensures Unstep(Step(s)) == s
  {
    var t := Add(s.s1, s.s0);
    var u, v := Rotl(s.s0, 55), ShiftLeft(t, 14);
    RotlInverse(t, 36);
    XorCancel(Xor(u, t), v);
    XorCancel(u, t);
    RotlInverse(s.s0, 55);
    XorCancel(s.s1, s.s0);
  }

  /** The step is linear over GF(2). */
  lemma StepLinear(a: State, b: State)
    ensures Step(Plus(a, b)) == Plus(Step(a), Step(b))
  {
    var t, u := Add(a.s1, a.s0), Add(b.s1, b.s0);
    XorSwap(a.s1, b.s1, a.s0, b.s0);
    assert Add(Plus(a, b).s1, Plus(a, b).s0) == Add(t, u);
    RotlLinear(a.s0, b.s0, 55);
    ShiftLeftLinear(t, u, 14);
    RotlLinear(t, u, 36);
    var r, r' := Rotl(a.s0, 55), Rotl(b.s0, 55);
    XorSwap(r, r', t, u);
    XorSwap(Xor(r, t), Xor(r', u), ShiftLeft(t, 14), ShiftLeft(u, 14));
  }

  lemma PlusSelf(a: State)
    ensures Plus(a, a) == ZERO && Plus(a, ZERO) == a && Plus(ZERO, a) == a
  {
    XorSelf(a.s0);
    XorSelf(a.s1);
    XorZero(a.s0);
    XorZero(a.s1);
    XorComm(0, a.s0);
    XorComm(0, a.s1);
  }

  lemma PlusSwap(a: State, b: State, c: State, d: State)
    ensures Plus(Plus(a, b), Plus(c, d)) == Plus(Plus(a, c), Plus(b, d))
  {
    XorSwap(a.s0, b.s0, c.s0, d.s0);
    XorSwap(a.s1, b.s1, c.s1, d.s1);
  }

  lemma StatesAreGroup()
    ensures Group(Plus, ZERO)
  {
    forall a, b, c, d ensures Swaps(Plus, a, b, c, d) {
      PlusSwap(a, b, c, d);
    }
    forall a ensures Neutral(Plus, ZERO, a) {
      PlusSelf(a);
    }
  }

  lemma StepIsLinear()
    ensures Linear(Step, Plus)
  {
    forall a, b ensures Additive(Step, Plus, a, b) {
      StepLinear(a, b);
    }
  }

  lemma StepZero()
    ensures Step(ZERO) == ZERO
  {
    StatesAreGroup();
    StepIsLinear();
    MapsZero(Step, Plus, ZERO);
  }

  /** A seeded generator never falls into the all-zero state. */
  lemma StepNonzero(s: State)
    requires s != ZERO
    ensures Step(s) != ZERO
  {
    StepZero();
    SameSuccessor(s, ZERO);
  }

  lemma SameSuccessor(a: State, b: State)
    ensures Step(a) == Step(b) ==> a == b
  {
    StepInvertible(a);
    StepInvertible(b);
  }

  // ---------------------------------------------------------------------
  // Jumping
  // ---------------------------------------------------------------------

  const JUMP: seq<uint64> := [0xbeac0467eba5facb, 0xd86b048b86aa9922]

  /** Bit `k` of the 128-bit jump constant. */
  predicate JumpBit(k: nat) {
    k < 64 * |JUMP| && Bit(JUMP[k / 64], k % 64)
  }

  /** The state after `k` steps. */
  function After(start: State): nat -> State {
    (k: nat) => Iterate(Step, k, start)
  }

  /** The sum of the states that the first `k` bits of the jump constant select. */
  function Selected(start: State): nat -> State {
    (k: nat) => SumOf(Step, Plus, ZERO, JumpBit, k, start)
  }

  /** What `xoroshiro_jump` does to the state. */
  function Jumped(s: State): State {
    Selected(s)(64 * |JUMP|)
  }

  /** Jumping is linear over GF(2) and keeps step with the generator: jump then step is step then jump. */
  lemma JumpLinearAndCommutes(a: State, b: State)
    ensures Jumped(Plus(a, b)) == Plus(Jumped(a), Jumped(b))
    ensures Jumped(Step(a)) == Step(Jumped(a))
  {
    StatesAreGroup();
    StepIsLinear();
    SumLinear(Step, Plus, ZERO, JumpBit, 64 * |JUMP|, a, b);
    SumCommutes(Step, Plus, ZERO, JumpBit, 64 * |JUMP|, a);
  }

  /** The k-th round of the jump loop: one step, and the state added if its bit is set. */
  ghost predicate Round(after: nat -> State, selected: nat -> State, k: nat) {
    && after(k + 1) == Step(after(k))
    && selected(k + 1) == Plus(selected(k), if JumpBit(k) then after(k) else ZERO)
  }

  lemma Rounds(start: State, k: nat)
    ensures Round(After(start), Selected(start), k)
  {
  }

  // ---------------------------------------------------------------------
  // The code
  // ---------------------------------------------------------------------

  ghost function Current(s: array<uint64>): State
    requires s.Length == 2
    reads s
  {
    State(s[0], s[1])
  }

  /** Unsigned addition. */
  function WrapSum(a: nat, b: nat): uint64 {
    (a + b) % 0x1_0000_0000_0000_0000
  }

  /** `xoroshiro_next` */
  method Next(s: array<uint64>) returns (result: uint64)
    requires s.Length == 2
    modifies s
    ensures Current(s) == Step(old(Current(s)))
    ensures var a: nat, b: nat := old(s[0]), old(s[1]); result == (a + b) % 0x1_0000_0000_0000_0000
  {
    var s0 := s[0];
    var s1 := s[1];
    result := WrapSum(s0, s1);
    s1 := Add(s1, s0);
    s[0] := Add(Add(Rotl(s0, 55), s1), ShiftLeft(s1, 14));
    s[1] := Rotl(s1, 36);
  }

  /** The body of the inner loop of `xoroshiro_jump`, for bit `k` of the constant. */
  method JumpStep(s: array<uint64>, acc: State, i: nat, b: nat, ghost k: nat,
                  ghost after: nat -> State, ghost selected: nat -> State)
    returns (acc': State)
    requires s.Length == 2 && i < |JUMP| && b < 64 && k == 64 * i + b
    requires Current(s) == after(k) && acc == selected(k) && Round(after, selected, k)
    modifies s
    ensures Current(s) == after(k + 1) && acc' == selected(k + 1)
  {
    assert k / 64 == i && k % 64 == b;
    acc' := acc;
    if Shr(JUMP[i], b) % 2 == 1 {
      acc' := State(Add(acc.s0, s[0]), Add(acc.s1, s[1]));
    } else {
      PlusSelf(acc);
    }
    var ignored := Next(s);
  }

  method JumpLoop(s: array<uint64>, ghost after: nat -> State, ghost selected: nat -> State)
    requires s.Length == 2
    requires Current(s) == after(0) && selected(0) == ZERO && forall k: nat :: Round(after, selected, k)
    modifies s
    ensures Current(s) == selected(64 * |JUMP|)
  {
    var acc := ZERO;
    var i := 0;
    ghost var k := 0;
    while i < |JUMP|
      invariant 0 <= i <= |JUMP| && k == 64 * i
      invariant Current(s) == after(k) && acc == selected(k)
    {
      var b := 0;
      while b < 64
        invariant 0 <= b <= 64 && k == 64 * i + b
        invariant Current(s) == after(k) && acc == selected(k)
      {
        acc := JumpStep(s, acc, i, b, k, after, selected);
        b := b + 1;
        k := k + 1;
      }
      i := i + 1;
    }
    s[0] := acc.s0;
    s[1] := acc.s1;
  }

  /** `xoroshiro_jump` */
  method Jump(s: array<uint64>)
    requires s.Length == 2
    modifies s
    ensures Current(s) == Jumped(old(Current(s)))
  {
    ghost var start := Current(s);
    forall k: nat ensures Round(After(start), Selected(start), k) {
      Rounds(start, k);
    }
    JumpLoop(s, After(start), Selected(start));
  }
}
