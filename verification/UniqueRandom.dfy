/**
  The unique random sequence of sysbench: a permutation of the 32-bit words
  by quadratic residues, applied to the tickets of an atomic counter.
*/
module UniqueRandom {
  import opened Machine
  import opened Words
  import opened NumberTheory
  import PrimeCertificate

  const WORDS: nat := TWO_TO_THE_32

  // ---------------------------------------------------------------------
  // The permutation, for any prime that is 3 modulo 4
  // ---------------------------------------------------------------------

  /** `rand_unique_permute` with its modulus as a parameter. */
  function PermuteModulo(p: pos, x: nat): nat {
    if x >= p then x
    else
      var residue := x * x % p;
      if x <= p / 2 then residue else p - residue
  }

  lemma BelowPrime(p: pos, x: nat)
    requires x < p
    ensures Divides(p, x) <==> x == 0
  {
  }

  /** The square of a nonzero number below a prime is not divisible by it. */
  lemma NonzeroSquare(p: pos, x: nat)
    requires Prime(p) && 0 < x < p
    ensures x * x % p != 0
  {
    if Divides(p, x * x) {
      Euclid(p, x, x);
      BelowPrime(p, x);
    }
  }

  lemma PermuteInside(p: pos, x: nat)
    requires Prime(p)
    ensures PermuteModulo(p, x) < p <==> x < p
  {
    if p / 2 < x < p {
      NonzeroSquare(p, x);
    }
  }

  /** What the two branches say about the square. */
  lemma LowerHalfSquare(p: pos, x: nat)
    requires x <= p / 2 && x < p
    ensures Divides(p, x * x - PermuteModulo(p, x))
  {
    RemainderCongruent(x * x, p);
  }

  lemma UpperHalfSquare(p: pos, x: nat)
    requires p / 2 < x < p
    ensures PermuteModulo(p, x) > 0 && Divides(p, x * x + PermuteModulo(p, x))
  {
    RemainderCongruent(x * x, p);
    Multiple(p, 1);
    DividesSum(p, x * x - x * x % p, p);
  }

  lemma SmallMultiple(p: pos, d: int)
    requires d < p && d + p > 0 && Divides(p, d)
    ensures d == 0
  {
    var k := Quotient(p, d);
    MultipleBound(p, k);
  }

  lemma OppositeHalves(p: pos, x: nat, y: nat)
    requires x < p && y < p && (x <= p / 2 <==> y <= p / 2) && p % 2 == 1
    requires Divides(p, x + y)
    ensures x == y
  {
    var k := Quotient(p, x + y);
    MultipleBound(p, k);
    MultipleBound(p, k - 1);
    assert p * (k - 1) == x + y - p;
    MultipleBound(p, k - 2);
    assert p * (k - 2) == x + y - 2 * p;
  }

  lemma SameHalf(p: pos, x: nat, y: nat)
    requires Prime(p) && p % 2 == 1 && x < p && y < p
    requires x <= p / 2 <==> y <= p / 2
    requires x * x % p == y * y % p
    ensures x == y
  {
    EqualRemainders(x * x, y * y, p);
    EqualSquares(p, x, y);
    if Divides(p, x - y) {
      SmallMultiple(p, x - y);
    } else {
      OppositeHalves(p, x, y);
    }
  }

  /** No number below the prime is both a square from the lower half and an opposite one from the upper. */
  lemma NotBothHalves(p: pos, x: nat, y: nat, z: nat)
    requires Prime(p) && p % 4 == 3 && 0 < y < p
    ensures !(Divides(p, x * x - z) && Divides(p, y * y + z))
  {
    if Divides(p, x * x - z) && Divides(p, y * y + z) {
      DividesSum(p, x * x - z, y * y + z);
      SumOfSquares(p, x, y);
      BelowPrime(p, y);
    }
  }

  lemma DifferentHalves(p: pos, x: nat, y: nat)
    requires Prime(p) && p % 4 == 3 && x <= p / 2 < y < p
    ensures PermuteModulo(p, x) != PermuteModulo(p, y)
  {
    LowerHalfSquare(p, x);
    UpperHalfSquare(p, y);
    NotBothHalves(p, x, y, PermuteModulo(p, y));
  }

  /** The permutation never maps two numbers to the same one. */
  lemma PermuteInjective(p: pos, x: nat, y: nat)
    requires Prime(p) && p % 4 == 3
    requires PermuteModulo(p, x) == PermuteModulo(p, y)
    ensures x == y
  {
    PermuteInside(p, x);
    PermuteInside(p, y);
    if x < p {
      if x <= p / 2 < y {
        DifferentHalves(p, x, y);
      } else if y <= p / 2 < x {
        DifferentHalves(p, y, x);
      } else {
        SameHalf(p, x, y);
      }
    }
  }

  // ---------------------------------------------------------------------
  // Its inverse
  // ---------------------------------------------------------------------

  /** Of the two numbers with a square, the one in the half that its sign calls for. */
  function InHalf(p: pos, root: nat, lower: bool): (x: int)
    requires root <= p
    ensures x == root || x == p - root
    ensures p % 2 == 1 && 0 < root < p ==> 0 < x < p && (x <= p / 2 <==> lower)
  {
    if lower then Min(root, p - root) else p - Min(root, p - root)
  }

  /**
    The permutation undone: the exponent (p + 1) / 4 gives a square root of
    the number or of its opposite, and whichever it is tells the half.
  */
  function UnpermuteModulo(p: pos, z: nat): nat {
    if z >= p then z
    else
      var root := Pow(z, (p + 1) / 4) % p;
      InHalf(p, root, root * root % p == z)
  }

  lemma OppositeSquare(p: pos, r: nat)
    requires r <= p
    ensures (p - r) * (p - r) % p == r * r % p
  {
    Multiple(p, p - 2 * r);
    assert (p - r) * (p - r) - r * r == p * (p - 2 * r);
    EqualRemainders((p - r) * (p - r), r * r, p);
  }

  lemma SmallRemainder(p: pos, z: nat)
    requires z < p
    ensures z % p == z
  {
    MultipleBound(p, z / p);
  }

  lemma SquareRemainder(p: pos, s: int, z: nat)
    requires 0 < z < p && (Divides(p, s - z) || Divides(p, s + z))
    ensures s % p == z || s % p == p - z
  {
    if Divides(p, s - z) {
      SmallRemainder(p, z);
      EqualRemainders(s, z, p);
    } else {
      OppositeRemainder(p, s, z);
    }
  }

  lemma OppositeRemainder(p: pos, s: int, z: nat)
    requires 0 < z < p && Divides(p, s + z)
    ensures s % p == p - z
  {
    var w := p - z;
    Multiple(p, 1);
    DividesSum(p, s + z, p);
    assert s + z - p == s - w;
    SmallRemainder(p, w);
    EqualRemainders(s, w, p);
  }

  lemma RemainderSquared(p: pos, r: int)
    ensures (r % p) * (r % p) % p == r * r % p
  {
    RemainderCongruent(r, p);
    CongruentProduct(r, r % p, r, r % p, p);
    EqualRemainders(r * r, (r % p) * (r % p), p);
  }

  /** The square of the power that `UnpermuteModulo` takes. */
  lemma SquareOfPower(p: pos, z: nat, root: nat)
    requires Prime(p) && p % 4 == 3 && 0 < z < p && root == Pow(z, (p + 1) / 4) % p
    ensures root * root % p == z || root * root % p == p - z
  {
    var r := Pow(z, (p + 1) / 4);
    BelowPrime(p, z);
    RootOrOpposite(p, z, r);
    SquareRemainder(p, r * r, z);
    RemainderSquared(p, r);
  }

  lemma FromSquare(p: pos, x: nat, z: nat)
    requires x < p && z < p && x * x % p == if x <= p / 2 then z else p - z
    ensures PermuteModulo(p, x) == z
  {
  }

  lemma RootInHalf(p: pos, z: nat, root: nat, square: nat)
    requires p % 2 == 1 && 0 < z < p && 0 < root < p && square == root * root % p && (square == z || square == p - z)
    ensures PermuteModulo(p, InHalf(p, root, square == z)) == z
  {
    OppositeSquare(p, root);
    FromSquare(p, InHalf(p, root, square == z), z);
  }

  lemma NonzeroUndone(p: pos, z: nat, root: nat)
    requires Prime(p) && p % 4 == 3 && 0 < z < p && root == Pow(z, (p + 1) / 4) % p
    ensures PermuteModulo(p, InHalf(p, root, root * root % p == z)) == z
  {
    SquareOfPower(p, z, root);
    SmallRemainder(p, 0);
    RootInHalf(p, z, root, root * root % p);
  }

  lemma ZeroUndone(p: pos)
    requires p % 4 == 3
    ensures UnpermuteModulo(p, 0) == 0 && PermuteModulo(p, 0) == 0
  {
    assert Pow(0, (p + 1) / 4) == 0;
    SmallRemainder(p, 0);
  }

  /** Permuting undoes this. */
  lemma PermuteUnpermute(p: pos, z: nat)
    requires Prime(p) && p % 4 == 3
    ensures PermuteModulo(p, UnpermuteModulo(p, z)) == z
  {
    if z == 0 {
      ZeroUndone(p);
    } else if z < p {
      NonzeroUndone(p, z, Pow(z, (p + 1) / 4) % p);
    }
  }

  lemma UnpermutePermute(p: pos, x: nat)
    requires Prime(p) && p % 4 == 3
    ensures UnpermuteModulo(p, PermuteModulo(p, x)) == x
  {
    PermuteUnpermute(p, PermuteModulo(p, x));
    PermuteInjective(p, UnpermuteModulo(p, PermuteModulo(p, x)), x);
  }

  // ---------------------------------------------------------------------
  // A bijection on the 32-bit words
  // ---------------------------------------------------------------------

  const PRIME: pos := 4294967291

  /** `rand_unique_permute` */
  function Permute(x: uint32): uint32 {
    PermuteModulo(PRIME, x)
  }

  function Unpermute(z: uint32): uint32 {
    UnpermuteModulo(PRIME, z)
  }

  /** The second map undoes the first. */
  ghost predicate Undoes(g: uint32 -> uint32, f: uint32 -> uint32) {
    forall x: uint32 :: g(f(x)) == x
  }

  lemma PermuteBothWays(x: uint32)
    ensures Unpermute(Permute(x)) == x && Permute(Unpermute(x)) == x
  {
    PrimeCertificate.Prime4294967291();
    UnpermutePermute(PRIME, x);
    PermuteUnpermute(PRIME, x);
  }

  lemma PermuteUndone()
    ensures Undoes(Unpermute, Permute) && Undoes(Permute, Unpermute)
  {
    forall x: uint32 ensures Unpermute(Permute(x)) == x && Permute(Unpermute(x)) == x {
      PermuteBothWays(x);
    }
  }

  lemma PermuteOneToOne(x: uint32, y: uint32)
    ensures Permute(x) == Permute(y) <==> x == y
  {
    PermuteBothWays(x);
    PermuteBothWays(y);
  }

  function Scramble(w: uint32): uint32 {
    PowerFacts();
    XorBound(32, w, 0x5bf03635);
    Xor(w, 0x5bf03635)
  }

  /** How the code combines its permutation with the offset. */
  function Mixed(permute: uint32 -> uint32, index: uint32, offset: uint32): uint32 {
    permute(Scramble((permute(index) + offset) % WORDS))
  }

  function Unmixed(unpermute: uint32 -> uint32, value: uint32, offset: uint32): uint32 {
    unpermute((Xor(unpermute(value), 0x5bf03635) - offset) % WORDS)
  }

  lemma OffsetUndone(w: uint32, offset: uint32)
    ensures ((w + offset) % WORDS - offset) % WORDS == w && ((w - offset) % WORDS + offset) % WORDS == w
  {
  }

  lemma MixedUndone(f: uint32 -> uint32, g: uint32 -> uint32, x: uint32, offset: uint32)
    requires Undoes(g, f)
    ensures Unmixed(g, Mixed(f, x, offset), offset) == x
  {
    OffsetUndone(f(x), offset);
    XorCancel((f(x) + offset) % WORDS, 0x5bf03635);
  }

  lemma UnmixedUndone(f: uint32 -> uint32, g: uint32 -> uint32, value: uint32, offset: uint32)
    requires Undoes(f, g)
    ensures Mixed(f, Unmixed(g, value, offset), offset) == value
  {
    OffsetUndone(Scramble(g(value)), offset);
    XorCancel(g(value), 0x5bf03635);
  }

  /** The value that the ticket `index` yields once the offset is fixed. */
  function ValueAt(index: uint32, offset: uint32): uint32 {
    Mixed(Permute, index, offset)
  }

  /** The ticket that a value belongs to. */
  function IndexOf(value: uint32, offset: uint32): uint32 {
    Unmixed(Unpermute, value, offset)
  }

  /** Each value tells its ticket. */
  lemma TicketRecovered(index: uint32, offset: uint32)
    ensures IndexOf(ValueAt(index, offset), offset) == index
  {
    PermuteUndone();
    MixedUndone(Permute, Unpermute, index, offset);
  }

  /** Every word is the value of a ticket. */
  lemma ValueRecovered(value: uint32, offset: uint32)
    ensures ValueAt(IndexOf(value, offset), offset) == value
  {
    PermuteUndone();
    UnmixedUndone(Permute, Unpermute, value, offset);
  }

  lemma SameTicket(v: uint32, w: uint32, offset: uint32)
    ensures IndexOf(v, offset) == IndexOf(w, offset) <==> v == w
  {
    ValueRecovered(v, offset);
    ValueRecovered(w, offset);
  }

  lemma ValueOneToOne(i: uint32, j: uint32, offset: uint32)
    ensures ValueAt(i, offset) == ValueAt(j, offset) <==> i == j
  {
    TicketRecovered(i, offset);
    TicketRecovered(j, offset);
  }

  /** Every word is the value of a ticket, and of only one. */
  lemma ValueOnto(y: uint32, offset: uint32) returns (index: uint32)
    ensures ValueAt(index, offset) == y
    ensures forall i: uint32 :: ValueAt(i, offset) == y ==> i == index
  {
    index := IndexOf(y, offset);
    ValueRecovered(y, offset);
    forall i: uint32 | ValueAt(i, offset) == y ensures i == index {
      ValueOneToOne(i, index, offset);
    }
  }

  // ---------------------------------------------------------------------
  // The generator
  // ---------------------------------------------------------------------

  /** How `rand_unique_seed` turns a random word into the start of the index or the offset. */
  function Shuffled(permute: uint32 -> uint32, seed: uint32, constant: uint32): uint32 {
    permute((permute(seed) + constant) % WORDS)
  }

  function Unshuffled(unpermute: uint32 -> uint32, start: uint32, constant: uint32): uint32 {
    unpermute((unpermute(start) - constant) % WORDS)
  }

  lemma ShuffledUndone(f: uint32 -> uint32, g: uint32 -> uint32, seed: uint32, constant: uint32)
    requires Undoes(g, f)
    ensures Unshuffled(g, Shuffled(f, seed, constant), constant) == seed
  {
    OffsetUndone(f(seed), constant);
  }

  function Seeded(seed: uint32, constant: uint32): uint32 {
    Shuffled(Permute, seed, constant)
  }

  /** The random word that was turned into `start`. */
  function SeedOf(start: uint32, constant: uint32): uint32 {
    Unshuffled(Unpermute, start, constant)
  }

  lemma SeedRecovered(seed: uint32, constant: uint32)
    ensures SeedOf(Seeded(seed, constant), constant) == seed
  {
    PermuteUndone();
    ShuffledUndone(Permute, Unpermute, seed, constant);
  }

  /** Different random words seed differently. */
  lemma SeedOneToOne(x: uint32, y: uint32, constant: uint32)
    ensures Seeded(x, constant) == Seeded(y, constant) <==> x == y
  {
    SeedRecovered(x, constant);
    SeedRecovered(y, constant);
  }

  /** The index of the ticket with a given number. */
  function TicketIndex(start: uint32, number: nat): uint32 {
    (start + number) % WORDS
  }

  lemma NextIndex(start: uint32, number: nat)
    ensures TicketIndex(start, number + 1) == (TicketIndex(start, number) + 1) % WORDS
  {
  }

  lemma EqualTickets(start: uint32, a: nat, b: nat)
    ensures TicketIndex(start, a) == TicketIndex(start, b) <==> (a - b) % WORDS == 0
  {
  }

  lemma TicketValues(start: uint32, offset: uint32, a: nat, b: nat)
    ensures ValueAt(TicketIndex(start, a), offset) == ValueAt(TicketIndex(start, b), offset) <==> (a - b) % WORDS == 0
  {
    EqualTickets(start, a, b);
    ValueOneToOne(TicketIndex(start, a), TicketIndex(start, b), offset);
  }

  lemma DrawnApart(v: uint32, w: uint32, offset: uint32, start: uint32, a: nat, b: nat)
    requires IndexOf(v, offset) == TicketIndex(start, a) && IndexOf(w, offset) == TicketIndex(start, b)
    ensures v == w <==> (a - b) % WORDS == 0
  {
    EqualTickets(start, a, b);
    SameTicket(v, w, offset);
  }

  method SeedWord(seed: uint32, constant: uint32) returns (w: uint32)
    ensures SeedOf(w, constant) == seed
  {
    w := Seeded(seed, constant);
    SeedRecovered(seed, constant);
  }

  class UniqueGenerator {
    var index: uint32
    var offset: uint32

    /** The index at seeding, and the number of values drawn since. */
    ghost var start: uint32
    ghost var drawn: nat

    ghost predicate Valid()
      reads this
    {
      index == TicketIndex(start, drawn)
    }

    /** `rand_unique_seed`: each of the two words can be recovered from the state it leaves. */
    constructor (seedIndex: uint32, seedOffset: uint32)
      ensures Valid() && drawn == 0
      ensures SeedOf(start, 0x682f0161) == seedIndex && SeedOf(offset, 0x46790905) == seedOffset
    {
      var i := SeedWord(seedIndex, 0x682f0161);
      var o := SeedWord(seedOffset, 0x46790905);
      index, offset := i, o;
      start, drawn := i, 0;
    }

    /** `sb_rand_unique`, called by one thread: the value from which the next ticket can be recovered. */
    method Next() returns (value: uint32)
      requires Valid()
      modifies `index, `drawn
      ensures Valid() && drawn == old(drawn) + 1
      ensures IndexOf(value, offset) == TicketIndex(start, old(drawn))
    {
      NextIndex(start, drawn);
      var ticket := index;
      index := (index + 1) % WORDS;
      value := ValueAt(ticket, offset);
      TicketRecovered(ticket, offset);
      drawn := drawn + 1;
    }

    /** Any number of values drawn in a row: each tells its ticket, and they repeat with period 2^32 and not before. */
    method Draw(n: nat) returns (values: seq<uint32>)
      requires Valid()
      modifies `index, `drawn
      ensures Valid() && drawn == old(drawn) + n && |values| == n
      ensures forall i :: 0 <= i < n ==> IndexOf(values[i], offset) == TicketIndex(start, old(drawn) + i)
      ensures forall i, j :: 0 <= i < n && 0 <= j < n ==> (values[i] == values[j] <==> (i - j) % WORDS == 0)
    {
      values := [];
      ghost var first := drawn;
      while |values| < n
        invariant Valid() && |values| <= n && drawn == first + |values|
        invariant forall i :: 0 <= i < |values| ==> IndexOf(values[i], offset) == TicketIndex(start, first + i)
      {
        var value := Next();
        values := values + [value];
      }
      forall i, j | 0 <= i < n && 0 <= j < n ensures values[i] == values[j] <==> (i - j) % WORDS == 0 {
        DrawnApart(values[i], values[j], offset, start, first + i, first + j);
      }
    }
  }

  // ---------------------------------------------------------------------
  // Any number of threads calling sb_rand_unique
  // ---------------------------------------------------------------------

  /** A thread is outside, or has taken its ticket and not yet returned. */
  datatype Thread = Outside | Holding(number: nat, index: uint32)

  /** A finished call: the number of its ticket and the value it returned. */
  datatype Call = Call(number: nat, value: uint32)

  /** `number` counts the tickets taken so far; the code only has `index`. */
  datatype State = State(index: uint32, offset: uint32, threads: seq<Thread>, number: nat, calls: seq<Call>)

  datatype Step = Take(thread: nat) | Return(thread: nat)

  /** One atomic step: the fetch-and-add, or everything after it. */
  ghost predicate Next(s: State, step: Step, s': State) {
    step.thread < |s.threads| &&
    match step
    case Take(t) =>
      && s.threads[t].Outside?
      && s' == s.(index := (s.index + 1) % WORDS,
                  threads := s.threads[t := Holding(s.number, s.index)],
                  number := s.number + 1)
    case Return(t) =>
      && s.threads[t].Holding?
      && s' == s.(threads := s.threads[t := Outside],
                  calls := s.calls + [Call(s.threads[t].number, ValueAt(s.threads[t].index, s.offset))])
  }

  ghost predicate Run(states: seq<State>, steps: seq<Step>) {
    |states| == |steps| + 1 &&
    forall i :: 0 <= i < |steps| ==> Next(states[i], steps[i], states[i + 1])
  }

  ghost predicate Fresh(s: State) {
    s.number == 0 && s.calls == [] && forall t :: 0 <= t < |s.threads| ==> s.threads[t].Outside?
  }

  ghost predicate Consistent(s: State, start: uint32, offset: uint32) {
    && s.offset == offset
    && s.index == TicketIndex(start, s.number)
    && (forall t :: 0 <= t < |s.threads| && s.threads[t].Holding? ==>
          s.threads[t].number < s.number && s.threads[t].index == TicketIndex(start, s.threads[t].number))
    && (forall k :: 0 <= k < |s.calls| ==>
          s.calls[k].number < s.number && s.calls[k].value == ValueAt(TicketIndex(start, s.calls[k].number), offset))
    && (forall t, u :: 0 <= t < u < |s.threads| && s.threads[t].Holding? && s.threads[u].Holding? ==>
          s.threads[t].number != s.threads[u].number)
    && (forall t, k :: 0 <= t < |s.threads| && s.threads[t].Holding? && 0 <= k < |s.calls| ==>
          s.threads[t].number != s.calls[k].number)
    && (forall k, l :: 0 <= k < l < |s.calls| ==> s.calls[k].number != s.calls[l].number)
  }

  lemma StepConsistent(s: State, step: Step, s': State, start: uint32, offset: uint32)
    requires Consistent(s, start, offset) && Next(s, step, s')
    ensures Consistent(s', start, offset)
  {
    NextIndex(start, s.number);
  }

  lemma {:induction false} RunConsistent(states: seq<State>, steps: seq<Step>)
    requires Run(states, steps) && Fresh(states[0])
    ensures Consistent(states[|steps|], states[0].index, states[0].offset)
  {
    if |steps| > 0 {
      var n := |steps| - 1;
      RunConsistent(states[..n + 1], steps[..n]);
      StepConsistent(states[n], steps[n], states[n + 1], states[0].index, states[0].offset);
    }
  }

  /**
    In every interleaving of any number of threads, from any seed, each value
    returned tells its ticket, and two calls return the same value exactly if
    a multiple of 2^32 tickets lies between them.
  */
  lemma CallsDistinct(states: seq<State>, steps: seq<Step>, k: nat, l: nat)
    requires Run(states, steps) && Fresh(states[0])
    requires k < |states[|steps|].calls| && l < |states[|steps|].calls| && k != l
    ensures var calls := states[|steps|].calls;
      && calls[k].number != calls[l].number
      && IndexOf(calls[k].value, states[0].offset) == TicketIndex(states[0].index, calls[k].number)
      && (calls[k].value == calls[l].value <==> (calls[k].number - calls[l].number) % WORDS == 0)
  {
    RunConsistent(states, steps);
    var calls := states[|steps|].calls;
    TicketValues(states[0].index, states[0].offset, calls[k].number, calls[l].number);
    TicketRecovered(TicketIndex(states[0].index, calls[k].number), states[0].offset);
  }

  lemma NotAMultiple(a: nat, b: nat)
    requires a < WORDS && b < WORDS && a != b
    ensures (a - b) % WORDS != 0
  {
  }

  /** The first 2^32 calls of a run return pairwise distinct values. */
  lemma FirstCallsDistinct(states: seq<State>, steps: seq<Step>)
    requires Run(states, steps) && Fresh(states[0])
    requires states[|steps|].number <= WORDS
    ensures forall k, l :: 0 <= k < l < |states[|steps|].calls| ==>
      states[|steps|].calls[k].value != states[|steps|].calls[l].value
  {
    RunConsistent(states, steps);
    forall k, l | 0 <= k < l < |states[|steps|].calls|
      ensures states[|steps|].calls[k].value != states[|steps|].calls[l].value
    {
      CallsDistinct(states, steps, k, l);
      NotAMultiple(states[|steps|].calls[k].number, states[|steps|].calls[l].number);
    }
  }
}
