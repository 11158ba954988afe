/**
  Exclusive-or on natural numbers. The C code works on unsigned words of 8,
  32 and 64 bits; the model keeps them as natural numbers below a power of
  two, with `c >> k` written `c / Pow2(k)` and `c & (Pow2(k) - 1)` written
  `c % Pow2(k)`, so that only exclusive-or needs a definition.
*/
module Words {

  function Pow2(k: nat): (p: nat)
    ensures p > 0
  {
    if k == 0 then 1 else 2 * Pow2(k - 1)
  }

  lemma PowerFacts()
    ensures Pow2(8) == 0x100 && Pow2(16) == 0x1_0000 && Pow2(24) == 0x100_0000
    ensures Pow2(31) == 0x8000_0000 && Pow2(32) == 0x1_0000_0000
  {
    assert Pow2(8) == 0x100;
    assert Pow2(16) == 0x1_0000;
    assert Pow2(24) == 0x100_0000;
  }

  function Xor(a: nat, b: nat): nat
    decreases a + b
  {
    if a == 0 && b == 0 then 0 else 2 * Xor(a / 2, b / 2) + (if a % 2 == b % 2 then 0 else 1)
  }

  lemma {:induction false} XorZero(a: nat)
    ensures Xor(a, 0) == a
    decreases a
  {
    if a > 0 {
      XorZero(a / 2);
    }
  }

  lemma {:induction false} XorComm(a: nat, b: nat)
    ensures Xor(a, b) == Xor(b, a)
    decreases a + b
  {
    if a + b > 0 {
      XorComm(a / 2, b / 2);
    }
  }

  lemma {:induction false} XorSelf(a: nat)
    ensures Xor(a, a) == 0
    decreases a
  {
    if a > 0 {
      XorSelf(a / 2);
    }
  }

  /** One step of the definition: the low bits `i` and `j` add without carry. */
  lemma XorStep(a: nat, b: nat, i: nat, j: nat)
    requires i < 2 && j < 2
    ensures Xor(2 * a + i, 2 * b + j) == 2 * Xor(a, b) + (if i == j then 0 else 1)
  {
    assert (2 * a + i) / 2 == a && (2 * b + j) / 2 == b;
  }

  lemma XorAssocStep(x: nat, y: nat, z: nat, i: nat, j: nat, k: nat)
    requires i < 2 && j < 2 && k < 2
    requires Xor(Xor(x, y), z) == Xor(x, Xor(y, z))
    ensures Xor(Xor(2 * x + i, 2 * y + j), 2 * z + k) == Xor(2 * x + i, Xor(2 * y + j, 2 * z + k))
  {
    XorStep(x, y, i, j);
    XorStep(y, z, j, k);
    XorStep(Xor(x, y), z, if i == j then 0 else 1, k);
    XorStep(x, Xor(y, z), i, if j == k then 0 else 1);
  }

  lemma {:induction false} XorAssoc(a: nat, b: nat, c: nat)
    ensures Xor(Xor(a, b), c) == Xor(a, Xor(b, c))
    decreases a + b + c
  {
    if a + b + c > 0 {
      XorAssoc(a / 2, b / 2, c / 2);
      XorAssocStep(a / 2, b / 2, c / 2, a % 2, b % 2, c % 2);
    }
  }

  /** Adding the same word twice changes nothing. */
  lemma XorCancel(a: nat, b: nat)
    ensures Xor(Xor(a, b), b) == a
  {
    XorAssoc(a, b, b);
    XorSelf(b);
    XorZero(a);
  }

  /** A sum is zero only if its two terms are equal. */
  lemma XorZeroEqual(a: nat, b: nat)
    requires Xor(a, b) == 0
    ensures a == b
  {
    XorCancel(a, b);
    XorComm(0, b);
    XorZero(b);
  }

  lemma XorSwap(a: nat, b: nat, c: nat, d: nat)
    ensures Xor(Xor(a, b), Xor(c, d)) == Xor(Xor(a, c), Xor(b, d))
  {
    calc {
      Xor(Xor(a, b), Xor(c, d));
      { XorAssoc(a, b, Xor(c, d)); XorAssoc(b, c, d); }
      Xor(a, Xor(Xor(b, c), d));
      { XorComm(b, c); }
      Xor(a, Xor(Xor(c, b), d));
      { XorAssoc(c, b, d); XorAssoc(a, c, Xor(b, d)); }
      Xor(Xor(a, c), Xor(b, d));
    }
  }

  lemma {:induction false} XorBound(k: nat, a: nat, b: nat)
    requires a < Pow2(k) && b < Pow2(k)
    ensures Xor(a, b) < Pow2(k)
  {
    if k > 0 {
      XorBound(k - 1, a / 2, b / 2);
    }
  }

  lemma XorSplitStep(a: nat, b: nat, i: nat, j: nat, c: nat, d: nat, x: nat)
    requires i < 2 && j < 2
    requires Xor(a + c, b + d) == Xor(a, b) + x
    ensures Xor(2 * a + i + 2 * c, 2 * b + j + 2 * d) == Xor(2 * a + i, 2 * b + j) + 2 * x
  {
    XorStep(a, b, i, j);
    XorStep(a + c, b + d, i, j);
  }

  function Shl(k: nat, c: nat): nat {
    if k == 0 then c else 2 * Shl(k - 1, c)
  }

  lemma {:induction false} ShlIsProduct(k: nat, c: nat)
    ensures Shl(k, c) == Pow2(k) * c
  {
    if k > 0 {
      ShlIsProduct(k - 1, c);
      assert 2 * (Pow2(k - 1) * c) == (2 * Pow2(k - 1)) * c;
    }
  }

  lemma {:induction false} XorShl(k: nat, a: nat, b: nat, c: nat, d: nat)
    requires a < Pow2(k) && b < Pow2(k)
    ensures Xor(a + Shl(k, c), b + Shl(k, d)) == Xor(a, b) + Shl(k, Xor(c, d))
  {
    if k > 0 {
      var x, y, i, j := a / 2, b / 2, a % 2, b % 2;
      var u, v, w := Shl(k - 1, c), Shl(k - 1, d), Shl(k - 1, Xor(c, d));
      XorShl(k - 1, x, y, c, d);
      assert a == 2 * x + i && b == 2 * y + j;
      assert Xor(2 * x + i + 2 * u, 2 * y + j + 2 * v) == Xor(2 * x + i, 2 * y + j) + 2 * w by {
        XorSplitStep(x, y, i, j, u, v, w);
      }
    }
  }

  /** Exclusive-or works separately on the low `k` bits and on the rest. */
  lemma XorSplit(k: nat, a: nat, b: nat, c: nat, d: nat)
    requires a < Pow2(k) && b < Pow2(k)
    ensures Xor(a + Pow2(k) * c, b + Pow2(k) * d) == Xor(a, b) + Pow2(k) * Xor(c, d)
  {
    XorShl(k, a, b, c, d);
    ShlIsProduct(k, c);
    ShlIsProduct(k, d);
    ShlIsProduct(k, Xor(c, d));
  }
}
