/**
  Iterating a linear map. `plus` and `zero` make a group in which every
  element is its own inverse, as words do under exclusive-or.
*/
module LinearMaps {

  /** Four terms may be added in any pairing. */
  ghost predicate Swaps<T>(plus: (T, T) -> T, a: T, b: T, c: T, d: T) {
    plus(plus(a, b), plus(c, d)) == plus(plus(a, c), plus(b, d))
  }

  ghost predicate Neutral<T>(plus: (T, T) -> T, zero: T, a: T) {
    plus(a, zero) == a && plus(zero, a) == a && plus(a, a) == zero
  }

  ghost predicate Group<T(!new)>(plus: (T, T) -> T, zero: T) {
    && (forall a, b, c, d :: Swaps(plus, a, b, c, d))
    && (forall a :: Neutral(plus, zero, a))
  }

  ghost predicate Additive<T>(f: T -> T, plus: (T, T) -> T, a: T, b: T) {
    f(plus(a, b)) == plus(f(a), f(b))
  }

  ghost predicate Linear<T(!new)>(f: T -> T, plus: (T, T) -> T) {
    forall a, b :: Additive(f, plus, a, b)
  }

  function Iterate<T>(f: T -> T, n: nat, s: T): T {
    if n == 0 then s else f(Iterate(f, n - 1, s))
  }

  /** The sum of the k-fold images of `s`, over the k below `n` that `chosen` selects. */
  function SumOf<T>(f: T -> T, plus: (T, T) -> T, zero: T, chosen: nat -> bool, n: nat, s: T): T {
    if n == 0 then zero
    else plus(SumOf(f, plus, zero, chosen, n - 1, s), if chosen(n - 1) then Iterate(f, n - 1, s) else zero)
  }

  lemma MapsZero<T(!new)>(f: T -> T, plus: (T, T) -> T, zero: T)
    requires Group(plus, zero) && Linear(f, plus)
    ensures f(zero) == zero
  {
    assert Additive(f, plus, zero, zero) && Neutral(plus, zero, zero) && Neutral(plus, zero, f(zero));
  }

  lemma {:induction false} IterateLinear<T(!new)>(f: T -> T, plus: (T, T) -> T, n: nat, a: T, b: T)
    requires Linear(f, plus)
    ensures Iterate(f, n, plus(a, b)) == plus(Iterate(f, n, a), Iterate(f, n, b))
  {
    if n > 0 {
      IterateLinear(f, plus, n - 1, a, b);
      assert Additive(f, plus, Iterate(f, n - 1, a), Iterate(f, n - 1, b));
    }
  }

  lemma {:induction false} IterateCommutes<T>(f: T -> T, n: nat, s: T)
    ensures Iterate(f, n, f(s)) == f(Iterate(f, n, s))
  {
    if n > 0 {
      IterateCommutes(f, n - 1, s);
    }
  }

  lemma {:induction false} SumLinear<T(!new)>(f: T -> T, plus: (T, T) -> T, zero: T, chosen: nat -> bool, n: nat,
                                              a: T, b: T)
    requires Group(plus, zero) && Linear(f, plus)
    ensures SumOf(f, plus, zero, chosen, n, plus(a, b))
         == plus(SumOf(f, plus, zero, chosen, n, a), SumOf(f, plus, zero, chosen, n, b))
  {
    assert Neutral(plus, zero, zero);
    if n > 0 {
      SumLinear(f, plus, zero, chosen, n - 1, a, b);
      IterateLinear(f, plus, n - 1, a, b);
      var u, v := SumOf(f, plus, zero, chosen, n - 1, a), SumOf(f, plus, zero, chosen, n - 1, b);
      var x := if chosen(n - 1) then Iterate(f, n - 1, a) else zero;
      var y := if chosen(n - 1) then Iterate(f, n - 1, b) else zero;
      assert Swaps(plus, u, v, x, y);
    }
  }

  lemma {:induction false} SumCommutes<T(!new)>(f: T -> T, plus: (T, T) -> T, zero: T, chosen: nat -> bool, n: nat,
                                                s: T)
    requires Group(plus, zero) && Linear(f, plus)
    ensures SumOf(f, plus, zero, chosen, n, f(s)) == f(SumOf(f, plus, zero, chosen, n, s))
  {
    MapsZero(f, plus, zero);
    if n > 0 {
      SumCommutes(f, plus, zero, chosen, n - 1, s);
      IterateCommutes(f, n - 1, s);
      var x := if chosen(n - 1) then Iterate(f, n - 1, s) else zero;
      assert Additive(f, plus, SumOf(f, plus, zero, chosen, n - 1, s), x);
    }
  }
}
