/**
  4294967291, the modulus of the unique random sequence, is prime. The proof
  is a chain of certificates: 181 by trial division, 22605091 from the prime
  power 181^2, and 4294967291 from the prime 22605091.
*/
module PrimeCertificate {
  import opened NumberTheory

  lemma Prime181()
    ensures Prime(181)
  {
    var r := PrimeDivisor(181);
    assert forall d :: 2 <= d < 14 ==> !Divides(d, 181);
    LargerSquare(r, 13);
  }

  lemma FirstPower22605091(b: nat, n: pos) returns (e: nat)
    requires b == 18389778 && n == 22605091
    ensures e == 181 && Congruent(Pow(b, e), 13954217, n)
  {
    e := FirstPower(b, n);
    e := SquareStep(b, e, 18389778, 18881964, 14960520, false, n);
    e := SquareStep(b, e, 18881964, 22134795, 290044448472423, true, n);
    e := SquareStep(b, e, 22134795, 19857376, 398585260909814, true, n);
    e := SquareStep(b, e, 19857376, 18167953, 17443653, false, n);
    e := SquareStep(b, e, 18167953, 15500452, 268523452374650, true, n);
    e := SquareStep(b, e, 15500452, 15607508, 10628756, false, n);
    e := SquareStep(b, e, 15607508, 13954217, 198169748967325, true, n);
  }

  lemma SecondPower22605091(b: nat, n: pos) returns (e: nat)
    requires b == 13954217 && n == 22605091
    ensures e == 181 && Congruent(Pow(b, e), 1, n)
  {
    e := FirstPower(b, n);
    e := SquareStep(b, e, 13954217, 8629453, 8613996, false, n);
    e := SquareStep(b, e, 8629453, 8652108, 45969073224695, true, n);
    e := SquareStep(b, e, 8652108, 18624071, 46210756305187, true, n);
    e := SquareStep(b, e, 18624071, 519936, 15344155, false, n);
    e := SquareStep(b, e, 519936, 122734, 166877963078, true, n);
    e := SquareStep(b, e, 122734, 8644150, 666, false, n);
    e := SquareStep(b, e, 8644150, 1, 46125788323489, true, n);
  }

  lemma PowerTwice(n: pos, q: pos, b: nat, c: nat)
    requires Congruent(Pow(b, q), c, n) && Congruent(Pow(c, q), 1, n)
    ensures Congruent(Pow(b, q * q), 1, n)
  {
    PowProduct(b, q, q);
    PowCongruent(Pow(b, q), c, q, n);
    CongruentTransitive(Pow(Pow(b, q), q), Pow(c, q), 1, n);
  }

  lemma InvertibleLess(n: pos, x: int, c: int, u: int)
    requires Congruent(x, c, n) && Congruent((c - 1) * u, 1, n)
    ensures Congruent((x - 1) * u, 1, n)
  {
    CongruentProduct(x - 1, c - 1, u, u, n);
    CongruentTransitive((x - 1) * u, (c - 1) * u, 1, n);
  }

  /** Pocklington's test with the square of a prime, its two powers taken one after the other. */
  lemma SquareCertificate(n: pos, q: pos, b: nat, c: nat, u: int)
    requires n >= 2 && Prime(q) && n < q * q * (q * q)
    requires Congruent(Pow(b, q), c, n) && Congruent(Pow(c, q), 1, n) && Congruent((c - 1) * u, 1, n)
    ensures Prime(n)
  {
    PowerTwice(n, q, b, c);
    InvertibleLess(n, Pow(b, q), c, u);
    FirstPowers(q);
    Pocklington(n, q, 2, b, u);
  }

  lemma FirstPowers(q: int)
    ensures Pow(q, 1) == q && Pow(q, 2) == q * q
  {
  }

  lemma Certified22605091(b: nat, c: nat, n: pos)
    requires b == 18389778 && c == 13954217 && n == 22605091
    ensures Prime(n)
  {
    Prime181();
    var q := FirstPower22605091(b, n);
    var e := SecondPower22605091(c, n);
    var u := Inverse22605091(c, n);
    assert n < q * q * (q * q);
    SquareCertificate(n, q, b, c, u);
  }

  lemma Inverse22605091(c: nat, n: pos) returns (u: int)
    requires c == 13954217 && n == 22605091
    ensures Congruent((c - 1) * u, 1, n)
  {
    u := 19569746;
  }

  lemma Prime22605091()
    ensures Prime(22605091)
  {
    Certified22605091(18389778, 13954217, 22605091);
  }

  lemma Power4294967291(b: nat, n: pos) returns (e: nat)
    requires b == 1073745729 && n == 4294967291
    ensures e == 22605091 && Congruent(Pow(b, e), 1, n)
  {
    e := FirstPower(b, n);
    e := SquareStep(b, e, 1073745729, 3504919713, 268437408, false, n);
    e := SquareStep(b, e, 3504919713, 2762101756, 3071126721297293695, true, n);
    e := SquareStep(b, e, 2762101756, 1474251975, 1776312971, false, n);
    e := SquareStep(b, e, 1474251975, 4065820878, 543356698160813817, true, n);
    e := SquareStep(b, e, 4065820878, 1820247785, 4132739887760620961, true, n);
    e := SquareStep(b, e, 1820247785, 3855700258, 771438237, false, n);
    e := SquareStep(b, e, 3855700258, 1858816020, 3461359184, false, n);
    e := SquareStep(b, e, 1858816020, 2210652769, 804475741, false, n);
    e := SquareStep(b, e, 2210652769, 3255072328, 1221750860959417051, true, n);
    e := SquareStep(b, e, 3255072328, 2036108090, 2648883601675193906, true, n);
    e := SquareStep(b, e, 2036108090, 2579436866, 1036437809065933574, true, n);
    e := SquareStep(b, e, 2579436866, 1810740027, 1549137419, false, n);
    e := SquareStep(b, e, 1810740027, 3638735613, 819697843377527508, true, n);
    e := SquareStep(b, e, 3638735613, 2142344274, 3310111257399430197, true, n);
    e := SquareStep(b, e, 2142344274, 164317185, 1068608601, false, n);
    e := SquareStep(b, e, 164317185, 3827152162, 6750058878062893, true, n);
    e := SquareStep(b, e, 3827152162, 305512203, 3410292251, false, n);
    e := SquareStep(b, e, 305512203, 999910711, 21731878, false, n);
    e := SquareStep(b, e, 999910711, 3852027162, 249956266825425717, true, n);
    e := SquareStep(b, e, 3852027162, 894754220, 3454767464, false, n);
    e := SquareStep(b, e, 894754220, 2824842023, 186400747, false, n);
    e := SquareStep(b, e, 2824842023, 3541280234, 1857926245, false, n);
    e := SquareStep(b, e, 3541280234, 4191888076, 3135177829598793928, true, n);
    e := SquareStep(b, e, 4191888076, 1, 4392997392001035133, true, n);
  }

  /** Pocklington's test with a prime of which the first power is large enough. */
  lemma PrimeCertificateOf(n: pos, q: pos, b: nat, u: int)
    requires n >= 2 && Prime(q) && n < q * q
    requires Congruent(Pow(b, q), 1, n) && Congruent((b - 1) * u, 1, n)
    ensures Prime(n)
  {
    ZerothAndFirstPower(q);
    ZerothAndFirstPower(b);
    Pocklington(n, q, 1, b, u);
  }

  lemma ZerothAndFirstPower(q: int)
    ensures Pow(q, 0) == 1 && Pow(q, 1) == q
  {
  }

  lemma Certified4294967291(b: nat, n: pos)
    requires b == 1073745729 && n == 4294967291
    ensures Prime(n)
  {
    Prime22605091();
    var q := Power4294967291(b, n);
    PrimeCertificateOf(n, q, b, 1771216906);
  }

  /** The modulus of `rand_unique_permute` is prime. */
  lemma Prime4294967291()
    ensures Prime(4294967291)
  {
    Certified4294967291(1073745729, 4294967291);
  }
}
