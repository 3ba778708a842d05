/**
  The prime-order group and its scalar field, modelled together as the
  integers modulo the group order q. A group element is named by its multiple
  of the generator, so scalar multiplication is multiplication mod q and point
  addition is addition mod q. Every operation returns the canonical
  representative in [0, q).
*/
module Zq {

  type Order = q: int | q > 1 witness 2

  predicate IsCanonical(q: Order, x: int) {
    0 <= x < q
  }

  /** Scalar multiplication of a point, and field multiplication, in Z_q. */
  function Mul(q: Order, a: int, b: int): (r: int)
    ensures IsCanonical(q, r)
  {
    (a * b) % q
  }

  /** Point addition, and field addition, in Z_q. */
  function Add(q: Order, a: int, b: int): (r: int)
    ensures IsCanonical(q, r)
  {
    (a + b) % q
  }

  /** Field subtraction in Z_q. */
  function Sub(q: Order, a: int, b: int): (r: int)
    ensures IsCanonical(q, r)
  {
    (a - b) % q
  }

  predicate Divides(d: int, n: int) {
    d != 0 && n % d == 0
  }

  predicate IsPrime(q: int) {
    q > 1 && forall d :: 1 < d < q ==> !Divides(d, q)
  }

  lemma MulNonneg(a: int, b: int)
    requires a >= 0 && b >= 0
    ensures a * b >= 0
  {
  }

  /** Euclidean division has exactly one quotient and remainder. */
  lemma ModUnique(a: int, q: Order, d: int, r: int)
    requires 0 <= r < q && a == d * q + r
    ensures a % q == r && a / q == d
  {
    var d0, r0 := a / q, a % q;
    assert a == d0 * q + r0;
    var m := d - d0;
    assert m * q == r0 - r;
    if m >= 1 {
      MulNonneg(m - 1, q);
    } else if m <= -1 {
      MulNonneg(-m - 1, q);
    }
  }

  lemma ModAddMultiple(x: int, k: int, q: Order)
    ensures (x + k * q) % q == x % q
  {
    ModUnique(x + k * q, q, x / q + k, x % q);
  }

  lemma ModCanonical(x: int, q: Order)
    requires IsCanonical(q, x)
    ensures x % q == x
  {
  }

  /** Reducing a factor first does not change a product mod q. */
  lemma MulReduce(a: int, b: int, q: Order)
    ensures ((a % q) * b) % q == (a * b) % q
    ensures (a * (b % q)) % q == (a * b) % q
  {
    var da, ra := a / q, a % q;
    var db, rb := b / q, b % q;
    assert a * b == ra * b + (da * b) * q;
    ModAddMultiple(ra * b, da * b, q);
    assert a * b == a * rb + (a * db) * q;
    ModAddMultiple(a * rb, a * db, q);
  }

  /** Reducing a summand first does not change a sum mod q. */
  lemma AddReduce(a: int, b: int, q: Order)
    ensures ((a % q) + b) % q == (a + b) % q
    ensures (a + (b % q)) % q == (a + b) % q
    ensures (a - (b % q)) % q == (a - b) % q
  {
    assert a == (a / q) * q + a % q;
    assert b == (b / q) * q + b % q;
    CongruentEqual(a + b, (a % q) + b, a / q, q);
    CongruentEqual(a + b, a + (b % q), b / q, q);
    CongruentEqual(a - b, a - (b % q), -(b / q), q);
  }

  /** Congruent integers have the same representative. */
  lemma CongruentEqual(a: int, b: int, k: int, q: Order)
    requires a == b + k * q
    ensures a % q == b % q
  {
    ModAddMultiple(b, k, q);
  }

  /**
    Z_q has no zero divisors when q is prime: the product of two scalars that
    are nonzero mod q is nonzero mod q. The proof descends on the second
    factor through the remainders q % b.
  */
  lemma {:induction false} NoZeroDivisorsCanonical(q: Order, a: int, b: int)
    requires IsPrime(q)
    requires 0 < a < q && 0 < b < q
    ensures (a * b) % q != 0
    decreases b
  {
    if b == 1 {
      ModCanonical(a, q);
    } else {
      var m, s := q / b, q % b;
      assert q == m * b + s;
      assert !Divides(b, q);
      NoZeroDivisorsCanonical(q, a, s);
      if (a * b) % q == 0 {
        var k := (a * b) / q;
        assert a * b == k * q;
        assert a * s == 0 + (a - m * k) * q by {
          assert a * s == a * q - m * (a * b);
        }
        CongruentEqual(a * s, 0, a - m * k, q);
      }
    }
  }

  lemma NoZeroDivisors(q: Order, a: int, b: int)
    requires IsPrime(q)
    requires a % q != 0 && b % q != 0
    ensures (a * b) % q != 0
  {
    NoZeroDivisorsCanonical(q, a % q, b % q);
    MulReduce(a, b % q, q);
    MulReduce(a, b, q);
  }

  /**
    Multiplication by a scalar that is nonzero mod a prime q is injective on
    Z_q: a point that is not the identity tells distinct scalars apart.
  */
  lemma MulCancel(q: Order, p: int, x: int, y: int)
    requires IsPrime(q)
    requires p % q != 0
    requires x % q != y % q
    ensures Mul(q, p, x) != Mul(q, p, y)
  {
    if Mul(q, p, x) == Mul(q, p, y) {
      var kx, ky := (p * x) / q, (p * y) / q;
      assert p * (x - y) == ((p * x) % q - (p * y) % q) + (kx - ky) * q;
      CongruentEqual(p * (x - y), 0, kx - ky, q);
      assert (x - y) % q != 0 by {
        if (x - y) % q == 0 {
          CongruentEqual(x, y, (x - y) / q, q);
        }
      }
      NoZeroDivisors(q, p, x - y);
    }
  }
}
