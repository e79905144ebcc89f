/**
  The scalar field of ristretto255 and, through it, the group itself.

  ristretto255 has prime order L (section 4 of RFC 9496), so after fixing one
  base point every group element is determined by its discrete logarithm, an
  integer mod L. This model uses that representation throughout: a scalar and
  a group element are both integers in [0, L); scalar multiplication and
  group addition become multiplication and addition mod L.
 */
module Field {

  /** The order of ristretto255: 2^252 + 27742317777372353535851937790883648493. */
  const L: int := 0x1000000000000000000000000000000014def9dea2f79cd65812631a5cf5d3ed

  /** A reduced scalar. */
  type Scalar = x: int | 0 <= x < L

  /** A group element, represented by its discrete logarithm. */
  type Point = Scalar

  /** The group identity. */
  const Identity: Point := 0

  function Add(a: Scalar, b: Scalar): Scalar {
    (a + b) % L
  }

  /** `mul(s, a, b)`: s = a * b. */
  function Mul(a: Scalar, b: Scalar): Scalar {
    (a * b) % L
  }

  /** `muladd(s, a, b, c)`: s = a * b + c. */
  function MulAdd(a: Scalar, b: Scalar, c: Scalar): Scalar {
    (a * b + c) % L
  }

  /** Scalar multiplication of a point by an unreduced non-negative integer
      (a 32-byte little-endian scalar may exceed L). */
  function ScalarMul(k: nat, p: Point): Point {
    (k * p) % L
  }

  /** Group addition. */
  function PointAdd(p: Point, q: Point): Point {
    Add(p, q)
  }

  /** y is the multiplicative inverse of x. */
  predicate IsInverse(x: Scalar, y: Scalar) {
    Mul(x, y) == 1
  }

  /** a and b are congruent modulo L. */
  predicate Cong(a: int, b: int) {
    a % L == b % L
  }

  // ---------------------------------------------------------------------------
  // Congruence facts used by the algebraic lemmas.
  // ---------------------------------------------------------------------------

  lemma ShiftByMultiple(b: int, k: int)
    ensures (b + k * L) % L == b % L
  {
  }

  lemma CongIsDivisibleDifference(a: int, b: int)
    ensures Cong(a, b) <==> (a - b) % L == 0
  {
    var k := a / L - b / L;
    assert a == (a / L) * L + a % L;
    assert b == (b / L) * L + b % L;
    if Cong(a, b) {
      assert a - b == k * L;
      ShiftByMultiple(0, k);
    } else {
      ShiftByMultiple(a % L - b % L, k);
      assert a - b == a % L - b % L + k * L;
    }
  }

  lemma DivisibleTimes(d: int, s: int)
    requires d % L == 0
    ensures (d * s) % L == 0
  {
    var k := d / L;
    assert d == k * L;
    assert d * s == (k * s) * L;
    ShiftByMultiple(0, k * s);
  }

  lemma CongTrans(a: int, b: int, c: int)
    requires Cong(a, b) && Cong(b, c)
    ensures Cong(a, c)
  {
  }

  lemma CongAdd(a: int, b: int, c: int, d: int)
    requires Cong(a, b) && Cong(c, d)
    ensures Cong(a + c, b + d)
  {
    CongIsDivisibleDifference(a, b);
    CongIsDivisibleDifference(c, d);
    var k1 := (a - b) / L;
    var k2 := (c - d) / L;
    assert a - b == k1 * L;
    assert c - d == k2 * L;
    assert (a + c) - (b + d) == (k1 + k2) * L;
    ShiftByMultiple(0, k1 + k2);
    CongIsDivisibleDifference(a + c, b + d);
  }

  lemma CongMul(a: int, b: int, c: int, d: int)
    requires Cong(a, b) && Cong(c, d)
    ensures Cong(a * c, b * d)
  {
    CongIsDivisibleDifference(a, b);
    CongIsDivisibleDifference(c, d);
    DivisibleTimes(a - b, c);
    DivisibleTimes(c - d, b);
    assert a * c - b * d == (a - b) * c + (c - d) * b;
    CongAdd((a - b) * c, 0, (c - d) * b, 0);
    CongIsDivisibleDifference(a * c, b * d);
  }

  lemma CongReduce(a: int)
    ensures Cong(a % L, a)
  {
  }

  /** An inverse pair multiplies to something congruent to one. */
  lemma InverseCong(x: Scalar, y: Scalar, s: int)
    requires IsInverse(x, y)
    ensures Cong(x * y * s, s)
  {
    CongReduce(x * y);
    CongMul(x * y, 1, s, s);
  }
}
