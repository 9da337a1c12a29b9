/** Square roots on exact reals.

    Dafny's `real` has no square root, and the existence of one cannot be
    proved from its axioms, so the host's `Math.sqrt` enters the model as a
    function value that the caller supplies together with the promise that it
    is the non-negative square root on the non-negative reals. */
module Roots {

  /** `sqrt` returns the non-negative square root of every non-negative real. */
  ghost predicate IsSqrt(sqrt: real -> real) {
    forall x: real {:trigger IsRootOf(sqrt, x)} :: 0.0 <= x ==> IsRootOf(sqrt, x)
  }

  /** `sqrt(x)` is the non-negative square root of x. Kept as a predicate of its own
      so that IsSqrt is only put to use where a proof names IsRootOf. */
  ghost predicate IsRootOf(sqrt: real -> real, x: real) {
    0.0 <= sqrt(x) && sqrt(x) * sqrt(x) == x
  }

  /** What IsSqrt says about one non-negative number. */
  lemma RootOf(sqrt: real -> real, x: real)
    requires IsSqrt(sqrt)
    requires 0.0 <= x
    ensures 0.0 <= sqrt(x) && sqrt(x) * sqrt(x) == x
  {
    assert IsRootOf(sqrt, x);
  }

  /** A non-negative number is the square root of its own square. */
  lemma SqrtOfSquare(sqrt: real -> real, r: real)
    requires IsSqrt(sqrt)
    requires 0.0 <= r
    ensures sqrt(r * r) == r
  {
    var s := sqrt(r * r);
    RootOf(sqrt, r * r);
    SquareMonotone(s, r);
    SquareMonotone(r, s);
  }

  /** Comparing two non-negative numbers is the same as comparing their squares. */
  lemma SquareMonotone(a: real, b: real)
    requires 0.0 <= a && 0.0 <= b
    ensures a <= b <==> a * a <= b * b
  {
    if a < b {
      SquareStrict(a, b);
    } else if b < a {
      SquareStrict(b, a);
    }
  }

  /** Squaring is strictly increasing on the non-negative reals. */
  lemma SquareStrict(a: real, b: real)
    requires 0.0 <= a < b
    ensures a * a < b * b
  {
    var d := b - a;
    assert b * b == (a + d) * (a + d) == a * a + 2.0 * a * d + d * d;
    assert 0.0 < d * d;
    assert 0.0 <= a * d;
  }

  /** The square of a non-zero number is positive. */
  lemma SquarePos(a: real)
    requires a != 0.0
    ensures 0.0 < a * a
  {
    if 0.0 < a {
      assert 0.0 < a * a;
    } else {
      assert (-a) * (-a) == a * a;
    }
  }

  /** `0 < q`, as a predicate: a fact passed between lemmas in this form is matched as
      it stands rather than re-derived by the solver's non-linear arithmetic. */
  ghost predicate Positive(q: real) {
    0.0 < q
  }

  /** A sum of two squares is positive unless both terms are zero. */
  lemma SumSquaresPos(a: real, b: real)
    requires a != 0.0 || b != 0.0
    ensures Positive(a * a + b * b)
  {
    assert 0.0 <= a * a && 0.0 <= b * b;
    if a != 0.0 {
      SquarePos(a);
    } else {
      SquarePos(b);
    }
  }

  /** The square root of a positive number is positive. */
  lemma SqrtPos(sqrt: real -> real, q: real)
    requires IsSqrt(sqrt)
    requires Positive(q)
    ensures 0.0 < sqrt(q) && sqrt(q) * sqrt(q) == q
  {
    RootOf(sqrt, q);
    NonZeroRoot(sqrt(q), q);
  }

  lemma NonZeroRoot(s: real, q: real)
    requires 0.0 < q && s * s == q
    ensures s != 0.0
  {
  }

  /** `s` is the positive length of the vector (vx, vy). */
  ghost predicate IsLength(vx: real, vy: real, s: real) {
    0.0 < s && s * s == vx * vx + vy * vy
  }

  /** The Euclidean length of the vector (vx, vy). */
  function Length(sqrt: real -> real, vx: real, vy: real): real {
    sqrt(vx * vx + vy * vy)
  }

  /** The length of a non-zero vector is positive. */
  lemma LengthPos(sqrt: real -> real, vx: real, vy: real)
    requires IsSqrt(sqrt)
    requires vx != 0.0 || vy != 0.0
    ensures IsLength(vx, vy, Length(sqrt, vx, vy))
  {
    SumSquaresPos(vx, vy);
    SqrtPos(sqrt, vx * vx + vy * vy);
  }

  /** The square of a real. */
  function Sq(a: real): real {
    a * a
  }

  lemma SqNonneg(a: real)
    ensures 0.0 <= Sq(a)
  {
    if a != 0.0 {
      SquarePos(a);
    }
  }

  lemma SqPos(a: real)
    requires a != 0.0
    ensures 0.0 < Sq(a)
  {
    if 0.0 < a {
      SquareStrict(0.0, a);
    } else {
      SquareStrict(0.0, -a);
      assert Sq(a) == (-a) * (-a);
    }
  }

  lemma SqNeg(a: real)
    ensures Sq(-a) == Sq(a)
  {
  }
}
