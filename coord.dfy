/** `Coord`: a pair of signed integers with componentwise arithmetic.
    Rust's `/` and `%` on `isize` truncate toward zero, whereas Dafny's are
    Euclidean, so the model defines the truncating pair explicitly. */
module Coordinates {

  function Abs(a: int): nat
  {
    if a < 0 then -a else a
  }

  /** `q` is `a / b` rounded toward zero: its magnitude is the number of
      whole |b|s in |a|, and it is negative exactly when a nonzero quotient
      has operands of opposite signs. */
  ghost predicate IsTruncatedQuotient(a: int, b: int, q: int)
  {
    Abs(q) * Abs(b) <= Abs(a) < (Abs(q) + 1) * Abs(b)
    && (q != 0 ==> (q < 0 <==> (a < 0) != (b < 0)))
  }

  /** Integer division truncating toward zero (Rust's `/`). */
  function TruncDiv(a: int, b: int): (q: int)
    requires b != 0
    ensures IsTruncatedQuotient(a, b, q)
  {
    var m := Abs(a) / Abs(b);
    DivBounds(Abs(a), Abs(b));
    if (a < 0) == (b < 0) then m else -m
  }

  lemma DivBounds(n: nat, d: nat)
    requires d > 0
    ensures (n / d) * d <= n < (n / d + 1) * d
  {
  }

  /** Remainder of truncating division (Rust's `%`): smaller than the
      divisor in magnitude, and zero or of the dividend's sign. */
  function TruncRem(a: int, b: int): (r: int)
    requires b != 0
    ensures Abs(r) < Abs(b)
    ensures r != 0 ==> (r < 0 <==> a < 0)
  {
    var m := Abs(a) % Abs(b);
    if a < 0 then -m else m
  }

  /** Division and remainder fit together: a == (a / b) * b + a % b. */
  lemma TruncDivRem(a: int, b: int)
    requires b != 0
    ensures a == TruncDiv(a, b) * b + TruncRem(a, b)
  {
  }

  /** The truncated quotient is uniquely determined by its description. */
  lemma TruncatedQuotientUnique(a: int, b: int, q: int)
    requires b != 0
    requires IsTruncatedQuotient(a, b, q)
    ensures q == TruncDiv(a, b)
  {
    var p := TruncDiv(a, b);
    MagnitudeUnique(Abs(a), Abs(b), Abs(q), Abs(p));
  }

  lemma MagnitudeUnique(n: nat, d: nat, m1: nat, m2: nat)
    requires d > 0
    requires m1 * d <= n < (m1 + 1) * d
    requires m2 * d <= n < (m2 + 1) * d
    ensures m1 == m2
  {
  }

  /** Truncation and Euclidean division agree on nonnegative dividends and
      positive divisors ... */
  lemma TruncAgreesWithEuclidean(a: int, b: int)
    requires a >= 0 && b > 0
    ensures TruncDiv(a, b) == a / b && TruncRem(a, b) == a % b
  {
  }

  /** ... and differ otherwise: -7 / 2 truncates to -3 with remainder -1,
      where Euclidean division gives -4 with remainder 1. */
  lemma TruncDiffersFromEuclidean()
    ensures TruncDiv(-7, 2) == -3 && TruncRem(-7, 2) == -1
    ensures -7 / 2 == -4 && -7 % 2 == 1
  {
  }

  datatype Coord = Coord(x: int, y: int)

  /** `Add`: componentwise sum. */
  function Add(a: Coord, b: Coord): (r: Coord)
    ensures r.x == a.x + b.x && r.y == a.y + b.y
  {
    Coord(a.x + b.x, a.y + b.y)
  }

  /** `Mul`: componentwise product. */
  function Mul(a: Coord, b: Coord): (r: Coord)
    ensures r.x == a.x * b.x && r.y == a.y * b.y
  {
    Coord(a.x * b.x, a.y * b.y)
  }

  /** `Div<Coord>`: each component divided by the matching component of
      `b`, truncating toward zero; a zero component of `b` panics. */
  function Div(a: Coord, b: Coord): (r: Coord)
    requires b.x != 0 && b.y != 0
    ensures IsTruncatedQuotient(a.x, b.x, r.x) && IsTruncatedQuotient(a.y, b.y, r.y)
  {
    Coord(TruncDiv(a.x, b.x), TruncDiv(a.y, b.y))
  }

  /** `Div<isize>`: both components divided by one scalar; the same as
      dividing by the coordinate (s, s). */
  function DivScalar(a: Coord, s: int): (r: Coord)
    requires s != 0
    ensures r == Div(a, Coord(s, s))
  {
    Coord(TruncDiv(a.x, s), TruncDiv(a.y, s))
  }

  /** `Rem`: componentwise truncating remainder, each component below the
      divisor's in magnitude and of the dividend's sign. */
  function Rem(a: Coord, b: Coord): (r: Coord)
    requires b.x != 0 && b.y != 0
    ensures Abs(r.x) < Abs(b.x) && Abs(r.y) < Abs(b.y)
    ensures r.x != 0 ==> (r.x < 0 <==> a.x < 0)
    ensures r.y != 0 ==> (r.y < 0 <==> a.y < 0)
  {
    Coord(TruncRem(a.x, b.x), TruncRem(a.y, b.y))
  }

  lemma AddCommutative(a: Coord, b: Coord)
    ensures Add(a, b) == Add(b, a)
  {
  }

  lemma AddAssociative(a: Coord, b: Coord, c: Coord)
    ensures Add(Add(a, b), c) == Add(a, Add(b, c))
  {
  }

  /** Division undoes multiplication by a coordinate without zero components. */
  lemma DivCancelsMul(a: Coord, b: Coord)
    requires b.x != 0 && b.y != 0
    ensures Div(Mul(a, b), b) == a
  {
    TruncDivOfProduct(a.x, b.x);
    TruncDivOfProduct(a.y, b.y);
  }

  lemma TruncDivOfProduct(a: int, b: int)
    requires b != 0
    ensures TruncDiv(a * b, b) == a
  {
    assert Abs(a * b) == Abs(a) * Abs(b);
    assert Abs(a) * Abs(b) <= Abs(a * b) < (Abs(a) + 1) * Abs(b);
    TruncatedQuotientUnique(a * b, b, a);
  }

  /** Componentwise division identity: a == (a / b) * b + a % b. */
  lemma DivRemIdentity(a: Coord, b: Coord)
    requires b.x != 0 && b.y != 0
    ensures Add(Mul(Div(a, b), b), Rem(a, b)) == a
  {
    TruncDivRem(a.x, b.x);
    TruncDivRem(a.y, b.y);
  }

  /** The worked examples: (6, 9) / (3, 3) == (2, 3) and (6, 9) % (4, 4) == (2, 1). */
  lemma DivRemExamples()
    ensures Div(Coord(6, 9), Coord(3, 3)) == Coord(2, 3)
    ensures Rem(Coord(6, 9), Coord(4, 4)) == Coord(2, 1)
  {
  }
}
