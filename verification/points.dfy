/** The integer point of hw8/problem1/main.cpp: a value type with two
    coordinates and component-wise arithmetic. Coordinates are unbounded
    integers; the C++ `int` overflow is not modelled.

    Each compound assignment operator (`+=`, `-=`, `*=`, `/=`) is modelled as a
    pure function returning the updated point; the free `+` and `-` compute the
    same values, so `Add` and `Sub` stand for both forms. */
module Points {

  datatype Point = Point(x: int, y: int)

  /** The default-constructed point. */
  const Origin: Point := Point(0, 0)

  function Abs(i: int): (r: nat)
    ensures r == i || r == -i
  {
    if i < 0 then -i else i
  }

  /** `q` is the quotient of `a` by `b` rounded toward zero: the remainder
      `a - q * b` is smaller than the divisor in magnitude and carries the
      dividend's sign. */
  predicate IsTruncQuotient(a: int, b: int, q: int)
  {
    && Abs(a - q * b) < Abs(b)
    && (a - q * b == 0 || (a - q * b < 0 <==> a < 0))
  }

  /** C++ integer division, which truncates toward zero (Dafny's `/` is
      Euclidean). */
  function TruncDiv(a: int, b: int): (r: int)
    requires b != 0
    ensures IsTruncQuotient(a, b, r)
  {
    var q := Abs(a) / Abs(b);
    var m := Abs(a) % Abs(b);
    assert Abs(a) == q * Abs(b) + m;
    if (a < 0) == (b < 0) then
      assert q * b == (if b < 0 then -(q * Abs(b)) else q * Abs(b));
      q
    else
      assert -q * b == (if b < 0 then q * Abs(b) else -(q * Abs(b)));
      -q
  }

  /** `operator+=` and the free `operator+`. */
  function Add(p: Point, q: Point): (r: Point)
    ensures Sub(r, q) == p
  {
    Point(p.x + q.x, p.y + q.y)
  }

  /** `operator-=` and the free `operator-`. */
  function Sub(p: Point, q: Point): (r: Point)
    ensures r == Origin <==> p == q
  {
    Point(p.x - q.x, p.y - q.y)
  }

  /** `operator*=`: component-wise product, which `operator/=` undoes when
      the factor has no zero component. */
  function Mul(p: Point, q: Point): (r: Point)
    ensures NonZeroComponents(q) ==> Div(r, q) == p
  {
    if NonZeroComponents(q) then
      TruncDivOfProduct(p.x, q.x);
      TruncDivOfProduct(p.y, q.y);
      Point(p.x * q.x, p.y * q.y)
    else
      Point(p.x * q.x, p.y * q.y)
  }

  /** The divisors a call to `operator/=` is defined for. */
  predicate NonZeroComponents(q: Point)
  {
    q.x != 0 && q.y != 0
  }

  /** `operator/=`: component-wise truncating division. */
  function Div(p: Point, q: Point): (r: Point)
    requires NonZeroComponents(q)
    ensures IsTruncQuotient(p.x, q.x, r.x) && IsTruncQuotient(p.y, q.y, r.y)
  {
    Point(TruncDiv(p.x, q.x), TruncDiv(p.y, q.y))
  }

  lemma AbsOfProduct(u: int, v: int)
    ensures Abs(u * v) == Abs(u) * Abs(v)
  {
    if u < 0 && v >= 0 { assert u * v == -((-u) * v); }
    else if u >= 0 && v < 0 { assert u * v == -(u * (-v)); }
    else if u < 0 && v < 0 { assert u * v == (-u) * (-v); }
  }

  lemma AtLeastOneFactor(u: nat, v: nat)
    requires u >= 1
    ensures u * v >= v
  {
    assert u * v == (u - 1) * v + v;
  }

  /** Truncating division undoes multiplication by the same nonzero factor. */
  lemma TruncDivOfProduct(a: int, b: int)
    requires b != 0
    ensures TruncDiv(a * b, b) == a
  {
    var r := TruncDiv(a * b, b);
    var d := a - r;
    assert Abs(a * b - r * b) < Abs(b);
    assert a * b - r * b == d * b by { assert (a - r) * b == a * b - r * b; }
    if d != 0 {
      AbsOfProduct(d, b);
      AtLeastOneFactor(Abs(d), Abs(b));
      assert false;
    }
  }

  /** Subtracting what was added gives the original point back, and adding
      what was subtracted does too. */
  lemma AddSubInverse(p: Point, q: Point)
    ensures Sub(Add(p, q), q) == p
    ensures Add(Sub(p, q), q) == p
  {
  }

  /** Addition is commutative and associative, with the origin as identity. */
  lemma AddAlgebra(p: Point, q: Point, s: Point)
    ensures Add(p, q) == Add(q, p)
    ensures Add(Add(p, q), s) == Add(p, Add(q, s))
    ensures Add(p, Origin) == p
  {
  }

  /** `operator==` compares both components, which is exactly equality of
      the datatype values. */
  predicate Equal(p: Point, q: Point)
    ensures Equal(p, q) <==> p == q
  {
    p.x == q.x && p.y == q.y
  }
}
