/** The axis-aligned rectangle of hw8/problem1/main.cpp, given by its
    top-left and bottom-right corners. The corners are not required to be
    ordered; a rectangle whose bottom-right lies above or left of its
    top-left simply has a negative width or height.

    Every mutator of the C++ class changes the rectangle in place and returns
    a reference to it for chaining; here each one is a pure function that
    returns the updated rectangle. */
module Rectangles {
  import opened Points

  datatype Rect = Rect(topLeft: Point, bottomRight: Point)

  // ---- Construction ----------------------------------------------------

  /** The degenerate rectangle whose two corners are both `p`. */
  function FromPoint(p: Point): (r: Rect)
    ensures Extent(r) == Origin && r.topLeft == p
    ensures forall q :: !Contains(r, q)
  {
    Rect(p, p)
  }

  /** The four-integer constructor: (x1, y1) is the top-left corner and
      (x2, y2) the bottom-right one. */
  function FromCoords(x1: int, y1: int, x2: int, y2: int): (r: Rect)
    ensures Left(r) == x1 && Top(r) == y1 && Right(r) == x2 && Bottom(r) == y2
  {
    Rect(Point(x1, y1), Point(x2, y2))
  }

  /** The default-constructed rectangle. */
  const Empty: Rect := FromPoint(Origin)

  // ---- Accessors -------------------------------------------------------

  function Top(r: Rect): int { r.topLeft.y }
  function Left(r: Rect): int { r.topLeft.x }
  function Right(r: Rect): int { r.bottomRight.x }
  function Bottom(r: Rect): int { r.bottomRight.y }

  function Width(r: Rect): int { r.bottomRight.x - r.topLeft.x }
  function Height(r: Rect): int { r.bottomRight.y - r.topLeft.y }

  function TopRight(r: Rect): Point { Point(r.bottomRight.x, r.topLeft.y) }
  function BottomLeft(r: Rect): Point { Point(r.topLeft.x, r.bottomRight.y) }

  /** The getter `extent()`: the size of the rectangle as a point. */
  function Extent(r: Rect): Point
  {
    Point(r.bottomRight.x - r.topLeft.x, r.bottomRight.y - r.topLeft.y)
  }

  /** How the accessors fit together: the extent is (width, height), the far
      sides are the near sides moved by the size, and the corners are made of
      the sides. */
  lemma AccessorsAgree(r: Rect)
    ensures Extent(r) == Point(Width(r), Height(r))
    ensures Add(r.topLeft, Extent(r)) == r.bottomRight
    ensures Left(r) + Width(r) == Right(r) && Top(r) + Height(r) == Bottom(r)
    ensures TopRight(r) == Point(Right(r), Top(r))
    ensures BottomLeft(r) == Point(Left(r), Bottom(r))
    ensures Rect(Point(Left(r), Top(r)), Point(Right(r), Bottom(r))) == r
  {
  }

  // ---- Containment -----------------------------------------------------

  /** `contains`: the rectangle is half-open, so its left and top edges are
      inside and its right and bottom edges are not. */
  predicate Contains(r: Rect, p: Point)
  {
    p.y >= r.topLeft.y && p.y < r.bottomRight.y && p.x >= r.topLeft.x && p.x < r.bottomRight.x
  }

  /** Containment measured from the top-left corner: `p` is inside exactly
      when its offset from the corner lies in [0, width) x [0, height). */
  lemma ContainsByOffset(r: Rect, p: Point)
    ensures Contains(r, p) <==>
      var o := Sub(p, r.topLeft);
      0 <= o.x < Width(r) && 0 <= o.y < Height(r)
  {
  }

  /** A rectangle contains a point only if it has a positive width and a
      positive height; in particular a one-point rectangle contains nothing,
      not even its own corner. */
  lemma ContainsNeedsPositiveExtent(r: Rect, p: Point)
    ensures Contains(r, p) ==> Width(r) > 0 && Height(r) > 0
    ensures !Contains(FromPoint(p), p)
  {
  }

  /** The top-left corner is inside every rectangle of positive size; the
      bottom-right corner, the top-right corner and the bottom-left corner are
      never inside. */
  lemma CornersAndHalfOpenness(r: Rect)
    ensures Contains(r, r.topLeft) <==> Width(r) > 0 && Height(r) > 0
    ensures !Contains(r, r.bottomRight)
    ensures !Contains(r, TopRight(r)) && !Contains(r, BottomLeft(r))
  {
  }

  // ---- Mutators --------------------------------------------------------

  /** The setter `extent(p)`: keeps the top-left corner and moves the
      bottom-right one so that the size becomes `e`. */
  function SetExtent(r: Rect, e: Point): (r': Rect)
    ensures Extent(r') == e
    ensures r'.topLeft == r.topLeft
  {
    Rect(r.topLeft, Add(r.topLeft, e))
  }

  /** `inflate(point)`: moves every side outward by the matching component
      of `d`. */
  function Inflate(r: Rect, d: Point): (r': Rect)
    ensures Deflate(r', d) == r
  {
    Rect(Sub(r.topLeft, d), Add(r.bottomRight, d))
  }

  /** `inflate(int)`: moves every side outward by `i`. */
  function InflateBy(r: Rect, i: int): (r': Rect)
    ensures r' == Inflate(r, Point(i, i))
  {
    Rect(Point(r.topLeft.x - i, r.topLeft.y - i), Point(r.bottomRight.x + i, r.bottomRight.y + i))
  }

  /** `deflate(point)`: moves every side inward by the matching component of
      `d`. */
  function Deflate(r: Rect, d: Point): (r': Rect)
    ensures Width(r') == Width(r) - 2 * d.x && Height(r') == Height(r) - 2 * d.y
  {
    Rect(Add(r.topLeft, d), Sub(r.bottomRight, d))
  }

  /** `deflate(int)`: moves every side inward by `i`. */
  function DeflateBy(r: Rect, i: int): (r': Rect)
    ensures r' == Deflate(r, Point(i, i))
  {
    Rect(Point(r.topLeft.x + i, r.topLeft.y + i), Point(r.bottomRight.x - i, r.bottomRight.y - i))
  }

  /** The setter `width(i)`: only the right side moves. */
  function SetWidth(r: Rect, i: int): (r': Rect)
    ensures Width(r') == i
    ensures r'.topLeft == r.topLeft && Bottom(r') == Bottom(r) && Height(r') == Height(r)
  {
    Rect(r.topLeft, Point(r.topLeft.x + i, r.bottomRight.y))
  }

  /** The setter `height(i)`: only the bottom side moves. */
  function SetHeight(r: Rect, i: int): (r': Rect)
    ensures Height(r') == i
    ensures r'.topLeft == r.topLeft && Right(r') == Right(r) && Width(r') == Width(r)
  {
    Rect(r.topLeft, Point(r.bottomRight.x, r.topLeft.y + i))
  }

  /** `operator+=`: shifts both corners by `d`. */
  function Translate(r: Rect, d: Point): (r': Rect)
    ensures Extent(r') == Extent(r)
    ensures TranslateBack(r', d) == r
  {
    Rect(Add(r.topLeft, d), Add(r.bottomRight, d))
  }

  /** `operator-=`: shifts both corners back by `d`. */
  function TranslateBack(r: Rect, d: Point): (r': Rect)
    ensures Extent(r') == Extent(r)
  {
    Rect(Sub(r.topLeft, d), Sub(r.bottomRight, d))
  }

  /** `operator*=`: scales both corners component-wise by `f`. */
  function Scale(r: Rect, f: Point): (r': Rect)
    ensures Extent(r') == Mul(Extent(r), f)
  {
    assert (r.bottomRight.x - r.topLeft.x) * f.x == r.bottomRight.x * f.x - r.topLeft.x * f.x;
    assert (r.bottomRight.y - r.topLeft.y) * f.y == r.bottomRight.y * f.y - r.topLeft.y * f.y;
    Rect(Mul(r.topLeft, f), Mul(r.bottomRight, f))
  }

  /** `operator/=`: divides both corners component-wise by `f`, truncating
      toward zero. */
  function ScaleDown(r: Rect, f: Point): (r': Rect)
    requires NonZeroComponents(f)
    ensures IsTruncQuotient(r.topLeft.x, f.x, r'.topLeft.x) && IsTruncQuotient(r.topLeft.y, f.y, r'.topLeft.y)
    ensures IsTruncQuotient(r.bottomRight.x, f.x, r'.bottomRight.x) && IsTruncQuotient(r.bottomRight.y, f.y, r'.bottomRight.y)
  {
    Rect(Div(r.topLeft, f), Div(r.bottomRight, f))
  }

  // ---- Mutator algebra -------------------------------------------------

  /** Deflating by what was inflated restores the rectangle and vice versa,
      for the point form and the integer form alike. */
  lemma InflateDeflateInverse(r: Rect, d: Point, i: int)
    ensures Deflate(Inflate(r, d), d) == r && Inflate(Deflate(r, d), d) == r
    ensures DeflateBy(InflateBy(r, i), i) == r && InflateBy(DeflateBy(r, i), i) == r
  {
    AddSubInverse(r.topLeft, d);
    AddSubInverse(r.bottomRight, d);
  }

  /** Inflating by `d` grows the width by twice `d.x` and the height by twice
      `d.y` and keeps the centre: the sum of the corners does not move. */
  lemma InflateGrowsSymmetrically(r: Rect, d: Point)
    ensures Width(Inflate(r, d)) == Width(r) + 2 * d.x
    ensures Height(Inflate(r, d)) == Height(r) + 2 * d.y
    ensures Add(Inflate(r, d).topLeft, Inflate(r, d).bottomRight) == Add(r.topLeft, r.bottomRight)
  {
  }

  /** Inflating by a non-negative amount keeps every point that was inside. */
  lemma InflateKeepsContents(r: Rect, d: Point, p: Point)
    requires d.x >= 0 && d.y >= 0
    requires Contains(r, p)
    ensures Contains(Inflate(r, d), p)
  {
  }

  /** Setting the extent to the current extent changes nothing, and setting
      the width and the height separately is the same as setting the extent. */
  lemma ExtentSetters(r: Rect, e: Point)
    ensures SetExtent(r, Extent(r)) == r
    ensures SetHeight(SetWidth(r, e.x), e.y) == SetExtent(r, e)
    ensures SetWidth(SetHeight(r, e.y), e.x) == SetExtent(r, e)
  {
  }

  /** A translation keeps the size, is undone by translating back, and moves
      the contents along with it. */
  lemma TranslateProperties(r: Rect, d: Point, p: Point)
    ensures Extent(Translate(r, d)) == Extent(r)
    ensures TranslateBack(Translate(r, d), d) == r && Translate(TranslateBack(r, d), d) == r
    ensures Contains(Translate(r, d), Add(p, d)) <==> Contains(r, p)
  {
    AddSubInverse(r.topLeft, d);
    AddSubInverse(r.bottomRight, d);
  }

  /** Dividing by the factor a rectangle was scaled by gives it back. */
  lemma ScaleInverse(r: Rect, f: Point)
    requires NonZeroComponents(f)
    ensures ScaleDown(Scale(r, f), f) == r
  {
  }
}
