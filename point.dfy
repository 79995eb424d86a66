/**
 * The two-dimensional point shared by several puzzles (`common::Point`): a
 * pair of coordinates with component-wise addition and subtraction, the
 * compound assignments `+=` and `-=`, the same operations with a tuple on the
 * right, and the mixed form that adds a signed point to an unsigned one.
 * Coordinates are unbounded integers; an unsigned point is one whose
 * coordinates are not negative.
 */
module Points {

  datatype Point = Point(x: int, y: int)

  /** A `Point<usize>`. */
  predicate Unsigned(p: Point)
  {
    p.x >= 0 && p.y >= 0
  }

  /** `Point::from((x, y))`. */
  function FromTuple(t: (int, int)): (p: Point)
    ensures (p.x, p.y) == t
  {
    Point(t.0, t.1)
  }

  /** `p + q`, component by component. */
  function Add(p: Point, q: Point): (r: Point)
    ensures r.x - q.x == p.x && r.y - q.y == p.y
  {
    Point(p.x + q.x, p.y + q.y)
  }

  /** `p - q`, component by component. */
  function Sub(p: Point, q: Point): (r: Point)
    ensures r.x + q.x == p.x && r.y + q.y == p.y
  {
    Point(p.x - q.x, p.y - q.y)
  }

  /** `p + (dx, dy)`: adds the point made from the tuple. */
  function AddTuple(p: Point, t: (int, int)): (r: Point)
    ensures r == Add(p, Point(t.0, t.1))
  {
    Add(p, FromTuple(t))
  }

  /** `p - (dx, dy)`: subtracts the point made from the tuple. */
  function SubTuple(p: Point, t: (int, int)): (r: Point)
    ensures r == Sub(p, Point(t.0, t.1))
  {
    Sub(p, FromTuple(t))
  }

  /**
   * `Point<usize> + Point<isize>`: the unsigned coordinates are taken as
   * signed and added; the result may be negative.
   */
  function AddSigned(p: Point, q: Point): (r: Point)
    requires Unsigned(p)
    ensures r == Add(p, q)
    ensures Unsigned(q) ==> Unsigned(r)
  {
    Point(p.x + q.x, p.y + q.y)
  }

  /** `Point<usize> - Point<isize>`, likewise on signed coordinates. */
  function SubSigned(p: Point, q: Point): (r: Point)
    requires Unsigned(p)
    ensures r == Sub(p, q)
    ensures Unsigned(r) <==> q.x <= p.x && q.y <= p.y
  {
    Point(p.x - q.x, p.y - q.y)
  }

  /** `p += q`: the two coordinates are updated in turn; the outcome is `p + q`. */
  method AddAssign(p: Point, q: Point) returns (r: Point)
    ensures r == Add(p, q)
    ensures Sub(r, q) == p
  {
    r := p;
    r := r.(x := r.x + q.x);
    r := r.(y := r.y + q.y);
  }

  /** `p -= q`: the two coordinates are updated in turn; the outcome is `p - q`. */
  method SubAssign(p: Point, q: Point) returns (r: Point)
    ensures r == Sub(p, q)
    ensures Add(r, q) == p
  {
    r := p;
    r := r.(x := r.x - q.x);
    r := r.(y := r.y - q.y);
  }

  /** Subtraction undoes addition, and addition undoes subtraction. */
  lemma AddSubInverse(p: Point, q: Point)
    ensures Sub(Add(p, q), q) == p
    ensures Add(Sub(p, q), q) == p
  {
  }

  /** Addition is commutative and associative, with the origin as neutral element. */
  lemma AddLaws(p: Point, q: Point, s: Point)
    ensures Add(p, q) == Add(q, p)
    ensures Add(Add(p, q), s) == Add(p, Add(q, s))
    ensures Add(p, Point(0, 0)) == p
  {
  }
}
