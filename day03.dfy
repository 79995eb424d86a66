/**
 * Day 3 (toboggan trajectory), the walk: from the top-left corner, move by a
 * fixed slope until the bottom row is reached, counting the trees landed on.
 */
module Day03 {
  import opened Day03Field
  import Arith

  /** The walker's position (`Point(usize, usize)`). */
  datatype Point = Point(x: nat, y: nat)

  /** `Point += (dx, dy)`. */
  function Moved(p: Point, dx: nat, dy: nat): (r: Point)
    ensures r.x - dx == p.x && r.y - dy == p.y
  {
    Point(p.x + dx, p.y + dy)
  }

  /** Every row of the map has at least one square. */
  predicate Readable(f: Field)
  {
    forall y | 0 <= y < |f.rows| :: |f.rows[y]| > 0
  }

  /**
   * What `traverse_slope` demands: a map with at least one row, each row
   * non-empty, and a slope whose steps land exactly on the bottom row (the
   * map accessor asserts the row exists); with `dy == 0` the loop only ends
   * if there is nothing to descend.
   */
  predicate SlopeFits(f: Field, dy: nat)
  {
    && Len(f) >= 1 && Readable(f)
    && (dy == 0 ==> Len(f) == 1)
    && (dy > 0 ==> (Len(f) - 1) % dy == 0)
  }

  /** Number of moves until the bottom row. */
  function Moves(f: Field, dy: nat): (m: nat)
    requires SlopeFits(f, dy)
    ensures m * dy == Len(f) - 1
  {
    if dy == 0 then 0 else (Len(f) - 1) / dy
  }

  /** The trees at the end of moves `1..k`. */
  function TreesHit(f: Field, dx: nat, dy: nat, k: nat): (n: nat)
    requires SlopeFits(f, dy) && k <= Moves(f, dy)
    ensures n <= k
  {
    if k == 0 then 0
    else
      Arith.MulMono(k, Moves(f, dy), dy);
      TreesHit(f, dx, dy, k - 1) + (if IsTreeAt(f, k * dx, k * dy) then 1 else 0)
  }

  lemma StepFacts(k: nat, m: nat, dx: nat, dy: nat)
    requires k < m
    ensures (k + 1) * dx == k * dx + dx && (k + 1) * dy == k * dy + dy
    ensures (k + 1) * dy <= m * dy
  {
    Arith.MulSucc(k, dx);
    if dy > 0 {
      Arith.MulMono(k + 1, m, dy);
    }
  }

  /**
   * `traverse_slope`: starting at `(0, 0)` and while above the bottom row,
   * move by `(dx, dy)` and count a tree if one is there. The start is not
   * counted.
   */
  method TraverseSlope(f: Field, dx: nat, dy: nat) returns (counter: nat)
    requires SlopeFits(f, dy)
    ensures counter == TreesHit(f, dx, dy, Moves(f, dy))
    ensures counter <= Moves(f, dy)
  {
    var pos := Point(0, 0);
    var target := Len(f) - 1;
    counter := 0;
    ghost var k: nat := 0;
    ghost var m := Moves(f, dy);
    while pos.y < target
      invariant k <= m
      invariant pos == Point(k * dx, k * dy)
      invariant counter == TreesHit(f, dx, dy, k)
      decreases target - pos.y
    {
      if k == m {
        assert false;
      }
      StepFacts(k, m, dx, dy);
      pos := Moved(pos, dx, dy);
      k := k + 1;
      assert pos.y <= target;
      assert |f.rows[pos.y]| > 0;
      if IsTreeAt(f, pos.x, pos.y) {
        counter := counter + 1;
      }
    }
    if k < m {
      StepFacts(k, m, dx, dy);
      assert false;
    }
  }
}
