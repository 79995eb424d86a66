/**
 * Day 11 (seating system): the seat map and the two ways one round of
 * seating changes it. Every seat is decided from the map of the previous
 * round, so the update is simultaneous.
 */
module Day11Cells {
  import opened Wrappers
  import opened Text
  import opened Seqs

  datatype CellState = Floor | EmptySeat | OccupiedSeat | Invalid

  datatype ParseCellStateError = UnknownChar(c: char)

  /** `content[y][x]` is the cell in row `y`, column `x`. */
  datatype CellMap = CellMap(width: nat, height: nat, content: seq<seq<CellState>>)

  /** Indexing any cell with `x < width`, `y < height` stays inside `content`. */
  predicate WellFormed(m: CellMap)
  {
    |m.content| == m.height && forall y | 0 <= y < m.height :: |m.content[y]| >= m.width
  }

  /** No cell of the map holds `Invalid` (which only marks positions outside the map). */
  predicate NoInvalid(m: CellMap)
  {
    forall y, x | 0 <= y < |m.content| && 0 <= x < |m.content[y]| :: m.content[y][x] != Invalid
  }

  predicate InBounds(m: CellMap, x: int, y: int)
  {
    0 <= x < m.width && 0 <= y < m.height
  }

  /** `get_at`: the cell at `(x, y)`, or `Invalid` for a negative coordinate or one past the map. */
  function GetAt(m: CellMap, x: int, y: int): (r: CellState)
    requires WellFormed(m)
    ensures !InBounds(m, x, y) ==> r == Invalid
    ensures InBounds(m, x, y) ==> r == m.content[y][x]
  {
    if x < 0 || y < 0 then Invalid
    else if x >= m.width || y >= m.height then Invalid
    else m.content[y][x]
  }

  /** A map without `Invalid` cells answers `Invalid` exactly off the map. */
  lemma GetAtInvalid(m: CellMap, x: int, y: int)
    requires WellFormed(m) && NoInvalid(m)
    ensures GetAt(m, x, y) == Invalid <==> !InBounds(m, x, y)
  {
  }

  /** `set_at`: the map with one cell replaced. */
  function SetAt(m: CellMap, x: nat, y: nat, state: CellState): (r: CellMap)
    requires y < |m.content| && x < |m.content[y]|
    ensures r.width == m.width && r.height == m.height && |r.content| == |m.content|
    ensures forall yy | 0 <= yy < |m.content| :: |r.content[yy]| == |m.content[yy]|
    ensures forall yy, xx | 0 <= yy < |m.content| && 0 <= xx < |m.content[yy]| ::
      r.content[yy][xx] == if yy == y && xx == x then state else m.content[yy][xx]
  {
    m.(content := m.content[y := m.content[y][x := state]])
  }

  /**
   * The eight neighbour offsets `(dx, dy)`, in the order the nested loops
   * over `dy` and then `dx` visit them, with the cell itself skipped.
   */
  const Directions: seq<(int, int)> :=
    [(-1, -1), (0, -1), (1, -1), (-1, 0), (1, 0), (-1, 1), (0, 1), (1, 1)]

  /** The offsets are exactly the non-zero vectors with both components in -1..1, each once. */
  lemma DirectionsComplete()
    ensures |Directions| == 8 && Distinct(Directions)
    ensures forall dx: int, dy: int :: (dx, dy) in Directions <==> -1 <= dx <= 1 && -1 <= dy <= 1 && (dx, dy) != (0, 0)
  {
    forall dx: int, dy: int | -1 <= dx <= 1 && -1 <= dy <= 1 && (dx, dy) != (0, 0)
      ensures (dx, dy) in Directions
    {
      assert Directions[DirectionIndex(dx, dy)] == (dx, dy);
    }
  }

  /** The number of offsets the nested loops have visited before `(dx, dy)`. */
  function DirectionIndex(dx: int, dy: int): (k: nat)
    requires (-1 <= dx <= 2 && -1 <= dy <= 1) || (dx == -1 && dy == 2)
    ensures k <= 8
  {
    var plain := 3 * (dy + 1) + (dx + 1);
    if dy > 0 || (dy == 0 && dx > 0) then plain - 1 else plain
  }

  /** Visiting a non-zero offset moves one place along `Directions`. */
  lemma DirectionStep(dx: int, dy: int)
    requires -1 <= dx <= 1 && -1 <= dy <= 1 && (dx, dy) != (0, 0)
    ensures Directions[DirectionIndex(dx, dy)] == (dx, dy)
    ensures DirectionIndex(dx + 1, dy) == DirectionIndex(dx, dy) + 1
    ensures Directions[..DirectionIndex(dx, dy) + 1][..DirectionIndex(dx, dy)] == Directions[..DirectionIndex(dx, dy)]
  {
  }

  /** The number of offsets in `dirs` whose neighbour of `(x, y)` is occupied. */
  function AdjacentOccupied(m: CellMap, x: int, y: int, dirs: seq<(int, int)>): (n: nat)
    requires WellFormed(m)
    ensures n <= |dirs|
  {
    if dirs == [] then 0
    else
      var d := dirs[|dirs| - 1];
      AdjacentOccupied(m, x, y, dirs[..|dirs| - 1]) + (if GetAt(m, x + d.0, y + d.1) == OccupiedSeat then 1 else 0)
  }

  /** Counting one more offset adds its neighbour when it is occupied. */
  lemma AdjacentStep(m: CellMap, x: int, y: int, dx: int, dy: int)
    requires WellFormed(m) && -1 <= dx <= 1 && -1 <= dy <= 1 && (dx, dy) != (0, 0)
    ensures DirectionIndex(dx + 1, dy) == DirectionIndex(dx, dy) + 1
    ensures AdjacentOccupied(m, x, y, Directions[..DirectionIndex(dx + 1, dy)])
      == AdjacentOccupied(m, x, y, Directions[..DirectionIndex(dx, dy)]) + (if GetAt(m, x + dx, y + dy) == OccupiedSeat then 1 else 0)
  {
    DirectionStep(dx, dy);
  }

  /**
   * The inner loops of `step_part_1`: how many of the eight cells around
   * `(x, y)` are occupied.
   */
  method CountAdjacent(m: CellMap, x: int, y: int) returns (counter: nat)
    requires WellFormed(m)
    ensures counter == AdjacentOccupied(m, x, y, Directions)
  {
    counter := 0;
    for dy := -1 to 2
      invariant counter == AdjacentOccupied(m, x, y, Directions[..DirectionIndex(-1, dy)])
    {
      for dx := -1 to 2
        invariant counter == AdjacentOccupied(m, x, y, Directions[..DirectionIndex(dx, dy)])
      {
        if dx == 0 && dy == 0 {
          continue;
        }
        AdjacentStep(m, x, y, dx, dy);
        if GetAt(m, x + dx, y + dy) == OccupiedSeat {
          counter := counter + 1;
        }
      }
    }
    assert Directions[..8] == Directions;
  }

  /**
   * How far `(x, y)` is from the edge the direction `(dx, dy)` heads for;
   * every step along a non-zero direction brings it closer.
   */
  function Span(m: CellMap, x: int, y: int, dx: int, dy: int): nat
    requires InBounds(m, x, y)
  {
    if dx > 0 then m.width - x
    else if dx < 0 then x + 1
    else if dy > 0 then m.height - y
    else y + 1
  }

  /**
   * What `look_at` sees from `(x, y)` towards `(dx, dy)`: floor is skipped,
   * the first seat is the answer, and leaving the map answers `Floor`.
   */
  function Look(m: CellMap, x: int, y: int, dx: int, dy: int): (r: CellState)
    requires WellFormed(m) && InBounds(m, x, y) && (dx, dy) != (0, 0)
    ensures r != Invalid
    decreases Span(m, x, y, dx, dy)
  {
    var s := GetAt(m, x + dx, y + dy);
    if s == Floor then Look(m, x + dx, y + dy, dx, dy)
    else if s == Invalid then Floor
    else s
  }

  /** The cell `k` steps from `(x, y)` towards `(dx, dy)`. */
  function Ray(m: CellMap, x: int, y: int, dx: int, dy: int, k: nat): CellState
    requires WellFormed(m)
  {
    GetAt(m, x + k * dx, y + k * dy)
  }

  /** Step `k + 1` from `(x, y)` is step `k` from the next cell along the ray. */
  lemma RayShift(m: CellMap, x: int, y: int, dx: int, dy: int, k: nat)
    requires WellFormed(m)
    ensures Ray(m, x + dx, y + dy, dx, dy, k) == Ray(m, x, y, dx, dy, k + 1)
  {
    assert x + dx + k * dx == x + (k + 1) * dx;
    assert y + dy + k * dy == y + (k + 1) * dy;
  }

  /** Step `k` is the first step along the ray that does not land on floor. */
  predicate FirstStop(m: CellMap, x: int, y: int, dx: int, dy: int, k: nat)
    requires WellFormed(m)
  {
    k >= 1 && Ray(m, x, y, dx, dy, k) != Floor && forall j | 1 <= j < k :: Ray(m, x, y, dx, dy, j) == Floor
  }

  /**
   * `Look` answers with the first cell along the ray that is not floor,
   * turning a position off the map into `Floor`.
   */
  lemma {:induction false} LookFirstStop(m: CellMap, x: int, y: int, dx: int, dy: int) returns (k: nat)
    requires WellFormed(m) && InBounds(m, x, y) && (dx, dy) != (0, 0)
    ensures FirstStop(m, x, y, dx, dy, k)
    ensures Look(m, x, y, dx, dy) == if Ray(m, x, y, dx, dy, k) == Invalid then Floor else Ray(m, x, y, dx, dy, k)
    decreases Span(m, x, y, dx, dy)
  {
    assert Ray(m, x, y, dx, dy, 1) == GetAt(m, x + dx, y + dy);
    if GetAt(m, x + dx, y + dy) == Floor {
      var k' := LookFirstStop(m, x + dx, y + dy, dx, dy);
      k := k' + 1;
      RayShift(m, x, y, dx, dy, k');
      forall j | 1 <= j < k
        ensures Ray(m, x, y, dx, dy, j) == Floor
      {
        if j > 1 {
          RayShift(m, x, y, dx, dy, j - 1);
        }
      }
    } else {
      k := 1;
    }
  }

  /**
   * `look_at`: steps from `(posX, posY)` along the non-zero direction
   * `(dirX, dirY)` until it meets a seat or leaves the map.
   */
  method LookAt(m: CellMap, posX: nat, posY: nat, dirX: int, dirY: int) returns (r: CellState)
    requires WellFormed(m) && InBounds(m, posX, posY) && (dirX, dirY) != (0, 0)
    ensures r == Look(m, posX, posY, dirX, dirY)
  {
    var cx: int, cy: int := posX, posY;
    while true
      invariant InBounds(m, cx, cy)
      invariant Look(m, cx, cy, dirX, dirY) == Look(m, posX, posY, dirX, dirY)
      decreases Span(m, cx, cy, dirX, dirY)
    {
      var nx, ny := cx + dirX, cy + dirY;
      var res := GetAt(m, nx, ny);
      if res == Floor {
        cx, cy := nx, ny;
        continue;
      } else if res == Invalid {
        return Floor;
      } else {
        return res;
      }
    }
  }

  /** The number of non-zero offsets in `dirs` along which an occupied seat is the first seat seen. */
  function VisibleOccupied(m: CellMap, x: int, y: int, dirs: seq<(int, int)>): (n: nat)
    requires WellFormed(m) && InBounds(m, x, y)
    ensures n <= |dirs|
  {
    if dirs == [] then 0
    else
      var d := dirs[|dirs| - 1];
      VisibleOccupied(m, x, y, dirs[..|dirs| - 1]) + (if d != (0, 0) && Look(m, x, y, d.0, d.1) == OccupiedSeat then 1 else 0)
  }

  /**
   * The inner loops of `step_part_2`: along how many of the eight
   * directions the first seat seen is occupied.
   */
  method CountVisible(m: CellMap, x: nat, y: nat) returns (counter: nat)
    requires WellFormed(m) && InBounds(m, x, y)
    ensures counter == VisibleOccupied(m, x, y, Directions)
  {
    counter := 0;
    for dy := -1 to 2
      invariant counter == VisibleOccupied(m, x, y, Directions[..DirectionIndex(-1, dy)])
    {
      for dx := -1 to 2
        invariant counter == VisibleOccupied(m, x, y, Directions[..DirectionIndex(dx, dy)])
      {
        if dx == 0 && dy == 0 {
          continue;
        }
        DirectionStep(dx, dy);
        var seen := LookAt(m, x, y, dx, dy);
        if seen == OccupiedSeat {
          counter := counter + 1;
        }
      }
    }
    assert Directions[..8] == Directions;
  }

  /**
   * The seating rule: an empty seat with no occupied neighbour fills, an
   * occupied seat with at least `threshold` occupied neighbours empties,
   * and every other cell stays.
   */
  function Rule(state: CellState, occupied: nat, threshold: nat): (r: CellState)
    ensures state == Floor || state == Invalid ==> r == state
    ensures r == OccupiedSeat <==> (state == EmptySeat && occupied == 0) || (state == OccupiedSeat && occupied < threshold)
    ensures r == EmptySeat <==> (state == OccupiedSeat && occupied >= threshold) || (state == EmptySeat && occupied > 0)
  {
    match (state, occupied)
    case (EmptySeat, 0) => OccupiedSeat
    case (OccupiedSeat, adjacent) => if adjacent >= threshold then EmptySeat else state
    case _ => state
  }

  /** The part 1 value of a cell: the rule over its eight neighbours with threshold 4. */
  function Cell1(m: CellMap, x: nat, y: nat): CellState
    requires WellFormed(m) && y < |m.content| && x < |m.content[y]|
  {
    if x < m.width then Rule(m.content[y][x], AdjacentOccupied(m, x, y, Directions), 4)
    else m.content[y][x]
  }

  /** The part 2 value of a cell: the rule over the first seats in sight with threshold 5. */
  function Cell2(m: CellMap, x: nat, y: nat): CellState
    requires WellFormed(m) && y < |m.content| && x < |m.content[y]|
  {
    if x < m.width then Rule(m.content[y][x], VisibleOccupied(m, x, y, Directions), 5)
    else m.content[y][x]
  }

  /** Two maps of the same shape holding the same cells are the same map. */
  lemma SameCells(a: CellMap, b: CellMap)
    requires a.width == b.width && a.height == b.height && |a.content| == |b.content|
    requires forall y | 0 <= y < |a.content| :: |a.content[y]| == |b.content[y]|
    requires forall y, x | 0 <= y < |a.content| && 0 <= x < |a.content[y]| :: a.content[y][x] == b.content[y][x]
    ensures a == b
  {
    forall y | 0 <= y < |a.content|
      ensures a.content[y] == b.content[y]
    {
    }
  }

  /** The map after one round of part 1, every cell computed from the old map. */
  function Next1(m: CellMap): (r: CellMap)
    requires WellFormed(m)
    ensures r.width == m.width && r.height == m.height && |r.content| == |m.content|
    ensures forall y | 0 <= y < |m.content| :: |r.content[y]| == |m.content[y]|
    ensures forall y, x | 0 <= y < |m.content| && 0 <= x < |m.content[y]| :: r.content[y][x] == Cell1(m, x, y)
  {
    CellMap(m.width, m.height, seq(|m.content|, y requires 0 <= y < |m.content| =>
      seq(|m.content[y]|, x requires 0 <= x < |m.content[y]| => Cell1(m, x, y))))
  }

  /** The map after one round of part 2. */
  function Next2(m: CellMap): (r: CellMap)
    requires WellFormed(m)
    ensures r.width == m.width && r.height == m.height && |r.content| == |m.content|
    ensures forall y | 0 <= y < |m.content| :: |r.content[y]| == |m.content[y]|
    ensures forall y, x | 0 <= y < |m.content| && 0 <= x < |m.content[y]| :: r.content[y][x] == Cell2(m, x, y)
  {
    CellMap(m.width, m.height, seq(|m.content|, y requires 0 <= y < |m.content| =>
      seq(|m.content[y]|, x requires 0 <= x < |m.content[y]| => Cell2(m, x, y))))
  }

  /** A round keeps the shape, keeps floor where it was, and introduces no `Invalid` cell. */
  lemma NextKeepsShape(m: CellMap)
    requires WellFormed(m)
    ensures WellFormed(Next1(m)) && WellFormed(Next2(m))
    ensures forall y, x | 0 <= y < |m.content| && 0 <= x < |m.content[y]| && m.content[y][x] == Floor ::
      Next1(m).content[y][x] == Floor && Next2(m).content[y][x] == Floor
    ensures NoInvalid(m) ==> NoInvalid(Next1(m)) && NoInvalid(Next2(m))
  {
  }

  /**
   * `step_part_1`: starts from a copy of the map and, for every seat, counts
   * its occupied neighbours in the old map and writes the new state into the
   * copy.
   */
  method StepPart1(m: CellMap) returns (result: CellMap)
    requires WellFormed(m)
    ensures result == Next1(m)
  {
    result := m;
    for y := 0 to m.height
      invariant result.width == m.width && result.height == m.height && |result.content| == |m.content|
      invariant forall yy | 0 <= yy < |m.content| :: |result.content[yy]| == |m.content[yy]|
      invariant forall yy, xx | 0 <= yy < |m.content| && 0 <= xx < |m.content[yy]| ::
        result.content[yy][xx] == if yy < y then Cell1(m, xx, yy) else m.content[yy][xx]
    {
      for x := 0 to m.width
        invariant result.width == m.width && result.height == m.height && |result.content| == |m.content|
        invariant forall yy | 0 <= yy < |m.content| :: |result.content[yy]| == |m.content[yy]|
        invariant forall yy, xx | 0 <= yy < |m.content| && 0 <= xx < |m.content[yy]| ::
          result.content[yy][xx] == if yy < y || (yy == y && xx < x) then Cell1(m, xx, yy) else m.content[yy][xx]
      {
        var state := GetAt(m, x, y);
        if state == Floor || state == Invalid {
          continue;
        }
        var counter := CountAdjacent(m, x, y);
        if state == EmptySeat && counter == 0 {
          result := SetAt(result, x, y, OccupiedSeat);
        } else if state == OccupiedSeat && counter >= 4 {
          result := SetAt(result, x, y, EmptySeat);
        }
      }
    }
    SameCells(result, Next1(m));
  }

  /**
   * `step_part_2`: as `step_part_1`, but counting the first seat in sight
   * along each of the eight directions, and emptying from 5 on.
   */
  method StepPart2(m: CellMap) returns (result: CellMap)
    requires WellFormed(m)
    ensures result == Next2(m)
  {
    result := m;
    for y := 0 to m.height
      invariant result.width == m.width && result.height == m.height && |result.content| == |m.content|
      invariant forall yy | 0 <= yy < |m.content| :: |result.content[yy]| == |m.content[yy]|
      invariant forall yy, xx | 0 <= yy < |m.content| && 0 <= xx < |m.content[yy]| ::
        result.content[yy][xx] == if yy < y then Cell2(m, xx, yy) else m.content[yy][xx]
    {
      for x := 0 to m.width
        invariant result.width == m.width && result.height == m.height && |result.content| == |m.content|
        invariant forall yy | 0 <= yy < |m.content| :: |result.content[yy]| == |m.content[yy]|
        invariant forall yy, xx | 0 <= yy < |m.content| && 0 <= xx < |m.content[yy]| ::
          result.content[yy][xx] == if yy < y || (yy == y && xx < x) then Cell2(m, xx, yy) else m.content[yy][xx]
      {
        var state := GetAt(m, x, y);
        if state == Floor || state == Invalid {
          continue;
        }
        var counter := CountVisible(m, x, y);
        if state == EmptySeat && counter == 0 {
          result := SetAt(result, x, y, OccupiedSeat);
        } else if state == OccupiedSeat && counter >= 5 {
          result := SetAt(result, x, y, EmptySeat);
        }
      }
    }
    SameCells(result, Next2(m));
  }

  /**
   * A part 1 round changes nothing exactly when no empty seat lacks occupied
   * neighbours and no occupied seat has four or more.
   */
  lemma StableIff1(m: CellMap)
    requires WellFormed(m)
    ensures Next1(m) == m <==> forall y, x | 0 <= y < m.height && 0 <= x < m.width ::
      !(m.content[y][x] == EmptySeat && AdjacentOccupied(m, x, y, Directions) == 0)
      && !(m.content[y][x] == OccupiedSeat && AdjacentOccupied(m, x, y, Directions) >= 4)
  {
    if forall y, x | 0 <= y < m.height && 0 <= x < m.width ::
      !(m.content[y][x] == EmptySeat && AdjacentOccupied(m, x, y, Directions) == 0)
      && !(m.content[y][x] == OccupiedSeat && AdjacentOccupied(m, x, y, Directions) >= 4)
    {
      SameCells(Next1(m), m);
    }
  }

  /** The same for part 2, with seats in sight and threshold 5. */
  lemma StableIff2(m: CellMap)
    requires WellFormed(m)
    ensures Next2(m) == m <==> forall y, x | 0 <= y < m.height && 0 <= x < m.width ::
      !(m.content[y][x] == EmptySeat && VisibleOccupied(m, x, y, Directions) == 0)
      && !(m.content[y][x] == OccupiedSeat && VisibleOccupied(m, x, y, Directions) >= 5)
  {
    if forall y, x | 0 <= y < m.height && 0 <= x < m.width ::
      !(m.content[y][x] == EmptySeat && VisibleOccupied(m, x, y, Directions) == 0)
      && !(m.content[y][x] == OccupiedSeat && VisibleOccupied(m, x, y, Directions) >= 5)
    {
      SameCells(Next2(m), m);
    }
  }

  /** `count_in_state`: the number of cells, over all rows, equal to `state`. */
  function CountInState(rows: seq<seq<CellState>>, state: CellState): (n: nat)
    ensures n == 0 <==> forall y, x | 0 <= y < |rows| && 0 <= x < |rows[y]| :: rows[y][x] != state
  {
    if rows == [] then 0
    else
      var last := rows[|rows| - 1];
      CountIsMultiplicity(last, state);
      assert state in last <==> state in multiset(last);
      CountInState(rows[..|rows| - 1], state) + Count(last, state)
  }

  /** `CellState::try_from`: `.`, `L` and `#`; any other character is an error naming it. */
  function ParseCellState(c: char): (r: Result<CellState, ParseCellStateError>)
    ensures r.Ok? ==> r.value != Invalid
    ensures r.Err? <==> c !in ".L#"
    ensures r.Err? ==> r.error == UnknownChar(c)
  {
    match c
    case '.' => Ok(Floor)
    case 'L' => Ok(EmptySeat)
    case '#' => Ok(OccupiedSeat)
    case x => Err(UnknownChar(x))
  }

  /** The `Display` character of a cell. */
  function ShowCellState(s: CellState): char
  {
    match s
    case Floor => '.'
    case EmptySeat => 'L'
    case OccupiedSeat => '#'
    case Invalid => 'I'
  }

  /** Every cell that can appear in a parsed map reads back from its character. */
  lemma ParseShowCellState(s: CellState)
    requires s != Invalid
    ensures ParseCellState(ShowCellState(s)) == Ok(s)
  {
  }

  function ParseRow(line: string): Result<seq<CellState>, ParseCellStateError>
  {
    CollectAll(line, ParseCellState)
  }

  /**
   * `CellMap::from_str`: one row per line; the height is the number of lines
   * and the width the length of the first line. Input without lines panics
   * in the source.
   */
  function ParseCellMap(s: string): (r: Result<CellMap, ParseCellStateError>)
    requires |Lines(s)| > 0
    ensures r.Ok? ==> r.value.height == |r.value.content| == |Lines(s)| && r.value.width == |Lines(s)[0]| && NoInvalid(r.value)
    ensures r.Ok? ==> forall y, x | 0 <= y < |Lines(s)| && 0 <= x < |Lines(s)[y]| ::
      |r.value.content[y]| == |Lines(s)[y]| && ParseCellState(Lines(s)[y][x]) == Ok(r.value.content[y][x])
    ensures r.Err? <==> exists y, x | 0 <= y < |Lines(s)| && 0 <= x < |Lines(s)[y]| :: Lines(s)[y][x] !in ".L#"
  {
    var lines := Lines(s);
    match CollectAll(lines, ParseRow)
    case Err(e) => Err(e)
    case Ok(content) =>
      assert forall y | 0 <= y < |lines| :: ParseRow(lines[y]) == Ok(content[y]);
      Ok(CellMap(|content[0]|, |content|, content))
  }
}
