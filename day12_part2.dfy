/**
 * Day 12, part 2: north, south, east and west move a waypoint kept relative
 * to the ship, left and right rotate the waypoint about the ship, and forward
 * moves the ship to the waypoint `value` times.
 *
 * As in part 1 every half is sign and magnitude; the specification reads
 * them as signed vectors.
 */
module Day12Part2 {
  import opened Day12Ship

  /** A signed offset: metres east and metres north. */
  datatype Vec = Vec(east: int, north: int)

  /** The ship's place and the waypoint's offset from it. */
  datatype Pose = Pose(ship: Vec, waypoint: Vec)

  /** A quarter turn to the left (counter-clockwise) about the origin. */
  function Left90(v: Vec): Vec
  {
    Vec(-v.north, v.east)
  }

  /** A quarter turn to the right (clockwise) about the origin. */
  function Right90(v: Vec): Vec
  {
    Vec(v.north, -v.east)
  }

  /** `k` quarter turns to the left. */
  function RotateVecLeft(v: Vec, k: nat): Vec
    decreases k
  {
    if k == 0 then v else RotateVecLeft(Left90(v), k - 1)
  }

  /** `k` quarter turns to the right. */
  function RotateVecRight(v: Vec, k: nat): Vec
    decreases k
  {
    if k == 0 then v else RotateVecRight(Right90(v), k - 1)
  }

  /** Rotating keeps the distance along the grid, and two quarter turns are a half turn. */
  lemma {:induction false} RotationsKeepDistance(v: Vec, k: nat)
    ensures Abs(RotateVecLeft(v, k).east) + Abs(RotateVecLeft(v, k).north) == Abs(v.east) + Abs(v.north)
    ensures Abs(RotateVecRight(v, k).east) + Abs(RotateVecRight(v, k).north) == Abs(v.east) + Abs(v.north)
    ensures RotateVecLeft(v, 2) == Vec(-v.east, -v.north) == RotateVecRight(v, 2)
    decreases k
  {
    assert RotateVecLeft(v, 2) == RotateVecLeft(Left90(v), 1);
    assert RotateVecRight(v, 2) == RotateVecRight(Right90(v), 1);
    if k > 0 {
      RotationsKeepDistance(Left90(v), k - 1);
      RotationsKeepDistance(Right90(v), k - 1);
    }
  }

  /** `k` quarter turns right undo `k` quarter turns left. */
  lemma {:induction false} VecRotationsCancel(v: Vec, k: nat)
    ensures RotateVecRight(RotateVecLeft(v, k), k) == v
    decreases k
  {
    if k > 0 {
      VecLeftLast(v, k - 1);
      var w := RotateVecLeft(v, k - 1);
      assert RotateVecRight(Left90(w), k) == RotateVecRight(w, k - 1);
      VecRotationsCancel(v, k - 1);
    }
  }

  /** The last of `k + 1` left turns can be taken at the end. */
  lemma {:induction false} VecLeftLast(v: Vec, k: nat)
    ensures RotateVecLeft(v, k + 1) == Left90(RotateVecLeft(v, k))
    decreases k
  {
    if k > 0 {
      VecLeftLast(Left90(v), k - 1);
    }
  }

  /** What one instruction does to the ship and its waypoint. */
  function Step(p: Pose, d: MovementDirection): Pose
    requires WholeTurns(d)
  {
    var w := p.waypoint;
    match d.kind
    case North => p.(waypoint := w.(north := w.north + d.value))
    case South => p.(waypoint := w.(north := w.north - d.value))
    case East => p.(waypoint := w.(east := w.east + d.value))
    case West => p.(waypoint := w.(east := w.east - d.value))
    case Left => p.(waypoint := RotateVecLeft(w, d.value / 90))
    case Right => p.(waypoint := RotateVecRight(w, d.value / 90))
    case Forward => p.(ship := Vec(p.ship.east + d.value * w.east, p.ship.north + d.value * w.north))
  }

  /** The pose after following every instruction of `ds` in order. */
  function Navigate(p: Pose, ds: seq<MovementDirection>): Pose
    requires forall i | 0 <= i < |ds| :: WholeTurns(ds[i])
  {
    if |ds| == 0 then p else Step(Navigate(p, ds[..|ds| - 1]), ds[|ds| - 1])
  }

  /** Only forward moves the ship; every other instruction keeps the waypoint's grid distance or changes it by at most `value`. */
  lemma StepMovesShipOnlyForward(p: Pose, d: MovementDirection)
    requires WholeTurns(d)
    ensures d.kind != Forward ==> Step(p, d).ship == p.ship
    ensures d.kind == Forward ==> Step(p, d).waypoint == p.waypoint
    ensures d.kind == Left || d.kind == Right ==>
      Abs(Step(p, d).waypoint.east) + Abs(Step(p, d).waypoint.north) == Abs(p.waypoint.east) + Abs(p.waypoint.north)
  {
    if d.kind == Left || d.kind == Right {
      RotationsKeepDistance(p.waypoint, d.value / 90);
    }
  }

  /** The puzzle's example: F10 N3 F7 R90 F11 ends 214 east, 72 south. */
  lemma Example()
    ensures Navigate(Pose(Vec(0, 0), Vec(10, 1)),
      [MovementDirection(Forward, 10), MovementDirection(MovementDirectionKind.North, 3),
       MovementDirection(Forward, 7), MovementDirection(Right, 90), MovementDirection(Forward, 11)])
      == Pose(Vec(214, -72), Vec(4, -10))
  {
    var ds := [MovementDirection(Forward, 10), MovementDirection(MovementDirectionKind.North, 3),
       MovementDirection(Forward, 7), MovementDirection(Right, 90), MovementDirection(Forward, 11)];
    var start := Pose(Vec(0, 0), Vec(10, 1));
    assert ds[..1] == [ds[0]] && ds[..2] == ds[..1] + [ds[1]] && ds[..3] == ds[..2] + [ds[2]];
    assert ds[..4] == ds[..3] + [ds[3]] && ds[..5] == ds;
    assert Navigate(start, ds[..1]) == Pose(Vec(100, 10), Vec(10, 1));
    assert Navigate(start, ds[..2]) == Pose(Vec(100, 10), Vec(10, 4));
    assert Navigate(start, ds[..3]) == Pose(Vec(170, 38), Vec(10, 4));
    assert RotateVecRight(Vec(10, 4), 1) == Vec(4, -10);
    assert Navigate(start, ds[..4]) == Pose(Vec(170, 38), Vec(4, -10));
  }

  /** `Waypoint`: the waypoint's offset from the ship, as two halves. */
  datatype Waypoint = Waypoint(horizontal: PositionPart<HorDir>, vertical: PositionPart<VerDir>)

  function VecOf(w: Waypoint): Vec
  {
    Vec(EastOf(w.horizontal), NorthOf(w.vertical))
  }

  /** The horizontal half of one pass of `move_forward`: the ship's half plus the waypoint's. */
  function ForwardHorizontal(ship: PositionPart<HorDir>, wh: PositionPart<HorDir>): (r: PositionPart<HorDir>)
    ensures EastOf(r) == EastOf(ship) + EastOf(wh)
  {
    if wh.direction == ship.direction then ship.(value := ship.value + wh.value)
    else if wh.value < ship.value then ship.(value := ship.value - wh.value)
    else PositionPart(wh.direction, wh.value - ship.value)
  }

  /** The vertical half of one pass of `move_forward`. */
  function ForwardVertical(ship: PositionPart<VerDir>, wv: PositionPart<VerDir>): (r: PositionPart<VerDir>)
    ensures NorthOf(r) == NorthOf(ship) + NorthOf(wv)
  {
    if wv.direction == ship.direction then ship.(value := ship.value + wv.value)
    else if wv.value < ship.value then ship.(value := ship.value - wv.value)
    else PositionPart(wv.direction, wv.value - ship.value)
  }

  class Part2Position {
    var horizontal: PositionPart<HorDir>
    var vertical: PositionPart<VerDir>
    var waypoint: Waypoint

    /** The signed reading of this position. */
    function Reading(): Pose
      reads this
    {
      Pose(Vec(EastOf(horizontal), NorthOf(vertical)), VecOf(waypoint))
    }

    /** `Part2Position::default`: the ship at the origin, the waypoint 10 east and 1 north. */
    constructor ()
      ensures Reading() == Pose(Vec(0, 0), Vec(10, 1))
    {
      horizontal := PositionPart(HorDir.East, 0);
      vertical := PositionPart(VerDir.North, 0);
      waypoint := Waypoint(PositionPart(HorDir.East, 10), PositionPart(VerDir.North, 1));
    }

    /** `manhatten_distance`: the ship's distance from the origin along the grid. */
    function ManhattanDistance(): (d: nat)
      reads this
      ensures d == Abs(Reading().ship.east) + Abs(Reading().ship.north)
    {
      horizontal.value + vertical.value
    }

    /** `move_horizontal`: the waypoint's signed distance east changes by `value` toward `to`. */
    method MoveHorizontal(to: HorDir, value: nat)
      modifies this
      ensures EastOf(waypoint.horizontal) == old(EastOf(waypoint.horizontal)) + (if to == HorDir.East then value else -(value as int))
      ensures waypoint.horizontal.value == 0 ==> waypoint.horizontal.direction == old(waypoint.horizontal.direction)
      ensures waypoint.vertical == old(waypoint.vertical)
      ensures horizontal == old(horizontal) && vertical == old(vertical)
    {
      var h := waypoint.horizontal;
      if h.direction == to {
        waypoint := waypoint.(horizontal := h.(value := h.value + value));
      } else if h.value >= value {
        waypoint := waypoint.(horizontal := h.(value := h.value - value));
      } else {
        waypoint := waypoint.(horizontal := PositionPart(to, value - h.value));
      }
    }

    /** `move_vertical`: as `MoveHorizontal`, for the waypoint's north-south half. */
    method MoveVertical(to: VerDir, value: nat)
      modifies this
      ensures NorthOf(waypoint.vertical) == old(NorthOf(waypoint.vertical)) + (if to == VerDir.North then value else -(value as int))
      ensures waypoint.vertical.value == 0 ==> waypoint.vertical.direction == old(waypoint.vertical.direction)
      ensures waypoint.horizontal == old(waypoint.horizontal)
      ensures horizontal == old(horizontal) && vertical == old(vertical)
    {
      var v := waypoint.vertical;
      if v.direction == to {
        waypoint := waypoint.(vertical := v.(value := v.value + value));
      } else if v.value >= value {
        waypoint := waypoint.(vertical := v.(value := v.value - value));
      } else {
        waypoint := waypoint.(vertical := PositionPart(to, value - v.value));
      }
    }

    /** `move_forward`: `value` times, the ship moves by the waypoint's offset. */
    method MoveForward(value: nat)
      modifies this
      ensures Reading() == Step(old(Reading()), MovementDirection(Forward, value))
    {
      ghost var e0, n0 := EastOf(horizontal), NorthOf(vertical);
      ghost var we, wn := EastOf(waypoint.horizontal), NorthOf(waypoint.vertical);
      for i := 0 to value
        invariant waypoint == old(waypoint)
        invariant EastOf(horizontal) == e0 + i * we
        invariant NorthOf(vertical) == n0 + i * wn
      {
        assert (i + 1) * we == i * we + we && (i + 1) * wn == i * wn + wn;
        horizontal := ForwardHorizontal(horizontal, waypoint.horizontal);
        vertical := ForwardVertical(vertical, waypoint.vertical);
      }
    }

    /** `turn_left`: `value / 90` quarter turns of the waypoint to the left about the ship. */
    method TurnLeft(value: nat)
      requires value % 90 == 0
      modifies this
      ensures VecOf(waypoint) == RotateVecLeft(old(VecOf(waypoint)), value / 90)
      ensures horizontal == old(horizontal) && vertical == old(vertical)
    {
      var temp := value;
      while temp > 0
        invariant temp % 90 == 0
        invariant RotateVecLeft(VecOf(waypoint), temp / 90) == RotateVecLeft(old(VecOf(waypoint)), value / 90)
        invariant horizontal == old(horizontal) && vertical == old(vertical)
      {
        assert (temp - 90) / 90 == temp / 90 - 1;
        temp := temp - 90;
        var newHor := VerTurnLeft(waypoint.vertical);
        var newVer := HorTurnLeft(waypoint.horizontal);
        waypoint := Waypoint(newHor, newVer);
      }
    }

    /** `turn_right`: `value / 90` quarter turns of the waypoint to the right about the ship. */
    method TurnRight(value: nat)
      requires value % 90 == 0
      modifies this
      ensures VecOf(waypoint) == RotateVecRight(old(VecOf(waypoint)), value / 90)
      ensures horizontal == old(horizontal) && vertical == old(vertical)
    {
      var temp := value;
      while temp > 0
        invariant temp % 90 == 0
        invariant RotateVecRight(VecOf(waypoint), temp / 90) == RotateVecRight(old(VecOf(waypoint)), value / 90)
        invariant horizontal == old(horizontal) && vertical == old(vertical)
      {
        assert (temp - 90) / 90 == temp / 90 - 1;
        temp := temp - 90;
        var newHor := VerTurnRight(waypoint.vertical);
        var newVer := HorTurnRight(waypoint.horizontal);
        waypoint := Waypoint(newHor, newVer);
      }
    }

    /** `move_by`: one instruction, with the meaning `Step` gives it. */
    method MoveBy(d: MovementDirection)
      requires WholeTurns(d)
      modifies this
      ensures Reading() == Step(old(Reading()), d)
    {
      match d.kind
      case North => MoveVertical(VerDir.North, d.value);
      case South => MoveVertical(VerDir.South, d.value);
      case East => MoveHorizontal(HorDir.East, d.value);
      case West => MoveHorizontal(HorDir.West, d.value);
      case Left => TurnLeft(d.value);
      case Right => TurnRight(d.value);
      case Forward => MoveForward(d.value);
    }

    /** `add_assign` over an iterator: every instruction in order. */
    method MoveAll(ds: seq<MovementDirection>)
      requires forall i | 0 <= i < |ds| :: WholeTurns(ds[i])
      modifies this
      ensures Reading() == Navigate(old(Reading()), ds)
    {
      for i := 0 to |ds|
        invariant Reading() == Navigate(old(Reading()), ds[..i])
      {
        assert ds[..i + 1][..i] == ds[..i];
        MoveBy(ds[i]);
      }
      assert ds[..|ds|] == ds;
    }
  }

  /** Part 2 of `main`: follow the instructions from the default position and measure. */
  method Part2Distance(ds: seq<MovementDirection>) returns (distance: nat)
    requires forall i | 0 <= i < |ds| :: WholeTurns(ds[i])
    ensures var p := Navigate(Pose(Vec(0, 0), Vec(10, 1)), ds); distance == Abs(p.ship.east) + Abs(p.ship.north)
  {
    var ship := new Part2Position();
    ship.MoveAll(ds);
    distance := ship.ManhattanDistance();
  }
}
