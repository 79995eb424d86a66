/**
 * Day 12, part 1: the ship moves itself. North, south, east and west move the
 * ship, left and right turn it, forward moves it the way it faces.
 *
 * The position is kept as two sign-and-magnitude halves; it is specified by
 * its signed reading, a `Pose`, and by `Step`, the instructions' meaning on
 * signed integers.
 */
module Day12Part1 {
  import opened Day12Ship

  /** A signed reading of the ship: metres east, metres north, and its facing. */
  datatype Pose = Pose(east: int, north: int, facing: FaceDirection)

  /** What one instruction does to a pose. */
  function Step(p: Pose, d: MovementDirection): Pose
    requires WholeTurns(d)
  {
    match d.kind
    case North => p.(north := p.north + d.value)
    case South => p.(north := p.north - d.value)
    case East => p.(east := p.east + d.value)
    case West => p.(east := p.east - d.value)
    case Left => p.(facing := RotateLeft(p.facing, d.value / 90))
    case Right => p.(facing := RotateRight(p.facing, d.value / 90))
    case Forward =>
      match p.facing
      case North => p.(north := p.north + d.value)
      case South => p.(north := p.north - d.value)
      case East => p.(east := p.east + d.value)
      case West => p.(east := p.east - d.value)
  }

  /** The pose after following every instruction of `ds` in order. */
  function Navigate(p: Pose, ds: seq<MovementDirection>): Pose
    requires forall i | 0 <= i < |ds| :: WholeTurns(ds[i])
  {
    if |ds| == 0 then p else Step(Navigate(p, ds[..|ds| - 1]), ds[|ds| - 1])
  }

  /** Starting `(a, b)` further along shifts the end by `(a, b)`; the facing does not depend on the start. */
  lemma {:induction false} NavigateShift(p: Pose, a: int, b: int, ds: seq<MovementDirection>)
    requires forall i | 0 <= i < |ds| :: WholeTurns(ds[i])
    ensures Navigate(Pose(p.east + a, p.north + b, p.facing), ds)
         == Pose(Navigate(p, ds).east + a, Navigate(p, ds).north + b, Navigate(p, ds).facing)
    decreases |ds|
  {
    if |ds| > 0 {
      NavigateShift(p, a, b, ds[..|ds| - 1]);
    }
  }

  /** Turning instructions leave the place alone; moves leave the facing alone. */
  lemma StepSeparates(p: Pose, d: MovementDirection)
    requires WholeTurns(d)
    ensures d.kind == Left || d.kind == Right ==> Step(p, d).east == p.east && Step(p, d).north == p.north
    ensures d.kind != Left && d.kind != Right ==> Step(p, d).facing == p.facing
    ensures d.kind != Left && d.kind != Right ==>
      Abs(Step(p, d).east - p.east) + Abs(Step(p, d).north - p.north) == d.value
  {
  }

  /** The puzzle's example: F10 N3 F7 R90 F11 ends 17 east, 8 south, facing south. */
  lemma Example()
    ensures Navigate(Pose(0, 0, FaceDirection.East),
      [MovementDirection(Forward, 10), MovementDirection(MovementDirectionKind.North, 3),
       MovementDirection(Forward, 7), MovementDirection(Right, 90), MovementDirection(Forward, 11)])
      == Pose(17, -8, FaceDirection.South)
  {
    var ds := [MovementDirection(Forward, 10), MovementDirection(MovementDirectionKind.North, 3),
       MovementDirection(Forward, 7), MovementDirection(Right, 90), MovementDirection(Forward, 11)];
    var start := Pose(0, 0, FaceDirection.East);
    assert ds[..1] == [ds[0]] && ds[..2] == ds[..1] + [ds[1]] && ds[..3] == ds[..2] + [ds[2]];
    assert ds[..4] == ds[..3] + [ds[3]] && ds[..5] == ds;
    assert Navigate(start, ds[..1]) == Pose(10, 0, FaceDirection.East);
    assert Navigate(start, ds[..2]) == Pose(10, 3, FaceDirection.East);
    assert Navigate(start, ds[..3]) == Pose(17, 3, FaceDirection.East);
    assert Navigate(start, ds[..4]) == Pose(17, 3, FaceDirection.South);
  }

  class Part1Position {
    var horizontal: PositionPart<HorDir>
    var vertical: PositionPart<VerDir>
    var facing: FaceDirection

    /** The signed reading of this position. */
    function Reading(): Pose
      reads this
    {
      Pose(EastOf(horizontal), NorthOf(vertical), facing)
    }

    /** `Part1Position::default`: at the origin, facing east. */
    constructor ()
      ensures Reading() == Pose(0, 0, FaceDirection.East)
      ensures horizontal.direction == HorDir.East && vertical.direction == VerDir.North
    {
      horizontal := PositionPart(HorDir.East, 0);
      vertical := PositionPart(VerDir.North, 0);
      facing := FaceDirection.East;
    }

    /** `manhatten_distance`: the distance from the origin along the grid. */
    function ManhattanDistance(): (d: nat)
      reads this
      ensures d == Abs(Reading().east) + Abs(Reading().north)
    {
      horizontal.value + vertical.value
    }

    /**
     * `move_horizontal`: the signed distance east changes by `value` toward
     * `to`; a half that ends at zero keeps its direction.
     */
    method MoveHorizontal(to: HorDir, value: nat)
      modifies this
      ensures EastOf(horizontal) == old(EastOf(horizontal)) + (if to == HorDir.East then value else -(value as int))
      ensures horizontal.value == 0 ==> horizontal.direction == old(horizontal.direction)
      ensures vertical == old(vertical) && facing == old(facing)
    {
      if horizontal.direction == to {
        horizontal := horizontal.(value := horizontal.value + value);
      } else if horizontal.value >= value {
        horizontal := horizontal.(value := horizontal.value - value);
      } else {
        horizontal := PositionPart(to, value - horizontal.value);
      }
    }

    /** `move_vertical`: as `MoveHorizontal`, for the north-south half. */
    method MoveVertical(to: VerDir, value: nat)
      modifies this
      ensures NorthOf(vertical) == old(NorthOf(vertical)) + (if to == VerDir.North then value else -(value as int))
      ensures vertical.value == 0 ==> vertical.direction == old(vertical.direction)
      ensures horizontal == old(horizontal) && facing == old(facing)
    {
      if vertical.direction == to {
        vertical := vertical.(value := vertical.value + value);
      } else if vertical.value >= value {
        vertical := vertical.(value := vertical.value - value);
      } else {
        vertical := PositionPart(to, value - vertical.value);
      }
    }

    /** `move_forward`: a move the way the ship faces. */
    method MoveForward(value: nat)
      modifies this
      ensures Reading() == Step(old(Reading()), MovementDirection(Forward, value))
    {
      match facing
      case North => MoveVertical(VerDir.North, value);
      case South => MoveVertical(VerDir.South, value);
      case East => MoveHorizontal(HorDir.East, value);
      case West => MoveHorizontal(HorDir.West, value);
    }

    /** `turn_left`: `value / 90` quarter turns to the left, one per pass of the loop. */
    method TurnLeft(value: nat)
      requires value % 90 == 0
      modifies this
      ensures facing == RotateLeft(old(facing), value / 90)
      ensures horizontal == old(horizontal) && vertical == old(vertical)
    {
      var temp := value;
      while temp > 0
        invariant temp % 90 == 0
        invariant RotateLeft(facing, temp / 90) == RotateLeft(old(facing), value / 90)
        invariant horizontal == old(horizontal) && vertical == old(vertical)
      {
        assert (temp - 90) / 90 == temp / 90 - 1;
        temp := temp - 90;
        facing := FaceLeft(facing);
      }
    }

    /** `turn_right`: `value / 90` quarter turns to the right. */
    method TurnRight(value: nat)
      requires value % 90 == 0
      modifies this
      ensures facing == RotateRight(old(facing), value / 90)
      ensures horizontal == old(horizontal) && vertical == old(vertical)
    {
      var temp := value;
      while temp > 0
        invariant temp % 90 == 0
        invariant RotateRight(facing, temp / 90) == RotateRight(old(facing), value / 90)
        invariant horizontal == old(horizontal) && vertical == old(vertical)
      {
        assert (temp - 90) / 90 == temp / 90 - 1;
        temp := temp - 90;
        facing := FaceRight(facing);
      }
    }

    /** `move_by`: one instruction, with the meaning `Step` gives it. */
    method MoveBy(d: MovementDirection)
      requires WholeTurns(d)
      modifies this
      ensures Reading() == Step(old(Reading()), d)
    {
      match d.kind
      case North => MoveVertical(VerDir.North, d.value);
      case South => MoveVertical(VerDir.South, d.value);
      case East => MoveHorizontal(HorDir.East, d.value);
      case West => MoveHorizontal(HorDir.West, d.value);
      case Left => TurnLeft(d.value);
      case Right => TurnRight(d.value);
      case Forward => MoveForward(d.value);
    }

    /** `add_assign` over an iterator: every instruction in order. */
    method MoveAll(ds: seq<MovementDirection>)
      requires forall i | 0 <= i < |ds| :: WholeTurns(ds[i])
      modifies this
      ensures Reading() == Navigate(old(Reading()), ds)
    {
      for i := 0 to |ds|
        invariant Reading() == Navigate(old(Reading()), ds[..i])
      {
        assert ds[..i + 1][..i] == ds[..i];
        MoveBy(ds[i]);
      }
      assert ds[..|ds|] == ds;
    }
  }

  /** Part 1 of `main`: follow the instructions from the default position and measure. */
  method Part1Distance(ds: seq<MovementDirection>) returns (distance: nat)
    requires forall i | 0 <= i < |ds| :: WholeTurns(ds[i])
    ensures var p := Navigate(Pose(0, 0, FaceDirection.East), ds); distance == Abs(p.east) + Abs(p.north)
  {
    var ship := new Part1Position();
    ship.MoveAll(ds);
    distance := ship.ManhattanDistance();
  }
}
