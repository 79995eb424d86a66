/**
 * Day 12 (rain risk): compass directions, the sign-and-magnitude halves of a
 * position, and the navigation instructions.
 *
 * A position half stores a direction and a non-negative distance; its
 * signed reading is the distance east (or north), negative for west (or
 * south).
 */
module Day12Ship {
  import opened Wrappers
  import opened Text

  datatype HorDir = East | West
  {
    /** `HorDir::turn_left` */
    function TurnLeft(): VerDir
    {
      match this
      case East => VerDir.North
      case West => VerDir.South
    }

    /** `HorDir::turn_right` */
    function TurnRight(): VerDir
    {
      match this
      case East => VerDir.South
      case West => VerDir.North
    }
  }

  datatype VerDir = North | South
  {
    /** `VerDir::turn_left` */
    function TurnLeft(): HorDir
    {
      match this
      case North => HorDir.West
      case South => HorDir.East
    }

    /** `VerDir::turn_right` */
    function TurnRight(): HorDir
    {
      match this
      case North => HorDir.East
      case South => HorDir.West
    }
  }

  /** Turning left and then right, or right and then left, gives back the direction. */
  lemma TurnsCancel(h: HorDir, v: VerDir)
    ensures h.TurnLeft().TurnRight() == h && h.TurnRight().TurnLeft() == h
    ensures v.TurnLeft().TurnRight() == v && v.TurnRight().TurnLeft() == v
  {
  }

  datatype PositionPart<T> = PositionPart(direction: T, value: nat)

  function Abs(x: int): nat
  {
    if x < 0 then -x else x
  }

  /** The signed distance east of a horizontal half. */
  function EastOf(p: PositionPart<HorDir>): int
  {
    if p.direction == HorDir.East then p.value else -(p.value as int)
  }

  /** The signed distance north of a vertical half. */
  function NorthOf(p: PositionPart<VerDir>): int
  {
    if p.direction == VerDir.North then p.value else -(p.value as int)
  }

  /** `PositionPart<HorDir>::turn_left`: same distance, direction turned. */
  function HorTurnLeft(p: PositionPart<HorDir>): (r: PositionPart<VerDir>)
    ensures r.value == p.value
    ensures NorthOf(r) == EastOf(p)
  {
    PositionPart(p.direction.TurnLeft(), p.value)
  }

  /** `PositionPart<HorDir>::turn_right` */
  function HorTurnRight(p: PositionPart<HorDir>): (r: PositionPart<VerDir>)
    ensures r.value == p.value
    ensures NorthOf(r) == -EastOf(p)
  {
    PositionPart(p.direction.TurnRight(), p.value)
  }

  /** `PositionPart<VerDir>::turn_left` */
  function VerTurnLeft(p: PositionPart<VerDir>): (r: PositionPart<HorDir>)
    ensures r.value == p.value
    ensures EastOf(r) == -NorthOf(p)
  {
    PositionPart(p.direction.TurnLeft(), p.value)
  }

  /** `PositionPart<VerDir>::turn_right` */
  function VerTurnRight(p: PositionPart<VerDir>): (r: PositionPart<HorDir>)
    ensures r.value == p.value
    ensures EastOf(r) == NorthOf(p)
  {
    PositionPart(p.direction.TurnRight(), p.value)
  }

  /** Four left turns, four right turns, or a left and a right turn give back the half. */
  lemma PartTurnsCancel(h: PositionPart<HorDir>)
    ensures VerTurnLeft(HorTurnLeft(VerTurnLeft(HorTurnLeft(h)))) == h
    ensures VerTurnRight(HorTurnRight(VerTurnRight(HorTurnRight(h)))) == h
    ensures VerTurnRight(HorTurnLeft(h)) == h && VerTurnLeft(HorTurnRight(h)) == h
  {
  }

  datatype FaceDirection = North | South | East | West

  /** One quarter turn to the left, as in the loop of `Part1Position::turn_left`. */
  function FaceLeft(f: FaceDirection): (g: FaceDirection)
    ensures g != f
  {
    match f
    case North => FaceDirection.West
    case South => FaceDirection.East
    case East => FaceDirection.North
    case West => FaceDirection.South
  }

  /** One quarter turn to the right, as in the loop of `Part1Position::turn_right`. */
  function FaceRight(f: FaceDirection): (g: FaceDirection)
    ensures g != f
  {
    match f
    case North => FaceDirection.East
    case South => FaceDirection.West
    case East => FaceDirection.South
    case West => FaceDirection.North
  }

  /** A left and a right quarter turn undo each other; four in one sense are no turn. */
  lemma FaceTurnsCancel(f: FaceDirection)
    ensures FaceRight(FaceLeft(f)) == f && FaceLeft(FaceRight(f)) == f
    ensures FaceLeft(FaceLeft(FaceLeft(FaceLeft(f)))) == f
    ensures FaceRight(f) == FaceLeft(FaceLeft(FaceLeft(f)))
  {
  }

  /** The facing after `k` quarter turns to the left. */
  function RotateLeft(f: FaceDirection, k: nat): FaceDirection
    decreases k
  {
    if k == 0 then f else RotateLeft(FaceLeft(f), k - 1)
  }

  /** The facing after `k` quarter turns to the right. */
  function RotateRight(f: FaceDirection, k: nat): FaceDirection
    decreases k
  {
    if k == 0 then f else RotateRight(FaceRight(f), k - 1)
  }

  /** The last of `k + 1` left turns can be taken at the end. */
  lemma {:induction false} RotateLeftLast(f: FaceDirection, k: nat)
    ensures RotateLeft(f, k + 1) == FaceLeft(RotateLeft(f, k))
    decreases k
  {
    if k > 0 {
      RotateLeftLast(FaceLeft(f), k - 1);
    }
  }

  /** `k` right turns undo `k` left turns. */
  lemma {:induction false} RotationsCancel(f: FaceDirection, k: nat)
    ensures RotateRight(RotateLeft(f, k), k) == f
    decreases k
  {
    if k > 0 {
      var g := RotateLeft(f, k - 1);
      RotateLeftLast(f, k - 1);
      FaceTurnsCancel(g);
      assert RotateRight(FaceLeft(g), k) == RotateRight(g, k - 1);
      RotationsCancel(f, k - 1);
    }
  }

  /** Turning is periodic: four more quarter turns either way change nothing. */
  lemma {:induction false} RotationsPeriodic(f: FaceDirection, k: nat)
    ensures RotateLeft(f, k + 4) == RotateLeft(f, k)
    ensures RotateRight(f, k + 4) == RotateRight(f, k)
    decreases k
  {
    if k == 0 {
      var l1 := FaceLeft(f);
      var l2 := FaceLeft(l1);
      var l3 := FaceLeft(l2);
      assert RotateLeft(f, 4) == RotateLeft(l1, 3) == RotateLeft(l2, 2) == RotateLeft(l3, 1);
      var r1 := FaceRight(f);
      var r2 := FaceRight(r1);
      var r3 := FaceRight(r2);
      assert RotateRight(f, 4) == RotateRight(r1, 3) == RotateRight(r2, 2) == RotateRight(r3, 1);
      FaceTurnsCancel(f);
    } else {
      RotationsPeriodic(FaceLeft(f), k - 1);
      RotationsPeriodic(FaceRight(f), k - 1);
    }
  }

  datatype MovementDirectionKind = North | South | East | West | Left | Right | Forward

  datatype MovementDirection = MovementDirection(kind: MovementDirectionKind, value: nat)

  datatype ParseMovementDirectionKindError = UnknownCharError(c: char)

  datatype ParseMovementDirectionError =
    | GeneralInputError
    | KindError(kindError: ParseMovementDirectionKindError)
    | ParseIntegerError

  /** `MovementDirectionKind::try_from`: one of `NSEWLRF`, else an error naming the character. */
  function ParseKind(c: char): (r: Result<MovementDirectionKind, ParseMovementDirectionKindError>)
    ensures r.Err? <==> c !in "NSEWLRF"
    ensures r.Err? ==> r.error == UnknownCharError(c)
  {
    match c
    case 'N' => Ok(MovementDirectionKind.North)
    case 'S' => Ok(MovementDirectionKind.South)
    case 'E' => Ok(MovementDirectionKind.East)
    case 'W' => Ok(MovementDirectionKind.West)
    case 'L' => Ok(Left)
    case 'R' => Ok(Right)
    case 'F' => Ok(Forward)
    case x => Err(UnknownCharError(x))
  }

  /** The letter of each kind. */
  function KindChar(k: MovementDirectionKind): char
  {
    match k
    case North => 'N'
    case South => 'S'
    case East => 'E'
    case West => 'W'
    case Left => 'L'
    case Right => 'R'
    case Forward => 'F'
  }

  /**
   * `MovementDirection::from_str`: the kind from the first character, the
   * distance from the rest as an unsigned integer. Slicing `s[0..1]` panics
   * on an empty line, so the general input error is never produced.
   */
  function ParseMovementDirection(s: string): (r: Result<MovementDirection, ParseMovementDirectionError>)
    requires |s| > 0
    ensures r.Ok? <==> s[0] in "NSEWLRF" && ParseNat(s[1..]).Some?
    ensures r.Ok? ==> KindChar(r.value.kind) == s[0] && ParseNat(s[1..]) == Some(r.value.value)
    ensures s[0] !in "NSEWLRF" ==> r == Err(KindError(UnknownCharError(s[0])))
    ensures r != Err(GeneralInputError)
  {
    match ParseKind(s[0])
    case Err(e) => Err(KindError(e))
    case Ok(kind) =>
      match ParseNat(s[1..])
      case None => Err(ParseIntegerError)
      case Some(value) => Ok(MovementDirection(kind, value))
  }

  /** Printing an instruction as its letter and distance reads back as the same instruction. */
  lemma ParseShowMovementDirection(d: MovementDirection)
    ensures ParseMovementDirection([KindChar(d.kind)] + ShowNat(d.value)) == Ok(d)
  {
    var s := [KindChar(d.kind)] + ShowNat(d.value);
    assert s[1..] == ShowNat(d.value);
    ParseShowNat(d.value);
  }

  /**
   * The turns of an instruction are whole quarter turns: `turn_left` and
   * `turn_right` assert that the angle is a multiple of 90 degrees.
   */
  predicate WholeTurns(d: MovementDirection)
  {
    (d.kind == Left || d.kind == Right) ==> d.value % 90 == 0
  }

  /**
   * `get_movement_directions`: one instruction per line, the first error
   * stops the parse. An empty line makes `from_str` panic, so every line must
   * hold at least one character.
   */
  function ParseMovementDirections(input: string): (r: Result<seq<MovementDirection>, ParseMovementDirectionError>)
    requires forall i | 0 <= i < |Lines(input)| :: |Lines(input)[i]| > 0
    ensures r.Ok? <==> forall i | 0 <= i < |Lines(input)| :: ParseMovementDirection(Lines(input)[i]).Ok?
    ensures r.Ok? ==> |r.value| == |Lines(input)|
    ensures r.Ok? ==> forall i | 0 <= i < |r.value| :: ParseMovementDirection(Lines(input)[i]) == Ok(r.value[i])
  {
    CollectAll(Lines(input), ParseLine)
  }

  /** `MovementDirection::from_str` on one line; an empty line is never passed in. */
  function ParseLine(s: string): Result<MovementDirection, ParseMovementDirectionError>
  {
    if |s| > 0 then ParseMovementDirection(s) else Err(GeneralInputError)
  }
}
