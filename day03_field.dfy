/**
 * Day 3 (toboggan trajectory), the map: rows of open squares and trees that
 * repeat endlessly to the right.
 */
module Day03Field {
  import opened Wrappers
  import opened Text
  import Arith

  datatype FieldState = Empty | Tree

  datatype FieldParseError =
    | FailedParsingFieldState(unknown: char)
    | LineDifferentLength(line: nat)

  datatype Field = Field(rows: seq<seq<FieldState>>)

  /** `FieldState::try_from`: `#` is a tree, `.` open ground, anything else unknown. */
  function ParseState(c: char): (r: Result<FieldState, char>)
    ensures r.Ok? <==> c == '#' || c == '.'
    ensures r.Ok? ==> (r.value == Tree <==> c == '#')
    ensures r.Err? ==> r.error == c
  {
    match c
    case '#' => Ok(Tree)
    case '.' => Ok(Empty)
    case _ => Err(c)
  }

  predicate ValidChar(c: char)
  {
    c == '#' || c == '.'
  }

  /** The squares of one line; the first unknown character is the error. */
  function ParseRow(line: string): (r: Result<seq<FieldState>, char>)
    ensures r.Ok? <==> forall i | 0 <= i < |line| :: ValidChar(line[i])
    ensures r.Ok? ==> |r.value| == |line| && forall i | 0 <= i < |line| :: (r.value[i] == Tree <==> line[i] == '#')
    ensures r.Err? ==> exists i | 0 <= i < |line| :: line[i] == r.error && !ValidChar(line[i])
  {
    if line == [] then Ok([])
    else
      match ParseState(line[0])
      case Err(c) => Err(c)
      case Ok(state) =>
        match ParseRow(line[1..])
        case Err(c) =>
          assert exists i | 0 <= i < |line[1..]| :: line[1..][i] == c && !ValidChar(line[1..][i]);
          var i :| 0 <= i < |line[1..]| && line[1..][i] == c && !ValidChar(line[1..][i]);
          assert line[i + 1] == c;
          Err(c)
        case Ok(rest) =>
          assert forall i | 1 <= i < |line| :: line[i] == line[1..][i - 1];
          Ok([state] + rest)
  }

  /** The rows of all lines, stopping at the first line holding an unknown character. */
  function ParseRows(lines: seq<string>): (r: Result<seq<seq<FieldState>>, char>)
    ensures r.Ok? <==> forall y | 0 <= y < |lines| :: ParseRow(lines[y]).Ok?
    ensures r.Ok? ==> |r.value| == |lines| && forall y | 0 <= y < |lines| :: r.value[y] == ParseRow(lines[y]).value
    ensures r.Err? ==> exists y | 0 <= y < |lines| :: ParseRow(lines[y]) == Err(r.error)
  {
    if lines == [] then Ok([])
    else
      match ParseRow(lines[0])
      case Err(c) => Err(c)
      case Ok(row) =>
        match ParseRows(lines[1..])
        case Err(c) =>
          var y :| 0 <= y < |lines[1..]| && ParseRow(lines[1..][y]) == Err(c);
          assert lines[y + 1] == lines[1..][y];
          Err(c)
        case Ok(rest) =>
          assert forall y | 1 <= y < |lines| :: lines[y] == lines[1..][y - 1];
          Ok([row] + rest)
  }

  /**
   * One step of the `reduce` over `(index, Some(length))`: once a length
   * differs from the one before, the index of that row is kept with `None`.
   */
  function Combine(previous: (nat, Option<nat>), current: (nat, Option<nat>)): (nat, Option<nat>)
  {
    match (previous, current)
    case ((x, None), _) => (x, None)
    case ((x, _), (_, None)) => (x, None)
    case ((_, Some(o)), (x, Some(n))) => if o != n then (x, None) else (x, Some(n))
  }

  function ReduceFrom(acc: (nat, Option<nat>), lens: seq<nat>, next: nat): (nat, Option<nat>)
    decreases |lens|
  {
    if lens == [] then acc else ReduceFrom(Combine(acc, (next, Some(lens[0]))), lens[1..], next + 1)
  }

  /** `Iterator::reduce` of `Combine` over the enumerated row lengths. */
  function LengthCheck(lens: seq<nat>): Option<(nat, Option<nat>)>
  {
    if lens == [] then None else Some(ReduceFrom((0, Some(lens[0])), lens[1..], 1))
  }

  /** Before the first difference the fold carries the latest index and the common length. */
  lemma {:induction false} ReduceFromSpec(acc: (nat, Option<nat>), lens: seq<nat>, next: nat)
    requires acc.1.Some?
    ensures var r := ReduceFrom(acc, lens, next);
      if forall i | 0 <= i < |lens| :: lens[i] == acc.1.value then
        r.1 == acc.1 && (lens == [] || r.0 == next + |lens| - 1)
      else
        r.1 == None && 0 <= r.0 - next < |lens| && lens[r.0 - next] != acc.1.value
          && forall i | 0 <= i < r.0 - next :: lens[i] == acc.1.value
    decreases |lens|
  {
    if lens != [] {
      var step := Combine(acc, (next, Some(lens[0])));
      if lens[0] == acc.1.value {
        ReduceFromSpec(step, lens[1..], next + 1);
        assert forall i | 1 <= i < |lens| :: lens[i] == lens[1..][i - 1];
      } else {
        NoneSticks(step, lens[1..], next + 1);
      }
    }
  }

  lemma {:induction false} NoneSticks(acc: (nat, Option<nat>), lens: seq<nat>, next: nat)
    requires acc.1.None?
    ensures ReduceFrom(acc, lens, next) == acc
    decreases |lens|
  {
    if lens != [] {
      NoneSticks(Combine(acc, (next, Some(lens[0]))), lens[1..], next + 1);
    }
  }

  /** All rows are as long as the first. */
  predicate Rectangular(rows: seq<seq<FieldState>>)
  {
    forall y | 0 <= y < |rows| :: |rows[y]| == |rows[0]|
  }

  /**
   * The length check reports `(i, None)` exactly when some length differs
   * from the first, `i` being the first row whose length differs from the
   * row before it.
   */
  lemma LengthCheckSpec(lens: seq<nat>)
    ensures match LengthCheck(lens)
      case Some((i, None)) =>
        0 < i < |lens| && lens[i] != lens[i - 1] && forall y | 0 <= y < i :: lens[y] == lens[0]
      case _ => forall y | 0 <= y < |lens| :: lens[y] == lens[0]
  {
    if lens != [] {
      ReduceFromSpec((0, Some(lens[0])), lens[1..], 1);
      assert forall i | 1 <= i < |lens| :: lens[i] == lens[1..][i - 1];
    }
  }

  /**
   * `Field::from_str`. Unknown characters are reported before unequal row
   * lengths; `LineDifferentLength(i)` names the first row whose length
   * differs from the row before it.
   */
  function ParseField(s: string): (r: Result<Field, FieldParseError>)
  {
    match ParseRows(Lines(s))
    case Err(c) => Err(FailedParsingFieldState(c))
    case Ok(rows) =>
      var lens := seq(|rows|, y requires 0 <= y < |rows| => |rows[y]|);
      match LengthCheck(lens)
      case Some((line, None)) => Err(LineDifferentLength(line))
      case _ => Ok(Field(rows))
  }

  /** Every character of every line is `#` or `.`. */
  predicate AllValid(lines: seq<string>)
  {
    forall y, x | 0 <= y < |lines| && 0 <= x < |lines[y]| :: ValidChar(lines[y][x])
  }

  /** An unknown character is reported as such, and only when the input holds one. */
  lemma ParseFieldUnknown(s: string)
    ensures ParseField(s).Err? && ParseField(s).error.FailedParsingFieldState? <==> !AllValid(Lines(s))
    ensures ParseField(s).Err? && ParseField(s).error.FailedParsingFieldState? ==>
      var c := ParseField(s).error.unknown;
      !ValidChar(c) && exists y, x | 0 <= y < |Lines(s)| && 0 <= x < |Lines(s)[y]| :: Lines(s)[y][x] == c
  {
    var lines := Lines(s);
    match ParseRows(lines)
    case Err(c) =>
      var y :| 0 <= y < |lines| && ParseRow(lines[y]) == Err(c);
    case Ok(rows) =>
  }

  /**
   * Once every character is known, the map is accepted iff it is rectangular;
   * otherwise the error names the first row whose length differs from the one
   * before it.
   */
  lemma ParseFieldShape(s: string)
    requires AllValid(Lines(s))
    ensures var lines := Lines(s);
      match ParseField(s)
      case Ok(f) =>
        |f.rows| == |lines| && Rectangular(f.rows)
        && forall y, x | 0 <= y < |lines| && 0 <= x < |lines[y]| :: (f.rows[y][x] == Tree <==> lines[y][x] == '#')
      case Err(FailedParsingFieldState(_)) => false
      case Err(LineDifferentLength(i)) =>
        0 < i < |lines| && |lines[i]| != |lines[i - 1]| && forall y | 0 <= y < i :: |lines[y]| == |lines[0]|
  {
    var lines := Lines(s);
    forall y | 0 <= y < |lines|
      ensures ParseRow(lines[y]).Ok?
    {
      assert forall x | 0 <= x < |lines[y]| :: ValidChar(lines[y][x]);
    }
    var rows := ParseRows(lines).value;
    var lens := seq(|rows|, y requires 0 <= y < |rows| => |rows[y]|);
    assert |lens| == |lines|;
    assert forall y | 0 <= y < |lens| :: lens[y] == |lines[y]|;
    LengthCheckSpec(lens);
  }

  /** `Field::get_field`: the row must exist; columns repeat with the row's width. */
  function GetField(f: Field, x: nat, y: nat): (r: FieldState)
    requires y < |f.rows| && |f.rows[y]| > 0
    ensures x < |f.rows[y]| ==> r == f.rows[y][x]
  {
    f.rows[y][x % |f.rows[y]|]
  }

  /** The map repeats to the right with the width of the row. */
  lemma GetFieldPeriodic(f: Field, x: nat, y: nat)
    requires y < |f.rows| && |f.rows[y]| > 0
    ensures GetField(f, x + |f.rows[y]|, y) == GetField(f, x, y)
  {
    Arith.ModPeriod(x, |f.rows[y]|);
  }

  /** `Field::is_tree_at`. */
  predicate IsTreeAt(f: Field, x: nat, y: nat)
    requires y < |f.rows| && |f.rows[y]| > 0
  {
    GetField(f, x, y) == Tree
  }

  /** `Field::len`: the number of rows. */
  function Len(f: Field): nat
  {
    |f.rows|
  }
}
