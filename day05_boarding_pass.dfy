/**
 * Day 5 (binary boarding), the seat code: seven front/back characters pick
 * the row out of 0..=127 and three left/right characters pick the column
 * out of 0..=7 by repeated halving.
 */
module Day05BoardingPass {
  import opened Wrappers
  import opened Arith

  datatype Seat = Seat(row: nat, column: nat)

  datatype RowSelect = Front | Back
  datatype ColumnSelect = Left | Right

  datatype SeatParseError = UnknownRowChar(unknown: char) | UnknownColumnChar(unknown: char) | MalformedInput

  /** `get_id`: eight seats per row. */
  function Id(s: Seat): (id: nat)
    ensures s.row < 128 && s.column < 8 ==> id < 1024
    ensures id % 8 == s.column % 8
  {
    s.row * 8 + s.column
  }

  /** Seat ids tell seats with a column in 0..=7 apart. */
  lemma IdInjective(a: Seat, b: Seat)
    requires a.column < 8 && b.column < 8
    ensures Id(a) == Id(b) <==> a == b
  {
  }

  /**
   * The number a sequence of halving directives selects within a range of
   * 2^|lower| values: most significant first, a directive keeping the lower
   * half is a 0 and one keeping the upper half a 1.
   */
  function Position(lower: seq<bool>): (n: nat)
    ensures n < Pow2(|lower|)
  {
    if lower == [] then 0
    else 2 * Position(lower[..|lower| - 1]) + (if lower[|lower| - 1] then 0 else 1)
  }

  /** The directives that select `n` among 2^width values; the inverse of `Position`. */
  function Directives(n: nat, width: nat): (lower: seq<bool>)
    ensures |lower| == width
  {
    if width == 0 then [] else Directives(n / 2, width - 1) + [n % 2 == 0]
  }

  lemma {:induction false} PositionOfDirectives(n: nat, width: nat)
    requires n < Pow2(width)
    ensures Position(Directives(n, width)) == n
  {
    if width > 0 {
      var d := Directives(n, width);
      assert d[..|d| - 1] == Directives(n / 2, width - 1);
      PositionOfDirectives(n / 2, width - 1);
    }
  }

  lemma {:induction false} DirectivesOfPosition(lower: seq<bool>)
    ensures Directives(Position(lower), |lower|) == lower
  {
    if lower != [] {
      var init := lower[..|lower| - 1];
      DirectivesOfPosition(init);
      assert lower == init + [lower[|lower| - 1]];
    }
  }

  /** One halving step: the lower end moves by the upper half's width or stays. */
  lemma HalveStep(p: nat, bit: nat, rem: nat)
    requires rem >= 1
    ensures p * Pow2(rem) + bit * Pow2(rem - 1) == (2 * p + bit) * Pow2(rem - 1)
  {
    var h := Pow2(rem - 1);
    assert Pow2(rem) == 2 * h;
    calc {
      p * Pow2(rem) + bit * h;
      p * (2 * h) + bit * h;
      (2 * p) * h + bit * h;
      (2 * p + bit) * h;
    }
  }

  /**
   * `binary_search`: halves the range `min0..=max0` once per directive.
   * The range holds exactly 2^|lower| values, so one value is left at the end
   * (the source asserts `min == max`).
   */
  method BinarySearch(lower: seq<bool>, min0: nat, max0: nat) returns (r: nat)
    requires max0 + 1 == min0 + Pow2(|lower|)
    ensures r == min0 + Position(lower)
    ensures min0 <= r <= max0
  {
    var min, max := min0, max0;
    for i := 0 to |lower|
      invariant min == min0 + Position(lower[..i]) * Pow2(|lower| - i)
      invariant max + 1 == min + Pow2(|lower| - i)
      invariant min0 <= min && max <= max0
    {
      var rem := |lower| - i;
      var p := Position(lower[..i]);
      assert lower[..i + 1][..i] == lower[..i];
      var half := (min + max + 1) / 2;
      assert half == min + Pow2(rem - 1);
      if lower[i] {
        HalveStep(p, 0, rem);
        max := half - 1;
      } else {
        HalveStep(p, 1, rem);
        min := half;
      }
    }
    assert lower[..|lower|] == lower;
    assert min == max;
    r := min;
  }

  function ParseRowSelect(c: char): (r: Result<RowSelect, char>)
    ensures r.Ok? <==> c == 'F' || c == 'B'
  {
    match c
    case 'F' => Ok(Front)
    case 'B' => Ok(Back)
    case _ => Err(c)
  }

  function ParseColumnSelect(c: char): (r: Result<ColumnSelect, char>)
    ensures r.Ok? <==> c == 'L' || c == 'R'
  {
    match c
    case 'L' => Ok(Left)
    case 'R' => Ok(Right)
    case _ => Err(c)
  }

  function RowLower(rows: seq<RowSelect>): (lower: seq<bool>)
    ensures |lower| == |rows| && forall i | 0 <= i < |rows| :: lower[i] == (rows[i] == Front)
  {
    seq(|rows|, i requires 0 <= i < |rows| => rows[i] == Front)
  }

  function ColumnLower(columns: seq<ColumnSelect>): (lower: seq<bool>)
    ensures |lower| == |columns| && forall i | 0 <= i < |columns| :: lower[i] == (columns[i] == Left)
  {
    seq(|columns|, i requires 0 <= i < |columns| => columns[i] == Left)
  }

  /** What `Seat::from_str` computes. */
  function Decode(s: string): (r: Result<Seat, SeatParseError>)
    ensures r.Ok? ==> r.value.row < 128 && r.value.column < 8 && Id(r.value) < 1024
    ensures r == Err(MalformedInput) <==> |s| != 10
  {
    if |s| != 10 then Err(MalformedInput)
    else match CollectAll(s[..7], ParseRowSelect)
      case Err(c) => Err(UnknownRowChar(c))
      case Ok(rows) =>
        match CollectAll(s[7..], ParseColumnSelect)
        case Err(c) => Err(UnknownColumnChar(c))
        case Ok(columns) => Ok(Seat(Position(RowLower(rows)), Position(ColumnLower(columns))))
  }

  /**
   * `Seat::from_str`: the length check, then the row characters, then the
   * column characters, each searched with `binary_search`.
   */
  method FromStr(s: string) returns (r: Result<Seat, SeatParseError>)
    ensures r == Decode(s)
  {
    if |s| != 10 {
      return Err(MalformedInput);
    }
    var rowInfo := CollectAll(s[..7], ParseRowSelect);
    if rowInfo.Err? {
      return Err(UnknownRowChar(rowInfo.error));
    }
    var row := BinarySearch(RowLower(rowInfo.value), 0, 127);
    var columnInfo := CollectAll(s[7..], ParseColumnSelect);
    if columnInfo.Err? {
      return Err(UnknownColumnChar(columnInfo.error));
    }
    var column := BinarySearch(ColumnLower(columnInfo.value), 0, 7);
    r := Ok(Seat(row, column));
  }

  /** Row characters are checked before column characters. */
  lemma DecodeErrors(s: string)
    requires |s| == 10
    ensures Decode(s).Err? <==> exists i | 0 <= i < 10 :: if i < 7 then s[i] != 'F' && s[i] != 'B' else s[i] != 'L' && s[i] != 'R'
    ensures Decode(s).Err? && Decode(s).error.UnknownRowChar? ==> Decode(s).error.unknown in s[..7] && Decode(s).error.unknown != 'F' && Decode(s).error.unknown != 'B'
    ensures Decode(s).Err? && Decode(s).error.UnknownColumnChar? ==> Decode(s).error.unknown in s[7..] && Decode(s).error.unknown != 'L' && Decode(s).error.unknown != 'R'
    ensures Decode(s).Err? && Decode(s).error.UnknownColumnChar? ==> forall i | 0 <= i < 7 :: s[i] == 'F' || s[i] == 'B'
  {
    var rows, columns := CollectAll(s[..7], ParseRowSelect), CollectAll(s[7..], ParseColumnSelect);
    if Decode(s).Err? {
      if rows.Err? {
        CollectAllFirstError(s[..7], ParseRowSelect);
        var i :| 0 <= i < 7 && ParseRowSelect(s[..7][i]) == Err(rows.error) && forall j | 0 <= j < i :: ParseRowSelect(s[..7][j]).Ok?;
        assert s[i] == s[..7][i];
      } else {
        CollectAllFirstError(s[7..], ParseColumnSelect);
        var i :| 0 <= i < 3 && ParseColumnSelect(s[7..][i]) == Err(columns.error) && forall j | 0 <= j < i :: ParseColumnSelect(s[7..][j]).Ok?;
        assert s[7 + i] == s[7..][i];
      }
    } else {
      forall i | 0 <= i < 10
        ensures if i < 7 then s[i] == 'F' || s[i] == 'B' else s[i] == 'L' || s[i] == 'R'
      {
        if i < 7 {
          assert s[i] == s[..7][i];
        } else {
          assert s[i] == s[7..][i - 7];
        }
      }
    }
    if Decode(s).Err? && Decode(s).error.UnknownColumnChar? {
      forall i | 0 <= i < 7
        ensures s[i] == 'F' || s[i] == 'B'
      {
        assert s[i] == s[..7][i];
      }
    }
  }

  /** The code of a seat: row directives then column directives. */
  function Encode(seat: Seat): (s: string)
    requires seat.row < 128 && seat.column < 8
    ensures |s| == 10
  {
    var rows := Directives(seat.row, 7);
    var columns := Directives(seat.column, 3);
    seq(7, i requires 0 <= i < 7 => if rows[i] then 'F' else 'B')
      + seq(3, i requires 0 <= i < 3 => if columns[i] then 'L' else 'R')
  }

  /** Decoding the code of a seat gives that seat back. */
  lemma DecodeEncode(seat: Seat)
    requires seat.row < 128 && seat.column < 8
    ensures Decode(Encode(seat)) == Ok(seat)
  {
    var s := Encode(seat);
    var rowBits, columnBits := Directives(seat.row, 7), Directives(seat.column, 3);
    assert Pow2(3) == 8 && Pow2(7) == 128;
    var rows := CollectAll(s[..7], ParseRowSelect);
    assert forall i | 0 <= i < 7 :: ParseRowSelect(s[..7][i]).Ok?;
    assert RowLower(rows.value) == rowBits;
    var columns := CollectAll(s[7..], ParseColumnSelect);
    assert forall i | 0 <= i < 3 :: ParseColumnSelect(s[7..][i]).Ok?;
    assert ColumnLower(columns.value) == columnBits;
    PositionOfDirectives(seat.row, 7);
    PositionOfDirectives(seat.column, 3);
  }

  /** Every code that decodes is the code of the seat it decodes to. */
  lemma EncodeDecode(s: string)
    requires Decode(s).Ok?
    ensures Encode(Decode(s).value) == s
  {
    var rows := CollectAll(s[..7], ParseRowSelect).value;
    var columns := CollectAll(s[7..], ParseColumnSelect).value;
    DirectivesOfPosition(RowLower(rows));
    DirectivesOfPosition(ColumnLower(columns));
    var e := Encode(Decode(s).value);
    forall i | 0 <= i < 10
      ensures e[i] == s[i]
    {
      if i < 7 {
        assert s[i] == s[..7][i];
      } else {
        assert s[i] == s[7..][i - 7];
      }
    }
  }
}
