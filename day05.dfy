/**
 * Day 5 (binary boarding), the driver: seat ids of all boarding passes,
 * the highest id, and the one free seat whose neighbours are both taken.
 */
module Day05 {
  import opened Wrappers
  import opened Text
  import opened Seqs
  import opened Day05BoardingPass

  /** The ids of a list of seats. */
  function Ids(seats: seq<Seat>): (ids: seq<int>)
    ensures |ids| == |seats| && forall i | 0 <= i < |seats| :: ids[i] == Id(seats[i])
  {
    seq(|seats|, i requires 0 <= i < |seats| => Id(seats[i]))
  }

  /**
   * `get_seats`: parses every line and returns the ids in ascending order;
   * the first malformed line aborts with its error.
   */
  method GetSeats(content: string) returns (r: Result<seq<int>, SeatParseError>)
    ensures CollectAll(Lines(content), Decode).Err? ==> r == Err(CollectAll(Lines(content), Decode).error)
    ensures CollectAll(Lines(content), Decode).Ok? ==>
      r.Ok? && Sorted(r.value) && multiset(r.value) == multiset(Ids(CollectAll(Lines(content), Decode).value))
  {
    var lines := Lines(content);
    var seats: seq<Seat> := [];
    for i := 0 to |lines|
      invariant CollectAll(lines[..i], Decode) == Ok(seats)
    {
      assert lines[..i + 1][..i] == lines[..i];
      var seat := FromStr(lines[i]);
      if seat.Err? {
        assert CollectAll(lines[..i + 1], Decode) == Err(seat.error);
        CollectAllStickyError(lines, Decode, i + 1);
        return Err(seat.error);
      }
      seats := seats + [seat.value];
    }
    assert lines[..|lines|] == lines;
    r := Ok(Sort(Ids(seats)));
  }

  /** Part one: the highest seat id, or 0 when there are no seats. */
  function HighestSeat(seats: seq<int>): (m: int)
    ensures seats == [] ==> m == 0
    ensures seats != [] ==> m in seats && forall i | 0 <= i < |seats| :: seats[i] <= m
  {
    if seats == [] then 0 else Max(seats)
  }

  /** A free id within `first..last` whose two neighbouring ids are taken. */
  predicate IsGap(taken: set<int>, first: int, last: int, v: int)
  {
    first <= v < last && v !in taken && v - 1 in taken && v + 1 in taken
  }

  /** The gaps among `lo..last`, in ascending order. */
  function GapsFrom(taken: set<int>, first: int, last: int, lo: int): (gaps: seq<int>)
    ensures forall v :: v in gaps <==> lo <= v && IsGap(taken, first, last, v)
    ensures forall i, j | 0 <= i < j < |gaps| :: gaps[i] < gaps[j]
    decreases last - lo
  {
    if lo >= last then []
    else
      var rest := GapsFrom(taken, first, last, lo + 1);
      if IsGap(taken, first, last, lo) then
        assert forall k | 0 <= k < |rest| :: rest[k] in rest;
        [lo] + rest
      else rest
  }

  /** `v` is a free seat of the list whose two neighbours are seats. */
  predicate IsEmptySeat(seats: seq<int>, v: int)
    requires |seats| > 0
  {
    IsGap(Elements(seats), seats[0], seats[|seats| - 1], v)
  }

  /** The set difference of `first..last` and the seats, kept where both neighbours are seats. */
  function EmptySeats(seats: seq<int>): (gaps: seq<int>)
    requires |seats| > 0
    ensures forall v :: v in gaps <==> IsEmptySeat(seats, v)
  {
    GapsFrom(Elements(seats), seats[0], seats[|seats| - 1], seats[0])
  }

  /**
   * `get_empty_seat`: needs a seat list (it unwraps the first and last) and
   * exactly one gap (it asserts so), and returns that gap.
   */
  function GetEmptySeat(seats: seq<int>): (v: int)
    requires |seats| > 0 && |EmptySeats(seats)| == 1
    ensures IsEmptySeat(seats, v)
    ensures forall w | IsEmptySeat(seats, w) :: w == v
  {
    var gaps := EmptySeats(seats);
    assert forall w | w in gaps :: w == gaps[0];
    gaps[0]
  }
}
