/**
 * Day 9 (encoding error): the first number that is not the sum of two of
 * the numbers just before it, and the contiguous run of numbers adding up
 * to it.
 */
module Day09 {
  import opened Wrappers
  import opened Text
  import opened Seqs

  /** Two different positions of `prev` at or after `a` (the second at or after `b`) add up to `target`. */
  predicate HasPair(prev: seq<int>, target: int, a: nat, b: nat)
  {
    exists i, j | a <= i < j < |prev| && b <= j :: prev[i] + prev[j] == target
  }

  /** The inner scan: `prev[a]` with one of `prev[b..]`. */
  function PairWith(prev: seq<int>, target: int, a: nat, b: nat): (found: bool)
    requires a < b
    ensures found <==> exists j | b <= j < |prev| :: prev[a] + prev[j] == target
    decreases |prev| - b
  {
    if b >= |prev| then false
    else prev[a] + prev[b] == target || PairWith(prev, target, a, b + 1)
  }

  /** The outer scan over first positions `a..`, in the order of the flattened pairs. */
  function AnyPairFrom(prev: seq<int>, target: int, a: nat): (found: bool)
    ensures found <==> HasPair(prev, target, a, 0)
    decreases |prev| - a
  {
    if a + 1 >= |prev| then false
    else
      AnyPairStep(prev, target, a);
      PairWith(prev, target, a, a + 1) || AnyPairFrom(prev, target, a + 1)
  }

  /** A pair from `a` on either starts at `a` or lies wholly after it. */
  lemma AnyPairStep(prev: seq<int>, target: int, a: nat)
    requires a + 1 < |prev|
    ensures HasPair(prev, target, a, 0) <==>
      (exists j | a + 1 <= j < |prev| :: prev[a] + prev[j] == target) || HasPair(prev, target, a + 1, 0)
  {
    if exists j | a + 1 <= j < |prev| :: prev[a] + prev[j] == target {
      var j :| a + 1 <= j < |prev| && prev[a] + prev[j] == target;
      assert a <= a < j < |prev|;
    }
    if HasPair(prev, target, a, 0) {
      var i, j :| a <= i < j < |prev| && prev[i] + prev[j] == target;
      if i == a {
        assert a + 1 <= j < |prev| && prev[a] + prev[j] == target;
      } else {
        assert a + 1 <= i < j < |prev| && 0 <= j;
      }
    }
  }

  /**
   * `is_sum_in_previous_x`: two entries at different positions among the
   * `x` entries before `position` add up to the entry at `position`. The
   * unsigned arithmetic needs `1 <= x <= position`.
   */
  function IsSumInPreviousX(input: seq<int>, position: nat, x: nat): bool
    requires position < |input| && 1 <= x <= position
  {
    AnyPairFrom(input[position - x..position], input[position], 0)
  }

  /** The check holds exactly when two earlier entries of the window add up to the entry. */
  lemma IsSumInPreviousXSpec(input: seq<int>, position: nat, x: nat)
    requires position < |input| && 1 <= x <= position
    ensures IsSumInPreviousX(input, position, x) <==>
      exists i, j | position - x <= i < j < position :: input[i] + input[j] == input[position]
  {
    WindowPairs(input, position, x);
  }

  lemma WindowPairs(input: seq<int>, position: nat, x: nat)
    requires position < |input| && 1 <= x <= position
    ensures HasPair(input[position - x..position], input[position], 0, 0) <==>
      exists i, j | position - x <= i < j < position :: input[i] + input[j] == input[position]
  {
    var prev := input[position - x..position];
    if HasPair(prev, input[position], 0, 0) {
      var i, j :| 0 <= i < j < |prev| && prev[i] + prev[j] == input[position];
      assert input[position - x + i] + input[position - x + j] == input[position];
    }
    if exists i, j | position - x <= i < j < position :: input[i] + input[j] == input[position] {
      var i, j :| position - x <= i < j < position && input[i] + input[j] == input[position];
      assert prev[i - (position - x)] + prev[j - (position - x)] == input[position];
    }
  }

  /** The first index at or after `from` whose entry fails the check. */
  function FirstWrongIndex(input: seq<int>, preambleSize: nat, from: nat): (r: Option<nat>)
    requires preambleSize >= 1 && from >= preambleSize
    ensures r.Some? ==> from <= r.value < |input| && !IsSumInPreviousX(input, r.value, preambleSize)
    ensures r.Some? ==> forall k | from <= k < r.value :: IsSumInPreviousX(input, k, preambleSize)
    ensures r.None? ==> forall k | from <= k < |input| :: IsSumInPreviousX(input, k, preambleSize)
    decreases |input| - from
  {
    if from >= |input| then None
    else if !IsSumInPreviousX(input, from, preambleSize) then Some(from)
    else FirstWrongIndex(input, preambleSize, from + 1)
  }

  /**
   * `find_first_wrong_number`: the entry at the first index from
   * `preambleSize` on that is not a sum of two of the `preambleSize` entries
   * before it. A zero preamble would underflow once an index is checked.
   */
  function FindFirstWrongNumber(input: seq<int>, preambleSize: nat): (r: Option<int>)
    requires preambleSize >= 1 || |input| <= preambleSize
    ensures r.Some? ==> exists k | preambleSize <= k < |input| ::
      (r.value == input[k] && !IsSumInPreviousX(input, k, preambleSize)
       && forall m | preambleSize <= m < k :: IsSumInPreviousX(input, m, preambleSize))
    ensures r.None? ==> forall k | preambleSize <= k < |input| :: IsSumInPreviousX(input, k, preambleSize)
  {
    if |input| <= preambleSize then None
    else
      match FirstWrongIndex(input, preambleSize, preambleSize)
      case None => None
      case Some(k) => Some(input[k])
  }

  /** As the code reads: a run of at least three entries that stops before the last entry. */
  predicate RangeAsWritten(input: seq<int>, number: int, lo: nat, hi: nat)
  {
    lo + 3 <= hi < |input| && Sum(input[lo..hi]) == number
  }

  /** What the search is for: a contiguous run of at least two entries adding up to `number`. */
  predicate SummingRange(input: seq<int>, number: int, lo: nat, hi: nat)
  {
    lo + 2 <= hi <= |input| && Sum(input[lo..hi]) == number
  }

  /** `(lo, hi)` comes before `(lo', hi')` in the search order: by start, then by end. */
  predicate Before(lo: nat, hi: nat, lo': nat, hi': nat)
  {
    lo < lo' || (lo == lo' && hi < hi')
  }

  /**
   * `find_set_for_number` as written: the inner loop starts at `idx + 3` and
   * stops before `len`, so a run of two entries or one ending at the last
   * entry is never found. The bounds `lo..hi` of the run found, or `0..0`.
   */
  method FindSetAsWritten(input: seq<int>, number: int) returns (lo: nat, hi: nat)
    ensures hi == 0 ==> lo == 0 && forall l: nat, h: nat :: !RangeAsWritten(input, number, l, h)
    ensures hi != 0 ==> (RangeAsWritten(input, number, lo, hi)
      && forall l: nat, h: nat | Before(l, h, lo, hi) :: !RangeAsWritten(input, number, l, h))
  {
    for idx := 0 to |input|
      invariant forall l: nat, h: nat | l < idx :: !RangeAsWritten(input, number, l, h)
    {
      // a Rust range whose start is past its end is empty
      var idy := idx + 3;
      while idy < |input|
        invariant forall l: nat, h: nat | l < idx || (l == idx && h < idy) :: !RangeAsWritten(input, number, l, h)
      {
        if Sum(input[idx..idy]) == number {
          return idx, idy;
        }
        idy := idy + 1;
      }
    }
    return 0, 0;
  }

  /** With entries 1, 2, 5, 7 the run 1, 2 adds up to 3, but the code finds nothing. */
  lemma AsWrittenMissesPairs()
    ensures SummingRange([1, 2, 5, 7], 3, 0, 2)
    ensures forall l: nat, h: nat :: !RangeAsWritten([1, 2, 5, 7], 3, l, h)
  {
    var input := [1, 2, 5, 7];
    assert input[0..2] == [1, 2];
    assert Sum([2]) == 2;
    forall l: nat, h: nat | l + 3 <= h < |input|
      ensures Sum(input[l..h]) != 3
    {
      assert l == 0 && h == 3;
      assert input[0..3] == [1, 2, 5];
      assert Sum([5]) == 5;
      assert Sum([2, 5]) == 7;
    }
  }

  /** With entries 1, 1, 1 the whole list adds up to 3, but the code never includes the last entry. */
  lemma AsWrittenMissesLastEntry()
    ensures SummingRange([1, 1, 1], 3, 0, 3)
    ensures forall l: nat, h: nat :: !RangeAsWritten([1, 1, 1], 3, l, h)
  {
    var input := [1, 1, 1];
    assert input[0..3] == [1, 1, 1];
    assert Sum([1]) == 1;
    assert Sum([1, 1]) == 2;
  }

  /**
   * The search corrected to what its comment describes: runs of at least
   * two entries, up to and including the last entry. The first run in
   * start-then-end order, or `0..0` when there is none.
   */
  method FindSetForNumber(input: seq<int>, number: int) returns (lo: nat, hi: nat)
    ensures hi == 0 ==> lo == 0 && forall l: nat, h: nat :: !SummingRange(input, number, l, h)
    ensures hi != 0 ==> (SummingRange(input, number, lo, hi)
      && forall l: nat, h: nat | Before(l, h, lo, hi) :: !SummingRange(input, number, l, h))
  {
    for idx := 0 to |input|
      invariant forall l: nat, h: nat | l < idx :: !SummingRange(input, number, l, h)
    {
      for idy := idx + 2 to |input| + 1
        invariant forall l: nat, h: nat | l < idx || (l == idx && h < idy) :: !SummingRange(input, number, l, h)
      {
        if Sum(input[idx..idy]) == number {
          return idx, idy;
        }
      }
    }
    return 0, 0;
  }

  /** `add_largest_and_smallest`: sorts a copy and adds its first and last entries; an empty run panics. */
  function AddLargestAndSmallest(input: seq<int>): (r: int)
    requires |input| > 0
    ensures r == Min(input) + Max(input)
  {
    var sorted := Sort(input);
    SortedEnds(input, sorted);
    sorted[0] + sorted[|sorted| - 1]
  }

  /**
   * `solve_encryption_weakness` as written: the smallest plus the largest
   * entry of the run the search as written finds. When that search finds no
   * run it returns the empty slice and `add_largest_and_smallest` panics.
   */
  method SolveEncryptionWeaknessAsWritten(input: seq<int>, number: int) returns (r: int)
    requires exists l: nat, h: nat :: RangeAsWritten(input, number, l, h)
    ensures exists l: nat, h: nat ::
              && RangeAsWritten(input, number, l, h)
              && (forall l': nat, h': nat | Before(l', h', l, h) :: !RangeAsWritten(input, number, l', h'))
              && r == Min(input[l..h]) + Max(input[l..h])
  {
    var lo, hi := FindSetAsWritten(input, number);
    r := AddLargestAndSmallest(input[lo..hi]);
  }

  /**
   * `solve_encryption_weakness` over the corrected search: the smallest plus
   * the largest entry of the first run of two or more entries adding up to
   * `number`; with no such run the source panics.
   */
  method SolveEncryptionWeakness(input: seq<int>, number: int) returns (r: int)
    requires exists l: nat, h: nat :: SummingRange(input, number, l, h)
    ensures exists l: nat, h: nat ::
              && SummingRange(input, number, l, h)
              && (forall l': nat, h': nat | Before(l', h', l, h) :: !SummingRange(input, number, l', h'))
              && r == Min(input[l..h]) + Max(input[l..h])
  {
    var lo, hi := FindSetForNumber(input, number);
    r := AddLargestAndSmallest(input[lo..hi]);
  }
}
