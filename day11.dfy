/**
 * Day 11, the driver: repeats a round of seating until a round changes
 * nothing.
 */
module Day11 {
  import opened Wrappers
  import opened Day11Cells

  /** `step` maps every well-formed map to a well-formed map. */
  ghost predicate KeepsShape(step: CellMap --> CellMap)
  {
    forall c | WellFormed(c) :: step.requires(c) && WellFormed(step(c))
  }

  /** Both rounds of the puzzle keep the map well formed. */
  lemma RoundsKeepShape()
    ensures KeepsShape(Next1) && KeepsShape(Next2)
  {
    forall c | WellFormed(c)
      ensures WellFormed(Next1(c)) && WellFormed(Next2(c))
    {
      NextKeepsShape(c);
    }
  }

  /** `step` applied `n` times to `s`. */
  function Iterate(step: CellMap --> CellMap, s: CellMap, n: nat): (r: CellMap)
    requires KeepsShape(step) && WellFormed(s)
    ensures WellFormed(r)
  {
    if n == 0 then s else step(Iterate(step, s, n - 1))
  }

  /** No round among the first `n` left its map unchanged. */
  ghost predicate ChangesFor(step: CellMap --> CellMap, s: CellMap, n: nat)
    requires KeepsShape(step) && WellFormed(s)
  {
    forall k | 0 <= k < n :: Iterate(step, s, k + 1) != Iterate(step, s, k)
  }

  /**
   * `run_til_no_change`: applies `step` until a round gives back the map it
   * was given, and returns that map. The source loops without bound; here at
   * most `fuel` rounds run and `None` reports that they all changed the map.
   */
  method RunTilNoChange(state: CellMap, step: CellMap --> CellMap, fuel: nat) returns (r: Option<CellMap>)
    requires KeepsShape(step) && WellFormed(state)
    ensures r.Some? ==> WellFormed(r.value) && step(r.value) == r.value
    ensures r.Some? ==> exists n: nat | n < fuel ::
      r.value == Iterate(step, state, n) && ChangesFor(step, state, n)
    ensures r.None? ==> ChangesFor(step, state, fuel)
    ensures fuel > 0 && step(state) == state ==> r == Some(state)
  {
    var prevState := state;
    var nextState := state;
    for i := 0 to fuel
      invariant nextState == Iterate(step, state, i) && ChangesFor(step, state, i)
    {
      prevState := nextState;
      nextState := step(prevState);
      if prevState == nextState {
        assert Iterate(step, state, 1) == step(state);
        return Some(prevState);
      }
    }
    assert fuel > 0 ==> Iterate(step, state, 1) == step(state);
    return None;
  }
}
