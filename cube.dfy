/**
 * Conway cubes (day 17): a sparse automaton on the integer lattice of
 * dimension `dim`.  The active cells are a set of positions; one step keeps an
 * active cell alive with 2 or 3 active neighbours and activates an inactive
 * cell with exactly 3.  The three fixed-dimension position structs of the
 * program (3, 4 and 5 coordinates) are one position type here: a sequence of
 * `dim` integers.
 */
module Cube {
  import opened Text
  import opened Seqs

  type Position = seq<int>

  /** The automaton's state: the set of active cells. */
  datatype Collection = Collection(activeCells: set<Position>)

  /** Every active cell has `dim` coordinates. */
  predicate WellFormed(c: Collection, dim: nat)
  {
    forall p | p in c.activeCells :: |p| == dim
  }

  // ----- positions -------------------------------------------------------

  /** Component-wise sum of two positions of the same dimension. */
  function Add(a: Position, b: Position): (r: Position)
    requires |a| == |b|
    ensures |r| == |a|
    ensures forall i | 0 <= i < |r| :: r[i] == a[i] + b[i]
  {
    seq(|a|, i requires 0 <= i < |a| => a[i] + b[i])
  }

  /** Translating by a fixed position is injective. */
  lemma AddInjective(a: Position, b: Position, p: Position)
    requires |a| == |p| && |b| == |p|
    ensures Add(a, p) == Add(b, p) ==> a == b
  {
    if Add(a, p) == Add(b, p) {
      forall i | 0 <= i < |a|
        ensures a[i] == b[i]
      {
        assert Add(a, p)[i] == Add(b, p)[i];
      }
    }
  }

  function Zeros(n: nat): (r: Position)
    ensures |r| == n && forall i | 0 <= i < n :: r[i] == 0
  {
    seq(n, _ => 0)
  }

  /** A position built from a planar point: the extra axes are zero. */
  function FromPair(x: int, y: int, dim: nat): (r: Position)
    requires dim >= 2
    ensures |r| == dim && r[0] == x && r[1] == y
    ensures forall i | 2 <= i < dim :: r[i] == 0
  {
    [x, y] + Zeros(dim - 2)
  }

  /** Equality of positions built from pairs is equality of the pairs. */
  lemma FromPairInjective(x1: int, y1: int, x2: int, y2: int, dim: nat)
    requires dim >= 2
    ensures FromPair(x1, y1, dim) == FromPair(x2, y2, dim) <==> x1 == x2 && y1 == y2
  {
    if x1 == x2 && y1 == y2 {
      assert FromPair(x1, y1, dim) == [x1, y1] + Zeros(dim - 2);
    }
  }

  // ----- neighbour offsets -----------------------------------------------

  /** Every coordinate is -1, 0 or 1. */
  predicate UnitCube(v: Position)
  {
    forall i | 0 <= i < |v| :: -1 <= v[i] <= 1
  }

  function Prefixed(c: int, vs: seq<Position>): (r: seq<Position>)
    ensures |r| == |vs|
    ensures forall i | 0 <= i < |vs| :: r[i] == [c] + vs[i]
  {
    seq(|vs|, i requires 0 <= i < |vs| => [c] + vs[i])
  }

  /**
   * The cartesian product of `d` copies of `-1..=1`, first axis slowest, as
   * `multi_cartesian_product` enumerates it.
   */
  function Cartesian(d: nat): seq<Position>
  {
    if d == 0 then [[]]
    else
      var rest := Cartesian(d - 1);
      Prefixed(-1, rest) + Prefixed(0, rest) + Prefixed(1, rest)
  }

  function Pow3(d: nat): nat
  {
    if d == 0 then 1 else 3 * Pow3(d - 1)
  }

  lemma PrefixedMember(c: int, vs: seq<Position>, v: Position)
    ensures v in Prefixed(c, vs) <==> |v| > 0 && v[0] == c && v[1..] in vs
  {
    if |v| > 0 && v[0] == c && v[1..] in vs {
      var i :| 0 <= i < |vs| && vs[i] == v[1..];
      assert Prefixed(c, vs)[i] == v;
    }
    if v in Prefixed(c, vs) {
      var i :| 0 <= i < |vs| && Prefixed(c, vs)[i] == v;
      assert v[1..] == vs[i];
    }
  }

  /** The product holds exactly the vectors of length `d` over {-1, 0, 1}. */
  lemma {:induction false} CartesianMember(d: nat, v: Position)
    ensures v in Cartesian(d) <==> |v| == d && UnitCube(v)
  {
    if d > 0 {
      var rest := Cartesian(d - 1);
      PrefixedMember(-1, rest, v);
      PrefixedMember(0, rest, v);
      PrefixedMember(1, rest, v);
      if |v| > 0 {
        CartesianMember(d - 1, v[1..]);
        UnitCubeCons(v);
      }
    }
  }

  /** A vector is in the unit cube when its head and its tail are. */
  lemma UnitCubeCons(v: Position)
    requires |v| > 0
    ensures UnitCube(v) <==> -1 <= v[0] <= 1 && UnitCube(v[1..])
  {
    if -1 <= v[0] <= 1 && UnitCube(v[1..]) {
      forall i | 0 <= i < |v|
        ensures -1 <= v[i] <= 1
      {
        if i > 0 {
          assert v[i] == v[1..][i - 1];
        }
      }
    }
  }

  lemma CartesianLengths(d: nat)
    ensures forall v | v in Cartesian(d) :: |v| == d
  {
    forall v | v in Cartesian(d)
      ensures |v| == d
    {
      CartesianMember(d, v);
    }
  }

  lemma {:induction false} CartesianSize(d: nat)
    ensures |Cartesian(d)| == Pow3(d)
  {
    if d > 0 {
      CartesianSize(d - 1);
    }
  }

  lemma PrefixedDistinct(c: int, vs: seq<Position>)
    requires Distinct(vs)
    ensures Distinct(Prefixed(c, vs))
  {
    var r := Prefixed(c, vs);
    forall i, j | 0 <= i < j < |vs|
      ensures r[i] != r[j]
    {
      assert r[i][1..] == vs[i];
      assert r[j][1..] == vs[j];
    }
  }

  lemma {:induction false} CartesianDistinct(d: nat)
    ensures Distinct(Cartesian(d))
  {
    if d > 0 {
      var rest := Cartesian(d - 1);
      CartesianDistinct(d - 1);
      var a, b, e := Prefixed(-1, rest), Prefixed(0, rest), Prefixed(1, rest);
      PrefixedDistinct(-1, rest);
      PrefixedDistinct(0, rest);
      PrefixedDistinct(1, rest);
      forall x | x in a
        ensures x !in b
      {
        PrefixedMember(-1, rest, x);
        PrefixedMember(0, rest, x);
      }
      DistinctConcat(a, b);
      forall x | x in a + b
        ensures x !in e
      {
        PrefixedMember(-1, rest, x);
        PrefixedMember(0, rest, x);
        PrefixedMember(1, rest, x);
      }
      DistinctConcat(a + b, e);
    }
  }

  /**
   * The neighbour offsets of `step`: the product of `dim` copies of `-1..=1`
   * without the position built from `(0, 0)`.
   */
  function NeighbourOffsets(dim: nat): (r: seq<Position>)
    requires dim >= 2
    ensures forall o | o in r :: |o| == dim
  {
    CartesianLengths(dim);
    Filter(Cartesian(dim), NotOrigin(dim))
  }

  /** The test `step` filters the product with: not the position built from `(0, 0)`. */
  function NotOrigin(dim: nat): Position -> bool
    requires dim >= 2
  {
    o => o != FromPair(0, 0, dim)
  }

  /** An offset is a non-zero vector of {-1, 0, 1}^dim, and every such vector is one. */
  lemma NeighbourOffsetsMember(dim: nat, o: Position)
    requires dim >= 2
    ensures o in NeighbourOffsets(dim) <==> |o| == dim && UnitCube(o) && o != Zeros(dim)
  {
    CartesianMember(dim, o);
    assert FromPair(0, 0, dim) == Zeros(dim);
  }

  /** `offsets` lists every non-zero vector of {-1, 0, 1}^dim, each exactly once. */
  ghost predicate OffsetsOf(offsets: seq<Position>, dim: nat)
  {
    && Distinct(offsets)
    && (forall o | o in offsets :: |o| == dim && UnitCube(o) && o != Zeros(dim))
    && (forall o: Position | |o| == dim && UnitCube(o) && o != Zeros(dim) :: o in offsets)
  }

  /**
   * The offsets of `step` are the non-zero vectors of {-1, 0, 1}^dim, each
   * once, so there are 3^dim - 1 of them.
   */
  lemma NeighbourOffsetsSpec(dim: nat)
    requires dim >= 2
    ensures OffsetsOf(NeighbourOffsets(dim), dim)
    ensures |NeighbourOffsets(dim)| == Pow3(dim) - 1
  {
    var offsets := NeighbourOffsets(dim);
    forall o | o in offsets
      ensures |o| == dim && UnitCube(o) && o != Zeros(dim)
    {
      NeighbourOffsetsMember(dim, o);
    }
    forall o: Position | |o| == dim && UnitCube(o) && o != Zeros(dim)
      ensures o in offsets
    {
      NeighbourOffsetsMember(dim, o);
    }
    NeighbourOffsetsDistinct(dim);
    NeighbourOffsetsCount(dim);
  }

  lemma NeighbourOffsetsDistinct(dim: nat)
    requires dim >= 2
    ensures Distinct(NeighbourOffsets(dim))
  {
    CartesianDistinct(dim);
    FilterDistinct(Cartesian(dim), NotOrigin(dim));
  }

  lemma NeighbourOffsetsCount(dim: nat)
    requires dim >= 2
    ensures |NeighbourOffsets(dim)| == Pow3(dim) - 1
  {
    var zero := FromPair(0, 0, dim);
    var keep := NotOrigin(dim);
    assert zero == Zeros(dim);
    assert UnitCube(zero);
    CartesianDistinct(dim);
    CartesianSize(dim);
    CartesianMember(dim, zero);
    assert !keep(zero);
    assert forall y | y in Cartesian(dim) && y != zero :: keep(y);
    FilterOutOne(Cartesian(dim), keep, zero);
  }

  // ----- the neighbourhood rule ------------------------------------------

  /** `q` is one of the 3^dim - 1 cells touching `p`. */
  predicate IsNeighbour(p: Position, q: Position)
  {
    |q| == |p| && q != p && forall i | 0 <= i < |p| :: -1 <= q[i] - p[i] <= 1
  }

  lemma NeighbourSymmetric(p: Position, q: Position)
    ensures IsNeighbour(p, q) <==> IsNeighbour(q, p)
  {
  }

  /** Number of active cells touching `p`: the reference for every count `step` makes. */
  function ActiveNeighbourCount(cells: set<Position>, p: Position): nat
  {
    |set q | q in cells && IsNeighbour(p, q)|
  }

  /** The survival/birth rule: alive next with 2 or 3 active neighbours if active, with 3 if not. */
  predicate Alive(cells: set<Position>, p: Position)
  {
    var n := ActiveNeighbourCount(cells, p);
    if p in cells then n == 2 || n == 3 else n == 3
  }

  /** The cells `step` considers: the active cells and every offset from one. */
  function Candidates(cells: set<Position>, dim: nat): set<Position>
    requires dim >= 2
  {
    cells + set p, o | p in cells && o in NeighbourOffsets(dim) && |o| == |p| :: Add(o, p)
  }

  /** The next generation, as a set comprehension over the candidates. */
  function NextGen(c: Collection, dim: nat): Collection
    requires dim >= 2
  {
    Collection(set p | p in Candidates(c.activeCells, dim) && Alive(c.activeCells, p))
  }

  /** `neighbor_offsets.iter().map(|off| *off + p)`. */
  function Around(offsets: seq<Position>, p: Position): (r: seq<Position>)
    requires forall o | o in offsets :: |o| == |p|
    ensures |r| == |offsets|
    ensures forall i | 0 <= i < |r| :: r[i] == Add(offsets[i], p)
  {
    seq(|offsets|, i requires 0 <= i < |offsets| => Add(offsets[i], p))
  }

  /** A cell around `p` is a neighbour of `p`. */
  lemma AroundSound(offsets: seq<Position>, dim: nat, p: Position, q: Position)
    requires OffsetsOf(offsets, dim) && |p| == dim
    requires q in Around(offsets, p)
    ensures IsNeighbour(p, q)
  {
    var around := Around(offsets, p);
    var i :| 0 <= i < |around| && around[i] == q;
    var o := offsets[i];
    assert o in offsets;
    assert q != p by {
      var zero := Zeros(dim);
      assert o != zero;
      var k :| 0 <= k < dim && o[k] != zero[k];
      assert q[k] == o[k] + p[k];
    }
  }

  /** Every neighbour of `p` is around `p`. */
  lemma AroundComplete(offsets: seq<Position>, dim: nat, p: Position, q: Position)
    requires OffsetsOf(offsets, dim) && |p| == dim
    requires IsNeighbour(p, q)
    ensures q in Around(offsets, p)
  {
    var o := seq(dim, k requires 0 <= k < dim => q[k] - p[k]);
    assert UnitCube(o);
    assert o != Zeros(dim) by {
      var k :| 0 <= k < dim && q[k] != p[k];
      assert o[k] != 0;
    }
    assert o in offsets;
    var i :| 0 <= i < |offsets| && offsets[i] == o;
    var sum := Add(o, p);
    assert sum == q by {
      assert |sum| == |q|;
      assert forall k | 0 <= k < dim :: sum[k] == q[k];
    }
    assert Around(offsets, p)[i] == q;
  }

  /** The cells around `p` are exactly its neighbours, each listed once. */
  lemma AroundIsNeighbourhood(offsets: seq<Position>, dim: nat, p: Position)
    requires OffsetsOf(offsets, dim) && |p| == dim
    ensures Distinct(Around(offsets, p))
    ensures forall q :: q in Around(offsets, p) <==> IsNeighbour(p, q)
  {
    var around := Around(offsets, p);
    forall i, j | 0 <= i < j < |around|
      ensures around[i] != around[j]
    {
      AddInjective(offsets[i], offsets[j], p);
    }
    forall q
      ensures q in around <==> IsNeighbour(p, q)
    {
      if q in around {
        AroundSound(offsets, dim, p, q);
      }
      if IsNeighbour(p, q) {
        AroundComplete(offsets, dim, p, q);
      }
    }
  }

  /** The cells of `ps` that are active: one side of the partition in `step`. */
  function ActiveAmong(ps: seq<Position>, cells: set<Position>): (r: seq<Position>)
    ensures forall q | q in r :: q in ps && q in cells
    ensures forall q | q in ps && q in cells :: q in r
  {
    if ps == [] then []
    else (if ps[0] in cells then [ps[0]] else []) + ActiveAmong(ps[1..], cells)
  }

  /** The cells of `ps` that are inactive: the other side of the partition. */
  function InactiveAmong(ps: seq<Position>, cells: set<Position>): (r: seq<Position>)
    ensures forall q | q in r :: q in ps && q !in cells
    ensures forall q | q in ps && q !in cells :: q in r
  {
    if ps == [] then []
    else (if ps[0] !in cells then [ps[0]] else []) + InactiveAmong(ps[1..], cells)
  }

  lemma {:induction false} ActiveAmongDistinct(ps: seq<Position>, cells: set<Position>)
    requires Distinct(ps)
    ensures Distinct(ActiveAmong(ps, cells))
  {
    if ps != [] {
      ActiveAmongDistinct(ps[1..], cells);
      assert ps[0] !in ps[1..];
      var r := ActiveAmong(ps, cells);
      if ps[0] in cells {
        DistinctConcat([ps[0]], ActiveAmong(ps[1..], cells));
      } else {
        assert r == ActiveAmong(ps[1..], cells);
      }
    }
  }

  /**
   * Counting the active cells among the offsets around `p`, as `step` does,
   * gives the number of active neighbours of `p`.
   */
  lemma CountAroundIsNeighbourCount(cells: set<Position>, offsets: seq<Position>, dim: nat, p: Position)
    requires OffsetsOf(offsets, dim) && |p| == dim
    ensures |ActiveAmong(Around(offsets, p), cells)| == ActiveNeighbourCount(cells, p)
  {
    var around := Around(offsets, p);
    AroundIsNeighbourhood(offsets, dim, p);
    var active := ActiveAmong(around, cells);
    ActiveAmongDistinct(around, cells);
    DistinctCard(active);
    assert (set q | q in active) == (set q | q in cells && IsNeighbour(p, q));
  }

  /**
   * The rule, for every position of the right dimension: a cell is active in
   * the next generation iff `Alive` holds.  For an inactive cell this means
   * it is among the candidates whenever it has 3 active neighbours.
   */
  lemma NextGenRule(c: Collection, dim: nat, p: Position)
    requires dim >= 2 && WellFormed(c, dim) && |p| == dim
    ensures p in NextGen(c, dim).activeCells <==> Alive(c.activeCells, p)
  {
    var cells := c.activeCells;
    if Alive(cells, p) && p !in cells {
      var around := set q | q in cells && IsNeighbour(p, q);
      assert |around| == 3;
      var q :| q in around;
      NeighbourSymmetric(p, q);
      var offsets := NeighbourOffsets(dim);
      NeighbourOffsetsSpec(dim);
      AroundComplete(offsets, dim, q, p);
      var i :| 0 <= i < |offsets| && Around(offsets, q)[i] == p;
      assert offsets[i] in offsets;
    }
  }

  /** Every cell of the next generation is active now or touches an active cell. */
  lemma NextGenNearActive(c: Collection, dim: nat, p: Position)
    requires dim >= 2 && WellFormed(c, dim)
    requires p in NextGen(c, dim).activeCells
    ensures p in c.activeCells || exists q :: q in c.activeCells && IsNeighbour(q, p)
  {
    var cells := c.activeCells;
    if p !in cells {
      var offsets := NeighbourOffsets(dim);
      var q, o :| q in cells && o in offsets && |o| == |q| && Add(o, q) == p;
      var i :| 0 <= i < |offsets| && offsets[i] == o;
      NeighbourOffsetsSpec(dim);
      assert Around(offsets, q)[i] == p;
      AroundSound(offsets, dim, q, p);
    }
  }

  /** The next generation keeps the dimension of the positions. */
  lemma NextGenWellFormed(c: Collection, dim: nat)
    requires dim >= 2 && WellFormed(c, dim)
    ensures WellFormed(NextGen(c, dim), dim)
  {
  }

  /** With no active cell, nothing becomes active. */
  lemma NextGenOfEmpty(dim: nat)
    requires dim >= 2
    ensures NextGen(Collection({}), dim) == Collection({})
  {
    assert Candidates({}, dim) == {};
  }

  // ----- step and multi_step ---------------------------------------------

  /** The inactive cells around the cells of `done`, as `neighbors_to_check` collects them. */
  ghost function InactiveAround(done: set<Position>, cells: set<Position>, offsets: seq<Position>): set<Position>
  {
    set p, o | p in done && o in offsets && |o| == |p| && Add(o, p) !in cells :: Add(o, p)
  }

  lemma InactiveAroundGrow(done: set<Position>, a: Position, cells: set<Position>, offsets: seq<Position>)
    requires forall o | o in offsets :: |o| == |a|
    ensures InactiveAround(done + {a}, cells, offsets)
         == InactiveAround(done, cells, offsets) + (set q | q in InactiveAmong(Around(offsets, a), cells))
  {
    var around := Around(offsets, a);
    forall q | q in InactiveAmong(around, cells)
      ensures q in InactiveAround(done + {a}, cells, offsets)
    {
      var i :| 0 <= i < |around| && around[i] == q;
      assert offsets[i] in offsets;
    }
    forall q | q in InactiveAround(done + {a}, cells, offsets)
      ensures q in InactiveAround(done, cells, offsets) || q in InactiveAmong(around, cells)
    {
      var p, o :| p in done + {a} && o in offsets && |o| == |p| && Add(o, p) !in cells && Add(o, p) == q;
      if p == a {
        var i :| 0 <= i < |offsets| && offsets[i] == o;
        assert around[i] == q;
      }
    }
  }

  /** The inactive cells collected around all active cells are the candidates that are not active. */
  lemma FrontierIsInactiveAround(cells: set<Position>, dim: nat)
    requires dim >= 2 && forall p | p in cells :: |p| == dim
    ensures InactiveAround(cells, cells, NeighbourOffsets(dim)) == Candidates(cells, dim) - cells
    ensures forall q | q in Candidates(cells, dim) :: |q| == dim
  {
  }

  /** A cell is kept by `step` iff the rule says it is alive. */
  lemma StepOutcomeAt(cells: set<Position>, offsets: seq<Position>, dim: nat,
                      fromActive: map<Position, nat>, fromInactive: map<Position, nat>, p: Position)
    requires OffsetsOf(offsets, dim)
    requires fromActive.Keys == cells && fromInactive.Keys !! cells
    requires p in fromActive ==> |p| == dim && fromActive[p] == |ActiveAmong(Around(offsets, p), cells)|
    requires p in fromInactive ==> |p| == dim && fromInactive[p] == |ActiveAmong(Around(offsets, p), cells)|
    ensures (p in fromActive && (fromActive[p] == 2 || fromActive[p] == 3)) || (p in fromInactive && fromInactive[p] == 3)
        <==> (p in fromActive || p in fromInactive) && Alive(cells, p)
  {
    if p in fromActive || p in fromInactive {
      CountAroundIsNeighbourCount(cells, offsets, dim, p);
    }
  }

  /**
   * Keeping the counted active cells with 2 or 3 and the counted inactive
   * candidates with 3 gives the next generation.
   */
  lemma StepOutcome(c: Collection, dim: nat, fromActive: map<Position, nat>, fromInactive: map<Position, nat>)
    requires dim >= 2 && WellFormed(c, dim)
    requires fromActive.Keys == c.activeCells
    requires fromInactive.Keys == Candidates(c.activeCells, dim) - c.activeCells
    requires forall a | a in fromActive ::
      fromActive[a] == |ActiveAmong(Around(NeighbourOffsets(dim), a), c.activeCells)|
    requires forall q | q in fromInactive ::
      fromInactive[q] == |ActiveAmong(Around(NeighbourOffsets(dim), q), c.activeCells)|
    ensures (set a | a in fromActive && (fromActive[a] == 2 || fromActive[a] == 3))
          + (set q | q in fromInactive && fromInactive[q] == 3)
         == NextGen(c, dim).activeCells
  {
    var cells := c.activeCells;
    var offsets := NeighbourOffsets(dim);
    NeighbourOffsetsSpec(dim);
    FrontierIsInactiveAround(cells, dim);
    StepOutcomeSets(cells, offsets, dim, fromActive, fromInactive, Candidates(cells, dim));
  }

  lemma StepOutcomeSets(cells: set<Position>, offsets: seq<Position>, dim: nat,
                        fromActive: map<Position, nat>, fromInactive: map<Position, nat>,
                        candidates: set<Position>)
    requires OffsetsOf(offsets, dim)
    requires fromActive.Keys == cells && fromInactive.Keys == candidates - cells && cells <= candidates
    requires forall p | p in fromActive :: |p| == dim && fromActive[p] == |ActiveAmong(Around(offsets, p), cells)|
    requires forall p | p in fromInactive :: |p| == dim && fromInactive[p] == |ActiveAmong(Around(offsets, p), cells)|
    ensures (set a | a in fromActive && (fromActive[a] == 2 || fromActive[a] == 3))
          + (set q | q in fromInactive && fromInactive[q] == 3)
         == set p | p in candidates && Alive(cells, p)
  {
    forall p | p in candidates
      ensures (p in fromActive && (fromActive[p] == 2 || fromActive[p] == 3)) || (p in fromInactive && fromInactive[p] == 3)
          <==> Alive(cells, p)
    {
      StepOutcomeAt(cells, offsets, dim, fromActive, fromInactive, p);
    }
  }

  /**
   * What the first loop of `step` has computed once the cells of `done` are
   * handled: their counts and the inactive cells around them.
   */
  ghost predicate ActiveLoopInv(cells: set<Position>, offsets: seq<Position>, done: set<Position>,
                                mappingFromActive: map<Position, nat>, neighborsToCheck: set<Position>)
    requires forall o | o in offsets :: forall p | p in cells :: |o| == |p|
  {
    && done <= cells
    && mappingFromActive.Keys == done
    && (forall a | a in mappingFromActive :: mappingFromActive[a] == |ActiveAmong(Around(offsets, a), cells)|)
    && neighborsToCheck == InactiveAround(done, cells, offsets)
  }

  lemma ActiveLoopStep(cells: set<Position>, offsets: seq<Position>, done: set<Position>, todo: set<Position>,
                       mappingFromActive: map<Position, nat>, neighborsToCheck: set<Position>, active: Position)
    requires forall o | o in offsets :: forall p | p in cells :: |o| == |p|
    requires ActiveLoopInv(cells, offsets, done, mappingFromActive, neighborsToCheck)
    requires done + todo == cells && done !! todo && active in todo
    ensures (done + {active}) + (todo - {active}) == cells && (done + {active}) !! (todo - {active})
    ensures ActiveLoopInv(cells, offsets, done + {active},
      mappingFromActive[active := |ActiveAmong(Around(offsets, active), cells)|],
      neighborsToCheck + (set q | q in InactiveAmong(Around(offsets, active), cells)))
  {
    var count := |ActiveAmong(Around(offsets, active), cells)|;
    var mapping := mappingFromActive[active := count];
    InactiveAroundGrow(done, active, cells, offsets);
    assert mapping.Keys == done + {active};
    forall a | a in mapping
      ensures mapping[a] == |ActiveAmong(Around(offsets, a), cells)|
    {
      if a != active {
        assert a in mappingFromActive;
      }
    }
  }

  /**
   * The first loop of `step`: for every active cell, the number of active
   * cells around it (`mapping_from_active`) and the inactive cells around it
   * (`neighbors_to_check`).
   */
  method CountAroundActive(cells: set<Position>, offsets: seq<Position>, dim: nat)
    returns (mappingFromActive: map<Position, nat>, neighborsToCheck: set<Position>)
    requires forall o | o in offsets :: |o| == dim
    requires forall p | p in cells :: |p| == dim
    ensures mappingFromActive.Keys == cells
    ensures forall a | a in mappingFromActive ::
      mappingFromActive[a] == |ActiveAmong(Around(offsets, a), cells)|
    ensures neighborsToCheck == InactiveAround(cells, cells, offsets)
  {
    mappingFromActive := map[];
    neighborsToCheck := {};
    var todo := cells;
    ghost var done: set<Position> := {};
    while todo != {}
      invariant done + todo == cells && done !! todo
      invariant ActiveLoopInv(cells, offsets, done, mappingFromActive, neighborsToCheck)
      decreases |todo|
    {
      var active :| active in todo;
      var around := Around(offsets, active);
      var activeNeighbors, inactiveNeighbors := ActiveAmong(around, cells), InactiveAmong(around, cells);
      ActiveLoopStep(cells, offsets, done, todo, mappingFromActive, neighborsToCheck, active);
      neighborsToCheck := neighborsToCheck + (set q | q in inactiveNeighbors);
      mappingFromActive := mappingFromActive[active := |activeNeighbors|];
      todo := todo - {active};
      done := done + {active};
    }
  }

  /**
   * The second loop of `step`: for every collected inactive cell, the number
   * of active cells around it (`mapping_from_inactive`).
   */
  method CountAroundInactive(cells: set<Position>, offsets: seq<Position>, dim: nat, neighborsToCheck: set<Position>)
    returns (mappingFromInactive: map<Position, nat>)
    requires forall o | o in offsets :: |o| == dim
    requires forall q | q in neighborsToCheck :: |q| == dim
    ensures mappingFromInactive.Keys == neighborsToCheck
    ensures forall q | q in mappingFromInactive ::
      mappingFromInactive[q] == |ActiveAmong(Around(offsets, q), cells)|
  {
    mappingFromInactive := map[];
    var pending := neighborsToCheck;
    while pending != {}
      invariant pending <= neighborsToCheck
      invariant mappingFromInactive.Keys == neighborsToCheck - pending
      invariant forall q | q in mappingFromInactive ::
        mappingFromInactive[q] == |ActiveAmong(Around(offsets, q), cells)|
      decreases |pending|
    {
      var position :| position in pending;
      var count := |ActiveAmong(Around(offsets, position), cells)|;
      mappingFromInactive := mappingFromInactive[position := count];
      pending := pending - {position};
    }
  }

  /**
   * One generation (`Collection::step`): count the active neighbours of every
   * active cell while collecting its inactive neighbours, keep the active cells
   * with 2 or 3, then count around every collected inactive cell and activate
   * those with exactly 3.
   */
  method Step(c: Collection, dim: nat) returns (next: Collection)
    requires dim >= 2 && WellFormed(c, dim)
    ensures next == NextGen(c, dim)
  {
    var cells := c.activeCells;
    var offsets := NeighbourOffsets(dim);
    var mappingFromActive, neighborsToCheck := CountAroundActive(cells, offsets, dim);
    FrontierIsInactiveAround(cells, dim);
    var mappingFromInactive := CountAroundInactive(cells, offsets, dim, neighborsToCheck);
    var survivors := set a | a in mappingFromActive && (mappingFromActive[a] == 2 || mappingFromActive[a] == 3);
    var births := set q | q in mappingFromInactive && mappingFromInactive[q] == 3;
    next := Collection(survivors + births);
    StepOutcome(c, dim, mappingFromActive, mappingFromInactive);
  }

  /** `step` applied `n` times. */
  function Iterate(c: Collection, dim: nat, n: nat): Collection
    requires dim >= 2
  {
    if n == 0 then c else NextGen(Iterate(c, dim, n - 1), dim)
  }

  /** `Collection::multi_step`: `count` generations, where `count` must not be zero. */
  method MultiStep(c: Collection, dim: nat, count: nat) returns (r: Collection)
    requires dim >= 2 && WellFormed(c, dim)
    requires count != 0
    ensures r == Iterate(c, dim, count)
  {
    var next := Step(c, dim);
    NextGenWellFormed(c, dim);
    var counter := count - 1;
    ghost var done := 1;
    while counter > 0
      invariant 0 <= counter && done + counter == count
      invariant next == Iterate(c, dim, done)
      invariant WellFormed(next, dim)
    {
      NextGenWellFormed(next, dim);
      counter := counter - 1;
      next := Step(next, dim);
      done := done + 1;
    }
    assert done == count;
    r := next;
  }

  /** `Collection::count_active`. */
  function CountActive(c: Collection): nat
  {
    |c.activeCells|
  }

  // ----- parsing -----------------------------------------------------------

  /** The cells of line `y` that hold `#`, at `(x, y, 0, ..)`. */
  function RowCells(line: string, y: int, dim: nat): set<Position>
    requires dim >= 2
  {
    set x | 0 <= x < |line| && line[x] == '#' :: FromPair(x, y, dim)
  }

  /** The cells of all rows, row `y` being `lines[y]`. */
  function Rows(lines: seq<string>, dim: nat): set<Position>
    requires dim >= 2
  {
    if lines == [] then {}
    else Rows(lines[..|lines| - 1], dim) + RowCells(lines[|lines| - 1], |lines| - 1, dim)
  }

  /**
   * `From<S> for Collection`: the cell `(x, y, 0, ..)` is active iff character
   * `x` of line `y` is `#`; every other character leaves its cell inactive.
   */
  function Parse(s: string, dim: nat): Collection
    requires dim >= 2
  {
    Collection(Rows(Lines(s), dim))
  }

  /** Number of `#` characters over all lines. */
  function HashCount(lines: seq<string>): nat
  {
    if lines == [] then 0 else HashCount(lines[..|lines| - 1]) + Count(lines[|lines| - 1], '#')
  }

  /** Every parsed cell comes from a `#` of the input. */
  lemma {:induction false} RowsSound(lines: seq<string>, dim: nat)
    requires dim >= 2
    ensures forall p | p in Rows(lines, dim) ::
      |p| == dim && p == FromPair(p[0], p[1], dim) && 0 <= p[1] < |lines| && 0 <= p[0] < |lines[p[1]]| && lines[p[1]][p[0]] == '#'
    decreases |lines|
  {
    if lines != [] {
      var init := lines[..|lines| - 1];
      RowsSound(init, dim);
      forall p | p in Rows(lines, dim)
        ensures |p| == dim && p == FromPair(p[0], p[1], dim) && 0 <= p[1] < |lines| && 0 <= p[0] < |lines[p[1]]| && lines[p[1]][p[0]] == '#'
      {
        if p in Rows(init, dim) {
          assert init[p[1]] == lines[p[1]];
        } else {
          var x :| 0 <= x < |lines[|lines| - 1]| && lines[|lines| - 1][x] == '#' && p == FromPair(x, |lines| - 1, dim);
        }
      }
    }
  }

  /** Every `#` of the input gives a parsed cell. */
  lemma {:induction false} RowsComplete(lines: seq<string>, dim: nat)
    requires dim >= 2
    ensures forall y, x | 0 <= y < |lines| && 0 <= x < |lines[y]| && lines[y][x] == '#' :: FromPair(x, y, dim) in Rows(lines, dim)
    decreases |lines|
  {
    if lines != [] {
      var init := lines[..|lines| - 1];
      RowsComplete(init, dim);
      forall y, x | 0 <= y < |lines| && 0 <= x < |lines[y]| && lines[y][x] == '#'
        ensures FromPair(x, y, dim) in Rows(lines, dim)
      {
        if y < |init| {
          assert init[y][x] == '#';
        }
      }
    }
  }

  /**
   * The parsed cells are exactly the `#` positions, each with zero extra
   * coordinates.
   */
  lemma ParseCells(s: string, dim: nat)
    requires dim >= 2
    ensures WellFormed(Parse(s, dim), dim)
    ensures forall x: int, y: int :: FromPair(x, y, dim) in Parse(s, dim).activeCells <==>
      0 <= y < |Lines(s)| && 0 <= x < |Lines(s)[y]| && Lines(s)[y][x] == '#'
    ensures forall p | p in Parse(s, dim).activeCells :: p == FromPair(p[0], p[1], dim)
  {
    var lines := Lines(s);
    RowsSound(lines, dim);
    RowsComplete(lines, dim);
    forall x: int, y: int | FromPair(x, y, dim) in Parse(s, dim).activeCells
      ensures 0 <= y < |lines| && 0 <= x < |lines[y]| && lines[y][x] == '#'
    {
      var p := FromPair(x, y, dim);
      assert p[0] == x && p[1] == y;
    }
  }

  /** The `#` cells of a line are those of its prefix plus, maybe, its last character's. */
  lemma RowCellsSnoc(line: string, y: int, dim: nat)
    requires dim >= 2 && line != []
    ensures var init := line[..|line| - 1];
      RowCells(line, y, dim) ==
        RowCells(init, y, dim) + (if line[|init|] == '#' then {FromPair(|init|, y, dim)} else {})
    ensures FromPair(|line| - 1, y, dim) !in RowCells(line[..|line| - 1], y, dim)
  {
    var init := line[..|line| - 1];
    var extra := if line[|init|] == '#' then {FromPair(|init|, y, dim)} else {};
    forall p | p in RowCells(line, y, dim)
      ensures p in RowCells(init, y, dim) + extra
    {
      var x :| 0 <= x < |line| && line[x] == '#' && p == FromPair(x, y, dim);
      if x < |init| {
        assert init[x] == '#';
      }
    }
    forall p | p in RowCells(init, y, dim)
      ensures p in RowCells(line, y, dim) && p != FromPair(|init|, y, dim)
    {
      var x :| 0 <= x < |init| && init[x] == '#' && p == FromPair(x, y, dim);
      assert line[x] == '#';
      assert p[0] == x;
    }
  }

  lemma {:induction false} RowCellsCount(line: string, y: int, dim: nat)
    requires dim >= 2
    ensures |RowCells(line, y, dim)| == Count(line, '#')
    decreases |line|
  {
    if line != [] {
      var init := line[..|line| - 1];
      var last := line[|line| - 1];
      RowCellsCount(init, y, dim);
      RowCellsSnoc(line, y, dim);
      assert line == init + [last];
      CountAppend(init, [last], '#');
    }
  }

  lemma {:induction false} RowsCount(lines: seq<string>, dim: nat)
    requires dim >= 2
    ensures |Rows(lines, dim)| == HashCount(lines)
    decreases |lines|
  {
    if lines != [] {
      var init := lines[..|lines| - 1];
      var y := |lines| - 1;
      RowsCount(init, dim);
      RowCellsCount(lines[y], y, dim);
      RowsSound(init, dim);
      assert Rows(init, dim) !! RowCells(lines[y], y, dim) by {
        forall p | p in RowCells(lines[y], y, dim)
          ensures p !in Rows(init, dim)
        {
          var x :| 0 <= x < |lines[y]| && lines[y][x] == '#' && p == FromPair(x, y, dim);
        }
      }
    }
  }

  /** `count_active` after parsing is the number of `#` characters of the input. */
  lemma ParseCount(s: string, dim: nat)
    requires dim >= 2
    ensures CountActive(Parse(s, dim)) == HashCount(Lines(s))
  {
    RowsCount(Lines(s), dim);
  }
}
