/**
 * Day 13 (shuttle search): the earliest bus after a timestamp, and the
 * earliest timestamp at which every listed bus departs at its offset, found
 * with the Chinese remainder theorem and inverses from Fermat's little
 * theorem.
 */
module Day13 {
  import opened Wrappers
  import opened Text
  import opened Arith
  import opened Seqs

  /** The bus line's entries split at commas. */
  function BusEntries(content: string): seq<string>
    requires |Lines(content)| >= 2
  {
    Split(Lines(content)[1], ",")
  }

  /** The `filter_map` of `parse_input_part_1`: the entries that parse, in order. */
  function NumericEntries(parts: seq<string>): (r: seq<nat>)
    ensures |r| <= |parts|
    ensures forall k | 0 <= k < |r| :: exists i | 0 <= i < |parts| :: ParseNat(parts[i]) == Some(r[k])
    decreases |parts|
  {
    if |parts| == 0 then []
    else
      var rest := NumericEntries(parts[..|parts| - 1]);
      match ParseNat(parts[|parts| - 1])
      case Some(v) => rest + [v]
      case None => rest
  }

  /** The `filter_map` of `parse_input_part_2`: each entry that parses, with its position. */
  function IndexedBuses(parts: seq<string>): (r: seq<(nat, nat)>)
    ensures forall k | 0 <= k < |r| :: r[k].0 < |parts| && ParseNat(parts[r[k].0]) == Some(r[k].1)
    ensures forall k, l | 0 <= k < l < |r| :: r[k].0 < r[l].0
    decreases |parts|
  {
    if |parts| == 0 then []
    else
      var rest := IndexedBuses(parts[..|parts| - 1]);
      match ParseNat(parts[|parts| - 1])
      case Some(v) => rest + [(|parts| - 1, v)]
      case None => rest
  }

  /** No numeric entry is skipped. */
  lemma {:induction false} IndexedBusesComplete(parts: seq<string>, i: nat)
    requires i < |parts| && ParseNat(parts[i]).Some?
    ensures exists k | 0 <= k < |IndexedBuses(parts)| :: IndexedBuses(parts)[k] == (i, ParseNat(parts[i]).value)
    decreases |parts|
  {
    var n := |parts| - 1;
    var rest := IndexedBuses(parts[..n]);
    if i == n {
      var r := IndexedBuses(parts);
      assert r == rest + [(n, ParseNat(parts[n]).value)];
      assert r[|rest|] == (i, ParseNat(parts[i]).value);
    } else {
      assert parts[..n][i] == parts[i];
      IndexedBusesComplete(parts[..n], i);
      var k :| 0 <= k < |rest| && rest[k] == (i, ParseNat(parts[i]).value);
      assert IndexedBuses(parts)[k] == rest[k];
    }
  }

  /** The ids of an indexed bus list. */
  function Ids(buses: seq<(nat, nat)>): (r: seq<nat>)
    ensures |r| == |buses| && forall k | 0 <= k < |r| :: r[k] == buses[k].1
  {
    seq(|buses|, k requires 0 <= k < |buses| => buses[k].1)
  }

  /** Both parsers keep the same ids in the same order; part 2 only adds the positions. */
  lemma {:induction false} SameBuses(parts: seq<string>)
    ensures NumericEntries(parts) == Ids(IndexedBuses(parts))
    decreases |parts|
  {
    if |parts| > 0 {
      var n := |parts| - 1;
      SameBuses(parts[..n]);
      var rest := IndexedBuses(parts[..n]);
      match ParseNat(parts[n])
      case Some(v) =>
        assert Ids(rest + [(n, v)]) == Ids(rest) + [v];
      case None =>
    }
  }

  /**
   * `parse_input_part_1`: the timestamp on the first line and the numeric
   * bus ids of the second. A missing line or a malformed timestamp panics.
   */
  function ParseInputPart1(content: string): (r: (nat, seq<nat>))
    requires |Lines(content)| >= 2 && ParseNat(Lines(content)[0]).Some?
    ensures ParseNat(Lines(content)[0]) == Some(r.0)
    ensures r.1 == Ids(IndexedBuses(BusEntries(content)))
  {
    SameBuses(BusEntries(content));
    (ParseNat(Lines(content)[0]).value, NumericEntries(BusEntries(content)))
  }

  /** `parse_input_part_2`: every numeric entry of the second line with its position. */
  function ParseInputPart2(content: string): (r: seq<(nat, nat)>)
    requires |Lines(content)| >= 2
    ensures forall k | 0 <= k < |r| ::
      r[k].0 < |BusEntries(content)| && ParseNat(BusEntries(content)[r[k].0]) == Some(r[k].1)
    ensures forall k, l | 0 <= k < l < |r| :: r[k].0 < r[l].0
  {
    IndexedBuses(BusEntries(content))
  }

  /** The wait for a bus as written: `bus - timestamp % bus`, so a bus leaving right at the timestamp waits a full round. */
  function Wait(timestamp: nat, bus: nat): (w: nat)
    requires bus > 0
    ensures 1 <= w <= bus
  {
    bus - timestamp % bus
  }

  /** The result of part 1: the bus taken, when it leaves and how long the wait is. */
  datatype Part1Result = Part1Result(busId: nat, earliestTime: nat, waitTime: nat)

  /** `min_by` on the waits of the first `n` buses: the first bus of least wait. */
  function FirstLeastWait(timestamp: nat, buses: seq<nat>, n: nat): (i: nat)
    requires 0 < n <= |buses|
    requires forall k | 0 <= k < |buses| :: buses[k] > 0
    ensures i < n
    ensures forall j | 0 <= j < n :: Wait(timestamp, buses[i]) <= Wait(timestamp, buses[j])
    ensures forall j | 0 <= j < i :: Wait(timestamp, buses[i]) < Wait(timestamp, buses[j])
    decreases n
  {
    if n == 1 then 0
    else
      var best := FirstLeastWait(timestamp, buses, n - 1);
      if Wait(timestamp, buses[n - 1]) < Wait(timestamp, buses[best]) then n - 1 else best
  }

  /**
   * `part_1`: the bus with the least wait, the first one on ties. The list
   * must be non-empty (`unwrap`) and no id may be zero (`timestamp % bus`).
   */
  function Part1(timestamp: nat, buses: seq<nat>): (r: Part1Result)
    requires |buses| > 0
    requires forall k | 0 <= k < |buses| :: buses[k] > 0
    ensures exists i | 0 <= i < |buses| :: (r.busId == buses[i] && r.waitTime == Wait(timestamp, buses[i])
      && forall j | 0 <= j < i :: Wait(timestamp, buses[j]) > r.waitTime)
    ensures forall j | 0 <= j < |buses| :: r.waitTime <= Wait(timestamp, buses[j])
    ensures 1 <= r.waitTime <= r.busId
    ensures r.earliestTime == timestamp + r.waitTime
  {
    var i := FirstLeastWait(timestamp, buses, |buses|);
    Part1Result(buses[i], timestamp + Wait(timestamp, buses[i]), Wait(timestamp, buses[i]))
  }

  /** `timestamp + Wait(timestamp, bus)` is the first departure of `bus` strictly after `timestamp`. */
  lemma NextDeparture(timestamp: nat, bus: nat, t: int)
    requires bus > 0
    ensures (timestamp + Wait(timestamp, bus)) % bus == 0
    ensures timestamp < t < timestamp + Wait(timestamp, bus) ==> t % bus != 0
  {
    var q, r := timestamp / bus, timestamp % bus;
    assert timestamp + Wait(timestamp, bus) == (q + 1) * bus + 0;
    ModUnique(timestamp + Wait(timestamp, bus), bus, q + 1, 0);
    if timestamp < t < timestamp + Wait(timestamp, bus) {
      assert t == q * bus + (t - q * bus);
      ModUnique(t, bus, q, t - q * bus);
    }
  }

  /** The bus of part 1 leaves at the earliest time, and no bus leaves strictly between the timestamp and then. */
  lemma Part1Earliest(timestamp: nat, buses: seq<nat>, j: nat, t: int)
    requires |buses| > 0
    requires forall k | 0 <= k < |buses| :: buses[k] > 0
    requires j < |buses| && timestamp < t < Part1(timestamp, buses).earliestTime
    ensures Part1(timestamp, buses).earliestTime % Part1(timestamp, buses).busId == 0
    ensures t % buses[j] != 0
  {
    var r := Part1(timestamp, buses);
    NextDeparture(timestamp, r.busId, t);
    NextDeparture(timestamp, buses[j], t);
  }

  /** The evidently intended wait: zero for a bus that leaves right at the timestamp. */
  function WaitAtOrAfter(timestamp: nat, bus: nat): (w: nat)
    requires bus > 0
    ensures w < bus
    ensures w == 0 <==> timestamp % bus == 0
    ensures w > 0 ==> w == Wait(timestamp, bus)
  {
    if timestamp % bus == 0 then 0 else Wait(timestamp, bus)
  }

  /** `timestamp + WaitAtOrAfter(timestamp, bus)` is the first departure of `bus` at or after `timestamp`. */
  lemma NextDepartureAtOrAfter(timestamp: nat, bus: nat, t: int)
    requires bus > 0
    ensures (timestamp + WaitAtOrAfter(timestamp, bus)) % bus == 0
    ensures timestamp <= t < timestamp + WaitAtOrAfter(timestamp, bus) ==> t % bus != 0
  {
    NextDeparture(timestamp, bus, t);
  }

  /** The first bus of least intended wait among the first `n`. */
  function FirstLeastWaitAtOrAfter(timestamp: nat, buses: seq<nat>, n: nat): (i: nat)
    requires 0 < n <= |buses|
    requires forall k | 0 <= k < |buses| :: buses[k] > 0
    ensures i < n
    ensures forall j | 0 <= j < n :: WaitAtOrAfter(timestamp, buses[i]) <= WaitAtOrAfter(timestamp, buses[j])
    ensures forall j | 0 <= j < i :: WaitAtOrAfter(timestamp, buses[i]) < WaitAtOrAfter(timestamp, buses[j])
    decreases n
  {
    if n == 1 then 0
    else
      var best := FirstLeastWaitAtOrAfter(timestamp, buses, n - 1);
      if WaitAtOrAfter(timestamp, buses[n - 1]) < WaitAtOrAfter(timestamp, buses[best]) then n - 1 else best
  }

  /** Part 1 with the intended wait: the earliest bus at or after the timestamp. */
  function Part1AtOrAfter(timestamp: nat, buses: seq<nat>): (r: Part1Result)
    requires |buses| > 0
    requires forall k | 0 <= k < |buses| :: buses[k] > 0
    ensures exists i | 0 <= i < |buses| :: r.busId == buses[i] && r.waitTime == WaitAtOrAfter(timestamp, buses[i])
    ensures forall j | 0 <= j < |buses| :: r.waitTime <= WaitAtOrAfter(timestamp, buses[j])
    ensures r.earliestTime == timestamp + r.waitTime && r.earliestTime % r.busId == 0
  {
    var i := FirstLeastWaitAtOrAfter(timestamp, buses, |buses|);
    NextDepartureAtOrAfter(timestamp, buses[i], timestamp);
    Part1Result(buses[i], timestamp + WaitAtOrAfter(timestamp, buses[i]), WaitAtOrAfter(timestamp, buses[i]))
  }

  /** No bus leaves at or after the timestamp and before the intended earliest time. */
  lemma Part1AtOrAfterEarliest(timestamp: nat, buses: seq<nat>, j: nat, t: int)
    requires |buses| > 0
    requires forall k | 0 <= k < |buses| :: buses[k] > 0
    requires j < |buses| && timestamp <= t < Part1AtOrAfter(timestamp, buses).earliestTime
    ensures t % buses[j] != 0
  {
    NextDepartureAtOrAfter(timestamp, buses[j], t);
  }

  /** With a timestamp of 10 and buses 5 and 7, bus 5 leaves right away, yet part 1 as written takes bus 7. */
  lemma Part1SkipsDepartureAtTimestamp()
    ensures 10 % 5 == 0
    ensures Part1(10, [5, 7]).busId == 7 && Part1(10, [5, 7]).waitTime == 4
    ensures Part1AtOrAfter(10, [5, 7]).busId == 5 && Part1AtOrAfter(10, [5, 7]).waitTime == 0
  {
    assert Wait(10, 5) == 5 && Wait(10, 7) == 4;
    assert WaitAtOrAfter(10, 5) == 0 && WaitAtOrAfter(10, 7) == 4;
  }

  /** `x` to the power `n`. */
  function Pow(x: int, n: nat): int
  {
    if n == 0 then 1 else x * Pow(x, n - 1)
  }

  /** Rust's `%` on signed integers: it truncates toward zero, so the remainder takes the dividend's sign. */
  function RustRem(a: int, b: int): (r: int)
    requires b != 0
    ensures a >= 0 ==> r == a % b
  {
    if a >= 0 then a % b else -((-a) % b)
  }

  /** The fold of `inv_mod`: `n` times `o := (o * x) % p`. */
  function MulFold(o: int, x: int, p: int, n: nat): int
    requires n > 0 ==> p != 0
    decreases n
  {
    if n == 0 then o else MulFold(RustRem(o * x, p), x, p, n - 1)
  }

  /** For non-negative operands the fold is the power reduced once at the end. */
  lemma {:induction false} MulFoldPow(o: int, x: int, p: int, n: nat)
    requires o >= 0 && x >= 0 && p > 0 && n > 0
    ensures MulFold(o, x, p, n) == (o * Pow(x, n)) % p
    decreases n
  {
    var o' := (o * x) % p;
    if n == 1 {
      assert Pow(x, 1) == x;
    } else {
      MulFoldPow(o', x, p, n - 1);
      var y := Pow(x, n - 1);
      ModMulRight(y, o * x, p);
      assert y * o' == o' * y;
      assert y * (o * x) == o * (x * y);
    }
  }

  /**
   * `inv_mod`: `x` multiplied into 1, reduced modulo `p`, once for each of
   * `0..p-2`; the range is empty when `p <= 2`.
   */
  function InvMod(x: int, p: int): (r: int)
    ensures p <= 2 ==> r == 1
    ensures p > 2 && x >= 0 ==> r == Pow(x, p - 2) % p
  {
    if p > 2 && x >= 0 then MulFoldPow(1, x, p, p - 2); MulFold(1, x, p, p - 2)
    else MulFold(1, x, p, if p > 2 then p - 2 else 0)
  }

  /** The ids of an indexed bus list, as integers. */
  function Moduli(buses: seq<(nat, nat)>): (v: seq<int>)
    ensures |v| == |buses| && forall k | 0 <= k < |v| :: v[k] == buses[k].1
  {
    seq(|buses|, k requires 0 <= k < |buses| => buses[k].1 as int)
  }

  function Product(v: seq<int>): int
  {
    if |v| == 0 then 1 else v[0] * Product(v[1..])
  }

  /** `v` without its element at `i`. */
  function Remove(v: seq<int>, i: nat): (w: seq<int>)
    requires i < |v|
    ensures |w| == |v| - 1
    ensures forall k | 0 <= k < i :: w[k] == v[k]
    ensures forall k | i < k < |v| :: w[k - 1] == v[k]
  {
    v[..i] + v[i + 1..]
  }

  /** Any element of a product can be factored out. */
  lemma {:induction false} ProductFactor(v: seq<int>, i: nat)
    requires i < |v|
    ensures Product(v) == v[i] * Product(Remove(v, i))
    decreases i
  {
    if i > 0 {
      ProductFactor(v[1..], i - 1);
      assert Remove(v, i) == [v[0]] + Remove(v[1..], i - 1);
      assert Remove(v, i)[1..] == Remove(v[1..], i - 1);
      var x := Product(Remove(v[1..], i - 1));
      assert v[0] * (v[i] * x) == v[i] * (v[0] * x);
    } else {
      assert Remove(v, 0) == v[1..];
    }
  }

  /** `prod / val` in `part_2` is the product of every other id. */
  lemma Cofactor(v: seq<int>, i: nat)
    requires i < |v| && v[i] > 0
    ensures Product(v) / v[i] == Product(Remove(v, i))
  {
    ProductFactor(v, i);
    DivExact(Product(v), v[i], Product(Remove(v, i)));
  }

  /** Each other id divides the product of every id but `v[i]`. */
  lemma CofactorMultiple(v: seq<int>, i: nat, j: nat)
    requires i < |v| && j < |v| && i != j
    ensures Product(Remove(v, i)) == v[j] * Product(Remove(Remove(v, i), if j < i then j else j - 1))
  {
    ProductFactor(Remove(v, i), if j < i then j else j - 1);
  }

  /** The summand of `part_2` for the bus at position `pos` with id `val`. */
  function Term(pos: nat, val: nat, prod: int): int
    requires val > 0
  {
    -(pos as int) * (prod / val) * InvMod(prod / val, val)
  }

  /** The summands of `part_2`, one per bus. */
  function Terms(buses: seq<(nat, nat)>, prod: int): (ts: seq<int>)
    requires forall k | 0 <= k < |buses| :: buses[k].1 > 0
    ensures |ts| == |buses|
    ensures forall k | 0 <= k < |ts| :: ts[k] == Term(buses[k].0, buses[k].1, prod)
  {
    seq(|buses|, k requires 0 <= k < |buses| => Term(buses[k].0, buses[k].1, prod))
  }

  /**
   * `part_2`: the sum of the summands reduced into `[0, prod)` with
   * `rem_euclid`. Every id must be positive, as `prod / val` divides by it.
   */
  function Part2(buses: seq<(nat, nat)>): (t: nat)
    requires forall k | 0 <= k < |buses| :: buses[k].1 > 0
    ensures t < Product(Moduli(buses))
  {
    ProductPositive(Moduli(buses));
    Sum(Terms(buses, Product(Moduli(buses)))) % Product(Moduli(buses))
  }

  lemma {:induction false} ProductPositive(v: seq<int>)
    requires forall k | 0 <= k < |v| :: v[k] > 0
    ensures Product(v) > 0
  {
    if |v| > 0 {
      ProductPositive(v[1..]);
      MulMono(0, v[0] - 1, Product(v[1..]));
    }
  }

  /** A sum whose summands other than the one at `j` are multiples of `m` is congruent to that summand. */
  lemma {:induction false} SumMod(xs: seq<int>, j: nat, m: int)
    requires m > 0
    requires forall k | 0 <= k < |xs| && k != j :: xs[k] % m == 0
    ensures Sum(xs) % m == (if j < |xs| then xs[j] % m else 0)
    decreases |xs|
  {
    if |xs| > 0 {
      var tail := xs[1..];
      assert forall k | 0 <= k < |tail| :: tail[k] == xs[k + 1];
      if j == 0 {
        SumMod(tail, |tail|, m);
        SumModStep(xs[0], Sum(tail), m, xs[0] % m);
      } else {
        SumMod(tail, j - 1, m);
        SumModStep(Sum(tail), xs[0], m, if j < |xs| then xs[j] % m else 0);
      }
    }
  }

  /** Adding a multiple of `m` keeps the remainder. */
  lemma SumModStep(a: int, b: int, m: int, r: int)
    requires m > 0 && b % m == 0 && a % m == r
    ensures (a + b) % m == r && (b + a) % m == r
  {
    var q := b / m;
    DivMod(b, m);
    assert a + b == a + q * m;
    ModAddMultiple(a, q, m);
  }

  /** The summand of another bus is a multiple of bus `j`'s id. */
  lemma OtherTermVanishes(buses: seq<(nat, nat)>, i: nat, j: nat)
    requires forall k | 0 <= k < |buses| :: buses[k].1 > 0
    requires i < |buses| && j < |buses| && i != j
    ensures Term(buses[i].0, buses[i].1, Product(Moduli(buses))) % buses[j].1 == 0
  {
    var v := Moduli(buses);
    Cofactor(v, i);
    CofactorMultiple(v, i, j);
    var c := Product(Remove(Remove(v, i), if j < i then j else j - 1));
    var inv := InvMod(Product(v) / v[i], v[i]);
    MultipleFactor(-(buses[i].0 as int), Product(v) / v[i], inv, buses[j].1, c);
  }

  /** A factor congruent to 1 drops out of a remainder. */
  lemma UnitFactor(x: int, c: int, inv: int, m: int)
    requires m > 0 && (c * inv) % m == 1 % m
    ensures (x * c * inv) % m == x % m
  {
    var e := c * inv;
    assert x * c * inv == x * e;
    if m == 1 {
      ModUnique(x * e, 1, x * e, 0);
      ModUnique(x, 1, x, 0);
    } else {
      ModUnique(1, m, 0, 1);
      ModMulRight(x, e, m);
      assert x * (e % m) == x;
    }
  }

  /** Reducing modulo a multiple of `m` keeps the remainder modulo `m`. */
  lemma ReduceKeepsMod(a: int, m: int, q: int)
    requires m > 0 && q > 0
    ensures (a % (m * q)) % m == a % m
  {
    var p := m * q;
    MulMono(1, q, m);
    assert a == a % p + (a / p * q) * m;
    ModAddMultiple(a % p, a / p * q, m);
  }

  /** Equal remainders make the difference a multiple. */
  lemma SameRemainder(t: int, y: int, m: int)
    requires m > 0 && t % m == y % m
    ensures (t - y) % m == 0
  {
    var a, b := t / m, y / m;
    assert t - y == (a - b) * m;
    ModUnique(t - y, m, a - b, 0);
  }

  /**
   * The Chinese remainder theorem for `part_2`: bus `j` departs `pos` minutes
   * after the result, provided the inverse of its cofactor is correct.
   */
  lemma Part2Departs(buses: seq<(nat, nat)>, j: nat)
    requires forall k | 0 <= k < |buses| :: buses[k].1 > 0
    requires j < |buses|
    requires var m, c := buses[j].1, Product(Moduli(buses)) / buses[j].1; (c * InvMod(c, m)) % m == 1 % m
    ensures (Part2(buses) + buses[j].0) % buses[j].1 == 0
  {
    var v := Moduli(buses);
    var prod := Product(v);
    var m, pos := buses[j].1, buses[j].0;
    var ts := Terms(buses, prod);
    forall k | 0 <= k < |ts| && k != j
      ensures ts[k] % m == 0
    {
      OtherTermVanishes(buses, k, j);
    }
    SumMod(ts, j, m);
    var c := prod / m;
    UnitFactor(-(pos as int), c, InvMod(c, m), m);
    assert Sum(ts) % m == (-(pos as int)) % m;
    ProductFactor(v, j);
    ProductPositive(Remove(v, j));
    ReduceKeepsMod(Sum(ts), m, Product(Remove(v, j)));
    assert Part2(buses) % m == (-(pos as int)) % m;
    SameRemainder(Part2(buses), -(pos as int), m);
  }
}
