/**
 * Day 10 (adapter array): the joltage gaps of the sorted adapters, and the
 * number of ways to chain them from the outlet to the device.
 */
module Day10 {
  import opened Seqs

  /**
   * `main` adds the outlet (0) and the device (3 above the largest adapter):
   * push 0, sort, then push the last value plus 3.
   */
  function PadJoltages(joltages: seq<int>): (r: seq<int>)
    ensures Sorted(r) && |r| == |joltages| + 2
    ensures multiset(r) == multiset(joltages) + multiset{0, Max(joltages + [0]) + 3}
    ensures r[|r| - 1] == Max(joltages + [0]) + 3
  {
    var sorted := Sort(joltages + [0]);
    PadLast(joltages, sorted);
    PadOrder(sorted);
    PadMultiset(joltages, sorted, Max(joltages + [0]) + 3);
    sorted + [sorted[|sorted| - 1] + 3]
  }

  /** The sorted joltages with the outlet end in the largest of them. */
  lemma PadLast(joltages: seq<int>, sorted: seq<int>)
    requires Sorted(sorted) && multiset(sorted) == multiset(joltages + [0])
    ensures |sorted| == |joltages| + 1 && sorted[|sorted| - 1] == Max(joltages + [0])
  {
    SortedEnds(joltages + [0], sorted);
  }

  /** Appending the device adapter, 3 above the last, keeps the joltages sorted. */
  lemma PadOrder(sorted: seq<int>)
    requires |sorted| > 0 && Sorted(sorted)
    ensures Sorted(sorted + [sorted[|sorted| - 1] + 3])
  {
    var r := sorted + [sorted[|sorted| - 1] + 3];
    forall i, j | 0 <= i < j < |r|
      ensures r[i] <= r[j]
    {
      assert r[i] == sorted[i];
      if j < |sorted| {
        assert r[j] == sorted[j];
      } else {
        assert sorted[i] <= sorted[|sorted| - 1];
      }
    }
  }

  /** The padded joltages hold the adapters, the outlet and the device. */
  lemma PadMultiset(joltages: seq<int>, sorted: seq<int>, device: int)
    requires multiset(sorted) == multiset(joltages + [0])
    ensures multiset(sorted + [device]) == multiset(joltages) + multiset{0, device}
  {
    calc {
      multiset(sorted + [device]);
      multiset(sorted) + multiset{device};
      multiset(joltages + [0]) + multiset{device};
      { assert multiset(joltages + [0]) == multiset(joltages) + multiset{0}; }
      multiset(joltages) + multiset{0} + multiset{device};
      { assert multiset{0} + multiset{device} == multiset{0, device}; }
      multiset(joltages) + multiset{0, device};
    }
  }

  /** Every step between neighbours of `s` is 1, 2 or 3. */
  predicate ValidGaps(s: seq<int>)
  {
    forall k | 1 <= k < |s| :: 1 <= s[k] - s[k - 1] <= 3
  }

  /** The number of neighbours in `s` that are exactly `d` apart. */
  function GapCount(s: seq<int>, d: int): nat
  {
    if |s| < 2 then 0
    else GapCount(s[..|s| - 1], d) + (if s[|s| - 1] - s[|s| - 2] == d then 1 else 0)
  }

  /** When every gap is 1, 2 or 3, the three counts cover all `|s| - 1` gaps. */
  lemma {:induction false} GapCountsTotal(s: seq<int>)
    requires |s| > 0 && ValidGaps(s)
    ensures GapCount(s, 1) + GapCount(s, 2) + GapCount(s, 3) == |s| - 1
  {
    if |s| >= 2 {
      GapCountsTotal(s[..|s| - 1]);
    }
  }

  /** Extending a prefix by one element adds its gap to the matching count. */
  lemma GapCountSnoc(s: seq<int>, idx: nat)
    requires 1 <= idx < |s|
    ensures forall d :: GapCount(s[..idx + 1], d) == GapCount(s[..idx], d) + (if s[idx] - s[idx - 1] == d then 1 else 0)
  {
    assert s[..idx + 1][..idx] == s[..idx];
  }

  /**
   * The counting loop of `get_differences` over the sorted input: the gaps
   * of 1, 2 and 3 between neighbours go into a three-slot array. Any other
   * gap is an index or subtraction panic in the source.
   */
  method CountGaps(s: seq<int>) returns (count: seq<nat>)
    requires ValidGaps(s)
    ensures count == [GapCount(s, 1), GapCount(s, 2), GapCount(s, 3)]
  {
    var counts := new nat[3](_ => 0);
    if |s| > 0 {
      for idx := 1 to |s|
        invariant counts[0] == GapCount(s[..idx], 1)
        invariant counts[1] == GapCount(s[..idx], 2)
        invariant counts[2] == GapCount(s[..idx], 3)
      {
        GapCountSnoc(s, idx);
        var diff := s[idx] - s[idx - 1];
        counts[diff - 1] := counts[diff - 1] + 1;
      }
      assert s[..|s|] == s;
    }
    count := counts[..];
  }

  /** `get_differences`: the gap counts of the input once sorted. */
  method GetDifferences(input: seq<int>) returns (count: seq<nat>)
    requires ValidGaps(Sort(input))
    ensures count == [GapCount(Sort(input), 1), GapCount(Sort(input), 2), GapCount(Sort(input), 3)]
  {
    count := CountGaps(Sort(input));
  }

  /** `get_product_differences`: the number of 1-gaps times the number of 3-gaps. */
  method GetProductDifferences(input: seq<int>) returns (product: int)
    requires ValidGaps(Sort(input))
    ensures product == GapCount(Sort(input), 1) * GapCount(Sort(input), 3)
  {
    var diff := GetDifferences(input);
    var ones: nat, threes: nat := diff[0], diff[2];
    product := ones * threes;
  }

  /**
   * The number of chains from `x` up to `top` through values of `S`, each
   * value 1, 2 or 3 above the one before.
   */
  function Ways(S: set<int>, x: int, top: int): nat
    decreases top - x
  {
    if x > top then 0
    else if x == top then 1
    else
      (if x + 1 in S then Ways(S, x + 1, top) else 0)
      + (if x + 2 in S then Ways(S, x + 2, top) else 0)
      + (if x + 3 in S then Ways(S, x + 3, top) else 0)
  }

  /** The sum of `Ways` over the values of `T` that are 1, 2 or 3 above `k`. */
  function Near(T: seq<int>, S: set<int>, k: int, top: int): nat
  {
    (if k + 1 in T then Ways(S, k + 1, top) else 0)
    + (if k + 2 in T then Ways(S, k + 2, top) else 0)
    + (if k + 3 in T then Ways(S, k + 3, top) else 0)
  }

  /** What the storage has received for key `k` from the first `i` values processed. */
  function Received(d: seq<int>, i: nat, k: int, S: set<int>, top: int): nat
    requires i <= |d|
  {
    if i == 0 then 0
    else Received(d, i - 1, k, S, top) + (if 0 < d[i - 1] - k <= 3 then Ways(S, d[i - 1], top) else 0)
  }

  predicate StrictlyDescending(d: seq<int>)
  {
    forall a, b | 0 <= a < b < |d| :: d[a] > d[b]
  }

  /** On a strictly descending list, what the first `i` values hand to `k` is `Near(d[..i], k)`. */
  lemma {:induction false} ReceivedNear(d: seq<int>, i: nat, k: int, S: set<int>, top: int)
    requires i <= |d| && StrictlyDescending(d)
    ensures Received(d, i, k, S, top) == Near(d[..i], S, k, top)
  {
    if i > 0 {
      ReceivedNear(d, i - 1, k, S, top);
      assert d[..i] == d[..i - 1] + [d[i - 1]];
      assert d[i - 1] !in d[..i - 1];
    }
  }

  /** Values processed after `d[m]` are smaller than it, so hand it nothing. */
  lemma {:induction false} ReceivedStable(d: seq<int>, i: nat, m: nat, S: set<int>, top: int)
    requires m <= i <= |d| && m < |d| && StrictlyDescending(d)
    ensures Received(d, i, d[m], S, top) == Received(d, m, d[m], S, top)
  {
    if i > m {
      ReceivedStable(d, i - 1, m, S, top);
    }
  }

  /** Once every larger value is processed, the storage of `d[i]` holds its number of chains. */
  lemma ReceivedComplete(d: seq<int>, i: nat)
    requires i < |d| && StrictlyDescending(d)
    ensures (if d[i] == d[0] then 1 else 0) + Received(d, i, d[i], Elements(d), d[0])
      == Ways(Elements(d), d[i], d[0])
  {
    var S := Elements(d);
    ReceivedNear(d, i, d[i], S, d[0]);
    if i > 0 {
      AboveIsProcessed(d, i, d[i] + 1);
      AboveIsProcessed(d, i, d[i] + 2);
      AboveIsProcessed(d, i, d[i] + 3);
    }
  }

  /** In a strictly descending list, the values above `d[i]` are those before it. */
  lemma AboveIsProcessed(d: seq<int>, i: nat, y: int)
    requires i < |d| && StrictlyDescending(d) && y > d[i]
    ensures y in d[..i] <==> y in Elements(d)
  {
    if y in d {
      var b :| 0 <= b < |d| && d[b] == y;
      assert b < i;
    }
  }

  /** The list reversed. */
  function Reversed(s: seq<int>): (r: seq<int>)
    ensures |r| == |s| && forall i | 0 <= i < |s| :: r[i] == s[|s| - 1 - i]
  {
    seq(|s|, i requires 0 <= i < |s| => s[|s| - 1 - i])
  }

  /** Reversing keeps the values. */
  lemma ReversedElements(s: seq<int>)
    ensures Elements(Reversed(s)) == Elements(s)
  {
    var d := Reversed(s);
    forall x | x in d
      ensures x in s
    {
      var i :| 0 <= i < |d| && d[i] == x;
      assert x == s[|s| - 1 - i];
    }
    forall x | x in s
      ensures x in d
    {
      var k :| 0 <= k < |s| && s[k] == x;
      assert d[|s| - 1 - k] == x;
    }
  }

  /** Two lists with the same multiset have the same values. */
  lemma SameElements(s: seq<int>, t: seq<int>)
    requires multiset(s) == multiset(t)
    ensures Elements(s) == Elements(t)
  {
    forall x | x in s
      ensures x in t
    {
      assert x in multiset(s);
    }
    forall x | x in t
      ensures x in s
    {
      assert x in multiset(t);
    }
  }

  /** A sorted list without repeats, reversed, falls strictly. */
  lemma ReversedStrict(s: seq<int>)
    requires Sorted(s) && Distinct(s)
    ensures StrictlyDescending(Reversed(s))
  {
    var d := Reversed(s);
    forall a, b | 0 <= a < b < |d|
      ensures d[a] > d[b]
    {
      assert d[a] == s[|s| - 1 - a] && d[b] == s[|s| - 1 - b];
      assert s[|s| - 1 - b] <= s[|s| - 1 - a];
      assert s[|s| - 1 - b] != s[|s| - 1 - a];
    }
  }

  /** The input sorted largest first has the same values, and without repeats it falls strictly. */
  lemma DescendingOrder(input: seq<int>, s: seq<int>, d: seq<int>)
    requires |input| > 0 && Sorted(s) && multiset(s) == multiset(input) && d == Reversed(s)
    ensures |d| == |input| && d[0] == Max(input) && d[|d| - 1] == Min(input)
    ensures Elements(d) == Elements(input)
    ensures Distinct(input) ==> StrictlyDescending(d)
  {
    SortedEnds(input, s);
    ReversedElements(s);
    SameElements(s, input);
    if Distinct(input) {
      DistinctPermutation(input, s);
      ReversedStrict(s);
    }
  }

  /** The count a storage map holds for `k`, 0 when absent. */
  function Lookup(intern: map<int, nat>, k: int): nat
  {
    if k in intern then intern[k] else 0
  }

  /** `Storage`: a map from joltage to count that reads a missing key as 0. */
  class Storage {
    var intern: map<int, nat>

    constructor()
      ensures intern == map[]
    {
      intern := map[];
    }

    /** `get`: the stored count, 0 for a key never set. */
    function Get(key: int): (r: nat)
      reads this
      ensures key !in intern ==> r == 0
      ensures key in intern ==> r == intern[key]
    {
      Lookup(intern, key)
    }

    /** `set`: overwrites one key. */
    method Set(key: int, value: nat)
      modifies this
      ensures intern == old(intern)[key := value]
      ensures forall k :: Get(k) == if k == key then value else old(Get(k))
    {
      intern := intern[key := value];
    }

    /** `add`: raises one key by `toAdd` and leaves every other key alone. */
    method Add(key: int, toAdd: nat)
      modifies this
      ensures intern == old(intern)[key := old(Get(key)) + toAdd]
      ensures forall k :: Get(k) == old(Get(k)) + (if k == key then toAdd else 0)
    {
      var init := Get(key);
      Set(key, init + toAdd);
    }
  }

  /** After the first `i` values are handed on, each value holds its start count plus what it received. */
  ghost predicate Matches(intern: map<int, nat>, d: seq<int>, i: nat, S: set<int>, top: int)
    requires i <= |d|
  {
    forall m | 0 <= m < |d| ::
      Lookup(intern, d[m]) == (if d[m] == top then 1 else 0) + Received(d, i, d[m], S, top)
  }

  /** The inner pass on a list without repeats: the values 1 to 3 below `value` each gain its count. */
  ghost predicate HandedDown(before: map<int, nat>, after: map<int, nat>, d: seq<int>, value: int)
  {
    Lookup(after, value) == Lookup(before, value)
    && forall m | 0 <= m < |d| ::
      Lookup(after, d[m]) == Lookup(before, d[m]) + (if 0 < value - d[m] <= 3 then Lookup(before, value) else 0)
  }

  /** Handing on `d[i]` extends what every value has received by one more value. */
  lemma MatchesStep(before: map<int, nat>, after: map<int, nat>, d: seq<int>, i: nat)
    requires i < |d| && StrictlyDescending(d)
    requires Matches(before, d, i, Elements(d), d[0]) && HandedDown(before, after, d, d[i])
    ensures Matches(after, d, i + 1, Elements(d), d[0])
  {
    ReceivedComplete(d, i);
  }

  /** Once all values are handed on, the smallest holds its number of chains. */
  lemma MatchesEnd(intern: map<int, nat>, d: seq<int>)
    requires |d| > 0 && StrictlyDescending(d) && Matches(intern, d, |d|, Elements(d), d[0])
    ensures Lookup(intern, d[|d| - 1]) == Ways(Elements(d), d[|d| - 1], d[0])
  {
    ReceivedStable(d, |d|, |d| - 1, Elements(d), d[0]);
    ReceivedComplete(d, |d| - 1);
  }

  /**
   * The inner pass of `find_chains`: every entry of `d` that is 1 to 3 below
   * `value` has the count of `value` added to it.
   */
  method HandDown(storage: Storage, d: seq<int>, value: int)
    modifies storage
    ensures Lookup(storage.intern, value) == Lookup(old(storage.intern), value)
    ensures StrictlyDescending(d) ==> HandedDown(old(storage.intern), storage.intern, d, value)
  {
    for j := 0 to |d|
      invariant Lookup(storage.intern, value) == Lookup(old(storage.intern), value)
      invariant StrictlyDescending(d) ==> forall m | 0 <= m < |d| ::
        Lookup(storage.intern, d[m]) == Lookup(old(storage.intern), d[m])
          + (if m < j && 0 < value - d[m] <= 3 then Lookup(old(storage.intern), value) else 0)
    {
      var next := d[j];
      if 0 < value - next <= 3 {
        storage.Add(next, storage.Get(value));
      }
    }
  }

  /**
   * `find_chains`: walks the values largest first; each hands its count to
   * the values 1 to 3 below it. The count of the smallest value is then the
   * number of chains from the smallest to the largest value (when no value
   * repeats). An empty input panics in the source.
   */
  method FindChains(input: seq<int>) returns (count: nat)
    requires |input| > 0
    ensures Distinct(input) ==> count == Ways(Elements(input), Min(input), Max(input))
  {
    var storage := new Storage();
    var d := Reversed(Sort(input));
    DescendingOrder(input, Sort(input), d);
    ghost var strict := StrictlyDescending(d);
    var target := d[0];
    var first := d[|d| - 1];
    storage.Set(target, 1);
    HandAllDown(storage, d);
    if strict {
      MatchesEnd(storage.intern, d);
    }
    count := storage.Get(first);
  }

  /** The outer loop of `find_chains`: every value, largest first, hands its count down. */
  method HandAllDown(storage: Storage, d: seq<int>)
    requires |d| > 0 && StrictlyDescending(d) ==> Matches(storage.intern, d, 0, Elements(d), d[0])
    modifies storage
    ensures |d| > 0 && StrictlyDescending(d) ==> Matches(storage.intern, d, |d|, Elements(d), d[0])
  {
    ghost var strict := |d| > 0 && StrictlyDescending(d);
    for i := 0 to |d|
      invariant strict ==> Matches(storage.intern, d, i, Elements(d), d[0])
    {
      var value := d[i];
      ghost var before := storage.intern;
      HandDown(storage, d, value);
      if strict {
        MatchesStep(before, storage.intern, d, i);
      }
    }
  }

  /** The first example's adapters, padded with the outlet 0 and the device 22. */
  const ExampleJoltages: set<int> := {16, 10, 15, 5, 1, 11, 7, 19, 6, 12, 4, 22, 0}

  /** The chains from the upper half of the example. */
  lemma FindChainsExampleUpper()
    ensures Ways(ExampleJoltages, 12, 22) == 1 && Ways(ExampleJoltages, 11, 22) == 1
    ensures Ways(ExampleJoltages, 10, 22) == 2
  {
    var S := ExampleJoltages;
    assert Ways(S, 19, 22) == 1;
    assert Ways(S, 16, 22) == 1;
    assert Ways(S, 15, 22) == 1;
    assert Ways(S, 12, 22) == 1;
    assert Ways(S, 11, 22) == 1;
  }

  /** The example adapters, padded with 0 and 22, chain in 8 ways. */
  lemma FindChainsExample()
    ensures Ways(ExampleJoltages, 0, 22) == 8
  {
    var S := ExampleJoltages;
    FindChainsExampleUpper();
    assert Ways(S, 7, 22) == 2;
    assert Ways(S, 6, 22) == 2;
    assert Ways(S, 5, 22) == 4;
    assert Ways(S, 4, 22) == 8;
    assert Ways(S, 1, 22) == 8;
  }
}
