/**
 * Sequence helpers shared by the puzzle models: filtering, distinctness,
 * sums, counts, extrema and sorting.
 */
module Seqs {

  /** No element occurs twice. */
  predicate Distinct<T(==)>(s: seq<T>)
  {
    forall i, j | 0 <= i < j < |s| :: s[i] != s[j]
  }

  /** The values occurring in `s`, as a set. */
  function Elements<T(!new)>(s: seq<T>): (r: set<T>)
    ensures forall x :: x in r <==> x in s
  {
    set x | x in s
  }

  /** The elements of `s` satisfying `keep`, in order (`Iterator::filter`). */
  function Filter<T>(s: seq<T>, keep: T -> bool): (r: seq<T>)
    ensures |r| <= |s|
    ensures forall x | x in r :: x in s && keep(x)
    ensures forall x | x in s && keep(x) :: x in r
  {
    if s == [] then []
    else (if keep(s[0]) then [s[0]] else []) + Filter(s[1..], keep)
  }

  /** Filtering a concatenation filters each part in turn, so the kept elements keep their order. */
  lemma {:induction false} FilterAppend<T>(a: seq<T>, b: seq<T>, keep: T -> bool)
    ensures Filter(a + b, keep) == Filter(a, keep) + Filter(b, keep)
    decreases |a|
  {
    if a == [] {
      assert a + b == b;
    } else {
      var head := if keep(a[0]) then [a[0]] else [];
      var ab := a + b;
      assert ab[0] == a[0] && ab[1..] == a[1..] + b;
      FilterAppend(a[1..], b, keep);
      calc {
        Filter(ab, keep);
        head + Filter(a[1..] + b, keep);
        head + (Filter(a[1..], keep) + Filter(b, keep));
        (head + Filter(a[1..], keep)) + Filter(b, keep);
        Filter(a, keep) + Filter(b, keep);
      }
    }
  }

  /** `r` is `s` with some elements left out: its elements sit at increasing positions of `s`. */
  ghost predicate Embeds<T>(r: seq<T>, s: seq<T>)
  {
    exists idx: seq<nat> :: EmbeddingAt(r, s, idx)
  }

  /** `idx` lists, in increasing order, positions of `s` holding the elements of `r`. */
  ghost predicate EmbeddingAt<T>(r: seq<T>, s: seq<T>, idx: seq<nat>)
  {
    && |idx| == |r|
    && (forall k | 0 <= k < |idx| :: idx[k] < |s| && r[k] == s[idx[k]])
    && (forall k, l | 0 <= k < l < |idx| :: idx[k] < idx[l])
  }

  /** The kept elements sit in the input in the order they are kept. */
  lemma {:induction false} FilterEmbeds<T>(s: seq<T>, keep: T -> bool)
    ensures Embeds(Filter(s, keep), s)
    decreases |s|
  {
    if s == [] {
      assert EmbeddingAt(Filter(s, keep), s, []);
    } else {
      FilterEmbeds(s[1..], keep);
      assert s == [s[0]] + s[1..];
      if keep(s[0]) {
        EmbedsKeep(s[0], Filter(s[1..], keep), s[1..]);
        assert Filter(s, keep) == [s[0]] + Filter(s[1..], keep);
      } else {
        EmbedsSkip(s[0], Filter(s[1..], keep), s[1..]);
        assert Filter(s, keep) == Filter(s[1..], keep);
      }
    }
  }

  /** An element put in front of the longer sequence only is left out. */
  lemma EmbedsSkip<T>(x: T, r: seq<T>, s: seq<T>)
    requires Embeds(r, s)
    ensures Embeds(r, [x] + s)
  {
    var idx :| EmbeddingAt(r, s, idx);
    var shifted := seq(|idx|, k requires 0 <= k < |idx| => idx[k] + 1);
    assert EmbeddingAt(r, [x] + s, shifted);
  }

  /** An element put in front of both sequences is kept at position 0. */
  lemma EmbedsKeep<T>(x: T, r: seq<T>, s: seq<T>)
    requires Embeds(r, s)
    ensures Embeds([x] + r, [x] + s)
  {
    var idx :| EmbeddingAt(r, s, idx);
    var full := [0] + seq(|idx|, k requires 0 <= k < |idx| => idx[k] + 1);
    assert EmbeddingAt([x] + r, [x] + s, full);
  }

  /** Leaving out elements twice is leaving out elements once. */
  lemma EmbedsTrans<T>(a: seq<T>, b: seq<T>, c: seq<T>)
    requires Embeds(a, b) && Embeds(b, c)
    ensures Embeds(a, c)
  {
    var ib :| EmbeddingAt(a, b, ib);
    var ic :| EmbeddingAt(b, c, ic);
    var idx := seq(|ib|, k requires 0 <= k < |ib| => ic[ib[k]]);
    assert EmbeddingAt(a, c, idx);
  }

  /** A kept element occurs as often as in the input, a dropped one not at all. */
  lemma {:induction false} FilterMultiset<T>(s: seq<T>, keep: T -> bool)
    ensures forall x :: multiset(Filter(s, keep))[x] == if keep(x) then multiset(s)[x] else 0
    decreases |s|
  {
    if s != [] {
      FilterMultiset(s[1..], keep);
      assert s == [s[0]] + s[1..];
      assert multiset(s) == multiset{s[0]} + multiset(s[1..]);
    }
  }

  lemma {:induction false} FilterDistinct<T>(s: seq<T>, keep: T -> bool)
    requires Distinct(s)
    ensures Distinct(Filter(s, keep))
  {
    if s != [] {
      FilterDistinct(s[1..], keep);
      assert s[0] !in s[1..];
    }
  }

  /** Filtering out exactly one element of a repetition-free sequence shortens it by one. */
  lemma FilterOutOne<T>(s: seq<T>, keep: T -> bool, x: T)
    requires Distinct(s) && x in s && !keep(x)
    requires forall y | y in s && y != x :: keep(y)
    ensures |Filter(s, keep)| == |s| - 1
  {
    var r := Filter(s, keep);
    FilterDistinct(s, keep);
    DistinctCard(r);
    DistinctCard(s);
    assert (set y | y in r) == (set y | y in s) - {x};
  }

  /** Two repetition-free sequences with no common element concatenate to a repetition-free one. */
  lemma DistinctConcat<T>(a: seq<T>, b: seq<T>)
    requires Distinct(a) && Distinct(b)
    requires forall x | x in a :: x !in b
    ensures Distinct(a + b)
  {
    forall i, j | 0 <= i < j < |a + b|
      ensures (a + b)[i] != (a + b)[j]
    {
      if i < |a| && j >= |a| {
        assert (a + b)[i] in a;
        assert (a + b)[j] == b[j - |a|];
      }
    }
  }

  /** A sequence without repetitions has as many elements as its set of elements. */
  lemma {:induction false} DistinctCard<T>(s: seq<T>)
    requires Distinct(s)
    ensures |set x | x in s| == |s|
  {
    if s != [] {
      DistinctCard(s[1..]);
      var tail := set x | x in s[1..];
      assert (set x | x in s) == tail + {s[0]};
      assert s[0] !in tail;
    }
  }

  function Sum(s: seq<int>): int
  {
    if s == [] then 0 else s[0] + Sum(s[1..])
  }

  lemma {:induction false} SumAppend(a: seq<int>, b: seq<int>)
    ensures Sum(a + b) == Sum(a) + Sum(b)
  {
    if a == [] {
      assert a + b == b;
    } else {
      SumAppend(a[1..], b);
      assert (a + b)[1..] == a[1..] + b;
    }
  }

  /** Number of positions of `s` holding `x`. */
  function Count<T(==)>(s: seq<T>, x: T): nat
  {
    if s == [] then 0 else (if s[0] == x then 1 else 0) + Count(s[1..], x)
  }

  lemma {:induction false} CountAppend<T>(a: seq<T>, b: seq<T>, x: T)
    ensures Count(a + b, x) == Count(a, x) + Count(b, x)
  {
    if a == [] {
      assert a + b == b;
    } else {
      CountAppend(a[1..], b, x);
      assert (a + b)[1..] == a[1..] + b;
    }
  }

  lemma {:induction false} CountIsMultiplicity<T>(s: seq<T>, x: T)
    ensures Count(s, x) == multiset(s)[x]
  {
    if s != [] {
      CountIsMultiplicity(s[1..], x);
      assert s == [s[0]] + s[1..];
    }
  }

  /** A sequence without repeats holds each value at most once. */
  lemma {:induction false} DistinctMultiplicity<T>(s: seq<T>, x: T)
    requires Distinct(s)
    ensures multiset(s)[x] <= 1
  {
    if s != [] {
      assert s == [s[0]] + s[1..];
      DistinctMultiplicity(s[1..], x);
      if s[0] == x {
        assert x !in s[1..];
        assert multiset(s[1..])[x] == 0;
      }
    }
  }

  /** Two equal entries at different positions make the value occur twice. */
  lemma RepeatMultiplicity<T>(t: seq<T>, i: nat, j: nat)
    requires i < j < |t|
    ensures t[i] == t[j] ==> multiset(t)[t[i]] >= 2
  {
    assert t == t[..j] + t[j..];
    assert t[i] in t[..j] && t[j] in t[j..];
  }

  /** Rearranging a sequence without repeats leaves it without repeats. */
  lemma DistinctPermutation<T>(s: seq<T>, t: seq<T>)
    requires Distinct(s) && multiset(s) == multiset(t)
    ensures Distinct(t)
  {
    forall i, j | 0 <= i < j < |t|
      ensures t[i] != t[j]
    {
      DistinctMultiplicity(s, t[i]);
      RepeatMultiplicity(t, i, j);
    }
  }

  predicate Sorted(s: seq<int>)
  {
    forall i, j | 0 <= i < j < |s| :: s[i] <= s[j]
  }

  /** Appending a value no smaller than the last keeps a sequence sorted. */
  lemma SortedAppend(s: seq<int>, x: int)
    requires Sorted(s) && (s == [] || s[|s| - 1] <= x)
    ensures Sorted(s + [x])
  {
  }

  /** Inserts `x` before the first element not below it. */
  function Insert(x: int, s: seq<int>): (r: seq<int>)
    ensures multiset(r) == multiset(s) + multiset{x}
    ensures |r| == |s| + 1 && (r[0] == x || (s != [] && r[0] == s[0]))
  {
    if s == [] || x <= s[0] then [x] + s
    else
      assert s == [s[0]] + s[1..];
      [s[0]] + Insert(x, s[1..])
  }

  /** Inserting into a sorted sequence keeps it sorted. */
  lemma {:induction false} InsertSorted(x: int, s: seq<int>)
    requires Sorted(s)
    ensures Sorted(Insert(x, s))
  {
    if s != [] && x > s[0] {
      var rest := Insert(x, s[1..]);
      InsertSorted(x, s[1..]);
      assert s[0] <= rest[0];
      assert Insert(x, s) == [s[0]] + rest;
    }
  }

  /** The ascending arrangement of `s` (`slice::sort`). */
  function Sort(s: seq<int>): (r: seq<int>)
    ensures Sorted(r)
    ensures multiset(r) == multiset(s)
  {
    if s == [] then []
    else
      assert s == [s[0]] + s[1..];
      var rest := Sort(s[1..]);
      InsertSorted(s[0], rest);
      Insert(s[0], rest)
  }

  function Max(s: seq<int>): (m: int)
    requires |s| > 0
    ensures m in s
    ensures forall i | 0 <= i < |s| :: s[i] <= m
  {
    if |s| == 1 then s[0]
    else
      var rest := Max(s[1..]);
      assert forall i | 1 <= i < |s| :: s[i] == s[1..][i - 1];
      if s[0] >= rest then s[0] else rest
  }

  function Min(s: seq<int>): (m: int)
    requires |s| > 0
    ensures m in s
    ensures forall i | 0 <= i < |s| :: m <= s[i]
  {
    if |s| == 1 then s[0]
    else
      var rest := Min(s[1..]);
      assert forall i | 1 <= i < |s| :: s[i] == s[1..][i - 1];
      if s[0] <= rest then s[0] else rest
  }

  /** The ends of a sorted permutation are the minimum and the maximum. */
  lemma SortedEnds(s: seq<int>, sorted: seq<int>)
    requires |s| > 0 && Sorted(sorted) && multiset(sorted) == multiset(s)
    ensures |sorted| == |s| && sorted[0] == Min(s) && sorted[|sorted| - 1] == Max(s)
  {
    assert |sorted| == |multiset(sorted)| == |multiset(s)| == |s|;
    forall x | x in s
      ensures sorted[0] <= x <= sorted[|sorted| - 1]
    {
      assert x in multiset(sorted);
      var k :| 0 <= k < |sorted| && sorted[k] == x;
    }
    assert sorted[0] in multiset(s) && sorted[|sorted| - 1] in multiset(s);
  }
}
