/**
 * Day 1 (report repair): the input is one number per line; the answer is a
 * choice of `len` entries, at distinct positions, whose values sum to `x`.
 * Choices are enumerated as `Itertools::combinations` does: strictly
 * increasing position lists in lexicographic order.
 */
module Day01 {
  import opened Wrappers
  import opened Text
  import opened Seqs

  /** `c` lists `k` positions of `lo..n` in strictly increasing order. */
  predicate IsChoice(c: seq<nat>, lo: nat, n: nat, k: nat)
  {
    && |c| == k
    && (forall i | 0 <= i < |c| :: lo <= c[i] < n)
    && (forall i, j | 0 <= i < j < |c| :: c[i] < c[j])
  }

  function PrefixAll(i: nat, cs: seq<seq<nat>>): (r: seq<seq<nat>>)
    ensures |r| == |cs| && forall j | 0 <= j < |r| :: r[j] == [i] + cs[j]
  {
    seq(|cs|, j requires 0 <= j < |cs| => [i] + cs[j])
  }

  /** The `k`-element position lists over `lo..n`, in the order `combinations(k)` yields them. */
  function Choose(lo: nat, n: nat, k: nat): seq<seq<nat>>
    decreases n - lo, k
  {
    if k == 0 then [[]]
    else if lo >= n then []
    else PrefixAll(lo, Choose(lo + 1, n, k - 1)) + Choose(lo + 1, n, k)
  }

  /** Every listed choice is an increasing list of `k` positions of `lo..n`. */
  lemma {:induction false} ChooseSound(lo: nat, n: nat, k: nat, c: seq<nat>)
    requires c in Choose(lo, n, k)
    ensures IsChoice(c, lo, n, k)
    decreases n - lo, k
  {
    if k > 0 && lo < n {
      var shorter := Choose(lo + 1, n, k - 1);
      var with := PrefixAll(lo, shorter);
      if c in with {
        var j :| 0 <= j < |with| && with[j] == c;
        ChooseSound(lo + 1, n, k - 1, shorter[j]);
        PrefixChoice(lo, n, k, shorter[j]);
      } else {
        ChooseSound(lo + 1, n, k, c);
      }
    }
  }

  lemma PrefixChoice(lo: nat, n: nat, k: nat, d: seq<nat>)
    requires lo < n && k > 0 && IsChoice(d, lo + 1, n, k - 1)
    ensures IsChoice([lo] + d, lo, n, k)
  {
    var c := [lo] + d;
    forall i, j | 0 <= i < j < |c|
      ensures c[i] < c[j]
    {
      if i > 0 {
        assert c[i] == d[i - 1] && c[j] == d[j - 1];
      }
    }
  }

  /** Every increasing list of `k` positions of `lo..n` is listed. */
  lemma {:induction false} ChooseComplete(lo: nat, n: nat, k: nat, c: seq<nat>)
    requires IsChoice(c, lo, n, k)
    ensures c in Choose(lo, n, k)
    decreases n - lo, k
  {
    if k > 0 {
      assert lo <= c[0] < n;
      if c[0] == lo {
        ChoiceTail(lo, n, k, c);
        ChooseComplete(lo + 1, n, k - 1, c[1..]);
        PrefixAllMember(lo, Choose(lo + 1, n, k - 1), c);
      } else {
        ChoiceRaise(lo, n, k, c);
        ChooseComplete(lo + 1, n, k, c);
      }
    }
  }

  /** Without its first position `lo`, a choice is a choice over `lo + 1..n`. */
  lemma ChoiceTail(lo: nat, n: nat, k: nat, c: seq<nat>)
    requires IsChoice(c, lo, n, k) && k > 0 && c[0] == lo
    ensures IsChoice(c[1..], lo + 1, n, k - 1)
  {
    forall i | 0 <= i < |c[1..]|
      ensures lo + 1 <= c[1..][i]
    {
      assert c[0] < c[i + 1];
    }
  }

  /** A choice that does not start at `lo` is a choice over `lo + 1..n`. */
  lemma ChoiceRaise(lo: nat, n: nat, k: nat, c: seq<nat>)
    requires IsChoice(c, lo, n, k) && k > 0 && c[0] != lo
    ensures IsChoice(c, lo + 1, n, k)
  {
    forall i | 0 <= i < |c|
      ensures lo + 1 <= c[i]
    {
      if i > 0 {
        assert c[0] < c[i];
      }
    }
  }

  /** A list starting with `i` whose rest is in `cs` is in `PrefixAll(i, cs)`. */
  lemma PrefixAllMember(i: nat, cs: seq<seq<nat>>, c: seq<nat>)
    requires |c| > 0 && c[0] == i && c[1..] in cs
    ensures c in PrefixAll(i, cs)
  {
    var j :| 0 <= j < |cs| && cs[j] == c[1..];
    assert PrefixAll(i, cs)[j] == c;
  }

  /** The values at the chosen positions. */
  function Pick(vec: seq<nat>, c: seq<nat>): (v: seq<nat>)
    requires forall i | 0 <= i < |c| :: c[i] < |vec|
    ensures |v| == |c| && forall i | 0 <= i < |c| :: v[i] == vec[c[i]]
  {
    seq(|c|, i requires 0 <= i < |c| => vec[c[i]])
  }

  function Total(v: seq<nat>): nat
  {
    if v == [] then 0 else v[0] + Total(v[1..])
  }

  /** The picks of the choices in `cs` whose sum is `x`, in order. */
  function Summing(vec: seq<nat>, x: nat, cs: seq<seq<nat>>): (r: seq<seq<nat>>)
    requires forall c, i | c in cs && 0 <= i < |c| :: c[i] < |vec|
    ensures |r| <= |cs|
    ensures forall v | v in r :: Total(v) == x && exists c | c in cs :: v == Pick(vec, c)
    ensures forall c | c in cs && Total(Pick(vec, c)) == x :: Pick(vec, c) in r
  {
    if cs == [] then []
    else
      var v := Pick(vec, cs[0]);
      (if Total(v) == x then [v] else []) + Summing(vec, x, cs[1..])
  }

  /** All `k`-element position lists over `0..n`, each an increasing list. */
  function Choices(n: nat, k: nat): (r: seq<seq<nat>>)
    ensures forall c | c in r :: IsChoice(c, 0, n, k)
  {
    var cs := Choose(0, n, k);
    assert forall c | c in cs :: IsChoice(c, 0, n, k) by {
      forall c | c in cs
        ensures IsChoice(c, 0, n, k)
      {
        ChooseSound(0, n, k, c);
      }
    }
    cs
  }

  /** `get_all_summed_to_x`: every `len`-combination of the entries whose sum is `x`. */
  function AllSummedTo(vec: seq<nat>, x: nat, len: nat): (r: seq<seq<nat>>)
  {
    Summing(vec, x, Choices(|vec|, len))
  }

  /**
   * The results are exactly the picks of `len` distinct positions, in
   * increasing order, whose values sum to `x`.
   */
  lemma AllSummedToMember(vec: seq<nat>, x: nat, len: nat, v: seq<nat>)
    ensures v in AllSummedTo(vec, x, len) <==>
      (exists c | IsChoice(c, 0, |vec|, len) :: v == Pick(vec, c)) && Total(v) == x
  {
    var cs := Choices(|vec|, len);
    if v in AllSummedTo(vec, x, len) {
      var c :| c in cs && v == Pick(vec, c);
    }
    if (exists c | IsChoice(c, 0, |vec|, len) :: v == Pick(vec, c)) && Total(v) == x {
      var c :| IsChoice(c, 0, |vec|, len) && v == Pick(vec, c);
      ChooseComplete(0, |vec|, len, c);
    }
  }

  /** The positions `c` are positions of `vec` and the values there sum to `x`. */
  predicate SumsTo(vec: seq<nat>, x: nat, c: seq<nat>)
  {
    (forall i | 0 <= i < |c| :: c[i] < |vec|) && Total(Pick(vec, c)) == x
  }

  /** `cs[i]` is the first choice of `cs` whose values sum to `x`, and `v` holds those values. */
  predicate FirstSumming(vec: seq<nat>, x: nat, cs: seq<seq<nat>>, i: nat, v: seq<nat>)
  {
    && i < |cs|
    && SumsTo(vec, x, cs[i])
    && v == Pick(vec, cs[i])
    && forall j | 0 <= j < i :: !SumsTo(vec, x, cs[j])
  }

  /** The first pick kept by `Summing` is that of the first choice whose values sum to `x`. */
  lemma {:induction false} SummingFirst(vec: seq<nat>, x: nat, cs: seq<seq<nat>>)
    requires forall c, i | c in cs && 0 <= i < |c| :: c[i] < |vec|
    requires Summing(vec, x, cs) != []
    ensures exists i :: FirstSumming(vec, x, cs, i, Summing(vec, x, cs)[0])
  {
    var v := Pick(vec, cs[0]);
    var tail := cs[1..];
    assert Summing(vec, x, cs) == (if Total(v) == x then [v] else []) + Summing(vec, x, tail);
    if Total(v) == x {
      assert cs[0] in cs;
      assert FirstSumming(vec, x, cs, 0, Summing(vec, x, cs)[0]);
    } else {
      assert Summing(vec, x, cs) == Summing(vec, x, tail);
      SummingFirst(vec, x, tail);
      var i: nat :| FirstSumming(vec, x, tail, i, Summing(vec, x, tail)[0]);
      forall j | 0 <= j < i + 1
        ensures !SumsTo(vec, x, cs[j])
      {
        if j > 0 {
          assert cs[j] == tail[j - 1];
        }
      }
      assert cs[i + 1] == tail[i];
      assert FirstSumming(vec, x, cs, i + 1, Summing(vec, x, cs)[0]);
    }
  }

  /**
   * `get_first_summed_to_x`: the values at the first `len` positions, in the
   * order `combinations` yields them, whose values sum to `x`, if any.
   */
  function FirstSummedTo(vec: seq<nat>, x: nat, len: nat): (r: Option<seq<nat>>)
    ensures r.Some? ==> |r.value| == len && Total(r.value) == x
    ensures r.Some? ==> exists i :: FirstSumming(vec, x, Choices(|vec|, len), i, r.value)
    ensures r.None? <==> forall c | IsChoice(c, 0, |vec|, len) :: Total(Pick(vec, c)) != x
  {
    var all := AllSummedTo(vec, x, len);
    if all == [] then
      assert forall c | IsChoice(c, 0, |vec|, len) :: Total(Pick(vec, c)) != x by {
        forall c | IsChoice(c, 0, |vec|, len)
          ensures Total(Pick(vec, c)) != x
        {
          AllSummedToMember(vec, x, len, Pick(vec, c));
        }
      }
      None
    else
      AllSummedToMember(vec, x, len, all[0]);
      SummingFirst(vec, x, Choices(|vec|, len));
      Some(all[0])
  }

  /** `get_contents`: the lines that parse as unsigned numbers, in order; the rest are dropped. */
  function Contents(input: string): (r: seq<nat>)
  {
    ParsedLines(Lines(input))
  }

  function ParsedLines(lines: seq<string>): (r: seq<nat>)
    ensures |r| <= |lines|
    ensures forall v | v in r :: exists l | l in lines :: ParseNat(l) == Some(v)
    ensures forall l | l in lines && ParseNat(l).Some? :: ParseNat(l).value in r
  {
    if lines == [] then []
    else
      (match ParseNat(lines[0]) case Some(v) => [v] case None => []) + ParsedLines(lines[1..])
  }

  predicate IsNumberLine(line: string)
  {
    ParseNat(line).Some?
  }

  /**
   * One value per line that parses, in the order of those lines: the `k`-th
   * value is the number on the `k`-th such line.
   */
  lemma {:induction false} ParsedLinesInOrder(lines: seq<string>)
    ensures |ParsedLines(lines)| == |Filter(lines, IsNumberLine)|
    ensures forall k | 0 <= k < |ParsedLines(lines)| ::
      ParseNat(Filter(lines, IsNumberLine)[k]) == Some(ParsedLines(lines)[k])
  {
    if lines != [] {
      ParsedLinesInOrder(lines[1..]);
      var kept, rest := Filter(lines[1..], IsNumberLine), ParsedLines(lines[1..]);
      if IsNumberLine(lines[0]) {
        assert Filter(lines, IsNumberLine) == [lines[0]] + kept;
        assert ParsedLines(lines) == [ParseNat(lines[0]).value] + rest;
        NumbersCons(lines[0], ParseNat(lines[0]).value, kept, rest);
      } else {
        assert Filter(lines, IsNumberLine) == kept;
        assert ParsedLines(lines) == rest;
      }
    }
  }

  /** A number line in front of lines whose numbers are `rest` has the numbers `[b] + rest`. */
  lemma NumbersCons(a: string, b: nat, kept: seq<string>, rest: seq<nat>)
    requires ParseNat(a) == Some(b) && |kept| == |rest|
    requires forall k | 0 <= k < |rest| :: ParseNat(kept[k]) == Some(rest[k])
    ensures forall k | 0 <= k < |rest| + 1 :: ParseNat(([a] + kept)[k]) == Some(([b] + rest)[k])
  {
    forall k | 1 <= k < |rest| + 1
      ensures ParseNat(([a] + kept)[k]) == Some(([b] + rest)[k])
    {
      assert ([a] + kept)[k] == kept[k - 1];
    }
  }

}
