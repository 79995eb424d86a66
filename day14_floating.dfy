/**
 * Day 14, version 2 addresses: a pattern over `0`, `1` and `X` stands for
 * every binary string that agrees with it outside the `X` positions. The
 * expansion below lists them in the order `Mask::apply_v2` builds them:
 * earlier floating bits vary slowest, `0` before `1`.
 */
module Day14Floating {
  import opened Seqs
  import opened Arith
  import opened Day14Bits

  /** `t` is one of the binary strings `pattern` stands for. */
  predicate Fits(t: string, pattern: string)
  {
    |t| == |pattern| &&
    forall i | 0 <= i < |t| :: if pattern[i] == 'X' then t[i] == '0' || t[i] == '1' else t[i] == pattern[i]
  }

  /** Each of `ps` with `suffix` appended. */
  function AppendAll(ps: seq<string>, suffix: string): (r: seq<string>)
    ensures |r| == |ps| && forall k | 0 <= k < |r| :: r[k] == ps[k] + suffix
  {
    seq(|ps|, k requires 0 <= k < |ps| => ps[k] + suffix)
  }

  /**
   * The inner loop of `apply_v2`: for each prefix in order, the prefix
   * followed by `0` and the chunk, then by `1` and the chunk.
   */
  function Branch(ps: seq<string>, chunk: string): (r: seq<string>)
    ensures |r| == 2 * |ps|
    decreases |ps|
  {
    if |ps| == 0 then []
    else Branch(ps[..|ps| - 1], chunk) + [ps[|ps| - 1] + "0" + chunk, ps[|ps| - 1] + "1" + chunk]
  }

  /** Where each prefix's two extensions sit in a branch. */
  lemma {:induction false} BranchIndex(ps: seq<string>, chunk: string, j: nat)
    requires j < 2 * |ps|
    ensures Branch(ps, chunk)[j] == ps[j / 2] + (if j % 2 == 0 then "0" else "1") + chunk
    decreases |ps|
  {
    var n := |ps| - 1;
    if j < 2 * n {
      BranchIndex(ps[..n], chunk, j);
    }
  }

  /** Every binary string the pattern stands for, in the order of `apply_v2`. */
  function Expand(pattern: string): (r: seq<string>)
    decreases |pattern|
  {
    if |pattern| == 0 then [""]
    else
      var pre := Expand(pattern[..|pattern| - 1]);
      var c := pattern[|pattern| - 1];
      if c == 'X' then Branch(pre, "") else AppendAll(pre, [c])
  }

  /** A tail without `X` is copied onto every expansion. */
  lemma {:induction false} ExpandFixedTail(a: string, b: string)
    requires 'X' !in b
    ensures Expand(a + b) == AppendAll(Expand(a), b)
    decreases |b|
  {
    if |b| == 0 {
      assert a + b == a;
      forall k | 0 <= k < |Expand(a)|
        ensures Expand(a)[k] + b == Expand(a)[k]
      {
      }
    } else {
      var n := |b| - 1;
      ExpandFixedTail(a, b[..n]);
      assert (a + b)[..|a + b| - 1] == a + b[..n];
      assert (a + b)[|a + b| - 1] == b[n];
      assert b[n] != 'X' by {
        assert b[n] in b;
      }
      var e := Expand(a);
      assert Expand(a + b) == AppendAll(AppendAll(e, b[..n]), [b[n]]);
      forall k | 0 <= k < |e|
        ensures e[k] + b[..n] + [b[n]] == e[k] + b
      {
        assert b[..n] + [b[n]] == b;
      }
    }
  }

  /** Appending a chunk to every branch of the prefixes is branching with that chunk. */
  lemma {:induction false} BranchAppend(ps: seq<string>, chunk: string)
    ensures AppendAll(Branch(ps, ""), chunk) == Branch(ps, chunk)
    decreases |ps|
  {
    if |ps| > 0 {
      var n := |ps| - 1;
      BranchAppend(ps[..n], chunk);
      assert ps[n] + "0" + "" + chunk == ps[n] + "0" + chunk;
      assert ps[n] + "1" + "" + chunk == ps[n] + "1" + chunk;
    }
  }

  /** One pass of the outer loop of `apply_v2`: a floating bit followed by an `X`-free chunk. */
  lemma ExpandChunk(a: string, chunk: string)
    requires 'X' !in chunk
    ensures Expand(a + "X" + chunk) == Branch(Expand(a), chunk)
  {
    ExpandFixedTail(a + "X", chunk);
    assert (a + "X")[..|a|] == a;
    BranchAppend(Expand(a), chunk);
  }

  /** The start of `apply_v2`: a pattern without `X` stands for itself alone. */
  lemma ExpandFixed(chunk: string)
    requires 'X' !in chunk
    ensures Expand(chunk) == [chunk]
  {
    ExpandFixedTail("", chunk);
    assert "" + chunk == chunk;
  }

  /** There are two to the number of `X` expansions. */
  lemma {:induction false} ExpandCount(pattern: string)
    ensures |Expand(pattern)| == Pow2(Count(pattern, 'X'))
    decreases |pattern|
  {
    if |pattern| > 0 {
      var n := |pattern| - 1;
      var c := pattern[n];
      ExpandCount(pattern[..n]);
      CountAppend(pattern[..n], [c], 'X');
      assert pattern[..n] + [c] == pattern;
      assert Count([c], 'X') == if c == 'X' then 1 else 0 by {
        assert [c][1..] == [];
      }
    }
  }

  /** Every expansion fits the pattern. */
  lemma {:induction false} ExpandSound(pattern: string, k: nat)
    requires k < |Expand(pattern)|
    ensures Fits(Expand(pattern)[k], pattern)
    decreases |pattern|
  {
    if |pattern| > 0 {
      var n := |pattern| - 1;
      var pre := Expand(pattern[..n]);
      var t := Expand(pattern)[k];
      if pattern[n] == 'X' {
        BranchIndex(pre, "", k);
        ExpandSound(pattern[..n], k / 2);
        assert t == pre[k / 2] + (if k % 2 == 0 then "0" else "1");
      } else {
        ExpandSound(pattern[..n], k);
        assert t == pre[k] + [pattern[n]];
      }
    }
  }

  /** Every string that fits the pattern is among the expansions. */
  lemma {:induction false} ExpandComplete(pattern: string, t: string)
    requires Fits(t, pattern)
    ensures t in Expand(pattern)
    decreases |pattern|
  {
    if |pattern| > 0 {
      var n := |pattern| - 1;
      var pre := Expand(pattern[..n]);
      assert Fits(t[..n], pattern[..n]);
      ExpandComplete(pattern[..n], t[..n]);
      var k :| 0 <= k < |pre| && pre[k] == t[..n];
      assert t == t[..n] + [t[n]];
      if pattern[n] == 'X' {
        var j := if t[n] == '0' then 2 * k else 2 * k + 1;
        BranchIndex(pre, "", j);
        assert Expand(pattern)[j] == t;
      } else {
        assert Expand(pattern)[k] == t;
      }
    }
  }

  /** Two different positions of an expansion hold different strings. */
  lemma ExpandPairDistinct(pattern: string, i: nat, j: nat)
    requires |pattern| > 0 && Distinct(Expand(pattern[..|pattern| - 1]))
    requires i < j < |Expand(pattern)|
    ensures Expand(pattern)[i] != Expand(pattern)[j]
  {
    var n := |pattern| - 1;
    var pre := Expand(pattern[..n]);
    var r := Expand(pattern);
    if pattern[n] == 'X' {
      BranchIndex(pre, "", i);
      BranchIndex(pre, "", j);
      ExpandSound(pattern[..n], i / 2);
      ExpandSound(pattern[..n], j / 2);
      if i / 2 != j / 2 {
        assert pre[i / 2] != pre[j / 2];
        assert r[i][..n] == pre[i / 2] && r[j][..n] == pre[j / 2];
      } else {
        assert i % 2 != j % 2;
        assert r[i][n] != r[j][n];
      }
    } else {
      ExpandSound(pattern[..n], i);
      ExpandSound(pattern[..n], j);
      assert pre[i] != pre[j];
      assert r[i][..n] == pre[i] && r[j][..n] == pre[j];
    }
  }

  /** No string is listed twice. */
  lemma {:induction false} ExpandDistinct(pattern: string)
    ensures Distinct(Expand(pattern))
    decreases |pattern|
  {
    if |pattern| > 0 {
      ExpandDistinct(pattern[..|pattern| - 1]);
      forall i, j | 0 <= i < j < |Expand(pattern)|
        ensures Expand(pattern)[i] != Expand(pattern)[j]
      {
        ExpandPairDistinct(pattern, i, j);
      }
    }
  }
}
