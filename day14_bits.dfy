/**
 * Day 14 (docking data): 36-bit values as strings of binary digits, most
 * significant first, as `format!("{:036b}", v)` writes them and
 * `usize::from_str_radix(s, 2)` reads them back.
 */
module Day14Bits {
  import opened Arith

  predicate IsBinary(s: string)
  {
    forall i | 0 <= i < |s| :: s[i] == '0' || s[i] == '1'
  }

  /** The `width` lowest bits of `v`, most significant first. */
  function BinaryString(v: nat, width: nat): (s: string)
    ensures |s| == width && IsBinary(s)
    decreases width
  {
    if width == 0 then "" else BinaryString(v / 2, width - 1) + [if v % 2 == 0 then '0' else '1']
  }

  /** `usize::from_str_radix(s, 2)` on a string of binary digits. */
  function ParseBinary(s: string): (v: nat)
    requires IsBinary(s)
    ensures v < Pow2(|s|)
    decreases |s|
  {
    if |s| == 0 then 0 else 2 * ParseBinary(s[..|s| - 1]) + (if s[|s| - 1] == '1' then 1 else 0)
  }

  /** Reading back the low bits gives the value modulo the width's power of two. */
  lemma {:induction false} ParseBinaryString(v: nat, width: nat)
    ensures ParseBinary(BinaryString(v, width)) == v % Pow2(width)
    decreases width
  {
    if width > 0 {
      var s := BinaryString(v, width);
      assert s[..width - 1] == BinaryString(v / 2, width - 1);
      ParseBinaryString(v / 2, width - 1);
      var p := Pow2(width - 1);
      var h := v / 2;
      var q, m := h / p, h % p;
      DivMod(v, 2);
      DivMod(h, p);
      DoubleSplit(h, q, p, m);
      ModUnique(v, 2 * p, q, 2 * m + v % 2);
    }
  }

  /** Writing a binary string's value back at its width gives the string. */
  lemma {:induction false} BinaryStringParse(s: string)
    requires IsBinary(s)
    ensures BinaryString(ParseBinary(s), |s|) == s
    decreases |s|
  {
    if |s| > 0 {
      var n := |s| - 1;
      var x, b := ParseBinary(s[..n]), if s[n] == '1' then 1 else 0;
      HalveDouble(x, b);
      BinaryStringParse(s[..n]);
      assert s == s[..n] + [s[n]];
    }
  }

  /** Values below the width's power of two are fully kept. */
  lemma ParseBinaryStringSmall(v: nat, width: nat)
    requires v < Pow2(width)
    ensures ParseBinary(BinaryString(v, width)) == v
  {
    ParseBinaryString(v, width);
    ModUnique(v, Pow2(width), 0, v);
  }

  lemma DoubleSplit(h: int, q: int, p: int, m: int)
    requires h == q * p + m
    ensures 2 * h == q * (2 * p) + 2 * m
  {
  }

  /** Halving `2 * x + b` for a bit `b`. */
  lemma HalveDouble(x: nat, b: nat)
    requires b < 2
    ensures (2 * x + b) / 2 == x && (2 * x + b) % 2 == b
  {
    ModUnique(2 * x + b, 2, x, b);
  }

  /** The number of binary digits `{:b}` writes for `v` (at least one). */
  function BitLength(v: nat): (n: nat)
    ensures 1 <= n && v < Pow2(n)
  {
    if v < 2 then 1 else 1 + BitLength(v / 2)
  }

  /** A value below `2^n` needs at most `n` digits. */
  lemma {:induction false} BitLengthBound(v: nat, n: nat)
    requires 1 <= n && v < Pow2(n)
    ensures BitLength(v) <= n
    decreases n
  {
    if v >= 2 {
      assert n >= 2;
      BitLengthBound(v / 2, n - 1);
    }
  }

  /** Values below `2^width` have different `width`-digit strings. */
  lemma BinaryStringInjective(a: nat, b: nat, width: nat)
    requires a < Pow2(width) && b < Pow2(width) && BinaryString(a, width) == BinaryString(b, width)
    ensures a == b
  {
    ParseBinaryStringSmall(a, width);
    ParseBinaryStringSmall(b, width);
  }

  /** `format!("{:036b}", v)`: the binary digits of `v`, padded with zeros to at least 36. */
  function Format036b(v: nat): (s: string)
    ensures |s| >= 36 && IsBinary(s)
  {
    BinaryString(v, if BitLength(v) > 36 then BitLength(v) else 36)
  }

  /** Below `2^36` the padded digits are exactly the 36 low bits. */
  lemma Format036bSmall(v: nat)
    requires v < Pow2(36)
    ensures Format036b(v) == BinaryString(v, 36)
  {
    BitLengthBound(v, 36);
  }
}
