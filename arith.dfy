/** Facts about integer multiplication and Euclidean division used by several puzzles. */
module Arith {

  /** Two to the power `n`. */
  function Pow2(n: nat): (p: nat)
    ensures p >= 1
  {
    if n == 0 then 1 else 2 * Pow2(n - 1)
  }

  lemma MulMono(a: int, b: int, w: int)
    requires w > 0 && a <= b
    ensures a * w <= b * w
    ensures (a + 1) * w == a * w + w
  {
    var d := b - a;
    assert b * w == a * w + d * w;
  }

  lemma MulSucc(a: int, w: int)
    ensures (a + 1) * w == a * w + w
  {
  }

  /** Quotient and remainder are the only ones with `a == q * w + r` and `0 <= r < w`. */
  lemma ModUnique(a: int, w: int, q: int, r: int)
    requires w > 0 && 0 <= r < w && a == q * w + r
    ensures a % w == r && a / w == q
  {
    var q' := a / w;
    if q' > q {
      MulMono(q + 1, q', w);
    } else if q' < q {
      MulMono(q' + 1, q, w);
    }
  }

  /** Adding the modulus does not change the remainder. */
  lemma ModPeriod(x: int, w: int)
    requires w > 0
    ensures (x + w) % w == x % w
  {
    assert x + w == (x / w + 1) * w + x % w;
    ModUnique(x + w, w, x / w + 1, x % w);
  }

  /** Adding a multiple of the modulus does not change the remainder. */
  lemma ModAddMultiple(a: int, k: int, m: int)
    requires m > 0
    ensures (a + k * m) % m == a % m
  {
    assert a + k * m == (a / m + k) * m + a % m;
    ModUnique(a + k * m, m, a / m + k, a % m);
  }

  /** A factor may be replaced by its remainder before taking the product's remainder. */
  lemma ModMulRight(a: int, b: int, m: int)
    requires m > 0
    ensures (a * b) % m == (a * (b % m)) % m
  {
    var q, r := b / m, b % m;
    assert a * b == a * r + (a * q) * m;
    ModAddMultiple(a * r, a * q, m);
  }

  /** The remainder of a remainder is the remainder. */
  lemma ModMod(a: int, m: int)
    requires m > 0
    ensures (a % m) % m == a % m
  {
    ModUnique(a % m, m, 0, a % m);
  }

  /** Exact division: a multiple of `w` divided by `w` gives back the factor. */
  lemma DivExact(a: int, w: int, q: int)
    requires w > 0 && a == w * q
    ensures a / w == q && a % w == 0
  {
    assert a == q * w + 0;
    ModUnique(a, w, q, 0);
  }

  /** A product with a factor that is a multiple of `m` is a multiple of `m`. */
  lemma MultipleFactor(x: int, y: int, z: int, m: int, c: int)
    requires m > 0 && y == m * c
    ensures (x * y * z) % m == 0
  {
    assert x * y * z == 0 + (x * c * z) * m;
    ModAddMultiple(0, x * c * z, m);
  }

  /** Division and remainder put back together give the dividend. */
  lemma DivMod(a: int, w: int)
    requires w > 0
    ensures a == (a / w) * w + a % w
  {
  }
}
