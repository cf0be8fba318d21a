/**
 * Index arithmetic of the feature carousel.
 *
 * The carousel wraps indices with `((i % n) + n) % n`, where `%` is the
 * JavaScript remainder operator: it truncates toward zero, so its result
 * carries the sign of the dividend. Dafny's own `%` is Euclidean (never
 * negative), so the JavaScript operator is written out here as `JsRem` and
 * the wrap is then proved to agree with the Euclidean remainder.
 */
module IndexMath {

  /** JavaScript's `a % n` for a positive divisor: truncated remainder. */
  function JsRem(a: int, n: int): (r: int)
    requires n > 0
    ensures -n < r < n
    ensures a >= 0 ==> r >= 0
    ensures a < 0 ==> r <= 0
  {
    if a >= 0 then a % n else -((-a) % n)
  }

  /** Euclidean division is unique: any decomposition `a == n*q + r` with
      `0 <= r < n` is the one Dafny's `/` and `%` produce. */
  lemma ModUnique(a: int, n: int, q: int, r: int)
    requires n > 0 && 0 <= r < n && a == n * q + r
    ensures a % n == r
  {
    var q0, r0 := a / n, a % n;
    var d := q - q0;
    assert n * d == r0 - r;
    if d >= 1 {
      MulAtLeast(n, d);
      assert false;
    } else if d <= -1 {
      MulAtLeast(n, -d);
      assert false;
    }
  }

  lemma MulAtLeast(n: int, k: int)
    requires n > 0 && k >= 1
    ensures n * k >= n
  {
  }

  /** The truncated remainder differs from the dividend by a multiple of `n`. */
  lemma {:induction false} JsRemCongruent(a: int, n: int)
    requires n > 0
    ensures (a - JsRem(a, n)) % n == 0
  {
    if a >= 0 {
      ModUnique(a - a % n, n, a / n, 0);
    } else {
      var b := -a;
      assert a - JsRem(a, n) == -(b - b % n);
      ModUnique(a - JsRem(a, n), n, -(b / n), 0);
    }
  }

  /** `((i % n) + n) % n` with JavaScript's `%`, as the carousel computes it. */
  function WrapIndex(i: int, n: int): (r: int)
    requires n > 0
    ensures 0 <= r < n
  {
    JsRem(JsRem(i, n) + n, n)
  }

  /** For every integer `i`, negative ones included, the JavaScript wrap is
      exactly the Euclidean remainder: the one index in `[0, n)` congruent
      to `i` modulo `n`. */
  lemma {:induction false} WrapIndexIsEuclideanMod(i: int, n: int)
    requires n > 0
    ensures WrapIndex(i, n) == i % n
    ensures (i - WrapIndex(i, n)) % n == 0
  {
    var r := JsRem(i, n);
    JsRemCongruent(i, n);
    var k := (i - r) / n;
    assert i - r == n * k;
    // r + n is positive, so the outer `%` is the Euclidean one
    var w := (r + n) % n;
    assert WrapIndex(i, n) == w;
    var k2 := (r + n) / n;
    assert r + n == n * k2 + w;
    assert i == n * (k + k2 - 1) + w;
    ModUnique(i, n, k + k2 - 1, w);
    ModUnique(i - w, n, k + k2 - 1, 0);
  }

  /** Wrapping an intermediate index does not change the final wrapped
      result: `wrap(wrap(i) + d) == wrap(i + d)`. */
  lemma {:induction false} WrapIndexShift(i: int, d: int, n: int)
    requires n > 0
    ensures WrapIndex(WrapIndex(i, n) + d, n) == WrapIndex(i + d, n)
  {
    WrapIndexIsEuclideanMod(i, n);
    WrapIndexIsEuclideanMod(WrapIndex(i, n) + d, n);
    WrapIndexIsEuclideanMod(i + d, n);
    ModOfSum(i, d, n);
  }

  /** Reducing one summand first leaves the Euclidean remainder unchanged. */
  lemma ModOfSum(a: int, b: int, n: int)
    requires n > 0
    ensures (a % n + b) % n == (a + b) % n
  {
    var q, q2, m := a / n, (a % n + b) / n, (a % n + b) % n;
    assert a == n * q + a % n;
    assert a % n + b == n * q2 + m;
    assert n * q + n * q2 == n * (q + q2);
    ModUnique(a + b, n, q + q2, m);
  }

  /** An index already in range is left where it is. */
  lemma WrapIndexInRange(i: int, n: int)
    requires n > 0 && 0 <= i < n
    ensures WrapIndex(i, n) == i
  {
    ModUnique(i, n, 0, i);
    ModUnique(i + n, n, 1, i);
  }
}
