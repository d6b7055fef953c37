/** Index arithmetic of the engine: JavaScript's `%` operator and the
    always-non-negative `mod` built on top of it. */
module Modular {

  /** JavaScript's `%` on integers: the remainder of division truncated toward
      zero, so its sign follows the dividend `a`. */
  function JsRem(a: int, m: int): (r: int)
    requires m > 0
    ensures -m < r < m
    ensures a >= 0 ==> r >= 0
    ensures a < 0 ==> r <= 0
  {
    if a >= 0 then a % m else -((-a) % m)
  }

  /** `JsRem` is the remainder of division truncated toward zero: `a` is the
      truncated quotient times `m`, plus the remainder. */
  lemma JsRemTruncates(a: int, m: int)
    requires m > 0
    ensures a == (if a >= 0 then a / m else -((-a) / m)) * m + JsRem(a, m)
  {
    if a < 0 {
      var q := (-a) / m;
      assert -a == q * m + (-a) % m;
      assert (-q) * m == -(q * m);
    }
  }

  /** `mod(a, m)` of the engine, written as `(a % m + m) % m` with JavaScript's `%`. */
  function Mod(a: int, m: int): (r: int)
    requires m > 0
    ensures 0 <= r < m
  {
    JsRem(JsRem(a, m) + m, m)
  }

  /** A positive multiple of a positive number is at least that number. */
  lemma {:induction false} MulAtLeast(j: nat, m: int)
    requires j >= 1 && m > 0
    ensures j * m >= m
  {
    if j > 1 {
      MulAtLeast(j - 1, m);
      assert j * m == (j - 1) * m + m;
    }
  }

  /** Division with remainder is unique: a value `q` in [0, m) with
      `a == k * m + q` is Dafny's Euclidean `a % m`, and `k` is `a / m`. */
  lemma UniqueResidue(a: int, k: int, q: int, m: int)
    requires m > 0 && 0 <= q < m && a == k * m + q
    ensures q == a % m && k == a / m
  {
    var k0, r0 := a / m, a % m;
    assert a == k0 * m + r0;
    assert (k - k0) * m == r0 - q;
    if k - k0 >= 1 {
      MulAtLeast(k - k0, m);
    } else if k0 - k >= 1 {
      MulAtLeast(k0 - k, m);
    }
  }

  /** `mod` lies in [0, m), agrees with Dafny's Euclidean `%` for every integer,
      negative ones included, and is therefore congruent to `a` modulo `m`. */
  lemma ModIsEuclidean(a: int, m: int)
    requires m > 0
    ensures 0 <= Mod(a, m) < m
    ensures Mod(a, m) == a % m
    ensures (a - Mod(a, m)) % m == 0
  {
    if a >= 0 {
      ModOfNonNegative(a, m);
    } else {
      ModOfNegative(a, m);
    }
    UniqueResidue(a - a % m, a / m, 0, m);
  }

  lemma ModOfNonNegative(a: int, m: int)
    requires m > 0 && a >= 0
    ensures Mod(a, m) == a % m
  {
    var r := a % m;
    assert JsRem(a, m) == r;
    UniqueResidue(r + m, 1, r, m);
  }

  lemma ModOfNegative(a: int, m: int)
    requires m > 0 && a < 0
    ensures Mod(a, m) == a % m
  {
    var t := (-a) % m;
    var k := (-a) / m;
    assert JsRem(a, m) == -t;
    assert -a == k * m + t;
    if t == 0 {
      UniqueResidue(m, 1, 0, m);
      UniqueResidue(a, -k, 0, m);
    } else {
      UniqueResidue(m - t, 0, m - t, m);
      assert a == (-k - 1) * m + (m - t);
      UniqueResidue(a, -k - 1, m - t, m);
    }
  }

  /** The Euclidean remainder of a predecessor steps down by one, wrapping
      from 0 to `m - 1`. */
  lemma RemPredecessor(a: int, m: int)
    requires m >= 2
    ensures (a - 1) % m == if a % m == 0 then m - 1 else a % m - 1
  {
    var r, k := a % m, a / m;
    var km := k * m;
    assert a == km + r;
    if r == 0 {
      assert (k - 1) * m == km - m;
      UniqueResidue(a - 1, k - 1, m - 1, m);
    } else {
      UniqueResidue(a - 1, k, r - 1, m);
    }
  }

  /** Two successive positions land on different cells of a light with at
      least two cells: the predecessor of cell 0 is the last cell. */
  lemma ModPredecessor(a: int, m: int)
    requires m >= 2
    ensures Mod(a - 1, m) == if Mod(a, m) == 0 then m - 1 else Mod(a, m) - 1
    ensures Mod(a, m) != Mod(a - 1, m)
  {
    ModIsEuclidean(a, m);
    ModIsEuclidean(a - 1, m);
    RemPredecessor(a, m);
  }

  /** `modIndex(array, index)`: the element at `mod(index, length)`; the source
      only reaches it with a non-empty array in mind (an empty one yields undefined). */
  function ModIndex<T>(s: seq<T>, index: int): (r: T)
    requires |s| > 0
    ensures r in s
    ensures r == s[Mod(index, |s|)]
  {
    s[Mod(index, |s|)]
  }
}
