/**
  The Carter-Wegman style hash used by the frequency sketch:
  ((a * (x mod p) + b) mod p) mod nBuckets, with Python's `%`, whose result
  takes the sign of the divisor (floor division), written out explicitly
  because Dafny's `%` is Euclidean.
 */
module Hashing {

  /** Python's `//`: the quotient rounded towards minus infinity. */
  function FloorDiv(x: int, m: int): int
    requires m != 0
  {
    if m > 0 then x / m else (-x) / (-m)
  }

  /** Python's `%`: the remainder that goes with FloorDiv. */
  function FloorMod(x: int, m: int): (r: int)
    requires m != 0
    ensures m > 0 ==> 0 <= r < m
    ensures m < 0 ==> m < r <= 0
    ensures x == FloorDiv(x, m) * m + r
  {
    if m > 0 then x % m else -((-x) % (-m))
  }

  /** A quotient/remainder pair with the remainder in FloorMod's range is the one FloorMod gives. */
  lemma FloorModUnique(x: int, m: int, q: int, r: int)
    requires m != 0
    requires m > 0 ==> 0 <= r < m
    requires m < 0 ==> m < r <= 0
    requires x == q * m + r
    ensures FloorMod(x, m) == r && FloorDiv(x, m) == q
  {
    var q0, r0 := FloorDiv(x, m), FloorMod(x, m);
    var d := q - q0;
    assert d * m == r0 - r;
    if d > 0 {
      MulMonotone(d, m);
    } else if d < 0 {
      MulMonotone(-d, m);
    }
  }

  /** |d * m| >= |m| once d >= 1. */
  lemma MulMonotone(d: int, m: int)
    requires d >= 1
    ensures m > 0 ==> d * m >= m
    ensures m < 0 ==> d * m <= m
  {
    var k := d - 1;
    assert d * m == k * m + m;
    if m > 0 {
      assert k * m >= 0;
    } else {
      assert k * m <= 0;
    }
  }

  /** hash_val: the intermediate value (a * (x mod p) + b) mod p. */
  function HashVal(a: int, b: int, p: int, x: int): (v: int)
    requires p != 0
    ensures p > 0 ==> 0 <= v < p
  {
    FloorMod(a * FloorMod(x, p) + b, p)
  }

  /** hash_fun(a, b, p, n_buckets, x). */
  function HashFun(a: int, b: int, p: int, nBuckets: int, x: int): (r: int)
    requires p != 0 && nBuckets != 0
    ensures nBuckets > 0 ==> 0 <= r < nBuckets
    ensures p > 0 && nBuckets > 0 ==> r < p
  {
    var v := HashVal(a, b, p, x);
    if p > 0 && nBuckets > 0 && v < nBuckets then
      FloorModUnique(v, nBuckets, 0, v);
      FloorMod(v, nBuckets)
    else
      FloorMod(v, nBuckets)
  }

  /** Reducing modulo a non-zero divisor a second time changes nothing. */
  lemma FloorModIdempotent(x: int, m: int)
    requires m != 0
    ensures FloorMod(FloorMod(x, m), m) == FloorMod(x, m)
  {
    FloorModUnique(FloorMod(x, m), m, 0, FloorMod(x, m));
  }

  /** Adding a multiple of the divisor does not change the remainder. */
  lemma FloorModPeriodic(x: int, m: int, k: int)
    requires m != 0
    ensures FloorMod(x + k * m, m) == FloorMod(x, m)
  {
    var q := FloorDiv(x, m);
    assert x + k * m == (q + k) * m + FloorMod(x, m);
    FloorModUnique(x + k * m, m, q + k, FloorMod(x, m));
  }

  /** Only the residue of x modulo p matters to the hash. */
  lemma HashDependsOnResidue(a: int, b: int, p: int, nBuckets: int, x: int)
    requires p != 0 && nBuckets != 0
    ensures HashFun(a, b, p, nBuckets, x) == HashFun(a, b, p, nBuckets, FloorMod(x, p))
  {
    FloorModIdempotent(x, p);
  }

  /** Items that differ by a multiple of p always collide, in every row. */
  lemma HashPeriodic(a: int, b: int, p: int, nBuckets: int, x: int, k: int)
    requires p != 0 && nBuckets != 0
    ensures HashFun(a, b, p, nBuckets, x + k * p) == HashFun(a, b, p, nBuckets, x)
  {
    FloorModPeriodic(x, p, k);
  }
}
