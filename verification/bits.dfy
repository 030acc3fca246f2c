/** Powers of two and Go's bitwise `&` on non-negative integers. The hash map keeps its
    capacity a power of two and reduces positions with `& mask`, where `mask == size - 1`. */
module Bits {

  /** `n` is 1, 2, 4, 8, ... */
  predicate IsPowerOfTwo(n: int)
    decreases if n < 0 then 0 else n
  {
    n == 1 || (n >= 2 && n % 2 == 0 && IsPowerOfTwo(n / 2))
  }

  /** Go's `x & y` for non-negative integers, computed bit by bit from the lowest bit. */
  function And(x: nat, y: nat): nat
  {
    if x == 0 || y == 0 then 0
    else 2 * And(x / 2, y / 2) + (if x % 2 == 1 && y % 2 == 1 then 1 else 0)
  }

  /** Doubling keeps a power of two. */
  lemma {:induction false} DoubleIsPowerOfTwo(n: int)
    requires IsPowerOfTwo(n)
    ensures IsPowerOfTwo(2 * n) && 2 * n >= 2
  {
    assert (2 * n) / 2 == n;
  }

  /** Euclidean division facts: `x % d` is determined by any decomposition `x == d*q + r`. */
  lemma ModUnique(x: int, d: int, q: int, r: int)
    requires d > 0 && 0 <= r < d && x == d * q + r
    ensures x % d == r && x / d == q
  {
    var q', r' := x / d, x % d;
    var k := q - q';
    assert d * q == d * q' + d * k;
    assert d * k == r' - r;
    if k >= 1 {
      MulAtLeast(d, k);
    } else if k <= -1 {
      MulAtLeast(d, -k);
    }
  }

  lemma MulAtLeast(d: int, k: int)
    requires d > 0 && k >= 1
    ensures d * k >= d
  {
    assert d * k == d + d * (k - 1);
  }

  /** The low bits of `x` modulo `2m` are its lowest bit plus twice the remaining bits modulo `m`. */
  lemma ModDouble(x: nat, m: nat)
    requires m > 0
    ensures x % (2 * m) == 2 * ((x / 2) % m) + x % 2
  {
    var q, r := x / 2, x % 2;
    var a, b := q / m, q % m;
    assert x == 2 * q + r;
    assert q == m * a + b;
    assert x == (2 * m) * a + (2 * b + r);
    ModUnique(x, 2 * m, a, 2 * b + r);
  }

  /** For a power of two `n`, masking with `n - 1` is reduction modulo `n`: `x & (n-1) == x % n`. */
  lemma {:induction false} AndMask(x: nat, n: nat)
    requires IsPowerOfTwo(n)
    ensures And(x, n - 1) == x % n
    decreases n
  {
    if n == 1 {
    } else if x == 0 {
    } else {
      var m := n / 2;
      assert (n - 1) / 2 == m - 1 && (n - 1) % 2 == 1;
      AndMask(x / 2, m);
      ModDouble(x, m);
    }
  }

  /** `x & mask` as a statement: the bitwise AND, computed by `And`, which for a mask one below
      a power of two `n` keeps `x` modulo `n`. */
  method MaskOf(x: nat, mask: nat, ghost n: nat) returns (r: nat)
    requires IsPowerOfTwo(n) && mask == n - 1
    ensures r == x % n
  {
    r := And(x, mask);
    AndMask(x, n);
  }
}
