/** Bucket indexing: Java's truncating `%` followed by `Math.abs`. */
module Hashing {

  /** Java's integer `/`: the quotient is truncated toward zero. */
  function JavaDiv(h: int, c: int): (q: int)
    requires c > 0
    ensures h >= 0 ==> q >= 0
    ensures h <= 0 ==> q <= 0
  {
    if h >= 0 then h / c else -((-h) / c)
  }

  /** Java's integer `%`: the remainder takes the sign of the dividend and is
      smaller than the divisor in magnitude. */
  function JavaRem(h: int, c: int): (r: int)
    requires c > 0
    ensures -c < r < c
    ensures h >= 0 ==> r >= 0
    ensures h <= 0 ==> r <= 0
  {
    if h >= 0 then h % c else -((-h) % c)
  }

  /** Java's defining identity for `/` and `%` (section 15.17.3 of the Java
      Language Specification): `(h / c) * c + h % c == h`. */
  lemma JavaDivRem(h: int, c: int)
    requires c > 0
    ensures JavaDiv(h, c) * c + JavaRem(h, c) == h
  {
    if h < 0 {
      assert (-h) / c * c + (-h) % c == -h;
    }
  }

  /** Java's `Math.abs` on a value that cannot be `Integer.MIN_VALUE`. */
  function Abs(x: int): (r: nat)
    ensures r == x || r == -x
  {
    if x < 0 then -x else x
  }

  /** `hashFunction`: `Math.abs(key.hashCode() % capacity)`. The keys are
      `Integer`s, whose `hashCode()` is the value itself. The index is a
      valid bucket for every key, negative ones included, and it is the
      key's distance to a multiple of the capacity. */
  function HashFunction(key: int, capacity: int): (i: nat)
    requires capacity > 0
    ensures i < capacity
    ensures key >= 0 ==> i == key % capacity
    ensures key < 0 ==> i == (-key) % capacity
  {
    Abs(JavaRem(key, capacity))
  }
}
