/** Small arithmetic shared by the components; each non-linear fact is proved once. */
module Arith {

  function Min(a: nat, b: nat): nat {
    if a <= b then a else b
  }

  function Max(a: nat, b: nat): nat {
    if a >= b then a else b
  }

  lemma Remainder(q: nat, size: nat, c: nat)
    requires c < size
    ensures (q * size + c) % size == c
  {
    var x := q * size + c;
    var q0, r0 := x / size, x % size;
    assert x == q0 * size + r0;
    Difference(q, q0, size);
    if q > q0 {
      AtLeastOne(q - q0, size);
    } else if q < q0 {
      AtLeastOne(q0 - q, size);
    }
  }

  lemma Difference(a: nat, b: nat, size: nat)
    ensures (a - b) * size == a * size - b * size
    ensures (b - a) * size == b * size - a * size
  {
  }

  lemma AtLeastOne(n: nat, size: nat)
    requires n >= 1
    ensures n * size >= size
  {
  }

  lemma MulMonotone(a: nat, b: nat, size: nat)
    requires a <= b
    ensures a * size <= b * size
  {
  }

  /** The two low base-256 digits of a number are those of its remainder modulo 2^16. */
  lemma LowDigits(n: nat)
    ensures n / 256 % 256 * 256 + n % 256 == n % 65536
    ensures n % 65536 / 256 % 256 == n / 256 % 256
    ensures n % 65536 % 256 == n % 256
  {
    var q, d, r := n / 256 / 256, n / 256 % 256, n % 256;
    assert n == 256 * (256 * q + d) + r;
    Remainder(q, 65536, 256 * d + r);
    TwoDigits(d, r);
  }

  lemma TwoDigits(d: nat, r: nat)
    requires d < 256 && r < 256
    ensures (256 * d + r) / 256 % 256 == d && (256 * d + r) % 256 == r
  {
  }
}
