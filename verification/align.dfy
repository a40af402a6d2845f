/** Rounding offsets up to a boundary, the one layout rule both containers share. */
module Align {

  import Bytes

  /**
    `x` rounded up to a multiple of `a`, written as the source writes it:
    `if pos % a: pos += a - pos % a`.
   */
  function RoundUp(x: nat, a: nat): (r: nat)
    requires a >= 1
    ensures r % a == 0
    ensures x <= r < x + a
  {
    if x % a == 0 then x
    else
      RoundUpStep(x, a);
      x + (a - x % a)
  }

  lemma RoundUpStep(x: nat, a: nat)
    requires a >= 1
    ensures (x + (a - x % a)) % a == 0
  {
    var q := x / a;
    assert x == a * q + x % a;
    assert x + (a - x % a) == a * (q + 1) + 0;
    Bytes.DivModUnique(x + (a - x % a), a, q + 1, 0);
  }

  /** No multiple of `a` lies between `x` and `RoundUp(x, a)`. */
  lemma RoundUpIsLeast(x: nat, a: nat, m: nat)
    requires a >= 1 && m % a == 0 && m >= x
    ensures RoundUp(x, a) <= m
  {
    var r := RoundUp(x, a);
    assert r == a * (r / a) && m == a * (m / a);
    assert a * (r / a - m / a) == r - m;
    Bytes.MulSmallIsZero(a, r / a - m / a);
  }

  /** The fontmap's 16-byte alignment. */
  function Align16(x: nat): (r: nat)
    ensures r % 16 == 0 && x <= r < x + 16
  {
    RoundUp(x, 16)
  }

  /** Powers of two, the alignments the archive format expects. */
  predicate IsPowerOfTwo(n: nat)
    decreases n
  {
    n == 1 || (n >= 2 && n % 2 == 0 && IsPowerOfTwo(n / 2))
  }

  lemma {:induction false} PowerOfTwoPopCount(n: nat)
    requires IsPowerOfTwo(n)
    ensures Bytes.PopCount(n) == 1
    decreases n
  {
    if n != 1 {
      PowerOfTwoPopCount(n / 2);
    }
  }
}
