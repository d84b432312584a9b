/** Bytes, powers of two and remainders. */
module Numbers {

  newtype Byte = b: int | 0 <= b < 256

  function Pow2(k: nat): (p: nat)
    ensures 0 < p
  {
    if k == 0 then 1 else 2 * Pow2(k - 1)
  }

  /** A quotient and a remainder in range are the only ones. */
  lemma RemainderOf(x: int, d: nat, q: int, r: nat)
    requires r < d && x == d * q + r
    ensures x % d == r && x / d == q
  {
    var y: int := x / d - q;
    assert d * y == r - x % d by {
      assert d * (x / d) + x % d == x;
    }
    assert y > 0 ==> d * y >= d;
    assert y < 0 ==> d * y + d <= 0;
  }
}
