/** Masks and shifts by powers of two, as `uthash.h` uses them for bucket numbers and for a ceiling. */
module UthashBits {
  import opened Numbers

  /** Bitwise and, one binary digit at a time. */
  function And(x: nat, y: nat): nat {
    if x == 0 || y == 0 then 0 else (x % 2) * (y % 2) + 2 * And(x / 2, y / 2)
  }

  lemma HalfRemainder(x: nat, p: nat)
    requires 0 < p
    ensures x % (2 * p) == x % 2 + 2 * (x / 2 % p)
  {
    var h := x / 2;
    var q := h / p;
    var r := h % p;
    assert x == (2 * p) * q + (x % 2 + 2 * r);
    RemainderOf(x, 2 * p, q, x % 2 + 2 * r);
  }

  /** `x & (n - 1)` is the remainder when n is a power of two. */
  lemma {:induction false} MaskIsRemainder(x: nat, k: nat)
    ensures And(x, Pow2(k) - 1) == x % Pow2(k)
    decreases k
  {
    if k == 0 || x == 0 {
      RemainderOf(x, Pow2(k), if k == 0 then x else 0, 0);
    } else {
      var p := Pow2(k - 1);
      MaskIsRemainder(x / 2, k - 1);
      HalfRemainder(x, p);
      assert (2 * p - 1) % 2 == 1 && (2 * p - 1) / 2 == p - 1;
    }
  }

  /** `n / d` rounded up. */
  function Ceil(n: nat, d: nat): (c: nat)
    requires 0 < d
  {
    (n + d - 1) / d
  }

  /** Nothing but the ceiling lies in this range. */
  lemma CeilRange(n: nat, d: nat)
    requires 0 < d
    ensures n <= d * Ceil(n, d) < n + d
  {
    var c := (n + d - 1) / d;
    assert d * c + (n + d - 1) % d == n + d - 1;
  }

  lemma CeilUnique(n: nat, d: nat, c: nat)
    requires 0 < d && n <= d * c < n + d
    ensures c == Ceil(n, d)
  {
    RemainderOf(n + d - 1, d, c, n + d - 1 - d * c);
  }

  lemma CeilParts(n: nat, b: nat)
    requires 0 < b
    ensures n / b + (if n % b != 0 then 1 else 0) == Ceil(n, b)
  {
    var q := n / b;
    var c := q + (if n % b != 0 then 1 else 0);
    assert b * q + n % b == n;
    assert b * c == b * q + (if n % b != 0 then b else 0);
    CeilUnique(n, b, c);
  }

  /** ceil(n / b) is (n >> lb) + ((n & (b - 1)) ? 1 : 0). */
  lemma ShiftAndMask(n: nat, lb: nat)
    ensures n / Pow2(lb) + (if And(n, Pow2(lb) - 1) != 0 then 1 else 0) == Ceil(n, Pow2(lb))
  {
    MaskIsRemainder(n, lb);
    CeilParts(n, Pow2(lb));
  }
}
