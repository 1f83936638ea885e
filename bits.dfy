/** Rust's integer bit operations (`<<` on `u8`, `>>`, `|`, `&`) stated on natural
    numbers, with the facts the packing proofs need about them. */
module Bits {

  /** 2 to the power `n`. */
  function Pow2(n: nat): (r: nat)
    ensures r >= 1
  {
    if n == 0 then 1 else 2 * Pow2(n - 1)
  }

  /** `x << n` on a `u8`: the bits shifted past bit 7 are discarded. */
  function Shl8(x: nat, n: nat): nat
    requires n < 8
  {
    (x * Pow2(n)) % 256
  }

  /** `x >> n`: `n` halvings, each dropping the lowest bit. */
  function Shr(x: nat, n: nat): nat
  {
    if n == 0 then x else Shr(x / 2, n - 1)
  }

  /** Bitwise OR, bit by bit from the least significant. */
  function Or(x: nat, y: nat): nat
    decreases x + y
  {
    if x == 0 then y
    else if y == 0 then x
    else 2 * Or(x / 2, y / 2) + (if x % 2 == 1 || y % 2 == 1 then 1 else 0)
  }

  /** Bitwise AND, bit by bit from the least significant. */
  function And(x: nat, y: nat): nat
  {
    if x == 0 || y == 0 then 0
    else 2 * And(x / 2, y / 2) + (if x % 2 == 1 && y % 2 == 1 then 1 else 0)
  }

  lemma {:induction false} Pow2Add(m: nat, n: nat)
    ensures Pow2(m + n) == Pow2(m) * Pow2(n)
  {
    if m > 0 {
      Pow2Add(m - 1, n);
    }
  }

  lemma {:induction false} Pow2Monotonic(m: nat, n: nat)
    requires m <= n
    ensures Pow2(m) <= Pow2(n)
  {
    if m < n {
      Pow2Monotonic(m, n - 1);
    }
  }

  /** OR-ing a value into the bits freed by a left shift is addition. */
  lemma {:induction false} OrShifted(a: nat, y: nat, k: nat)
    requires y < Pow2(k)
    ensures Or(a * Pow2(k), y) == a * Pow2(k) + y
  {
    var x := a * Pow2(k);
    if k > 0 && x != 0 && y != 0 {
      var z := a * Pow2(k - 1);
      assert x == 2 * z;
      assert x / 2 == z && x % 2 == 0;
      OrShifted(a, y / 2, k - 1);
    }
  }

  /** Masking with `2^k - 1` keeps exactly the low `k` bits. */
  lemma {:induction false} AndLowMask(y: nat, a: nat, k: nat)
    requires y < Pow2(k)
    ensures And(y + Pow2(k) * a, Pow2(k) - 1) == y
  {
    var x := y + Pow2(k) * a;
    if k > 0 && x != 0 {
      var p := Pow2(k - 1);
      var z := p * a;
      assert x == y + 2 * z;
      assert x / 2 == y / 2 + z && x % 2 == y % 2;
      assert (Pow2(k) - 1) / 2 == p - 1 && (Pow2(k) - 1) % 2 == 1;
      AndLowMask(y / 2, a, k - 1);
    }
  }

  /** Shifting right by `k` drops exactly the low `k` bits. */
  lemma {:induction false} ShrShifted(y: nat, a: nat, k: nat)
    requires y < Pow2(k)
    ensures Shr(y + Pow2(k) * a, k) == a
  {
    if k > 0 {
      var z := Pow2(k - 1) * a;
      assert y + Pow2(k) * a == y + 2 * z;
      assert (y + 2 * z) / 2 == y / 2 + z;
      ShrShifted(y / 2, a, k - 1);
    }
  }

  lemma {:induction false} ShrAdd(x: nat, m: nat, n: nat)
    ensures Shr(x, m + n) == Shr(Shr(x, m), n)
  {
    if m > 0 {
      ShrAdd(x / 2, m - 1, n);
    }
  }

  lemma MulMonotonic(a: int, b: int, n: nat)
    requires a <= b
    ensures a * n <= b * n
  {
  }

  /** Quotient and remainder are determined by `m == q * n + r` with `r < n`. */
  lemma DivUnique(m: nat, n: nat, q: nat, r: nat)
    requires n >= 1 && r < n && m == q * n + r
    ensures m / n == q && m % n == r
  {
    var q', r' := m / n, m % n;
    assert m == q' * n + r';
    if q' > q {
      assert (q + 1) * n == q * n + n;
      MulMonotonic(q + 1, q', n);
    } else if q' < q {
      assert (q' + 1) * n == q' * n + n;
      MulMonotonic(q' + 1, q, n);
    }
  }

  lemma DivStep(m: nat, n: nat)
    requires n >= 1 && m >= n
    ensures m / n == 1 + (m - n) / n && m % n == (m - n) % n
  {
    var q, r := (m - n) / n, (m - n) % n;
    assert m - n == q * n + r;
    assert m == (q + 1) * n + r;
    DivUnique(m, n, q + 1, r);
  }

  /** An index below `m / n` leaves a whole group of `n` inside `m`. */
  lemma DivBound(m: nat, n: nat, k: nat)
    requires n >= 1 && k < m / n
    ensures k * n + n <= m
  {
    assert m == (m / n) * n + m % n;
    assert (k + 1) * n == k * n + n;
    MulMonotonic(k + 1, m / n, n);
  }

  /** OR never sets a bit above the highest bit of its operands. */
  lemma {:induction false} OrBound(x: nat, y: nat, k: nat)
    requires x < Pow2(k) && y < Pow2(k)
    ensures Or(x, y) < Pow2(k)
  {
    if k > 0 && x != 0 && y != 0 {
      OrBound(x / 2, y / 2, k - 1);
    }
  }

  lemma MulDistributes(a: int, x: int, y: int)
    ensures a * (x + y) == a * x + a * y
  {
  }

  lemma MulSwap(a: int, x: int, y: int)
    ensures a * (x * y) == x * (a * y)
  {
  }

  lemma MulSucc(n: int, b: int)
    ensures (n + 1) * b == b + n * b
  {
  }

  lemma MulBelow(v: nat, q: nat, p: nat)
    requires v < q
    ensures v * p + p <= q * p
  {
    MulMonotonic(v + 1, q, p);
    MulSucc(v, p);
  }

  lemma Pow2Eight()
    ensures Pow2(8) == 256
  {
  }

  /** A product whose factors stay below `q` and `p` stays below `q * p`. */
  lemma ProductBelow(v: nat, q: nat, p: nat, m: nat)
    requires v < q && p >= 1 && q * p <= m
    ensures v * p < m && (v * p) % m == v * p
  {
    MulBelow(v, q, p);
  }

  lemma ModSmall(x: nat, m: nat)
    requires x < m
    ensures x % m == x
  {
  }

  lemma DivMod(m: nat, n: nat)
    requires n >= 1
    ensures m == (m / n) * n + m % n && m % n < n
  {
  }
}
