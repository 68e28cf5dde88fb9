/**
 * Python's shift and bitwise operators on non-negative integers, which the
 * frame decoder applies to bytes. Python integers are unbounded, so these
 * are defined on `nat` rather than on a fixed-width bit-vector.
 */
module PyInt {

  /** 2 raised to `k`. */
  function Pow2(k: nat): (p: nat)
    ensures p > 0
    decreases k
  {
    if k == 0 then 1 else 2 * Pow2(k - 1)
  }

  /** The powers the decoder shifts and masks by. */
  lemma Pow2Values()
    ensures Pow2(4) == 16 && Pow2(8) == 256 && Pow2(16) == 65536
  {
  }

  /** `a << k` */
  function Shl(a: nat, k: nat): nat {
    a * Pow2(k)
  }

  /** `a >> k` */
  function Shr(a: nat, k: nat): nat {
    var p := Pow2(k);
    DivNonNegative(a, p);
    a / p
  }

  /** `a | b`, bit by bit from the least significant end. */
  function Or(a: nat, b: nat): nat
    decreases a
  {
    if a == 0 then b
    else if b == 0 then a
    else 2 * Or(a / 2, b / 2) + (if a % 2 == 1 || b % 2 == 1 then 1 else 0)
  }

  /** `a & b`, bit by bit from the least significant end. */
  function And(a: nat, b: nat): nat
    decreases a
  {
    if a == 0 || b == 0 then 0
    else 2 * And(a / 2, b / 2) + (if a % 2 == 1 && b % 2 == 1 then 1 else 0)
  }

  // ---------------------------------------------------------------------
  // Arithmetic facts

  /** Dividing a natural number by a positive one gives a natural number. */
  lemma DivNonNegative(a: nat, p: nat)
    requires p > 0
    ensures a / p >= 0
  {
  }

  /** A positive factor times a factor of at least one is at least the first factor. */
  lemma MulAtLeast(m: int, d: int)
    requires m > 0 && d >= 1
    ensures m * d >= m
  {
  }

  /** Quotient and remainder are fixed by any decomposition `a == m * s + t` with `0 <= t < m`. */
  lemma DivModUnique(a: int, m: int, s: int, t: int)
    requires m > 0 && 0 <= t < m && a == m * s + t
    ensures a / m == s && a % m == t
  {
    var q, r := a / m, a % m;
    assert a == m * q + r;
    if q < s {
      assert m * (s - q) == m * s - m * q;
      MulAtLeast(m, s - q);
    } else if q > s {
      assert m * (q - s) == m * q - m * s;
      MulAtLeast(m, q - s);
    }
  }

  /** Halving and then dividing by `p` is dividing by `2 * p`; the remainders agree likewise. */
  lemma HalveDivMod(a: nat, p: nat)
    requires p > 0
    ensures (a / 2) / p == a / (2 * p)
    ensures 2 * ((a / 2) % p) + a % 2 == a % (2 * p)
  {
    var q, r := a / 2, a % 2;
    var s, t := q / p, q % p;
    assert q == p * s + t;
    assert a == (2 * p) * s + (2 * t + r);
    DivModUnique(a, 2 * p, s, 2 * t + r);
  }

  // ---------------------------------------------------------------------
  // The bitwise operators on the shapes the decoder uses

  /** OR-ing a value into the cleared low `k` bits of a shifted value is addition. */
  lemma {:induction false} OrDisjoint(a: nat, b: nat, k: nat)
    requires b < Pow2(k)
    ensures Or(a * Pow2(k), b) == a * Pow2(k) + b
    decreases k
  {
    if k > 0 && a * Pow2(k) != 0 && b != 0 {
      var h := a * Pow2(k);
      assert h == 2 * (a * Pow2(k - 1));
      OrDisjoint(a, b / 2, k - 1);
    }
  }

  /** Halving the all-ones mask `2^k - 1` drops one of its ones. */
  lemma LowMaskHalves(k: nat)
    requires k > 0
    ensures Pow2(k) == 2 * Pow2(k - 1)
    ensures (Pow2(k) - 1) / 2 == Pow2(k - 1) - 1 && (Pow2(k) - 1) % 2 == 1
  {
  }

  /** Masking with `2^k - 1` keeps the low `k` bits: the remainder modulo `2^k`. */
  lemma {:induction false} AndLowMask(a: nat, k: nat)
    ensures And(a, Pow2(k) - 1) == a % Pow2(k)
    decreases k
  {
    if k == 0 {
      assert Pow2(0) == 1;
    } else if a != 0 {
      var p := Pow2(k - 1);
      LowMaskHalves(k);
      assert And(a, Pow2(k) - 1) == 2 * And(a / 2, p - 1) + a % 2;
      AndLowMask(a / 2, k - 1);
      HalveDivMod(a, p);
    }
  }
}
