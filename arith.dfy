/** Powers of two and the division facts that the identifier and bit
    operations rely on.  Shifts and masks of the bigint code are modelled
    with these: `1 << k` is Pow2(k), `x & ((1 << k) - 1)` is `x % Pow2(k)`. */
module Pow2Arith {

  /** 2^k, the value of `bigint(1) << k`. */
  function Pow2(k: nat): (r: nat)
    ensures r >= 1
    ensures k > 0 ==> r >= 2
  {
    if k == 0 then 1 else 2 * Pow2(k - 1)
  }

  lemma {:induction false} Pow2Add(a: nat, b: nat)
    ensures Pow2(a + b) == Pow2(a) * Pow2(b)
  {
    if a > 0 {
      Pow2Add(a - 1, b);
      assert Pow2(a + b) == 2 * Pow2(a - 1 + b);
    }
  }

  lemma {:induction false} Pow2Monotone(a: nat, b: nat)
    ensures a <= b ==> Pow2(a) <= Pow2(b)
  {
    if a < b {
      Pow2Monotone(a, b - 1);
    }
  }

  lemma Pow2StrictlyMonotone(a: nat, b: nat)
    ensures a < b ==> Pow2(a) < Pow2(b)
  {
    if a < b {
      Pow2Monotone(a, b - 1);
    }
  }

  /** `x mod 2^w` peeled by one bit. */
  lemma ModPow2Step(x: nat, w: nat)
    requires w > 0
    ensures x % Pow2(w) == 2 * ((x / 2) % Pow2(w - 1)) + x % 2
  {
    var P := Pow2(w - 1);
    var h, b := x / 2, x % 2;
    var q, r := h / P, h % P;
    assert x == q * (2 * P) + (2 * r + b);
    DivModUnique(x, 2 * P, q, 2 * r + b);
  }

  /** `(a mod P) * Q` is `a * Q` reduced modulo `P * Q`. */
  lemma MulMod(a: nat, P: nat, Q: nat)
    requires P > 0 && Q > 0
    ensures (a % P) * Q == (a * Q) % (P * Q)
  {
    var q, r := a / P, a % P;
    assert a * Q == q * (P * Q) + r * Q;
    assert r * Q <= (P - 1) * Q;
    DivModUnique(a * Q, P * Q, q, r * Q);
  }

  /** A multiple of d strictly between -d and d is zero. */
  lemma SmallMultipleIsZero(k: int, d: int)
    requires d > 0 && -d < k * d < d
    ensures k == 0
  {
    assert k >= 1 ==> k * d == (k - 1) * d + d;
    assert k <= -1 ==> k * d == (k + 1) * d - d;
  }

  /** Euclidean division is determined by quotient and remainder. */
  lemma DivModUnique(x: int, d: int, q: int, r: int)
    requires d > 0 && 0 <= r < d && x == q * d + r
    ensures x / d == q && x % d == r
  {
    var q', r' := x / d, x % d;
    assert (q' - q) * d == r - r';
    SmallMultipleIsZero(q' - q, d);
  }

  /** Adding a multiple of the modulus does not change a remainder. */
  lemma ModAddMultiple(x: int, k: int, d: int)
    requires d > 0
    ensures (x + k * d) % d == x % d
  {
    DivModUnique(x + k * d, d, x / d + k, x % d);
  }

  /** `(x % d) * y` and `x * y` agree modulo d. */
  lemma ModMulLeft(x: int, y: int, d: int)
    requires d > 0
    ensures ((x % d) * y) % d == (x * y) % d
  {
    var q := x / d;
    assert x * y == (x % d) * y + (q * y) * d;
    ModAddMultiple((x % d) * y, q * y, d);
  }

  /** Dividing twice is dividing by the product. */
  lemma DivDiv(x: nat, a: nat, b: nat)
    requires a > 0 && b > 0
    ensures x / a / b == x / (a * b)
  {
    var q1, r1 := x / a, x % a;
    var q2, r2 := q1 / b, q1 % b;
    assert q1 * a == q2 * (a * b) + r2 * a by {
      assert q1 == q2 * b + r2;
    }
    assert x == q2 * (a * b) + (r2 * a + r1);
    assert r2 * a <= (b - 1) * a;
    DivModUnique(x, a * b, q2, r2 * a + r1);
  }

  /** `x / Pow2(a) / Pow2(b) == x / Pow2(a + b)`. */
  lemma DivDivPow2(x: nat, a: nat, b: nat)
    ensures x / Pow2(a) / Pow2(b) == x / Pow2(a + b)
  {
    Pow2Add(a, b);
    DivDiv(x, Pow2(a), Pow2(b));
  }

  /** A value below twice the modulus wraps at most once. */
  lemma ModWrapOnce(a: int, m: int)
    requires 0 <= a < 2 * m
    ensures a % m == (if a < m then a else a - m)
  {
    if a < m {
      DivModUnique(a, m, 0, a);
    } else {
      DivModUnique(a, m, 1, a - m);
    }
  }

  /** Adding t < m to a moves its residue forward by t, wrapping at most once. */
  lemma ModShift(a: int, t: int, m: int)
    requires m > 0 && 0 <= t < m
    ensures (a + t) % m == (if a % m + t < m then a % m + t else a % m + t - m)
  {
    if a % m + t < m {
      DivModUnique(a + t, m, a / m, a % m + t);
    } else {
      DivModUnique(a + t, m, a / m + 1, a % m + t - m);
    }
  }
}
