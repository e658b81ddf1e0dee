/** Arithmetic on the Chord identifier ring (utils/id_utils.C): identifiers
    are NBIT-bit unsigned integers and every operation is modulo 2^NBIT. */
module IdRing {
  import opened Pow2Arith

  /** Identifier width in bits (`NBIT` in lsd/chord.h). */
  const NBIT: nat := 160

  /** 2^NBIT, the number of points on the ring, written out. */
  const Modulus: nat := 0x1_0000_0000_0000_0000_0000_0000_0000_0000_0000_0000

  /** An identifier: a point of the ring. */
  type Id = x: nat | x < Modulus

  lemma ModulusIsPow2()
    ensures Modulus == Pow2(NBIT)
  {
    assert Pow2(2) == 4;
    Pow2Add(2, 2);
    assert Pow2(4) == 0x10;
    Pow2Add(4, 4);
    assert Pow2(8) == 0x100;
    Pow2Add(8, 8);
    assert Pow2(16) == 0x1_0000;
    Pow2Add(16, 16);
    assert Pow2(32) == 0x1_0000_0000;
    Pow2Add(32, 32);
    assert Pow2(64) == 0x1_0000_0000_0000_0000;
    Pow2Add(64, 64);
    assert Pow2(128) == 0x1_0000_0000_0000_0000_0000_0000_0000_0000;
    Pow2Add(128, 32);
  }

  /** 2^p is a proper offset on the ring exactly when p < NBIT, and a whole
      number of turns otherwise. */
  lemma Pow2OnRing(p: nat)
    ensures p < NBIT ==> 0 < Pow2(p) < Modulus
    ensures p >= NBIT ==> Pow2(p) % Modulus == 0
  {
    ModulusIsPow2();
    if p < NBIT {
      Pow2StrictlyMonotone(p, NBIT);
    } else {
      Pow2Add(p - NBIT, NBIT);
      ModAddMultiple(0, Pow2(p - NBIT), Modulus);
    }
  }

  /** The effect of `x & ((1 << NBIT) - 1)` on a bigint: bigint `&` works on
      the two's-complement form, so the result is the residue of x. */
  function Mask(x: int): (r: Id)
    ensures (x - r) % Modulus == 0
  {
    DivModUnique(x - x % Modulus, Modulus, x / Modulus, 0);
    x % Modulus
  }

  /** Clockwise offset from a to x, in [0, Modulus): the reference notion of
      position on the ring used to state the interval tests. */
  function Offset(a: Id, x: Id): (r: nat)
    ensures r < Modulus
    ensures r == 0 <==> x == a
    ensures a + r == x || a + r == x + Modulus
  {
    if a <= x then x - a else x + Modulus - a
  }

  /** incID: n + 1, wrapping to 0 past the top of the ring. */
  function IncId(n: Id): (s: Id)
    ensures n < Modulus - 1 ==> s == n + 1
    ensures n == Modulus - 1 ==> s == 0
    ensures Offset(n, s) == 1
  {
    var s := n + 1;
    if s >= Modulus then s - Modulus else s
  }

  /** decID: `(n - 1) & mask`. */
  function DecId(n: Id): (p: Id)
    ensures n > 0 ==> p == n - 1
    ensures n == 0 ==> p == Modulus - 1
    ensures Offset(p, n) == 1
  {
    var p := Mask(n - 1);
    assert n == 0 ==> p == Modulus - 1 by {
      if n == 0 {
        DivModUnique(n - 1, Modulus, -1, Modulus - 1);
      }
    }
    assert n > 0 ==> p == n - 1 by {
      if n > 0 {
        DivModUnique(n - 1, Modulus, 0, n - 1);
      }
    }
    p
  }

  lemma DecIncRoundTrip(x: Id)
    ensures DecId(IncId(x)) == x
    ensures IncId(DecId(x)) == x
  {
  }

  /** distance: the clockwise distance from a to b, a whole turn when a == b. */
  function Distance(a: Id, b: Id): (d: nat)
    ensures 0 < d <= Modulus
    ensures a == b ==> d == Modulus
    ensures a != b ==> d == Offset(a, b)
  {
    if a < b then b - a else (Modulus - a) + b
  }

  lemma DistanceSumsToTurn(a: Id, b: Id)
    requires a != b
    ensures Distance(a, b) + Distance(b, a) == Modulus
  {
  }

  /** successorID: the identifier 2^p clockwise from n. */
  function SuccessorId(n: Id, p: nat): (s: Id)
    ensures p < NBIT ==> Distance(n, s) == Pow2(p)
    ensures p >= NBIT ==> s == n
  {
    Pow2OnRing(p);
    var s := Mask(n + Pow2(p));
    assert p < NBIT ==> Distance(n, s) == Pow2(p) by {
      if p < NBIT {
        if n + Pow2(p) < Modulus {
          DivModUnique(n + Pow2(p), Modulus, 0, n + Pow2(p));
        } else {
          DivModUnique(n + Pow2(p), Modulus, 1, n + Pow2(p) - Modulus);
        }
      }
    }
    assert p >= NBIT ==> s == n by {
      if p >= NBIT {
        var k := Pow2(p) / Modulus;
        assert Pow2(p) == k * Modulus;
        DivModUnique(n + Pow2(p), Modulus, k, n);
      }
    }
    s
  }

  /** predecessorID: the identifier 2^p counter-clockwise from n. */
  function PredecessorId(n: Id, p: nat): (s: Id)
    ensures p < NBIT ==> Distance(s, n) == Pow2(p)
    ensures p >= NBIT ==> s == n
  {
    Pow2OnRing(p);
    var s := Mask(n - Pow2(p));
    assert p < NBIT ==> Distance(s, n) == Pow2(p) by {
      if p < NBIT {
        if n - Pow2(p) >= 0 {
          DivModUnique(n - Pow2(p), Modulus, 0, n - Pow2(p));
        } else {
          DivModUnique(n - Pow2(p), Modulus, -1, n - Pow2(p) + Modulus);
        }
      }
    }
    assert p >= NBIT ==> s == n by {
      if p >= NBIT {
        var k := Pow2(p) / Modulus;
        assert Pow2(p) == k * Modulus;
        DivModUnique(n - Pow2(p), Modulus, -k, n);
      }
    }
    s
  }

  /** Clockwise distance determines the point: two identifiers at the same
      distance from a are equal. */
  lemma DistanceFromDetermines(a: Id, x: Id, y: Id)
    requires Distance(a, x) == Distance(a, y)
    ensures x == y
  {
  }

  lemma DistanceToDetermines(b: Id, x: Id, y: Id)
    requires Distance(x, b) == Distance(y, b)
    ensures x == y
  {
  }

  /** Stepping 2^p forward and back, or back and forward, returns to n. */
  lemma PredecessorSuccessorRoundTrip(n: Id, p: nat)
    ensures PredecessorId(SuccessorId(n, p), p) == n
    ensures SuccessorId(PredecessorId(n, p), p) == n
  {
    if p < NBIT {
      var s := SuccessorId(n, p);
      var t := PredecessorId(n, p);
      DistanceToDetermines(s, PredecessorId(s, p), n);
      DistanceFromDetermines(t, SuccessorId(t, p), n);
    }
  }

  /** doubleID: `(n << k) & mask`, n times 2^k on the ring. */
  function DoubleId(n: Id, k: nat): (s: Id)
    ensures (n * Pow2(k) - s) % Modulus == 0
    ensures k == 0 ==> s == n
    ensures k >= NBIT ==> s == 0
  {
    DoubleIdPastTop(n, k);
    Mask(n * Pow2(k))
  }

  /** Shifting by NBIT or more clears every bit of an identifier. */
  lemma DoubleIdPastTop(n: Id, k: nat)
    ensures k >= NBIT ==> Mask(n * Pow2(k)) == 0
  {
    if k >= NBIT {
      var p := Pow2(k);
      Pow2OnRing(k);
      var j := p / Modulus;
      assert p == j * Modulus;
      MultipleOfModulus(n, j);
      assert n * p == (n * j) * Modulus;
    }
  }

  lemma MultipleOfModulus(a: int, j: int)
    ensures (a * j) * Modulus % Modulus == 0
  {
    DivModUnique((a * j) * Modulus, Modulus, a * j, 0);
  }

  /** Doubling a doubled identifier adds the exponents. */
  lemma DoubleIdCompose(n: Id, a: nat, b: nat)
    ensures DoubleId(DoubleId(n, a), b) == DoubleId(n, a + b)
  {
    Pow2Add(a, b);
    ModMulLeft(n * Pow2(a), Pow2(b), Modulus);
    assert n * Pow2(a) * Pow2(b) == n * Pow2(a + b);
  }

  /** between: n in the open arc (a, b); with a == b the arc is the whole
      ring except a. */
  predicate Between(a: Id, b: Id, n: Id)
    ensures Between(a, b, n) <==> 0 < Offset(a, n) < Distance(a, b)
  {
    if a == b then n != a
    else if a < b then n > a && n < b
    else n > a || n < b
  }

  /** betweenleftincl: n in [a, b). */
  predicate BetweenLeftIncl(a: Id, b: Id, n: Id)
    ensures BetweenLeftIncl(a, b, n) <==> Offset(a, n) < Distance(a, b)
  {
    if a == b && n == a then true
    else if a < b then n >= a && n < b
    else n >= a || n < b
  }

  /** betweenrightincl: n in (a, b]. */
  predicate BetweenRightIncl(a: Id, b: Id, n: Id)
    ensures a != b ==> (BetweenRightIncl(a, b, n) <==> 0 < Offset(a, n) <= Distance(a, b))
  {
    if a == b && n == a then true
    else if a < b then n > a && n <= b
    else n > a || n <= b
  }

  /** betweenbothincl: n in [a, b]. */
  predicate BetweenBothIncl(a: Id, b: Id, n: Id)
    ensures BetweenBothIncl(a, b, n) <==> Offset(a, n) <= Distance(a, b)
  {
    if a == b && n == a then true
    else if a < b then n >= a && n <= b
    else n >= a || n <= b
  }

  /** The open test excludes both endpoints; with a == b it is "every
      identifier but a". */
  lemma BetweenEndpoints(a: Id, b: Id, n: Id)
    ensures !Between(a, b, a) && !Between(a, b, b)
    ensures Between(a, a, n) <==> n != a
  {
  }

  /** With a == b the three tests that close an endpoint fall through to the
      wrap-around branch and accept every identifier, not only a. */
  lemma ClosedTestsAcceptAllWhenEqual(a: Id, n: Id)
    ensures BetweenLeftIncl(a, a, n)
    ensures BetweenRightIncl(a, a, n)
    ensures BetweenBothIncl(a, a, n)
  {
  }

  /** Each closed variant is the open test plus its closed endpoints; this
      holds for a == b too, where both sides accept everything. */
  lemma ClosedTestsExtendOpen(a: Id, b: Id, n: Id)
    ensures BetweenLeftIncl(a, b, n) <==> n == a || Between(a, b, n)
    ensures BetweenRightIncl(a, b, n) <==> n == b || Between(a, b, n)
    ensures BetweenBothIncl(a, b, n) <==> n == a || n == b || Between(a, b, n)
  {
  }

  /** diff as written: for b < a the subtraction has the wrong sign and the
      result lands above a whole turn. */
  function DiffAsWritten(a: Id, b: Id): (r: int)
    ensures a < b ==> r == Distance(a, b)
    ensures a == b ==> r == Modulus
  {
    var d := b - a;
    if d > 0 then d else Modulus - d
  }

  /** The input 1, 0 shows it: the forward distance from 1 to 0 is
      Modulus - 1, but diff returns Modulus + 1. */
  lemma DiffAsWrittenLeavesRing()
    ensures Distance(1, 0) == Modulus - 1
    ensures DiffAsWritten(1, 0) == Modulus + 1
  {
  }

  /** diff with the sign of the wrap-around case corrected: `2^NBIT + (b - a)`. */
  function Diff(a: Id, b: Id): (r: nat)
    ensures r == Distance(a, b)
  {
    var d := b - a;
    if d > 0 then d else Modulus + d
  }
}
