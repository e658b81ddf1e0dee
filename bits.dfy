/** Bit-level helpers of utils/id_utils.C used by proximity routing: bit
    counts, highest set bit, first mismatching bit, runs of zero bits, and
    the top-bit extraction and splicing of identifiers.  Bigint shifts and
    bitwise operators are modelled on non-negative integers. */
module IdBits {
  import opened Pow2Arith
  import opened IdRing

  /** `x >> k`. */
  function Shr(x: nat, k: nat): nat
  {
    if k == 0 then x else Shr(x / 2, k - 1)
  }

  /** `x << k`. */
  function Shl(x: nat, k: nat): nat
  {
    x * Pow2(k)
  }

  /** `x & y` on non-negative integers. */
  function And(x: nat, y: nat): nat
  {
    if x == 0 || y == 0 then 0
    else 2 * And(x / 2, y / 2) + (if x % 2 == 1 && y % 2 == 1 then 1 else 0)
  }

  /** `x | y` on non-negative integers. */
  function Or(x: nat, y: nat): nat
  {
    if x == 0 then y
    else if y == 0 then x
    else 2 * Or(x / 2, y / 2) + (if x % 2 == 1 || y % 2 == 1 then 1 else 0)
  }

  /** `x.getbit(i)`. */
  predicate Bit(x: nat, i: nat)
  {
    Shr(x, i) % 2 == 1
  }

  /** `x.nbits()`: the number of significant bits, 0 for 0. */
  function NBits(x: nat): (r: nat)
    ensures x < Pow2(r)
    ensures x > 0 ==> r > 0 && Pow2(r - 1) <= x
  {
    if x == 0 then 0 else 1 + NBits(x / 2)
  }

  // ---------------------------------------------------------------------
  // Bit-level facts about the operators above.

  lemma {:induction false} ShrShr(x: nat, a: nat, b: nat)
    ensures Shr(Shr(x, a), b) == Shr(x, a + b)
  {
    if a > 0 {
      ShrShr(x / 2, a - 1, b);
    }
  }

  lemma ShrStep(x: nat, k: nat)
    ensures Shr(x, k + 1) == Shr(x, k) / 2
  {
    ShrShr(x, k, 1);
  }

  lemma {:induction false} ShrIsDiv(x: nat, k: nat)
    ensures Shr(x, k) == x / Pow2(k)
  {
    if k > 0 {
      ShrIsDiv(x / 2, k - 1);
      DivDivPow2(x, 1, k - 1);
    }
  }

  lemma BitOfShr(x: nat, k: nat, j: nat)
    ensures Bit(Shr(x, k), j) <==> Bit(x, j + k)
  {
    ShrShr(x, k, j);
  }

  lemma {:induction false} BitOfZero(j: nat)
    ensures !Bit(0, j)
  {
    if j > 0 {
      BitOfZero(j - 1);
    }
  }

  lemma BitOfDouble(y: nat, b: nat, j: nat)
    requires b < 2
    ensures Bit(2 * y + b, j) <==> if j == 0 then b == 1 else Bit(y, j - 1)
  {
    if j > 0 {
      assert (2 * y + b) / 2 == y;
    }
  }

  lemma {:induction false} BitOfAnd(x: nat, y: nat, j: nat)
    ensures Bit(And(x, y), j) <==> Bit(x, j) && Bit(y, j)
  {
    if x == 0 || y == 0 {
      BitOfZero(j);
    } else {
      BitOfDouble(And(x / 2, y / 2), if x % 2 == 1 && y % 2 == 1 then 1 else 0, j);
      if j > 0 {
        BitOfAnd(x / 2, y / 2, j - 1);
      }
    }
  }

  lemma {:induction false} BitOfOr(x: nat, y: nat, j: nat)
    ensures Bit(Or(x, y), j) <==> Bit(x, j) || Bit(y, j)
  {
    if x == 0 {
      BitOfZero(j);
    } else if y == 0 {
      BitOfZero(j);
    } else {
      BitOfDouble(Or(x / 2, y / 2), if x % 2 == 1 || y % 2 == 1 then 1 else 0, j);
      if j > 0 {
        BitOfOr(x / 2, y / 2, j - 1);
      }
    }
  }

  lemma {:induction false} BitOfShl(x: nat, k: nat, j: nat)
    ensures Bit(Shl(x, k), j) <==> j >= k && Bit(x, j - k)
  {
    if k > 0 {
      assert Shl(x, k) == 2 * Shl(x, k - 1) + 0;
      BitOfDouble(Shl(x, k - 1), 0, j);
      if j > 0 {
        BitOfShl(x, k - 1, j - 1);
      }
    }
  }

  /** `(1 << w) - 1` has exactly the bits below w. */
  lemma {:induction false} BitOfLowOnes(w: nat, j: nat)
    ensures Bit(Pow2(w) - 1, j) <==> j < w
  {
    if w == 0 {
      BitOfZero(j);
    } else {
      assert Pow2(w) - 1 == 2 * (Pow2(w - 1) - 1) + 1;
      BitOfDouble(Pow2(w - 1) - 1, 1, j);
      if j > 0 {
        BitOfLowOnes(w - 1, j - 1);
      }
    }
  }

  lemma {:induction false} ShrPastNBits(x: nat, k: nat)
    requires k >= NBits(x)
    ensures Shr(x, k) == 0
  {
    if x > 0 {
      ShrPastNBits(x / 2, k - 1);
    } else if k > 0 {
      ShrPastNBits(0, k - 1);
    }
  }

  lemma BitPastNBits(x: nat, j: nat)
    requires j >= NBits(x)
    ensures !Bit(x, j)
  {
    ShrPastNBits(x, j);
  }

  lemma {:induction false} TopBitSet(x: nat)
    requires x > 0
    ensures Bit(x, NBits(x) - 1)
  {
    if x / 2 > 0 {
      TopBitSet(x / 2);
    }
  }

  /** Two numbers below 2^L with the same bits below L are equal. */
  lemma {:induction false} EqualBitsEqual(x: nat, y: nat, L: nat)
    requires x < Pow2(L) && y < Pow2(L)
    requires forall j: nat :: j < L ==> (Bit(x, j) <==> Bit(y, j))
    ensures x == y
  {
    if L > 0 {
      assert Bit(x, 0) <==> Bit(y, 0);
      forall j: nat | j < L - 1
        ensures Bit(x / 2, j) <==> Bit(y / 2, j)
      {
        assert Bit(x, j + 1) <==> Bit(y, j + 1);
      }
      EqualBitsEqual(x / 2, y / 2, L - 1);
    }
  }

  lemma IdFitsNBits(a: Id)
    ensures NBits(a) <= NBIT
  {
    ModulusIsPow2();
    if NBits(a) > 0 {
      Pow2Monotone(NBIT, NBits(a) - 1);
    }
  }

  lemma {:induction false} ShrBound(x: nat, L: nat, k: nat)
    requires x < Pow2(L) && k <= L
    ensures Shr(x, k) < Pow2(L - k)
  {
    if k > 0 {
      ShrBound(x / 2, L - 1, k - 1);
    }
  }

  // ---------------------------------------------------------------------
  // n1bits

  /** Number of set bits among the low k bits of n. */
  function PopCount(n: nat, k: nat): nat
  {
    if k == 0 then 0 else PopCount(n, k - 1) + (if Bit(n, k - 1) then 1 else 0)
  }

  /** PopCount is the size of the set of set-bit positions below k. */
  lemma {:induction false} PopCountIsCardinality(n: nat, k: nat)
    ensures PopCount(n, k) == |set j | 0 <= j < k && Bit(n, j)|
  {
    if k > 0 {
      PopCountIsCardinality(n, k - 1);
      var below := set j | 0 <= j < k - 1 && Bit(n, j);
      if Bit(n, k - 1) {
        assert (set j | 0 <= j < k && Bit(n, j)) == below + {k - 1};
      } else {
        assert (set j | 0 <= j < k && Bit(n, j)) == below;
      }
    }
  }

  /** n1bits: count the one bits of the low 32 bits of n. */
  method N1Bits(n: nat) returns (t: nat)
    ensures t == |set j | 0 <= j < 32 && Bit(n, j)|
    ensures t <= 32
  {
    t := 0;
    var m := n;
    var i := 0;
    while i < 32
      invariant 0 <= i <= 32
      invariant m == Shr(n, i)
      invariant t == PopCount(n, i) && t <= i
    {
      if m % 2 == 1 {
        t := t + 1;
      }
      ShrStep(n, i);
      m := m / 2;
      i := i + 1;
    }
    PopCountIsCardinality(n, 32);
  }

  // ---------------------------------------------------------------------
  // log2

  /** log2: index of the highest one bit among the low 32 bits of n, or 0
      when none is set. */
  method Log2(n: nat) returns (l: nat)
    ensures l < 32
    ensures (exists j :: 0 <= j < 32 && Bit(n, j)) ==>
              Bit(n, l) && forall j :: l < j < 32 ==> !Bit(n, j)
    ensures (forall j :: 0 <= j < 32 ==> !Bit(n, j)) ==> l == 0
  {
    l := 0;
    var m := n;
    var i := 0;
    while i < 32
      invariant 0 <= i <= 32
      invariant m == Shr(n, i)
      invariant l < 32 && (i > 0 ==> l < i)
      invariant (exists j :: 0 <= j < i && Bit(n, j)) ==>
                  Bit(n, l) && forall j :: l < j < i ==> !Bit(n, j)
      invariant (forall j :: 0 <= j < i ==> !Bit(n, j)) ==> l == 0
    {
      if m % 2 == 1 {
        l := i;
      }
      assert (forall j :: 0 <= j < i + 1 ==> !Bit(n, j)) ==>
               !Bit(n, i) && forall j :: 0 <= j < i ==> !Bit(n, j);
      ShrStep(n, i);
      m := m / 2;
      i := i + 1;
    }
  }

  // ---------------------------------------------------------------------
  // bitindexmismatch

  /** bitindexmismatch: with equal bit lengths, the highest bit where n and p
      differ, or -1 when they are equal; with different lengths, the index of
      p's top bit. */
  method BitIndexMismatch(n: nat, p: nat) returns (bm: int)
    ensures NBits(n) != NBits(p) ==> bm == NBits(p) - 1
    ensures NBits(n) == NBits(p) ==> (bm == -1 <==> n == p)
    ensures NBits(n) == NBits(p) && bm >= 0 ==>
              bm < NBits(p) && (Bit(n, bm) <==> !Bit(p, bm)) &&
              forall j: nat :: bm < j < NBits(p) ==> (Bit(n, j) <==> Bit(p, j))
  {
    if NBits(n) != NBits(p) {
      bm := NBits(p) - 1;
    } else {
      bm := NBits(p) - 1;
      while bm >= 0
        invariant -1 <= bm < NBits(p)
        invariant forall j: nat :: bm < j < NBits(p) ==> (Bit(n, j) <==> Bit(p, j))
      {
        if Bit(n, bm) != Bit(p, bm) {
          break;
        }
        bm := bm - 1;
      }
      if bm == -1 {
        EqualBitsEqual(n, p, NBits(p));
      }
    }
  }

  // ---------------------------------------------------------------------
  // bitindexzeros

  /** Bits b .. b + k - 1 of p are all zero. */
  ghost predicate ZeroRun(p: nat, b: nat, k: nat)
  {
    forall j: nat :: b <= j < b + k ==> !Bit(p, j)
  }

  /** bitindexzeros: scanning down from bit i, the lowest index of the first
      run of nzero zero bits met (at least one zero bit when nzero <= 0);
      -1 when there is none, and i itself when i < 0. */
  method BitIndexZeros(p: nat, i: int, nzero: int) returns (b0: int)
    ensures b0 <= i
    ensures var k := if nzero < 1 then 1 else nzero;
      b0 >= 0 ==> b0 + k - 1 <= i && ZeroRun(p, b0, k)
    ensures var k := if nzero < 1 then 1 else nzero;
      forall b: nat :: b0 < b && b + k - 1 <= i ==> !ZeroRun(p, b, k)
    ensures b0 < 0 ==> b0 == if i < 0 then i else -1
  {
    ghost var k := if nzero < 1 then 1 else nzero;
    var c := 0;
    b0 := i;
    while b0 >= 0
      invariant b0 <= i && (i >= 0 ==> b0 >= -1) && (i < 0 ==> b0 == i)
      invariant 0 <= c < k && c <= i - b0
      invariant forall j: nat :: b0 < j <= b0 + c ==> !Bit(p, j)
      invariant 0 <= b0 + c + 1 <= i ==> Bit(p, b0 + c + 1)
      invariant forall b: nat :: b0 < b && b + k - 1 <= i ==> !ZeroRun(p, b, k)
    {
      if !Bit(p, b0) {
        c := c + 1;
        if c >= nzero {
          break;
        }
      } else {
        c := 0;
      }
      b0 := b0 - 1;
    }
  }

  // ---------------------------------------------------------------------
  // topbits, shifttopbitout, createbits

  /** topbits: the top n bits of the NBIT-bit representation of a. The
      source asserts n <= 32 and n <= a.nbits() for a != 0. */
  function TopBits(n: nat, a: Id): (r: nat)
    requires a == 0 || (n <= 32 && n <= NBits(a))
    ensures n <= NBIT ==> r == Shr(a, NBIT - n)
    ensures r < Pow2(n)
  {
    if a == 0 then
      TopBitsOfZero(n);
      0
    else
      IdFitsNBits(a);
      var m0 := NBIT - NBits(a);
      var m := if m0 < n then m0 else n;
      var n' := n - m;
      if n' > 0 then
        TopBitsWide(n, a, n');
        Shr(a, NBits(a) - n') % 0x1_0000_0000
      else
        TopBitsNarrow(n, a);
        0
  }

  lemma TopBitsOfZero(n: nat)
    ensures n <= NBIT ==> 0 == Shr(0, NBIT - n)
  {
    if n <= NBIT {
      ShrPastNBits(0, NBIT - n);
    }
  }

  lemma Pow2Of32()
    ensures Pow2(32) == 0x1_0000_0000
  {
    assert Pow2(8) == 256;
    Pow2Add(8, 8);
    assert Pow2(16) == 0x1_0000;
    Pow2Add(16, 16);
  }

  /** When a has fewer than NBIT - n leading zero bits, topbits shifts
      right so that n' = n - (NBIT - nbits(a)) bits are left. */
  lemma TopBitsWide(n: nat, a: Id, n': nat)
    requires n <= 32 && n <= NBits(a) <= NBIT && 0 < n' <= n && NBits(a) - n' == NBIT - n
    ensures Shr(a, NBits(a) - n') % 0x1_0000_0000 == Shr(a, NBIT - n)
    ensures Shr(a, NBIT - n) < Pow2(n)
  {
    TopBitsFit(a, NBits(a), NBIT - n, n', n);
  }

  /** When a has at least n leading zero bits, its top n bits are 0. */
  lemma TopBitsNarrow(n: nat, a: Id)
    requires n <= NBIT && NBIT - n >= NBits(a)
    ensures Shr(a, NBIT - n) == 0
  {
    ShrPastNBits(a, NBIT - n);
  }

  /** Shifting an L-bit value right by L - n' leaves at most n' <= n <= 32
      bits, which the 32-bit truncation keeps. */
  lemma TopBitsFit(a: nat, L: nat, k: nat, n': nat, n: nat)
    requires a < Pow2(L) && k == L - n' && 0 <= k && n' <= n <= 32
    ensures Shr(a, k) % 0x1_0000_0000 == Shr(a, k)
    ensures Shr(a, k) < Pow2(n)
  {
    ShrBound(a, L, k);
    Pow2Monotone(n', n);
    Pow2Monotone(n, 32);
    Pow2Of32();
    ModWrapOnce(Shr(a, k), 0x1_0000_0000);
  }

  /** shifttopbitout: drop the top n bits of a and shift the rest up by n. */
  function ShiftTopBitOut(n: nat, a: Id): (r: Id)
    requires n <= NBIT
    ensures r == DoubleId(a, n)
  {
    if a == 0 then
      assert a * Pow2(n) == 0;
      a
    else
      var low := Pow2(NBIT - n) - 1;
      ShiftMaskedIsDouble(a, n);
      Shl(And(a, low), n)
  }

  /** Masking to the low NBIT - n bits and shifting up by n is doubleID. */
  lemma ShiftMaskedIsDouble(a: Id, n: nat)
    requires n <= NBIT
    ensures Shl(And(a, Pow2(NBIT - n) - 1), n) == DoubleId(a, n)
  {
    AndLowMask(a, NBIT - n);
    ShiftedResidue(a, n);
  }

  /** `x & ((1 << w) - 1)` is x modulo 2^w. */
  lemma AndLowMask(x: nat, w: nat)
    ensures And(x, Pow2(w) - 1) == x % Pow2(w)
  {
    var r := x % Pow2(w);
    assert r < Pow2(w);
    forall j: nat | j < w
      ensures Bit(And(x, Pow2(w) - 1), j) <==> Bit(r, j)
    {
      BitOfAnd(x, Pow2(w) - 1, j);
      BitOfLowOnes(w, j);
      ResidueBits(x, w, j);
    }
    AndBelow(x, Pow2(w) - 1, w);
    EqualBitsEqual(And(x, Pow2(w) - 1), r, w);
  }

  /** Below bit w, x and x mod 2^w agree. */
  lemma {:induction false} ResidueBits(x: nat, w: nat, j: nat)
    requires j < w
    ensures Bit(x % Pow2(w), j) <==> Bit(x, j)
  {
    ModPow2Step(x, w);
    var y := (x / 2) % Pow2(w - 1);
    BitOfDouble(y, x % 2, j);
    if j > 0 {
      ResidueBits(x / 2, w - 1, j - 1);
    }
  }

  /** And never sets a bit that y lacks. */
  lemma AndBelow(x: nat, y: nat, w: nat)
    requires y < Pow2(w)
    ensures And(x, y) < Pow2(w)
  {
    AndBounded(x, y);
  }

  lemma {:induction false} AndBounded(x: nat, y: nat)
    ensures And(x, y) <= y
  {
    if x != 0 && y != 0 {
      AndBounded(x / 2, y / 2);
    }
  }

  /** `(a mod 2^(NBIT-n)) * 2^n` is `a * 2^n` reduced modulo 2^NBIT. */
  lemma ShiftedResidue(a: Id, n: nat)
    requires n <= NBIT
    ensures (a % Pow2(NBIT - n)) * Pow2(n) == DoubleId(a, n)
  {
    ModulusIsPow2();
    Pow2Add(NBIT - n, n);
    MulMod(a, Pow2(NBIT - n), Pow2(n));
  }

  /** createbits: keep the bits of n above pos and fill bits 0 .. pos with
      the top pos + 1 bits of the NBIT-bit representation of x. */
  function CreateBits(n: Id, pos: nat, x: Id): (r: nat)
    requires pos < NBIT && pos <= NBits(n)
    ensures forall j: nat :: Bit(r, j) <==>
              if j <= pos then Bit(x, j + (NBIT - pos - 1)) else Bit(n, j)
  {
    var mask := Shl(Pow2(NBits(n) - pos) - 1, pos + 1);
    var kept := And(n, mask);
    var xtop := Shr(x, NBIT - (pos + 1));
    var r := Or(kept, xtop);
    CreateBitsSplice(n, pos, x, mask, kept, xtop, r);
    r
  }

  lemma CreateBitsSplice(n: Id, pos: nat, x: Id, mask: nat, kept: nat, xtop: nat, r: nat)
    requires pos < NBIT && pos <= NBits(n)
    requires mask == Shl(Pow2(NBits(n) - pos) - 1, pos + 1)
    requires kept == And(n, mask)
    requires xtop == Shr(x, NBIT - (pos + 1))
    requires r == Or(kept, xtop)
    ensures forall j: nat :: Bit(r, j) <==>
              if j <= pos then Bit(x, j + (NBIT - pos - 1)) else Bit(n, j)
  {
    forall j: nat
      ensures Bit(r, j) <==> if j <= pos then Bit(x, j + (NBIT - pos - 1)) else Bit(n, j)
    {
      CreateBitsSpliceAt(n, pos, x, mask, kept, xtop, r, j);
    }
  }

  /** CreateBitsSplice at one bit position j. */
  lemma CreateBitsSpliceAt(n: Id, pos: nat, x: Id, mask: nat, kept: nat, xtop: nat, r: nat, j: nat)
    requires pos < NBIT && pos <= NBits(n)
    requires mask == Shl(Pow2(NBits(n) - pos) - 1, pos + 1)
    requires kept == And(n, mask)
    requires xtop == Shr(x, NBIT - (pos + 1))
    requires r == Or(kept, xtop)
    ensures Bit(r, j) <==> if j <= pos then Bit(x, j + (NBIT - pos - 1)) else Bit(n, j)
  {
    BitOfOr(kept, xtop, j);
    BitOfAnd(n, mask, j);
    SpliceMaskBit(n, pos, mask, j);
    SpliceTopBit(x, pos, xtop, j);
    if j >= NBits(n) {
      BitPastNBits(n, j);
    }
  }

  /** The mask of createbits selects bits pos + 1 .. NBits(n) - 1. */
  lemma SpliceMaskBit(n: Id, pos: nat, mask: nat, j: nat)
    requires pos <= NBits(n)
    requires mask == Shl(Pow2(NBits(n) - pos) - 1, pos + 1)
    ensures Bit(mask, j) <==> pos < j < NBits(n) + 1
  {
    BitOfShl(Pow2(NBits(n) - pos) - 1, pos + 1, j);
    if j >= pos + 1 {
      BitOfLowOnes(NBits(n) - pos, j - (pos + 1));
    }
  }

  /** The top pos + 1 bits of x, shifted down, occupy bits 0 .. pos. */
  lemma SpliceTopBit(x: Id, pos: nat, xtop: nat, j: nat)
    requires pos < NBIT
    requires xtop == Shr(x, NBIT - (pos + 1))
    ensures Bit(xtop, j) <==> j <= pos && Bit(x, j + (NBIT - pos - 1))
  {
    BitOfShr(x, NBIT - (pos + 1), j);
    if j > pos {
      ModulusIsPow2();
      ShrBound(x, NBIT, NBIT - (pos + 1));
      ShrPastNBitsOfBound(xtop, pos + 1, j);
    }
  }

  lemma ShrPastNBitsOfBound(x: nat, L: nat, j: nat)
    requires x < Pow2(L) && j >= L
    ensures !Bit(x, j)
  {
    if NBits(x) > L {
      Pow2Monotone(L, NBits(x) - 1);
    }
    BitPastNBits(x, j);
  }
}
