/** The textual form of identifiers (utils/id_utils.C, str2chordID): at most
    NBIT/4 big-endian hex digits, lower-case letters only. */
module IdHex {
  import opened Pow2Arith
  import opened IdRing

  /** The characters str2chordID accepts: '0'-'9' and 'a'-'f'. */
  predicate IsHexDigit(ch: char)
  {
    ('0' <= ch <= '9') || ('a' <= ch <= 'f')
  }

  predicate AllHexDigits(s: string)
  {
    forall i :: 0 <= i < |s| ==> IsHexDigit(s[i])
  }

  function DigitValue(ch: char): (d: nat)
    requires IsHexDigit(ch)
    ensures d < 16
  {
    if '0' <= ch <= '9' then ch as int - '0' as int else ch as int - 'a' as int + 10
  }

  /** The big-endian value of a string of hex digits (0 for the empty string). */
  function HexValue(s: string): nat
    requires AllHexDigits(s)
  {
    if s == [] then 0 else HexValue(s[..|s| - 1]) * 16 + DigitValue(s[|s| - 1])
  }

  /** The lower-case digit for a value below 16. */
  function HexDigit(d: nat): (ch: char)
    requires d < 16
    ensures IsHexDigit(ch) && DigitValue(ch) == d
  {
    if d < 10 then ('0' as int + d) as char else ('a' as int + d - 10) as char
  }

  /** The w low hex digits of v, most significant first: the inverse of
      HexValue used to state the round trip. */
  function ToHex(v: nat, w: nat): (s: string)
    ensures |s| == w && AllHexDigits(s)
  {
    if w == 0 then [] else ToHex(v / 16, w - 1) + [HexDigit(v % 16)]
  }

  lemma Pow2Times16(k: nat)
    ensures Pow2(4 * k + 4) == 16 * Pow2(4 * k)
  {
    Pow2Add(4 * k, 4);
    assert Pow2(4) == 16;
  }

  /** A string of k digits denotes a value below 16^k = 2^(4k). */
  lemma {:induction false} HexValueBound(s: string)
    requires AllHexDigits(s)
    ensures HexValue(s) < Pow2(4 * |s|)
  {
    if s != [] {
      var k := |s| - 1;
      HexValueBound(s[..k]);
      Pow2Times16(k);
      assert HexValue(s) <= (Pow2(4 * k) - 1) * 16 + 15;
    }
  }

  /** Decoding the w-digit encoding of a value below 2^(4w) gives it back. */
  lemma {:induction false} HexRoundTrip(v: nat, w: nat)
    requires v < Pow2(4 * w)
    ensures HexValue(ToHex(v, w)) == v
  {
    if w > 0 {
      var s := ToHex(v, w);
      Pow2Times16(w - 1);
      assert v / 16 < Pow2(4 * (w - 1));
      HexRoundTrip(v / 16, w - 1);
      assert s[..|s| - 1] == ToHex(v / 16, w - 1);
    }
  }

  /** Every identifier has a text of exactly NBIT/4 digits that parses back to it. */
  lemma IdTextRoundTrip(v: Id)
    ensures AllHexDigits(ToHex(v, NBIT / 4)) && |ToHex(v, NBIT / 4)| == NBIT / 4
    ensures HexValue(ToHex(v, NBIT / 4)) == v
  {
    ModulusIsPow2();
    HexRoundTrip(v, NBIT / 4);
  }

  /** str2chordID.  `newID` is a reference parameter: `prior` is its value on
      entry and `newId` its value on return.  Too long a string leaves it
      untouched; a bad digit leaves the value of the digits before it. */
  method Str2ChordId(c: string, prior: nat) returns (ok: bool, newId: nat)
    ensures ok <==> |c| <= NBIT / 4 && AllHexDigits(c)
    ensures |c| > NBIT / 4 ==> newId == prior
    ensures ok ==> newId == HexValue(c) && newId < Modulus
    ensures forall k :: 0 <= k < |c| <= NBIT / 4 && !IsHexDigit(c[k]) && AllHexDigits(c[..k]) ==>
              newId == HexValue(c[..k])
  {
    if |c| > NBIT / 4 {
      return false, prior;
    }
    newId := 0;
    var i := 0;
    while i < |c|
      invariant 0 <= i <= |c|
      invariant AllHexDigits(c[..i])
      invariant newId == HexValue(c[..i])
    {
      assert c[..i + 1][..i] == c[..i];
      if '0' <= c[i] <= '9' {
        // `(newID << 4) | d` with d < 16 is newID * 16 + d
        newId := newId * 16 + (c[i] as int - '0' as int);
      } else if 'a' <= c[i] <= 'f' {
        newId := newId * 16 + (c[i] as int - 'a' as int + 10);
      } else {
        assert forall k :: 0 <= k < i ==> c[..i][k] == c[k];
        return false, newId;
      }
      i := i + 1;
    }
    assert c[..i] == c;
    ModulusIsPow2();
    HexValueBound(c);
    Pow2Monotone(4 * |c|, NBIT);
    ok := true;
  }
}
