/** Bytes as they travel over the serial link, and the bit-level decodings the
    protocol applies to them: single mask bits `(b >> i) & 1`, the two 4-bit
    halves of a packed intensity byte, and the 8-aligned origin mask `& 0xF8`.
    Bitwise AND is defined bit by bit on naturals; each mask the protocol uses
    is then characterised arithmetically. */
module Bytes {

  /** One byte of the wire: the values a `bytes` object yields when indexed. */
  type byte = b: int | 0 <= b < 256

  /** 2 to the power `i`. */
  function Pow2(i: nat): (r: nat)
    ensures r >= 1
  {
    if i == 0 then 1 else 2 * Pow2(i - 1)
  }

  /** Bitwise AND of two naturals, lowest bit first. */
  function And(a: nat, m: nat): (r: nat)
    ensures r <= a && r <= m
    decreases a
  {
    if a == 0 || m == 0 then 0
    else 2 * And(a / 2, m / 2) + (if a % 2 == 1 && m % 2 == 1 then 1 else 0)
  }

  /** Logical right shift `a >> i`: `i` halvings. */
  function Shr(a: nat, i: nat): nat
  {
    if i == 0 then a else Shr(a / 2, i - 1)
  }

  /** Shifting right by i divides by 2^i. */
  lemma {:induction false} ShrIsDiv(a: nat, i: nat)
    ensures Shr(a, i) == a / Pow2(i)
    decreases i
  {
    if i > 0 {
      ShrIsDiv(a / 2, i - 1);
      ModDouble(a, Pow2(i - 1));
    }
  }

  lemma MulNonNegative(x: int, y: int)
    requires x >= 0 && y >= 0
    ensures x * y >= 0
  {
  }

  /** Quotient and remainder are the only ones with a remainder in [0, d). */
  lemma DivModUnique(a: int, d: int, q: int, r: int)
    requires d > 0 && 0 <= r < d && a == d * q + r
    ensures a / d == q && a % d == r
  {
    var q', r' := a / d, a % d;
    assert a == d * q' + r';
    assert d * (q - q') == r' - r;
    if q > q' {
      MulNonNegative(d, q - q' - 1);
      assert false;
    } else if q < q' {
      MulNonNegative(d, q' - q - 1);
      assert false;
    }
  }

  /** The low bits of a below 2p: bit 0, then the low bits of a / 2 below p. */
  lemma ModDouble(a: nat, p: nat)
    requires p >= 1
    ensures a % (2 * p) == 2 * ((a / 2) % p) + a % 2
    ensures a / (2 * p) == (a / 2) / p
  {
    var s, t := (a / 2) / p, (a / 2) % p;
    assert a / 2 == p * s + t;
    assert a == (2 * p) * s + (2 * t + a % 2);
    DivModUnique(a, 2 * p, s, 2 * t + a % 2);
  }

  /** AND with an odd mask: bit 0 of `x`, then the rest shifted down. */
  lemma AndOddMask(x: nat, m: nat)
    ensures And(x, 2 * m + 1) == 2 * And(x / 2, m) + x % 2
  {
  }

  /** AND with an even mask: bit 0 is cleared, the rest shifted down. */
  lemma AndEvenMask(x: nat, m: nat)
    ensures And(x, 2 * m) == 2 * And(x / 2, m)
  {
    if x != 0 && m != 0 {
      assert (2 * m) / 2 == m && (2 * m) % 2 == 0;
    }
  }

  /** `x & (2^k - 1)` keeps the low `k` bits of `x`. */
  lemma {:induction false} AndLowBits(x: nat, k: nat)
    ensures And(x, Pow2(k) - 1) == x % Pow2(k)
    decreases k
  {
    if k > 0 {
      var p := Pow2(k - 1);
      assert Pow2(k) - 1 == 2 * (p - 1) + 1;
      AndOddMask(x, p - 1);
      AndLowBits(x / 2, k - 1);
      ModDouble(x, p);
    }
  }

  /** `(b >> i) & 1`: whether bit `i` of a mask byte is set. */
  function Bit(b: byte, i: nat): (r: bool)
    requires i < 8
    ensures r <==> (b / Pow2(i)) % 2 == 1
  {
    ShrIsDiv(b, i);
    AndOne(Shr(b, i));
    And(Shr(b, i), 1) == 1
  }

  lemma AndOne(x: nat)
    ensures And(x, 1) == x % 2
  {
    if x > 0 {
      assert And(x, 1) == 2 * And(x / 2, 0) + x % 2;
    }
  }

  /** `(b >> 4) & 0x0F`: the first of the two intensities packed in a byte. */
  function HighNibble(b: byte): (r: int)
    ensures 0 <= r < 16
    ensures r == b / 16
  {
    assert Pow2(4) == 16;
    ShrIsDiv(b, 4);
    AndLowBits(Shr(b, 4), 4);
    And(Shr(b, 4), 0x0F)
  }

  /** `b & 0x0F`: the second of the two intensities packed in a byte. */
  function LowNibble(b: byte): (r: int)
    ensures 0 <= r < 16
    ensures r == b % 16
  {
    assert Pow2(4) == 16;
    AndLowBits(b, 4);
    And(b, 0x0F)
  }

  /** `b & 0xF8`: the origin of the 8-aligned block containing `b`. */
  function AlignDown8(b: byte): (r: byte)
    ensures r % 8 == 0
    ensures r <= b < r + 8
  {
    AndAlign(b);
    And(b, 0xF8)
  }

  /** Clearing the low three bits of a byte rounds it down to a multiple of 8. */
  lemma AndAlign(b: byte)
    ensures And(b, 0xF8) == 8 * (b / 8)
  {
    var b1 := b / 2;
    var b2 := b1 / 2;
    var b3 := b2 / 2;
    assert b3 == b / 8;
    assert b3 < 32;
    AndLowBits(b3, 5);
    assert And(b3, 0x1F) == b3;
    AndEvenMask(b2, 0x1F);
    AndEvenMask(b1, 0x3E);
    AndEvenMask(b, 0x7C);
  }

  /** Packs two intensities high-nibble-first, as a host does before sending. */
  function PackNibbles(hi: int, lo: int): (r: byte)
    requires 0 <= hi < 16 && 0 <= lo < 16
    ensures r / 16 == hi && r % 16 == lo
  {
    hi * 16 + lo
  }

  /** Unpacking a byte and packing its halves again gives back the byte, and
      packing two intensities and unpacking them gives back the intensities. */
  lemma NibbleRoundTrip(b: byte, hi: int, lo: int)
    requires 0 <= hi < 16 && 0 <= lo < 16
    ensures PackNibbles(HighNibble(b), LowNibble(b)) == b
    ensures HighNibble(PackNibbles(hi, lo)) == hi
    ensures LowNibble(PackNibbles(hi, lo)) == lo
  {
  }
}
