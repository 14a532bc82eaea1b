/**
 * The colour-channel conversions of misc.c: `rgb565` and `rgb1555`.
 *
 * Both call C's `round` on a double. For an integer m >= 0 the quotient m / 255.0 is never
 * exactly halfway between two integers, because 255 is odd, so round(m / 255.0) equals the
 * integer (m + 127) div 255. Hence
 *   rgb565:  r5 = (31*r + 254) div 255, g6 = (63*g + 254) div 255, b5 = (31*b + 254) div 255
 *   rgb1555: r5 = (31*r + 127) div 255, g6 = (63*g + 127) div 255, b5 = (31*b + 127) div 255
 *
 */
module Color {
  import opened Bytes

  /** round(m / 255.0) for m >= 0: the integer nearest to m / 255, which is unique. */
  function Round255(m: nat): (q: nat)
    ensures -127 <= 255 * q - m <= 127
  {
    (m + 127) / 255
  }

  /** Any integer within 127 of m / 255 (scaled by 255) is Round255(m). */
  lemma Round255Unique(m: nat, q: int)
    requires -127 <= 255 * q - m <= 127
    ensures q == Round255(m)
  {
    var p := Round255(m);
    assert -254 <= 255 * (q - p) <= 254;
  }

  /**
   * A channel of rgb565: round((c * max + 127) / 255.0), which is c * max / 255 rounded up.
   */
  function Chan565(c: uint8, max: nat): nat
    requires max == 31 || max == 63
  {
    Round255(max * (c as int) + 127)
  }

  /** The rgb565 channel is c * max / 255 rounded up, so it fits its field of `max`. */
  lemma Chan565Bounds(c: uint8, max: nat)
    requires max == 31 || max == 63
    ensures Chan565(c, max) <= max
    ensures 0 <= 255 * Chan565(c, max) - max * (c as int) <= 254
  {
    var q := Chan565(c, max);
    assert 255 * q <= max * (c as int) + 254;
    assert max * (c as int) <= max * 255;
  }

  /** A channel of rgb1555: round(c * max / 255.0), the nearest integer to c * max / 255. */
  function Chan1555(c: uint8, max: nat): nat
    requires max == 31 || max == 63
  {
    Round255(max * (c as int))
  }

  /** The rgb1555 channel is the integer nearest to c * max / 255, so it fits its field of `max`. */
  lemma Chan1555Bounds(c: uint8, max: nat)
    requires max == 31 || max == 63
    ensures Chan1555(c, max) <= max
    ensures -127 <= 255 * Chan1555(c, max) - max * (c as int) <= 127
  {
    var q := Chan1555(c, max);
    assert 255 * q <= max * (c as int) + 127;
    assert max * (c as int) <= max * 255;
  }

  /** `(b5 << 11) | (g6 << 5) | r5`, the word `rgb565` returns before its `uint16_t` cast. */
  function Word565(r5: nat, g6: nat, b5: nat): nat
  {
    BitOr(BitOr(b5 * 2048, g6 * 32), r5)
  }

  /** `rgb565`. */
  function Rgb565(r: uint8, g: uint8, b: uint8): uint16
  {
    (Word565(Chan565(r, 31), Chan565(g, 63), Chan565(b, 31)) % 65536) as uint16
  }

  /**
   * The three fields of a 5-6-5 word are disjoint bit ranges: the word is their sum, fits in
   * 16 bits, and each field reads back.
   */
  lemma Word565Fields(r5: nat, g6: nat, b5: nat)
    requires r5 < 32 && g6 < 64 && b5 < 32
    ensures Word565(r5, g6, b5) < 65536
    ensures Word565(r5, g6, b5) % 32 == r5
    ensures Word565(r5, g6, b5) / 32 % 64 == g6
    ensures Word565(r5, g6, b5) / 2048 == b5
  {
    assert Word565(r5, g6, b5) == (b5 * 64 + g6) * 32 + r5 by {
      Pow2Values();
      var x1 := BitOr(b5 * 2048, g6 * 32);
      BitOrAbove(b5 * 2048, b5, g6 * 32, 11, 2048);
      BitOrAbove(x1, b5 * 64 + g6, r5, 5, 32);
    }
    Fields565(Word565(r5, g6, b5), r5, g6, b5);
  }

  lemma Fields565(w: nat, r5: nat, g6: nat, b5: nat)
    requires r5 < 32 && g6 < 64 && b5 < 32
    requires w == (b5 * 64 + g6) * 32 + r5
    ensures w < 65536
    ensures w % 32 == r5
    ensures w / 32 % 64 == g6
    ensures w / 2048 == b5
  {
    DivModOf(w, b5 * 64 + g6, 32, r5);
    DivModOf(w, b5, 2048, g6 * 32 + r5);
    DivModOf(b5 * 64 + g6, b5, 64, g6);
  }

  /**
   * `rgb565` places red in bits 0-4, green in bits 5-10 and blue in bits 11-15, each channel
   * rounded as Chan565 states.
   */
  lemma Rgb565Fields(r: uint8, g: uint8, b: uint8)
    ensures Rgb565(r, g, b) as int % 32 == Chan565(r, 31)
    ensures Rgb565(r, g, b) as int / 32 % 64 == Chan565(g, 63)
    ensures Rgb565(r, g, b) as int / 2048 == Chan565(b, 31)
  {
    var r5, g6, b5 := Chan565(r, 31), Chan565(g, 63), Chan565(b, 31);
    assert r5 < 32 && g6 < 64 && b5 < 32 by {
      Chan565Bounds(r, 31);
      Chan565Bounds(g, 63);
      Chan565Bounds(b, 31);
    }
    Word565Fields(r5, g6, b5);
    SmallMod(Word565(r5, g6, b5), 65536);
  }

  /** `((g6 & 1) << 15) | (r5 << 10) | ((g6 >> 1) << 5) | b5`, the word `rgb1555` returns. */
  function Word1555(r5: nat, g6: nat, b5: nat): nat
  {
    BitOr(BitOr(BitOr((g6 % 2) * 32768, r5 * 1024), (g6 / 2) * 32), b5)
  }

  /** `rgb1555`. */
  function Rgb1555(r: uint8, g: uint8, b: uint8): uint16
  {
    (Word1555(Chan1555(r, 31), Chan1555(g, 63), Chan1555(b, 31)) % 65536) as uint16
  }

  /**
   * The fields of a 1-5-5-5 word are disjoint bit ranges: the low green bit in bit 15, red
   * in bits 10-14, the high five green bits in bits 5-9 and blue in bits 0-4.
   */
  lemma Word1555Fields(r5: nat, g6: nat, b5: nat)
    requires r5 < 32 && g6 < 64 && b5 < 32
    ensures Word1555(r5, g6, b5) < 65536
    ensures Word1555(r5, g6, b5) % 32 == b5
    ensures Word1555(r5, g6, b5) / 1024 % 32 == r5
    ensures (Word1555(r5, g6, b5) / 32 % 32) * 2 + Word1555(r5, g6, b5) / 32768 == g6
  {
    var lo, hi := g6 % 2, g6 / 2;
    assert Word1555(r5, g6, b5) == lo * 32768 + r5 * 1024 + hi * 32 + b5 by {
      Pow2Values();
      var x1 := BitOr(lo * 32768, r5 * 1024);
      BitOrAbove(lo * 32768, lo, r5 * 1024, 15, 32768);
      var x2 := BitOr(x1, hi * 32);
      BitOrAbove(x1, lo * 32 + r5, hi * 32, 10, 1024);
      BitOrAbove(x2, lo * 1024 + r5 * 32 + hi, b5, 5, 32);
    }
    Fields1555(Word1555(r5, g6, b5), lo, r5, hi, b5, g6);
  }

  lemma Fields1555(w: nat, lo: nat, r5: nat, hi: nat, b5: nat, g6: nat)
    requires lo < 2 && r5 < 32 && hi < 32 && b5 < 32 && g6 == 2 * hi + lo
    requires w == lo * 32768 + r5 * 1024 + hi * 32 + b5
    ensures w < 65536
    ensures w % 32 == b5
    ensures w / 1024 % 32 == r5
    ensures (w / 32 % 32) * 2 + w / 32768 == g6
  {
    DivModOf(w, lo * 1024 + r5 * 32 + hi, 32, b5);
    DivModOf(w, lo * 32 + r5, 1024, hi * 32 + b5);
    DivModOf(w, lo, 32768, r5 * 1024 + hi * 32 + b5);
    DivModOf(lo * 32 + r5, lo, 32, r5);
    DivModOf(lo * 1024 + r5 * 32 + hi, lo * 32 + r5, 32, hi);
  }

  /** Each channel of `rgb1555` reads back from its field, rounded as Chan1555 states. */
  lemma Rgb1555Fields(r: uint8, g: uint8, b: uint8)
    ensures Rgb1555(r, g, b) as int % 32 == Chan1555(b, 31)
    ensures Rgb1555(r, g, b) as int / 1024 % 32 == Chan1555(r, 31)
    ensures (Rgb1555(r, g, b) as int / 32 % 32) * 2 + Rgb1555(r, g, b) as int / 32768 == Chan1555(g, 63)
  {
    var r5, g6, b5 := Chan1555(r, 31), Chan1555(g, 63), Chan1555(b, 31);
    assert r5 < 32 && g6 < 64 && b5 < 32 by {
      Chan1555Bounds(r, 31);
      Chan1555Bounds(g, 63);
      Chan1555Bounds(b, 31);
    }
    Word1555Fields(r5, g6, b5);
    SmallMod(Word1555(r5, g6, b5), 65536);
  }
}
