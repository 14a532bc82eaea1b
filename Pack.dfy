/**
 * The bit-depth packer `force_image_bpp` of misc.c, which rewrites one-byte-per-pixel
 * palette indices (or, at 16 bpp, RGBA quadruplets) into the packed layout the target reads.
 */
module Pack {
  import opened Bytes
  import Color

  /** `inc_amt`: the number of pixels packed into one byte at 1, 2 or 4 bits per pixel. */
  function GroupSize(bpp: nat): (k: nat)
    requires bpp == 1 || bpp == 2 || bpp == 4
    ensures k * bpp == 8
  {
    if bpp == 1 then 8 else if bpp == 2 then 4 else 2
  }

  /**
   * One step of the innermost loop, `byte |= pixel << n`: the pixel is promoted to `int`,
   * shifted, OR-ed with the byte, and the result is stored back into the `uint8_t`, which
   * keeps its low eight bits.
   */
  function OrShift(byte: uint8, pixel: uint8, n: nat): uint8
  {
    Trunc8(BitOr(byte as nat, pixel as nat * Pow2(n)))
  }

  /**
   * The byte built from the prefix `g` of a group of `k` pixels when pixel l is shifted left
   * by (k - 1 - l) * unit. The C code's `--curr_inc` is unit 1: the shift is the pixel's
   * position in the group, whatever the bit depth.
   */
  function PackPrefix(g: seq<uint8>, k: nat, unit: nat): uint8
    requires |g| <= k
  {
    if g == [] then 0 else OrShift(PackPrefix(g[..|g| - 1], k, unit), g[|g| - 1], (k - |g|) * unit)
  }

  /** The byte the C code emits for one whole group of pixels. */
  function PackGroup(g: seq<uint8>): uint8
  {
    PackPrefix(g, |g|, 1)
  }

  lemma PackPrefixStep(data: seq<uint8>, start: nat, lob: nat, k: nat)
    requires lob < k && start + k <= |data|
    ensures PackPrefix(data[start..start + lob + 1], k, 1)
            == OrShift(PackPrefix(data[start..start + lob], k, 1), data[start + lob], k - lob - 1)
  {
    assert data[start..start + lob + 1][..lob] == data[start..start + lob];
  }

  /**
   * The group packer with the shift the 1/2/4-bpp formats call for: pixel l of a group of
   * k = 8 / bpp pixels lands in bits (k - 1 - l) * bpp up to (k - l) * bpp - 1.
   */
  function PackGroupFixed(g: seq<uint8>, bpp: nat): uint8
  {
    PackPrefix(g, |g|, bpp)
  }

  /** Reads n pixels of `unit` bits back from v, the last one from the lowest bits. */
  function Unpack(v: int, n: nat, unit: nat): (r: seq<int>)
    ensures |r| == n
    decreases n
  {
    if n == 0 then [] else Unpack(v / Pow2(unit), n - 1, unit) + [v % Pow2(unit)]
  }

  /** The pixels of g, each `unit` bits wide, as one number, the first pixel most significant. */
  function Horner(g: seq<uint8>, unit: nat): nat
  {
    if g == [] then 0 else Horner(g[..|g| - 1], unit) * Pow2(unit) + g[|g| - 1] as nat
  }

  predicate Fits(g: seq<uint8>, unit: nat)
  {
    forall l :: 0 <= l < |g| ==> (g[l] as nat) < Pow2(unit)
  }

  lemma {:induction false} Pow2Add(a: nat, b: nat)
    ensures Pow2(a + b) == Pow2(a) * Pow2(b)
    decreases b
  {
    if b > 0 {
      Pow2Add(a, b - 1);
    }
  }

  lemma {:induction false} HornerBound(g: seq<uint8>, unit: nat)
    requires Fits(g, unit)
    ensures Horner(g, unit) < Pow2(|g| * unit)
  {
    if g != [] {
      var p := g[..|g| - 1];
      assert Fits(p, unit);
      HornerBound(p, unit);
      MulSucc(|p|, unit);
      Pow2Add(|p| * unit, unit);
      DigitBound(Horner(p, unit), g[|g| - 1] as nat, Pow2(unit), Pow2(|p| * unit));
    }
  }

  /** One more digit below radix q: a number below b * q. */
  lemma DigitBound(h: nat, d: nat, q: nat, b: nat)
    requires h < b && d < q
    ensures h * q + d < b * q
  {
    MulLeq(h + 1, b, q);
  }

  lemma MulSucc(n: nat, u: nat)
    ensures (n + 1) * u == n * u + u
  {
  }

  lemma MulLeq(a: nat, b: nat, c: nat)
    requires a <= b
    ensures a * c <= b * c
  {
  }

  /**
   * One step of the OR-fold with the fields disjoint: a byte holding h above bit s + u,
   * OR-ed with a pixel below 2^u shifted by s, holds h * 2^u + pixel above bit s.
   */
  lemma OrShiftValue(byte: uint8, pixel: uint8, s: nat, u: nat, h: nat)
    requires byte as nat == h * Pow2(s + u) && (pixel as nat) < Pow2(u)
    requires (h * Pow2(u) + pixel as nat) * Pow2(s) < 256
    ensures OrShift(byte, pixel, s) as nat == (h * Pow2(u) + pixel as nat) * Pow2(s)
  {
    var ps, pu := Pow2(s), Pow2(u);
    var d := pixel as nat;
    var x := byte as nat;
    assert BitOr(x, d * ps) == (h * pu + d) * ps by {
      Pow2Add(s, u);
      assert d * ps < Pow2(s + u) by {
        MulLeq(d + 1, pu, ps);
      }
      BitOrAbove(x, h, d * ps, s + u, Pow2(s + u));
      Regroup(h, d, ps, pu);
    }
  }

  lemma Regroup(h: int, d: int, ps: int, pu: int)
    ensures h * (ps * pu) + d * ps == (h * pu + d) * ps
  {
  }

  /** The k pixels' fields fill k * unit <= 8 bits, so no step of the fold loses a bit to truncation. */
  lemma ShiftBound(v: nat, a: nat, s: nat)
    requires v < Pow2(a) && a + s <= 8
    ensures v * Pow2(s) < 256
  {
    Pow2Add(a, s);
    MulLeq(v + 1, Pow2(a), Pow2(s));
    Pow2Mono(a + s, 8);
    assert Pow2(8) == 256;
  }

  /**
   * The exponents in a group of k pixels of u bits once n >= 1 pixels are in: the fields
   * take a bits, the last pixel is shifted by s, the one before it by s + u, and a + s bits
   * are all the group's.
   */
  lemma Exponents(n: nat, k: nat, u: nat) returns (a: nat, s: nat)
    requires 1 <= n <= k
    ensures a == n * u && s == (k - n) * u
    ensures (k - (n - 1)) * u == s + u && a + s == k * u
  {
    a, s := n * u, (k - n) * u;
  }

  /**
   * When every pixel fits in `unit` bits and the k pixels fit in a byte, the shifted fields
   * of a prefix are disjoint: the OR-fold is the number the pixels spell, shifted to the top.
   */
  lemma {:induction false} PackPrefixValue(g: seq<uint8>, k: nat, unit: nat)
    requires |g| <= k && k * unit <= 8 && Fits(g, unit)
    ensures PackPrefix(g, k, unit) as nat == Horner(g, unit) * Pow2((k - |g|) * unit)
  {
    if g != [] {
      var p := g[..|g| - 1];
      assert Fits(p, unit);
      var last := g[|g| - 1];
      var a, s := Exponents(|g|, k, unit);
      assert Horner(g, unit) == Horner(p, unit) * Pow2(unit) + last as nat;
      assert OrShift(PackPrefix(p, k, unit), last, s) as nat == Horner(g, unit) * Pow2(s) by {
        PackPrefixValue(p, k, unit);
        HornerBound(g, unit);
        ShiftBound(Horner(g, unit), a, s);
        OrShiftValue(PackPrefix(p, k, unit), last, s, unit, Horner(p, unit));
      }
    }
  }

  lemma {:induction false} Pow2Mono(a: nat, b: nat)
    requires a <= b
    ensures Pow2(a) <= Pow2(b)
    decreases b
  {
    if a < b {
      Pow2Mono(a, b - 1);
    }
  }

  /** Unpacking the number a sequence of fitting pixels spells gives the pixels back. */
  lemma {:induction false} UnpackHorner(g: seq<uint8>, unit: nat)
    requires Fits(g, unit)
    ensures Unpack(Horner(g, unit), |g|, unit) == seq(|g|, l requires 0 <= l < |g| => g[l] as int)
  {
    if g != [] {
      var p := g[..|g| - 1];
      assert Fits(p, unit);
      UnpackHorner(p, unit);
      DivModOf(Horner(g, unit), Horner(p, unit), Pow2(unit), g[|g| - 1] as nat);
    }
  }

  /**
   * The corrected packer is invertible: at 1, 2 or 4 bpp, a group of 8 / bpp pixels that
   * each fit in bpp bits unpacks, bpp bits at a time from the top, to the same pixels.
   */
  lemma PackGroupFixedRoundTrip(g: seq<uint8>, bpp: nat)
    requires bpp == 1 || bpp == 2 || bpp == 4
    requires |g| == GroupSize(bpp) && Fits(g, bpp)
    ensures Unpack(PackGroupFixed(g, bpp) as nat, |g|, bpp) == seq(|g|, l requires 0 <= l < |g| => g[l] as int)
  {
    PackGroupFixedValue(g, bpp);
    UnpackHorner(g, bpp);
  }

  /** The corrected packer's byte is the number the group's pixels spell in base 2^bpp. */
  lemma PackGroupFixedValue(g: seq<uint8>, bpp: nat)
    requires bpp == 1 || bpp == 2 || bpp == 4
    requires |g| == GroupSize(bpp) && Fits(g, bpp)
    ensures PackGroupFixed(g, bpp) as nat == Horner(g, bpp)
  {
    PackPrefixValue(g, |g|, bpp);
    assert (|g| - |g|) * bpp == 0;
  }

  /** At 1 bpp the C code's shift is the right one, so its packing of bits unpacks to the same bits. */
  lemma PackGroupOneBppRoundTrip(g: seq<uint8>)
    requires |g| == 8 && Fits(g, 1)
    ensures Unpack(PackGroup(g) as nat, 8, 1) == seq(8, l requires 0 <= l < 8 => g[l] as int)
  {
    PackGroupFixedRoundTrip(g, 1);
  }

  /**
   * At 2 bpp the C code shifts pixel l by 3 - l instead of 6 - 2 * l: the group [3, 1, 2, 0]
   * packs to 0x1C, where the format calls for 0xD8 (0b11_01_10_00).
   */
  lemma PackGroupTwoBpp()
    ensures PackGroup([3, 1, 2, 0]) == 0x1C
  {
    var g: seq<uint8> := [3, 1, 2, 0];
    assert g[..3] == [3, 1, 2] && g[..3][..2] == [3, 1] && g[..3][..2][..1] == [3] && g[..3][..2][..1][..0] == [];
    TwoBppPrefixes();
    assert OrShift(28, 0, 0) == 28;
  }

  /** The C code's byte for [3, 1, 2, 0] after each of its first three pixels. */
  lemma TwoBppPrefixes()
    ensures PackPrefix([3], 4, 1) == 24
    ensures PackPrefix([3, 1], 4, 1) == 28
    ensures PackPrefix([3, 1, 2], 4, 1) == 28
  {
    var a: seq<uint8>, b: seq<uint8> := [3, 1], [3, 1, 2];
    assert a[..1] == [3] && b[..2] == [3, 1];
    assert PackPrefix([3], 4, 1) == 24 by {
      assert Pow2(3) == 8;
      OrShiftAt(0, 3, 3, 24);
    }
    OrShiftAt(24, 1, 2, 28);
    OrShiftAt(28, 2, 1, 28);
  }

  /** One concrete `OrShift`, computed bit by bit. */
  lemma OrShiftAt(byte: uint8, pixel: uint8, n: nat, r: uint8)
    requires BitOr(byte as nat, pixel as nat * Pow2(n)) == r as nat
    ensures OrShift(byte, pixel, n) == r
  {
  }

  /**
   * At 4 bpp the C code packs two different pairs of 4-bit pixels to the same byte, so no
   * reader can tell them apart.
   */
  lemma PackGroupFourBppCollision()
    ensures Fits([1, 0], 4) && Fits([0, 2], 4)
    ensures PackGroup([1, 0]) == PackGroup([0, 2]) == 2
  {
    assert Pow2(4) == 16;
    var a: seq<uint8>, b: seq<uint8> := [1, 0], [0, 2];
    assert a[..1] == [1] && b[..1] == [0];
    assert PackPrefix([1], 2, 1) == 2 && PackPrefix([0], 2, 1) == 0;
  }

  /** `rgb565` of RGBA pixel p (its alpha byte is ignored). */
  function Pixel565(rgba: seq<uint8>, p: nat): uint16
    requires 4 * p + 3 < |rgba|
  {
    Color.Rgb565(rgba[4 * p], rgba[4 * p + 1], rgba[4 * p + 2]) as uint16
  }

  /** The 16-bpp output of the first n pixels: each one's `rgb565`, high byte first. */
  function Converted565(rgba: seq<uint8>, n: nat): seq<uint8>
    requires 4 * n <= |rgba|
  {
    if n == 0 then [] else Converted565(rgba, n - 1) + [HighByte(Pixel565(rgba, n - 1)), LowByte(Pixel565(rgba, n - 1))]
  }

  /**
   * Bytes 2p and 2p + 1 of the 16-bpp output, read back as a big-endian word, are the
   * `rgb565` value of pixel p.
   */
  lemma {:induction false} Converted565At(rgba: seq<uint8>, n: nat, p: nat)
    requires 4 * n <= |rgba| && p < n
    ensures |Converted565(rgba, n)| == 2 * n
    ensures Converted565(rgba, n)[2 * p] as int * 256 + Converted565(rgba, n)[2 * p + 1] as int
            == Color.Rgb565(rgba[4 * p], rgba[4 * p + 1], rgba[4 * p + 2]) as int
  {
    Converted565Length(rgba, n);
    if p < n - 1 {
      Converted565At(rgba, n - 1, p);
      Converted565Length(rgba, n - 1);
    } else {
      HighLowByte(Pixel565(rgba, p));
    }
  }

  lemma {:induction false} Converted565Length(rgba: seq<uint8>, n: nat)
    requires 4 * n <= |rgba|
    ensures |Converted565(rgba, n)| == 2 * n
  {
    if n > 0 {
      Converted565Length(rgba, n - 1);
    }
  }

  /** Group q of the pixels, k to a group: the k pixels from Times(q, k) packed into one byte. */
  function GroupByte(data: seq<uint8>, k: nat, q: nat): uint8
    requires Times(q + 1, k) <= |data|
  {
    PackGroup(data[Times(q, k)..Times(q + 1, k)])
  }

  /**
   * The first n packed bytes, byte q packing group q. With the width a multiple of k, a
   * row's groups follow the previous row's, so the packed image is one run of groups over
   * all the pixels.
   */
  function PackedGroups(data: seq<uint8>, n: nat, k: nat): (r: seq<uint8>)
    requires Times(n, k) <= |data|
    ensures |r| == n
  {
    TimesBelow(n, k);
    seq(n, q requires 0 <= q < n => GroupByte(data, k, q))
  }

  lemma TimesBelow(n: nat, k: nat)
    ensures forall q :: 0 <= q <= n ==> Times(q, k) <= Times(n, k)
  {
    forall q | 0 <= q <= n
      ensures Times(q, k) <= Times(n, k)
    {
      TimesMono(q, n, k);
    }
  }

  /** `expected[q]` is group q of `data`, k pixels to a group. */
  ghost predicate GroupAt(expected: seq<uint8>, data: seq<uint8>, k: nat, q: nat)
  {
    q < |expected| && Times(q + 1, k) <= |data| && expected[q] == GroupByte(data, k, q)
  }

  /** Every byte of `expected` is the packed group at its position. */
  ghost predicate GroupsOf(expected: seq<uint8>, data: seq<uint8>, k: nat)
  {
    forall q :: 0 <= q < |expected| ==> GroupAt(expected, data, k, q)
  }

  lemma PackedGroupsAll(data: seq<uint8>, n: nat, k: nat)
    requires Times(n, k) <= |data|
    ensures GroupsOf(PackedGroups(data, n, k), data, k)
  {
    forall q | 0 <= q < n
      ensures GroupAt(PackedGroups(data, n, k), data, k, q)
    {
      TimesMono(q + 1, n, k);
    }
  }

  /** A whole image of `height` rows of `width` pixels, width a multiple of k, is height * (width / k) groups. */
  lemma PackedImageSize(width: nat, height: nat, k: nat)
    requires 1 <= k && width % k == 0
    ensures width == Times(width / k, k)
    ensures Times(height, width / k) == height * (width / k)
    ensures Times(height * (width / k), k) == height * width
  {
    var g := width / k;
    TimesIsProduct(g, k);
    TimesIsProduct(height, g);
    TimesAssoc(height, g, k);
    TimesIsProduct(height, width);
  }

  /** The packed image of `height` rows of `width` pixels, `k` pixels to a byte. */
  function PackedImage(data: seq<uint8>, width: nat, height: nat, k: nat): seq<uint8>
    requires 1 <= k && width % k == 0 && height * width <= |data|
  {
    PackedImageSize(width, height, k);
    PackedGroups(data, height * (width / k), k)
  }

  /**
   * The packer's output, row by row: byte j * (width / k) + q of the packed image packs the
   * k pixels of row j that start at column q * k.
   */
  lemma PackedImageAt(data: seq<uint8>, width: nat, height: nat, k: nat, j: nat, q: nat)
    requires 1 <= k && width % k == 0 && height * width <= |data|
    requires j < height && q < width / k
    ensures |PackedImage(data, width, height, k)| == height * (width / k)
    ensures j * (width / k) + q < height * (width / k)
    ensures j * width + q * k + k <= |data|
    ensures PackedImage(data, width, height, k)[j * (width / k) + q] == PackGroup(data[j * width + q * k..j * width + q * k + k])
  {
    var g := width / k;
    PackedImageSize(width, height, k);
    var p := Times(j, g) + q;
    assert p < Times(height, g) by {
      TimesMono(j + 1, height, g);
    }
    assert Times(p, k) == Times(j, width) + Times(q, k) by {
      TimesAdd(Times(j, g), q, k);
      TimesAssoc(j, g, k);
    }
    TimesMono(p + 1, Times(height, g), k);
    TimesIsProduct(j, width);
    TimesIsProduct(q, k);
    TimesIsProduct(j, g);
  }

  /**
   * `force_image_bpp`. Returns the new `*width` and `*size`.
   * At 16 bpp each of the `size` RGBA pixels becomes two big-endian bytes of `rgb565` and the
   * width doubles; at 1, 2 or 4 bpp every group of 8 / bpp pixels of a row becomes one byte
   * and the width is divided by the group size; any other depth (8 included) is the
   * `errorf("unexpected bpp mode")` abort, before anything is written.
   */
  method ForceImageBpp(bpp: nat, rgba: seq<uint8>, data: seq<uint8>, dataBuffer: array<uint8>,
                       width: nat, height: nat, size: nat)
    returns (r: Result<(nat, nat)>)
    requires bpp == 16 ==> 4 * size <= |rgba| && 2 * size <= dataBuffer.Length
    requires bpp == 1 || bpp == 2 || bpp == 4 ==>
               width % GroupSize(bpp) == 0 && height * width <= |data| &&
               height * (width / GroupSize(bpp)) <= dataBuffer.Length
    modifies dataBuffer
    ensures r.Err? <==> !(bpp == 1 || bpp == 2 || bpp == 4 || bpp == 16)
    ensures r.Err? ==> r.error == UnexpectedBpp && dataBuffer[..] == old(dataBuffer[..])
    ensures bpp == 16 ==>
              && r == Ok((2 * width, 2 * width * height))
              && Written(dataBuffer[..], old(dataBuffer[..]), Converted565(rgba, size))
    ensures bpp == 1 || bpp == 2 || bpp == 4 ==>
              var k := GroupSize(bpp);
              && r == Ok((width / k, (width / k) * height))
              && Written(dataBuffer[..], old(dataBuffer[..]), PackedImage(data, width, height, k))
  {
    if bpp == 16 {
      Convert565(rgba, dataBuffer, size);
      var newWidth: nat := 2 * width;
      var newSize: nat := Product(newWidth, height);
      return Ok((newWidth, newSize));
    }
    var shiftAmt: nat;
    if bpp == 1 {
      shiftAmt := 3;
    } else if bpp == 2 {
      shiftAmt := 2;
    } else if bpp == 4 {
      shiftAmt := 1;
    } else {
      return Err(UnexpectedBpp);
    }
    var incAmt := Pow2(shiftAmt);
    assert incAmt == GroupSize(bpp);
    PackImage(data, dataBuffer, width, height, incAmt);
    var newWidth: nat := width / incAmt;
    var newSize: nat := Product(newWidth, height);
    return Ok((newWidth, newSize));
  }

  /** `*size = *width * *height`, a product of two non-negative numbers. */
  function Product(a: nat, b: nat): (r: nat)
    ensures r == a * b
  {
    MulLeq(0, a, b);
    a * b
  }

  /** The 1/2/4-bpp branch of `force_image_bpp`, `inc_amt` pixels to a byte. */
  method PackImage(data: seq<uint8>, dataBuffer: array<uint8>, width: nat, height: nat, incAmt: nat)
    requires incAmt == 2 || incAmt == 4 || incAmt == 8
    requires width % incAmt == 0 && height * width <= |data| && height * (width / incAmt) <= dataBuffer.Length
    modifies dataBuffer
    ensures Written(dataBuffer[..], old(dataBuffer[..]), PackedImage(data, width, height, incAmt))
  {
    var groups := width / incAmt;
    PackedImageSize(width, height, incAmt);
    ghost var expected := PackedImage(data, width, height, incAmt);
    PackedGroupsAll(data, height * groups, incAmt);
    PackRows(data, dataBuffer, width, height, incAmt, groups, expected);
  }

  /** The 16-bpp branch of `force_image_bpp`: two big-endian `rgb565` bytes per RGBA pixel. */
  method Convert565(rgba: seq<uint8>, dataBuffer: array<uint8>, size: nat)
    requires 4 * size <= |rgba| && 2 * size <= dataBuffer.Length
    modifies dataBuffer
    ensures Written(dataBuffer[..], old(dataBuffer[..]), Converted565(rgba, size))
  {
    ghost var s0 := dataBuffer[..];
    var j, k := 0, 0;
    while j < size
      invariant j <= size && k == 2 * j
      invariant Written(dataBuffer[..], s0, Converted565(rgba, j))
    {
      // rgb565(rgba[i + 0], rgba[i + 1], rgba[i + 2]) with i == 4 * j
      var short := Pixel565(rgba, j);
      ghost var before := dataBuffer[..];
      Converted565Step(before, s0, rgba, j);
      dataBuffer[k] := HighByte(short);
      dataBuffer[k + 1] := LowByte(short);
      assert dataBuffer[..] == before[2 * j := HighByte(short)][2 * j + 1 := LowByte(short)];
      k := k + 2;
      j := j + 1;
    }
  }

  /** Storing pixel j's two bytes after the first j pixels' output extends that output by one pixel. */
  lemma Converted565Step(buf: seq<uint8>, s0: seq<uint8>, rgba: seq<uint8>, j: nat)
    requires 4 * (j + 1) <= |rgba| && 2 * (j + 1) <= |buf|
    requires Written(buf, s0, Converted565(rgba, j))
    ensures Written(buf[2 * j := HighByte(Pixel565(rgba, j))][2 * j + 1 := LowByte(Pixel565(rgba, j))], s0,
                    Converted565(rgba, j + 1))
  {
    var done := Converted565(rgba, j);
    var w := Pixel565(rgba, j);
    Converted565Length(rgba, j);
    WrittenSnoc(buf, s0, done, HighByte(w));
    WrittenSnoc(buf[2 * j := HighByte(w)], s0, done + [HighByte(w)], LowByte(w));
    assert done + [HighByte(w)] + [LowByte(w)] == Converted565(rgba, j + 1);
  }

  /**
   * After j of `height` rows of `width` pixels (`groups` groups of k each), the first i bytes
   * hold the first i expected bytes: the counters of the row loop.
   */
  ghost predicate RowsInv(buf: seq<uint8>, s0: seq<uint8>, expected: seq<uint8>, width: nat, height: nat,
                          groups: nat, k: nat, i: nat, j: nat)
  {
    && j <= height && i + Times(height - j, groups) == Times(height, groups) <= |expected|
    && Times(j, width) + Times(height - j, width) == Times(height, width)
    && Times(j, width) == Times(i, k)
    && Written(buf, s0, expected[..i])
  }

  /** Row j starts at packed byte i and at pixel Times(j, width) == Times(i, k), and ends where row j + 1 starts. */
  lemma RowStep(i: nat, j: nat, height: nat, width: nat, groups: nat, k: nat)
    requires j < height && width == Times(groups, k)
    requires i + Times(height - j, groups) == Times(height, groups)
    requires Times(j, width) + Times(height - j, width) == Times(height, width)
    requires Times(j, width) == Times(i, k)
    ensures i + groups + Times(height - (j + 1), groups) == Times(height, groups)
    ensures Times(j + 1, width) + Times(height - (j + 1), width) == Times(height, width)
    ensures Times(j, width) + width == Times(j + 1, width) == Times(i + groups, k)
  {
    TimesAdd(i, groups, k);
  }

  /** The 1/2/4-bpp branch of `force_image_bpp`: the loop over the rows, `o = j * *width`. */
  method PackRows(data: seq<uint8>, dataBuffer: array<uint8>, width: nat, height: nat, incAmt: nat, groups: nat,
                  ghost expected: seq<uint8>)
    requires incAmt == 2 || incAmt == 4 || incAmt == 8
    requires width == Times(groups, incAmt) && Times(height, groups) == |expected| <= dataBuffer.Length
    requires GroupsOf(expected, data, incAmt)
    modifies dataBuffer
    ensures Written(dataBuffer[..], old(dataBuffer[..]), expected)
  {
    ghost var s0 := dataBuffer[..];
    var i: nat := 0;
    var j: nat := 0;
    while j < height
      invariant RowsInv(dataBuffer[..], s0, expected, width, height, groups, incAmt, i, j)
    {
      var o := Times(j, width);
      RowStep(i, j, height, width, groups, incAmt);
      PackRow(data, dataBuffer, o, width, i, incAmt, groups, s0, expected);
      i := i + groups;
      j := j + 1;
    }
    assert expected[..i] == expected;
  }

  /** Inside a row that starts at pixel o and packed byte i0: `col` of its pixels are packed. */
  ghost predicate RowInv(buf: seq<uint8>, s0: seq<uint8>, expected: seq<uint8>, o: nat, width: nat, i0: nat,
                         groups: nat, k: nat, i: nat, col: nat)
  {
    && i0 <= i <= i0 + groups <= |expected| && i0 + groups <= |buf| && col <= width && k > 0
    && (i < i0 + groups <==> col < width)
    && width - col == Times(i0 + groups - i, k) && o + col == Times(i, k)
    && Written(buf, s0, expected[..i])
  }

  lemma RowInvStep(buf: seq<uint8>, s0: seq<uint8>, expected: seq<uint8>, o: nat, width: nat, i0: nat,
                   groups: nat, k: nat, i: nat, col: nat)
    requires RowInv(buf, s0, expected, o, width, i0, groups, k, i, col) && col < width && i0 + groups <= |expected|
    ensures i < i0 + groups
    ensures RowInv(buf[i := expected[i]], s0, expected, o, width, i0, groups, k, i + 1, col + k)
  {
    var n := i0 + groups - i;
    assert width - col == Times(n - 1, k) + k;
    if n > 1 {
      assert Times(n - 1, k) == Times(n - 2, k) + k;
    }
    WrittenSnoc(buf, s0, expected[..i], expected[i]);
    assert expected[..i] + [expected[i]] == expected[..i + 1];
  }

  lemma RowInvDone(buf: seq<uint8>, s0: seq<uint8>, expected: seq<uint8>, o: nat, width: nat, i0: nat,
                   groups: nat, k: nat, i: nat, col: nat)
    requires RowInv(buf, s0, expected, o, width, i0, groups, k, i, col) && col >= width
    ensures i == i0 + groups
  {
  }

  /** One row of the 1/2/4-bpp branch: the loop `for (k = 0; k < *width; k += inc_amt)`. */
  method PackRow(data: seq<uint8>, dataBuffer: array<uint8>, o: nat, width: nat, i0: nat, incAmt: nat, groups: nat,
                 ghost s0: seq<uint8>, ghost expected: seq<uint8>)
    requires incAmt == 2 || incAmt == 4 || incAmt == 8
    requires width == Times(groups, incAmt) && o == Times(i0, incAmt)
    requires i0 + groups <= |expected| <= dataBuffer.Length && GroupsOf(expected, data, incAmt)
    requires Written(dataBuffer[..], s0, expected[..i0])
    modifies dataBuffer
    ensures Written(dataBuffer[..], s0, expected[..i0 + groups])
  {
    var i: nat := i0;
    var col: nat := 0;
    while col < width
      invariant RowInv(dataBuffer[..], s0, expected, o, width, i0, groups, incAmt, i, col)
    {
      ghost var before := dataBuffer[..];
      RowInvStep(before, s0, expected, o, width, i0, groups, incAmt, i, col);
      var byte := PackGroupAt(data, o + col, incAmt, expected, i);
      dataBuffer[i] := byte;
      assert dataBuffer[..] == before[i := expected[i]];
      i := i + 1;
      col := col + incAmt;
    }
    RowInvDone(dataBuffer[..], s0, expected, o, width, i0, groups, incAmt, i, col);
  }

  /**
   * The innermost loop of `force_image_bpp`: `byte |= data[k + o + lob] << --curr_inc` over
   * the group of pixels from `start`, which is group q.
   */
  method PackGroupAt(data: seq<uint8>, start: nat, incAmt: nat, ghost expected: seq<uint8>, ghost q: nat)
    returns (byte: uint8)
    requires 1 <= incAmt <= 8 && GroupsOf(expected, data, incAmt) && q < |expected| && start == Times(q, incAmt)
    ensures byte == expected[q]
  {
    assert GroupAt(expected, data, incAmt, q);
    var currInc := incAmt;
    byte := 0;
    var lob := 0;
    while lob < incAmt
      invariant lob <= incAmt && currInc == incAmt - lob
      invariant byte == PackPrefix(data[start..start + lob], incAmt, 1)
    {
      currInc := currInc - 1;
      PackPrefixStep(data, start, lob, incAmt);
      byte := OrShift(byte, data[start + lob], currInc);
      lob := lob + 1;
    }
    assert data[start..start + incAmt] == data[Times(q, incAmt)..Times(q + 1, incAmt)];
  }
}
