/**
 * How much of the buffer `group_rlet_output` writes, against the `width * height * 2` bytes it
 * clears, and the two scans of misc.c read in their written order, which tests the bound
 * after reading the pixel.
 */
module RletBounds {
  import opened Bytes
  import opened Rlet

  /**
   * The encoding of pixels `i..stop` takes at most two bytes a pixel, and one more when the
   * first pixel is not transparent: a pass spends two bytes on its counts, and every pass but
   * a leading literal one covers at least one transparent pixel besides its literals.
   */
  lemma {:induction false} RletFromBound(data: seq<uint8>, i: nat, stop: nat, tp: uint8)
    requires i <= stop <= |data|
    ensures |RletFrom(data, i, stop, tp)| <= 2 * (stop - i) + (if i < stop && data[i] != tp then 1 else 0)
    decreases stop - i
  {
    if i < stop {
      var t := RunEnd(data, i, stop, tp, true);
      if t < stop {
        RletFromBound(data, RunEnd(data, t, stop, tp, false), stop, tp);
      }
    }
  }

  /** An image of `h` rows takes at most `2 * width + 1` bytes a row. */
  lemma RletImageBound(data: seq<uint8>, width: nat, h: nat, tp: uint8)
    requires Times(h, width) <= |data|
    ensures |RletImage(data, width, h, tp)| <= Times(h, 2 * width + 1)
  {
    var rows := RowCodes(data, width, h, tp);
    forall j | 0 <= j < h
      ensures |rows[j]| <= 2 * width + 1
    {
      assert rows[j] == RowCode(data, width, h, j, tp);
      RletFromBound(data, Times(j, width), Times(j, width) + width, tp);
    }
    FlattenBound(rows, 2 * width + 1);
  }

  /** Pixels `i..stop` that open with a transparent pixel take at most two bytes a pixel, less one. */
  lemma {:induction false} TransparentStart(data: seq<uint8>, i: nat, stop: nat, tp: uint8)
    requires i < stop <= |data| && data[i] == tp
    ensures |RletFrom(data, i, stop, tp)| <= 2 * (stop - i) - 1
  {
    var t := RunEnd(data, i, stop, tp, true);
    RunEndStops(data, i, stop, tp, true);
    if t < stop {
      var e := RunEnd(data, t, stop, tp, false);
      RunEndStops(data, t, stop, tp, false);
      RletFromBound(data, e, stop, tp);
    }
  }

  /** A row of at least two pixels takes at most two bytes a pixel. */
  lemma {:induction false} TightRow(data: seq<uint8>, i: nat, stop: nat, tp: uint8)
    requires i + 2 <= stop <= |data|
    ensures |RletFrom(data, i, stop, tp)| <= 2 * (stop - i)
  {
    if data[i] == tp {
      TransparentStart(data, i, stop, tp);
    } else {
      var e := RunEnd(data, i, stop, tp, false);
      RunEndStops(data, i, stop, tp, false);
      if e < stop {
        TransparentStart(data, e, stop, tp);
      }
    }
  }

  /**
   * From width 2 on, an image's encoding fits the `2 * width * height` bytes the encoder
   * clears; only width 1 can take more.
   */
  lemma RletImageTight(data: seq<uint8>, width: nat, h: nat, tp: uint8)
    requires Times(h, width) <= |data| && width >= 2
    ensures |RletImage(data, width, h, tp)| <= 2 * Times(h, width)
  {
    var rows := RowCodes(data, width, h, tp);
    forall j | 0 <= j < h
      ensures |rows[j]| <= 2 * width
    {
      assert rows[j] == RowCode(data, width, h, j, tp);
      TightRow(data, Times(j, width), Times(j, width) + width, tp);
    }
    FlattenBound(rows, 2 * width);
    TimesDouble(h, width);
  }

  /** h rows of 2w bytes are twice h rows of w bytes. */
  lemma {:induction false} TimesDouble(h: nat, w: nat)
    ensures Times(h, 2 * w) == 2 * Times(h, w)
  {
    if h > 0 {
      TimesDouble(h - 1, w);
    }
  }

  /**
   * The bound is reached, and it passes the `2 * width * height` bytes the encoder clears: a
   * one-pixel image whose pixel is not transparent takes three bytes.
   */
  lemma RletExceedsClear()
    ensures RletImage([7], 1, 1, 0) == [0, 1, 7]
    ensures |RletImage([7], 1, 1, 0)| == Times(1, 2 * 1 + 1) > 2 * Times(1, 1)
  {
    var data: seq<uint8> := [7];
    assert RunEnd(data, 0, 1, 0, true) == 0;
    assert RunEnd(data, 0, 1, 0, false) == 1;
    assert RletFrom(data, 0, 1, 0) == [0, 1] + Literals(data, 0, 1) + [];
    assert RowCodes(data, 1, 1, 0) == [RletFrom(data, 0, 1, 0)];
    assert RletImage(data, 1, 1, 0) == RletFrom(data, 0, 1, 0) + Flatten([]);
  }

  /**
   * The scans as the C code writes them: `tp_index == data[t + offset] && t < left` and
   * `tp_index != data[t + o + offset] && o < left` read the pixel before they test the count.
   * From count `n` on, the count where the scan stops, or `None` when a read falls outside
   * `data`.
   */
  function RunAsWritten(data: seq<uint8>, off: nat, left: nat, tp: uint8, transparent: bool, n: nat): Option<nat>
    requires n <= left
    decreases left - n
  {
    if off + n >= |data| then None
    else if (data[off + n] == tp) == transparent && n < left then RunAsWritten(data, off, left, tp, transparent, n + 1)
    else Some(n)
  }

  /**
   * With one readable byte past the run's bound the C code's scans stop where the bounded
   * scans `ScanTransparent` and `CopyLiterals` stop.
   */
  lemma {:induction false} RunAsWrittenAgrees(data: seq<uint8>, off: nat, left: nat, tp: uint8, transparent: bool, n: nat)
    requires n <= left && off + left < |data|
    ensures RunAsWritten(data, off, left, tp, transparent, n)
         == Some(RunEnd(data, off + n, off + left, tp, transparent) - off)
    decreases left - n
  {
    if (data[off + n] == tp) == transparent && n < left {
      RunAsWrittenAgrees(data, off, left, tp, transparent, n + 1);
    }
  }

  /**
   * When a run reaches the end of `data` the C code's scan reads the byte after it. The last
   * run of the last row always reaches the end of the image, so the encoder reads one byte
   * past the image it was given.
   */
  lemma {:induction false} RunAsWrittenPastEnd(data: seq<uint8>, off: nat, left: nat, tp: uint8, transparent: bool, n: nat)
    requires n <= left && off + left == |data|
    requires RunEnd(data, off + n, off + left, tp, transparent) == off + left
    ensures RunAsWritten(data, off, left, tp, transparent, n) == None
    decreases left - n
  {
    if n < left {
      RunAsWrittenPastEnd(data, off, left, tp, transparent, n + 1);
    }
  }

  /** A one-pixel image, transparent or not: each scan reads `data[1]`. */
  lemma RunAsWrittenOnePixel()
    ensures RunAsWritten([0], 0, 1, 0, true, 0) == None
    ensures RunAsWritten([7], 0, 1, 0, false, 0) == None
  {
    RunAsWrittenPastEnd([0], 0, 1, 0, true, 0);
    RunAsWrittenPastEnd([7], 0, 1, 0, false, 0);
  }
}
