/**
 * `group_rlet_output`: the row-wise transparency run-length encoding. Each row is cut into
 * passes: a run of transparent pixels becomes its length (the skip byte); if pixels remain,
 * the run of other pixels that follows becomes its length and then the pixels themselves.
 * Positions are absolute indices into the image, as misc.c's `data[t + o + offset]`.
 */
module Rlet {
  import opened Bytes

  /**
   * Where the run that starts at `i` ends (at the latest at `stop`): a run of pixels equal to
   * `tp` when `transparent`, of other pixels otherwise.
   */
  function RunEnd(data: seq<uint8>, i: nat, stop: nat, tp: uint8, transparent: bool): (e: nat)
    requires i <= stop <= |data|
    ensures i <= e <= stop
    decreases stop - i
  {
    if i == stop || (data[i] == tp) != transparent then i
    else RunEnd(data, i + 1, stop, tp, transparent)
  }

  /** The run stops at the first pixel of the other kind, and a run that starts is not empty. */
  lemma {:induction false} RunEndStops(data: seq<uint8>, i: nat, stop: nat, tp: uint8, transparent: bool)
    requires i <= stop <= |data|
    ensures var e := RunEnd(data, i, stop, tp, transparent);
      && (e < stop ==> (data[e] == tp) != transparent)
      && (i < stop && (data[i] == tp) == transparent ==> i < e)
    decreases stop - i
  {
    if i < stop && (data[i] == tp) == transparent {
      RunEndStops(data, i + 1, stop, tp, transparent);
    }
  }

  /** Every pixel of the run is of the run's kind. */
  lemma {:induction false} RunEndAll(data: seq<uint8>, i: nat, stop: nat, tp: uint8, transparent: bool)
    requires i <= stop <= |data|
    ensures forall k :: i <= k < RunEnd(data, i, stop, tp, transparent) ==> (data[k] == tp) == transparent
    decreases stop - i
  {
    if i < stop && (data[i] == tp) == transparent {
      RunEndAll(data, i + 1, stop, tp, transparent);
    }
  }

  /** The pixels from `t` to `e`, as they are copied into the buffer. */
  function Literals(data: seq<uint8>, t: nat, e: nat): (r: seq<uint8>)
    requires t <= e <= |data|
    ensures |r| == e - t
    decreases e - t
  {
    if t == e then [] else [data[t]] + Literals(data, t + 1, e)
  }

  /** The copied pixels are the pixels of the image from `t` to `e`. */
  lemma {:induction false} LiteralsSlice(data: seq<uint8>, t: nat, e: nat)
    requires t <= e <= |data|
    ensures Literals(data, t, e) == data[t..e]
    decreases e - t
  {
    if t < e {
      LiteralsSlice(data, t + 1, e);
      assert data[t..e] == [data[t]] + data[t + 1..e];
    }
  }

  /**
   * The encoding of the pixels from `i` to `stop`: the skip byte, and, if pixels remain, the
   * length byte and the literal pixels, then the encoding of what follows. Both counts are
   * stored into a `uint8_t`. A row that ends in a transparent run ends with that run's skip
   * byte alone.
   */
  function RletFrom(data: seq<uint8>, i: nat, stop: nat, tp: uint8): seq<uint8>
    requires i <= stop <= |data|
    decreases stop - i
  {
    if i == stop then []
    else
      var t := RunEnd(data, i, stop, tp, true);
      if t == stop then [Trunc8(t - i)]
      else
        var e := RunEnd(data, t, stop, tp, false);
        RunEndStops(data, i, stop, tp, true);
        RunEndStops(data, t, stop, tp, false);
        [Trunc8(t - i), Trunc8(e - t)] + Literals(data, t, e) + RletFrom(data, e, stop, tp)
  }

  /** Where the first pass from `i` stops: after the transparent run and the run after it. */
  function PassEnd(data: seq<uint8>, i: nat, stop: nat, tp: uint8): (e: nat)
    requires i < stop <= |data|
    ensures i < e <= stop
  {
    var t := RunEnd(data, i, stop, tp, true);
    RunEndStops(data, i, stop, tp, true);
    RunEndStops(data, t, stop, tp, false);
    if t == stop then stop else RunEnd(data, t, stop, tp, false)
  }

  /** The bytes the first pass from `i` writes. */
  function Pass(data: seq<uint8>, i: nat, stop: nat, tp: uint8): seq<uint8>
    requires i < stop <= |data|
  {
    var t := RunEnd(data, i, stop, tp, true);
    if t == stop then [Trunc8(t - i)]
    else
      var e := RunEnd(data, t, stop, tp, false);
      [Trunc8(t - i), Trunc8(e - t)] + Literals(data, t, e)
  }

  /** The encoding is the first pass, then the encoding of what that pass leaves. */
  lemma {:induction false} RletStep(data: seq<uint8>, i: nat, stop: nat, tp: uint8)
    requires i < stop <= |data|
    ensures RletFrom(data, i, stop, tp) == Pass(data, i, stop, tp) + RletFrom(data, PassEnd(data, i, stop, tp), stop, tp)
  {
  }

  /** The encoding of row `j` of an image `width` pixels wide and `h` rows high. */
  function RowCode(data: seq<uint8>, width: nat, h: nat, j: nat, tp: uint8): (r: seq<uint8>)
    requires Times(h, width) <= |data| && j < h
    ensures Times(j, width) + width <= |data|
  {
    TimesMono(j + 1, h, width);
    RletFrom(data, Times(j, width), Times(j, width) + width, tp)
  }

  /** The encodings of the `h` rows, row by row. */
  function RowCodes(data: seq<uint8>, width: nat, h: nat, tp: uint8): (r: seq<seq<uint8>>)
    requires Times(h, width) <= |data|
    ensures |r| == h
  {
    seq(h, j requires 0 <= j < h => RowCode(data, width, h, j, tp))
  }

  /** Row `j`'s encoding is that of the `width` pixels from `j * width` on. */
  lemma RowCodeIs(data: seq<uint8>, width: nat, h: nat, j: nat, tp: uint8)
    requires Times(h, width) <= |data| && j < h
    ensures Times(j, width) <= Times(j + 1, width) == Times(j, width) + width <= Times(h, width)
    ensures RowCodes(data, width, h, tp)[j] == RletFrom(data, Times(j, width), Times(j + 1, width), tp)
  {
    TimesMono(j + 1, h, width);
    assert RowCodes(data, width, h, tp)[j] == RowCode(data, width, h, j, tp);
  }

  /** The same, for a row whose start is already known. */
  lemma RowCodeAt(data: seq<uint8>, width: nat, h: nat, j: nat, offset: nat, tp: uint8)
    requires Times(h, width) <= |data| && j < h && offset == Times(j, width)
    ensures offset + width <= |data|
    ensures RowCodes(data, width, h, tp)[j] == RletFrom(data, offset, offset + width, tp)
  {
    RowCodeIs(data, width, h, j, tp);
  }

  /** The encoding of an image `width` pixels wide and `h` rows high: its rows' encodings, one after the other. */
  function RletImage(data: seq<uint8>, width: nat, h: nat, tp: uint8): seq<uint8>
    requires Times(h, width) <= |data|
  {
    Flatten(RowCodes(data, width, h, tp))
  }

  /** The buffer after `memset(data_buffer, 0, n)`. */
  function Cleared(s: seq<uint8>, n: nat): (r: seq<uint8>)
    ensures |r| == |s|
  {
    seq(|s|, i requires 0 <= i < |s| => if i < n then 0 else s[i])
  }

  /*
   * The methods below write the encoding into the buffer one byte at a time. Their proofs
   * compare the buffer position by position with the whole image's encoding, fixed in advance:
   * the bytes written so far are a prefix of it, and the pixels still to encode are encoded by
   * the part of it that follows.
   */

  /**
   * The first `n` bytes of `buf` are those of `code`; from `n` on, `buf` still holds what `s0`
   * held. All of `code` fits in `buf`.
   */
  ghost predicate WrittenUpTo(buf: seq<uint8>, s0: seq<uint8>, code: seq<uint8>, n: nat)
  {
    && |buf| == |s0| && n <= |code| <= |buf|
    && (forall p :: 0 <= p < n ==> buf[p] == code[p])
    && (forall p :: n <= p < |buf| ==> buf[p] == s0[p])
  }

  /** As `WrittenUpTo`, except for the slot `gap`, which is reserved for a byte written later. */
  ghost predicate WrittenAround(buf: seq<uint8>, s0: seq<uint8>, code: seq<uint8>, gap: nat, n: nat)
  {
    && |buf| == |s0| && gap < n <= |code| <= |buf|
    && (forall p :: 0 <= p < n && p != gap ==> buf[p] == code[p])
    && (forall p :: n <= p < |buf| ==> buf[p] == s0[p])
  }

  /** Writing the next byte of `code` extends the written prefix by one. */
  lemma {:induction false} WrittenNext(buf: seq<uint8>, s0: seq<uint8>, code: seq<uint8>, n: nat)
    requires WrittenUpTo(buf, s0, code, n) && n < |code|
    ensures WrittenUpTo(buf[n := code[n]], s0, code, n + 1)
  {
  }

  /** Reserving the slot `n` for a later byte. */
  lemma {:induction false} WrittenReserve(buf: seq<uint8>, s0: seq<uint8>, code: seq<uint8>, n: nat)
    requires WrittenUpTo(buf, s0, code, n) && n < |code|
    ensures WrittenAround(buf, s0, code, n, n + 1)
  {
  }

  /** Writing the next byte of `code` while a slot stays reserved. */
  lemma {:induction false} WrittenAroundNext(buf: seq<uint8>, s0: seq<uint8>, code: seq<uint8>, gap: nat, n: nat)
    requires WrittenAround(buf, s0, code, gap, n) && n < |code|
    ensures WrittenAround(buf[n := code[n]], s0, code, gap, n + 1)
  {
  }

  /** Filling the reserved slot completes the prefix. */
  lemma {:induction false} WrittenFill(buf: seq<uint8>, s0: seq<uint8>, code: seq<uint8>, gap: nat, n: nat)
    requires WrittenAround(buf, s0, code, gap, n)
    ensures WrittenUpTo(buf[gap := code[gap]], s0, code, n)
  {
  }

  /** A buffer that holds all of `code` is `code` written over `s0`. */
  lemma {:induction false} WrittenAll(buf: seq<uint8>, s0: seq<uint8>, code: seq<uint8>)
    requires WrittenUpTo(buf, s0, code, |code|)
    ensures Written(buf, s0, code)
  {
    assert buf[..|code|] == code;
    assert buf[|code|..] == s0[|code|..];
  }

  /**
   * The run of other pixels that starts at `start`, as `code` holds it from `fix` on: its
   * length, then its pixels.
   */
  ghost predicate LiteralsAt(code: seq<uint8>, fix: nat, data: seq<uint8>, start: nat, stop: nat, tp: uint8)
    requires start <= stop <= |data|
  {
    var o := RunEnd(data, start, stop, tp, false) - start;
    && fix + 1 + o <= |code|
    && code[fix] == Trunc8(o)
    && (forall p :: fix + 1 <= p < fix + 1 + o ==> code[p] == data[start + (p - fix - 1)])
  }

  /** The first pass from `off`, as `code` holds it from `at` on. */
  ghost predicate PassAt(code: seq<uint8>, at: nat, data: seq<uint8>, off: nat, stop: nat, tp: uint8)
    requires off <= stop <= |data|
  {
    var m := RunEnd(data, off, stop, tp, true);
    && at < |code|
    && code[at] == Trunc8(m - off)
    && (m < stop ==> LiteralsAt(code, at + 1, data, m, stop, tp))
  }

  /** `code` holds `r` from `at` on. */
  ghost predicate HeldAt(code: seq<uint8>, at: nat, r: seq<uint8>)
  {
    at + |r| <= |code| && code[at..at + |r|] == r
  }

  /** Where a concatenation is held, its two parts are held one after the other. */
  lemma {:induction false} HeldSplit(code: seq<uint8>, at: nat, q: seq<uint8>, rest: seq<uint8>)
    requires HeldAt(code, at, q + rest)
    ensures HeldAt(code, at, q) && HeldAt(code, at + |q|, rest)
  {
    var w := code[at..at + |q| + |rest|];
    assert code[at..at + |q|] == w[..|q|];
    assert code[at + |q|..at + |q| + |rest|] == w[|q|..];
  }

  /** The number of bytes the first pass from `off` writes, counted from the pixels. */
  function PassLen(data: seq<uint8>, off: nat, stop: nat, tp: uint8): nat
    requires off < stop <= |data|
  {
    var m := RunEnd(data, off, stop, tp, true);
    if m == stop then 1 else 2 + (RunEnd(data, m, stop, tp, false) - m)
  }

  /** `PassLen` counts the bytes of the pass. */
  lemma {:induction false} PassLenIs(data: seq<uint8>, off: nat, stop: nat, tp: uint8)
    requires off < stop <= |data|
    ensures PassLen(data, off, stop, tp) == |Pass(data, off, stop, tp)|
  {
  }

  /** The number of bytes the encoding of the pixels from `off` to `stop` takes, pass by pass. */
  function RowLen(data: seq<uint8>, off: nat, stop: nat, tp: uint8): nat
    requires off <= stop <= |data|
    decreases stop - off
  {
    if off == stop then 0
    else PassLen(data, off, stop, tp) + RowLen(data, PassEnd(data, off, stop, tp), stop, tp)
  }

  /**
   * The encoding of the pixels from `off` to `stop`, as `code` holds it from `at` on: pass by
   * pass, each pass field by field.
   */
  ghost predicate RowAt(code: seq<uint8>, at: nat, data: seq<uint8>, off: nat, stop: nat, tp: uint8)
    requires off <= stop <= |data|
    decreases stop - off
  {
    || off == stop
    || (&& PassAt(code, at, data, off, stop, tp)
        && RowAt(code, at + PassLen(data, off, stop, tp), data, PassEnd(data, off, stop, tp), stop, tp))
  }

  /** A row not yet finished is held as its first pass, then the rest of the row. */
  lemma {:induction false} RowStep(code: seq<uint8>, at: nat, data: seq<uint8>, off: nat, stop: nat, tp: uint8)
    requires off < stop <= |data|
    requires RowAt(code, at, data, off, stop, tp)
    ensures PassAt(code, at, data, off, stop, tp)
    ensures RowAt(code, at + PassLen(data, off, stop, tp), data, PassEnd(data, off, stop, tp), stop, tp)
    ensures RowLen(data, off, stop, tp) == PassLen(data, off, stop, tp) + RowLen(data, PassEnd(data, off, stop, tp), stop, tp)
  {
  }

  /** Where the bytes of the first pass are held, the pass is held field by field. */
  lemma {:induction false} PassHeld(code: seq<uint8>, at: nat, data: seq<uint8>, off: nat, stop: nat, tp: uint8)
    requires off < stop <= |data|
    requires HeldAt(code, at, Pass(data, off, stop, tp))
    ensures PassAt(code, at, data, off, stop, tp)
  {
    var q := Pass(data, off, stop, tp);
    assert code[at] == code[at..at + |q|][0];
    var m := RunEnd(data, off, stop, tp, true);
    if m < stop {
      var e := RunEnd(data, m, stop, tp, false);
      LiteralsSlice(data, m, e);
      assert q == [Trunc8(m - off), Trunc8(e - m)] + data[m..e];
      assert code[at + 1] == code[at..at + |q|][1];
      forall p | (at + 1) + 1 <= p < (at + 1) + 1 + (e - m)
        ensures code[p] == data[m + (p - (at + 1) - 1)]
      {
        assert code[p] == code[at..at + |q|][p - at];
      }
    }
  }

  /** Where the encoding's bytes are held, it is held pass by pass, and `RowLen` counts them. */
  lemma {:induction false} RowHeld(code: seq<uint8>, at: nat, data: seq<uint8>, off: nat, stop: nat, tp: uint8)
    requires off <= stop <= |data|
    requires HeldAt(code, at, RletFrom(data, off, stop, tp))
    ensures RowAt(code, at, data, off, stop, tp)
    ensures RowLen(data, off, stop, tp) == |RletFrom(data, off, stop, tp)|
    decreases stop - off
  {
    if off < stop {
      var e := PassEnd(data, off, stop, tp);
      RletStep(data, off, stop, tp);
      HeldSplit(code, at, Pass(data, off, stop, tp), RletFrom(data, e, stop, tp));
      PassHeld(code, at, data, off, stop, tp);
      PassLenIs(data, off, stop, tp);
      RowHeld(code, at + |Pass(data, off, stop, tp)|, data, e, stop, tp);
    }
  }

  /**
   * Row `j` is held in the image's encoding right after the rows before it, and the rows up
   * to and including it take its length more.
   */
  lemma RowSlot(data: seq<uint8>, width: nat, h: nat, j: nat, tp: uint8)
    requires Times(h, width) <= |data| && j < h
    ensures HeldAt(RletImage(data, width, h, tp), |Flatten(RowCodes(data, width, h, tp)[..j])|, RowCodes(data, width, h, tp)[j])
    ensures |Flatten(RowCodes(data, width, h, tp)[..j + 1])|
         == |Flatten(RowCodes(data, width, h, tp)[..j])| + |RowCodes(data, width, h, tp)[j]|
  {
    FlattenSlot(RowCodes(data, width, h, tp), j);
  }

  /**
   * `group_rlet_output`: clears the first `2 * width * height` bytes of the buffer, writes the
   * encoding of the image at its start and returns the number of bytes written. The buffer
   * must hold both the cleared area and the encoding.
   */
  method GroupRletOutput(data: seq<uint8>, dataBuffer: array<uint8>, width: nat, height: nat, tp: uint8)
    returns (size: nat)
    requires Times(height, width) <= |data|
    requires 2 * Times(height, width) <= dataBuffer.Length
    requires |RletImage(data, width, height, tp)| <= dataBuffer.Length
    modifies dataBuffer
    ensures size == |RletImage(data, width, height, tp)|
    ensures Written(dataBuffer[..], Cleared(old(dataBuffer[..]), 2 * Times(height, width)), RletImage(data, width, height, tp))
  {
    TimesIsProduct(height, width);
    Clear(dataBuffer, width * height * 2);
    ghost var zeroed := dataBuffer[..];
    ghost var rows := RowCodes(data, width, height, tp);
    ghost var code := RletImage(data, width, height, tp);
    size := 0;
    var j := 0;
    while j < height
      invariant j <= height
      invariant WrittenUpTo(dataBuffer[..], zeroed, code, size)
      invariant size == |Flatten(rows[..j])|
    {
      size := EncodeImageRow(data, width, height, j, dataBuffer, size, tp, zeroed);
      j := j + 1;
    }
    assert rows[..height] == rows;
    WrittenAll(dataBuffer[..], zeroed, code);
  }

  /** `memset(data_buffer, 0, n)`. */
  method Clear(dataBuffer: array<uint8>, n: nat)
    requires n <= dataBuffer.Length
    modifies dataBuffer
    ensures dataBuffer[..] == Cleared(old(dataBuffer[..]), n)
  {
    forall i | 0 <= i < n {
      dataBuffer[i] := 0;
    }
  }

  /**
   * One turn of the row loop: row `j` is encoded where the image's encoding holds it, right
   * after the rows before it.
   */
  method EncodeImageRow(data: seq<uint8>, width: nat, height: nat, j: nat, dataBuffer: array<uint8>, size0: nat,
                        tp: uint8, ghost zeroed: seq<uint8>)
    returns (size: nat)
    requires Times(height, width) <= |data| && j < height
    requires WrittenUpTo(dataBuffer[..], zeroed, RletImage(data, width, height, tp), size0)
    requires size0 == |Flatten(RowCodes(data, width, height, tp)[..j])|
    modifies dataBuffer
    ensures WrittenUpTo(dataBuffer[..], zeroed, RletImage(data, width, height, tp), size)
    ensures size == |Flatten(RowCodes(data, width, height, tp)[..j + 1])|
  {
    var offset := j * width;
    TimesIsProduct(j, width);
    RowCodeAt(data, width, height, j, offset, tp);
    RowSlot(data, width, height, j, tp);
    size := EncodeRowAt(data, offset, width, dataBuffer, size0, tp, zeroed, RletImage(data, width, height, tp));
  }

  /** The row at `offset` is encoded where `code` holds its encoding. */
  method EncodeRowAt(data: seq<uint8>, offset: nat, width: nat, dataBuffer: array<uint8>, size0: nat, tp: uint8,
                     ghost zeroed: seq<uint8>, ghost code: seq<uint8>)
    returns (size: nat)
    requires offset + width <= |data|
    requires WrittenUpTo(dataBuffer[..], zeroed, code, size0)
    requires HeldAt(code, size0, RletFrom(data, offset, offset + width, tp))
    modifies dataBuffer
    ensures WrittenUpTo(dataBuffer[..], zeroed, code, size)
    ensures size == size0 + |RletFrom(data, offset, offset + width, tp)|
  {
    RowHeld(code, size0, data, offset, offset + width, tp);
    size := EncodeRow(data, offset, width, dataBuffer, size0, tp, zeroed, code);
  }

  /**
   * One row: passes are encoded until the row's `width` pixels are used up. The bytes written
   * are the row's encoding.
   */
  method EncodeRow(data: seq<uint8>, offset: nat, width: nat, dataBuffer: array<uint8>, size0: nat, tp: uint8,
                   ghost zeroed: seq<uint8>, ghost code: seq<uint8>)
    returns (size: nat)
    requires offset + width <= |data|
    requires WrittenUpTo(dataBuffer[..], zeroed, code, size0)
    requires RowAt(code, size0, data, offset, offset + width, tp)
    modifies dataBuffer
    ensures size == size0 + RowLen(data, offset, offset + width, tp)
    ensures WrittenUpTo(dataBuffer[..], zeroed, code, size)
  {
    var stop := offset + width;
    var left := width;
    var off := offset;
    size := size0;
    while left > 0
      invariant offset <= off <= stop && left == stop - off
      invariant RowState(dataBuffer[..], zeroed, code, data, offset, off, stop, tp, size0, size)
      decreases left
    {
      var c;
      size, c := RowTurn(data, offset, off, stop, dataBuffer, size0, size, tp, zeroed, code);
      off := off + c;
      left := left - c;
    }
  }

  /**
   * The state of the pass loop over a row from `offset` to `stop`: the buffer holds the code up
   * to `size`, the pixels from `off` are encoded right there, and what is written and what
   * remains add up to the row's encoding.
   */
  ghost predicate RowState(buf: seq<uint8>, zeroed: seq<uint8>, code: seq<uint8>, data: seq<uint8>, offset: nat, off: nat,
                           stop: nat, tp: uint8, size0: nat, size: nat)
    requires offset <= off <= stop <= |data|
  {
    && WrittenUpTo(buf, zeroed, code, size)
    && RowAt(code, size, data, off, stop, tp)
    && size + RowLen(data, off, stop, tp) == size0 + RowLen(data, offset, stop, tp)
  }

  /**
   * One turn of the pass loop: one pass is encoded, `c` pixels are consumed, and what is
   * written and what remains to encode still add up to the row.
   */
  method RowTurn(data: seq<uint8>, offset: nat, off: nat, stop: nat, dataBuffer: array<uint8>, size0: nat, size1: nat, tp: uint8,
                 ghost zeroed: seq<uint8>, ghost code: seq<uint8>)
    returns (size: nat, c: nat)
    requires offset <= off < stop <= |data|
    requires RowState(dataBuffer[..], zeroed, code, data, offset, off, stop, tp, size0, size1)
    modifies dataBuffer
    ensures 0 < c <= stop - off
    ensures RowState(dataBuffer[..], zeroed, code, data, offset, off + c, stop, tp, size0, size)
  {
    RowStep(code, size1, data, off, stop, tp);
    size, c := EncodePass(data, off, stop, dataBuffer, size1, tp, zeroed, code);
  }

  /**
   * One pass of the row loop: the skip byte, then, if pixels remain, the length byte and the
   * literal pixels. Returns the new size and the number of pixels consumed.
   */
  method EncodePass(data: seq<uint8>, off: nat, stop: nat, dataBuffer: array<uint8>, size0: nat, tp: uint8,
                    ghost zeroed: seq<uint8>, ghost code: seq<uint8>)
    returns (size: nat, consumed: nat)
    requires off < stop <= |data|
    requires WrittenUpTo(dataBuffer[..], zeroed, code, size0)
    requires PassAt(code, size0, data, off, stop, tp)
    modifies dataBuffer
    ensures off + consumed == PassEnd(data, off, stop, tp)
    ensures size == size0 + PassLen(data, off, stop, tp)
    ensures WrittenUpTo(dataBuffer[..], zeroed, code, size)
  {
    var t := ScanTransparent(data, off, stop, tp);
    WrittenNext(dataBuffer[..], zeroed, code, size0);
    dataBuffer[size0] := Trunc8(t);
    size := size0 + 1;
    consumed := t;
    var left := stop - off - t;
    if left > 0 {
      var o;
      size, o := EncodeLiterals(data, off + t, stop, dataBuffer, size, tp, zeroed, code);
      consumed := t + o;
    }
  }

  /**
   * The run of other pixels at `start`: a slot is kept for its length, the pixels are copied
   * after it, and the length is stored into the slot.
   */
  method EncodeLiterals(data: seq<uint8>, start: nat, stop: nat, dataBuffer: array<uint8>, fix: nat, tp: uint8,
                        ghost zeroed: seq<uint8>, ghost code: seq<uint8>)
    returns (size: nat, o: nat)
    requires start < stop <= |data|
    requires WrittenUpTo(dataBuffer[..], zeroed, code, fix)
    requires LiteralsAt(code, fix, data, start, stop, tp)
    modifies dataBuffer
    ensures start + o == RunEnd(data, start, stop, tp, false)
    ensures o == RunEnd(data, start, stop, tp, false) - start
    ensures size == fix + 1 + o
    ensures WrittenUpTo(dataBuffer[..], zeroed, code, size)
  {
    WrittenReserve(dataBuffer[..], zeroed, code, fix);
    o := CopyLiterals(data, start, stop, dataBuffer, fix, tp, zeroed, code);
    WrittenFill(dataBuffer[..], zeroed, code, fix, fix + 1 + o);
    dataBuffer[fix] := Trunc8(o);
    size := fix + 1 + o;
  }

  /**
   * The scan of misc.c:305, `tp_index == data[t + offset] && t < left`: the length of the
   * transparent run at `off`. The C code reads the pixel before it tests the bound; this scan
   * tests the bound first, so it never reads past `stop` (`RletBounds.RunAsWritten` is the
   * order as written).
   */
  method ScanTransparent(data: seq<uint8>, off: nat, stop: nat, tp: uint8) returns (t: nat)
    requires off <= stop <= |data|
    ensures off + t == RunEnd(data, off, stop, tp, true)
    ensures t == RunEnd(data, off, stop, tp, true) - off
  {
    t := 0;
    while off + t < stop && data[off + t] == tp
      invariant off + t <= stop
      invariant RunEnd(data, off + t, stop, tp, true) == RunEnd(data, off, stop, tp, true)
    {
      t := t + 1;
    }
  }

  /**
   * The copy of misc.c:311, `tp_index != data[t + o + offset] && o < left`: copies the run of
   * other pixels at `start` to the buffer after the slot `fix` and returns its length. The C
   * code reads the pixel before it tests the bound; this loop tests the bound first.
   */
  method CopyLiterals(data: seq<uint8>, start: nat, stop: nat, dataBuffer: array<uint8>, fix: nat, tp: uint8,
                      ghost zeroed: seq<uint8>, ghost code: seq<uint8>)
    returns (o: nat)
    requires start <= stop <= |data|
    requires WrittenAround(dataBuffer[..], zeroed, code, fix, fix + 1)
    requires LiteralsAt(code, fix, data, start, stop, tp)
    modifies dataBuffer
    ensures start + o == RunEnd(data, start, stop, tp, false)
    ensures o == RunEnd(data, start, stop, tp, false) - start
    ensures WrittenAround(dataBuffer[..], zeroed, code, fix, fix + 1 + o)
  {
    o := 0;
    while start + o < stop && data[start + o] != tp
      invariant start + o <= stop
      invariant RunEnd(data, start + o, stop, tp, false) == RunEnd(data, start, stop, tp, false)
      invariant WrittenAround(dataBuffer[..], zeroed, code, fix, fix + 1 + o)
    {
      LiteralAt(code, fix, data, start, stop, tp, o);
      WrittenAroundNext(dataBuffer[..], zeroed, code, fix, fix + 1 + o);
      dataBuffer[fix + 1 + o] := data[start + o];
      o := o + 1;
    }
  }

  /** The pixel `o` of the run at `start` is held in `code` at `fix + 1 + o`. */
  lemma {:induction false} LiteralAt(code: seq<uint8>, fix: nat, data: seq<uint8>, start: nat, stop: nat, tp: uint8, o: nat)
    requires start <= stop <= |data|
    requires LiteralsAt(code, fix, data, start, stop, tp)
    requires start + o < RunEnd(data, start, stop, tp, false)
    ensures fix + 1 + o < |code| && code[fix + 1 + o] == data[start + o]
  {
    var p := fix + 1 + o;
    assert code[p] == data[start + (p - fix - 1)];
  }
}
