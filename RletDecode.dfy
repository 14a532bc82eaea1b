/**
 * Reading back what `group_rlet_output` writes. The reader is not part of the encoder; it is
 * the inverse that pins down what the encoding means: each row is recovered, pixel for pixel,
 * from its bytes.
 */
module RletDecode {
  import opened Bytes
  import opened Rlet

  /** `n` copies of pixel `v`. */
  function Repeat(v: uint8, n: nat): (r: seq<uint8>)
    ensures |r| == n
  {
    seq(n, _ => v)
  }

  /** The encoding of a row part that is one transparent run of `n` pixels is its skip byte. */
  lemma RletFromSkip(data: seq<uint8>, i: nat, stop: nat, n: nat, tp: uint8)
    requires i < stop <= |data| && n == stop - i && RunEnd(data, i, stop, tp, true) == stop
    ensures RletFrom(data, i, stop, tp) == [Trunc8(n)]
  {
  }

  /** A first pass that does not end the row: the two counts, then the literals. */
  lemma PassCounts(data: seq<uint8>, i: nat, stop: nat, tp: uint8)
    requires i < stop <= |data| && RunEnd(data, i, stop, tp, true) < stop
    ensures var t := RunEnd(data, i, stop, tp, true);
      var e := RunEnd(data, t, stop, tp, false);
      Pass(data, i, stop, tp) == [Trunc8(t - i), Trunc8(e - t)] + data[t..e]
  {
    var t := RunEnd(data, i, stop, tp, true);
    LiteralsSlice(data, t, RunEnd(data, t, stop, tp, false));
  }

  /**
   * The same, with the ends of the two runs named: the literal run is not empty and none of
   * its pixels is the transparent index.
   */
  lemma PassLiterals(data: seq<uint8>, i: nat, t: nat, e: nat, stop: nat, tp: uint8)
    requires i < stop <= |data| && t == RunEnd(data, i, stop, tp, true) < stop
    requires e == RunEnd(data, t, stop, tp, false)
    ensures Pass(data, i, stop, tp) == [Trunc8(t - i), Trunc8(e - t)] + data[t..e]
    ensures t < e && forall x :: x in data[t..e] ==> x != tp
  {
    PassCounts(data, i, stop, tp);
    RunEndStops(data, i, stop, tp, true);
    RunEndStops(data, t, stop, tp, false);
    RunEndAll(data, t, stop, tp, false);
    forall x | x in data[t..e]
      ensures x != tp
    {
      var k :| 0 <= k < e - t && data[t..e][k] == x;
      assert data[t + k] == x;
    }
  }

  /** The `s` pixels of a transparent run are `Repeat` of the transparent index. */
  lemma RepeatRun(data: seq<uint8>, i: nat, t: nat, stop: nat, tp: uint8, s: nat)
    requires i <= stop <= |data| && t == RunEnd(data, i, stop, tp, true) && s == t - i
    ensures Repeat(tp, s) == data[i..t]
  {
    RunEndAll(data, i, stop, tp, true);
  }

  /**
   * One row of `left` pixels read from the start of `enc`: a skip byte and, while pixels
   * remain, a length byte and that many literal pixels. Gives the row and the bytes after it,
   * or `None` when `enc` does not start with such a row.
   */
  function DecodeRow(enc: seq<uint8>, left: nat, tp: uint8): Option<(seq<uint8>, seq<uint8>)>
    decreases left
  {
    if left == 0 then Some(([], enc))
    else if |enc| == 0 then None
    else
      var t := enc[0] as nat;
      if t > left then None
      else if t == left then Some((Repeat(tp, t), enc[1..]))
      else if |enc| < 2 then None
      else
        var o := enc[1] as nat;
        if o == 0 || t + o > left || |enc| < 2 + o then None
        else
          match DecodeRow(enc[2 + o..], left - t - o, tp)
          case None => None
          case Some(r) => Some((Repeat(tp, t) + enc[2..2 + o] + r.0, r.1))
  }

  /** `n` rows of `width` pixels read one after the other. */
  function DecodeRows(enc: seq<uint8>, width: nat, n: nat, tp: uint8): Option<(seq<uint8>, seq<uint8>)>
    decreases n
  {
    if n == 0 then Some(([], enc))
    else
      match DecodeRow(enc, width, tp)
      case None => None
      case Some(q) =>
        match DecodeRows(q.1, width, n - 1, tp)
        case None => None
        case Some(r) => Some((q.0 + r.0, r.1))
  }

  /** A row that is one transparent run reads back from its skip byte alone. */
  lemma DecodeSkip(t: nat, rest: seq<uint8>, tp: uint8)
    requires 0 < t < 256
    ensures DecodeRow([Trunc8(t)] + rest, t, tp) == Some((Repeat(tp, t), rest))
  {
    Trunc8Small(t);
    assert ([Trunc8(t)] + rest)[1..] == rest;
  }

  /**
   * A pass of `s` transparent pixels and the `o` literals `lits` reads back as its run and its
   * literals, then whatever the `m` pixels left after it read back as.
   */
  lemma DecodeLiterals(enc: seq<uint8>, pix: seq<uint8>, s: nat, o: nat, lits: seq<uint8>, after: seq<uint8>,
                       left: nat, m: nat, tp: uint8, px: seq<uint8>, rest: seq<uint8>)
    requires s < 256 && 0 < o < 256 && o == |lits| && s + o <= left && m == left - s - o
    requires enc == [Trunc8(s), Trunc8(o)] + lits + after && pix == Repeat(tp, s) + lits + px
    requires DecodeRow(after, m, tp) == Some((px, rest))
    ensures DecodeRow(enc, left, tp) == Some((pix, rest))
  {
    Trunc8Small(s);
    Trunc8Small(o);
    assert enc[2..2 + o] == lits;
    assert enc[2 + o..] == after;
  }

  /** A row part that is one transparent run of `n` pixels reads back from its skip byte. */
  lemma SkipRoundTrip(data: seq<uint8>, i: nat, stop: nat, n: nat, tp: uint8, rest: seq<uint8>)
    requires i < stop <= |data| && n == stop - i < 256 && RunEnd(data, i, stop, tp, true) == stop
    ensures DecodeRow(RletFrom(data, i, stop, tp) + rest, n, tp) == Some((data[i..stop], rest))
  {
    RepeatRun(data, i, stop, stop, tp, n);
    RletFromSkip(data, i, stop, n, tp);
    DecodeSkip(n, rest, tp);
  }

  /** The encoding from `i`, then `rest`: the first pass's counts and literals, then the encoding after it. */
  lemma EncodingSplit(data: seq<uint8>, i: nat, t: nat, e: nat, stop: nat, tp: uint8, rest: seq<uint8>)
    requires i < stop <= |data| && t == RunEnd(data, i, stop, tp, true) < stop
    requires e == RunEnd(data, t, stop, tp, false)
    ensures RletFrom(data, i, stop, tp) + rest == [Trunc8(t - i), Trunc8(e - t)] + data[t..e] + (RletFrom(data, e, stop, tp) + rest)
  {
    RletStep(data, i, stop, tp);
    PassLiterals(data, i, t, e, stop, tp);
    assert PassEnd(data, i, stop, tp) == e;
    Assoc(Pass(data, i, stop, tp), RletFrom(data, e, stop, tp), rest);
  }

  /** The pixels from `i`: the first pass's transparent run, its literals, then the pixels after it. */
  lemma PixelSplit(data: seq<uint8>, i: nat, t: nat, e: nat, stop: nat, tp: uint8)
    requires i <= t <= e <= stop <= |data| && t == RunEnd(data, i, stop, tp, true)
    ensures data[i..stop] == Repeat(tp, t - i) + data[t..e] + data[e..stop]
  {
    RepeatRun(data, i, t, stop, tp, t - i);
    SliceSplit(data, i, t, e);
    SliceSplit(data, i, e, stop);
  }

  /** A first pass that does not end the row has at least one literal. */
  lemma LiteralRun(data: seq<uint8>, i: nat, t: nat, e: nat, stop: nat, tp: uint8)
    requires i < stop <= |data| && t == RunEnd(data, i, stop, tp, true) < stop
    requires e == RunEnd(data, t, stop, tp, false)
    ensures i <= t < e <= stop
  {
    RunEndStops(data, i, stop, tp, true);
    RunEndStops(data, t, stop, tp, false);
  }

  /**
   * A row part of `n` pixels whose first pass has literals reads back when what follows that
   * pass reads back: the pass gives its transparent run and its literals.
   */
  lemma LiteralsRoundTrip(data: seq<uint8>, i: nat, t: nat, e: nat, stop: nat, n: nat, tp: uint8, rest: seq<uint8>)
    requires i < stop <= |data| && n == stop - i < 256
    requires t == RunEnd(data, i, stop, tp, true) < stop && e == RunEnd(data, t, stop, tp, false)
    requires DecodeRow(RletFrom(data, e, stop, tp) + rest, stop - e, tp) == Some((data[e..stop], rest))
    ensures DecodeRow(RletFrom(data, i, stop, tp) + rest, n, tp) == Some((data[i..stop], rest))
  {
    LiteralRun(data, i, t, e, stop, tp);
    EncodingSplit(data, i, t, e, stop, tp, rest);
    PixelSplit(data, i, t, e, stop, tp);
    DecodeLiterals(RletFrom(data, i, stop, tp) + rest, data[i..stop], t - i, e - t, data[t..e],
                   RletFrom(data, e, stop, tp) + rest, n, stop - e, tp, data[e..stop], rest);
  }

  /** No pixels: nothing is encoded, and nothing is read. */
  lemma EmptyRoundTrip(data: seq<uint8>, i: nat, tp: uint8, rest: seq<uint8>)
    requires i <= |data|
    ensures DecodeRow(RletFrom(data, i, i, tp) + rest, 0, tp) == Some((data[i..i], rest))
  {
    assert RletFrom(data, i, i, tp) + rest == rest;
    assert data[i..i] == [];
  }

  /**
   * A row of `n` pixels, fewer than 256, reads back from its encoding, whatever follows it:
   * both of its counts fit in their `uint8_t` there.
   */
  lemma {:induction false} RowRoundTrip(data: seq<uint8>, i: nat, stop: nat, n: nat, tp: uint8, rest: seq<uint8>)
    requires i <= stop <= |data| && n == stop - i < 256
    ensures DecodeRow(RletFrom(data, i, stop, tp) + rest, n, tp) == Some((data[i..stop], rest))
    decreases n
  {
    if i == stop {
      EmptyRoundTrip(data, i, tp, rest);
    } else {
      var t := RunEnd(data, i, stop, tp, true);
      if t == stop {
        SkipRoundTrip(data, i, stop, n, tp, rest);
      } else {
        var e := RunEnd(data, t, stop, tp, false);
        LiteralRun(data, i, t, e, stop, tp);
        RowRoundTrip(data, e, stop, stop - e, tp, rest);
        LiteralsRoundTrip(data, i, t, e, stop, n, tp, rest);
      }
    }
  }

  /**
   * From line `j` on: when line `j` reads back as the pixels `a..b` and the lines after it as
   * the `m` rows of pixels `b..c`, the lines from `j` read back as `m + 1` rows, pixels `a..c`.
   */
  lemma RowsStep(lines: seq<seq<uint8>>, j: nat, rest: seq<uint8>, width: nat, n: nat, m: nat, tp: uint8,
                 pixels: seq<uint8>, a: nat, b: nat, c: nat)
    requires j < |lines| && n == m + 1 && a <= b <= c <= |pixels|
    requires DecodeRow(lines[j] + (Flatten(lines[j + 1..]) + rest), width, tp)
          == Some((pixels[a..b], Flatten(lines[j + 1..]) + rest))
    requires DecodeRows(Flatten(lines[j + 1..]) + rest, width, m, tp) == Some((pixels[b..c], rest))
    ensures DecodeRows(Flatten(lines[j..]) + rest, width, n, tp) == Some((pixels[a..c], rest))
  {
    FlattenDrop(lines, j);
    Assoc(lines[j], Flatten(lines[j + 1..]), rest);
    SliceSplit(pixels, a, b, c);
  }

  /** Row `j` of an image fewer than 256 pixels wide reads back from its encoding, whatever follows it. */
  lemma RowCodeRoundTrip(data: seq<uint8>, width: nat, h: nat, j: nat, tp: uint8, after: seq<uint8>)
    requires Times(h, width) <= |data| && width < 256 && j < h
    ensures Times(j, width) <= Times(j + 1, width) <= Times(h, width)
    ensures DecodeRow(RowCodes(data, width, h, tp)[j] + after, width, tp)
         == Some((data[Times(j, width)..Times(j + 1, width)], after))
  {
    RowCodeIs(data, width, h, j, tp);
    RowRoundTrip(data, Times(j, width), Times(j + 1, width), width, tp, after);
  }

  /**
   * Each of the `lines` reads back, whatever follows it, as its row of `pixels`: line `i` as
   * the `width` pixels from `i * width` on.
   */
  ghost predicate RowsReadBack(lines: seq<seq<uint8>>, pixels: seq<uint8>, width: nat, tp: uint8)
  {
    forall i: nat, after: seq<uint8> :: i < |lines| && Times(i + 1, width) <= |pixels| ==>
      DecodeRow(lines[i] + after, width, tp) == Some((pixels[Times(i, width)..Times(i + 1, width)], after))
  }

  /**
   * Lines that each read back as their row read back, from line `j` on, as the rows from `j`
   * on, whatever follows them.
   */
  lemma {:induction false} LinesRoundTrip(lines: seq<seq<uint8>>, j: nat, rest: seq<uint8>, width: nat, tp: uint8, pixels: seq<uint8>)
    requires j <= |lines| && Times(|lines|, width) <= |pixels| && RowsReadBack(lines, pixels, width, tp)
    ensures Times(j, width) <= Times(|lines|, width)
    ensures DecodeRows(Flatten(lines[j..]) + rest, width, |lines| - j, tp)
         == Some((pixels[Times(j, width)..Times(|lines|, width)], rest))
    decreases |lines| - j
  {
    if j == |lines| {
      assert lines[j..] == [];
      assert Flatten(lines[j..]) + rest == rest;
      assert pixels[Times(j, width)..Times(|lines|, width)] == [];
    } else {
      LinesRoundTrip(lines, j + 1, rest, width, tp, pixels);
      TimesMono(j + 1, |lines|, width);
      var after := Flatten(lines[j + 1..]) + rest;
      assert DecodeRow(lines[j] + after, width, tp) == Some((pixels[Times(j, width)..Times(j + 1, width)], after));
      RowsStep(lines, j, rest, width, |lines| - j, |lines| - (j + 1), tp, pixels, Times(j, width), Times(j + 1, width), Times(|lines|, width));
    }
  }

  /** An image fewer than 256 pixels wide reads back, row by row, from its encoding. */
  lemma ImageRoundTrip(data: seq<uint8>, width: nat, h: nat, tp: uint8)
    requires Times(h, width) <= |data| && width < 256
    ensures DecodeRows(RletImage(data, width, h, tp), width, h, tp) == Some((data[..Times(h, width)], []))
  {
    var rows := RowCodes(data, width, h, tp);
    forall i: nat, after: seq<uint8> | i < h && Times(i + 1, width) <= |data|
      ensures DecodeRow(rows[i] + after, width, tp) == Some((data[Times(i, width)..Times(i + 1, width)], after))
    {
      RowCodeRoundTrip(data, width, h, i, tp, after);
    }
    LinesRoundTrip(rows, 0, [], width, tp, data);
    assert rows[0..] == rows;
    assert RletImage(data, width, h, tp) + [] == RletImage(data, width, h, tp);
    assert data[0..Times(h, width)] == data[..Times(h, width)];
  }
}
