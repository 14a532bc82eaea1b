/**
 * The array emitters of misc.c, `output_array` and `output_array_compressed`. They drive a
 * `format_t`, whose `print_byte` and `print_next_array_line` callbacks write C or assembly
 * program text; here each callback is an event, and an emitter returns the events it issues.
 */
module Emit {
  import opened Bytes

  /**
   * `print_byte(out, b, more)`: `more` says whether another byte follows on the same line.
   * `print_next_array_line(out, flag, last)`: ends a line, `last` the final one.
   */
  datatype Event = PrintByte(b: uint8, more: bool) | NextLine(flag: bool, last: bool)

  /** The bytes of one line, every one but the last flagged as followed by another. */
  function LineEvents(line: seq<uint8>): (r: seq<Event>)
  {
    LineFrom(line, 0)
  }

  /** The events for the bytes of `line` from byte i on. */
  function LineFrom(line: seq<uint8>, i: nat): (r: seq<Event>)
    requires i <= |line|
    ensures |r| == |line| - i
    ensures forall k :: 0 <= k < |r| ==> r[k] == PrintByte(line[i + k], i + k + 1 != |line|)
    decreases |line| - i
  {
    if i == |line| then [] else [PrintByte(line[i], i + 1 != |line|)] + LineFrom(line, i + 1)
  }

  /** Lines that are each ended by a line break not flagged last. */
  function Closed(lines: seq<seq<uint8>>): seq<Event>
  {
    if lines == [] then []
    else Closed(lines[..|lines| - 1]) + LineEvents(lines[|lines| - 1]) + [NextLine(false, false)]
  }

  /** A block of lines: the last one is ended by the line break flagged last. */
  function Block(lines: seq<seq<uint8>>): seq<Event>
  {
    if lines == [] then []
    else Closed(lines[..|lines| - 1]) + LineEvents(lines[|lines| - 1]) + [NextLine(false, true)]
  }

  /**
   * `output_array`: the `height` rows of `width` bytes of `data`, each row one line and the
   * last line flagged last.
   */
  method OutputArray(data: seq<uint8>, width: nat, height: nat) returns (events: seq<Event>)
    requires Times(height, width) <= |data|
    ensures events == Block(Rows(data, width, height))
  {
    events := [];
    var k: nat := 0;
    TimesMono(0, height, width);
    while k < height
      invariant k <= height && Times(k, width) <= |data|
      invariant events == if k == height then Block(Rows(data, width, k)) else Closed(Rows(data, width, k))
    {
      TimesMono(k + 1, height, width);
      var o := Times(k, width);
      assert Times(k + 1, width) == o + width;
      var lineEvents := RowLine(data, o, width);
      RowStep(data, width, height, k, events, lineEvents);
      events := events + lineEvents + [NextLine(false, k + 1 == height)];
      k := k + 1;
    }
  }

  /** The inner loop of `output_array`: one row's bytes, all but the last followed by a comma. */
  method RowLine(data: seq<uint8>, o: nat, width: nat) returns (lineEvents: seq<Event>)
    requires o + width <= |data|
    ensures lineEvents == LineEvents(data[o..o + width])
  {
    ghost var row := data[o..o + width];
    lineEvents := [];
    var j := 0;
    while j < width
      invariant j <= width
      invariant lineEvents + LineFrom(row, j) == LineEvents(row)
    {
      assert row[j] == data[j + o];
      LineFromCons(row, j);
      Assoc(lineEvents, [PrintByte(data[j + o], j + 1 != width)], LineFrom(row, j + 1));
      lineEvents := lineEvents + [PrintByte(data[j + o], j + 1 != width)];
      j := j + 1;
    }
    assert lineEvents + [] == lineEvents;
  }

  lemma LineFromCons(line: seq<uint8>, i: nat)
    requires i < |line|
    ensures LineFrom(line, i) == [PrintByte(line[i], i + 1 != |line|)] + LineFrom(line, i + 1)
  {
  }

  /** One more row of `output_array`: the stream gains that row's line and its line break. */
  lemma RowStep(data: seq<uint8>, width: nat, height: nat, k: nat, events: seq<Event>, lineEvents: seq<Event>)
    requires k < height && Times(k + 1, width) <= |data|
    requires events == Closed(Rows(data, width, k))
    requires lineEvents == LineEvents(data[Times(k, width)..Times(k + 1, width)])
    ensures var next := events + lineEvents + [NextLine(false, k + 1 == height)];
            next == if k + 1 == height then Block(Rows(data, width, k + 1)) else Closed(Rows(data, width, k + 1))
  {
    RowsSnoc(data, width, k);
    var rows := Rows(data, width, k + 1);
    assert rows[..k] == Rows(data, width, k);
  }

  /**
   * The events `output_array_compressed` issues for bytes `s..` of `data` when byte s sits in
   * column `col` of its line: each byte flagged as ending its line at the end of the data or
   * in column 31, and a line break after column 31 unless the data ends there.
   */
  function CompressedFrom(data: seq<uint8>, s: nat, col: nat): seq<Event>
    requires s <= |data| && col < 32
    decreases |data| - s
  {
    if s == |data| then []
    else if col == 31 then
      [PrintByte(data[s], false)] + (if s + 1 < |data| then [NextLine(false, false)] else [])
      + CompressedFrom(data, s + 1, 0)
    else
      [PrintByte(data[s], s + 1 != |data|)] + CompressedFrom(data, s + 1, col + 1)
  }

  /**
   * `output_array_compressed`: every byte of `data` in lines of 32, then a line break flagged
   * last. `k` is the column; `(k+1) & 32` tests its bit 5, which for a column below 32 is set
   * on column 31 only, and `k = -1` followed by the loop's `k++` restarts it at 0 (the
   * unsigned wrap-around of the C code). `k` reaches 32 only after the last byte, when column
   * 31 ends the data and no restart happens; the ghost `col` is the column of the next byte.
   */
  method OutputArrayCompressed(data: seq<uint8>) returns (events: seq<Event>)
    ensures events == CompressedFrom(data, 0, 0) + [NextLine(false, true)]
  {
    var len := |data|;
    events := [];
    var j := 0;
    var k: int := 0;
    ghost var col := 0;
    while j < len
      invariant j <= len && col < 32
      invariant k == col || (k == 32 && j == len)
      invariant events + CompressedFrom(data, j, col) == CompressedFrom(data, 0, 0)
    {
      ColumnBit5(k);
      var bit5 := ((k + 1) / 32) % 2 == 1;
      var step := [PrintByte(data[j], !(j + 1 == len || bit5))];
      ghost var next := if bit5 then 0 else k + 1;
      if bit5 && j + 1 < len {
        k := -1;
        step := step + [NextLine(false, false)];
      }
      CompressedStep(data, j, col);
      Assoc(events, step, CompressedFrom(data, j + 1, next));
      events := events + step;
      j := j + 1;
      k := k + 1;
      col := next;
    }
    assert CompressedFrom(data, len, col) == [];
    events := events + [NextLine(false, true)];
  }

  /** For a column below 32, `(k+1) & 32` is set exactly on column 31. */
  lemma ColumnBit5(k: int)
    requires 0 <= k < 32
    ensures ((k + 1) / 32) % 2 == 1 <==> k == 31
  {
  }

  /** One byte of the compressed stream: the byte, a line break after column 31 unless the data ends, and the rest. */
  lemma CompressedStep(data: seq<uint8>, s: nat, col: nat)
    requires s < |data| && col < 32
    ensures CompressedFrom(data, s, col)
         == [PrintByte(data[s], !(s + 1 == |data| || col == 31))]
            + (if col == 31 && s + 1 < |data| then [NextLine(false, false)] else [])
            + CompressedFrom(data, s + 1, if col == 31 then 0 else col + 1)
  {
    if col == 31 && s + 1 == |data| {
      assert [PrintByte(data[s], false)] + [] == [PrintByte(data[s], false)];
    } else if col != 31 {
      assert [PrintByte(data[s], s + 1 != |data|)] + [] == [PrintByte(data[s], s + 1 != |data|)];
    }
  }

  /** The data cut into lines of 32 bytes, the last one holding the rest (possibly nothing). */
  function Chunks(data: seq<uint8>): (r: seq<seq<uint8>>)
    ensures |r| >= 1
    decreases |data|
  {
    if |data| <= 32 then [data] else [data[..32]] + Chunks(data[32..])
  }

  /** The chunks are the data, in order: every one but the last holds 32 bytes, the last at most 32. */
  lemma {:induction false} ChunksCover(data: seq<uint8>)
    ensures Flatten(Chunks(data)) == data
    ensures forall i :: 0 <= i < |Chunks(data)| - 1 ==> |Chunks(data)[i]| == 32
    ensures |Chunks(data)[|Chunks(data)| - 1]| <= 32
    decreases |data|
  {
    if |data| <= 32 {
      assert Flatten([data]) == data + Flatten([]);
    } else {
      var rest := Chunks(data[32..]);
      ChunksCover(data[32..]);
      assert Chunks(data) == [data[..32]] + rest;
      FlattenCons(data[..32], rest);
      assert data[..32] + data[32..] == data;
      assert forall i :: 1 <= i < |Chunks(data)| ==> Chunks(data)[i] == rest[i - 1];
    }
  }

  /** A block whose first line is `x`: that line, an unflagged break, and the block of the rest. */
  lemma {:induction false} ClosedCons(x: seq<uint8>, lines: seq<seq<uint8>>)
    ensures Closed([x] + lines) == LineEvents(x) + [NextLine(false, false)] + Closed(lines)
    decreases |lines|
  {
    var xs := [x] + lines;
    var head := LineEvents(x) + [NextLine(false, false)];
    if lines == [] {
      assert xs[..0] == [];
    } else {
      var p := lines[..|lines| - 1];
      var last := LineEvents(lines[|lines| - 1]) + [NextLine(false, false)];
      ClosedCons(x, p);
      assert xs[..|xs| - 1] == [x] + p;
      calc {
        Closed(xs);
      ==
        Closed([x] + p) + LineEvents(lines[|lines| - 1]) + [NextLine(false, false)];
      == { Assoc(Closed([x] + p), LineEvents(lines[|lines| - 1]), [NextLine(false, false)]); }
        (head + Closed(p)) + last;
      == { Assoc(head, Closed(p), last); }
        head + (Closed(p) + last);
      == { Assoc(Closed(p), LineEvents(lines[|lines| - 1]), [NextLine(false, false)]); }
        head + Closed(lines);
      }
    }
  }

  lemma BlockCons(x: seq<uint8>, lines: seq<seq<uint8>>)
    requires lines != []
    ensures Block([x] + lines) == LineEvents(x) + [NextLine(false, false)] + Block(lines)
  {
    var xs := [x] + lines;
    var p := lines[..|lines| - 1];
    assert xs[..|xs| - 1] == [x] + p;
    ClosedCons(x, p);
    var tail := LineEvents(lines[|lines| - 1]) + [NextLine(false, true)];
    Assoc(LineEvents(x) + [NextLine(false, false)], Closed(p), tail);
    Assoc(Closed(p), LineEvents(lines[|lines| - 1]), [NextLine(false, true)]);
    Assoc(Closed(xs[..|xs| - 1]), LineEvents(lines[|lines| - 1]), [NextLine(false, true)]);
  }

  /** What follows the first line of the compressed stream: a break and the rest, if there is more data. */
  function AfterFirst(data: seq<uint8>): seq<Event>
  {
    if |data| > 32 then [NextLine(false, false)] + CompressedFrom(data, 32, 0) else []
  }

  function Min(a: nat, b: nat): nat
  {
    if a < b then a else b
  }

  /** The compressed stream from byte s of the first line is the rest of that line, then the data after it. */
  lemma {:induction false} FirstLine(data: seq<uint8>, s: nat)
    requires s < Min(32, |data|)
    ensures CompressedFrom(data, s, s) == LineFrom(data[..Min(32, |data|)], s) + AfterFirst(data)
    decreases |data| - s
  {
    if s + 1 < Min(32, |data|) {
      FirstLine(data, s + 1);
      InsideFirstLine(data, s);
      Assoc([PrintByte(data[s], true)], LineFrom(data[..Min(32, |data|)], s + 1), AfterFirst(data));
    } else {
      EndOfFirstLine(data);
    }
  }

  /** A byte inside the first line is followed by another on the same line. */
  lemma InsideFirstLine(data: seq<uint8>, s: nat)
    requires s + 1 < Min(32, |data|)
    ensures CompressedFrom(data, s, s) == [PrintByte(data[s], true)] + CompressedFrom(data, s + 1, s + 1)
    ensures LineFrom(data[..Min(32, |data|)], s)
         == [PrintByte(data[s], true)] + LineFrom(data[..Min(32, |data|)], s + 1)
  {
  }

  /** The last byte of the first line ends it. */
  lemma EndOfFirstLine(data: seq<uint8>)
    requires data != []
    ensures CompressedFrom(data, Min(32, |data|) - 1, Min(32, |data|) - 1)
         == LineFrom(data[..Min(32, |data|)], Min(32, |data|) - 1) + AfterFirst(data)
  {
    if |data| <= 32 {
      EndOfShortData(data);
    } else {
      EndOfFullLine(data);
    }
  }

  lemma EndOfShortData(data: seq<uint8>)
    requires 0 < |data| <= 32
    ensures CompressedFrom(data, |data| - 1, |data| - 1) == LineFrom(data[..|data|], |data| - 1)
  {
    var n := |data|;
    var last := [PrintByte(data[n - 1], false)];
    assert LineFrom(data[..n], n - 1) == last + LineFrom(data[..n], n);
    assert CompressedFrom(data, n, 0) == [] && CompressedFrom(data, n, n % 32) == [];
    assert CompressedFrom(data, n - 1, n - 1) == last + [];
  }

  lemma EndOfFullLine(data: seq<uint8>)
    requires |data| > 32
    ensures CompressedFrom(data, 31, 31) == LineFrom(data[..32], 31) + ([NextLine(false, false)] + CompressedFrom(data, 32, 0))
  {
    var last := [PrintByte(data[31], false)];
    assert LineFrom(data[..32], 31) == last + LineFrom(data[..32], 32);
    assert LineFrom(data[..32], 32) == [];
    Assoc(last, [NextLine(false, false)], CompressedFrom(data, 32, 0));
  }

  /** From byte 32 on, the compressed stream is the stream of the data after its first line. */
  lemma {:induction false} Shift(data: seq<uint8>, s: nat, col: nat)
    requires 32 <= s <= |data| && col < 32
    ensures CompressedFrom(data, s, col) == CompressedFrom(data[32..], s - 32, col)
    decreases |data| - s
  {
    if s < |data| {
      Shift(data, s + 1, if col == 31 then 0 else col + 1);
      assert data[32..][s - 32] == data[s];
    }
  }

  /** `output_array_compressed` prints the data as one block of lines of 32 bytes. */
  lemma {:induction false} CompressedChunks(data: seq<uint8>)
    ensures CompressedFrom(data, 0, 0) + [NextLine(false, true)] == Block(Chunks(data))
    decreases |data|
  {
    BlockSingle(data);
    if data == [] {
      assert CompressedFrom(data, 0, 0) == [] == LineEvents(data);
    } else if |data| <= 32 {
      FirstLine(data, 0);
      assert data[..|data|] == data;
    } else {
      var line, next, end := LineEvents(data[..32]), [NextLine(false, false)], [NextLine(false, true)];
      var rest := CompressedFrom(data[32..], 0, 0);
      FirstLine(data, 0);
      Shift(data, 32, 0);
      assert CompressedFrom(data, 0, 0) == line + (next + rest);
      CompressedChunks(data[32..]);
      BlockCons(data[..32], Chunks(data[32..]));
      Assoc(line, next + rest, end);
      Assoc(next, rest, end);
      Assoc(line, next, rest + end);
    }
  }

  /** A block of one line. */
  lemma BlockSingle(x: seq<uint8>)
    ensures Block([x]) == LineEvents(x) + [NextLine(false, true)]
  {
    assert [x][..0] == [];
    assert Closed([]) + LineEvents(x) == LineEvents(x);
  }

  /**
   * The lines a stream prints, read back: bytes gather into the open line, a line break
   * closes it. Bytes after the last break belong to no line.
   */
  function Lines(events: seq<Event>, open: seq<uint8>): seq<seq<uint8>>
    decreases |events|
  {
    if events == [] then []
    else
      match events[0]
      case PrintByte(b, _) => Lines(events[1..], open + [b])
      case NextLine(_, _) => [open] + Lines(events[1..], [])
  }

  /** Reading the bytes of a line from byte i adds them to the open line. */
  lemma {:induction false} LinesOfLine(line: seq<uint8>, i: nat, open: seq<uint8>, rest: seq<Event>)
    requires i <= |line|
    ensures Lines(LineFrom(line, i) + rest, open) == Lines(rest, open + line[i..])
    decreases |line| - i
  {
    if i == |line| {
      assert LineFrom(line, i) + rest == rest;
      assert open + line[i..] == open;
    } else {
      var x := PrintByte(line[i], i + 1 != |line|);
      LinesOfLine(line, i + 1, open + [line[i]], rest);
      Assoc([x], LineFrom(line, i + 1), rest);
      assert ([x] + (LineFrom(line, i + 1) + rest))[1..] == LineFrom(line, i + 1) + rest;
      SliceCons(line, i);
      Assoc(open, [line[i]], line[i + 1..]);
    }
  }

  /** Reading back a block gives its lines. */
  lemma {:induction false} BlockLines(lines: seq<seq<uint8>>)
    ensures Lines(Block(lines), []) == lines
    decreases |lines|
  {
    if lines != [] {
      var x := lines[0];
      assert [] + x[0..] == x;
      if |lines| == 1 {
        assert lines == [x];
        BlockSingle(x);
        LinesOfLine(x, 0, [], [NextLine(false, true)]);
        assert [NextLine(false, true)][1..] == [];
      } else {
        var rest := lines[1..];
        assert lines == [x] + rest;
        BlockCons(x, rest);
        Assoc(LineEvents(x), [NextLine(false, false)], Block(rest));
        LinesOfLine(x, 0, [], [NextLine(false, false)] + Block(rest));
        BlockLines(rest);
        assert ([NextLine(false, false)] + Block(rest))[1..] == Block(rest);
      }
    }
  }

  /**
   * A well-formed stream: each byte is followed by another event, and its `more` flag says
   * whether that event is a byte; each line break is unflagged, and is flagged last exactly
   * when it is the final event.
   */
  ghost predicate WellFormed(events: seq<Event>)
    decreases |events|
  {
    events != [] ==>
      && (match events[0]
          case PrintByte(_, more) => |events| > 1 && (more <==> events[1].PrintByte?)
          case NextLine(flag, last) => !flag && (last <==> |events| == 1))
      && WellFormed(events[1..])
  }

  /** The bytes of a line from byte i, followed by a well-formed stream that opens with a line break. */
  lemma {:induction false} LineWellFormed(line: seq<uint8>, i: nat, rest: seq<Event>)
    requires i <= |line| && rest != [] && rest[0].NextLine? && WellFormed(rest)
    ensures WellFormed(LineFrom(line, i) + rest)
    decreases |line| - i
  {
    if i == |line| {
      assert LineFrom(line, i) + rest == rest;
    } else {
      LineWellFormed(line, i + 1, rest);
      var x := PrintByte(line[i], i + 1 != |line|);
      Assoc([x], LineFrom(line, i + 1), rest);
      var e := [x] + (LineFrom(line, i + 1) + rest);
      assert e[1..] == LineFrom(line, i + 1) + rest;
      assert e[1] == if i + 1 < |line| then LineFrom(line, i + 1)[0] else rest[0];
    }
  }

  /** Every block is a well-formed stream. */
  lemma {:induction false} BlockWellFormed(lines: seq<seq<uint8>>)
    ensures WellFormed(Block(lines))
    decreases |lines|
  {
    if lines != [] {
      var x := lines[0];
      if |lines| == 1 {
        assert lines == [x];
        BlockSingle(x);
        assert WellFormed([NextLine(false, true)]) by {
          assert [NextLine(false, true)][1..] == [];
        }
        LineWellFormed(x, 0, [NextLine(false, true)]);
      } else {
        var rest := lines[1..];
        assert lines == [x] + rest;
        BlockCons(x, rest);
        Assoc(LineEvents(x), [NextLine(false, false)], Block(rest));
        BlockWellFormed(rest);
        var e := [NextLine(false, false)] + Block(rest);
        assert e[1..] == Block(rest);
        LineWellFormed(x, 0, e);
      }
    }
  }

  /**
   * What `output_array` prints: a well-formed stream whose lines are the image's rows, which
   * are its first `height * width` bytes in order.
   */
  lemma ArrayOutput(data: seq<uint8>, width: nat, height: nat)
    requires Times(height, width) <= |data|
    ensures WellFormed(Block(Rows(data, width, height)))
    ensures Lines(Block(Rows(data, width, height)), []) == Rows(data, width, height)
    ensures Flatten(Rows(data, width, height)) == data[..Times(height, width)]
  {
    BlockWellFormed(Rows(data, width, height));
    BlockLines(Rows(data, width, height));
    RowsCover(data, width, height);
  }

  /**
   * What `output_array_compressed` prints: a well-formed stream whose lines hold 32 bytes
   * each, except the last, and are the data in order.
   */
  lemma CompressedOutput(data: seq<uint8>)
    ensures var events := CompressedFrom(data, 0, 0) + [NextLine(false, true)];
            WellFormed(events) && Lines(events, []) == Chunks(data)
    ensures Flatten(Chunks(data)) == data
    ensures forall i :: 0 <= i < |Chunks(data)| - 1 ==> |Chunks(data)[i]| == 32
    ensures |Chunks(data)[|Chunks(data)| - 1]| <= 32
  {
    CompressedChunks(data);
    BlockWellFormed(Chunks(data));
    BlockLines(Chunks(data));
    ChunksCover(data);
  }
}
