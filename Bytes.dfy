/** Shared vocabulary of the encoder: bytes, truncation to `uint8_t`, error results. */
module Bytes {

  /** Failure causes that `errorf` reports before aborting the conversion. */
  datatype Error = UnexpectedBpp | IndexOutsideMaxPalette

  /** The outcome of an operation that may call `errorf`. */
  datatype Result<T> = Ok(value: T) | Err(error: Error)

  datatype Option<T> = None | Some(value: T)

  /** `uint8_t`. */
  newtype uint8 = x: int | 0 <= x < 256

  /** `uint16_t`. */
  newtype uint16 = x: int | 0 <= x < 65536

  /** Storing an unsigned value into a `uint8_t`: the low eight bits, the remainder modulo 256. */
  function Trunc8(n: nat): (b: uint8)
  {
    (n % 256) as uint8
  }

  /** A value that fits is stored unchanged. */
  lemma Trunc8Small(n: nat)
    requires n < 256
    ensures Trunc8(n) as nat == n
  {
  }

  /** A value below the modulus is its own remainder. */
  lemma SmallMod(w: nat, m: nat)
    requires w < m
    ensures w % m == w
  {
  }

  /** Euclidean division is unique: a quotient and remainder that rebuild `w` are its own. */
  lemma DivModOf(w: int, q: int, m: int, r: int)
    requires 0 <= r < m && w == q * m + r
    ensures w / m == q && w % m == r
  {
    var q', r' := w / m, w % m;
    assert (q - q') * m == r' - r;
    if q > q' {
      MulAtLeast(q - q', m);
    } else if q < q' {
      MulAtLeast(q' - q, m);
    }
  }

  lemma {:induction false} MulAtLeast(d: int, m: int)
    requires d >= 1 && m > 0
    ensures d * m >= m
    decreases d
  {
    if d > 1 {
      MulAtLeast(d - 1, m);
      assert d * m == (d - 1) * m + m;
    }
  }

  /** `w >> 8` of a `uint16_t`, stored into a `uint8_t`. */
  function HighByte(w: uint16): uint8
  {
    (w / 256) as uint8
  }

  /** `w & 255` of a `uint16_t`, stored into a `uint8_t`. */
  function LowByte(w: uint16): uint8
  {
    (w % 256) as uint8
  }

  /** The two halves of a `uint16_t`, high byte first, make up the word again. */
  lemma HighLowByte(w: uint16)
    ensures (HighByte(w) as int) * 256 + LowByte(w) as int == w as int
  {
  }

  function Pow2(n: nat): (r: nat)
    ensures r >= 1
  {
    if n == 0 then 1 else 2 * Pow2(n - 1)
  }

  /** C's `|` on unsigned values, bit by bit from the least significant one. */
  function BitOr(a: nat, b: nat): nat
    decreases a + b
  {
    if a == 0 then b
    else if b == 0 then a
    else 2 * BitOr(a / 2, b / 2) + (if a % 2 == 1 || b % 2 == 1 then 1 else 0)
  }

  /**
   * OR-ing a value below 2^s with a multiple of 2^s sets disjoint bits, so it adds them:
   * this is what makes shifted fields of a packed word independent.
   */
  lemma {:induction false} BitOrDisjoint(a: nat, b: nat, s: nat)
    requires a < Pow2(s)
    ensures BitOr(a, b * Pow2(s)) == a + b * Pow2(s)
  {
    if a != 0 && b != 0 {
      assert s > 0;
      var h := Pow2(s - 1);
      assert b * Pow2(s) == 2 * (b * h);
      assert (b * Pow2(s)) / 2 == b * h && (b * Pow2(s)) % 2 == 0;
      BitOrDisjoint(a / 2, b, s - 1);
    }
  }

  /**
   * `x | a` where x = b << s and a < 2^s, as `(hi << s) | lo` is written: the fields are
   * disjoint, so the OR is their sum.
   */
  lemma BitOrAbove(x: nat, b: nat, a: nat, s: nat, p: nat)
    requires p == Pow2(s) && x == b * p && a < p
    ensures BitOr(x, a) == x + a
  {
    BitOrComm(x, a);
    BitOrDisjoint(a, b, s);
  }

  lemma Pow2Values()
    ensures Pow2(5) == 32 && Pow2(10) == 1024 && Pow2(11) == 2048 && Pow2(15) == 32768
  {
    assert Pow2(5) == 32;
    assert Pow2(10) == 32 * Pow2(5) by {
      assert Pow2(10) == 2 * Pow2(9) && Pow2(9) == 2 * Pow2(8) && Pow2(8) == 2 * Pow2(7);
      assert Pow2(7) == 2 * Pow2(6) && Pow2(6) == 2 * Pow2(5);
    }
    assert Pow2(11) == 2 * Pow2(10);
    assert Pow2(15) == 32 * Pow2(10) by {
      assert Pow2(15) == 2 * Pow2(14) && Pow2(14) == 2 * Pow2(13) && Pow2(13) == 2 * Pow2(12);
      assert Pow2(12) == 2 * Pow2(11);
    }
  }

  lemma {:induction false} BitOrComm(a: nat, b: nat)
    ensures BitOr(a, b) == BitOr(b, a)
    decreases a + b
  {
    if a != 0 && b != 0 {
      BitOrComm(a / 2, b / 2);
    }
  }

  /** The buffer `buf` is `s0` with its first |w| elements replaced by `w`. */
  ghost predicate Written<T>(buf: seq<T>, s0: seq<T>, w: seq<T>)
  {
    |buf| == |s0| && |w| <= |buf| && buf[..|w|] == w && buf[|w|..] == s0[|w|..]
  }

  /** Storing x just after the written prefix extends that prefix by x. */
  lemma WrittenSnoc<T>(buf: seq<T>, s0: seq<T>, w: seq<T>, x: T)
    requires Written(buf, s0, w) && |w| < |buf|
    ensures Written(buf[|w| := x], s0, w + [x])
  {
    assert buf[|w| := x][..|w| + 1] == buf[..|w|] + [x];
  }

  /** Times(n, k) == n * k, stated by repeated addition so that loops stay in linear arithmetic. */
  function Times(n: nat, k: nat): (r: nat)
  {
    if n == 0 then 0 else Times(n - 1, k) + k
  }

  lemma {:induction false} TimesIsProduct(n: nat, k: nat)
    ensures Times(n, k) == n * k
  {
    if n > 0 {
      TimesIsProduct(n - 1, k);
      assert (n - 1) * k + k == n * k;
    }
  }

  lemma {:induction false} TimesMono(x: nat, y: nat, k: nat)
    requires x <= y
    ensures Times(x, k) <= Times(y, k)
    decreases y
  {
    if x < y {
      TimesMono(x, y - 1, k);
    }
  }

  lemma {:induction false} TimesAdd(a: nat, b: nat, k: nat)
    ensures Times(a + b, k) == Times(a, k) + Times(b, k)
    decreases b
  {
    if b > 0 {
      TimesAdd(a, b - 1, k);
    }
  }

  lemma {:induction false} TimesAssoc(j: nat, g: nat, k: nat)
    ensures Times(Times(j, g), k) == Times(j, Times(g, k))
  {
    if j > 0 {
      TimesAssoc(j - 1, g, k);
      TimesAdd(Times(j - 1, g), g, k);
    }
  }

  /** The first `rows` rows of an image `width` bytes wide: row i is bytes `i * width` up to `(i + 1) * width`. */
  function Rows(data: seq<uint8>, width: nat, rows: nat): (r: seq<seq<uint8>>)
    requires Times(rows, width) <= |data|
    ensures |r| == rows
  {
    seq(rows, i requires 0 <= i < rows => RowOf(data, width, rows, i))
  }

  function RowOf(data: seq<uint8>, width: nat, rows: nat, i: nat): (r: seq<uint8>)
    requires Times(rows, width) <= |data| && i < rows
    ensures Times(i + 1, width) <= |data|
    ensures r == data[Times(i, width)..Times(i + 1, width)]
  {
    TimesMono(i + 1, rows, width);
    data[Times(i, width)..Times(i + 1, width)]
  }

  /** One more row. */
  lemma RowsSnoc(data: seq<uint8>, width: nat, k: nat)
    requires Times(k + 1, width) <= |data|
    ensures Times(k, width) <= |data|
    ensures Rows(data, width, k + 1) == Rows(data, width, k) + [data[Times(k, width)..Times(k + 1, width)]]
  {
    TimesMono(k, k + 1, width);
  }

  /** The lines one after another. */
  function Flatten(lines: seq<seq<uint8>>): seq<uint8>
  {
    if lines == [] then [] else lines[0] + Flatten(lines[1..])
  }

  lemma FlattenCons(x: seq<uint8>, lines: seq<seq<uint8>>)
    ensures Flatten([x] + lines) == x + Flatten(lines)
  {
    assert ([x] + lines)[1..] == lines;
  }

  lemma {:induction false} FlattenSnoc(lines: seq<seq<uint8>>, x: seq<uint8>)
    ensures Flatten(lines + [x]) == Flatten(lines) + x
  {
    if lines == [] {
      assert [] + [x] == [x];
      assert Flatten([x]) == x + Flatten([]);
    } else {
      FlattenSnoc(lines[1..], x);
      assert (lines + [x])[1..] == lines[1..] + [x];
      Assoc(lines[0], Flatten(lines[1..]), x);
    }
  }

  /** Two lists of lines one after the other. */
  lemma {:induction false} FlattenAppend(a: seq<seq<uint8>>, b: seq<seq<uint8>>)
    ensures Flatten(a + b) == Flatten(a) + Flatten(b)
  {
    if a == [] {
      assert a + b == b;
    } else {
      FlattenAppend(a[1..], b);
      assert (a + b)[1..] == a[1..] + b;
      Assoc(a[0], Flatten(a[1..]), Flatten(b));
    }
  }

  /** From line `j` on: line `j`, then the lines after it. */
  lemma FlattenDrop(lines: seq<seq<uint8>>, j: nat)
    requires j < |lines|
    ensures Flatten(lines[j..]) == lines[j] + Flatten(lines[j + 1..])
  {
    assert lines[j..][1..] == lines[j + 1..];
  }

  /**
   * Line `j` sits in the flattened lines right after the lines before it, and taking one
   * line more adds its length.
   */
  lemma FlattenSlot(lines: seq<seq<uint8>>, j: nat)
    requires j < |lines|
    ensures |Flatten(lines[..j + 1])| == |Flatten(lines[..j])| + |lines[j]| <= |Flatten(lines)|
    ensures Flatten(lines)[|Flatten(lines[..j])|..|Flatten(lines[..j])| + |lines[j]|] == lines[j]
  {
    var before, after := lines[..j], lines[j + 1..];
    assert lines == before + [lines[j]] + after;
    assert lines[..j + 1] == before + [lines[j]];
    FlattenSnoc(before, lines[j]);
    FlattenAppend(before + [lines[j]], after);
    var f := Flatten(before) + lines[j] + Flatten(after);
    assert f[|Flatten(before)|..|Flatten(before)| + |lines[j]|] == lines[j];
  }

  /** Lines of at most `m` bytes each take at most `m` bytes a line. */
  lemma {:induction false} FlattenBound(lines: seq<seq<uint8>>, m: nat)
    requires forall i :: 0 <= i < |lines| ==> |lines[i]| <= m
    ensures |Flatten(lines)| <= Times(|lines|, m)
    decreases |lines|
  {
    if lines != [] {
      FlattenSnoc(lines[..|lines| - 1], lines[|lines| - 1]);
      assert lines[..|lines| - 1] + [lines[|lines| - 1]] == lines;
      FlattenBound(lines[..|lines| - 1], m);
    }
  }

  /** The rows of the image are its first `rows * width` bytes, in buffer order. */
  lemma {:induction false} RowsCover(data: seq<uint8>, width: nat, rows: nat)
    requires Times(rows, width) <= |data|
    ensures Flatten(Rows(data, width, rows)) == data[..Times(rows, width)]
  {
    if rows > 0 {
      TimesMono(rows - 1, rows, width);
      RowsCover(data, width, rows - 1);
      RowsSnoc(data, width, rows - 1);
      var x := data[Times(rows - 1, width)..Times(rows, width)];
      FlattenSnoc(Rows(data, width, rows - 1), x);
      assert data[..Times(rows - 1, width)] + x == data[..Times(rows, width)];
    }
  }

  lemma Assoc<T>(a: seq<T>, b: seq<T>, c: seq<T>)
    ensures a + b + c == a + (b + c)
  {
  }

  lemma SliceCons<T>(s: seq<T>, i: nat)
    requires i < |s|
    ensures s[i..] == [s[i]] + s[i + 1..]
  {
  }

  /** A slice of a slice is a slice of the whole. */
  lemma SubSlice<T>(s: seq<T>, a: nat, b: nat, c: nat, d: nat)
    requires a <= b <= |s| && c <= d <= b - a
    ensures s[a..b][c..d] == s[a + c..a + d]
  {
    forall k | 0 <= k < d - c
      ensures s[a..b][c..d][k] == s[a + c..a + d][k]
    {
      assert s[a..b][c..d][k] == s[a..b][c + k];
    }
  }

  /** A slice cut in two. */
  lemma SliceSplit<T>(s: seq<T>, a: nat, b: nat, c: nat)
    requires a <= b <= c <= |s|
    ensures s[a..c] == s[a..b] + s[b..c]
  {
    forall k | 0 <= k < c - a
      ensures s[a..c][k] == (s[a..b] + s[b..c])[k]
    {
      if k >= b - a {
        assert (s[a..b] + s[b..c])[k] == s[b..c][k - (b - a)];
      }
    }
  }
}
