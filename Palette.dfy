/**
 * `force_color_index`: moves a chosen colour (typically the transparent one) to a fixed slot
 * of a quantized palette, growing the palette's length if the slot lies past its end.
 */
module Palette {
  import opened Bytes

  /** `liq_color`: compared byte for byte by `memcmp`, so two colours match when all four channels do. */
  datatype LiqColor = LiqColor(r: uint8, g: uint8, b: uint8, a: uint8)

  /**
   * `*pal_len` after the growth step: a slot past the end makes the palette reach it. As
   * written the test is `index > *pal_len`, so a slot just past the end (`index == *pal_len`)
   * does not grow the palette.
   */
  function GrownLength(palLen: nat, index: nat): (n: nat)
    ensures palLen <= n && (index < n || index == palLen)
  {
    if index > palLen then index + 1 else palLen
  }

  /** The growth step with `index >= *pal_len`: every slot the colour is moved to is inside the palette. */
  function GrownLengthFixed(palLen: nat, index: nat): (n: nat)
    ensures palLen <= n && index < n
  {
    if index >= palLen then index + 1 else palLen
  }

  /** The error branch: the slot lies past the end and a maximum palette length is set. */
  predicate OutsideMax(palLen: nat, maxPalLen: nat, index: nat)
  {
    index > palLen && maxPalLen != 0
  }

  /** The slot the linear search stops at: the first of the first n entries equal to `color`. */
  function FirstMatch(entries: seq<LiqColor>, color: LiqColor, n: nat): (j: nat)
    requires n <= |entries| && color in entries[..n]
    ensures j < n && entries[j] == color
    ensures forall k :: 0 <= k < j ==> entries[k] != color
  {
    if entries[0] == color then 0
    else
      assert color in entries[1..][..n - 1] by {
        assert entries[..n] == [entries[0]] + entries[1..][..n - 1];
      }
      1 + FirstMatch(entries[1..], color, n - 1)
  }

  /**
   * Where the search `for (j = 0; j < *pal_len; j++)` stops: at the first of the first n
   * entries equal to `color`, or at n when none is.
   */
  function SearchStop(entries: seq<LiqColor>, color: LiqColor, n: nat): (j: nat)
    requires n <= |entries|
    ensures j <= n && (j < n <==> color in entries[..n])
    ensures color in entries[..n] ==> j == FirstMatch(entries, color, n)
  {
    if color in entries[..n] then FirstMatch(entries, color, n) else n
  }

  /** The search can swap: the colour is among the first n entries, or entry n exists. */
  predicate Swappable(entries: seq<LiqColor>, color: LiqColor, n: nat, index: nat)
  {
    n <= |entries| && index < |entries| && (color in entries[..n] || n < |entries|)
  }

  /** The entries after the search over the first n and the swap into slot `index`. */
  function Forced(entries: seq<LiqColor>, color: LiqColor, n: nat, index: nat): (r: seq<LiqColor>)
    requires Swappable(entries, color, n, index)
    ensures |r| == |entries|
  {
    var j := SearchStop(entries, color, n);
    entries[j := entries[index]][index := entries[j]]
  }

  /**
   * `force_color_index`. On success, returns the new `*pal_len` and leaves the palette with
   * the first entry equal to `color` swapped into slot `index`, or, when `color` is not in the
   * palette, the entry just past its end; when the slot is past the end and `max_pal_len` is
   * set, it is the `errorf` abort and nothing changes.
   */
  method ForceColorIndex(color: LiqColor, entries: array<LiqColor>, palLen: nat, maxPalLen: nat, index: nat)
    returns (r: Result<nat>)
    requires !OutsideMax(palLen, maxPalLen, index) ==>
               Swappable(entries[..], color, GrownLength(palLen, index), index)
    modifies entries
    ensures OutsideMax(palLen, maxPalLen, index) ==>
              r == Err(IndexOutsideMaxPalette) && entries[..] == old(entries[..])
    ensures !OutsideMax(palLen, maxPalLen, index) ==>
              && r == Ok(GrownLength(palLen, index))
              && entries[..] == Forced(old(entries[..]), color, GrownLength(palLen, index), index)
  {
    var len := palLen;
    if index > len {
      if maxPalLen != 0 {
        return Err(IndexOutsideMaxPalette);
      }
      len := index + 1;
    }
    ghost var found := SearchStop(entries[..], color, len);
    var j := 0;
    while j < len && entries[j] != color
      invariant j <= found
      invariant forall k :: 0 <= k < j ==> entries[k] != color
    {
      j := j + 1;
    }
    var tmpc := entries[j];
    entries[j] := entries[index];
    entries[index] := tmpc;
    return Ok(len);
  }

  /**
   * What the swap achieves: slot `index` holds the colour, the slot the colour was found in
   * holds what `index` held, and every other entry is unchanged.
   */
  lemma ForcedEntries(entries: seq<LiqColor>, color: LiqColor, n: nat, index: nat)
    requires n <= |entries| && index < |entries| && color in entries[..n]
    ensures Forced(entries, color, n, index)[index] == color
    ensures Forced(entries, color, n, index)[FirstMatch(entries, color, n)] == entries[index]
    ensures forall k :: 0 <= k < |entries| && k != index && k != FirstMatch(entries, color, n) ==>
              Forced(entries, color, n, index)[k] == entries[k]
  {
  }

  /**
   * A colour that is not among the first n entries is not placed: the search runs off the end
   * and the swap exchanges slot `index` with slot n, so slot `index` gets entry n.
   */
  lemma ForcedAbsent(entries: seq<LiqColor>, color: LiqColor, n: nat, index: nat)
    requires n < |entries| && index < |entries| && color !in entries[..n]
    ensures Forced(entries, color, n, index)[index] == entries[n]
    ensures Forced(entries, color, n, index)[n] == entries[index]
    ensures forall k :: 0 <= k < |entries| && k != index && k != n ==> Forced(entries, color, n, index)[k] == entries[k]
  {
  }

  /**
   * A second identical call changes nothing. When slot `index` lies inside the palette the
   * colour is found again at `index` or before it; when `index == n` the colour sits in slot n,
   * and the search either finds an equal entry earlier or stops at slot n itself.
   */
  lemma ForceIdempotent(entries: seq<LiqColor>, color: LiqColor, n: nat, index: nat)
    requires n <= |entries| && index <= n && index < |entries| && color in entries[..n]
    ensures index < n ==> color in Forced(entries, color, n, index)[..n]
    ensures Forced(Forced(entries, color, n, index), color, n, index) == Forced(entries, color, n, index)
  {
    var once := Forced(entries, color, n, index);
    ForcedEntries(entries, color, n, index);
    var j := SearchStop(once, color, n);
    if j < n {
      assert once[j] == color == once[index];
    } else {
      assert j == index;
    }
    assert once[j := once[index]][index := once[j]] == once;
  }

  /**
   * A call that succeeds, with the colour in the palette, is repeated as a no-op: called again
   * with the length it returned, it takes no error branch, returns the same length and leaves
   * the palette as it is.
   */
  lemma ForceRepeat(entries: seq<LiqColor>, color: LiqColor, palLen: nat, maxPalLen: nat, index: nat)
    requires !OutsideMax(palLen, maxPalLen, index)
    requires GrownLength(palLen, index) <= |entries| && index < |entries|
    requires color in entries[..GrownLength(palLen, index)]
    ensures var n := GrownLength(palLen, index);
            && !OutsideMax(n, maxPalLen, index) && GrownLength(n, index) == n
            && Swappable(Forced(entries, color, n, index), color, n, index)
            && Forced(Forced(entries, color, n, index), color, n, index) == Forced(entries, color, n, index)
  {
    ForceIdempotent(entries, color, GrownLength(palLen, index), index);
  }

  /** As written, a call that does not hit the error branch returns a palette length that covers slot `index`, except when `index == *pal_len`. */
  lemma GrownLengthCovers(palLen: nat, index: nat)
    ensures index < GrownLength(palLen, index) <==> index != palLen
  {
  }

  /**
   * As written, with `index == *pal_len` the colour is moved to a slot outside the palette:
   * the one-entry palette [C] with slot 1 becomes [X], and C is only in slot 1.
   */
  lemma ForcePastEnd(c: LiqColor, x: LiqColor)
    requires c != x
    ensures GrownLength(1, 1) == 1 && [c, x][..1] == [c]
    ensures var once := Forced([c, x], c, GrownLength(1, 1), 1);
            once == [x, c] && c !in once[..GrownLength(1, 1)]
  {
    assert [c, x][..1] == [c];
    assert [x, c][..1] == [x];
  }

  /** With the corrected growth step, the colour always ends in slot `index`, inside the palette. */
  lemma ForceFixedInside(entries: seq<LiqColor>, color: LiqColor, palLen: nat, index: nat)
    requires GrownLengthFixed(palLen, index) <= |entries| && color in entries[..GrownLengthFixed(palLen, index)]
    ensures var n := GrownLengthFixed(palLen, index);
            index < n && Forced(entries, color, n, index)[..n][index] == color
  {
    ForcedEntries(entries, color, GrownLengthFixed(palLen, index), index);
  }
}
