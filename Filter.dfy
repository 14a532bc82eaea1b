/**
 * `remove_elements` of misc.c: compacts an array in place, dropping every byte equal to a
 * given value.
 */
module Filter {
  import opened Bytes

  /** `s` without its occurrences of `val`, in their original order. */
  function Without(s: seq<uint8>, val: uint8): (r: seq<uint8>)
    ensures |r| <= |s|
  {
    if s == [] then [] else Without(s[..|s| - 1], val) + (if s[|s| - 1] == val then [] else [s[|s| - 1]])
  }

  /** The number of occurrences of `val` in `s`. */
  function Count(s: seq<uint8>, val: uint8): nat
  {
    if s == [] then 0 else Count(s[..|s| - 1], val) + (if s[|s| - 1] == val then 1 else 0)
  }

  /** Nothing equal to `val` survives, and every other element does. */
  lemma {:induction false} WithoutRemoves(s: seq<uint8>, val: uint8)
    ensures forall x :: x in Without(s, val) ==> x != val && x in s
    ensures forall x :: x in s && x != val ==> x in Without(s, val)
    ensures |Without(s, val)| + Count(s, val) == |s|
  {
    if s != [] {
      var p := s[..|s| - 1];
      WithoutRemoves(p, val);
      assert s == p + [s[|s| - 1]];
    }
  }

  /** The kept elements and the removed copies of `val` are the original elements, as a multiset. */
  lemma {:induction false} WithoutPermutation(s: seq<uint8>, val: uint8)
    ensures multiset(Without(s, val)) + multiset(seq(Count(s, val), _ => val)) == multiset(s)
  {
    if s != [] {
      var p := s[..|s| - 1];
      WithoutPermutation(p, val);
      assert s == p + [s[|s| - 1]];
      var vals := seq(Count(p, val), _ => val);
      if s[|s| - 1] == val {
        assert seq(Count(s, val), _ => val) == vals + [val];
      } else {
        assert seq(Count(s, val), _ => val) == vals;
      }
    }
  }

  /** A sequence that holds no `val` is left as it is. */
  lemma {:induction false} WithoutIdempotent(s: seq<uint8>, val: uint8)
    ensures Without(Without(s, val), val) == Without(s, val)
  {
    if s != [] {
      var p := s[..|s| - 1];
      WithoutIdempotent(p, val);
      var w := Without(p, val);
      var x := s[|s| - 1];
      if x != val {
        var ws := w + [x];
        assert ws[..|ws| - 1] == w && ws[|ws| - 1] == x;
        assert Without(ws, val) == Without(w, val) + [x];
      } else {
        assert Without(s, val) == w + [] == w;
      }
    }
  }

  /**
   * `remove_elements`: copies every element of `array[..len]` that differs from `val` down to
   * the next free slot `l`, and returns `l` (`a` is the C code's `array`). The kept elements come first, in order; the
   * slots from `l` on are the ones the copy never reached.
   */
  method RemoveElements(a: array<uint8>, len: nat, val: uint8) returns (l: nat)
    requires len <= a.Length
    modifies a
    ensures l <= len
    ensures a[..l] == Without(old(a[..len]), val)
    ensures a[l..] == old(a[l..])
  {
    ghost var s0 := a[..];
    l := 0;
    var i := 0;
    while i < len
      invariant l <= i <= len
      invariant a[..l] == Without(s0[..i], val)
      invariant a[l..] == s0[l..]
    {
      WithoutStep(s0, i, val);
      assert a[i] == a[l..][i - l] == s0[i];
      if a[i] != val {
        KeepStep(a[..], s0, l, a[i]);
        a[l] := a[i];
        l := l + 1;
      }
      i := i + 1;
    }
    assert s0[..len] == old(a[..len]);
  }

  /** Scanning one more element: it is kept unless it equals `val`. */
  lemma WithoutStep(s: seq<uint8>, i: nat, val: uint8)
    requires i < |s|
    ensures Without(s[..i + 1], val) == Without(s[..i], val) + (if s[i] == val then [] else [s[i]])
  {
    assert s[..i + 1][..i] == s[..i];
  }

  /** Storing `x` at the next free slot `l` extends the kept prefix by `x` and leaves the slots after it. */
  lemma KeepStep(buf: seq<uint8>, s0: seq<uint8>, l: nat, x: uint8)
    requires l < |buf| == |s0| && buf[l..] == s0[l..]
    ensures buf[l := x][..l + 1] == buf[..l] + [x]
    ensures buf[l := x][l + 1..] == s0[l + 1..]
  {
    assert buf[l := x][l + 1..] == buf[l + 1..] == buf[l..][1..];
  }
}
