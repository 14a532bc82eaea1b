/**
 * `set_image` of misc.c: appends a converted image to the growing block of an output image
 * and records its size.
 */
module Images {
  import opened Bytes

  /**
   * The block of an output image: the concatenated data of its images, the size of each, and
   * their total (`data_t`).
   */
  class Block {
    var data: seq<uint8>
    var sizes: seq<nat>
    var totalSize: nat

    /** `total_size` is the length of the data, and the data is the images one after another. */
    ghost predicate Valid()
      reads this
    {
      totalSize == |data| == Sum(sizes)
    }

    /** An empty block. */
    constructor ()
      ensures Valid() && data == [] && sizes == []
    {
      data := [];
      sizes := [];
      totalSize := 0;
    }

    /**
     * `set_image`: grows the data by `size` bytes, copies the image to the end, records its
     * size and adds it to the total.
     */
    method SetImage(image: seq<uint8>)
      requires Valid()
      modifies this
      ensures Valid()
      ensures data == old(data) + image && sizes == old(sizes) + [|image|]
    {
      var size := |image|;
      data := data + image;
      sizes := sizes + [size];
      SumSnoc(old(sizes), size);
      totalSize := totalSize + size;
    }
  }

  function Sum(s: seq<nat>): nat
  {
    if s == [] then 0 else Sum(s[..|s| - 1]) + s[|s| - 1]
  }

  lemma SumSnoc(s: seq<nat>, x: nat)
    ensures Sum(s + [x]) == Sum(s) + x
  {
    assert (s + [x])[..|s|] == s;
  }

  /** Image i of a block starts where the images before it end, and has its recorded size. */
  function ImageAt(data: seq<uint8>, sizes: seq<nat>, i: nat): (r: seq<uint8>)
    requires |data| == Sum(sizes) && i < |sizes|
    ensures |r| == sizes[i]
  {
    PrefixSum(sizes, i);
    data[Sum(sizes[..i])..Sum(sizes[..i]) + sizes[i]]
  }

  lemma {:induction false} PrefixSum(s: seq<nat>, i: nat)
    requires i < |s|
    ensures Sum(s[..i]) + s[i] <= Sum(s)
    decreases |s|
  {
    var p := s[..|s| - 1];
    if i < |s| - 1 {
      PrefixSum(p, i);
      assert p[..i] == s[..i];
    } else {
      assert s[..i] == p;
    }
  }

  /** Appending an image keeps every earlier image where it was. */
  lemma SetImageKeeps(data: seq<uint8>, sizes: seq<nat>, image: seq<uint8>, i: nat)
    requires |data| == Sum(sizes) && i < |sizes|
    ensures |data + image| == Sum(sizes + [|image|])
    ensures ImageAt(data + image, sizes + [|image|], i) == ImageAt(data, sizes, i)
  {
    SumSnoc(sizes, |image|);
    var sizes' := sizes + [|image|];
    assert sizes'[..i] == sizes[..i] && sizes'[i] == sizes[i];
    var start, end := Sum(sizes[..i]), Sum(sizes[..i]) + sizes[i];
    PrefixSum(sizes, i);
    assert (data + image)[start..end] == data[start..end];
  }

  /** The appended image is the last one of the block. */
  lemma SetImageLast(data: seq<uint8>, sizes: seq<nat>, image: seq<uint8>)
    requires |data| == Sum(sizes)
    ensures |data + image| == Sum(sizes + [|image|])
    ensures ImageAt(data + image, sizes + [|image|], |sizes|) == image
  {
    SumSnoc(sizes, |image|);
    var sizes' := sizes + [|image|];
    assert sizes'[..|sizes|] == sizes;
    var d := data + image;
    assert d[|data|..|data| + |image|] == image;
  }
}
