/**
 * `add_color_offsets`: the table of sentinel offsets that is appended behind an image. The
 * scan looks for the four sentinel bytes 247, 249, 251 and 253 and measures the distance from
 * each one to the one before it (the first from position 0). The distances are grouped: a group
 * opens with a 4-byte header (the distance as a big-endian 16-bit word, a skip code and a
 * group count) and goes on with one byte per further distance, as long as those fit a byte. A
 * distance above 255 opens the next group. The table ends with the byte `0x80`.
 */
module ColorOffsets {
  import opened Bytes

  /** The byte that closes the table. */
  const Terminator: uint8 := 0x80

  /** The four byte values that the scan reacts to. */
  predicate IsSentinel(b: uint8)
  {
    b == 247 || b == 249 || b == 251 || b == 253
  }

  /** The positions of the sentinel bytes of `s`, from left to right. */
  function Sentinels(s: seq<uint8>): (ps: seq<nat>)
    ensures forall k :: 0 <= k < |ps| ==> ps[k] < |s|
  {
    if s == [] then []
    else Sentinels(s[..|s| - 1]) + (if IsSentinel(s[|s| - 1]) then [|s| - 1] else [])
  }

  /** Exactly the positions that hold a sentinel, each once and in increasing order. */
  lemma {:induction false} SentinelsExact(s: seq<uint8>)
    ensures forall p: nat :: p in Sentinels(s) <==> p < |s| && IsSentinel(s[p])
    ensures forall j, k :: 0 <= j < k < |Sentinels(s)| ==> Sentinels(s)[j] < Sentinels(s)[k]
  {
    if s != [] {
      var t := s[..|s| - 1];
      SentinelsExact(t);
      assert forall p: nat :: p < |t| ==> s[p] == t[p];
    }
  }

  /** Where the last sentinel of `s` is, or 0 when there is none: the point `index` counts from. */
  function Previous(s: seq<uint8>): (p: nat)
    ensures p <= |s|
  {
    var ps := Sentinels(s);
    if ps == [] then 0 else ps[|ps| - 1]
  }

  /** The distance of each sentinel to the sentinel before it, or to position 0 for the first. */
  function Distances(s: seq<uint8>): (ds: seq<nat>)
    ensures |ds| == |Sentinels(s)|
  {
    if s == [] then []
    else
      var t := s[..|s| - 1];
      Distances(t) + (if IsSentinel(s[|s| - 1]) then [|t| - Previous(t)] else [])
  }

  /** How far the `k`th position lies beyond the one before it, or beyond 0 for the first. */
  function Gap(ps: seq<nat>, k: nat): int
    requires k < |ps|
  {
    ps[k] as int - (if k == 0 then 0 else ps[k - 1])
  }

  /** The distances are the gaps between consecutive sentinel positions. */
  lemma {:induction false} DistancesAreGaps(s: seq<uint8>)
    ensures forall k :: 0 <= k < |Distances(s)| ==> Gap(Sentinels(s), k) == Distances(s)[k]
  {
    if s != [] {
      var t := s[..|s| - 1];
      DistancesAreGaps(t);
      var ps, ds := Sentinels(t), Distances(t);
      if IsSentinel(s[|s| - 1]) {
        var ps', ds' := Sentinels(s), Distances(s);
        assert ps' == ps + [|t|] && ds' == ds + [|t| - Previous(t)];
        forall k | 0 <= k < |ds'|
          ensures Gap(ps', k) == ds'[k]
        {
          if k < |ds| {
            assert Gap(ps', k) == Gap(ps, k);
          }
        }
      } else {
        assert Sentinels(s) == ps && Distances(s) == ds;
      }
    }
  }

  /** Scanning one more byte: a sentinel adds its distance and becomes the new reference point. */
  lemma {:induction false} ScanStep(s: seq<uint8>, i: nat)
    requires i < |s|
    ensures var t, u := s[..i], s[..i + 1];
      if IsSentinel(s[i]) then Distances(u) == Distances(t) + [i - Previous(t)] && Previous(u) == i
      else Distances(u) == Distances(t) && Previous(u) == Previous(t)
  {
    assert s[..i + 1][..i] == s[..i];
  }

  /**
   * One header record and the distances stored after it: `lead` goes into the header, each of
   * `rest` into one byte.
   */
  datatype Group = Group(lead: nat, rest: seq<nat>)

  /** The distances cut into groups: a group opens at the first distance and at every distance above 255. */
  function Grouped(ds: seq<nat>): (gs: seq<Group>)
    ensures (gs == []) == (ds == [])
  {
    if ds == [] then []
    else
      var gs := Grouped(ds[..|ds| - 1]);
      var d := ds[|ds| - 1];
      if gs == [] || d > 255 then gs + [Group(d, [])]
      else gs[..|gs| - 1] + [Group(gs[|gs| - 1].lead, gs[|gs| - 1].rest + [d])]
  }

  /** The distances of the groups, one after another. */
  function Ungroup(gs: seq<Group>): seq<nat>
  {
    if gs == [] then [] else Ungroup(gs[..|gs| - 1]) + [gs[|gs| - 1].lead] + gs[|gs| - 1].rest
  }

  /** The groups hold the distances, in order. */
  lemma {:induction false} GroupedUngroup(ds: seq<nat>)
    ensures Ungroup(Grouped(ds)) == ds
  {
    if ds != [] {
      var init := ds[..|ds| - 1];
      var d := ds[|ds| - 1];
      GroupedUngroup(init);
      var gs := Grouped(init);
      assert ds == init + [d];
      if gs == [] || d > 255 {
        GroupedOpen(init, d);
        UngroupSnoc(gs, Group(d, []));
      } else {
        var g := gs[|gs| - 1];
        var done := gs[..|gs| - 1];
        assert gs == done + [g];
        GroupedExtend(init, d, done, g.lead, g.rest);
        UngroupSnoc(done, Group(g.lead, g.rest + [d]));
        UngroupSnoc(done, g);
      }
    }
  }

  lemma {:induction false} UngroupSnoc(gs: seq<Group>, g: Group)
    ensures Ungroup(gs + [g]) == Ungroup(gs) + [g.lead] + g.rest
  {
    assert (gs + [g])[..|gs|] == gs;
  }

  /**
   * A group past the first opens with a distance above 255, and every distance after a
   * group's first fits a byte.
   */
  ghost predicate Shaped(gs: seq<Group>)
  {
    forall k :: 0 <= k < |gs| ==> GroupShaped(gs[k], k)
  }

  ghost predicate GroupShaped(g: Group, k: nat)
  {
    (k > 0 ==> g.lead > 255) && forall j :: 0 <= j < |g.rest| ==> g.rest[j] <= 255
  }

  lemma {:induction false} GroupedShape(ds: seq<nat>)
    ensures Shaped(Grouped(ds))
  {
    if ds != [] {
      var init := ds[..|ds| - 1];
      var d := ds[|ds| - 1];
      GroupedShape(init);
      var gs := Grouped(init);
      assert ds == init + [d];
      if gs == [] || d > 255 {
        GroupedOpen(init, d);
        ShapedSnoc(gs, Group(d, []));
      } else {
        var g := gs[|gs| - 1];
        var done := gs[..|gs| - 1];
        ShapedInit(gs);
        GroupedExtend(init, d, done, g.lead, g.rest);
        ShapedSnoc(done, Group(g.lead, g.rest + [d]));
      }
    }
  }

  lemma {:induction false} ShapedSnoc(gs: seq<Group>, g: Group)
    requires Shaped(gs) && GroupShaped(g, |gs|)
    ensures Shaped(gs + [g])
  {
    assert forall k :: 0 <= k < |gs| ==> (gs + [g])[k] == gs[k];
  }

  lemma {:induction false} ShapedInit(gs: seq<Group>)
    requires Shaped(gs) && gs != []
    ensures gs == gs[..|gs| - 1] + [gs[|gs| - 1]]
    ensures Shaped(gs[..|gs| - 1]) && GroupShaped(gs[|gs| - 1], |gs| - 1)
  {
    assert forall k :: 0 <= k < |gs| - 1 ==> gs[..|gs| - 1][k] == gs[k];
  }

  /** A distance above 255, or the first one, opens a group of its own. */
  lemma {:induction false} GroupedOpen(ds: seq<nat>, d: nat)
    requires Grouped(ds) == [] || d > 255
    ensures Grouped(ds + [d]) == Grouped(ds) + [Group(d, [])]
  {
    assert (ds + [d])[..|ds|] == ds;
  }

  /** A distance that fits a byte joins the open group. */
  lemma {:induction false} GroupedExtend(ds: seq<nat>, d: nat, done: seq<Group>, lead: nat, rest: seq<nat>)
    requires Grouped(ds) == done + [Group(lead, rest)] && d <= 255
    ensures Grouped(ds + [d]) == done + [Group(lead, rest + [d])]
  {
    assert (ds + [d])[..|ds|] == ds;
    assert (done + [Group(lead, rest)])[..|done|] == done;
  }

  /** An unsigned int value as C keeps it: reduced modulo 2^32. */
  function Wrap32(x: int): nat
  {
    x % 0x1_0000_0000
  }

  /** The header's third byte, `-30 - ((amount - 1) % 8 * 5)`, in unsigned int and then stored into a `uint8_t`. */
  function SkipCode(amount: nat): uint8
  {
    Trunc8(Wrap32(-30 - Wrap32(amount - 1) % 8 * 5))
  }

  /** The header's fourth byte, `(amount - 1) / 8 + 1`, in unsigned int and then stored into a `uint8_t`. */
  function GroupCount(amount: nat): uint8
  {
    Trunc8(Wrap32(Wrap32(amount - 1) / 8 + 1))
  }

  /**
   * For a group of `amount` sentinels the skip code is 226 - 5 * ((amount - 1) % 8), that is
   * -30, -35, ..., -65 as a signed byte, and the count is the number of blocks of eight,
   * modulo 256.
   */
  lemma {:induction false} CodesOfGroup(amount: nat)
    requires 1 <= amount <= 0x1_0000_0000
    ensures SkipCode(amount) as int == 226 - 5 * ((amount - 1) % 8)
    ensures GroupCount(amount) as int == ((amount - 1) / 8 + 1) % 256
  {
    var r := (amount - 1) % 8;
    assert Wrap32(amount - 1) == amount - 1;
    DivModOf(-30 - r * 5, -1, 0x1_0000_0000, 0x1_0000_0000 - 30 - r * 5);
    DivModOf(0x1_0000_0000 - 30 - r * 5, 0xFF_FFFF, 256, 226 - 5 * r);
    var q := (amount - 1) / 8 + 1;
    assert q < 0x1_0000_0000;
  }

  /** With no sentinel at all the count wraps around: the codes become 191 and 0. */
  lemma {:induction false} CodesOfNoGroup()
    ensures SkipCode(0) == 191 && GroupCount(0) == 0
  {
    assert Wrap32(-1) == 0xFFFF_FFFF;
    assert Wrap32(-30 - 7 * 5) == 0xFFFF_FFBF;
    assert Wrap32(0xFFFF_FFFF / 8 + 1) == 0x2000_0000;
  }

  /** The group size that a skip code and a count stand for, if they stand for one. */
  function Amount(skip: uint8, count: uint8): Option<nat>
  {
    var r := 226 - skip as int;
    if count == 0 || r < 0 || r % 5 != 0 || r / 5 > 7 then None
    else Some(8 * (count as int - 1) + r / 5 + 1)
  }

  /** The codes of a group of up to 2040 sentinels give its size back. */
  lemma {:induction false} AmountOfCodes(amount: nat)
    requires 1 <= amount <= 2040
    ensures Amount(SkipCode(amount), GroupCount(amount)) == Some(amount)
  {
    CodesOfGroup(amount);
    var q := (amount - 1) / 8;
    assert q < 255;
    AmountOf(SkipCode(amount), GroupCount(amount), (amount - 1) % 8, q);
  }

  /** A group of 2041 sentinels wraps its count to 0, and its codes no longer give its size back. */
  lemma GroupCountWraps()
    ensures GroupCount(2041) == 0 && Amount(SkipCode(2041), GroupCount(2041)) == None
  {
    CodesOfGroup(2041);
  }

  lemma {:induction false} AmountOf(skip: uint8, count: uint8, m: nat, q: nat)
    requires m < 8 && skip as int == 226 - 5 * m && count as int == q + 1
    ensures Amount(skip, count) == Some(8 * q + m + 1)
  {
    assert 226 - skip as int == 5 * m;
  }

  /** The bytes stored for the distances after a group's first: `array[new_length++] = index`. */
  function Offsets(rest: seq<nat>): (r: seq<uint8>)
    ensures |r| == |rest|
  {
    seq(|rest|, k requires 0 <= k < |rest| => Trunc8(rest[k]))
  }

  /** The header `index >> 8`, `index & 0xFF`, skip code, count; then the group's other distances. */
  function GroupBytes(g: Group): (r: seq<uint8>)
    ensures |r| == 4 + |g.rest|
  {
    [Trunc8(g.lead / 256), Trunc8(g.lead), SkipCode(|g.rest| + 1), GroupCount(|g.rest| + 1)] + Offsets(g.rest)
  }

  /** The groups' bytes one after another. */
  function Table(gs: seq<Group>): seq<uint8>
  {
    if gs == [] then [] else GroupBytes(gs[0]) + Table(gs[1..])
  }

  lemma {:induction false} TableSnoc(gs: seq<Group>, g: Group)
    ensures Table(gs + [g]) == Table(gs) + GroupBytes(g)
  {
    if gs == [] {
      assert [] + [g] == [g];
      assert Table([g]) == GroupBytes(g) + Table([]);
    } else {
      TableSnoc(gs[1..], g);
      assert (gs + [g])[1..] == gs[1..] + [g];
      Assoc(GroupBytes(gs[0]), Table(gs[1..]), GroupBytes(g));
    }
  }

  /** A header per group and a byte per further distance. */
  lemma {:induction false} TableLength(gs: seq<Group>)
    ensures |Table(gs)| == |Ungroup(gs)| + 3 * |gs|
  {
    if gs != [] {
      var init := gs[..|gs| - 1];
      TableLength(init);
      assert gs == init + [gs[|gs| - 1]];
      TableSnoc(init, gs[|gs| - 1]);
    }
  }

  /** The table of the sentinels of `s`. */
  function TableOf(s: seq<uint8>): seq<Group>
  {
    Grouped(Distances(s))
  }

  /**
   * How many bytes behind `len` the table takes up before its terminator: the four bytes of
   * the first header are set aside even when no sentinel opens it.
   */
  function Extent(s: seq<uint8>): (n: nat)
    ensures n >= 4
  {
    var gs := TableOf(s);
    if gs == [] then 4 else |Table(gs)|
  }

  /** The number of bytes `add_color_offsets` adds behind the image: the table and its terminator. */
  function OffsetsLength(s: seq<uint8>): nat
  {
    Extent(s) + 1
  }

  /**
   * Reading one group back from the front of `t`: the header gives the distance and, through
   * its codes, how many distances of one byte follow it. The result holds the group and the
   * number of bytes it took.
   */
  function DecodeGroup(t: seq<uint8>): (r: Option<(Group, nat)>)
    ensures r.Some? ==> 4 <= r.value.1 <= |t|
  {
    if |t| < 4 then None
    else match Amount(t[2], t[3])
      case None => None
      case Some(amount) =>
        if |t| < 3 + amount then None
        else Some((Group(t[0] as nat * 256 + t[1] as nat, Widen(t[4..3 + amount])), 3 + amount))
  }

  /** Reading the whole table back: groups until only the terminator is left. */
  function DecodeTable(t: seq<uint8>): Option<seq<Group>>
    decreases |t|
  {
    if t == [Terminator] then Some([])
    else match DecodeGroup(t)
      case None => None
      case Some((g, n)) =>
        match DecodeTable(t[n..])
        case None => None
        case Some(gs) => Some([g] + gs)
  }

  /** A group that the table can hold without losing bits. */
  predicate Storable(g: Group)
  {
    g.lead < 65536 && |g.rest| < 2040 && forall k :: 0 <= k < |g.rest| ==> g.rest[k] < 256
  }

  /** The header's first two bytes give a 16-bit distance back. */
  lemma {:induction false} LeadRoundTrip(lead: nat)
    requires lead < 65536
    ensures Trunc8(lead / 256) as nat * 256 + Trunc8(lead) as nat == lead
  {
    Trunc8Small(lead / 256);
  }

  /** Byte values as numbers. */
  function Widen(b: seq<uint8>): (r: seq<nat>)
    ensures |r| == |b|
  {
    seq(|b|, k requires 0 <= k < |b| => b[k] as nat)
  }

  /** The bytes after the header give the distances of one byte back. */
  lemma {:induction false} OffsetsRoundTrip(rest: seq<nat>)
    requires forall k :: 0 <= k < |rest| ==> rest[k] < 256
    ensures Widen(Offsets(rest)) == rest
  {
    forall k | 0 <= k < |rest|
      ensures Widen(Offsets(rest))[k] == rest[k]
    {
      Trunc8Small(rest[k]);
    }
  }

  /** A group is read back from in front of whatever follows it. */
  lemma {:induction false} GroupDecodes(g: Group, more: seq<uint8>)
    requires Storable(g)
    ensures DecodeGroup(GroupBytes(g) + more) == Some((g, |GroupBytes(g)|))
  {
    var t := GroupBytes(g) + more;
    var amount := |g.rest| + 1;
    assert t[2] == SkipCode(amount) && t[3] == GroupCount(amount) by {
      assert t[..4] == GroupBytes(g)[..4];
    }
    AmountOfCodes(amount);
    assert t[0] as nat * 256 + t[1] as nat == g.lead by {
      assert t[0] == Trunc8(g.lead / 256) && t[1] == Trunc8(g.lead);
      LeadRoundTrip(g.lead);
    }
    assert Widen(t[4..3 + amount]) == g.rest by {
      assert t[4..3 + amount] == Offsets(g.rest);
      OffsetsRoundTrip(g.rest);
    }
    DecodeGroupOf(t, g);
  }

  /** A header whose bytes stand for `g`, and the bytes that follow it, read back as `g`. */
  lemma {:induction false} DecodeGroupOf(t: seq<uint8>, g: Group)
    requires |t| >= 4 + |g.rest| && Amount(t[2], t[3]) == Some(|g.rest| + 1)
    requires t[0] as nat * 256 + t[1] as nat == g.lead && Widen(t[4..4 + |g.rest|]) == g.rest
    ensures DecodeGroup(t) == Some((g, 4 + |g.rest|))
  {
  }

  /** One group read back from in front of the rest of the table. */
  lemma {:induction false} GroupRoundTrip(g: Group, more: seq<uint8>, gs: seq<Group>)
    requires Storable(g) && DecodeTable(more) == Some(gs)
    ensures DecodeTable(GroupBytes(g) + more) == Some([g] + gs)
  {
    var t := GroupBytes(g) + more;
    GroupDecodes(g, more);
    assert t[|GroupBytes(g)|..] == more;
    assert t != [Terminator];
  }

  /** The table followed by its terminator reads back as the groups it was made from. */
  lemma {:induction false} TableRoundTrip(gs: seq<Group>)
    requires forall k :: 0 <= k < |gs| ==> Storable(gs[k])
    ensures DecodeTable(Table(gs) + [Terminator]) == Some(gs)
  {
    if gs != [] {
      TableRoundTrip(gs[1..]);
      Assoc(GroupBytes(gs[0]), Table(gs[1..]), [Terminator]);
      GroupRoundTrip(gs[0], Table(gs[1..]) + [Terminator], gs[1..]);
      assert [gs[0]] + gs[1..] == gs;
    }
  }

  /**
   * When every distance fits 16 bits and no group holds more than 2040 sentinels, the table
   * and its terminator read back as the distances between the sentinels of `s`, so as their
   * positions.
   */
  lemma {:induction false} SentinelTableRoundTrip(s: seq<uint8>)
    requires forall d :: d in Distances(s) ==> d < 65536
    requires forall k :: 0 <= k < |TableOf(s)| ==> |TableOf(s)[k].rest| < 2040
    ensures DecodeTable(Table(TableOf(s)) + [Terminator]) == Some(TableOf(s))
    ensures Ungroup(TableOf(s)) == Distances(s)
  {
    var gs := TableOf(s);
    GroupedUngroup(Distances(s));
    GroupedShape(Distances(s));
    UngroupHolds(gs);
    forall k | 0 <= k < |gs|
      ensures Storable(gs[k])
    {
      assert GroupShaped(gs[k], k);
    }
    TableRoundTrip(gs);
  }

  /** Every distance of every group is among the distances of the groups. */
  lemma {:induction false} UngroupHolds(gs: seq<Group>)
    ensures forall k :: 0 <= k < |gs| ==> gs[k].lead in Ungroup(gs) && forall j :: 0 <= j < |gs[k].rest| ==> gs[k].rest[j] in Ungroup(gs)
  {
    if gs != [] {
      var init := gs[..|gs| - 1];
      UngroupHolds(init);
      assert forall k :: 0 <= k < |init| ==> gs[k] == init[k];
      var g := gs[|gs| - 1];
      assert Ungroup(gs) == Ungroup(init) + [g.lead] + g.rest;
      assert forall j :: 0 <= j < |g.rest| ==> g.rest[j] == Ungroup(gs)[|Ungroup(init)| + 1 + j];
    }
  }

  /** With no sentinel in `s`, the table is empty and takes the five bytes of a bare header and the terminator. */
  lemma {:induction false} NoSentinelNoTable(s: seq<uint8>)
    requires forall k :: 0 <= k < |s| ==> !IsSentinel(s[k])
    ensures TableOf(s) == [] && OffsetsLength(s) == 5
  {
    SentinelsExact(s);
    if Sentinels(s) != [] {
      assert Sentinels(s)[0] in Sentinels(s);
    }
  }

  /** The first header holds the position of the first sentinel, as a big-endian 16-bit word. */
  lemma {:induction false} FirstHeader(s: seq<uint8>)
    requires Sentinels(s) != []
    ensures var p := Sentinels(s)[0];
      |Table(TableOf(s))| >= 2 && Table(TableOf(s))[..2] == [Trunc8(p / 256), Trunc8(p)]
  {
    var ds := Distances(s);
    DistancesAreGaps(s);
    assert Gap(Sentinels(s), 0) == ds[0];
    GroupedUngroup(ds);
    var gs := TableOf(s);
    assert gs[0].lead == ds[0] by {
      UngroupHead(gs);
    }
    assert Table(gs) == GroupBytes(gs[0]) + Table(gs[1..]);
  }

  /** The distances start with the first group's. */
  lemma {:induction false} UngroupHead(gs: seq<Group>)
    requires gs != []
    ensures |Ungroup(gs)| > 0 && Ungroup(gs)[0] == gs[0].lead
  {
    var init := gs[..|gs| - 1];
    if init != [] {
      UngroupHead(init);
    }
  }

  /** Scanning one more byte never shrinks the table. */
  lemma {:induction false} ExtentStep(s: seq<uint8>, i: nat)
    requires i < |s|
    ensures Extent(s[..i]) <= Extent(s[..i + 1])
  {
    ScanStep(s, i);
    var ds := Distances(s[..i]);
    var gs := Grouped(ds);
    if IsSentinel(s[i]) {
      var d := i - Previous(s[..i]);
      if gs == [] || d > 255 {
        GroupedOpen(ds, d);
        TableSnoc(gs, Group(d, []));
      } else {
        var done := gs[..|gs| - 1];
        var g := gs[|gs| - 1];
        assert gs == done + [g];
        GroupedExtend(ds, d, done, g.lead, g.rest);
        TableSnoc(done, g);
        TableSnoc(done, Group(g.lead, g.rest + [d]));
      }
    }
  }

  /** The table of a prefix is no larger than the table of the whole. */
  lemma {:induction false} ExtentMono(s: seq<uint8>, i: nat, n: nat)
    requires i <= n <= |s|
    ensures Extent(s[..i]) <= Extent(s[..n])
    decreases n - i
  {
    if i < n {
      ExtentStep(s, i);
      ExtentMono(s, i + 1, n);
    }
  }

  /**
   * The buffer while the scan is under way: the bytes before `len` as they were, the groups
   * closed so far, the open group's header, of which only the distance is written yet, the
   * bytes of its further distances, and the old bytes after them.
   */
  ghost function Filled(s0: seq<uint8>, len: nat, done: seq<Group>, lead: nat, rest: seq<nat>): (r: seq<uint8>)
    requires len + |Table(done)| + 4 + |rest| <= |s0|
    ensures |r| == |s0| && r[..len] == s0[..len]
  {
    var h := len + |Table(done)|;
    s0[..len] + Table(done) + [Trunc8(lead / 256), Trunc8(lead), s0[h + 2], s0[h + 3]] + Offsets(rest) + s0[h + 4 + |rest|..]
  }

  /** Storing into the first byte of `b`. */
  lemma {:induction false} PutAt<T>(a: seq<T>, b: seq<T>, x: T)
    requires |b| > 0
    ensures (a + b)[|a| := x] == a + [x] + b[1..]
  {
  }

  /** Storing into the last two bytes of a header. */
  lemma {:induction false} PatchHeader<T>(a: seq<T>, x0: T, x1: T, x2: T, x3: T, b: seq<T>, y2: T, y3: T)
    ensures (a + [x0, x1, x2, x3] + b)[|a| + 2 := y2][|a| + 3 := y3] == a + [x0, x1, y2, y3] + b
  {
  }

  /** The first sentinel: its distance goes into the header reserved at `len`. */
  lemma {:induction false} FilledFirst(s0: seq<uint8>, len: nat, d: nat)
    requires len + 4 <= |s0|
    ensures s0[len := Trunc8(d / 256)][len + 1 := Trunc8(d)] == Filled(s0, len, [], d, [])
  {
    assert Table([]) == [] && Offsets([]) == [];
    assert s0 == s0[..len] + [s0[len], s0[len + 1], s0[len + 2], s0[len + 3]] + s0[len + 4..];
  }

  /** A further distance that fits a byte: it goes right after the open group. */
  lemma {:induction false} FilledExtend(s0: seq<uint8>, len: nat, done: seq<Group>, lead: nat, rest: seq<nat>, d: nat, h: nat, n: nat)
    requires h == len + |Table(done)| && n == h + 4 + |rest| && n < |s0|
    ensures Filled(s0, len, done, lead, rest)[n := Trunc8(d)] == Filled(s0, len, done, lead, rest + [d])
  {
    var front := s0[..len] + Table(done) + [Trunc8(lead / 256), Trunc8(lead), s0[h + 2], s0[h + 3]];
    PutAt(front + Offsets(rest), s0[n..], Trunc8(d));
    assert s0[n..][1..] == s0[n + 1..];
    assert Offsets(rest + [d]) == Offsets(rest) + [Trunc8(d)];
  }

  /** A distance above 255: the open group gets its codes, and a new header opens after it. */
  lemma {:induction false} FilledClose(s0: seq<uint8>, len: nat, done: seq<Group>, lead: nat, rest: seq<nat>, d: nat, h: nat, n: nat, amount: nat)
    requires h == len + |Table(done)| && n == h + 4 + |rest| && amount == |rest| + 1 && n + 4 <= |s0|
    ensures n == len + |Table(done + [Group(lead, rest)])|
    ensures Filled(s0, len, done, lead, rest)[h + 2 := SkipCode(amount)][h + 3 := GroupCount(amount)]
        [n := Trunc8(d / 256)][n + 1 := Trunc8(d)] == Filled(s0, len, done + [Group(lead, rest)], d, [])
  {
    var g := Group(lead, rest);
    var x := Filled(s0, len, done, lead, rest)[h + 2 := SkipCode(amount)][h + 3 := GroupCount(amount)];
    var q := s0[..len] + Table(done + [g]);
    assert x == q + s0[n..] by {
      FilledClosedIs(s0, len, done, lead, rest, h, n, amount);
    }
    assert |q| == n;
    assert x[n := Trunc8(d / 256)][n + 1 := Trunc8(d)] == q + [Trunc8(d / 256), Trunc8(d), s0[n + 2], s0[n + 3]] + s0[n + 4..] by {
      OpenAt(q, s0[n..], Trunc8(d / 256), Trunc8(d));
      assert s0[n..][4..] == s0[n + 4..];
    }
    FilledOpen(s0, len, done + [g], d, q, n);
  }

  /** A header just opened: the groups before it, its distance, two old bytes, then the old bytes after it. */
  lemma FilledOpen(s0: seq<uint8>, len: nat, done: seq<Group>, d: nat, q: seq<uint8>, n: nat)
    requires len + |Table(done)| + 4 <= |s0| && q == s0[..len] + Table(done) && n == |q|
    ensures Filled(s0, len, done, d, []) == q + [Trunc8(d / 256), Trunc8(d), s0[n + 2], s0[n + 3]] + s0[n + 4..]
  {
    assert Offsets([]) == [];
  }

  /** Storing into the first two bytes of a header that opens at the start of `b`. */
  lemma {:induction false} OpenAt<T>(a: seq<T>, b: seq<T>, x0: T, x1: T)
    requires |b| >= 4
    ensures (a + b)[|a| := x0][|a| + 1 := x1] == a + [x0, x1, b[2], b[3]] + b[4..]
  {
  }

  /** The open group with its codes stored: the groups up to it, then the old bytes after it. */
  lemma {:induction false} FilledClosedIs(s0: seq<uint8>, len: nat, done: seq<Group>, lead: nat, rest: seq<nat>, h: nat, n: nat, amount: nat)
    requires h == len + |Table(done)| && n == h + 4 + |rest| && amount == |rest| + 1 && n <= |s0|
    ensures Filled(s0, len, done, lead, rest)[h + 2 := SkipCode(amount)][h + 3 := GroupCount(amount)]
        == s0[..len] + Table(done + [Group(lead, rest)]) + s0[n..]
  {
    var p := s0[..len] + Table(done);
    var hd := [Trunc8(lead / 256), Trunc8(lead), s0[h + 2], s0[h + 3]];
    PatchHeader(p, hd[0], hd[1], hd[2], hd[3], Offsets(rest) + s0[n..], SkipCode(amount), GroupCount(amount));
    TableSnoc(done, Group(lead, rest));
  }

  /** The end of the scan: the open group gets its codes and the terminator follows it. */
  lemma {:induction false} FilledFinish(s0: seq<uint8>, len: nat, done: seq<Group>, lead: nat, rest: seq<nat>, h: nat, n: nat, amount: nat)
    requires h == len + |Table(done)| && n == h + 4 + |rest| && amount == |rest| + 1 && n < |s0|
    ensures Filled(s0, len, done, lead, rest)[h + 2 := SkipCode(amount)][h + 3 := GroupCount(amount)][n := Terminator]
        == s0[..len] + Table(done + [Group(lead, rest)]) + [Terminator] + s0[n + 1..]
  {
    var q := s0[..len] + Table(done + [Group(lead, rest)]);
    FilledClosedIs(s0, len, done, lead, rest, h, n, amount);
    TableSnoc(done, Group(lead, rest));
    assert |q| == n;
    PutAt(q, s0[n..], Terminator);
    assert s0[n..][1..] == s0[n + 1..];
  }

  /**
   * The state of the scan after the first `i` bytes, apart from the buffer: `index` counts
   * from the last sentinel, the table of those bytes reaches up to `newLength`, `header` is
   * where the header of its open group is, `amount` how many sentinels that group holds. The
   * buffer has room for the table of all `len` bytes and its terminator.
   */
  ghost predicate Tabled(s0: seq<uint8>, len: nat, i: nat, index: nat, header: nat, newLength: nat,
                         amount: nat, done: seq<Group>, lead: nat, rest: seq<nat>)
  {
    i <= len <= |s0| && Fits(s0, len)
    && index == i - Previous(s0[..i])
    && (amount == 0 ==> TableOf(s0[..i]) == [] && header == len && newLength == len + 4)
    && (amount > 0 ==>
          TableOf(s0[..i]) == done + [Group(lead, rest)] && amount == |rest| + 1
          && header == len + |Table(done)| && newLength == header + 4 + |rest|)
  }

  /** The buffer has room behind `len` for the table of each prefix of the first `len` bytes, and its terminator. */
  ghost predicate Fits(s0: seq<uint8>, len: nat)
  {
    len <= |s0| && forall k {:trigger Extent(s0[..k])} :: 0 <= k <= len ==> len + Extent(s0[..k]) < |s0|
  }

  /** Room for the table of all `len` bytes is room for the table of each prefix. */
  lemma {:induction false} FitsFrom(s0: seq<uint8>, len: nat)
    requires len <= |s0| && len + Extent(s0[..len]) < |s0|
    ensures Fits(s0, len)
  {
    forall k | 0 <= k <= len
      ensures len + Extent(s0[..k]) < |s0|
    {
      ExtentMono(s0, k, len);
    }
  }

  /**
   * The buffer during the scan: untouched before the first sentinel, afterwards the table
   * written but for the codes of the open group.
   */
  ghost predicate Holds(buf: seq<uint8>, s0: seq<uint8>, len: nat, amount: nat, done: seq<Group>, lead: nat, rest: seq<nat>)
  {
    |buf| == |s0| && len <= |s0| && buf[..len] == s0[..len]
    && if amount == 0 then buf == s0
       else len + |Table(done)| + 4 + |rest| <= |s0| && buf == Filled(s0, len, done, lead, rest)
  }

  /** A byte that is not a sentinel changes nothing but the count since the last sentinel. */
  lemma {:induction false} TabledSkip(s0: seq<uint8>, len: nat, i: nat, index: nat, header: nat, newLength: nat,
                   amount: nat, done: seq<Group>, lead: nat, rest: seq<nat>)
    requires Tabled(s0, len, i, index, header, newLength, amount, done, lead, rest)
    requires i < len && !IsSentinel(s0[i])
    ensures Tabled(s0, len, i + 1, index + 1, header, newLength, amount, done, lead, rest)
  {
    ScanStep(s0, i);
  }

  /** The first sentinel opens the first group. */
  lemma {:induction false} TabledFirst(s0: seq<uint8>, len: nat, i: nat, index: nat, done: seq<Group>, lead: nat, rest: seq<nat>)
    requires Tabled(s0, len, i, index, len, len + 4, 0, done, lead, rest)
    requires i < len && IsSentinel(s0[i])
    ensures len + 4 < |s0|
    ensures Tabled(s0, len, i + 1, 1, len, len + 4, 1, [], index, [])
  {
    var t, u := s0[..i], s0[..i + 1];
    ScanStep(s0, i);
    assert Distances(u) == Distances(t) + [index];
    GroupedOpen(Distances(t), index);
    assert TableOf(u) == [Group(index, [])] by {
      assert [] + [Group(index, [])] == [Group(index, [])];
    }
    assert |Table([Group(index, [])])| == 4 by {
      assert Table([Group(index, [])]) == GroupBytes(Group(index, [])) + Table([]);
    }
    assert Extent(u) == 4;
  }

  /** A distance that fits a byte is appended to the open group. */
  lemma {:induction false} TabledExtend(s0: seq<uint8>, len: nat, i: nat, index: nat, header: nat, newLength: nat,
                     amount: nat, done: seq<Group>, lead: nat, rest: seq<nat>)
    requires Tabled(s0, len, i, index, header, newLength, amount, done, lead, rest)
    requires i < len && IsSentinel(s0[i]) && amount > 0 && index <= 255
    ensures newLength < |s0|
    ensures Tabled(s0, len, i + 1, 1, header, newLength + 1, amount + 1, done, lead, rest + [index])
  {
    var t, u := s0[..i], s0[..i + 1];
    var g' := Group(lead, rest + [index]);
    ScanStep(s0, i);
    assert Distances(u) == Distances(t) + [index];
    GroupedExtend(Distances(t), index, done, lead, rest);
    assert TableOf(u) == done + [g'];
    assert |Table(done + [g'])| == |Table(done)| + 4 + |rest| + 1 by {
      TableSnoc(done, g');
    }
    assert Extent(u) == |Table(done + [g'])|;
  }

  /** A distance above 255 closes the open group and opens the next one. */
  lemma {:induction false} TabledClose(s0: seq<uint8>, len: nat, i: nat, index: nat, newLength: nat,
                    done: seq<Group>, lead: nat, rest: seq<nat>)
    requires i < len <= |s0| && Fits(s0, len)
    requires IsSentinel(s0[i]) && index == i - Previous(s0[..i]) && index > 255
    requires TableOf(s0[..i]) == done + [Group(lead, rest)]
    requires newLength == len + |Table(done)| + 4 + |rest|
    ensures newLength + 4 < |s0|
    ensures Tabled(s0, len, i + 1, 1, newLength, newLength + 4, 1, done + [Group(lead, rest)], index, [])
  {
    var closed := done + [Group(lead, rest)];
    CloseStep(s0, i, index, closed);
    assert |Table(closed)| == |Table(done)| + 4 + |rest| by {
      TableSnoc(done, Group(lead, rest));
    }
    TabledOpen(s0, len, i, index, newLength, closed);
  }

  /** The state right after a sentinel that opens a group behind the groups `closed`. */
  lemma {:induction false} TabledOpen(s0: seq<uint8>, len: nat, i: nat, index: nat, header: nat, closed: seq<Group>)
    requires i < len <= |s0| && Fits(s0, len)
    requires Previous(s0[..i + 1]) == i && TableOf(s0[..i + 1]) == closed + [Group(index, [])]
    requires header == len + |Table(closed)|
    ensures Tabled(s0, len, i + 1, 1, header, header + 4, 1, closed, index, [])
  {
  }

  /** The table after a sentinel more than 255 bytes from the one before it: one more group. */
  lemma {:induction false} CloseStep(s0: seq<uint8>, i: nat, index: nat, closed: seq<Group>)
    requires i < |s0| && IsSentinel(s0[i]) && index == i - Previous(s0[..i]) && index > 255
    requires TableOf(s0[..i]) == closed && closed != []
    ensures Previous(s0[..i + 1]) == i
    ensures TableOf(s0[..i + 1]) == closed + [Group(index, [])]
    ensures Extent(s0[..i + 1]) == |Table(closed)| + 4
  {
    var t, u := s0[..i], s0[..i + 1];
    ScanStep(s0, i);
    assert Distances(u) == Distances(t) + [index];
    GroupedOpen(Distances(t), index);
    TableSnoc(closed, Group(index, []));
  }

  /**
   * `add_color_offsets`: scans `a[..len]` for sentinels and writes their table behind `len`,
   * then the terminator; returns the length of the whole, image and table. The bytes before
   * `len` are left as they are. With no sentinel, only the codes of the reserved header and
   * the terminator are written. The buffer must have room for the table.
   */
  method AddColorOffsets(a: array<uint8>, len: nat) returns (newLength: nat)
    requires len <= a.Length && len + OffsetsLength(a[..len]) <= a.Length
    modifies a
    ensures newLength == len + OffsetsLength(old(a[..len]))
    ensures TableOf(old(a[..len])) == [] ==>
      a[..] == old(a[..])[len + 2 := SkipCode(0)][len + 3 := GroupCount(0)][len + 4 := Terminator]
    ensures TableOf(old(a[..len])) != [] ==>
      a[..] == old(a[..len]) + Table(TableOf(old(a[..len]))) + [Terminator] + old(a[newLength..])
  {
    ghost var s0 := a[..];
    ghost var done: seq<Group> := [];
    ghost var lead: nat := 0;
    ghost var rest: seq<nat> := [];
    var index := 0;
    newLength := len + 4;
    var header := len;
    var amount := 0;
    var first := true;
    var i := 0;
    assert s0[..len] == old(a[..len]);
    ScanStart(s0, len);
    while i < len
      invariant Tabled(s0, len, i, index, header, newLength, amount, done, lead, rest)
      invariant Holds(a[..], s0, len, amount, done, lead, rest)
      invariant first == (amount == 0)
    {
      index, header, newLength, amount, first, done, lead, rest :=
        Visit(a, len, i, index, header, newLength, amount, first, s0, done, lead, rest);
      i := i + 1;
    }
    newLength := Finish(a, len, index, header, newLength, amount, s0, done, lead, rest);
    assert s0[newLength..] == old(a[newLength..]);
  }

  /** Before the scan: no table yet, the first header reserved at `len`, the buffer as it was. */
  lemma {:induction false} ScanStart(s0: seq<uint8>, len: nat)
    requires len <= |s0| && len + OffsetsLength(s0[..len]) <= |s0|
    ensures Tabled(s0, len, 0, 0, len, len + 4, 0, [], 0, [])
    ensures Holds(s0, s0, len, 0, [], 0, [])
  {
    assert s0[..0] == [];
    FitsFrom(s0, len);
  }

  /** One turn of the scan: the byte at `i` is looked at, and `index` counts it. */
  method Visit(a: array<uint8>, len: nat, i: nat, index0: nat, header0: nat, newLength0: nat, amount0: nat, first0: bool,
               ghost s0: seq<uint8>, ghost done0: seq<Group>, ghost lead0: nat, ghost rest0: seq<nat>)
    returns (index: nat, header: nat, newLength: nat, amount: nat, first: bool,
             ghost done: seq<Group>, ghost lead: nat, ghost rest: seq<nat>)
    requires Tabled(s0, len, i, index0, header0, newLength0, amount0, done0, lead0, rest0)
    requires Holds(a[..], s0, len, amount0, done0, lead0, rest0)
    requires first0 == (amount0 == 0) && i < len
    modifies a
    ensures Tabled(s0, len, i + 1, index, header, newLength, amount, done, lead, rest)
    ensures Holds(a[..], s0, len, amount, done, lead, rest)
    ensures first == (amount == 0)
  {
    index, header, newLength, amount, first, done, lead, rest := index0, header0, newLength0, amount0, first0, done0, lead0, rest0;
    var byte := a[i];
    assert byte == s0[i] by {
      assert a[..len][i] == s0[..len][i];
    }
    if byte == 247 || byte == 249 || byte == 251 || byte == 253 {
      header, newLength, amount, first, done, lead, rest :=
        Record(a, len, i, index, header, newLength, amount, first, s0, done, lead, rest);
      index := 0;
    } else {
      TabledSkip(s0, len, i, index, header, newLength, amount, done, lead, rest);
    }
    index := index + 1;
  }

  /** After the scan: the codes of the open header, then the terminator. */
  method Finish(a: array<uint8>, len: nat, index: nat, header: nat, newLength0: nat, amount: nat,
                ghost s0: seq<uint8>, ghost done: seq<Group>, ghost lead: nat, ghost rest: seq<nat>)
    returns (newLength: nat)
    requires Tabled(s0, len, len, index, header, newLength0, amount, done, lead, rest)
    requires Holds(a[..], s0, len, amount, done, lead, rest)
    modifies a
    ensures newLength == len + OffsetsLength(s0[..len])
    ensures TableOf(s0[..len]) == [] ==>
      a[..] == s0[len + 2 := SkipCode(0)][len + 3 := GroupCount(0)][len + 4 := Terminator]
    ensures TableOf(s0[..len]) != [] ==>
      a[..] == s0[..len] + Table(TableOf(s0[..len])) + [Terminator] + s0[newLength..]
  {
    if amount > 0 {
      TableSnoc(done, Group(lead, rest));
      assert Extent(s0[..len]) == newLength0 - len;
      FilledFinish(s0, len, done, lead, rest, header, newLength0, amount);
    } else {
      assert Extent(s0[..len]) == 4;
    }
    a[header + 2] := SkipCode(amount);
    a[header + 3] := GroupCount(amount);
    a[newLength0] := Terminator;
    newLength := newLength0 + 1;
  }

  /**
   * One sentinel, at `i`, `index` bytes after the one before it: the first one writes its
   * distance into the reserved header; a later one is stored in a byte when the distance fits,
   * or else closes the open group and opens a new one.
   */
  method Record(a: array<uint8>, len: nat, i: nat, index: nat, header0: nat, newLength0: nat, amount0: nat, first0: bool,
                ghost s0: seq<uint8>, ghost done0: seq<Group>, ghost lead0: nat, ghost rest0: seq<nat>)
    returns (header: nat, newLength: nat, amount: nat, first: bool, ghost done: seq<Group>, ghost lead: nat, ghost rest: seq<nat>)
    requires Tabled(s0, len, i, index, header0, newLength0, amount0, done0, lead0, rest0)
    requires Holds(a[..], s0, len, amount0, done0, lead0, rest0)
    requires first0 == (amount0 == 0) && i < len && IsSentinel(s0[i])
    modifies a
    ensures Tabled(s0, len, i + 1, 1, header, newLength, amount, done, lead, rest)
    ensures Holds(a[..], s0, len, amount, done, lead, rest)
    ensures first == (amount == 0)
  {
    header, newLength, amount, first, done, lead, rest := header0, newLength0, amount0, first0, done0, lead0, rest0;
    if first {
      TabledFirst(s0, len, i, index, done, lead, rest);
      a[header] := Trunc8(index / 256);
      a[header + 1] := Trunc8(index);
      first := false;
    }
    if amount != 0 {
      if index > 255 {
        TabledClose(s0, len, i, index, newLength, done, lead, rest);
        a[header + 2] := SkipCode(amount);
        a[header + 3] := GroupCount(amount);
        FilledClose(s0, len, done, lead, rest, index, header, newLength, amount);
        header := newLength;
        newLength := newLength + 4;
        a[header] := Trunc8(index / 256);
        a[header + 1] := Trunc8(index);
        amount := 1;
        done, lead, rest := done + [Group(lead, rest)], index, [];
      } else {
        TabledExtend(s0, len, i, index, header, newLength, amount, done, lead, rest);
        FilledExtend(s0, len, done, lead, rest, index, header, newLength);
        a[newLength] := Trunc8(index);
        newLength := newLength + 1;
        amount := amount + 1;
        rest := rest + [index];
      }
    } else {
      a[header] := Trunc8(index / 256);
      a[header + 1] := Trunc8(index);
      amount := amount + 1;
      done, lead, rest := [], index, [];
      assert a[..] == s0[len := Trunc8(index / 256)][len + 1 := Trunc8(index)];
      FilledFirst(s0, len, index);
    }
  }
}
