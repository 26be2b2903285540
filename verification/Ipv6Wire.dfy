/** IPv6 extension headers on their bytes: what the child rows of one hold, and that they undo writing one. */
module Ipv6Wire {
  import opened Wire
  import opened ByteWords
  import opened WireSpec
  import opened Dag
  import opened Tables
  import opened Tlv
  import opened Ipv6Children

  // ---- extents ----------------------------------------------------------------------------------------

  /** A header's length byte counts the 8-byte units behind the first; what the packet lacks is cut off. */
  function WireEnd(p: seq<byte>, off: nat): nat
    requires off + 2 <= |p|
  {
    Min(off + 8 * ((p[off + 1] as int) + 1), |p|)
  }

  lemma ExtensionBytes(p: seq<byte>, off: nat)
    requires off + 2 <= |p|
    ensures ExtEnd(p, off) == WireEnd(p, off)
    ensures ExtOptions(p, off) == Records(p, off + 2, WireEnd(p, off), Ipv6Options)
  {
    hide Records;
    WordIsBytes(p, off + 1, 1);
  }

  /** Byte 4 is the last segment's index: one less than the declared number. As many as are declared and fit are
      visited, 16 bytes each behind the first 8; the TLVs lie behind the declared ones. */
  lemma RoutingBytes(p: seq<byte>, off: nat)
    requires off + 8 <= |p|
    ensures var declared, end := (p[off + 4] as int) + 1, WireEnd(p, off);
      && |Segments(p, off)| == Min(declared, (end - off - 8) / 16)
      && (forall i :: 0 <= i < |Segments(p, off)| ==> Segments(p, off)[i] == Segment(i, off + 8 + 16 * i))
      && SrhTlvs(p, off) == Records(p, off + 8 + 16 * declared, end, Ipv6Options)
  {
    hide Records;
    ExtensionBytes(p, off);
    WordIsBytes(p, off + 4, 1);
  }

  // ---- rows -------------------------------------------------------------------------------------------

  /** Rows of the option table: packet, type of the header they are in, option type, option length. */
  ghost predicate AreOptionRows(es: seq<Emit<Value>>, pid: nat, container: nat, rs: seq<Record>) {
    |es| == |rs| &&
    forall i :: 0 <= i < |rs| ==> es[i] == Emit(1, [Num(pid), Num(container), Num(rs[i].kind), Num(rs[i].length)])
  }

  /** Rows of the segment table: packet, order of the header, index and address. */
  ghost predicate AreSegmentRows(es: seq<Emit<Value>>, pid: nat, order: nat, p: seq<byte>, at: nat)
    requires at + 16 * |es| <= |p|
  {
    forall i :: 0 <= i < |es| ==>
      es[i] == Emit(0, [Num(pid), Num(order), Num(i), Raw(p[at + 16 * i..at + 16 * i + 16])])
  }

  /** The child rows of a header: a routing header's segments and then its TLVs, under its protocol number 43; the
      options of a Hop-by-Hop header under 0 and of a Destination Options header under 60; no other header has any. */
  lemma KidsOnTheWire(pid: nat, order: nat, p: seq<byte>, v: Visit)
    requires v.off + HeaderLen(v.node) <= |p|
    ensures var es := VisitKids(pid, order, p, v);
      match v.node
      case Routing =>
        var n := Min((p[v.off + 4] as int) + 1, (WireEnd(p, v.off) - v.off - 8) / 16);
        && n <= |es| && v.off + 8 + 16 * n <= |p|
        && AreSegmentRows(es[..n], pid, order, p, v.off + 8)
        && AreOptionRows(es[n..], pid, 43,
                         Records(p, v.off + 8 + 16 * ((p[v.off + 4] as int) + 1), WireEnd(p, v.off), Ipv6Options))
      case HopByHop => AreOptionRows(es, pid, 0, Records(p, v.off + 2, WireEnd(p, v.off), Ipv6Options))
      case DestOpt => AreOptionRows(es, pid, 60, Records(p, v.off + 2, WireEnd(p, v.off), Ipv6Options))
      case _ => es == []
  {
    hide Records, WireEnd, ExtEnd;
    match v.node
    case Routing =>
      RoutingBytes(p, v.off);
      SegmentRowsAre(pid, order, p, v.off);
    case HopByHop => ExtensionBytes(p, v.off);
    case DestOpt => ExtensionBytes(p, v.off);
    case _ =>
  }

  lemma SegmentRowsAre(pid: nat, order: nat, p: seq<byte>, off: nat)
    requires off + 8 <= |p|
    ensures var es := SegmentRecords(pid, order, p, Segments(p, off));
      off + 8 + 16 * |es| <= |p| && AreSegmentRows(es, pid, order, p, off + 8)
  {
    hide SegmentCount;
    var segs := Segments(p, off);
    if segs != [] {
      assert segs[|segs| - 1].at + 16 <= |p|;
    }
  }

  /** The routing headers among the first i visits. */
  function RoutingBefore(vs: seq<Visit>, i: nat): set<nat>
    requires i <= |vs|
  {
    set j: nat | j < i && vs[j].node == Routing
  }

  lemma OneMoreVisit(vs: seq<Visit>, i: nat)
    requires i < |vs|
    ensures |RoutingBefore(vs, i + 1)| == |RoutingBefore(vs, i)| + if vs[i].node == Routing then 1 else 0
  {
    if vs[i].node == Routing {
      assert RoutingBefore(vs, i + 1) == RoutingBefore(vs, i) + {i};
    } else {
      assert RoutingBefore(vs, i + 1) == RoutingBefore(vs, i);
    }
  }

  /** A routing header's order in the packet is the number of routing headers before it. */
  lemma {:induction false} OrderIsRank(vs: seq<Visit>, i: nat)
    requires i <= |vs|
    ensures RoutingCount(vs[..i]) == |RoutingBefore(vs, i)|
  {
    if i == 0 {
      assert RoutingBefore(vs, 0) == {};
    } else {
      OrderIsRank(vs, i - 1);
      OneMoreVisit(vs, i - 1);
      assert vs[..i][..i - 1] == vs[..i - 1];
    }
  }

  // ---- writing headers --------------------------------------------------------------------------------

  /** A segment routing header of n segments and TLVs that fill whole units, section 2 of RFC 8754. */
  function SrhBytes(next: byte, left: byte, flags: byte, tag: nat, segs: seq<seq<byte>>, xs: seq<Item>): seq<byte>
    requires ValidItems(xs, Ipv6Options) && |segs| > 0 && tag < 0x1_0000
    requires 2 * |segs| + |EncodeItems(xs, Ipv6Options)| / 8 < 256
  {
    [next, 2 * |segs| + |EncodeItems(xs, Ipv6Options)| / 8, 4, left, |segs| - 1, flags, tag / 0x100, tag % 0x100] +
    Joined(segs) + EncodeItems(xs, Ipv6Options)
  }

  lemma SrhParts(next: byte, left: byte, flags: byte, tag: nat, segs: seq<seq<byte>>, xs: seq<Item>, i: nat)
    requires ValidItems(xs, Ipv6Options) && AllOfSize(segs, 16) && i < |segs| && tag < 0x1_0000
    requires 2 * |segs| + |EncodeItems(xs, Ipv6Options)| / 8 < 256
    ensures var h, n, e := SrhBytes(next, left, flags, tag, segs, xs), |segs|, EncodeItems(xs, Ipv6Options);
      && |h| == 8 + 16 * n + |e| && h[1] == 2 * n + |e| / 8 && h[4] == n - 1
      && h[8 + 16 * i..8 + 16 * i + 16] == segs[i] && h[8 + 16 * n..8 + 16 * n + |e|] == e
  {
    hide EncodeItems, Joined;
    JoinedAt(segs, 16, i);
    var h, j := SrhBytes(next, left, flags, tag, segs, xs), Joined(segs);
    assert h[8..8 + |j|] == j;
    SliceOfSlice(h, 8, 8 + |j|, 16 * i, 16 * i + 16);
  }

  /** A routing header as it can be written: whole units, no more than its length byte can count. */
  predicate Writable(segs: seq<seq<byte>>, xs: seq<Item>, tag: nat) {
    && ValidItems(xs, Ipv6Options) && AllOfSize(segs, 16) && |segs| > 0 && tag < 0x1_0000
    && |EncodeItems(xs, Ipv6Options)| % 8 == 0 && 2 * |segs| + |EncodeItems(xs, Ipv6Options)| / 8 < 256
  }

  lemma SrhExtent(p: seq<byte>, off: nat, next: byte, left: byte, flags: byte, tag: nat, segs: seq<seq<byte>>,
                  xs: seq<Item>)
    requires Writable(segs, xs, tag) && LiesAt(p, off, SrhBytes(next, left, flags, tag, segs, xs))
    ensures var n, e := |segs|, EncodeItems(xs, Ipv6Options);
      && off + 8 + 16 * n + |e| <= |p| && ExtEnd(p, off) == off + 8 + 16 * n + |e|
      && |Segments(p, off)| == n
      && (forall i :: 0 <= i < n ==> Segments(p, off)[i] == Segment(i, off + 8 + 16 * i))
      && SrhTlvs(p, off) == Records(p, off + 8 + 16 * n, ExtEnd(p, off), Ipv6Options)
  {
    hide Records, EncodeItems, SrhBytes, LiesAt, Segments, SrhTlvs;
    var h := SrhBytes(next, left, flags, tag, segs, xs);
    SrhParts(next, left, flags, tag, segs, xs, 0);
    LiesAtEnds(p, off, h);
    LiesAtByte(p, off, h, 1);
    LiesAtByte(p, off, h, 4);
    RoutingBytes(p, off);
    ExtensionBytes(p, off);
  }

  lemma SegmentLies(p: seq<byte>, off: nat, next: byte, left: byte, flags: byte, tag: nat, segs: seq<seq<byte>>,
                    xs: seq<Item>, i: nat)
    requires Writable(segs, xs, tag) && LiesAt(p, off, SrhBytes(next, left, flags, tag, segs, xs)) && i < |segs|
    ensures LiesAt(p, off + (8 + 16 * i), segs[i])
  {
    hide EncodeItems, SrhBytes, LiesAt;
    SrhParts(next, left, flags, tag, segs, xs, i);
    InnerLies(p, off, SrhBytes(next, left, flags, tag, segs, xs), 8 + 16 * i, segs[i]);
  }

  lemma TlvsLie(p: seq<byte>, off: nat, next: byte, left: byte, flags: byte, tag: nat, segs: seq<seq<byte>>,
                xs: seq<Item>)
    requires Writable(segs, xs, tag) && LiesAt(p, off, SrhBytes(next, left, flags, tag, segs, xs))
    ensures var at, e := off + (8 + 16 * |segs|), EncodeItems(xs, Ipv6Options);
      at + |e| <= |p| && p[at..at + |e|] == e + []
  {
    hide EncodeItems, SrhBytes, LiesAt;
    var at, e := 8 + 16 * |segs|, EncodeItems(xs, Ipv6Options);
    SrhParts(next, left, flags, tag, segs, xs, 0);
    InnerLies(p, off, SrhBytes(next, left, flags, tag, segs, xs), at, e);
    LiesAtEnds(p, off + at, e);
    assert e == e + [];
  }

  /** Decoding a written routing header gives its segments and TLVs back, all of them and in order. */
  lemma SrhRoundTrip(p: seq<byte>, off: nat, next: byte, left: byte, flags: byte, tag: nat, segs: seq<seq<byte>>,
                     xs: seq<Item>)
    requires Writable(segs, xs, tag) && LiesAt(p, off, SrhBytes(next, left, flags, tag, segs, xs))
    ensures off + 8 <= |p| && |Segments(p, off)| == |segs|
    ensures forall i :: 0 <= i < |segs| ==> LiesAt(p, Segments(p, off)[i].at, segs[i])
    ensures SrhTlvs(p, off) == Records(p, off + 8 + 16 * |segs|, ExtEnd(p, off), Ipv6Options)
    ensures Items(p, off + 8 + 16 * |segs|, ExtEnd(p, off), Ipv6Options) == xs
  {
    hide Records, Items, EncodeItems, SrhBytes, LiesAt, Segments, SrhTlvs, ExtEnd, ValidItems;
    SrhExtent(p, off, next, left, flags, tag, segs, xs);
    forall i | 0 <= i < |segs| ensures LiesAt(p, Segments(p, off)[i].at, segs[i]) {
      SegmentLies(p, off, next, left, flags, tag, segs, xs, i);
    }
    TlvsLie(p, off, next, left, flags, tag, segs, xs);
    var at := off + (8 + 16 * |segs|);
    DecodeUndoesEncode(xs, [], p, at, at + |EncodeItems(xs, Ipv6Options)|, Ipv6Options);
  }

  /** A Hop-by-Hop or Destination Options header whose options fill it, section 4.3 of RFC 8200. */
  function OptionsBytes(next: byte, xs: seq<Item>): seq<byte>
    requires ValidItems(xs, Ipv6Options) && |EncodeItems(xs, Ipv6Options)| / 8 < 256
  {
    [next, |EncodeItems(xs, Ipv6Options)| / 8] + EncodeItems(xs, Ipv6Options)
  }

  lemma OptionsRoundTrip(p: seq<byte>, off: nat, next: byte, xs: seq<Item>)
    requires ValidItems(xs, Ipv6Options)
    requires |EncodeItems(xs, Ipv6Options)| % 8 == 6 && |EncodeItems(xs, Ipv6Options)| / 8 < 256
    requires LiesAt(p, off, OptionsBytes(next, xs))
    ensures off + 2 <= |p| && ExtOptions(p, off) == Records(p, off + 2, ExtEnd(p, off), Ipv6Options)
    ensures Items(p, off + 2, ExtEnd(p, off), Ipv6Options) == xs
  {
    hide Records, Items, EncodeItems;
    var h, e := OptionsBytes(next, xs), EncodeItems(xs, Ipv6Options);
    LiesAtByte(p, off, h, 1);
    ExtensionBytes(p, off);
    assert h[2..] == e + [];
    InnerLies(p, off, h, 2, e);
    DecodeUndoesEncode(xs, [], p, off + 2, off + |h|, Ipv6Options);
  }
}
