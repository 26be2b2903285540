/** Every column of every node's table, on the bytes of the header: its name, and the value a row holds. */
module NodeBytes {
  import opened Wire
  import opened ByteWords
  import opened WireSpec
  import opened Protocols
  import opened Dag
  import opened DagDecode
  import opened FieldTags

  /** Two's complement: from half the range on, values are negative. */
  function Signed(v: nat, half: nat): int { if v >= half then v - 2 * half else v }

  /** A field's value on its bytes. */
  function FieldBytes(f: Field, p: seq<byte>, base: nat): Value
    requires f.Valid() && base + f.End() <= |p|
  {
    match f
    case Blob(_, o, n) => Raw(p[base + o..base + o + n])
    case Bits(_, o, u, bo, bw, _) => Num(Bn(p, base + o, u) / Pow2(8 * u - bo - bw) % Pow2(bw))
    case Scalar(_, o, w, signed, _) =>
      var v := Bn(p, base + o, w);
      Num(if signed then Signed(v, Pow2(8 * w - 1)) else v)
  }

  lemma FieldIsBytes(f: Field, p: seq<byte>, base: nat)
    requires f.Valid() && base + f.End() <= |p| && (f.Blob? || f.big)
    ensures ReadField(f, p, base) == FieldBytes(f, p, base)
  {
    hide WordAt, Bn;
    match f
    case Blob(_, _, _) =>
    case Bits(_, o, u, _, _, _) => WordIsBytes(p, base + o, u);
    case Scalar(_, o, w, _, _) =>
      WordIsBytes(p, base + o, w);
      Pow2Adds(1, 8 * w - 1);
  }

  /** Fields whose words are all big-endian. */
  predicate PlainFields(fs: seq<Field>) { forall i :: 0 <= i < |fs| ==> fs[i].Blob? || fs[i].big }

  ghost predicate CellIsBytes(row: seq<Value>, fs: seq<Field>, p: seq<byte>, off: nat, k: nat)
    requires 1 <= k < |row| == 1 + |fs|
  {
    fs[k - 1].Valid() && off + fs[k - 1].End() <= |p| && row[k] == FieldBytes(fs[k - 1], p, off)
  }

  /** The packet id, and then every field on its bytes. */
  ghost predicate RowIsBytes(row: seq<Value>, pid: nat, fs: seq<Field>, p: seq<byte>, off: nat) {
    && |row| == 1 + |fs| && row[0] == Num(pid)
    && forall k {:trigger row[k]} :: 1 <= k < |row| ==> CellIsBytes(row, fs, p, off, k)
  }

  lemma NodeCell(pid: nat, p: seq<byte>, n: Node, off: nat, k: nat)
    requires off + HeaderLen(n) <= |p| && PlainFields(Flatten(NodeSpec(n))) && 1 <= k < NodeWidth(n)
    ensures CellIsBytes(NodeRow(pid, p, Visit(n, off)), Flatten(NodeSpec(n)), p, off, k)
  {
    hide NodeSpec, HeaderLen, Flatten, FieldBytes, ReadField;
    assert Flatten(NodeSpec(n))[k - 1] == SpecField(n, k - 1);
    FieldIsBytes(SpecField(n, k - 1), p, off);
    assert NodeRow(pid, p, Visit(n, off))[k - 1 + 1] == ReadField(SpecField(n, k - 1), p, off);
  }

  /** Every row is its header's bytes. */
  lemma RowOnTheWire(pid: nat, p: seq<byte>, n: Node, off: nat)
    requires off + HeaderLen(n) <= |p| && PlainFields(Flatten(NodeSpec(n)))
    ensures RowIsBytes(NodeRow(pid, p, Visit(n, off)), pid, Flatten(NodeSpec(n)), p, off)
  {
    hide NodeSpec, HeaderLen, Flatten, NodeRow, CellIsBytes;
    var row := NodeRow(pid, p, Visit(n, off));
    forall k | 1 <= k < |row| ensures CellIsBytes(row, Flatten(NodeSpec(n)), p, off, k) {
      NodeCell(pid, p, n, off, k);
    }
  }

  lemma Powers()
    ensures Pow2(0) == 1 && Pow2(1) == 2 && Pow2(2) == 4 && Pow2(3) == 8 && Pow2(4) == 16 && Pow2(6) == 64
    ensures Pow2(7) == 0x80 && Pow2(8) == 0x100 && Pow2(9) == 0x200 && Pow2(12) == 0x1000 && Pow2(13) == 0x2000
    ensures Pow2(15) == 0x8000 && Pow2(20) == 0x10_0000 && Pow2(28) == 0x1000_0000
  {
    Pow2Values();
    assert Pow2(15) == 0x8000;
    Pow2Adds(16, 4);
    Pow2Adds(24, 4);
  }

  // ---- row by row -------------------------------------------------------------------------------------

  lemma EthRow(pid: nat, p: seq<byte>, off: nat)
    requires off + 14 <= |p|
    ensures NodeRow(pid, p, Visit(Eth, off)) ==
            [Num(pid), Raw(p[off..off + 6]), Raw(p[off + 6..off + 12]), Num(B2(p, off + 12))]
  {
    hide NodeRow, Flatten, B2, B4, B8;
    LeavesFlatten(ETHERNET_SPEC);
    RowOnTheWire(pid, p, Eth, off);
  }

  lemma VlanRow(pid: nat, p: seq<byte>, off: nat)
    requires off + 4 <= |p|
    ensures NodeRow(pid, p, Visit(Vlan, off)) ==
            [Num(pid), Num(B2(p, off) / 8192 % 8), Num(B2(p, off) / 4096 % 2), Num(B2(p, off) % 4096),
             Num(B2(p, off + 2))]
  {
    hide NodeRow, Flatten, B2, B4, B8, Pow2;
    Powers();
    LeavesFlatten(VLAN_SPEC);
    RowOnTheWire(pid, p, Vlan, off);
  }

  lemma Ipv4Fields(p: seq<byte>, off: nat)
    requires off + 20 <= |p|
    ensures FieldBytes(IPV4_SPEC[0].field, p, off) == Num(p[off] / 16 % 16)
    ensures FieldBytes(IPV4_SPEC[1].field, p, off) == Num(p[off] % 16)
    ensures FieldBytes(IPV4_SPEC[2].field, p, off) == Num(p[off + 1] / 4 % 64)
    ensures FieldBytes(IPV4_SPEC[3].field, p, off) == Num(p[off + 1] % 4)
    ensures FieldBytes(IPV4_SPEC[4].field, p, off) == Num(B2(p, off + 2))
    ensures FieldBytes(IPV4_SPEC[5].field, p, off) == Num(B2(p, off + 4))
    ensures FieldBytes(IPV4_SPEC[6].field, p, off) == Num(B2(p, off + 6) / 8192 % 8)
    ensures FieldBytes(IPV4_SPEC[7].field, p, off) == Num(B2(p, off + 6) % 8192)
    ensures FieldBytes(IPV4_SPEC[8].field, p, off) == Num(p[off + 8])
    ensures FieldBytes(IPV4_SPEC[9].field, p, off) == Num(p[off + 9])
    ensures FieldBytes(IPV4_SPEC[10].field, p, off) == Num(B2(p, off + 10))
    ensures FieldBytes(IPV4_SPEC[11].field, p, off) == Raw(p[off + 12..off + 16])
    ensures FieldBytes(IPV4_SPEC[12].field, p, off) == Raw(p[off + 16..off + 20])
  {
    hide Pow2, B2, B4, B8, Signed;
    Powers();
  }

  lemma Ipv4Row(pid: nat, p: seq<byte>, off: nat)
    requires off + 20 <= |p|
    ensures NodeRow(pid, p, Visit(Ipv4, off)) ==
            [Num(pid), Num(p[off] / 16 % 16), Num(p[off] % 16), Num(p[off + 1] / 4 % 64), Num(p[off + 1] % 4),
             Num(B2(p, off + 2)), Num(B2(p, off + 4)), Num(B2(p, off + 6) / 8192 % 8), Num(B2(p, off + 6) % 8192),
             Num(p[off + 8]), Num(p[off + 9]), Num(B2(p, off + 10)), Raw(p[off + 12..off + 16]),
             Raw(p[off + 16..off + 20])]
  {
    hide NodeRow, Flatten, B2, B4, B8, FieldBytes;
    Ipv4Fields(p, off);
    LeavesFlatten(IPV4_SPEC);
    RowOnTheWire(pid, p, Ipv4, off);
  }

  lemma Ipv6Row(pid: nat, p: seq<byte>, off: nat)
    requires off + 40 <= |p|
    ensures NodeRow(pid, p, Visit(Ipv6, off)) ==
            [Num(pid), Num(B4(p, off) / 268435456 % 16), Num(B4(p, off) / 1048576 % 256), Num(B4(p, off) % 1048576),
             Num(B2(p, off + 4)), Num(p[off + 6]), Num(p[off + 7]), Raw(p[off + 8..off + 24]),
             Raw(p[off + 24..off + 40])]
  {
    hide NodeRow, Flatten, B2, B4, B8, Pow2;
    Powers();
    LeavesFlatten(IPV6_SPEC);
    RowOnTheWire(pid, p, Ipv6, off);
  }

  lemma TcpFields(p: seq<byte>, off: nat)
    requires off + 20 <= |p|
    ensures FieldBytes(TCP_SPEC[0].field, p, off) == Num(B2(p, off))
    ensures FieldBytes(TCP_SPEC[1].field, p, off) == Num(B2(p, off + 2))
    ensures FieldBytes(TCP_SPEC[2].field, p, off) == Num(B4(p, off + 4))
    ensures FieldBytes(TCP_SPEC[3].field, p, off) == Num(B4(p, off + 8))
    ensures FieldBytes(TCP_SPEC[4].field, p, off) == Num(B2(p, off + 12) / 4096 % 16)
    ensures FieldBytes(TCP_SPEC[5].field, p, off) == Num(B2(p, off + 12) / 512 % 8)
    ensures FieldBytes(TCP_SPEC[6].field, p, off) == Num(B2(p, off + 12) % 512)
    ensures FieldBytes(TCP_SPEC[7].field, p, off) == Num(B2(p, off + 14))
    ensures FieldBytes(TCP_SPEC[8].field, p, off) == Num(B2(p, off + 16))
    ensures FieldBytes(TCP_SPEC[9].field, p, off) == Num(B2(p, off + 18))
  {
    hide Pow2, B2, B4, B8, Signed;
    Powers();
  }

  lemma TcpRow(pid: nat, p: seq<byte>, off: nat)
    requires off + 20 <= |p|
    ensures NodeRow(pid, p, Visit(Tcp, off)) ==
            [Num(pid), Num(B2(p, off)), Num(B2(p, off + 2)), Num(B4(p, off + 4)), Num(B4(p, off + 8)),
             Num(B2(p, off + 12) / 4096 % 16), Num(B2(p, off + 12) / 512 % 8), Num(B2(p, off + 12) % 512),
             Num(B2(p, off + 14)), Num(B2(p, off + 16)), Num(B2(p, off + 18))]
  {
    hide NodeRow, Flatten, B2, B4, B8, FieldBytes;
    TcpFields(p, off);
    LeavesFlatten(TCP_SPEC);
    RowOnTheWire(pid, p, Tcp, off);
  }

  lemma UdpRow(pid: nat, p: seq<byte>, off: nat)
    requires off + 8 <= |p|
    ensures NodeRow(pid, p, Visit(Udp, off)) ==
            [Num(pid), Num(B2(p, off)), Num(B2(p, off + 2)), Num(B2(p, off + 4)), Num(B2(p, off + 6))]
  {
    hide NodeRow, Flatten, B2, B4, B8;
    LeavesFlatten(UDP_SPEC);
    RowOnTheWire(pid, p, Udp, off);
  }

  lemma GptpFields(p: seq<byte>, off: nat)
    requires off + 34 <= |p|
    ensures FieldBytes(PTP_HEADER_SPEC[0].field, p, off) == Num(p[off] / 16 % 16)
    ensures FieldBytes(PTP_HEADER_SPEC[1].field, p, off) == Num(p[off] % 16)
    ensures FieldBytes(PTP_HEADER_SPEC[2].field, p, off) == Num(p[off + 1] % 16)
    ensures FieldBytes(PTP_HEADER_SPEC[3].field, p, off) == Num(B2(p, off + 2))
    ensures FieldBytes(PTP_HEADER_SPEC[4].field, p, off) == Num(p[off + 4])
    ensures FieldBytes(PTP_HEADER_SPEC[5].field, p, off) == Num(B2(p, off + 6))
    ensures FieldBytes(PTP_HEADER_SPEC[6].field, p, off) == Num(B8(p, off + 8))
    ensures FieldBytes(PTP_HEADER_SPEC[7].field, p, off) == Raw(p[off + 20..off + 28])
    ensures FieldBytes(PTP_HEADER_SPEC[8].field, p, off) == Num(B2(p, off + 28))
    ensures FieldBytes(PTP_HEADER_SPEC[9].field, p, off) == Num(B2(p, off + 30))
    ensures FieldBytes(PTP_HEADER_SPEC[10].field, p, off) == Num(p[off + 32])
    ensures FieldBytes(PTP_HEADER_SPEC[11].field, p, off) == Num(Signed(p[off + 33], 0x80))
  {
    hide Pow2, B2, B4, B8, Signed;
    Powers();
  }

  lemma GptpRow(pid: nat, p: seq<byte>, off: nat)
    requires off + 34 <= |p|
    ensures NodeRow(pid, p, Visit(Gptp, off)) ==
            [Num(pid), Num(p[off] / 16 % 16), Num(p[off] % 16), Num(p[off + 1] % 16), Num(B2(p, off + 2)),
             Num(p[off + 4]), Num(B2(p, off + 6)), Num(B8(p, off + 8)), Raw(p[off + 20..off + 28]),
             Num(B2(p, off + 28)), Num(B2(p, off + 30)), Num(p[off + 32]), Num(Signed(p[off + 33], 0x80))]
  {
    hide NodeRow, Flatten, B2, B4, B8, FieldBytes;
    GptpFields(p, off);
    LeavesFlatten(PTP_HEADER_SPEC);
    RowOnTheWire(pid, p, Gptp, off);
  }

  lemma HopByHopRow(pid: nat, p: seq<byte>, off: nat)
    requires off + 2 <= |p|
    ensures NodeRow(pid, p, Visit(HopByHop, off)) ==
            [Num(pid), Num(p[off]), Num(p[off + 1])]
  {
    hide NodeRow, Flatten, B2, B4, B8;
    LeavesFlatten(EXT_OPT_SPEC);
    RowOnTheWire(pid, p, HopByHop, off);
  }

  lemma DestOptRow(pid: nat, p: seq<byte>, off: nat)
    requires off + 2 <= |p|
    ensures NodeRow(pid, p, Visit(DestOpt, off)) ==
            [Num(pid), Num(p[off]), Num(p[off + 1])]
  {
    hide NodeRow, Flatten, B2, B4, B8;
    LeavesFlatten(EXT_OPT_SPEC);
    RowOnTheWire(pid, p, DestOpt, off);
  }

  lemma RoutingRow(pid: nat, p: seq<byte>, off: nat)
    requires off + 8 <= |p|
    ensures NodeRow(pid, p, Visit(Routing, off)) ==
            [Num(pid), Num(p[off]), Num(p[off + 1]), Num(p[off + 2]), Num(p[off + 3]), Num(p[off + 4]),
             Num(p[off + 5]), Num(B2(p, off + 6))]
  {
    hide NodeRow, Flatten, B2, B4, B8;
    LeavesFlatten(SRH_SPEC);
    RowOnTheWire(pid, p, Routing, off);
  }

  lemma FragmentRow(pid: nat, p: seq<byte>, off: nat)
    requires off + 8 <= |p|
    ensures NodeRow(pid, p, Visit(Fragment, off)) ==
            [Num(pid), Num(p[off]), Num(p[off + 1]), Num(B2(p, off + 2) / 8 % 8192), Num(B2(p, off + 2) / 2 % 4),
             Num(B2(p, off + 2) % 2), Num(B4(p, off + 4))]
  {
    hide NodeRow, Flatten, B2, B4, B8, Pow2;
    Powers();
    LeavesFlatten(FRAGMENT_SPEC);
    RowOnTheWire(pid, p, Fragment, off);
  }

  lemma AhRow(pid: nat, p: seq<byte>, off: nat)
    requires off + 12 <= |p|
    ensures NodeRow(pid, p, Visit(Ah, off)) ==
            [Num(pid), Num(p[off]), Num(p[off + 1]), Num(B2(p, off + 2)), Num(B4(p, off + 4)), Num(B4(p, off + 8))]
  {
    hide NodeRow, Flatten, B2, B4, B8;
    LeavesFlatten(AH_SPEC);
    RowOnTheWire(pid, p, Ah, off);
  }

  lemma SomeipRow(pid: nat, p: seq<byte>, off: nat)
    requires off + 16 <= |p|
    ensures NodeRow(pid, p, Visit(Someip, off)) ==
            [Num(pid), Num(B2(p, off)), Num(B2(p, off + 2)), Num(B4(p, off + 4)), Num(B2(p, off + 8)),
             Num(B2(p, off + 10)), Num(p[off + 12]), Num(p[off + 13]), Num(p[off + 14]), Num(p[off + 15])]
  {
    hide NodeRow, Flatten, B2, B4, B8;
    LeavesFlatten(SOMEIP_SPEC);
    RowOnTheWire(pid, p, Someip, off);
  }

  // ---- bodies with sub-records ------------------------------------------------------------------------

  lemma {:induction false} FieldsSplit(a: Spec, b: Spec)
    ensures Flatten(a + b) == Flatten(a) + Flatten(b)
    decreases |a|
  {
    hide ExpandOne;
    if a == [] {
      assert a + b == b;
    } else {
      FieldsSplit(a[1..], b);
      assert (a + b)[0] == a[0] && (a + b)[1..] == a[1..] + b;
    }
  }

  lemma EmbedFields(prefix: string, offset: nat, sub: Spec)
    ensures Flatten([Embed(prefix, offset, sub)]) == ShiftAll(prefix, offset, Flatten(sub))
  {
    hide ShiftAll;
    assert Flatten([Embed(prefix, offset, sub)][1..]) == [];
  }

  function TimestampFields(prefix: string): seq<Field> {
    [U16(prefix + "seconds_msb", 0), U32(prefix + "seconds_lsb", 2), U32(prefix + "nanoseconds", 6)]
  }

  function PortFields(prefix: string, at: nat): seq<Field> {
    [Blob(prefix + "clock_identity", at, 8), U16(prefix + "port_number", at + 8)]
  }

  lemma TimestampPart(prefix: string)
    ensures Flatten([Embed(prefix, 0, TIMESTAMP_SPEC)]) == TimestampFields(prefix)
  {
    hide Flatten;
    LeavesFlatten(TIMESTAMP_SPEC);
    EmbedFields(prefix, 0, TIMESTAMP_SPEC);
  }

  lemma PortPart(prefix: string, at: nat)
    ensures Flatten([Embed(prefix, at, PORT_IDENTITY_SPEC)]) == PortFields(prefix, at)
  {
    hide Flatten;
    LeavesFlatten(PORT_IDENTITY_SPEC);
    EmbedFields(prefix, at, PORT_IDENTITY_SPEC);
  }

  lemma PtpTimestampBodyRow(pid: nat, p: seq<byte>, off: nat)
    requires off + 10 <= |p|
    ensures NodeRow(pid, p, Visit(PtpTimestampBody, off)) ==
            [Num(pid), Num(B2(p, off)), Num(B4(p, off + 2)), Num(B4(p, off + 6))]
  {
    hide NodeRow, Flatten;
    TimestampPart("ts_");
    RowOnTheWire(pid, p, PtpTimestampBody, off);
  }

  lemma PtpTsPortBodyRow(pid: nat, p: seq<byte>, off: nat)
    requires off + 20 <= |p|
    ensures NodeRow(pid, p, Visit(PtpTsPortBody, off)) ==
            [Num(pid), Num(B2(p, off)), Num(B4(p, off + 2)), Num(B4(p, off + 6)), Raw(p[off + 10..off + 18]),
             Num(B2(p, off + 18))]
  {
    hide NodeRow, Flatten;
    TimestampPart("ts_");
    PortPart("req_", 10);
    FieldsSplit([Embed("ts_", 0, TIMESTAMP_SPEC)], [Embed("req_", 10, PORT_IDENTITY_SPEC)]);
    assert PTP_TS_PORT_BODY_SPEC == [Embed("ts_", 0, TIMESTAMP_SPEC)] + [Embed("req_", 10, PORT_IDENTITY_SPEC)];
    RowOnTheWire(pid, p, PtpTsPortBody, off);
  }

  lemma PtpSignalingBodyRow(pid: nat, p: seq<byte>, off: nat)
    requires off + 10 <= |p|
    ensures NodeRow(pid, p, Visit(PtpSignalingBody, off)) ==
            [Num(pid), Raw(p[off..off + 8]), Num(B2(p, off + 8))]
  {
    hide NodeRow, Flatten;
    PortPart("target_", 0);
    RowOnTheWire(pid, p, PtpSignalingBody, off);
  }

  /** The quality of the grandmaster's clock, as it is embedded. */
  function QualityFields(): seq<Field> {
    [U8("grandmaster_" + "clock_class", 14), U8("grandmaster_" + "clock_accuracy", 15),
     U16("grandmaster_" + "offset_scaled_log_variance", 16)]
  }

  function AnnounceFields(): seq<Field> {
    TimestampFields("origin_") +
    [Scalar("current_utc_offset", 10, 2, true, true), U8("grandmaster_priority1", 13)] +
    QualityFields() +
    [U8("grandmaster_priority2", 18), Blob("grandmaster_identity", 19, 8), U16("steps_removed", 27),
     U8("time_source", 29)]
  }

  lemma AnnounceParts()
    ensures Flatten(PTP_ANNOUNCE_BODY_SPEC) == AnnounceFields()
  {
    hide Flatten;
    var s := PTP_ANNOUNCE_BODY_SPEC;
    TimestampPart("origin_");
    LeavesFlatten(CLOCK_QUALITY_SPEC);
    EmbedFields("grandmaster_", 14, CLOCK_QUALITY_SPEC);
    LeavesFlatten(s[1..3]);
    LeavesFlatten(s[4..]);
    FieldsSplit(s[..1], s[1..3]);
    FieldsSplit(s[..3], s[3..4]);
    FieldsSplit(s[..4], s[4..]);
    assert s == s[..4] + s[4..] && s[..4] == s[..3] + s[3..4] && s[..3] == s[..1] + s[1..3];
    assert s[..1] == [Embed("origin_", 0, TIMESTAMP_SPEC)];
    assert s[3..4] == [Embed("grandmaster_", 14, CLOCK_QUALITY_SPEC)];
  }

  lemma PtpAnnounceBodyRow(pid: nat, p: seq<byte>, off: nat)
    requires off + 30 <= |p|
    ensures NodeRow(pid, p, Visit(PtpAnnounceBody, off)) ==
            [Num(pid), Num(B2(p, off)), Num(B4(p, off + 2)), Num(B4(p, off + 6)),
             Num(Signed(B2(p, off + 10), 0x8000)), Num(p[off + 13]), Num(p[off + 14]), Num(p[off + 15]),
             Num(B2(p, off + 16)), Num(p[off + 18]), Raw(p[off + 19..off + 27]), Num(B2(p, off + 27)),
             Num(p[off + 29])]
  {
    hide NodeRow, Flatten, Pow2;
    AnnounceParts();
    Powers();
    RowOnTheWire(pid, p, PtpAnnounceBody, off);
  }

  // ---- column names -----------------------------------------------------------------------------------

  /** The columns of each node's table, behind the packet id. */
  function ColumnNames(n: Node): seq<string> {
    match n
    case Eth =>
      ["dst", "src", "ethertype"]
    case Vlan =>
      ["pcp", "dei", "vid", "inner_ethertype"]
    case Ipv4 =>
      ["version", "ihl", "dscp", "ecn", "total_length", "identification", "flags", "frag_offset", "ttl", "protocol",
       "checksum", "src", "dst"]
    case Ipv6 =>
      ["version", "traffic_class", "flow_label", "payload_length", "next_header", "hop_limit", "src", "dst"]
    case Tcp =>
      ["src_port", "dst_port", "seq", "ack", "data_offset", "reserved", "flags", "window", "checksum", "urgent_ptr"]
    case Udp =>
      ["src_port", "dst_port", "length", "checksum"]
    case Gptp =>
      ["transport_specific", "message_type", "version_ptp", "message_length", "domain_number", "flags",
       "correction_field", "clock_identity", "source_port_number", "sequence_id", "control_field",
       "log_message_interval"]
    case PtpTimestampBody =>
      ["ts_seconds_msb", "ts_seconds_lsb", "ts_nanoseconds"]
    case PtpTsPortBody =>
      ["ts_seconds_msb", "ts_seconds_lsb", "ts_nanoseconds", "req_clock_identity", "req_port_number"]
    case PtpAnnounceBody =>
      ["origin_seconds_msb", "origin_seconds_lsb", "origin_nanoseconds", "current_utc_offset",
       "grandmaster_priority1", "grandmaster_" + "clock_class", "grandmaster_" + "clock_accuracy",
       "grandmaster_" + "offset_scaled_log_variance", "grandmaster_priority2", "grandmaster_identity",
       "steps_removed", "time_source"]
    case PtpSignalingBody =>
      ["target_clock_identity", "target_port_number"]
    case HopByHop =>
      ["next_header", "hdr_ext_len"]
    case Routing =>
      ["next_header", "hdr_ext_len", "routing_type", "segments_left", "last_entry", "flags", "tag"]
    case Fragment =>
      ["next_header", "reserved", "frag_offset", "res2", "more_fragments", "identification"]
    case DestOpt =>
      ["next_header", "hdr_ext_len"]
    case Ah =>
      ["next_header", "payload_len", "reserved", "spi", "seq"]
    case Someip =>
      ["service_id", "method_id", "length", "client_id", "session_id", "protocol_version", "interface_version",
       "message_type", "return_code"]
  }

  lemma LinkColumns()
    ensures Tags(Flatten(NodeSpec(Eth))) == ColumnNames(Eth) && Tags(Flatten(NodeSpec(Vlan))) == ColumnNames(Vlan)
  {
    hide Flatten;
    LeavesFlatten(ETHERNET_SPEC);
    LeavesFlatten(VLAN_SPEC);
  }

  lemma Ipv4Columns()
    ensures Tags(Flatten(NodeSpec(Ipv4))) == ColumnNames(Ipv4)
  {
    hide Flatten;
    LeavesFlatten(IPV4_SPEC);
  }

  lemma Ipv6Columns()
    ensures Tags(Flatten(NodeSpec(Ipv6))) == ColumnNames(Ipv6)
  {
    hide Flatten;
    LeavesFlatten(IPV6_SPEC);
  }

  lemma TcpColumns()
    ensures Tags(Flatten(NodeSpec(Tcp))) == ColumnNames(Tcp)
  {
    hide Flatten;
    LeavesFlatten(TCP_SPEC);
  }

  lemma UdpColumns()
    ensures Tags(Flatten(NodeSpec(Udp))) == ColumnNames(Udp)
  {
    hide Flatten;
    LeavesFlatten(UDP_SPEC);
  }

  lemma GptpColumns()
    ensures Tags(Flatten(NodeSpec(Gptp))) == ColumnNames(Gptp)
  {
    hide Flatten;
    LeavesFlatten(PTP_HEADER_SPEC);
  }

  lemma SomeipColumns()
    ensures Tags(Flatten(NodeSpec(Someip))) == ColumnNames(Someip)
  {
    hide Flatten;
    LeavesFlatten(SOMEIP_SPEC);
  }

  lemma HopByHopColumns()
    ensures Tags(Flatten(NodeSpec(HopByHop))) == ColumnNames(HopByHop)
  {
    hide Flatten;
    LeavesFlatten(EXT_OPT_SPEC);
  }

  lemma DestOptColumns()
    ensures Tags(Flatten(NodeSpec(DestOpt))) == ColumnNames(DestOpt)
  {
    hide Flatten;
    LeavesFlatten(EXT_OPT_SPEC);
  }

  lemma RoutingColumns()
    ensures Tags(Flatten(NodeSpec(Routing))) == ColumnNames(Routing)
  {
    hide Flatten;
    LeavesFlatten(SRH_SPEC);
  }

  lemma FragmentColumns()
    ensures Tags(Flatten(NodeSpec(Fragment))) == ColumnNames(Fragment)
  {
    hide Flatten;
    LeavesFlatten(FRAGMENT_SPEC);
  }

  lemma AhColumns()
    ensures Tags(Flatten(NodeSpec(Ah))) == ColumnNames(Ah)
  {
    hide Flatten;
    LeavesFlatten(AH_SPEC);
  }

  lemma TimestampNames(prefix: string)
    ensures Tags(TimestampFields(prefix)) ==
            [prefix + "seconds_msb", prefix + "seconds_lsb", prefix + "nanoseconds"]
  {
  }

  lemma PortNames(prefix: string, at: nat)
    ensures Tags(PortFields(prefix, at)) == [prefix + "clock_identity", prefix + "port_number"]
  {
  }

  lemma TimestampColumns()
    ensures Tags(TimestampFields("ts_")) == ["ts_seconds_msb", "ts_seconds_lsb", "ts_nanoseconds"]
    ensures Tags(TimestampFields("origin_")) == ["origin_seconds_msb", "origin_seconds_lsb", "origin_nanoseconds"]
  {
    hide Tags, TimestampFields;
    TimestampNames("ts_");
    TimestampNames("origin_");
    assert "ts_" + "seconds_msb" == "ts_seconds_msb" && "ts_" + "seconds_lsb" == "ts_seconds_lsb";
    assert "ts_" + "nanoseconds" == "ts_nanoseconds" && "origin_" + "nanoseconds" == "origin_nanoseconds";
    assert "origin_" + "seconds_msb" == "origin_seconds_msb" && "origin_" + "seconds_lsb" == "origin_seconds_lsb";
  }

  lemma PortColumns()
    ensures Tags(PortFields("req_", 10)) == ["req_clock_identity", "req_port_number"]
    ensures Tags(PortFields("target_", 0)) == ["target_clock_identity", "target_port_number"]
  {
    hide Tags, PortFields;
    PortNames("req_", 10);
    PortNames("target_", 0);
    assert "req_" + "clock_identity" == "req_clock_identity" && "req_" + "port_number" == "req_port_number";
    assert "target_" + "clock_identity" == "target_clock_identity";
    assert "target_" + "port_number" == "target_port_number";
  }

  lemma TimestampBodyColumns()
    ensures Tags(Flatten(NodeSpec(PtpTimestampBody))) == ColumnNames(PtpTimestampBody)
    ensures Tags(Flatten(NodeSpec(PtpSignalingBody))) == ColumnNames(PtpSignalingBody)
  {
    hide Flatten, Tags, TimestampFields, PortFields;
    TimestampPart("ts_");
    TimestampColumns();
    PortPart("target_", 0);
    PortColumns();
  }

  lemma TsPortColumns()
    ensures Tags(Flatten(NodeSpec(PtpTsPortBody))) == ColumnNames(PtpTsPortBody)
  {
    hide Flatten, Tags, TimestampFields, PortFields;
    TimestampPart("ts_");
    TimestampColumns();
    PortPart("req_", 10);
    PortColumns();
    FieldsSplit([Embed("ts_", 0, TIMESTAMP_SPEC)], [Embed("req_", 10, PORT_IDENTITY_SPEC)]);
    assert PTP_TS_PORT_BODY_SPEC == [Embed("ts_", 0, TIMESTAMP_SPEC)] + [Embed("req_", 10, PORT_IDENTITY_SPEC)];
    TagsConcat(TimestampFields("ts_"), PortFields("req_", 10));
  }

  lemma QualityColumns()
    ensures Tags(QualityFields()) ==
            ["grandmaster_" + "clock_class", "grandmaster_" + "clock_accuracy",
             "grandmaster_" + "offset_scaled_log_variance"]
  {
  }

  lemma AnnounceColumns()
    ensures Tags(Flatten(NodeSpec(PtpAnnounceBody))) == ColumnNames(PtpAnnounceBody)
  {
    hide Flatten, TimestampFields, QualityFields;
    AnnounceParts();
    TimestampColumns();
    QualityColumns();
    var a := TimestampFields("origin_");
    var b := [Scalar("current_utc_offset", 10, 2, true, true), U8("grandmaster_priority1", 13)];
    var d := [U8("grandmaster_priority2", 18), Blob("grandmaster_identity", 19, 8), U16("steps_removed", 27),
              U8("time_source", 29)];
    TagsConcat(a, b);
    TagsConcat(a + b, QualityFields());
    TagsConcat(a + b + QualityFields(), d);
  }

  /** The names of every table's columns, embedded sub-records with their prefixes. */
  lemma ColumnsByName(n: Node)
    ensures Tags(Flatten(NodeSpec(n))) == ColumnNames(n)
  {
    hide Flatten, NodeSpec, ColumnNames, Tags;
    match n
    case Eth => LinkColumns();
    case Vlan => LinkColumns();
    case Ipv4 => Ipv4Columns();
    case Ipv6 => Ipv6Columns();
    case Tcp => TcpColumns();
    case Udp => UdpColumns();
    case Gptp => GptpColumns();
    case PtpTimestampBody => TimestampBodyColumns();
    case PtpTsPortBody => TsPortColumns();
    case PtpAnnounceBody => AnnounceColumns();
    case PtpSignalingBody => TimestampBodyColumns();
    case HopByHop => HopByHopColumns();
    case Routing => RoutingColumns();
    case Fragment => FragmentColumns();
    case DestOpt => DestOptColumns();
    case Ah => AhColumns();
    case Someip => SomeipColumns();
  }
}
