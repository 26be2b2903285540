/** The wire layouts of the protocol headers the packet graph visits. */
module Protocols {
  import opened WireSpec

  function U8(tag: string, offset: nat): Field { Scalar(tag, offset, 1, false, true) }
  function U16(tag: string, offset: nat): Field { Scalar(tag, offset, 2, false, true) }
  function U32(tag: string, offset: nat): Field { Scalar(tag, offset, 4, false, true) }
  function U64(tag: string, offset: nat): Field { Scalar(tag, offset, 8, false, true) }
  function BitsOf(tag: string, offset: nat, unit: nat, bitOffset: nat, bitWidth: nat): Field {
    Bits(tag, offset, unit, bitOffset, bitWidth, true)
  }

  // Fields the dispatch reads by name.
  const ETHERTYPE := U16("ethertype", 12)
  const INNER_ETHERTYPE := U16("inner_ethertype", 2)
  const IPV4_IHL := BitsOf("ihl", 0, 1, 4, 4)
  const IPV4_FRAG_OFFSET := BitsOf("frag_offset", 6, 2, 3, 13)
  const IPV4_PROTOCOL := U8("protocol", 9)
  const IPV6_NEXT_HEADER := U8("next_header", 6)
  const EXT_NEXT_HEADER := U8("next_header", 0)
  const EXT_LEN := U8("hdr_ext_len", 1)
  const SRH_LAST_ENTRY := U8("last_entry", 4)
  const FRAGMENT_OFFSET := BitsOf("frag_offset", 2, 2, 0, 13)
  const AH_PAYLOAD_LEN := U8("payload_len", 1)
  const SRC_PORT := U16("src_port", 0)
  const DST_PORT := U16("dst_port", 2)
  const TCP_DATA_OFFSET := BitsOf("data_offset", 12, 2, 0, 4)
  const PTP_MESSAGE_TYPE := BitsOf("message_type", 0, 1, 4, 4)
  const SOMEIP_SERVICE_ID := U16("service_id", 0)
  const SOMEIP_METHOD_ID := U16("method_id", 2)
  const SOMEIP_LENGTH := U32("length", 4)

  const ETHERNET_SPEC: Spec := [Leaf(Blob("dst", 0, 6)), Leaf(Blob("src", 6, 6)), Leaf(ETHERTYPE)]

  const VLAN_SPEC: Spec := [
    Leaf(BitsOf("pcp", 0, 2, 0, 3)), Leaf(BitsOf("dei", 0, 2, 3, 1)), Leaf(BitsOf("vid", 0, 2, 4, 12)),
    Leaf(INNER_ETHERTYPE)]

  const IPV4_SPEC: Spec := [
    Leaf(BitsOf("version", 0, 1, 0, 4)), Leaf(IPV4_IHL), Leaf(BitsOf("dscp", 1, 1, 0, 6)),
    Leaf(BitsOf("ecn", 1, 1, 6, 2)), Leaf(U16("total_length", 2)), Leaf(U16("identification", 4)),
    Leaf(BitsOf("flags", 6, 2, 0, 3)), Leaf(IPV4_FRAG_OFFSET), Leaf(U8("ttl", 8)), Leaf(IPV4_PROTOCOL),
    Leaf(U16("checksum", 10)), Leaf(Blob("src", 12, 4)), Leaf(Blob("dst", 16, 4))]

  const IPV6_SPEC: Spec := [
    Leaf(BitsOf("version", 0, 4, 0, 4)), Leaf(BitsOf("traffic_class", 0, 4, 4, 8)),
    Leaf(BitsOf("flow_label", 0, 4, 12, 20)), Leaf(U16("payload_length", 4)), Leaf(IPV6_NEXT_HEADER),
    Leaf(U8("hop_limit", 7)), Leaf(Blob("src", 8, 16)), Leaf(Blob("dst", 24, 16))]

  const TCP_SPEC: Spec := [
    Leaf(SRC_PORT), Leaf(DST_PORT), Leaf(U32("seq", 4)), Leaf(U32("ack", 8)), Leaf(TCP_DATA_OFFSET),
    Leaf(BitsOf("reserved", 12, 2, 4, 3)), Leaf(BitsOf("flags", 12, 2, 7, 9)), Leaf(U16("window", 14)),
    Leaf(U16("checksum", 16)), Leaf(U16("urgent_ptr", 18))]

  const UDP_SPEC: Spec := [Leaf(SRC_PORT), Leaf(DST_PORT), Leaf(U16("length", 4)), Leaf(U16("checksum", 6))]

  const EXT_OPT_SPEC: Spec := [Leaf(EXT_NEXT_HEADER), Leaf(EXT_LEN)]

  const SRH_SPEC: Spec := [
    Leaf(EXT_NEXT_HEADER), Leaf(EXT_LEN), Leaf(U8("routing_type", 2)), Leaf(U8("segments_left", 3)),
    Leaf(SRH_LAST_ENTRY), Leaf(U8("flags", 5)), Leaf(U16("tag", 6))]

  const FRAGMENT_SPEC: Spec := [
    Leaf(EXT_NEXT_HEADER), Leaf(U8("reserved", 1)), Leaf(FRAGMENT_OFFSET), Leaf(BitsOf("res2", 2, 2, 13, 2)),
    Leaf(BitsOf("more_fragments", 2, 2, 15, 1)), Leaf(U32("identification", 4))]

  const AH_SPEC: Spec := [
    Leaf(EXT_NEXT_HEADER), Leaf(AH_PAYLOAD_LEN), Leaf(U16("reserved", 2)), Leaf(U32("spi", 4)),
    Leaf(U32("seq", 8))]

  // PTP: a common header, and bodies composed from shared sub-records.
  const TIMESTAMP_SPEC: Spec := [
    Leaf(U16("seconds_msb", 0)), Leaf(U32("seconds_lsb", 2)), Leaf(U32("nanoseconds", 6))]

  const PORT_IDENTITY_SPEC: Spec := [Leaf(Blob("clock_identity", 0, 8)), Leaf(U16("port_number", 8))]

  const CLOCK_QUALITY_SPEC: Spec := [
    Leaf(U8("clock_class", 0)), Leaf(U8("clock_accuracy", 1)), Leaf(U16("offset_scaled_log_variance", 2))]

  const PTP_HEADER_LEN: nat := 34

  const PTP_HEADER_SPEC: Spec := [
    Leaf(BitsOf("transport_specific", 0, 1, 0, 4)), Leaf(PTP_MESSAGE_TYPE),
    Leaf(BitsOf("version_ptp", 1, 1, 4, 4)), Leaf(U16("message_length", 2)), Leaf(U8("domain_number", 4)),
    Leaf(U16("flags", 6)), Leaf(U64("correction_field", 8)), Leaf(Blob("clock_identity", 20, 8)),
    Leaf(U16("source_port_number", 28)), Leaf(U16("sequence_id", 30)), Leaf(U8("control_field", 32)),
    Leaf(Scalar("log_message_interval", 33, 1, true, true))]

  const PTP_TIMESTAMP_BODY_SPEC: Spec := [Embed("ts_", 0, TIMESTAMP_SPEC)]

  const PTP_TS_PORT_BODY_SPEC: Spec := [Embed("ts_", 0, TIMESTAMP_SPEC), Embed("req_", 10, PORT_IDENTITY_SPEC)]

  const PTP_ANNOUNCE_BODY_SPEC: Spec := [
    Embed("origin_", 0, TIMESTAMP_SPEC), Leaf(Scalar("current_utc_offset", 10, 2, true, true)),
    Leaf(U8("grandmaster_priority1", 13)), Embed("grandmaster_", 14, CLOCK_QUALITY_SPEC),
    Leaf(U8("grandmaster_priority2", 18)), Leaf(Blob("grandmaster_identity", 19, 8)),
    Leaf(U16("steps_removed", 27)), Leaf(U8("time_source", 29))]

  const PTP_SIGNALING_BODY_SPEC: Spec := [Embed("target_", 0, PORT_IDENTITY_SPEC)]

  const PTP_SYNC: nat := 0x0
  const PTP_DELAY_REQ: nat := 0x1
  const PTP_PDELAY_REQ: nat := 0x2
  const PTP_PDELAY_RESP: nat := 0x3
  const PTP_FOLLOW_UP: nat := 0x8
  const PTP_DELAY_RESP: nat := 0x9
  const PTP_PDELAY_RESP_FOLLOW_UP: nat := 0xA
  const PTP_ANNOUNCE: nat := 0xB
  const PTP_SIGNALING: nat := 0xC

  // SOME/IP and its service discovery payload.
  const SOMEIP_HEADER_LEN: nat := 16
  const SOMEIP_SD_PORT: nat := 30490
  const SD_SERVICE_ID: nat := 0xFFFF
  const SD_METHOD_ID: nat := 0x8100
  const SD_ENTRY_SIZE: nat := 16
  const SD_PREAMBLE_LEN: nat := 8

  const SOMEIP_SPEC: Spec := [
    Leaf(SOMEIP_SERVICE_ID), Leaf(SOMEIP_METHOD_ID), Leaf(SOMEIP_LENGTH), Leaf(U16("client_id", 8)),
    Leaf(U16("session_id", 10)), Leaf(U8("protocol_version", 12)), Leaf(U8("interface_version", 13)),
    Leaf(U8("message_type", 14)), Leaf(U8("return_code", 15))]

  const SD_ENTRIES_LENGTH := U32("entries_length", 4)

  const SD_TYPE := U8("type", 0)
  const SD_INDEX_1ST := U8("index_1st_opts", 1)
  const SD_INDEX_2ND := U8("index_2nd_opts", 2)
  const SD_NUM_OPT_1 := BitsOf("num_opt_1", 3, 1, 0, 4)
  const SD_NUM_OPT_2 := BitsOf("num_opt_2", 3, 1, 4, 4)
  const SD_SERVICE := U16("service_id", 4)
  const SD_INSTANCE := U16("instance_id", 6)
  const SD_MAJOR := U8("major_version", 8)
  const SD_TTL := BitsOf("ttl", 8, 4, 8, 24)
  const SD_MINOR := U32("minor_version", 12)

  const SD_ENTRY_SPEC: Spec := [
    Leaf(SD_TYPE), Leaf(SD_INDEX_1ST), Leaf(SD_INDEX_2ND), Leaf(SD_NUM_OPT_1), Leaf(SD_NUM_OPT_2), Leaf(SD_SERVICE),
    Leaf(SD_INSTANCE), Leaf(SD_MAJOR), Leaf(SD_TTL), Leaf(SD_MINOR)]
}
