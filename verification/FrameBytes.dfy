/** What a frame's bytes say about its headers, read without any walk: the conditions under which the walks agree
    are stated on these. */
module FrameBytes {
  import opened Wire
  import opened ByteWords
  import opened PacketWalk

  /** VLAN tags that fit, when the type before off is et. */
  function TagsFrom(p: seq<byte>, et: nat, off: nat): (k: nat)
    ensures off <= |p| ==> off + 4 * k <= |p|
    decreases |p| - off
  {
    if !IsVlanType(et) || off + 4 > |p| then 0 else 1 + TagsFrom(p, Host16(p, off + 2), off + 4)
  }

  function TagCount(p: seq<byte>): (k: nat)
    ensures 14 <= |p| ==> 14 + 4 * k <= |p|
  {
    if |p| < 14 then 0 else TagsFrom(p, Host16(p, 12), 14)
  }

  /** Where the network header would start: tags are four bytes apart. */
  function NetworkAt(p: seq<byte>): nat { 14 + 4 * TagCount(p) }

  /** The type in front of it; a VLAN type when a tag is cut off. */
  function NetworkType(p: seq<byte>): nat
    requires 14 <= |p|
  {
    Host16(p, NetworkAt(p) - 2)
  }

  predicate L4Fits(p: seq<byte>, proto: nat, off: nat) {
    (proto == IP_PROTO_TCP && off + 20 <= |p|) || (proto == IP_PROTO_UDP && off + 8 <= |p|)
  }

  /** IP and L4 headers from off on, the base IPv6 header leading to L4 only directly. */
  function UpperHeaders(p: seq<byte>, et: nat, off: nat): (n: nat)
    ensures n <= 2
  {
    if et == ETHERTYPE_IPV4 && off + 20 <= |p| then
      if Host16(p, off + 6) % 0x2000 == 0 && L4Fits(p, p[off + 9], off + Ipv4HeaderLen(p, off)) then 2 else 1
    else if et == ETHERTYPE_IPV6 && off + 40 <= |p| then
      if L4Fits(p, p[off + 6], off + 40) then 2 else 1
    else 0
  }

  /** Ethernet, the tags, IP and L4. */
  function HeaderCount(p: seq<byte>): nat {
    if |p| < 14 then 0 else 1 + TagCount(p) + UpperHeaders(p, NetworkType(p), NetworkAt(p))
  }

  predicate IsExtensionType(nh: nat) { nh in {0, 43, 44, 51, 60} }

  predicate MeetsExtension(p: seq<byte>, et: nat, off: nat) {
    et == ETHERTYPE_IPV6 && off + 40 <= |p| && IsExtensionType(p[off + 6])
  }

  /** The frame's IPv6 header announces an extension header. */
  predicate HasExtension(p: seq<byte>) { 14 <= |p| && MeetsExtension(p, NetworkType(p), NetworkAt(p)) }

  /** Following the headers a next-header byte announces, each by its own length field, leads to a TCP or UDP header
      that fits, with at most n headers in all; a later fragment leads nowhere. */
  predicate LeadsToL4(p: seq<byte>, nh: nat, off: nat, n: nat)
    decreases n
  {
    n > 0 &&
    if nh == IP_PROTO_TCP || nh == IP_PROTO_UDP then L4Fits(p, nh, off)
    else if nh == 0 || nh == 60 then
      off + 2 <= |p| && LeadsToL4(p, p[off], off + 8 * ((p[off + 1] as int) + 1), n - 1)
    else if nh == 43 then
      off + 8 <= |p| && LeadsToL4(p, p[off], off + 8 * ((p[off + 1] as int) + 1), n - 1)
    else if nh == 44 then
      off + 8 <= |p| && Host16(p, off + 2) < 8 && LeadsToL4(p, p[off], off + 8, n - 1)
    else if nh == 51 then
      off + 12 <= |p| && LeadsToL4(p, p[off], off + 4 * ((p[off + 1] as int) + 2), n - 1)
    else false
  }

  /** An L4 header lies behind an IPv6 extension header, within the graph walk's 32 headers. */
  predicate L4BehindExtension(p: seq<byte>) {
    HasExtension(p) && TagCount(p) <= 30 && LeadsToL4(p, p[NetworkAt(p) + 6], NetworkAt(p) + 40, 30 - TagCount(p))
  }

  /** One of the two ports of the L4 header at off is SOME/IP service discovery's. */
  predicate NamesSomeip(p: seq<byte>, off: nat)
    requires off + 4 <= |p|
  {
    B2(p, off) == 30490 || B2(p, off + 2) == 30490
  }

  /** A SOME/IP header fits behind the L4 header at off, which ends at end, and a port names it. */
  predicate SomeipFollows(p: seq<byte>, off: nat, end: nat)
    requires off + 4 <= |p|
  {
    NamesSomeip(p, off) && end + 16 <= |p|
  }

  /** One of walk_packet's packed ports is service discovery's, and a SOME/IP header fits at its payload offset. */
  predicate SomeipPayload(p: seq<byte>, r: WalkResult) {
    (r.ports / 0x1_0000 == 30490 || r.ports % 0x1_0000 == 30490) && r.payloadOffset + 16 <= |p|
  }
}
