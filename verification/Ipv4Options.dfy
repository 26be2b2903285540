/** The options of an IPv4 header, RFC 791 section 3.1: self-inclusive lengths, one-byte markers. */
module Ipv4Options {
  import opened Wire
  import opened ByteWords
  import opened WireSpec
  import opened Protocols
  import opened Dag
  import opened Tlv

  /** What a visit reports: the option type and its length on the wire. */
  datatype Option4 = Option4(kind: nat, onWire: nat)

  function ReportOf(r: Record): Option4 { Option4(r.kind, OnWire(r)) }

  function Reports(rs: seq<Record>): seq<Option4> {
    seq(|rs|, i requires 0 <= i < |rs| => ReportOf(rs[i]))
  }

  /** End of the header as it declares itself, clamped to the packet. */
  function DeclaredEnd(p: seq<byte>, off: nat): nat
    requires Fits(p, Ipv4, off)
  {
    Min(off + ReadUnsigned(IPV4_IHL, p, off) * 4, |p|)
  }

  /** The option records of the header at off; none when the declared header is not longer than its fixed part. */
  function OptionRecords(p: seq<byte>, off: nat): seq<Record>
    requires Fits(p, Ipv4, off)
  {
    Records(p, off + 20, DeclaredEnd(p, off), PadMode.Ipv4Options)
  }

  /** The traversal all passes share; the callback's calls are returned in order. */
  method ForEachIpv4Opt(p: seq<byte>, off: nat) returns (visits: seq<Option4>)
    requires Fits(p, Ipv4, off)
    ensures visits == Reports(OptionRecords(p, off))
  {
    hide ReadUnsigned, NextRecord, ReportOf;
    visits := [];
    var hdrLen := ReadUnsigned(IPV4_IHL, p, off) * 4;
    var end := if off + hdrLen <= |p| then off + hdrLen else |p|;
    if hdrLen <= 20 || off + 20 >= end {
      NoOptions(p, off);
      return;
    }
    var c := new TlvCursor(off + 20, end, PadMode.Ipv4Options);
    ghost var done: seq<Record> := [];
    var r := c.Next(p);
    while r.Some?
      invariant c.end == end && c.pad == PadMode.Ipv4Options && (r.Some? ==> c.p <= end)
      invariant OptionRecords(p, off) ==
                done + (if r.Some? then [r.value] + Records(p, c.p, end, PadMode.Ipv4Options) else [])
      invariant visits == Reports(done)
      decreases r.Some?, end - c.p
    {
      ghost var rest := Records(p, c.p, end, PadMode.Ipv4Options);
      assert done + ([r.value] + rest) == done + [r.value] + rest;
      visits := visits + [ReportOf(r.value)];
      done := done + [r.value];
      r := c.Next(p);
    }
    assert done == OptionRecords(p, off);
  }

  lemma NoOptions(p: seq<byte>, off: nat)
    requires Fits(p, Ipv4, off) && off + 20 >= DeclaredEnd(p, off)
    ensures OptionRecords(p, off) == []
  {
    hide ReadUnsigned;
    EmptyRegion(p, off + 20, DeclaredEnd(p, off), PadMode.Ipv4Options);
  }

  /** The low half of the first byte counts 4-byte words; an option is reported with its kind and the length its second
      byte gives, a marker with length 1. */
  lemma OptionsOnTheWire(p: seq<byte>, off: nat)
    requires Fits(p, Ipv4, off)
    ensures var end := Min(off + 4 * ((p[off] % 16) as int), |p|);
      OptionRecords(p, off) == Records(p, off + 20, end, PadMode.Ipv4Options)
    ensures forall at: nat, end: nat, r: Record, next: nat ::
      end <= |p| && IsRecord(p, at, end, PadMode.Ipv4Options, r, next) ==>
      ReportOf(r) == Option4(p[at], if p[at] <= 1 then 1 else p[at + 1])
  {
    hide Records;
    WordIsBytes(p, off, 1);
    assert Pow2(0) == 1 && Pow2(4) == 16;
  }

  function TotalOnWire(os: seq<Option4>): nat { if os == [] then 0 else os[0].onWire + TotalOnWire(os[1..]) }

  /** The reported lengths add up to the bytes walked, which stay inside the declared header and the packet. */
  lemma ReportedLengthsAddUp(p: seq<byte>, off: nat)
    requires Fits(p, Ipv4, off)
    ensures var end := DeclaredEnd(p, off);
      TotalOnWire(Reports(OptionRecords(p, off))) ==
      (if off + 20 <= end then StopsAt(p, off + 20, end, PadMode.Ipv4Options) - (off + 20) else 0)
    ensures TotalOnWire(Reports(OptionRecords(p, off))) <= Max(DeclaredEnd(p, off), off + 20) - (off + 20)
  {
    hide ReadUnsigned, Records;
    SumsAgree(OptionRecords(p, off));
    if off + 20 <= DeclaredEnd(p, off) {
      OnWireLengthsAddUp(p, off + 20, DeclaredEnd(p, off));
    } else {
      NoOptions(p, off);
    }
  }

  lemma {:induction false} SumsAgree(rs: seq<Record>)
    ensures TotalOnWire(Reports(rs)) == OnWireSum(rs)
  {
    hide OnWire;
    if rs != [] {
      SumsAgree(rs[1..]);
      assert Reports(rs)[1..] == Reports(rs[1..]);
    }
  }
}
