/** Service discovery on its bytes: where a message's arrays are, and what the rows of its entries and options hold. */
module SdWire {
  import opened Wire
  import opened ByteWords
  import opened WireSpec
  import opened Protocols
  import opened Dag
  import opened Tables
  import opened NodeBytes
  import opened SomeipSd
  import opened WalkBytes

  // ---- the message ------------------------------------------------------------------------------------

  /** A discovery message: message id 0xFFFF 0x8100, whose length counts from byte 8 on; the entries' length in bytes
      20 to 23 and the entries behind it. */
  function WireRegion(p: seq<byte>, off: nat): Option<Region> {
    if off + 16 > |p| || B2(p, off) != 0xFFFF || B2(p, off + 2) != 0x8100 then None
    else
      var end := Min(off + 8 + B4(p, off + 4), |p|);
      if off + 24 > end then None else Some(Region(off + 24, off + 24 + B4(p, off + 20), end))
  }

  lemma RegionOnTheWire(p: seq<byte>, off: nat)
    ensures SdRegion(p, off) == WireRegion(p, off)
  {
    hide WordAt, B2, B4;
    if off + 16 <= |p| {
      WordIsBytes(p, off, 2);
      WordIsBytes(p, off + 2, 2);
      WordIsBytes(p, off + 4, 4);
    }
    if off + 24 <= |p| {
      WordIsBytes(p, off + 20, 4);
    }
  }

  /** The options' length is the big-endian word behind the declared entries. */
  lemma OptionsOnTheWire(p: seq<byte>, r: Region)
    requires r.entries <= r.declaredEnd && r.entries <= r.end <= |p|
    ensures OptionsStart(p, r) ==
      if r.declaredEnd + 4 > r.end then None
      else Some((r.declaredEnd + 4, Min(r.declaredEnd + 4 + B4(p, r.declaredEnd), r.end)))
  {
    hide WordAt, B4;
    if r.declaredEnd + 4 <= r.end {
      WordIsBytes(p, r.declaredEnd, 4);
    }
  }

  /** Each option: two bytes of length, one of type, and that many more bytes. */
  lemma OptionsAreBytes(p: seq<byte>, opt: nat, end: nat, i: nat)
    requires end <= |p|
    ensures var os := OptionsFrom(p, opt, end, i);
      forall k :: 0 <= k < |os| ==>
        os[k].at + 3 <= end && os[k].length == B2(p, os[k].at) && os[k].kind == p[os[k].at + 2] &&
        os[k].at == if k == 0 then opt else os[k - 1].at + 3 + os[k - 1].length
  {
    hide WordAt, B2, OptionsFrom;
    OptionsChain(p, opt, end, i);
    var os := OptionsFrom(p, opt, end, i);
    forall k | 0 <= k < |os| ensures os[k].at + 3 <= end && os[k].length == B2(p, os[k].at) {
      assert IsOption(p, end, os[k]);
      WordIsBytes(p, os[k].at, 2);
    }
  }

  // ---- the rows ---------------------------------------------------------------------------------------

  lemma EntryFieldBytes(p: seq<byte>, at: nat)
    requires at + 16 <= |p|
    ensures ReadField(SD_TYPE, p, at) == Num(p[at]) && ReadField(SD_INDEX_1ST, p, at) == Num(p[at + 1])
    ensures ReadField(SD_INDEX_2ND, p, at) == Num(p[at + 2])
    ensures ReadField(SD_NUM_OPT_1, p, at) == Num(p[at + 3] / 16)
    ensures ReadField(SD_NUM_OPT_2, p, at) == Num(p[at + 3] % 16)
    ensures ReadField(SD_SERVICE, p, at) == Num(B2(p, at + 4)) && ReadField(SD_INSTANCE, p, at) == Num(B2(p, at + 6))
    ensures ReadField(SD_MAJOR, p, at) == Num(p[at + 8])
    ensures ReadField(SD_TTL, p, at) == Num(B4(p, at + 8) % 0x100_0000)
    ensures ReadField(SD_MINOR, p, at) == Num(B4(p, at + 12))
  {
    hide WordAt, B2, B4, Pow2;
    Powers();
    Pow2Values();
    WordIsBytes(p, at, 1);
    WordIsBytes(p, at + 1, 1);
    WordIsBytes(p, at + 2, 1);
    WordIsBytes(p, at + 3, 1);
    WordIsBytes(p, at + 4, 2);
    WordIsBytes(p, at + 6, 2);
    WordIsBytes(p, at + 8, 1);
    WordIsBytes(p, at + 8, 4);
    WordIsBytes(p, at + 12, 4);
  }

  /** The twelve columns of an entry's row. */
  lemma EntryRow(pid: nat, p: seq<byte>, e: Entry)
    requires e.at + 16 <= |p|
    ensures EntryRecord(pid, p, e) ==
            Emit(0, [Num(pid), Num(e.index), Num(p[e.at]), Num(p[e.at + 1]), Num(p[e.at + 2]), Num(p[e.at + 3] / 16),
                     Num(p[e.at + 3] % 16), Num(B2(p, e.at + 4)), Num(B2(p, e.at + 6)), Num(p[e.at + 8]),
                     Num(B4(p, e.at + 8) % 0x100_0000), Num(B4(p, e.at + 12))])
  {
    hide ReadField, EntryField, B2, B4;
    EntryFields();
    EntryFieldBytes(p, e.at);
  }

  // ---- endpoints --------------------------------------------------------------------------------------

  predicate IsV4Kind(kind: nat) { kind == 4 || kind == 20 || kind == 36 }
  predicate IsV6Kind(kind: nat) { kind == 6 || kind == 22 || kind == 38 }

  /** An endpoint option: length (its bytes behind the type) and type; reserved, address, reserved, protocol, port. */
  function EndpointOption(kind: byte, address: seq<byte>, proto: byte, port: nat): seq<byte>
    requires |address| <= 16 && port < 0x1_0000
  {
    [0, |address| + 5, kind, 0] + address + [0, proto, port / 0x100, port % 0x100]
  }

  /** For every endpoint kind, address, protocol and port, what is decoded from the option is what was written,
      wherever it lies; an IPv4 address is followed by zeros. */
  lemma EndpointRoundTrip(p: seq<byte>, at: nat, kind: byte, address: seq<byte>, proto: byte, port: nat)
    requires port < 0x1_0000
    requires (IsV4Kind(kind) && |address| == 4) || (IsV6Kind(kind) && |address| == 16)
    requires at <= |p| && EndpointOption(kind, address, proto, port) <= p[at..]
    ensures var e := DecodeEndpoint(p, at, kind);
      && e.l4proto == proto && e.port == port
      && |e.address| == 16 && e.address[..|address|] == address
      && forall i :: |address| <= i < 16 ==> e.address[i] == 0
  {
    hide WordAt;
    var o, n := EndpointOption(kind, address, proto, port), |address|;
    assert forall i :: 0 <= i < |o| ==> p[at + i] == p[at..][i] == o[i];
    assert p[at + 4..at + 4 + n] == address by {
      assert forall i :: 0 <= i < n ==> o[4 + i] == address[i];
    }
    var port0 := at + 4 + n + 2;
    WordIsBytes(p, port0, 2);
    assert p[port0] == o[n + 6] == port / 0x100 && p[port0 + 1] == o[n + 7] == port % 0x100;
    assert p[at + 4 + n + 1] == o[n + 5] == proto;
  }

  /** Options of other kinds have no endpoint. */
  lemma OtherKindsHaveNone(p: seq<byte>, at: nat, kind: nat)
    requires !IsV4Kind(kind) && !IsV6Kind(kind)
    ensures DecodeEndpoint(p, at, kind) == Endpoint(Zeros16(), 0, 0)
  {
  }

  /** The seven columns of an IPv4 endpoint's row. */
  lemma EndpointRow(pid: nat, p: seq<byte>, o: SdOption, address: seq<byte>, proto: byte, port: nat)
    requires IsV4Kind(o.kind) && |address| == 4 && port < 0x1_0000
    requires o.at <= |p| && EndpointOption(o.kind, address, proto, port) <= p[o.at..]
    ensures OptionRecord(pid, p, o) ==
            Emit(1, [Num(pid), Num(o.index), Num(o.length), Num(o.kind), Num(proto), Num(port),
                     Raw(address + [0, 0, 0, 0, 0, 0, 0, 0, 0, 0, 0, 0])])
  {
    hide DecodeEndpoint, EndpointOption;
    EndpointRoundTrip(p, o.at, o.kind, address, proto, port);
    var e := DecodeEndpoint(p, o.at, o.kind);
    assert e.address == e.address[..4] + e.address[4..];
    assert e.address[4..] == [0, 0, 0, 0, 0, 0, 0, 0, 0, 0, 0, 0];
  }

  // ---- packets ----------------------------------------------------------------------------------------

  /** A SOME/IP header ends the walk. */
  lemma SomeipIsLastVisit(p: seq<byte>, i: nat)
    requires i < |Visits(p, Eth)| && Visits(p, Eth)[i].node == Someip
    ensures i == |Visits(p, Eth)| - 1
  {
    hide Trace, IsWireWalk;
    VisitsOnTheWire(p, Visits(p, Eth));
    NothingFollows(p, Visits(p, Eth), i);
  }

  lemma NothingFollows(p: seq<byte>, vs: seq<Visit>, i: nat)
    requires IsWireWalk(p, vs) && i < |vs| && vs[i].node == Someip
    ensures i == |vs| - 1
  {
    var k := i + 1;
    assert k < |vs| ==> FollowsOnTheWire(p, vs[k - 1], vs[k]);
  }

  lemma {:induction false} NoSomeipNoKids(pid: nat, p: seq<byte>, vs: seq<Visit>)
    requires forall i :: 0 <= i < |vs| ==> vs[i].node != Someip
    ensures KidsOf(pid, p, vs) == []
  {
    hide MessageKids;
    if vs != [] {
      NoSomeipNoKids(pid, p, vs[..|vs| - 1]);
    }
  }

  /** A packet's discovery rows are those of the SOME/IP header its walk ends with; without one it has none. */
  lemma SdKidsAreTheLast(pid: nat, p: seq<byte>)
    ensures var vs := Visits(p, Eth);
      SdKids(pid, p, Eth) ==
        if vs != [] && vs[|vs| - 1].node == Someip then MessageKids(pid, p, vs[|vs| - 1].off) else []
  {
    hide Trace, MessageKids;
    var vs := Visits(p, Eth);
    forall i | 0 <= i < |vs| && vs[i].node == Someip ensures i == |vs| - 1 {
      SomeipIsLastVisit(p, i);
    }
    if vs != [] {
      NoSomeipNoKids(pid, p, vs[..|vs| - 1]);
    }
  }

  /** The rows of a message: one per whole entry of the declared array that lies in the message, then one per option. */
  lemma MessageRows(pid: nat, p: seq<byte>, off: nat)
    ensures match WireRegion(p, off)
            case None => MessageKids(pid, p, off) == []
            case Some(r) =>
              && r.entries <= r.declaredEnd && r.entries <= r.end <= |p|
              && var n, os := (Min(r.declaredEnd, r.end) - r.entries) / 16, SdOptions(p, r);
                 var es := MessageKids(pid, p, off);
                 && |es| == n + |os|
                 && (forall i :: 0 <= i < n ==>
                       r.entries + 16 * i + 16 <= |p| &&
                       es[i] == EntryRecord(pid, p, Entry(i % 256, r.entries + 16 * i)))
                 && (forall k :: 0 <= k < |os| ==> es[n + k] == OptionRecord(pid, p, os[k]))
  {
    hide EntryRecord, OptionRecord, OptionsFrom, B2, B4;
    RegionOnTheWire(p, off);
  }
}
