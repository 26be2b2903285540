/** SOME/IP service discovery: the entries and options of a discovery message, in two child tables. */
module SomeipSd {
  import opened Wire
  import opened WireSpec
  import opened Protocols
  import opened Dag
  import opened DagDecode
  import opened Tables
  import opened Bulk
  import opened Scatter
  import opened BulkIsSerial
  import opened BulkDecode

  const ENTRIES: nat := 0
  const OPTIONS: nat := 1

  /** packet_id, entry_index and ten entry fields; packet_id, option_index, length, type, l4proto, port, address. */
  const SD_WIDTHS: seq<nat> := [12, 7]

  function Word16(p: seq<byte>, off: nat): nat
    requires off + 2 <= |p|
  {
    WordAt(p, off, 2, true)
  }

  function Word32(p: seq<byte>, off: nat): nat
    requires off + 4 <= |p|
  {
    WordAt(p, off, 4, true)
  }

  // ---- where things are -------------------------------------------------------------------------------

  /** A discovery message whose preamble fits: where its entries start, where they are declared to end, and
      where the message ends, clamped to the packet. */
  datatype Region = Region(entries: nat, declaredEnd: nat, end: nat)

  function SdRegion(p: seq<byte>, off: nat): (r: Option<Region>)
    ensures r.Some? ==> off + 24 == r.value.entries <= r.value.declaredEnd && r.value.entries <= r.value.end <= |p|
  {
    if off + SOMEIP_HEADER_LEN > |p| then None
    else if ReadUnsigned(SOMEIP_SERVICE_ID, p, off) != SD_SERVICE_ID ||
            ReadUnsigned(SOMEIP_METHOD_ID, p, off) != SD_METHOD_ID
    then None
    else
      var end := Min(off + 8 + ReadUnsigned(SOMEIP_LENGTH, p, off), |p|);
      var sd := off + SOMEIP_HEADER_LEN;
      if sd + SD_PREAMBLE_LEN > end then None
      else
        var entries := sd + SD_PREAMBLE_LEN;
        Some(Region(entries, entries + ReadUnsigned(SD_ENTRIES_LENGTH, p, sd), end))
  }

  /** Whole entries in the declared array, clamped to the message. */
  function EntryCount(r: Region): nat
    requires r.entries <= r.declaredEnd && r.entries <= r.end
  {
    (Min(r.declaredEnd, r.end) - r.entries) / SD_ENTRY_SIZE
  }

  /** An entry: its index, stored in 8 bits, and its offset. */
  datatype Entry = Entry(index: nat, at: nat)

  function Entries(r: Region): (s: seq<Entry>)
    requires r.entries <= r.declaredEnd && r.entries <= r.end
    ensures |s| == EntryCount(r)
    ensures forall i :: 0 <= i < |s| ==>
      s[i] == Entry(i % 256, r.entries + SD_ENTRY_SIZE * i) && s[i].at + SD_ENTRY_SIZE <= Min(r.declaredEnd, r.end)
  {
    seq(EntryCount(r), i requires 0 <= i < EntryCount(r) => Entry(i % 256, r.entries + SD_ENTRY_SIZE * i))
  }

  /** The options array: present only when its length word fits behind the declared entries. */
  function OptionsStart(p: seq<byte>, r: Region): (o: Option<(nat, nat)>)
    requires r.entries <= r.declaredEnd && r.entries <= r.end <= |p|
    ensures o.Some? ==> r.declaredEnd + 4 == o.value.0 <= o.value.1 <= r.end
  {
    if r.declaredEnd + 4 > r.end then None
    else Some((r.declaredEnd + 4, Min(r.declaredEnd + 4 + Word32(p, r.declaredEnd), r.end)))
  }

  /** An option: its index, stored in 8 bits, its offset, its length field and its type. */
  datatype SdOption = SdOption(index: nat, at: nat, length: nat, kind: nat)

  function OptionsFrom(p: seq<byte>, opt: nat, end: nat, i: nat): (s: seq<SdOption>)
    requires end <= |p|
    ensures forall k :: 0 <= k < |s| ==> s[k].at + 3 + s[k].length <= end
    decreases end - opt
  {
    if opt + 3 > end then []
    else
      var len := Word16(p, opt);
      if opt + 3 + len > end then []
      else [SdOption(i % 256, opt, len, p[opt + 2])] + OptionsFrom(p, opt + 3 + len, end, i + 1)
  }

  function SdOptions(p: seq<byte>, r: Region): (s: seq<SdOption>)
    requires r.entries <= r.declaredEnd && r.entries <= r.end <= |p|
    ensures forall k :: 0 <= k < |s| ==> s[k].at + 3 + s[k].length <= r.end
  {
    match OptionsStart(p, r)
    case None => []
    case Some((from, to)) => OptionsFrom(p, from, to, 0)
  }

  /** Options are visited only behind a complete declared entries array and its length word. */
  lemma OptionsNeedAllEntries(p: seq<byte>, r: Region)
    requires r.entries <= r.declaredEnd && r.entries <= r.end <= |p| && SdOptions(p, r) != []
    ensures r.declaredEnd + 4 <= r.end && |Entries(r)| == (r.declaredEnd - r.entries) / SD_ENTRY_SIZE
  {
  }

  /** The 8-bit entry indices are the true positions exactly up to 256 entries. */
  lemma EntryIndicesExact(r: Region)
    requires r.entries <= r.declaredEnd && r.entries <= r.end
    ensures (forall i :: 0 <= i < |Entries(r)| ==> Entries(r)[i].index == i) <==>
            Min(r.declaredEnd, r.end) - r.entries < 257 * SD_ENTRY_SIZE
  {
    if |Entries(r)| > 256 {
      assert Entries(r)[256].index == 0;
    }
  }

  // ---- the traversal ----------------------------------------------------------------------------------

  method ForEachSdChild(p: seq<byte>, off: nat) returns (es: seq<Entry>, os: seq<SdOption>)
    ensures match SdRegion(p, off)
            case None => es == [] && os == []
            case Some(r) => es == Entries(r) && os == SdOptions(p, r)
  {
    hide ReadUnsigned, WordAt;
    es, os := [], [];
    if off + SOMEIP_HEADER_LEN > |p| {
      return;
    }
    if ReadUnsigned(SOMEIP_SERVICE_ID, p, off) != SD_SERVICE_ID ||
       ReadUnsigned(SOMEIP_METHOD_ID, p, off) != SD_METHOD_ID {
      return;
    }
    var msgEnd := off + 8 + ReadUnsigned(SOMEIP_LENGTH, p, off);
    var end := if msgEnd <= |p| then msgEnd else |p|;
    var sd := off + SOMEIP_HEADER_LEN;
    if sd + SD_PREAMBLE_LEN > end {
      return;
    }
    var entriesLen := ReadUnsigned(SD_ENTRIES_LENGTH, p, sd);
    var entries := sd + SD_PREAMBLE_LEN;
    ghost var r := Region(entries, entries + entriesLen, end);
    var entriesEnd := if entries + entriesLen > end then end else entries + entriesLen;
    var n := (entriesEnd - entries) / SD_ENTRY_SIZE;
    for i := 0 to n
      invariant es == Entries(r)[..i]
    {
      es := es + [Entry(i % 256, entries + i * SD_ENTRY_SIZE)];
    }
    var optLenAt := entries + entriesLen;
    if optLenAt + 4 > end {
      return;
    }
    var optionsLen := Word32(p, optLenAt);
    var opt := optLenAt + 4;
    var optEnd := if opt + optionsLen > end then end else opt + optionsLen;
    os := WalkOptions(p, opt, optEnd);
  }

  method WalkOptions(p: seq<byte>, start: nat, optEnd: nat) returns (os: seq<SdOption>)
    requires optEnd <= |p|
    ensures os == OptionsFrom(p, start, optEnd, 0)
  {
    hide WordAt;
    os := [];
    var opt, oi := start, 0;
    while opt + 3 <= optEnd
      invariant OptionsFrom(p, start, optEnd, 0) == os + OptionsFrom(p, opt, optEnd, oi)
      decreases optEnd - opt
    {
      var len, kind := Word16(p, opt), p[opt + 2];
      var next := opt + 3 + len;
      if next > optEnd {
        break;
      }
      ghost var rest := OptionsFrom(p, next, optEnd, oi + 1);
      assert os + ([SdOption(oi % 256, opt, len, kind)] + rest) == os + [SdOption(oi % 256, opt, len, kind)] + rest;
      os := os + [SdOption(oi % 256, opt, len, kind)];
      oi, opt := oi + 1, next;
    }
  }

  /** The options described without a loop: back to back from the array's start, each inside it, each with the
      length and type its bytes declare, numbered from i, stopping only where the next one would not fit. */
  ghost predicate IsOptionChain(p: seq<byte>, from: nat, end: nat, i: nat, os: seq<SdOption>)
    requires end <= |p|
  {
    && (forall k :: 0 <= k < |os| ==> IsOption(p, end, os[k]) && os[k].index == (i + k) % 256)
    && (os != [] ==> os[0].at == from)
    && (forall k :: 0 < k < |os| ==> os[k].at == OptionEnd(os[k - 1]))
    && !OptionFits(p, if os == [] then from else OptionEnd(os[|os| - 1]), end)
  }

  function OptionEnd(o: SdOption): nat { o.at + 3 + o.length }

  ghost predicate IsOption(p: seq<byte>, end: nat, o: SdOption)
    requires end <= |p|
  {
    OptionFits(p, o.at, end) && o.length == Word16(p, o.at) && o.kind == p[o.at + 2]
  }

  ghost predicate OptionFits(p: seq<byte>, at: nat, end: nat)
    requires end <= |p|
  {
    at + 3 <= end && at + 3 + Word16(p, at) <= end
  }

  lemma {:induction false} OptionsChain(p: seq<byte>, from: nat, end: nat, i: nat)
    requires end <= |p|
    ensures IsOptionChain(p, from, end, i, OptionsFrom(p, from, end, i))
    decreases end - from
  {
    hide WordAt, IsOptionChain;
    if OptionFits(p, from, end) {
      var o := SdOption(i % 256, from, Word16(p, from), p[from + 2]);
      OptionsChain(p, OptionEnd(o), end, i + 1);
      ChainCons(p, end, i, o, OptionsFrom(p, OptionEnd(o), end, i + 1));
    } else {
      ChainNil(p, from, end, i);
    }
  }

  lemma ChainNil(p: seq<byte>, from: nat, end: nat, i: nat)
    requires end <= |p| && !OptionFits(p, from, end)
    ensures IsOptionChain(p, from, end, i, [])
  {
  }

  lemma ChainCons(p: seq<byte>, end: nat, i: nat, o: SdOption, rest: seq<SdOption>)
    requires end <= |p| && IsOption(p, end, o) && o.index == i % 256
    requires IsOptionChain(p, OptionEnd(o), end, i + 1, rest)
    ensures IsOptionChain(p, o.at, end, i, [o] + rest)
  {
    hide WordAt, IsOption, OptionFits;
    var os := [o] + rest;
    forall k | 0 <= k < |os| ensures IsOption(p, end, os[k]) && os[k].index == (i + k) % 256 {
      if k > 0 {
        assert os[k] == rest[k - 1];
      }
    }
    forall k | 0 < k < |os| ensures os[k].at == OptionEnd(os[k - 1]) {
      if k > 1 {
        assert os[k] == rest[k - 1] && os[k - 1] == rest[k - 2];
      }
    }
    assert rest != [] ==> os[|os| - 1] == rest[|rest| - 1];
  }

  lemma {:induction false} ChainsAgree(p: seq<byte>, from: nat, end: nat, a: seq<SdOption>, b: seq<SdOption>, n: nat)
    requires end <= |p| && IsOptionChain(p, from, end, 0, a) && IsOptionChain(p, from, end, 0, b)
    requires n <= |a| <= |b|
    ensures a[..n] == b[..n]
    ensures n == |a| ==> a == b
  {
    hide WordAt;
    if n > 0 {
      ChainsAgree(p, from, end, a, b, n - 1);
      assert n > 1 ==> a[n - 2] == a[..n - 1][n - 2] && b[n - 2] == b[..n - 1][n - 2];
    }
    assert n < |b| ==> IsOption(p, end, b[n]);
    assert n > 0 ==> a[n - 1] == a[..n][n - 1] && b[n - 1] == b[..n][n - 1];
    assert 0 < n < |b| ==> b[n].at == OptionEnd(b[n - 1]);
  }

  /** The traversal's options are the one chain there is. */
  lemma OptionsAreTheChain(p: seq<byte>, from: nat, end: nat, os: seq<SdOption>)
    requires end <= |p|
    ensures os == OptionsFrom(p, from, end, 0) <==> IsOptionChain(p, from, end, 0, os)
  {
    hide OptionsFrom, WordAt;
    OptionsChain(p, from, end, 0);
    var it := OptionsFrom(p, from, end, 0);
    assert IsOptionChain(p, from, end, 0, it);
    if IsOptionChain(p, from, end, 0, os) {
      if |os| <= |it| {
        ChainsAgree(p, from, end, os, it, |os|);
      } else {
        ChainsAgree(p, from, end, it, os, |it|);
      }
    }
  }

  /** From offset at on, n options fit one behind the other, each as long as its own length field says. */
  predicate HoldsOptions(p: seq<byte>, at: nat, end: nat, n: nat)
    requires end <= |p|
    decreases n
  {
    n == 0 || (at + 3 <= end && at + 3 + Word16(p, at) <= end && HoldsOptions(p, at + 3 + Word16(p, at), end, n - 1))
  }

  lemma {:induction false} OptionsHeld(p: seq<byte>, at: nat, end: nat, i: nat, n: nat)
    requires end <= |p|
    ensures |OptionsFrom(p, at, end, i)| >= n <==> HoldsOptions(p, at, end, n)
    decreases n
  {
    hide WordAt;
    if n > 0 && at + 3 <= end && at + 3 + Word16(p, at) <= end {
      OptionsHeld(p, at + 3 + Word16(p, at), end, i + 1, n - 1);
    }
  }

  /** The stored indices are the true ones exactly when the array does not hold 257 options. */
  lemma OptionIndicesExact(p: seq<byte>, from: nat, end: nat)
    requires end <= |p|
    ensures var os := OptionsFrom(p, from, end, 0);
      (forall k :: 0 <= k < |os| ==> os[k].index == k) <==> !HoldsOptions(p, from, end, 257)
  {
    hide OptionsFrom, WordAt, IsOption, OptionFits, HoldsOptions;
    OptionsChain(p, from, end, 0);
    OptionsHeld(p, from, end, 0, 257);
    var os := OptionsFrom(p, from, end, 0);
    assert forall k :: 0 <= k < |os| ==> os[k].index == (0 + k) % 256;
    if |os| > 256 {
      assert os[256].index == 0;
    }
  }

  // ---- endpoint options -------------------------------------------------------------------------------

  predicate IsV4(kind: nat) { kind in {0x04, 0x14, 0x24} }
  predicate IsV6(kind: nat) { kind in {0x06, 0x16, 0x26} }

  datatype Endpoint = Endpoint(address: seq<byte>, l4proto: nat, port: nat)

  function Zeros16(): (z: seq<byte>)
    ensures |z| == 16 && forall i :: 0 <= i < 16 ==> z[i] == 0
  {
    seq(16, _ => 0)
  }

  /** The endpoint of an option at opt: address, a reserved byte, protocol, port. A truncated or other option
      leaves all fields zero. Truncated means past the packet, not past the option. */
  function DecodeEndpoint(p: seq<byte>, opt: nat, kind: nat): (e: Endpoint)
    ensures |e.address| == 16
  {
    if !IsV4(kind) && !IsV6(kind) then Endpoint(Zeros16(), 0, 0)
    else
      var n := if IsV4(kind) then 4 else 16;
      if opt + 4 + n + 4 > |p| then Endpoint(Zeros16(), 0, 0)
      else
        Endpoint(p[opt + 4..opt + 4 + n] + Zeros16()[n..], p[opt + 4 + n + 1], Word16(p, opt + 4 + n + 2))
  }

  method SdDecodeEndpoint(p: seq<byte>, opt: nat, kind: nat) returns (isEndpoint: bool, e: Endpoint)
    ensures e == DecodeEndpoint(p, opt, kind) && isEndpoint == (IsV4(kind) || IsV6(kind))
  {
    hide WordAt;
    var addr := Zeros16();
    var v4, v6 := IsV4(kind), IsV6(kind);
    if !v4 && !v6 {
      return false, Endpoint(addr, 0, 0);
    }
    var n := if v4 then 4 else 16;
    var a := opt + 4;
    var proto := a + n + 1;
    var prt := proto + 1;
    if prt + 2 > |p| {
      return true, Endpoint(addr, 0, 0);
    }
    for i := 0 to n
      invariant |addr| == 16
      invariant forall k :: 0 <= k < 16 ==> addr[k] == if k < i then p[a + k] else 0
    {
      addr := addr[i := p[a + i]];
    }
    assert addr == p[a..a + n] + Zeros16()[n..];
    return true, Endpoint(addr, p[proto], Word16(p, prt));
  }

  /** Bytes from the option's start that an endpoint of its kind takes. */
  function EndpointSize(kind: nat): nat { if IsV4(kind) then 12 else 24 }

  /** Every byte the decoder would store is zero; the two reserved bytes do not matter. */
  predicate EndpointBytesZero(p: seq<byte>, at: nat, kind: nat)
    requires at + EndpointSize(kind) <= |p|
  {
    var end := at + EndpointSize(kind);
    forall j :: at + 4 <= j < end && j != end - 4 ==> p[j] == 0
  }

  lemma ZeroEndpoint(p: seq<byte>, at: nat, kind: nat)
    requires (IsV4(kind) || IsV6(kind)) && at + EndpointSize(kind) <= |p|
    ensures DecodeEndpoint(p, at, kind) == Endpoint(Zeros16(), 0, 0) <==> EndpointBytesZero(p, at, kind)
  {
    var n, e, a := EndpointSize(kind) - 8, DecodeEndpoint(p, at, kind), at + 4;
    SmallWords(p[a + n + 2..a + n + 4]);
    assert forall i :: 0 <= i < n ==> e.address[i] == p[a + i];
    assert forall i :: n <= i < 16 ==> e.address[i] == 0;
    if EndpointBytesZero(p, at, kind) {
      assert e.address == Zeros16();
    } else if e == Endpoint(Zeros16(), 0, 0) {
      assert forall j :: a <= j < a + n ==> p[j] == e.address[j - a] == 0;
    }
  }

  /** An endpoint is a function of its option's own bytes exactly when the option is no endpoint, or is long enough
      to hold one, or the packet is too short to, or all bytes the decoder would store are zero: it looks at the
      packet's end, not at the option's. */
  lemma EndpointIsTheOptionsExactly(p: seq<byte>, end: nat, o: SdOption)
    requires end <= |p| && IsOption(p, end, o)
    ensures DecodeEndpoint(p[..OptionEnd(o)], o.at, o.kind) == DecodeEndpoint(p, o.at, o.kind) <==>
            || (!IsV4(o.kind) && !IsV6(o.kind))
            || o.length + 3 >= EndpointSize(o.kind)
            || o.at + EndpointSize(o.kind) > |p|
            || EndpointBytesZero(p, o.at, o.kind)
  {
    hide EndpointBytesZero;
    var q, at := p[..OptionEnd(o)], o.at;
    if IsV4(o.kind) || IsV6(o.kind) {
      var n := EndpointSize(o.kind) - 8;
      if at + n + 8 <= |q| {
        assert q[at + 4..at + 4 + n] == p[at + 4..at + 4 + n];
        SliceOfSlice(p, 0, OptionEnd(o), at + n + 6, at + n + 8);
        assert p[0..OptionEnd(o)] == q;
      } else if at + n + 8 <= |p| {
        ZeroEndpoint(p, at, o.kind);
      }
    }
  }

  // ---- the rows ---------------------------------------------------------------------------------------

  lemma EntrySpecExtent()
    ensures Extent(SD_ENTRY_SPEC) == SD_ENTRY_SIZE && ValidSpec(SD_ENTRY_SPEC)
  {
    ExtentIs(SD_ENTRY_SPEC, 16, 9);
  }

  lemma EntrySpecSize()
    ensures |Flatten(SD_ENTRY_SPEC)| == 10
    ensures forall i :: 0 <= i < |Flatten(SD_ENTRY_SPEC)| ==>
      Flatten(SD_ENTRY_SPEC)[i].Valid() && Flatten(SD_ENTRY_SPEC)[i].End() <= SD_ENTRY_SIZE
  {
    hide Flatten, Extent, LeafCount, ValidSpec, MaxEnd;
    var spec := SD_ENTRY_SPEC;
    EntrySpecExtent();
    FlatteningPreservesSize(spec);
    FlatteningPreservesValidity(spec);
    MaxEndIsMaximum(Flatten(spec));
    LeafCountOfLeaves(spec);
  }

  lemma {:induction false} LeafCountOfLeaves(spec: Spec)
    requires forall i :: 0 <= i < |spec| ==> spec[i].Leaf?
    ensures LeafCount(spec) == |spec|
  {
    if spec != [] {
      LeafCountOfLeaves(spec[1..]);
    }
  }

  function EntryField(i: nat): (f: Field)
    requires i < 10
    ensures f.Valid() && f.End() <= SD_ENTRY_SIZE
  {
    EntrySpecSize();
    Flatten(SD_ENTRY_SPEC)[i]
  }

  /** packet id, entry index, and the entry's fields in spec order. */
  function EntryRecord(pid: nat, p: seq<byte>, e: Entry): (r: Emit<Value>)
    requires e.at + SD_ENTRY_SIZE <= |p|
    ensures FitsTable(r, SD_WIDTHS)
  {
    Emit(ENTRIES, [Num(pid), Num(e.index)] + seq(10, i requires 0 <= i < 10 => ReadField(EntryField(i), p, e.at)))
  }

  function OptionRecord(pid: nat, p: seq<byte>, o: SdOption): (r: Emit<Value>)
    ensures FitsTable(r, SD_WIDTHS)
  {
    var e := DecodeEndpoint(p, o.at, o.kind);
    Emit(OPTIONS, [Num(pid), Num(o.index), Num(o.length), Num(o.kind), Num(e.l4proto), Num(e.port), Raw(e.address)])
  }

  function EntryRecords(pid: nat, p: seq<byte>, es: seq<Entry>): (r: seq<Emit<Value>>)
    requires forall i :: 0 <= i < |es| ==> es[i].at + SD_ENTRY_SIZE <= |p|
    ensures |r| == |es| && FitTables(r, SD_WIDTHS)
  {
    seq(|es|, i requires 0 <= i < |es| => EntryRecord(pid, p, es[i]))
  }

  function OptionRecords(pid: nat, p: seq<byte>, os: seq<SdOption>): (r: seq<Emit<Value>>)
    ensures |r| == |os| && FitTables(r, SD_WIDTHS)
  {
    seq(|os|, i requires 0 <= i < |os| => OptionRecord(pid, p, os[i]))
  }

  /** The child rows of a SOME/IP header: none unless it is a discovery message. */
  function MessageKids(pid: nat, p: seq<byte>, off: nat): (es: seq<Emit<Value>>)
    ensures FitTables(es, SD_WIDTHS)
  {
    match SdRegion(p, off)
    case None => []
    case Some(r) => EntryRecords(pid, p, Entries(r)) + OptionRecords(pid, p, SdOptions(p, r))
  }

  function KidsOf(pid: nat, p: seq<byte>, vs: seq<Visit>): (es: seq<Emit<Value>>)
    ensures FitTables(es, SD_WIDTHS)
  {
    if vs == [] then []
    else KidsOf(pid, p, vs[..|vs| - 1]) +
         if vs[|vs| - 1].node == Someip then MessageKids(pid, p, vs[|vs| - 1].off) else []
  }

  ghost function SdKids(pid: nat, p: seq<byte>, root: Node): (es: seq<Emit<Value>>)
    ensures FitTables(es, SD_WIDTHS)
  {
    KidsOf(pid, p, Visits(p, root))
  }

  lemma EntryFields()
    ensures EntryField(0) == SD_TYPE && EntryField(1) == SD_INDEX_1ST && EntryField(2) == SD_INDEX_2ND
    ensures EntryField(3) == SD_NUM_OPT_1 && EntryField(4) == SD_NUM_OPT_2 && EntryField(5) == SD_SERVICE
    ensures EntryField(6) == SD_INSTANCE && EntryField(7) == SD_MAJOR && EntryField(8) == SD_TTL
    ensures EntryField(9) == SD_MINOR
  {
    hide Flatten;
    LeavesFlatten(SD_ENTRY_SPEC);
  }

  /** The serial add of an entry: one value per column, each field read by name. */
  method AddEntry(pid: nat, p: seq<byte>, e: Entry) returns (r: Emit<Value>)
    requires e.at + SD_ENTRY_SIZE <= |p|
    ensures r == EntryRecord(pid, p, e)
  {
    hide ReadField, EntryField;
    EntryFields();
    var entryType := ReadFieldAt(SD_TYPE, p, e.at);
    var first := ReadFieldAt(SD_INDEX_1ST, p, e.at);
    var second := ReadFieldAt(SD_INDEX_2ND, p, e.at);
    var count1 := ReadFieldAt(SD_NUM_OPT_1, p, e.at);
    var count2 := ReadFieldAt(SD_NUM_OPT_2, p, e.at);
    var service := ReadFieldAt(SD_SERVICE, p, e.at);
    var instance := ReadFieldAt(SD_INSTANCE, p, e.at);
    var major := ReadFieldAt(SD_MAJOR, p, e.at);
    var ttl := ReadFieldAt(SD_TTL, p, e.at);
    var minor := ReadFieldAt(SD_MINOR, p, e.at);
    r := Emit(ENTRIES, [Num(pid), Num(e.index), entryType, first, second, count1, count2, service, instance, major,
                        ttl, minor]);
    ghost var fields := seq(10, i requires 0 <= i < 10 => ReadField(EntryField(i), p, e.at));
    assert fields == [entryType, first, second, count1, count2, service, instance, major, ttl, minor];
  }

  /** The serial add of an option. */
  method AddOption(pid: nat, p: seq<byte>, o: SdOption) returns (r: Emit<Value>)
    ensures r == OptionRecord(pid, p, o)
  {
    hide DecodeEndpoint;
    var _, e := SdDecodeEndpoint(p, o.at, o.kind);
    r := Emit(OPTIONS, [Num(pid), Num(o.index), Num(o.length), Num(o.kind), Num(e.l4proto), Num(e.port),
                        Raw(e.address)]);
  }

  method EmitEntries(pid: nat, p: seq<byte>, es: seq<Entry>) returns (r: seq<Emit<Value>>)
    requires forall k :: 0 <= k < |es| ==> es[k].at + SD_ENTRY_SIZE <= |p|
    ensures r == EntryRecords(pid, p, es)
  {
    hide EntryRecord;
    r := [];
    for i := 0 to |es|
      invariant r == EntryRecords(pid, p, es)[..i]
    {
      var row := AddEntry(pid, p, es[i]);
      r := r + [row];
    }
  }

  method EmitOptions(pid: nat, p: seq<byte>, os: seq<SdOption>) returns (r: seq<Emit<Value>>)
    ensures r == OptionRecords(pid, p, os)
  {
    hide OptionRecord;
    r := [];
    for i := 0 to |os|
      invariant r == OptionRecords(pid, p, os)[..i]
    {
      var row := AddOption(pid, p, os[i]);
      r := r + [row];
    }
  }

  method EmitMessage(pid: nat, p: seq<byte>, off: nat) returns (r: seq<Emit<Value>>)
    ensures r == MessageKids(pid, p, off)
  {
    hide SdRegion, EntryRecord, OptionRecord, SdOptions;
    var es, os := ForEachSdChild(p, off);
    var head := EmitEntries(pid, p, es);
    var tail := EmitOptions(pid, p, os);
    r := head + tail;
  }

  method CollectSdKids(pid: nat, p: seq<byte>, root: Node) returns (es: seq<Emit<Value>>)
    ensures es == SdKids(pid, p, root)
  {
    hide Trace, MessageKids;
    var vs, _ := Walk(p, root);
    es := [];
    for i := 0 to |vs|
      invariant es == KidsOf(pid, p, vs[..i])
    {
      assert vs[..i + 1][..i] == vs[..i];
      if vs[i].node == Someip {
        var kids := EmitMessage(pid, p, vs[i].off);
        es := es + kids;
      }
    }
    assert vs[..|vs|] == vs;
  }

  // ---- serial and bulk --------------------------------------------------------------------------------

  method DagDecodeWithSd(pid: nat, p: seq<byte>, tabs: TableSet<Value>, kids: TableSet<Value>, root: Node)
    requires tabs.Valid() && tabs.widths == DagWidths() && kids.Valid() && kids.widths == SD_WIDTHS && tabs != kids
    modifies tabs, kids
    ensures tabs.Valid() && tabs.cols == Appended(old(tabs.cols), DagRecords(pid, p, root), tabs.widths)
    ensures kids.Valid() && kids.cols == Appended(old(kids.cols), SdKids(pid, p, root), kids.widths)
  {
    DagDecodePacket(pid, p, tabs, root);
    var es := CollectSdKids(pid, p, root);
    kids.AppendAll(es);
  }

  ghost function SdStream(pkts: seq<DagPacket>, root: Node): (s: seq<seq<Emit<Value>>>)
    ensures |s| == |pkts|
    ensures forall k :: 0 <= k < |pkts| ==> s[k] == SdKids(pkts[k].pid, pkts[k].data, root)
    ensures forall k :: 0 <= k < |pkts| ==> FitTables(s[k], SD_WIDTHS)
    ensures FitTables(Flat(s), SD_WIDTHS)
  {
    var s := seq(|pkts|, k requires 0 <= k < |pkts| => SdKids(pkts[k].pid, pkts[k].data, root));
    FlatFits(s, SD_WIDTHS);
    s
  }

  // ---- the count walk ---------------------------------------------------------------------------------

  lemma EntryTabs(pid: nat, p: seq<byte>, es: seq<Entry>)
    requires forall i :: 0 <= i < |es| ==> es[i].at + SD_ENTRY_SIZE <= |p|
    ensures forall i :: 0 <= i < |es| ==> EntryRecords(pid, p, es)[i].tab == ENTRIES
  {
    hide ReadField, EntryField;
  }

  lemma OptionTabs(pid: nat, p: seq<byte>, os: seq<SdOption>)
    ensures forall i :: 0 <= i < |os| ==> OptionRecords(pid, p, os)[i].tab == OPTIONS
  {
    hide DecodeEndpoint;
  }

  /** A message adds a row per entry and a row per option. */
  lemma MessageCounts(pid: nat, p: seq<byte>, off: nat)
    ensures match SdRegion(p, off)
            case None => MessageKids(pid, p, off) == []
            case Some(r) =>
              && Count(MessageKids(pid, p, off), ENTRIES) == |Entries(r)|
              && Count(MessageKids(pid, p, off), OPTIONS) == |SdOptions(p, r)|
  {
    hide SdRegion, Entries, SdOptions, EntryRecords, OptionRecords, Count;
    match SdRegion(p, off)
    case None =>
    case Some(r) =>
      var a, b := EntryRecords(pid, p, Entries(r)), OptionRecords(pid, p, SdOptions(p, r));
      EntryTabs(pid, p, Entries(r));
      OptionTabs(pid, p, SdOptions(p, r));
      CountConcat(a, b, ENTRIES);
      CountConcat(a, b, OPTIONS);
      OneTableCount(a, ENTRIES);
      OneTableCount(b, OPTIONS);
      NoneCount(a, OPTIONS);
      NoneCount(b, ENTRIES);
  }

  /** The count walk: its visitors are called on every entry and on every option. */
  method CountPacketSdChildren(p: seq<byte>, root: Node, ghost pid: nat) returns (r: Counts)
    ensures CountsOf(r, SdKids(pid, p, root), 2)
  {
    hide Trace, MessageKids, SdRegion, Entries, SdOptions, Count;
    var vs, _ := Walk(p, root);
    var entry, option := 0, 0;
    NoCounts();
    for i := 0 to |vs|
      invariant entry == Count(KidsOf(pid, p, vs[..i]), ENTRIES) % TWO_TO_THE_32
      invariant option == Count(KidsOf(pid, p, vs[..i]), OPTIONS) % TWO_TO_THE_32
    {
      assert vs[..i + 1][..i] == vs[..i];
      if vs[i].node == Someip {
        var es, os := ForEachSdChild(p, vs[i].off);
        ghost var before, kids := KidsOf(pid, p, vs[..i]), MessageKids(pid, p, vs[i].off);
        assert KidsOf(pid, p, vs[..i + 1]) == before + kids;
        MessageCounts(pid, p, vs[i].off);
        CountConcat(before, kids, ENTRIES);
        CountConcat(before, kids, OPTIONS);
        CountUp(before, kids, ENTRIES, entry, |es|);
        CountUp(before, kids, OPTIONS, option, |os|);
        entry := CountVisits(entry, |es|);
        option := CountVisits(option, |os|);
      } else {
        assert KidsOf(pid, p, vs[..i + 1]) == KidsOf(pid, p, vs[..i]);
      }
    }
    assert vs[..|vs|] == vs;
    r := [entry, option];
  }

  lemma NoCounts()
    ensures Count<Value>([], ENTRIES) == Count<Value>([], OPTIONS) == 0
  {
  }

  lemma CountUp(before: seq<Emit<Value>>, kids: seq<Emit<Value>>, t: nat, c: nat, n: nat)
    requires c == Count(before, t) % TWO_TO_THE_32
    requires n == Count(kids, t) || (n == 0 && kids == [])
    ensures (c + n) % TWO_TO_THE_32 == Count(before + kids, t) % TWO_TO_THE_32
  {
    CountConcat(before, kids, t);
  }

  // ---- the scatter walk -------------------------------------------------------------------------------

  /** The twelve stores of an entry's row. */
  method StoreEntry(pid: nat, p: seq<byte>, e: Entry, ei: nat) returns (ws: seq<Write<Value>>)
    requires e.at + SD_ENTRY_SIZE <= |p|
    ensures ws == RowWrites(EntryRecord(pid, p, e), ei)
  {
    hide ReadField, EntryField;
    EntryFields();
    var entryType := ReadFieldAt(SD_TYPE, p, e.at);
    var first := ReadFieldAt(SD_INDEX_1ST, p, e.at);
    var second := ReadFieldAt(SD_INDEX_2ND, p, e.at);
    var count1 := ReadFieldAt(SD_NUM_OPT_1, p, e.at);
    var count2 := ReadFieldAt(SD_NUM_OPT_2, p, e.at);
    var service := ReadFieldAt(SD_SERVICE, p, e.at);
    var instance := ReadFieldAt(SD_INSTANCE, p, e.at);
    var major := ReadFieldAt(SD_MAJOR, p, e.at);
    var ttl := ReadFieldAt(SD_TTL, p, e.at);
    var minor := ReadFieldAt(SD_MINOR, p, e.at);
    ws := [
      Write(ENTRIES, 0, ei, Num(pid)), Write(ENTRIES, 1, ei, Num(e.index)), Write(ENTRIES, 2, ei, entryType),
      Write(ENTRIES, 3, ei, first), Write(ENTRIES, 4, ei, second), Write(ENTRIES, 5, ei, count1),
      Write(ENTRIES, 6, ei, count2), Write(ENTRIES, 7, ei, service), Write(ENTRIES, 8, ei, instance),
      Write(ENTRIES, 9, ei, major), Write(ENTRIES, 10, ei, ttl), Write(ENTRIES, 11, ei, minor)];
    ghost var fields := seq(10, i requires 0 <= i < 10 => ReadField(EntryField(i), p, e.at));
    assert fields == [entryType, first, second, count1, count2, service, instance, major, ttl, minor];
  }

  /** The seven stores of an option's row. */
  method StoreOption(pid: nat, p: seq<byte>, o: SdOption, oi: nat) returns (ws: seq<Write<Value>>)
    ensures ws == RowWrites(OptionRecord(pid, p, o), oi)
  {
    hide DecodeEndpoint;
    var _, e := SdDecodeEndpoint(p, o.at, o.kind);
    ws := [
      Write(OPTIONS, 0, oi, Num(pid)), Write(OPTIONS, 1, oi, Num(o.index)), Write(OPTIONS, 2, oi, Num(o.length)),
      Write(OPTIONS, 3, oi, Num(o.kind)), Write(OPTIONS, 4, oi, Num(e.l4proto)), Write(OPTIONS, 5, oi, Num(e.port)),
      Write(OPTIONS, 6, oi, Raw(e.address))];
  }

  /** The entry visitor: each entry takes the next row. */
  method ScatterEntries(pid: nat, p: seq<byte>, es: seq<Entry>, ei: nat, ghost oi: nat)
    returns (ws: seq<Write<Value>>, next: nat)
    requires forall i :: 0 <= i < |es| ==> es[i].at + SD_ENTRY_SIZE <= |p|
    ensures Reach(EntryRecords(pid, p, es), 2) && ws == PacketWrites(EntryRecords(pid, p, es), [ei, oi])
    ensures CursorsAfter(EntryRecords(pid, p, es), [ei, oi]) == [next, oi]
  {
    hide EntryRecord, RowWrites, KernelAt, PacketWrites, CursorsAfter;
    ghost var rows, base := EntryRecords(pid, p, es), [ei, oi];
    EntryTabs(pid, p, es);
    ws, next := [], ei;
    KernelStarts(rows, base);
    for i := 0 to |es|
      invariant KernelAt(rows, i, base, ws, [next, oi])
    {
      var row := StoreEntry(pid, p, es[i], next);
      KernelSteps(rows, i, base, ws, [next, oi], row);
      assert Bump([next, oi], ENTRIES) == [Add32(next, 1), oi];
      ws, next := ws + row, Add32(next, 1);
    }
    KernelEnds(rows, base, ws, [next, oi]);
  }

  /** The option visitor. */
  method ScatterOptions(pid: nat, p: seq<byte>, os: seq<SdOption>, ghost ei: nat, oi: nat)
    returns (ws: seq<Write<Value>>, next: nat)
    ensures Reach(OptionRecords(pid, p, os), 2) && ws == PacketWrites(OptionRecords(pid, p, os), [ei, oi])
    ensures CursorsAfter(OptionRecords(pid, p, os), [ei, oi]) == [ei, next]
  {
    hide OptionRecord, RowWrites, KernelAt, PacketWrites, CursorsAfter;
    ghost var rows, base := OptionRecords(pid, p, os), [ei, oi];
    OptionTabs(pid, p, os);
    ws, next := [], oi;
    KernelStarts(rows, base);
    for i := 0 to |os|
      invariant KernelAt(rows, i, base, ws, [ei, next])
    {
      var row := StoreOption(pid, p, os[i], next);
      KernelSteps(rows, i, base, ws, [ei, next], row);
      assert Bump([ei, next], OPTIONS) == [ei, Add32(next, 1)];
      ws, next := ws + row, Add32(next, 1);
    }
    KernelEnds(rows, base, ws, [ei, next]);
  }

  method ScatterMessage(pid: nat, p: seq<byte>, off: nat, ei: nat, oi: nat)
    returns (ws: seq<Write<Value>>, ei': nat, oi': nat)
    ensures Reach(MessageKids(pid, p, off), 2) && ws == PacketWrites(MessageKids(pid, p, off), [ei, oi])
    ensures CursorsAfter(MessageKids(pid, p, off), [ei, oi]) == [ei', oi']
  {
    hide SdRegion, Entries, SdOptions, EntryRecords, OptionRecords, PacketWrites, CursorsAfter;
    var es, os := ForEachSdChild(p, off);
    if SdRegion(p, off).None? {
      NoWrites<Value>([ei, oi]);
      return [], ei, oi;
    }
    var head, tail;
    head, ei' := ScatterEntries(pid, p, es, ei, oi);
    tail, oi' := ScatterOptions(pid, p, os, ei', oi);
    WritesConcat(EntryRecords(pid, p, es), OptionRecords(pid, p, os), [ei, oi]);
    ws := head + tail;
  }

  /** The scatter walk: two cursors, starting at the packet's bases. */
  method ScatterPacketSdChildren(pid: nat, p: seq<byte>, root: Node, base: Counts) returns (ws: seq<Write<Value>>)
    requires |base| == 2
    ensures Reach(SdKids(pid, p, root), 2) && ws == PacketWrites(SdKids(pid, p, root), base)
  {
    hide Trace, MessageKids, PacketWrites, CursorsAfter;
    var vs, _ := Walk(p, root);
    var ei, oi := base[0], base[1];
    ws := [];
    NoWrites<Value>(base);
    for i := 0 to |vs|
      invariant Reach(KidsOf(pid, p, vs[..i]), 2) && ws == PacketWrites(KidsOf(pid, p, vs[..i]), base)
      invariant CursorsAfter(KidsOf(pid, p, vs[..i]), base) == [ei, oi]
    {
      assert vs[..i + 1][..i] == vs[..i];
      ghost var before := KidsOf(pid, p, vs[..i]);
      if vs[i].node == Someip {
        var more, e, o := ScatterMessage(pid, p, vs[i].off, ei, oi);
        WritesConcat(before, MessageKids(pid, p, vs[i].off), base);
        ws, ei, oi := ws + more, e, o;
      } else {
        assert KidsOf(pid, p, vs[..i + 1]) == before;
      }
    }
    assert vs[..|vs|] == vs;
  }

  /** Bulk: a count walk, the scan, the resize and a scatter walk; all 19 columns of both tables end as if every
      packet's children had been appended in order. */
  method SomeipSdBulk(pkts: seq<DagPacket>, kids: TableSet<Value>, root: Node, ex: Executor)
    requires kids.Valid() && kids.widths == SD_WIDTHS
    requires TotalsFit(kids.cols, Flat(SdStream(pkts, root))) && ExecutorFits(ex, Min(|pkts|, 64), |pkts|)
    modifies kids
    ensures kids.Valid() && kids.cols == Appended(old(kids.cols), Flat(SdStream(pkts, root)), SD_WIDTHS)
  {
    hide SdKids, Appended, Running, CountsOf, PacketWrites, RunsEachOnce, WorkOf, Resized;
    ghost var stream := SdStream(pkts, root);
    var np := |pkts|;
    var per := [];
    for k := 0 to np
      invariant kids.Valid() && kids.cols == old(kids.cols)
      invariant |per| == k && forall j :: 0 <= j < k ==> CountsOf(per[j], stream[j], 2)
    {
      var c := CountPacketSdChildren(pkts[k].data, root, pkts[k].pid);
      per := per + [c];
    }
    var base, run := ExclusiveScan(kids, per, stream);
    EveryExecutorRunsEachOnce(ex, Min(np, 64), np);
    ghost var job := Job(kids.cols, kids.widths, stream, WorkOf(ex, Min(np, 64), np), Num(0));
    kids.Resize(run, Num(0));
    var kernels := [];
    for k := 0 to np
      invariant kids.Valid() && kids.cols == Resized(job.start, Running(job.start, job.pkts), job.fill)
      invariant |kernels| == k && forall j :: 0 <= j < k ==> job.Reaches(j) && kernels[j] == WritesOf(job, j)
    {
      var ws := ScatterPacketSdChildren(pkts[k].pid, pkts[k].data, root, base[k]);
      kernels := kernels + [ws];
    }
    ScatterAll(kids, kernels, ex, Min(np, 64), job);
    GoalIs(job);
  }

  lemma SdBulkEqualsSerial(pkts: seq<DagPacket>, root: Node, job: Job<Value>, sched: seq<nat>)
    requires job.Valid() && job.widths == SD_WIDTHS && job.pkts == SdStream(pkts, root)
    requires Legal(Init(job), sched) && Finished(Run(Init(job), sched))
    ensures Run(Init(job), sched).tabs == Appended(job.start, Flat(SdStream(pkts, root)), SD_WIDTHS) <==>
            TotalsFit(job.start, Flat(SdStream(pkts, root)))
  {
    BulkEqualsSerial(job, sched);
  }
}
