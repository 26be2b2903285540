/** Legacy captures: a builder of their bytes, and what scanning and parsing recover from them. */
module PcapLegacy {
  import opened Wire
  import opened PcapBlocks
  import opened PcapParse
  import opened PcapBuild
  import opened PcapRoundTrip

  /** A record to build; its captured length is its data's. */
  datatype Rec = Rec(sec: nat, frac: nat, origlen: nat, data: seq<byte>)
  {
    predicate Valid() {
      sec < TWO_TO_THE_32 && frac < TWO_TO_THE_32 && origlen < TWO_TO_THE_32 && |data| + 16 < TWO_TO_THE_32
    }
  }

  /** What the global header says: byte order, nanosecond or microsecond timestamps, link type. */
  datatype Global = Global(le: bool, nanos: bool, linkType: nat)
  {
    predicate Valid() { linkType < TWO_TO_THE_32 }

    function Magic(): nat { if nanos then PCAP_MAGIC_NANOS_LE else PCAP_MAGIC_MICROS_LE }
  }

  function GlobalHeader(g: Global): (s: seq<byte>)
    ensures |s| == 24
  {
    Enc(g.Magic(), 4, g.le) + Enc(2, 2, g.le) + Enc(4, 2, g.le) + Enc(0, 4, g.le) + Enc(0, 4, g.le) +
    Enc(65535, 4, g.le) + Enc(g.linkType, 4, g.le)
  }

  function RecFixed(r: Rec, le: bool): (s: seq<byte>)
    ensures |s| == 16
  {
    Enc(r.sec, 4, le) + Enc(r.frac, 4, le) + Enc(|r.data| % TWO_TO_THE_32, 4, le) + Enc(r.origlen, 4, le)
  }

  function RecBytes(r: Rec, le: bool): (s: seq<byte>)
    ensures |s| == 16 + |r.data|
  {
    RecFixed(r, le) + r.data
  }

  function Records(rs: seq<Rec>, le: bool): seq<byte> {
    if rs == [] then [] else RecBytes(rs[0], le) + Records(rs[1..], le)
  }

  function LegacyFile(g: Global, rs: seq<Rec>): seq<byte> { GlobalHeader(g) + Records(rs, g.le) }

  // ---- the builder ------------------------------------------------------------------------------------

  method AppendGlobal(b: Builder, g: Global)
    requires b.le == g.le
    modifies b
    ensures b.bytes == old(b.bytes) + GlobalHeader(g)
  {
    hide Enc;
    b.Word(g.Magic(), 4);
    b.U16(2);
    b.U16(4);
    b.Word(0, 4);
    b.Word(0, 4);
    b.Word(65535, 4);
    b.Word(g.linkType, 4);
  }

  method AppendRec(b: Builder, r: Rec)
    modifies b
    ensures b.bytes == old(b.bytes) + RecBytes(r, b.le)
  {
    hide Enc;
    b.Word(r.sec, 4);
    b.Word(r.frac, 4);
    b.Word(|r.data| % TWO_TO_THE_32, 4);
    b.Word(r.origlen, 4);
    b.Raw(r.data);
  }

  method BuildPcap(g: Global, rs: seq<Rec>) returns (s: seq<byte>)
    ensures s == LegacyFile(g, rs)
  {
    hide GlobalHeader, RecBytes;
    var b := new Builder(g.le);
    AppendGlobal(b, g);
    for i := 0 to |rs|
      invariant LegacyFile(g, rs) == b.bytes + Records(rs[i..], g.le)
    {
      RecordsSplit(rs, i, g.le, b.bytes);
      AppendRec(b, rs[i]);
    }
    s := b.bytes;
  }

  lemma RecordsSplit(rs: seq<Rec>, i: nat, le: bool, head: seq<byte>)
    requires i < |rs|
    ensures head + Records(rs[i..], le) == head + RecBytes(rs[i], le) + Records(rs[i + 1..], le)
  {
    hide RecBytes;
    assert rs[i..][0] == rs[i] && rs[i..][1..] == rs[i + 1..];
    assert head + (RecBytes(rs[i], le) + Records(rs[i + 1..], le)) ==
           head + RecBytes(rs[i], le) + Records(rs[i + 1..], le);
  }

  // ---- the scan ---------------------------------------------------------------------------------------

  lemma RecParts(r: Rec, le: bool)
    ensures var s := RecFixed(r, le);
      && s[0..4] == Enc(r.sec, 4, le) && s[4..8] == Enc(r.frac, 4, le)
      && s[8..12] == Enc(|r.data| % TWO_TO_THE_32, 4, le) && s[12..16] == Enc(r.origlen, 4, le)
    ensures RecBytes(r, le)[0..16] == RecFixed(r, le) && RecBytes(r, le)[16..16 + |r.data|] == r.data
  {
  }

  lemma FixedReads(r: Rec, le: bool, file: seq<byte>, pos: nat)
    requires r.Valid() && LiesAt(file, pos, RecFixed(r, le))
    ensures Rd32(file, pos, le) == r.sec && Rd32(file, pos + 4, le) == r.frac
    ensures Rd32(file, pos + 8, le) == |r.data| && Rd32(file, pos + 12, le) == r.origlen
  {
    hide Enc, WordAt, RecFixed, RecBytes, Pow2, Pad4;
    RecParts(r, le);
    SmallPads();
    ReadBack(file, pos, RecFixed(r, le), 0, 4, r.sec, le);
    ReadBack(file, pos, RecFixed(r, le), 4, 4, r.frac, le);
    ReadBack(file, pos, RecFixed(r, le), 8, 4, |r.data|, le);
    ReadBack(file, pos, RecFixed(r, le), 12, 4, r.origlen, le);
  }

  lemma RecReads(r: Rec, le: bool, file: seq<byte>, pos: nat)
    requires r.Valid() && LiesAt(file, pos, RecBytes(r, le))
    ensures Rd32(file, pos, le) == r.sec && Rd32(file, pos + 4, le) == r.frac
    ensures Rd32(file, pos + 8, le) == |r.data| && Rd32(file, pos + 12, le) == r.origlen
    ensures LiesAt(file, pos + 16, r.data)
  {
    hide Enc, Rd32, RecFixed, RecBytes;
    RecParts(r, le);
    InnerLies(file, pos, RecBytes(r, le), 0, RecFixed(r, le));
    InnerLies(file, pos, RecBytes(r, le), 16, r.data);
    FixedReads(r, le, file, pos);
  }

  function RecRef(r: Rec, g: Global, pos: nat): BlockRef {
    BlockRef(pos, 16 + |r.data|, g.linkType, PcapRecord, g.le)
  }

  function RecRefs(rs: seq<Rec>, g: Global, pos: nat): (refs: seq<BlockRef>)
    ensures |refs| == |rs|
  {
    if rs == [] then [] else [RecRef(rs[0], g, pos)] + RecRefs(rs[1..], g, pos + 16 + |rs[0].data|)
  }

  lemma {:induction false} BuiltRecordsAreFound(rs: seq<Rec>, g: Global, file: seq<byte>, pos: nat)
    requires forall i :: 0 <= i < |rs| ==> rs[i].Valid()
    requires pos <= |file| && file[pos..] == Records(rs, g.le)
    ensures var s := ScanFrom(State(true, false, g.le, g.linkType), file, pos);
      s == Scan(RecRefs(rs, g, pos), |file|, State(true, false, g.le, g.linkType), true)
    decreases |rs|
  {
    hide RecBytes, Rd32;
    if rs != [] {
      var n := 16 + |rs[0].data|;
      assert file[pos..pos + n] == file[pos..][..n] == RecBytes(rs[0], g.le);
      RecReads(rs[0], g.le, file, pos);
      assert file[pos + n..] == file[pos..][n..] == Records(rs[1..], g.le);
      BuiltRecordsAreFound(rs[1..], g, file, pos + n);
    }
  }

  lemma GlobalParts(g: Global)
    ensures var s := GlobalHeader(g);
      s[0..4] == Enc(g.Magic(), 4, g.le) && s[16..20] == Enc(65535, 4, g.le) && s[20..24] == Enc(g.linkType, 4, g.le)
  {
  }

  lemma LittleEndianWord(v: nat, le: bool)
    requires v < TWO_TO_THE_32
    ensures LittleEndian(Enc(v, 4, le)) ==
            if le then v
            else v % 256 * 0x100_0000 + v / 256 % 256 * 0x1_0000 + v / 0x1_0000 % 256 * 0x100 + v / 0x100_0000
  {
    hide Pow2, Encode, LittleEndian, BigEndian;
    Mirror4(v);
    Pow2Values();
    DecodeEncode(v, 4, false);
  }

  /** The little-endian reading of the magic tells byte order and resolution. */
  lemma MagicWord(g: Global)
    ensures LittleEndian(Enc(g.Magic(), 4, g.le)) ==
            if g.nanos then (if g.le then PCAP_MAGIC_NANOS_LE else PCAP_MAGIC_NANOS_BE)
            else (if g.le then PCAP_MAGIC_MICROS_LE else PCAP_MAGIC_MICROS_BE)
  {
    hide Enc, LittleEndian;
    LittleEndianWord(g.Magic(), g.le);
  }

  lemma GlobalReads(g: Global, file: seq<byte>)
    requires g.Valid() && LiesAt(file, 0, GlobalHeader(g))
    ensures Rd32(file, 0, true) == LittleEndian(Enc(g.Magic(), 4, g.le))
    ensures Rd32(file, 16, g.le) == 65535 && Rd32(file, 20, g.le) == g.linkType
  {
    hide Enc, WordAt, GlobalHeader;
    GlobalParts(g);
    SmallPads();
    InnerLies(file, 0, GlobalHeader(g), 0, Enc(g.Magic(), 4, g.le));
    LeadIs(file, 0, g.Magic(), g.le);
    ReadBack(file, 0, GlobalHeader(g), 16, 4, 65535, g.le);
    ReadBack(file, 0, GlobalHeader(g), 20, 4, g.linkType, g.le);
  }

  // ---- the round trip ---------------------------------------------------------------------------------

  /** The first ref and its parse describe the global header: the link type in 16 bits, the resolution in digits. */
  ghost predicate DescribesGlobal(file: seq<byte>, ref: BlockRef, g: Global) {
    var v := ParseIdb(file, ref);
    && ref == BlockRef(0, 24, g.linkType, Idb, g.le)
    && v.Some? && v.value.linkType == g.linkType % 0x1_0000 && v.value.snaplen == 65535
    && v.value.tsResol == if g.nanos then 9 else 6
  }

  ghost predicate DescribesRec(file: seq<byte>, ref: BlockRef, r: Rec, g: Global) {
    var v := ParseEpb(file, ref);
    && ref.kind == PcapRecord && ref.littleEndian == g.le && ref.length == 16 + |r.data| && ref.typeOrLink == g.linkType
    && v.Some? && v.value.tsRaw == r.sec * TWO_TO_THE_32 + r.frac && v.value.interfaceId == 0
    && v.value.caplen == |r.data| && v.value.origlen == r.origlen && v.value.flags == Some(0)
    && v.value.payloadOffset + v.value.caplen <= |file|
    && file[v.value.payloadOffset..v.value.payloadOffset + v.value.caplen] == r.data
  }

  lemma {:induction false} AllRecordsDescribed(rs: seq<Rec>, g: Global, file: seq<byte>, pos: nat)
    requires forall i :: 0 <= i < |rs| ==> rs[i].Valid()
    requires pos <= |file| && file[pos..] == Records(rs, g.le)
    ensures forall i :: 0 <= i < |rs| ==> DescribesRec(file, RecRefs(rs, g, pos)[i], rs[i], g)
    decreases |rs|
  {
    hide RecBytes, DescribesRec;
    if rs != [] {
      var n := 16 + |rs[0].data|;
      assert file[pos..pos + n] == file[pos..][..n] == RecBytes(rs[0], g.le);
      RecDescribed(rs[0], g, file, pos);
      assert file[pos + n..] == file[pos..][n..] == Records(rs[1..], g.le);
      AllRecordsDescribed(rs[1..], g, file, pos + n);
    }
  }

  lemma RecDescribed(r: Rec, g: Global, file: seq<byte>, pos: nat)
    requires r.Valid() && LiesAt(file, pos, RecBytes(r, g.le))
    ensures DescribesRec(file, RecRef(r, g, pos), r, g)
  {
    hide RecBytes, Rd32;
    RecReads(r, g.le, file, pos);
  }

  /** For any global header and any records, in either byte order and either resolution, scanning the built capture
      succeeds with one interface ref and exactly one ref per record, in order, and every ref parses back to what it
      was built from. */
  lemma ScanAndParseUndoThePcapBuilder(g: Global, rs: seq<Rec>)
    requires g.Valid() && forall i :: 0 <= i < |rs| ==> rs[i].Valid()
    ensures var file := LegacyFile(g, rs);
      var r := ScanWindow(INITIAL, file, true);
      && r.error == None && r.consumed == |file| && |r.refs| == 1 + |rs|
      && r.st == State(true, false, g.le, g.linkType)
      && DescribesGlobal(file, r.refs[0], g)
      && forall i :: 0 <= i < |rs| ==> DescribesRec(file, r.refs[1 + i], rs[i], g)
  {
    hide GlobalHeader, Records, Rd32, DescribesRec, ScanFrom;
    var file := LegacyFile(g, rs);
    assert file[0..24] == GlobalHeader(g) && file[24..] == Records(rs, g.le);
    GlobalReads(g, file);
    MagicWord(g);
    BuiltRecordsAreFound(rs, g, file, 24);
    AllRecordsDescribed(rs, g, file, 24);
  }
}
