/** Scanning and parsing undo the builder. */
module PcapRoundTrip {
  import opened Wire
  import opened PcapBlocks
  import opened PcapParse
  import opened PcapBuild

  /** A word encoded inside a block reads back from the file. */
  lemma ReadBack(file: seq<byte>, pos: nat, blk: seq<byte>, off: nat, n: nat, v: nat, le: bool)
    requires LiesAt(file, pos, blk) && off + n <= |blk|
    requires blk[off..off + n] == Enc(v, n, le) && v < Pow2(8 * n)
    ensures WordAt(file, pos + off, n, !le) == v
  {
    SliceOfSlice(file, pos, pos + |blk|, off, off + n);
    DecodeEncode(v, n, !le);
  }

  lemma FrameParts(t: nat, body: seq<byte>, le: bool)
    requires |body| % 4 == 0
    ensures var f := Framed(t, body, le);
      && |f| == |body| + 12
      && f[0..4] == Enc(t, 4, le) && f[4..8] == Enc(TotalLength(|body|), 4, le) && f[8..8 + |body|] == body
  {
  }

  // ---- the scan ---------------------------------------------------------------------------------------

  function RefOf(b: Blk, pos: nat): BlockRef
    requires b.Valid()
  {
    BlockRef(pos, |Bytes(b)|, b.Type(), Classify(b.Type()), b.le)
  }

  function RefsOf(blocks: seq<Blk>, pos: nat): seq<BlockRef>
    requires forall i :: 0 <= i < |blocks| ==> blocks[i].Valid()
  {
    if blocks == [] then [] else [RefOf(blocks[0], pos)] + RefsOf(blocks[1..], pos + |Bytes(blocks[0])|)
  }

  /** Every block but a section header is in the byte order of the section it belongs to. */
  predicate InSections(blocks: seq<Blk>, le: bool) {
    blocks == [] || ((blocks[0].ShbBlk? || blocks[0].le == le) && InSections(blocks[1..], blocks[0].le))
  }

  lemma Mirror4(v: nat)
    requires v < TWO_TO_THE_32
    ensures LittleEndian(Enc(v, 4, false)) == BigEndian(Enc(v, 4, true))
    ensures BigEndian(Enc(v, 4, true)) ==
            v % 256 * 0x100_0000 + v / 256 % 256 * 0x1_0000 + v / 0x1_0000 % 256 * 0x100 + v / 0x100_0000
  {
    var a, b := Enc(v, 4, false), Enc(v, 4, true);
    EncodedBytes4(v);
    SmallWords(a);
    SmallWords(b);
  }

  lemma EncodedBytes4(v: nat)
    requires v < TWO_TO_THE_32
    ensures var a := Enc(v, 4, false);
      a[3] == v % 256 && a[2] == v / 256 % 256 && a[1] == v / 0x1_0000 % 256 && a[0] == v / 0x100_0000
    ensures var a := Enc(v, 4, true);
      a[0] == v % 256 && a[1] == v / 256 % 256 && a[2] == v / 0x1_0000 % 256 && a[3] == v / 0x100_0000
  {
    hide Pow2, Encode;
    Pow2Values();
    forall k | 0 <= k < 4
      ensures Enc(v, 4, false)[k] == v / Pow2(8 * (3 - k)) % 256 && Enc(v, 4, true)[k] == v / Pow2(8 * k) % 256
    {
      EncodedByte(v, 4, k, true);
      EncodedByte(v, 4, k, false);
    }
  }

  /** Whatever the byte order of the section, the little-endian reading of the first word is the section header
      type exactly for section headers. */
  lemma LeadWord(t: nat, le: bool)
    requires t in {BLOCK_TYPE_SHB, BLOCK_TYPE_IDB, BLOCK_TYPE_EPB}
    ensures LittleEndian(Enc(t, 4, le)) == BLOCK_TYPE_SHB <==> t == BLOCK_TYPE_SHB
  {
    Mirror4(t);
    Pow2Values();
    DecodeEncode(t, 4, false);
  }

  lemma BomWord(le: bool)
    ensures LittleEndian(Enc(BYTE_ORDER_MAGIC, 4, le)) == BYTE_ORDER_MAGIC <==> le
  {
    Mirror4(BYTE_ORDER_MAGIC);
    Pow2Values();
    DecodeEncode(BYTE_ORDER_MAGIC, 4, false);
  }

  lemma FrameReads(b: Blk, file: seq<byte>, pos: nat)
    requires b.Valid() && LiesAt(file, pos, Bytes(b))
    ensures |Bytes(b)| == |Body(b)| + 12 < TWO_TO_THE_32 && pos + 12 <= |file|
    ensures Rd32(file, pos, true) == BLOCK_TYPE_SHB <==> b.ShbBlk?
    ensures Rd32(file, pos, b.le) == b.Type()
    ensures Rd32(file, pos + 4, b.le) == |Bytes(b)|
  {
    hide Body, Enc, WordAt, Framed;
    var blk, body := Bytes(b), Body(b);
    FrameParts(b.Type(), body, b.le);
    InnerLies(file, pos, blk, 0, Enc(b.Type(), 4, b.le));
    LeadWord(b.Type(), b.le);
    LeadIs(file, pos, b.Type(), b.le);
    Pow2Values();
    ReadBack(file, pos, blk, 0, 4, b.Type(), b.le);
    ReadBack(file, pos, blk, 4, 4, TotalLength(|body|), b.le);
  }

  lemma BomReads(le: bool, file: seq<byte>, pos: nat)
    requires LiesAt(file, pos, Bytes(ShbBlk(le)))
    ensures pos + 12 <= |file| && (Rd32(file, pos + 8, true) == BYTE_ORDER_MAGIC <==> le)
  {
    hide Enc, WordAt, Framed, ShbBody;
    FrameParts(BLOCK_TYPE_SHB, ShbBody(le), le);
    InnerLies(file, pos, Bytes(ShbBlk(le)), 8, ShbBody(le));
    ShbBom(le);
    InnerLies(file, pos + 8, ShbBody(le), 0, Enc(BYTE_ORDER_MAGIC, 4, le));
    LeadIs(file, pos + 8, BYTE_ORDER_MAGIC, le);
    BomWord(le);
  }

  /** The scanner finds the block the builder wrote, in either byte order. */
  lemma BuiltBlockIsFound(b: Blk, st: State, file: seq<byte>, pos: nat)
    requires b.Valid() && LiesAt(file, pos, Bytes(b)) && st.isPcapng && (b.ShbBlk? || b.le == st.littleEndian)
    ensures BlockAt(st, file, pos) ==
            Block(RefOf(b, pos), if b.ShbBlk? then st.(littleEndian := b.le) else st, |Bytes(b)|)
  {
    hide Bytes, Body, Rd32, Classify;
    FrameReads(b, file, pos);
    if b.ShbBlk? {
      BomReads(b.le, file, pos);
    }
  }

  lemma LeadIs(file: seq<byte>, pos: nat, v: nat, le: bool)
    requires LiesAt(file, pos, Enc(v, 4, le))
    ensures Rd32(file, pos, true) == LittleEndian(Enc(v, 4, le))
  {
  }

  lemma ShbBom(le: bool)
    ensures ShbBody(le)[0..4] == Enc(BYTE_ORDER_MAGIC, 4, le)
    ensures Body(ShbBlk(le)) == ShbBody(le)
  {
  }

  lemma {:induction false} BuiltBlocksAreFound(blocks: seq<Blk>, st: State, file: seq<byte>, pos: nat)
    requires forall i :: 0 <= i < |blocks| ==> blocks[i].Valid()
    requires InSections(blocks, st.littleEndian) && st.isPcapng
    requires pos <= |file| && file[pos..] == File(blocks)
    ensures var s := ScanFrom(st, file, pos);
      s.refs == RefsOf(blocks, pos) && s.pos == |file| && s.ok
    decreases |blocks|
  {
    hide Bytes, BlockAt, Classify;
    if blocks == [] {
      EndOfFile(st, file, pos);
    } else {
      var b := blocks[0];
      var n := |Bytes(b)|;
      assert file[pos..pos + n] == file[pos..][..n] == Bytes(b);
      BuiltBlockIsFound(b, st, file, pos);
      assert file[pos + n..] == file[pos..][n..] == File(blocks[1..]);
      BuiltBlocksAreFound(blocks[1..], if b.ShbBlk? then st.(littleEndian := b.le) else st, file, pos + n);
    }
  }

  lemma EndOfFile(st: State, file: seq<byte>, pos: nat)
    requires pos == |file|
    ensures BlockAt(st, file, pos) == More
  {
  }

  // ---- the parsers ------------------------------------------------------------------------------------

  lemma ShbParts(le: bool)
    ensures var s := ShbBody(le);
      s[4..6] == Enc(1, 2, le) && s[6..8] == Enc(0, 2, le) && s[8..16] == Enc(TWO_TO_THE_64 - 1, 8, le)
  {
  }

  lemma IdbParts(le: bool, link: nat, resol: nat)
    requires resol < 256
    ensures var s := IdbBody(le, link, resol);
      && s[0..2] == Enc(link, 2, le) && s[4..8] == Enc(65535, 4, le) && s[8..10] == Enc(9, 2, le)
      && s[10..12] == Enc(1, 2, le) && s[12] == resol && s[16..18] == Enc(0, 2, le) && s[18..20] == Enc(0, 2, le)
  {
  }

  lemma EpbFixedParts(b: Blk)
    requires b.EpbBlk?
    ensures var s := EpbFixed(b);
      && s[0..4] == Enc(b.iface, 4, b.le) && s[4..8] == Enc(b.ts / TWO_TO_THE_32 % TWO_TO_THE_32, 4, b.le)
      && s[8..12] == Enc(b.ts % TWO_TO_THE_32, 4, b.le) && s[12..16] == Enc(|b.data| % TWO_TO_THE_32, 4, b.le)
      && s[16..20] == Enc(b.origlen, 4, b.le)
  {
  }

  lemma EpbTrailerParts(le: bool, flags: nat)
    ensures var s := EpbTrailer(le, flags);
      && s[0..2] == Enc(2, 2, le) && s[2..4] == Enc(4, 2, le) && s[4..8] == Enc(flags, 4, le)
      && s[8..10] == Enc(0, 2, le) && s[10..12] == Enc(0, 2, le)
  {
  }

  lemma EpbBodyParts(b: Blk)
    requires b.EpbBlk?
    ensures var s, n := EpbBody(b), |b.data|;
      && s[0..20] == EpbFixed(b) && s[20..20 + n] == b.data
      && s[20 + n + PadLen(n)..] == EpbTrailer(b.le, b.flags)
  {
    hide EpbFixed, EpbTrailer;
  }

  /** The view of a section header built in either byte order. */
  lemma ShbParses(le: bool, file: seq<byte>, pos: nat)
    requires LiesAt(file, pos, Bytes(ShbBlk(le)))
    ensures var v := ParseShb(file, RefOf(ShbBlk(le), pos));
      v.Some? && v.value.major == 1 && v.value.minor == 0 && v.value.sectionLength == -1
  {
    hide Enc, WordAt, ShbBody;
    var b := ShbBlk(le);
    FrameParts(b.Type(), ShbBody(le), le);
    InnerLies(file, pos, Bytes(b), 8, ShbBody(le));
    ShbParts(le);
    Pow2Values();
    ReadBack(file, pos + 8, ShbBody(le), 4, 2, 1, le);
    ReadBack(file, pos + 8, ShbBody(le), 6, 2, 0, le);
    ReadBack(file, pos + 8, ShbBody(le), 8, 8, TWO_TO_THE_64 - 1, le);
  }

  lemma SmallPads()
    ensures Pad4(0) == 0 && Pad4(1) == 4 && Pad4(4) == 4
    ensures Pow2(16) == 0x1_0000 && Pow2(32) == TWO_TO_THE_32
  {
    Pow2Values();
  }

  /** An option list holding one option of up to four bytes and then the end marker. */
  lemma OneOption(file: seq<byte>, at: nat, code: nat, length: nat, le: bool)
    requires 0 < code < 0x1_0000 && 1 <= length <= 4 && at + 12 <= |file|
    requires Rd16(file, at, le) == code && Rd16(file, at + 2, le) == length && Rd16(file, at + 8, le) == 0
    ensures NextOption(file, Options(at, 12), le) == Some((OptionView(code, length, at + 4), Options(at + 8, 4)))
    ensures NextOption(file, Options(at + 8, 4), le) == None
  {
    SmallPads();
    assert Pad4(length) == 4;
  }

  lemma IdbParses(le: bool, link: nat, resol: nat, file: seq<byte>, pos: nat)
    requires IdbBlk(le, link, resol).Valid() && LiesAt(file, pos, Bytes(IdbBlk(le, link, resol)))
    ensures var v := ParseIdb(file, RefOf(IdbBlk(le, link, resol), pos));
      v.Some? && v.value.linkType == link && v.value.snaplen == 65535 && v.value.tsResol == resol
  {
    hide Enc, WordAt, IdbBody, NextOption;
    var b, body := IdbBlk(le, link, resol), IdbBody(le, link, resol);
    FrameParts(b.Type(), body, le);
    InnerLies(file, pos, Bytes(b), 8, body);
    IdbParts(le, link, resol);
    SmallPads();
    var at := pos + 8;
    ReadBack(file, at, body, 0, 2, link, le);
    ReadBack(file, at, body, 4, 4, 65535, le);
    ReadBack(file, at, body, 8, 2, 9, le);
    ReadBack(file, at, body, 10, 2, 1, le);
    ReadBack(file, at, body, 16, 2, 0, le);
    assert file[at + 12] == file[at..at + |body|][12] == resol;
    OneOption(file, at + 8, 9, 1, le);
    assert TsResol(file, Options(at + 16, 4), le, resol) == resol;
  }

  lemma EpbFixedReads(b: Blk, file: seq<byte>, at: nat)
    requires b.EpbBlk? && b.Valid() && LiesAt(file, at, EpbFixed(b))
    ensures Rd32(file, at, b.le) == b.iface && Rd32(file, at + 12, b.le) == |b.data|
    ensures Rd32(file, at + 16, b.le) == b.origlen
    ensures Rd32(file, at + 4, b.le) * TWO_TO_THE_32 + Rd32(file, at + 8, b.le) == b.ts
  {
    hide Enc, WordAt, EpbFixed;
    EpbFixedParts(b);
    SmallPads();
    var body := EpbFixed(b);
    ReadBack(file, at, body, 0, 4, b.iface, b.le);
    ReadBack(file, at, body, 4, 4, b.ts / TWO_TO_THE_32 % TWO_TO_THE_32, b.le);
    ReadBack(file, at, body, 8, 4, b.ts % TWO_TO_THE_32, b.le);
    ReadBack(file, at, body, 12, 4, |b.data|, b.le);
    ReadBack(file, at, body, 16, 4, b.origlen, b.le);
  }

  lemma EpbFlagsRead(le: bool, flags: nat, file: seq<byte>, at: nat)
    requires flags < TWO_TO_THE_32 && LiesAt(file, at, EpbTrailer(le, flags))
    ensures EpbFlags(file, Options(at, 12), le, 0) == flags
  {
    hide Enc, WordAt, EpbTrailer, NextOption;
    EpbTrailerParts(le, flags);
    SmallPads();
    var body := EpbTrailer(le, flags);
    ReadBack(file, at, body, 0, 2, 2, le);
    ReadBack(file, at, body, 2, 2, 4, le);
    ReadBack(file, at, body, 4, 4, flags, le);
    ReadBack(file, at, body, 8, 2, 0, le);
    OneOption(file, at, 2, 4, le);
    assert EpbFlags(file, Options(at + 8, 4), le, flags) == flags;
  }

  lemma PaddedLength(n: nat)
    requires n + 3 < TWO_TO_THE_32
    ensures Pad4(n) == n + PadLen(n)
  {
  }

  /** A built packet parses back to its interface, timestamp, lengths, flags and exactly its data. */
  lemma EpbParses(b: Blk, file: seq<byte>, pos: nat)
    requires b.EpbBlk? && b.Valid() && LiesAt(file, pos, Bytes(b))
    ensures var v := ParseEpb(file, RefOf(b, pos));
      && v.Some? && v.value.interfaceId == b.iface && v.value.tsRaw == b.ts && v.value.caplen == |b.data|
      && v.value.origlen == b.origlen && v.value.flags == Some(b.flags)
      && v.value.payloadOffset + v.value.caplen <= |file|
      && file[v.value.payloadOffset..v.value.payloadOffset + v.value.caplen] == b.data
  {
    hide Bytes, Rd32, EpbFlags, Pad4, PadLen, EpbFixed, EpbTrailer;
    var n := |b.data|;
    EpbLayout(b, file, pos);
    EpbFixedReads(b, file, pos + 8);
    EpbFlagsRead(b.le, b.flags, file, pos + 28 + n + PadLen(n));
    PaddedLength(n);
    var ref, v := RefOf(b, pos), ParseEpb(file, RefOf(b, pos));
    assert EpbOptions(ref, n) == Options(pos + 28 + n + PadLen(n), 12);
    assert pos + 8 + 12 == pos + 20 && pos + 8 + 16 == pos + 24 && pos + 8 + 4 == pos + 12 && pos + 8 + 8 == pos + 16;
  }

  lemma EpbLayout(b: Blk, file: seq<byte>, pos: nat)
    requires b.EpbBlk? && b.Valid() && LiesAt(file, pos, Bytes(b))
    ensures var n := |b.data|;
      && |Bytes(b)| == 44 + n + PadLen(n)
      && LiesAt(file, pos + 8, EpbFixed(b)) && LiesAt(file, pos + 28, b.data)
      && LiesAt(file, pos + 28 + n + PadLen(n), EpbTrailer(b.le, b.flags))
  {
    hide Enc, WordAt, EpbFixed, EpbTrailer, EpbBody, Framed;
    var body, n := EpbBody(b), |b.data|;
    FrameParts(b.Type(), body, b.le);
    InnerLies(file, pos, Bytes(b), 8, body);
    EpbBodyParts(b);
    InnerLies(file, pos + 8, body, 0, EpbFixed(b));
    InnerLies(file, pos + 8, body, 20, b.data);
    InnerLies(file, pos + 8, body, 20 + n + PadLen(n), EpbTrailer(b.le, b.flags));
  }

  // ---- the round trip ---------------------------------------------------------------------------------

  /** The ref and its parse describe the block. */
  ghost predicate Describes(file: seq<byte>, ref: BlockRef, b: Blk)
    requires b.Valid()
  {
    && ref.littleEndian == b.le && ref.length == |Bytes(b)| && ref.typeOrLink == b.Type()
    && match b
       case ShbBlk(_) =>
         var v := ParseShb(file, ref);
         ref.kind == Shb && v.Some? && v.value.major == 1 && v.value.minor == 0 && v.value.sectionLength == -1
       case IdbBlk(_, link, resol) =>
         var v := ParseIdb(file, ref);
         ref.kind == Idb && v.Some? && v.value.linkType == link && v.value.snaplen == 65535 && v.value.tsResol == resol
       case EpbBlk(_, iface, ts, origlen, data, flags) =>
         var v := ParseEpb(file, ref);
         && ref.kind == Epb && v.Some? && v.value.interfaceId == iface && v.value.tsRaw == ts
         && v.value.caplen == |data| && v.value.origlen == origlen && v.value.flags == Some(flags)
         && v.value.payloadOffset + v.value.caplen <= |file|
         && file[v.value.payloadOffset..v.value.payloadOffset + v.value.caplen] == data
  }

  lemma BlockDescribed(b: Blk, file: seq<byte>, pos: nat)
    requires b.Valid() && LiesAt(file, pos, Bytes(b))
    ensures Describes(file, RefOf(b, pos), b)
  {
    hide Bytes, ParseShb, ParseIdb, ParseEpb;
    match b
    case ShbBlk(le) => ShbParses(le, file, pos);
    case IdbBlk(le, link, resol) => IdbParses(le, link, resol, file, pos);
    case EpbBlk(_, _, _, _, _, _) => EpbParses(b, file, pos);
  }

  lemma {:induction false} AllDescribed(blocks: seq<Blk>, file: seq<byte>, pos: nat)
    requires forall i :: 0 <= i < |blocks| ==> blocks[i].Valid()
    requires pos <= |file| && file[pos..] == File(blocks)
    ensures |RefsOf(blocks, pos)| == |blocks|
    ensures forall i :: 0 <= i < |blocks| ==> Describes(file, RefsOf(blocks, pos)[i], blocks[i])
    decreases |blocks|
  {
    hide Bytes, Describes;
    if blocks != [] {
      var n := |Bytes(blocks[0])|;
      assert file[pos..pos + n] == file[pos..][..n] == Bytes(blocks[0]);
      BlockDescribed(blocks[0], file, pos);
      assert file[pos + n..] == file[pos..][n..] == File(blocks[1..]);
      AllDescribed(blocks[1..], file, pos + n);
    }
  }

  /** For any sections, each starting with a section header and each in its own byte order, scanning the built
      capture succeeds with exactly one ref per block, in order, and every ref is classified and parses back to
      the block it was built from. */
  lemma ScanAndParseUndoTheBuilder(blocks: seq<Blk>)
    requires blocks != [] && blocks[0].ShbBlk? && InSections(blocks, true)
    requires forall i :: 0 <= i < |blocks| ==> blocks[i].Valid()
    ensures var file := File(blocks);
      var r := ScanWindow(INITIAL, file, true);
      && r.error == None && r.consumed == |file| && |r.refs| == |blocks|
      && forall i :: 0 <= i < |blocks| ==> Describes(file, r.refs[i], blocks[i])
  {
    hide Bytes, Describes, ScanFrom, Enc, WordAt;
    var file := File(blocks);
    var st := INITIAL.(isPcapng := true, started := true);
    assert file[0..] == file;
    BuiltBlocksAreFound(blocks, st, file, 0);
    AllDescribed(blocks, file, 0);
    LeadingShb(blocks, file);
    assert [] + RefsOf(blocks, 0) == RefsOf(blocks, 0);
  }

  lemma LeadingShb(blocks: seq<Blk>, file: seq<byte>)
    requires blocks != [] && blocks[0].ShbBlk?
    requires forall i :: 0 <= i < |blocks| ==> blocks[i].Valid()
    requires file == File(blocks)
    ensures |file| >= 4 && Rd32(file, 0, true) == BLOCK_TYPE_SHB
  {
    hide Enc, WordAt, Body;
    var b := blocks[0];
    FrameParts(b.Type(), Body(b), b.le);
    assert file[0..|Bytes(b)|] == Bytes(b);
    InnerLies(file, 0, Bytes(b), 0, Enc(b.Type(), 4, b.le));
    LeadIs(file, 0, b.Type(), b.le);
    LeadWord(b.Type(), b.le);
  }
}
