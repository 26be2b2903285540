/** The capture formats on their bytes: magics, byte orders, block types and lengths as literal numbers. */
module PcapWire {
  import opened Wire
  import opened ByteWords
  import opened PcapBlocks
  import opened PcapParse
  import opened PcapBuild
  import opened PcapRoundTrip

  /** Four bytes, least significant first. */
  function L4(p: seq<byte>, at: nat): nat
    requires at + 4 <= |p|
  {
    (p[at] as int) + 0x100 * (p[at + 1] as int) + 0x1_0000 * (p[at + 2] as int) + 0x100_0000 * (p[at + 3] as int)
  }

  function W4(p: seq<byte>, at: nat, le: bool): nat
    requires at + 4 <= |p|
  {
    if le then L4(p, at) else B4(p, at)
  }

  lemma Word4(p: seq<byte>, at: nat, le: bool)
    requires at + 4 <= |p|
    ensures Rd32(p, at, le) == W4(p, at, le)
  {
    SmallWords(p[at..at + 4]);
  }

  lemma LowDigit(a: nat, x: nat, b: nat, y: nat)
    requires a < 256 && b < 256 && a + 0x100 * x == b + 0x100 * y
    ensures a == b && x == y
  {
  }

  /** A little-endian word is a number exactly when its four bytes are the number's. */
  lemma WordBytes(p: seq<byte>, at: nat, a: byte, b: byte, c: byte, d: byte)
    requires at + 4 <= |p|
    ensures L4(p, at) == (a as int) + 0x100 * (b as int) + 0x1_0000 * (c as int) + 0x100_0000 * (d as int) <==>
            LiesAt(p, at, [a, b, c, d])
  {
    var s := p[at..at + 4];
    assert s == [p[at], p[at + 1], p[at + 2], p[at + 3]];
    assert s == [a, b, c, d] ==> p[at] == a && p[at + 1] == b && p[at + 2] == c && p[at + 3] == d by {
      assert [p[at], p[at + 1], p[at + 2], p[at + 3]][0] == p[at];
    }
    var u, v, w: int, x: int := p[at], p[at + 1], p[at + 2], p[at + 3];
    if L4(p, at) == (a as int) + 0x100 * (b as int) + 0x1_0000 * (c as int) + 0x100_0000 * (d as int) {
      LowDigit(u, v + 0x100 * w + 0x1_0000 * x, a, (b as int) + 0x100 * (c as int) + 0x1_0000 * (d as int));
      LowDigit(v, w + 0x100 * x, b, (c as int) + 0x100 * (d as int));
      LowDigit(w, x, c, d);
    }
  }

  const SECTION_TYPE: seq<byte> := [0x0A, 0x0D, 0x0D, 0x0A]

  // ---- blocks -----------------------------------------------------------------------------------------

  function KindOf(t: nat): Kind {
    if t == 0x0A0D_0D0A then Shb
    else if t == 1 then Idb
    else if t == 3 then SimplePacket
    else if t == 6 then Epb
    else Other
  }

  /** What a pcapng scanner must find at pos: behind the section header type the bytes 4D 3C 2B 1A say little-endian and
      all others big-endian; every other block is in its section's order; the second word is the length, at least 12. */
  ghost function WireBlock(st: State, p: seq<byte>, pos: nat): Found {
    if pos + 12 > |p| then More
    else
      var section := LiesAt(p, pos, SECTION_TYPE);
      var le := if section then LiesAt(p, pos + 8, [0x4D, 0x3C, 0x2B, 0x1A]) else st.littleEndian;
      var t, total := if section then 0x0A0D_0D0A else W4(p, pos, le), W4(p, pos + 4, le);
      if total < 12 then Bad
      else if pos + total > |p| then More
      else Block(BlockRef(pos, total, t, KindOf(t), le), State(st.started, st.isPcapng, le, st.linkType), total)
  }

  lemma BlocksOnTheWire(st: State, p: seq<byte>, pos: nat)
    ensures PcapngBlockAt(st, p, pos) == WireBlock(st, p, pos)
  {
    hide Rd32, L4, LiesAt;
    if pos + 12 <= |p| {
      Word4(p, pos, true);
      Word4(p, pos + 8, true);
      Word4(p, pos, false);
      Word4(p, pos + 4, true);
      Word4(p, pos + 4, false);
      WordBytes(p, pos, 0x0A, 0x0D, 0x0D, 0x0A);
      WordBytes(p, pos + 8, 0x4D, 0x3C, 0x2B, 0x1A);
    }
  }

  /** A legacy record: 16 bytes, the third word the length of what follows; its ref keeps 32 bits of the whole. */
  lemma RecordsOnTheWire(st: State, p: seq<byte>, pos: nat)
    ensures PcapRecordAt(st, p, pos) ==
      if pos + 16 > |p| || pos + 16 + W4(p, pos + 8, st.littleEndian) > |p| then More
      else
        var total := 16 + W4(p, pos + 8, st.littleEndian);
        Block(BlockRef(pos, total % 0x1_0000_0000, st.linkType, PcapRecord, st.littleEndian), st, total)
  {
    hide Rd32, W4;
    if pos + 16 <= |p| {
      Word4(p, pos + 8, st.littleEndian);
    }
  }

  // ---- the first bytes of a capture -------------------------------------------------------------------

  /** The four legacy magics: byte order, and whether timestamps have nanoseconds. */
  function LegacyMagic(p: seq<byte>): Option<(bool, bool)> {
    if LiesAt(p, 0, [0xD4, 0xC3, 0xB2, 0xA1]) then Some((true, false))
    else if LiesAt(p, 0, [0xA1, 0xB2, 0xC3, 0xD4]) then Some((false, false))
    else if LiesAt(p, 0, [0x4D, 0x3C, 0xB2, 0xA1]) then Some((true, true))
    else if LiesAt(p, 0, [0xA1, 0xB2, 0x3C, 0x4D]) then Some((false, true))
    else None
  }

  ghost function WireDetect(p: seq<byte>, atEof: bool): Detection {
    if |p| < 4 then (if atEof then Unreadable(FileTooShort) else NeedMore)
    else if LiesAt(p, 0, SECTION_TYPE) then Ready(State(true, true, true, 0), [], 0)
    else
      match LegacyMagic(p)
      case None => Unreadable(UnknownMagic)
      case Some((le, _)) =>
        if |p| < 24 then (if atEof then Unreadable(ShortGlobalHeader) else NeedMore)
        else
          var link := W4(p, 20, le);
          Ready(State(true, false, le, link), [BlockRef(0, 24, link, Idb, le)], 24)
  }

  lemma MagicBytes(p: seq<byte>)
    requires 4 <= |p|
    ensures L4(p, 0) == 0x0A0D_0D0A <==> LiesAt(p, 0, SECTION_TYPE)
    ensures L4(p, 0) == 0xA1B2_C3D4 <==> LiesAt(p, 0, [0xD4, 0xC3, 0xB2, 0xA1])
    ensures L4(p, 0) == 0xD4C3_B2A1 <==> LiesAt(p, 0, [0xA1, 0xB2, 0xC3, 0xD4])
    ensures L4(p, 0) == 0xA1B2_3C4D <==> LiesAt(p, 0, [0x4D, 0x3C, 0xB2, 0xA1])
    ensures L4(p, 0) == 0x4D3C_B2A1 <==> LiesAt(p, 0, [0xA1, 0xB2, 0x3C, 0x4D])
  {
    hide L4, LiesAt;
    WordBytes(p, 0, 0x0A, 0x0D, 0x0D, 0x0A);
    WordBytes(p, 0, 0xD4, 0xC3, 0xB2, 0xA1);
    WordBytes(p, 0, 0xA1, 0xB2, 0xC3, 0xD4);
    WordBytes(p, 0, 0x4D, 0x3C, 0xB2, 0xA1);
    WordBytes(p, 0, 0xA1, 0xB2, 0x3C, 0x4D);
  }

  /** The first call recognises exactly these five starts. */
  lemma DetectionOnTheWire(p: seq<byte>, atEof: bool)
    ensures Detect(INITIAL, p, atEof) == WireDetect(p, atEof)
  {
    hide Rd32, L4, LiesAt;
    if 4 <= |p| {
      Word4(p, 0, true);
      MagicBytes(p);
      if 24 <= |p| {
        Word4(p, 20, true);
        Word4(p, 20, false);
      }
    }
  }

  // ---- what the builder writes ------------------------------------------------------------------------

  lemma Four(v: nat, le: bool, a: byte, b: byte, c: byte, d: byte)
    requires v == (a as int) + 0x100 * (b as int) + 0x1_0000 * (c as int) + 0x100_0000 * (d as int)
    ensures Enc(v, 4, le) == if le then [a, b, c, d] else [d, c, b, a]
  {
    hide Encode;
    EncodedBytes4(v);
    assert v % 256 == a && v / 256 == (b as int) + 0x100 * (c as int) + 0x1_0000 * (d as int);
    assert v / 0x1_0000 == (c as int) + 0x100 * (d as int) && v / 0x100_0000 == d;
  }

  lemma Two(v: nat, le: bool)
    requires v < 256
    ensures Enc(v, 2, le) == if le then [v, 0] else [0, v]
  {
    hide Pow2, Encode;
    Pow2Values();
    EncodedByte(v, 2, 0, !le);
    EncodedByte(v, 2, 1, !le);
  }

  /** A built section header starts with its type, its length 52, its byte-order magic and version 1.0. */
  lemma SectionStarts(le: bool)
    ensures |Bytes(ShbBlk(le))| == 52
    ensures Bytes(ShbBlk(le))[..16] ==
            SECTION_TYPE + if le then [52, 0, 0, 0, 0x4D, 0x3C, 0x2B, 0x1A, 1, 0, 0, 0]
                           else [0, 0, 0, 52, 0x1A, 0x2B, 0x3C, 0x4D, 0, 1, 0, 0]
  {
    hide Enc, Framed, ShbBody;
    var f, body := Bytes(ShbBlk(le)), ShbBody(le);
    FrameParts(BLOCK_TYPE_SHB, body, le);
    ShbBom(le);
    ShbParts(le);
    Four(0x0A0D_0D0A, le, 0x0A, 0x0D, 0x0D, 0x0A);
    Four(52, le, 52, 0, 0, 0);
    Four(0x1A2B_3C4D, le, 0x4D, 0x3C, 0x2B, 0x1A);
    Two(1, le);
    Two(0, le);
    assert f[..16] == f[0..4] + f[4..8] + f[8..48][..8];
    assert body[..8] == body[0..4] + body[4..6] + body[6..8];
  }

  /** An interface read from a legacy global header has nanoseconds exactly for the two nanosecond magics. */
  lemma LegacyResolution(p: seq<byte>, link: nat, le: bool)
    requires |p| >= 24 && LegacyMagic(p).Some?
    ensures var v := ParseIdb(p, BlockRef(0, 24, link, Idb, le));
      v.Some? && v.value.tsResol == if LegacyMagic(p).value.1 then 9 else 6
  {
    hide Rd32, L4, LiesAt;
    Word4(p, 0, true);
    MagicBytes(p);
  }

  // ---- the shortest blocks, byte by byte --------------------------------------------------------------

  function SmallSection(): seq<byte> {
    Zeros(28)[0 := 0x0A][1 := 0x0D][2 := 0x0D][3 := 0x0A][4 := 28]
    [8 := 0x4D][9 := 0x3C][10 := 0x2B][11 := 0x1A][12 := 1]
  }

  lemma SmallSectionBytes()
    ensures var p := SmallSection();
      && |p| == 28 && LiesAt(p, 0, SECTION_TYPE) && LiesAt(p, 8, [0x4D, 0x3C, 0x2B, 0x1A])
      && L4(p, 4) == 28 && p[12..14] == [1, 0] && p[14..16] == [0, 0]
  {
  }

  /** A section header of 28 bytes is a capture with one block, version 1.0. */
  lemma SmallSectionScans()
    ensures ScanWindow(INITIAL, SmallSection(), true) ==
            WindowResult(State(true, true, true, 0), [BlockRef(0, 28, 0x0A0D_0D0A, Shb, true)], 28, None)
  {
    hide PcapngBlockAt, Detect, Rd32, SmallSection, L4, LiesAt;
    var p, st := SmallSection(), State(true, true, true, 0);
    SmallSectionBytes();
    DetectionOnTheWire(p, true);
    BlocksOnTheWire(st, p, 0);
    BlocksOnTheWire(st, p, 28);
    assert ScanFrom(st, p, 28) == Scan([], 28, st, true);
  }

  lemma SmallSectionParses()
    ensures var v := ParseShb(SmallSection(), BlockRef(0, 28, 0x0A0D_0D0A, Shb, true));
      v.Some? && v.value.major == 1 && v.value.minor == 0
  {
    hide SmallSection, L4, LiesAt, Rd64;
    SmallSectionBytes();
    SmallWords([1, 0]);
    SmallWords([0, 0]);
  }

  function SmallInterface(): seq<byte> { Zeros(20)[0 := 1][4 := 20][8 := 1][12 := 0xFF][13 := 0xFF] }

  lemma SmallInterfaceBytes()
    ensures var p := SmallInterface();
      |p| == 20 && L4(p, 0) == 1 && p[8..10] == [1, 0] && L4(p, 12) == 65535 && L4(p, 4) == 20
  {
  }

  /** An interface of 20 bytes has no options, and microseconds. */
  lemma SmallInterfaceParses(st: State)
    requires st.littleEndian && st.started && st.isPcapng
    ensures PcapngBlockAt(st, SmallInterface(), 0) == Block(BlockRef(0, 20, 1, Idb, true), st, 20)
    ensures var v := ParseIdb(SmallInterface(), BlockRef(0, 20, 1, Idb, true));
      v.Some? && v.value.linkType == 1 && v.value.snaplen == 65535 && v.value.tsResol == 6
  {
    hide SmallInterface, L4, Rd32, PcapngBlockAt, LiesAt;
    var p := SmallInterface();
    SmallInterfaceBytes();
    WordBytes(p, 0, 0x0A, 0x0D, 0x0D, 0x0A);
    BlocksOnTheWire(st, p, 0);
    SmallWords([1, 0]);
    Word4(p, 0, true);
    Word4(p, 12, true);
  }

  /** Interface 2, timestamp words 3 and 4, four bytes captured of five. */
  function SmallPacket(): seq<byte> {
    Zeros(36)[0 := 6][4 := 36][8 := 2][12 := 3][16 := 4][20 := 4][24 := 5][28 := 10][29 := 20][30 := 30][31 := 40]
  }

  lemma SmallPacketBytes()
    ensures var p := SmallPacket();
      && |p| == 36 && L4(p, 0) == 6 && L4(p, 4) == 36 && L4(p, 8) == 2 && L4(p, 12) == 3 && L4(p, 16) == 4
      && L4(p, 20) == 4 && L4(p, 24) == 5
  {
  }

  lemma SmallPacketIsFound(st: State)
    requires st.littleEndian && st.started && st.isPcapng
    ensures PcapngBlockAt(st, SmallPacket(), 0) == Block(BlockRef(0, 36, 6, Epb, true), st, 36)
  {
    hide SmallPacket, L4, PcapngBlockAt, LiesAt;
    SmallPacketBytes();
    WordBytes(SmallPacket(), 0, 0x0A, 0x0D, 0x0D, 0x0A);
    BlocksOnTheWire(st, SmallPacket(), 0);
  }

  lemma NoOptionBytes(p: seq<byte>)
    requires |p| == 36
    ensures EpbOptions(BlockRef(0, 36, 6, Epb, true), 4) == Options(32, 0)
    ensures InFile(Options(32, 0), p) && EpbFlags(p, Options(32, 0), true, 0) == 0
  {
    hide Rd16, Rd32;
  }

  /** A packet without options has no flags, and its data starts at byte 28. */
  lemma SmallPacketParses()
    ensures var v := ParseEpb(SmallPacket(), BlockRef(0, 36, 6, Epb, true));
      && v.Some? && v.value.interfaceId == 2 && v.value.tsRaw == 3 * 0x1_0000_0000 + 4 && v.value.caplen == 4
      && v.value.origlen == 5 && v.value.payloadOffset == 28 && v.value.flags == Some(0)
  {
    hide SmallPacket, L4, Rd32, EpbFlags, EpbOptions, Zeros;
    var p := SmallPacket();
    SmallPacketBytes();
    NoOptionBytes(p);
    Word4(p, 8, true);
    Word4(p, 12, true);
    Word4(p, 16, true);
    Word4(p, 20, true);
    Word4(p, 24, true);
  }

  /** The shortest block there is. */
  lemma TwelveBytes(st: State)
    requires st.littleEndian && st.started && st.isPcapng
    ensures PcapngBlockAt(st, Zeros(12)[0 := 3][4 := 12], 0) ==
            Block(BlockRef(0, 12, 3, SimplePacket, true), st, 12)
    ensures PcapngBlockAt(st, Zeros(12)[0 := 3][4 := 11], 0) == Bad
    ensures PcapngBlockAt(st, Zeros(12)[0 := 3][4 := 13], 0) == More
  {
    hide PcapngBlockAt;
    BlocksOnTheWire(st, Zeros(12)[0 := 3][4 := 12], 0);
    BlocksOnTheWire(st, Zeros(12)[0 := 3][4 := 11], 0);
    BlocksOnTheWire(st, Zeros(12)[0 := 3][4 := 13], 0);
    WordBytes(Zeros(12)[0 := 3][4 := 12], 0, 0x0A, 0x0D, 0x0D, 0x0A);
    WordBytes(Zeros(12)[0 := 3][4 := 11], 0, 0x0A, 0x0D, 0x0D, 0x0A);
    WordBytes(Zeros(12)[0 := 3][4 := 13], 0, 0x0A, 0x0D, 0x0D, 0x0A);
  }
}
