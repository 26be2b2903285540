/** Parsing one block: section header, interface description, packet. Views hold offsets into the file. */
module PcapParse {
  import opened Wire
  import opened PcapBlocks

  function Rd64(p: seq<byte>, off: nat, le: bool): nat
    requires off + 8 <= |p|
  {
    WordAt(p, off, 8, !le)
  }

  /** Round up to a multiple of 4, in 32 bits. */
  function Pad4(n: nat): nat { (n + 3) % TWO_TO_THE_32 / 4 * 4 }

  function Signed64(v: nat): int { if v >= 0x8000_0000_0000_0000 then v - TWO_TO_THE_64 else v }

  /** The one number of 64 signed bits with these bits. */
  lemma Signed64Exactly(v: nat, x: int)
    requires v < TWO_TO_THE_64
    ensures x == Signed64(v) <==>
            -0x8000_0000_0000_0000 <= x < 0x8000_0000_0000_0000 && x % 0x1_0000_0000_0000_0000 == v
  {
  }

  /** An option cursor: a region of the file. */
  datatype Options = Absent | Options(data: nat, size: nat)

  datatype OptionView = OptionView(code: nat, length: nat, value: nat)

  predicate InFile(c: Options, file: seq<byte>) { c.Options? ==> c.data + c.size <= |file| }

  /** The next option and the cursor after it; none at the end marker, at the end of the region, or when the
      option would run past it. */
  function NextOption(file: seq<byte>, c: Options, le: bool): (r: Option<(OptionView, Options)>)
    requires InFile(c, file)
    ensures r.Some? ==> c.Options? && r.value.1.Options? && InFile(r.value.1, file)
    ensures r.Some? ==> r.value.1.size < c.size && r.value.1.data + r.value.1.size == c.data + c.size
    ensures r.Some? ==> r.value.0.value + r.value.0.length <= c.data + c.size
  {
    if c.Absent? || c.size < 4 then None
    else
      var code, length := Rd16(file, c.data, le), Rd16(file, c.data + 2, le);
      WordBound(file[c.data + 2..c.data + 4], !le);
      Pow2Values();
      var advance := 4 + Pad4(length);
      if code == 0 || advance > c.size then None
      else Some((OptionView(code, length, c.data + 4), Options(c.data + advance, c.size - advance)))
  }

  /** The value of if_tsresol after the options from c on: the last one wins. */
  function TsResol(file: seq<byte>, c: Options, le: bool, resol: nat): nat
    requires InFile(c, file)
    decreases if c.Options? then c.size else 0
  {
    match NextOption(file, c, le)
    case None => resol
    case Some((opt, c')) =>
      TsResol(file, c', le, if opt.code == 9 && opt.length >= 1 then file[opt.value] else resol)
  }

  function EpbFlags(file: seq<byte>, c: Options, le: bool, flags: nat): nat
    requires InFile(c, file)
    decreases if c.Options? then c.size else 0
  {
    match NextOption(file, c, le)
    case None => flags
    case Some((opt, c')) =>
      EpbFlags(file, c', le, if opt.code == 2 && opt.length >= 4 then Rd32(file, opt.value, le) else flags)
  }

  datatype ShbView = ShbView(major: nat, minor: nat, sectionLength: int, options: Options)
  datatype IdbView = IdbView(linkType: nat, snaplen: nat, tsResol: nat, options: Options)
  datatype EpbView = EpbView(interfaceId: nat, tsRaw: nat, caplen: nat, origlen: nat, payloadOffset: nat,
                             flags: Option<nat>, options: Options)

  function ParseShb(file: seq<byte>, ref: BlockRef): Option<ShbView> {
    if ref.kind != Shb || ref.fileOffset + ref.length > |file| || ref.length < 28 then None
    else
      var body, le := ref.fileOffset + 8, ref.littleEndian;
      Some(ShbView(Rd16(file, body + 4, le), Rd16(file, body + 6, le), Signed64(Rd64(file, body + 8, le)),
                   Options(ref.fileOffset + 24, ref.length - 28)))
  }

  function ParseIdb(file: seq<byte>, ref: BlockRef): Option<IdbView> {
    var base, le := ref.fileOffset, ref.littleEndian;
    if ref.kind != Idb || base + ref.length > |file| then None
    else if ref.length == 24 && IsPcapMagic(Rd32(file, base, true)) then
      var magic := Rd32(file, base, true);
      var nanos := magic == PCAP_MAGIC_NANOS_LE || magic == PCAP_MAGIC_NANOS_BE;
      Some(IdbView(Rd32(file, base + 20, le) % 0x1_0000, Rd32(file, base + 16, le), if nanos then 9 else 6, Absent))
    else if ref.length < 20 then None
    else
      var options := Options(base + 16, ref.length - 20);
      Some(IdbView(Rd16(file, base + 8, le), Rd32(file, base + 12, le), TsResol(file, options, le, 6), options))
  }

  /** The options after the padded data, when they fit the block. */
  function TrailingOptions(ref: BlockRef, caplen: nat): Options {
    var o := 28 + (caplen + 3) / 4 * 4;
    if o + 4 <= ref.length then Options(ref.fileOffset + o, ref.length - o - 4) else Absent
  }

  /** The same as the parser computes it: padding, offset, comparison and size in 32 bits. */
  function EpbOptions(ref: BlockRef, caplen: nat): Options {
    var optOff := (28 + Pad4(caplen)) % TWO_TO_THE_32;
    if (optOff + 4) % TWO_TO_THE_32 <= ref.length then
      Options(ref.fileOffset + optOff, (ref.length - optOff - 4) % TWO_TO_THE_32)
    else Absent
  }

  ghost predicate InBlock(c: Options, ref: BlockRef) {
    c.Options? ==> ref.fileOffset <= c.data && c.data + c.size <= ref.fileOffset + ref.length
  }

  /** The parser takes the options from behind the padded data, or finds that they do not fit, exactly when the end
      of the padded data and the trailing length fit 32 bits. */
  lemma EpbOptionsTrailExactly(ref: BlockRef, caplen: nat)
    requires 32 <= ref.length < TWO_TO_THE_32 && caplen < TWO_TO_THE_32
    ensures EpbOptions(ref, caplen) == TrailingOptions(ref, caplen) <==>
            28 + (caplen + 3) / 4 * 4 + 4 < TWO_TO_THE_32
  {
    hide Pad4;
    PaddedLength(caplen);
    var m := (caplen + 3) / 4 * 4;
    if m < TWO_TO_THE_32 - 32 {
      assert (28 + m) % TWO_TO_THE_32 == 28 + m && (32 + m) % TWO_TO_THE_32 == 32 + m;
    }
  }

  /** The padded length wraps to 0 or not at all. */
  lemma PaddedLength(n: nat)
    requires n < TWO_TO_THE_32
    ensures var m := (n + 3) / 4 * 4; m <= TWO_TO_THE_32 && Pad4(n) == if m == TWO_TO_THE_32 then 0 else m
  {
  }

  /** Wherever it takes them from, they lie inside the block unless the sum that the test compares wraps to 0: then
      they start 4 bytes short of 4 GiB behind it. */
  lemma EpbOptionsStayExactly(ref: BlockRef, caplen: nat)
    requires ref.length < TWO_TO_THE_32
    ensures InBlock(EpbOptions(ref, caplen), ref) <==> Pad4(caplen) != TWO_TO_THE_32 - 32
  {
    assert Pad4(caplen) < TWO_TO_THE_32 && Pad4(caplen) % 4 == 0;
  }

  /** The flags are none when the option loop would read past the file. */
  function ParseEpb(file: seq<byte>, ref: BlockRef): Option<EpbView> {
    var base, le := ref.fileOffset, ref.littleEndian;
    if base + ref.length > |file| then None
    else if ref.kind == PcapRecord then
      if ref.length < 16 then None
      else
        Some(EpbView(0, Rd32(file, base, le) * TWO_TO_THE_32 + Rd32(file, base + 4, le), Rd32(file, base + 8, le),
                     Rd32(file, base + 12, le), base + 16, Some(0), Absent))
    else if ref.kind != Epb || ref.length < 32 then None
    else
      var caplen := Rd32(file, base + 20, le);
      var options := EpbOptions(ref, caplen);
      Some(EpbView(Rd32(file, base + 8, le), Rd32(file, base + 12, le) * TWO_TO_THE_32 + Rd32(file, base + 16, le),
                   caplen, Rd32(file, base + 24, le), base + 28,
                   if InFile(options, file) then Some(EpbFlags(file, options, le, 0)) else None, options))
  }

  // ---- the option loops -------------------------------------------------------------------------------

  /** An option cursor as the object next_option advances. */
  class OptionCursor {
    var at: Options
    const le: bool

    constructor (at: Options, le: bool)
      ensures this.at == at && this.le == le
    {
      this.at, this.le := at, le;
    }

    method Next(file: seq<byte>) returns (opt: Option<OptionView>)
      requires InFile(at, file)
      modifies this
      ensures var r := NextOption(file, old(at), le);
        if r.None? then opt == None && at == old(at) else opt == Some(r.value.0) && at == r.value.1
    {
      if at.Absent? || at.size < 4 {
        return None;
      }
      var code, length := Rd16(file, at.data, le), Rd16(file, at.data + 2, le);
      if code == 0 {
        return None;
      }
      var advance := 4 + Pad4(length);
      if advance > at.size {
        return None;
      }
      opt := Some(OptionView(code, length, at.data + 4));
      at := Options(at.data + advance, at.size - advance);
    }
  }

  method ParseIdbOptions(file: seq<byte>, options: Options, le: bool) returns (resol: nat)
    requires InFile(options, file)
    ensures resol == TsResol(file, options, le, 6)
  {
    hide Rd16, Pad4;
    resol := 6;
    var cursor := new OptionCursor(options, le);
    var opt := cursor.Next(file);
    while opt.Some?
      invariant InFile(cursor.at, file)
      invariant opt.Some? ==> opt.value.value + opt.value.length <= |file|
      invariant TsResol(file, options, le, 6) ==
        if opt.None? then resol
        else TsResol(file, cursor.at, le,
                     if opt.value.code == 9 && opt.value.length >= 1 then file[opt.value.value] else resol)
      decreases opt.Some?, if cursor.at.Options? then cursor.at.size else 0
    {
      if opt.value.code == 9 && opt.value.length >= 1 {
        resol := file[opt.value.value];
      }
      opt := cursor.Next(file);
    }
  }

  method ParseEpbOptions(file: seq<byte>, options: Options, le: bool) returns (flags: nat)
    requires InFile(options, file)
    ensures flags == EpbFlags(file, options, le, 0)
  {
    hide Rd16, Rd32, Pad4;
    flags := 0;
    var cursor := new OptionCursor(options, le);
    var opt := cursor.Next(file);
    while opt.Some?
      invariant InFile(cursor.at, file)
      invariant opt.Some? ==> opt.value.value + opt.value.length <= |file|
      invariant EpbFlags(file, options, le, 0) ==
        if opt.None? then flags
        else EpbFlags(file, cursor.at, le,
                      if opt.value.code == 2 && opt.value.length >= 4 then Rd32(file, opt.value.value, le) else flags)
      decreases opt.Some?, if cursor.at.Options? then cursor.at.size else 0
    {
      if opt.value.code == 2 && opt.value.length >= 4 {
        flags := Rd32(file, opt.value.value, le);
      }
      opt := cursor.Next(file);
    }
  }
}
