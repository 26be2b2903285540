/** The capture boundary scan: legacy pcap and pcapng, over one window of an endless capture or a whole file. */
module PcapBlocks {
  import opened Wire

  datatype Kind = Shb | Idb | Epb | PcapRecord | SimplePacket | Other

  const BLOCK_TYPE_SHB: nat := 0x0A0D0D0A
  const BLOCK_TYPE_IDB: nat := 1
  const BLOCK_TYPE_EPB: nat := 6
  const BLOCK_TYPE_SPB: nat := 3

  const PCAP_MAGIC_MICROS_LE: nat := 0xA1B2C3D4
  const PCAP_MAGIC_MICROS_BE: nat := 0xD4C3B2A1
  const PCAP_MAGIC_NANOS_LE: nat := 0xA1B23C4D
  const PCAP_MAGIC_NANOS_BE: nat := 0x4D3CB2A1
  const BYTE_ORDER_MAGIC: nat := 0x1A2B3C4D

  datatype BlockRef = BlockRef(fileOffset: nat, length: nat, typeOrLink: nat, kind: Kind, littleEndian: bool)

  /** The values carried from window to window. */
  datatype State = State(started: bool, isPcapng: bool, littleEndian: bool, linkType: nat)

  const INITIAL: State := State(false, false, true, 0)

  datatype Error = FileTooShort | ShortGlobalHeader | UnknownMagic | BadBlockLength | TruncatedTail

  function Rd16(p: seq<byte>, off: nat, le: bool): nat
    requires off + 2 <= |p|
  {
    WordAt(p, off, 2, !le)
  }

  function Rd32(p: seq<byte>, off: nat, le: bool): nat
    requires off + 4 <= |p|
  {
    WordAt(p, off, 4, !le)
  }

  predicate IsPcapMagicLe(m: nat) { m == PCAP_MAGIC_MICROS_LE || m == PCAP_MAGIC_NANOS_LE }

  predicate IsPcapMagic(m: nat) { IsPcapMagicLe(m) || m == PCAP_MAGIC_MICROS_BE || m == PCAP_MAGIC_NANOS_BE }

  function Classify(t: nat): Kind {
    if t == BLOCK_TYPE_SHB then Shb
    else if t == BLOCK_TYPE_IDB then Idb
    else if t == BLOCK_TYPE_EPB then Epb
    else if t == BLOCK_TYPE_SPB then SimplePacket
    else Other
  }

  // ---- one block --------------------------------------------------------------------------------------

  /** What the scanner finds at a position: not enough bytes, an invalid length, or a block, the state after it
      and its size on the wire. */
  datatype Found = More | Bad | Block(ref: BlockRef, st: State, size: nat)

  function PcapRecordAt(st: State, file: seq<byte>, pos: nat): Found {
    if pos + 16 > |file| then More
    else
      var total := 16 + Rd32(file, pos + 8, st.littleEndian);
      if pos + total > |file| then More
      else Block(BlockRef(pos, total % TWO_TO_THE_32, st.linkType, PcapRecord, st.littleEndian), st, total)
  }

  /** A section header is recognised in either byte order and fixes the byte order from its own magic; every
      other block is read in the section's order. */
  function PcapngBlockAt(st: State, file: seq<byte>, pos: nat): Found {
    if pos + 12 > |file| then More
    else
      var isShb := Rd32(file, pos, true) == BLOCK_TYPE_SHB;
      var le := if isShb then Rd32(file, pos + 8, true) == BYTE_ORDER_MAGIC else st.littleEndian;
      var t := if isShb then BLOCK_TYPE_SHB else Rd32(file, pos, le);
      var total := Rd32(file, pos + 4, le);
      if total < 12 then Bad
      else if pos + total > |file| then More
      else Block(BlockRef(pos, total, t, Classify(t), le), if isShb then st.(littleEndian := le) else st, total)
  }

  function BlockAt(st: State, file: seq<byte>, pos: nat): (f: Found)
    ensures f.Block? ==> f.size >= 12 && pos + f.size <= |file| && f.ref.fileOffset == pos && f.st.started == st.started
  {
    if st.isPcapng then PcapngBlockAt(st, file, pos) else PcapRecordAt(st, file, pos)
  }

  // ---- all blocks -------------------------------------------------------------------------------------

  datatype Scan = Scan(refs: seq<BlockRef>, pos: nat, st: State, ok: bool)

  function ScanFrom(st: State, file: seq<byte>, pos: nat): (s: Scan)
    ensures pos <= |file| ==> pos <= s.pos <= |file|
    ensures s.st.started == st.started
    decreases |file| - pos
  {
    match BlockAt(st, file, pos)
    case More => Scan([], pos, st, true)
    case Bad => Scan([], pos, st, false)
    case Block(ref, st', size) =>
      var rest := ScanFrom(st', file, pos + size);
      Scan([ref] + rest.refs, rest.pos, rest.st, rest.ok)
  }

  /** Format detection on the first bytes of a capture. */
  datatype Detection = Ready(st: State, refs: seq<BlockRef>, pos: nat) | NeedMore | Unreadable(error: Error)

  function Detect(st: State, file: seq<byte>, atEof: bool): (d: Detection)
    ensures d.Ready? ==> d.pos <= |file|
    ensures d.Ready? && !st.started ==> d.st.started
  {
    if st.started then Ready(st, [], 0)
    else if |file| < 4 then (if atEof then Unreadable(FileTooShort) else NeedMore)
    else
      var lead := Rd32(file, 0, true);
      if lead == BLOCK_TYPE_SHB then Ready(st.(isPcapng := true, started := true), [], 0)
      else if IsPcapMagic(lead) then
        if |file| < 24 then (if atEof then Unreadable(ShortGlobalHeader) else NeedMore)
        else
          var le := IsPcapMagicLe(lead);
          var link := Rd32(file, 20, le);
          Ready(State(true, false, le, link), [BlockRef(0, 24, link, Idb, le)], 24)
      else Unreadable(UnknownMagic)
  }

  /** The state after the call, the refs it adds, the bytes covered by complete blocks, and the error if any. An
      error leaves the consumed count at 0. */
  datatype WindowResult = WindowResult(st: State, refs: seq<BlockRef>, consumed: nat, error: Option<Error>)

  function ScanWindow(st: State, file: seq<byte>, atEof: bool): (r: WindowResult)
    ensures r.consumed <= |file|
  {
    match Detect(st, file, atEof)
    case NeedMore => WindowResult(st, [], 0, None)
    case Unreadable(e) => WindowResult(st, [], 0, Some(e))
    case Ready(st', refs, pos) =>
      var s := ScanFrom(st', file, pos);
      if !s.ok then WindowResult(s.st, refs + s.refs, 0, Some(BadBlockLength))
      else if atEof && s.pos < |file| then WindowResult(s.st, refs + s.refs, s.pos, Some(TruncatedTail))
      else WindowResult(s.st, refs + s.refs, s.pos, None)
  }

  /** The carried scan state as the object it is. */
  class ScanState {
    var started: bool
    var isPcapng: bool
    var littleEndian: bool
    var linkType: nat

    constructor ()
      ensures View() == INITIAL
    {
      started, isPcapng, littleEndian, linkType := false, false, true, 0;
    }

    function View(): State
      reads this
    {
      State(started, isPcapng, littleEndian, linkType)
    }

    /** The first call detects the format; a legacy global header is surfaced as an interface block. */
    method DetectFormat(file: seq<byte>, atEof: bool) returns (d: Detection)
      modifies this
      ensures d == Detect(old(View()), file, atEof)
      ensures View() == if d.Ready? then d.st else old(View())
    {
      hide Rd32;
      if started {
        return Ready(View(), [], 0);
      }
      if |file| < 4 {
        return if atEof then Unreadable(FileTooShort) else NeedMore;
      }
      var lead := Rd32(file, 0, true);
      if lead == BLOCK_TYPE_SHB {
        isPcapng, started := true, true;
        return Ready(View(), [], 0);
      }
      if !IsPcapMagic(lead) {
        return Unreadable(UnknownMagic);
      }
      if |file| < 24 {
        return if atEof then Unreadable(ShortGlobalHeader) else NeedMore;
      }
      isPcapng, littleEndian := false, IsPcapMagicLe(lead);
      linkType := Rd32(file, 20, littleEndian);
      started := true;
      d := Ready(View(), [BlockRef(0, 24, linkType, Idb, littleEndian)], 24);
    }

    /** The legacy record loop. */
    method WalkRecords(file: seq<byte>, out: seq<BlockRef>, start: nat) returns (out': seq<BlockRef>, pos: nat)
      requires !isPcapng && start <= |file|
      ensures var s := ScanFrom(View(), file, start);
        out' == out + s.refs && pos == s.pos && s.st == View() && s.ok
    {
      hide Rd32;
      out', pos := out, start;
      ghost var goal := ScanFrom(View(), file, start);
      while pos + 16 <= |file|
        invariant pos <= |file| && Remaining(goal, View(), file, pos, out', out)
        decreases |file| - pos
      {
        var total := 16 + Rd32(file, pos + 8, littleEndian);
        if pos + total > |file| {
          break;
        }
        RemainingStep(goal, View(), file, pos, out', out);
        out' := out' + [BlockRef(pos, total % TWO_TO_THE_32, linkType, PcapRecord, littleEndian)];
        pos := pos + total;
      }
    }

    /** The pcapng block loop; a section header block sets the byte order once it fully fits. */
    method WalkSections(file: seq<byte>, out: seq<BlockRef>, start: nat)
      returns (out': seq<BlockRef>, pos: nat, ok: bool)
      requires isPcapng && start <= |file|
      modifies this`littleEndian
      ensures var s := ScanFrom(old(View()), file, start);
        out' == out + s.refs && pos == s.pos && View() == s.st && ok == s.ok
    {
      hide Rd32, Classify;
      out', pos, ok := out, start, true;
      ghost var goal := ScanFrom(View(), file, start);
      while pos + 12 <= |file|
        invariant pos <= |file| && ok && Remaining(goal, View(), file, pos, out', out)
        decreases |file| - pos
      {
        var isShb := Rd32(file, pos, true) == BLOCK_TYPE_SHB;
        var le := if isShb then Rd32(file, pos + 8, true) == BYTE_ORDER_MAGIC else littleEndian;
        var t := if isShb then BLOCK_TYPE_SHB else Rd32(file, pos, le);
        var total := Rd32(file, pos + 4, le);
        if total < 12 {
          ok := false;
          return;
        }
        if pos + total > |file| {
          break;
        }
        RemainingStep(goal, View(), file, pos, out', out);
        if isShb {
          littleEndian := le;
        }
        out' := out' + [BlockRef(pos, total, t, Classify(t), le)];
        pos := pos + total;
      }
    }

    /** Scan one window. The refs are appended to out. */
    method Scan(file: seq<byte>, out: seq<BlockRef>, atEof: bool)
      returns (out': seq<BlockRef>, consumed: nat, error: Option<Error>)
      modifies this
      ensures var r := ScanWindow(old(View()), file, atEof);
        View() == r.st && out' == out + r.refs && consumed == r.consumed && error == r.error
    {
      hide ScanFrom, Detect;
      out', consumed, error := out, 0, None;
      assert out == out + [];
      var d := DetectFormat(file, atEof);
      match d
      case NeedMore =>
      case Unreadable(e) =>
        error := Some(e);
      case Ready(_, refs, start) =>
        ghost var s := ScanFrom(d.st, file, start);
        assert out + (refs + s.refs) == out + refs + s.refs;
        var pos;
        if !isPcapng {
          out', pos := WalkRecords(file, out + refs, start);
        } else {
          var ok;
          out', pos, ok := WalkSections(file, out + refs, start);
          if !ok {
            error := Some(BadBlockLength);
            return;
          }
        }
        consumed := pos;
        if atEof && pos < |file| {
          error := Some(TruncatedTail);
        }
    }
  }

  /** The loop so far has appended refs to head; the rest of the goal is the scan from here. */
  ghost predicate Remaining(goal: Scan, st: State, file: seq<byte>, pos: nat, out: seq<BlockRef>,
                            head: seq<BlockRef>)
  {
    var rest := ScanFrom(st, file, pos);
    head + goal.refs == out + rest.refs && goal.pos == rest.pos && goal.st == rest.st && goal.ok == rest.ok
  }

  lemma RemainingStep(goal: Scan, st: State, file: seq<byte>, pos: nat, out: seq<BlockRef>, head: seq<BlockRef>)
    requires Remaining(goal, st, file, pos, out, head) && BlockAt(st, file, pos).Block?
    ensures var f := BlockAt(st, file, pos);
      Remaining(goal, f.st, file, pos + f.size, out + [f.ref], head)
  {
    hide BlockAt;
    var f := BlockAt(st, file, pos);
    var rest := ScanFrom(f.st, file, pos + f.size);
    assert out + ([f.ref] + rest.refs) == out + [f.ref] + rest.refs;
  }

  /** Scan a whole file. */
  method ScanBlocks(file: seq<byte>) returns (out: seq<BlockRef>, error: Option<Error>)
    ensures var r := ScanWindow(INITIAL, file, true); out == r.refs && error == r.error
  {
    var st := new ScanState();
    var consumed;
    out, consumed, error := st.Scan(file, [], true);
  }
}
