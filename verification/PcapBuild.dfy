/** The pcapng block builder, and what scanning and parsing recover from what it builds. */
module PcapBuild {
  import opened Wire
  import opened Arith
  import opened PcapBlocks
  import opened PcapParse

  function Enc(v: nat, n: nat, le: bool): (s: seq<byte>)
    ensures |s| == n
  {
    Encode(v, n, !le)
  }

  function Zeros(n: nat): (s: seq<byte>)
    ensures |s| == n
    ensures forall i :: 0 <= i < n ==> s[i] == 0
  {
    seq(n, _ => 0)
  }

  /** The zeros that bring n to a multiple of 4. */
  function PadLen(n: nat): (k: nat)
    ensures k < 4 && (n + k) % 4 == 0
  {
    (4 - n % 4) % 4
  }

  const OS_NAME: seq<byte> := [110, 97, 110, 111, 108, 97, 110, 99, 101, 45, 116, 101, 115, 116]

  /** One block to build: a section header, an interface, or a packet whose captured length is its data's. */
  datatype Blk =
    | ShbBlk(le: bool)
    | IdbBlk(le: bool, linkType: nat, tsResol: nat)
    | EpbBlk(le: bool, iface: nat, ts: nat, origlen: nat, data: seq<byte>, flags: nat)
  {
    predicate Valid() {
      match this
      case ShbBlk(_) => true
      case IdbBlk(_, link, resol) => link < 0x1_0000 && resol < 256
      case EpbBlk(_, iface, ts, origlen, data, flags) =>
        && iface < TWO_TO_THE_32 && ts < TWO_TO_THE_64 && origlen < TWO_TO_THE_32 && flags < TWO_TO_THE_32
        && |data| + 64 < TWO_TO_THE_32
    }

    function Type(): nat {
      match this
      case ShbBlk(_) => BLOCK_TYPE_SHB
      case IdbBlk(_, _, _) => BLOCK_TYPE_IDB
      case EpbBlk(_, _, _, _, _, _) => BLOCK_TYPE_EPB
    }
  }

  function ShbBody(le: bool): (s: seq<byte>)
    ensures |s| == 40
  {
    Enc(BYTE_ORDER_MAGIC, 4, le) + Enc(1, 2, le) + Enc(0, 2, le) + Enc(TWO_TO_THE_64 - 1, 8, le) +
    Enc(3, 2, le) + Enc(14, 2, le) + OS_NAME + Zeros(2) + Enc(0, 2, le) + Enc(0, 2, le)
  }

  function IdbBody(le: bool, linkType: nat, tsResol: nat): (s: seq<byte>)
    requires tsResol < 256
    ensures |s| == 20
  {
    Enc(linkType, 2, le) + Enc(0, 2, le) + Enc(65535, 4, le) + Enc(9, 2, le) + Enc(1, 2, le) +
    [tsResol, 0, 0, 0] + Enc(0, 2, le) + Enc(0, 2, le)
  }

  function EpbFixed(b: Blk): (s: seq<byte>)
    requires b.EpbBlk?
    ensures |s| == 20
  {
    Enc(b.iface, 4, b.le) + Enc(b.ts / TWO_TO_THE_32 % TWO_TO_THE_32, 4, b.le) + Enc(b.ts % TWO_TO_THE_32, 4, b.le) +
    Enc(|b.data| % TWO_TO_THE_32, 4, b.le) + Enc(b.origlen, 4, b.le)
  }

  function EpbTrailer(le: bool, flags: nat): (s: seq<byte>)
    ensures |s| == 12
  {
    Enc(2, 2, le) + Enc(4, 2, le) + Enc(flags, 4, le) + Enc(0, 2, le) + Enc(0, 2, le)
  }

  function EpbBody(b: Blk): (s: seq<byte>)
    requires b.EpbBlk?
    ensures |s| == 32 + |b.data| + PadLen(|b.data|)
  {
    EpbFixed(b) + b.data + Zeros(PadLen(|b.data|)) + EpbTrailer(b.le, b.flags)
  }

  function Body(b: Blk): (s: seq<byte>)
    requires b.Valid()
    ensures |s| % 4 == 0 && |s| + 12 < TWO_TO_THE_32
  {
    match b
    case ShbBlk(le) => ShbBody(le)
    case IdbBlk(le, link, resol) => IdbBody(le, link, resol)
    case EpbBlk(_, _, _, _, _, _) => EpbBody(b)
  }

  function TotalLength(n: nat): nat { (12 + (n + 3) / 4 * 4) % TWO_TO_THE_32 }

  /** Type, total length, body, padding, total length again. */
  function Framed(t: nat, body: seq<byte>, le: bool): seq<byte> {
    Enc(t, 4, le) + Enc(TotalLength(|body|), 4, le) + body + Zeros(PadLen(|body|)) + Enc(TotalLength(|body|), 4, le)
  }

  function Bytes(b: Blk): (s: seq<byte>)
    requires b.Valid()
  {
    Framed(b.Type(), Body(b), b.le)
  }

  // ---- the builder ------------------------------------------------------------------------------------

  class Builder {
    var bytes: seq<byte>
    const le: bool

    constructor (le: bool)
      ensures bytes == [] && this.le == le
    {
      this.le := le;
      bytes := [];
    }

    method U16(v: nat)
      modifies this
      ensures bytes == old(bytes) + Enc(v, 2, le)
    {
      assert Enc(v, 2, true) == [v % 256, v / 256 % 256] by {
        assert Encode(v, 2, false) == [v % 256] + Encode(v / 256, 1, false);
      }
      assert Enc(v, 2, false) == [v / 256 % 256, v % 256] by {
        assert Encode(v, 2, true) == Encode(v / 256, 1, true) + [v % 256];
      }
      if le {
        bytes := bytes + [v % 256] + [v / 256 % 256];
      } else {
        bytes := bytes + [v / 256 % 256] + [v % 256];
      }
    }

    /** u32 and u64: one byte per step, shifting by 8 k or by 8 (n - 1 - k). */
    method Word(v: nat, n: nat)
      modifies this
      ensures bytes == old(bytes) + Enc(v, n, le)
    {
      hide Encode, Pow2;
      for k := 0 to n
        invariant bytes == old(bytes) + Enc(v, n, le)[..k]
      {
        EncodedByte(v, n, k, !le);
        var shift := if le then 8 * k else 8 * (n - 1 - k);
        bytes := bytes + [v / Pow2(shift) % 256];
      }
    }

    method Raw(s: seq<byte>)
      modifies this
      ensures bytes == old(bytes) + s
    {
      bytes := bytes + s;
    }

    method PadTo4()
      modifies this
      ensures bytes == old(bytes) + Zeros(PadLen(|old(bytes)|))
    {
      ghost var start := |bytes|;
      while |bytes| % 4 != 0
        invariant start <= |bytes| <= start + PadLen(start)
        invariant bytes == old(bytes) + Zeros(|bytes| - start)
        decreases start + PadLen(start) - |bytes|
      {
        bytes := bytes + [0];
      }
    }

    method AppendBlock(t: nat, body: seq<byte>)
      requires |bytes| % 4 == 0
      modifies this
      ensures bytes == old(bytes) + Framed(t, body, le)
    {
      hide Enc, Zeros, TotalLength;
      var total := TotalLength(|body|);
      Word(t, 4);
      Word(total, 4);
      Raw(body);
      assert PadLen(|bytes|) == PadLen(|body|);
      PadTo4();
      Word(total, 4);
    }
  }

  method BuildShbBody(le: bool) returns (s: seq<byte>)
    ensures s == ShbBody(le)
  {
    hide Enc;
    var t := new Builder(le);
    t.Word(BYTE_ORDER_MAGIC, 4);
    t.U16(1);
    t.U16(0);
    t.Word(TWO_TO_THE_64 - 1, 8);
    t.U16(3);
    t.U16(14);
    t.Raw(OS_NAME);
    t.PadTo4();
    t.U16(0);
    t.U16(0);
    s := t.bytes;
  }

  method BuildIdbBody(le: bool, linkType: nat, tsResol: nat) returns (s: seq<byte>)
    requires tsResol < 256
    ensures s == IdbBody(le, linkType, tsResol)
  {
    hide Enc;
    var t := new Builder(le);
    t.U16(linkType);
    t.U16(0);
    t.Word(65535, 4);
    t.U16(9);
    t.U16(1);
    t.Raw([tsResol, 0, 0, 0]);
    t.U16(0);
    t.U16(0);
    s := t.bytes;
  }

  method EpbFixedFields(t: Builder, b: Blk)
    requires b.EpbBlk? && t.le == b.le
    modifies t
    ensures t.bytes == old(t.bytes) + EpbFixed(b)
  {
    hide Enc;
    t.Word(b.iface, 4);
    t.Word(b.ts / TWO_TO_THE_32 % TWO_TO_THE_32, 4);
    t.Word(b.ts % TWO_TO_THE_32, 4);
    t.Word(|b.data| % TWO_TO_THE_32, 4);
    t.Word(b.origlen, 4);
  }

  method EpbTrailingOptions(t: Builder, flags: nat)
    modifies t
    ensures t.bytes == old(t.bytes) + EpbTrailer(t.le, flags)
  {
    hide Enc;
    t.U16(2);
    t.U16(4);
    t.Word(flags, 4);
    t.U16(0);
    t.U16(0);
  }

  method BuildEpbBody(b: Blk) returns (s: seq<byte>)
    requires b.EpbBlk?
    ensures s == EpbBody(b)
  {
    hide EpbFixed, EpbTrailer;
    var t := new Builder(b.le);
    EpbFixedFields(t, b);
    assert t.bytes == EpbFixed(b);
    t.Raw(b.data);
    PadLenShift(20, |b.data|);
    t.PadTo4();
    EpbTrailingOptions(t, b.flags);
    s := t.bytes;
  }

  lemma PadLenShift(m: nat, n: nat)
    requires m % 4 == 0
    ensures PadLen(m + n) == PadLen(n)
  {
  }

  method BuildBody(b: Blk) returns (s: seq<byte>)
    requires b.Valid()
    ensures s == Body(b)
  {
    match b {
      case ShbBlk(le) => s := BuildShbBody(le);
      case IdbBlk(le, link, resol) => s := BuildIdbBody(le, link, resol);
      case EpbBlk(_, _, _, _, _, _) => s := BuildEpbBody(b);
    }
  }

  /** A capture: the bytes of its blocks, one after the other. */
  function File(blocks: seq<Blk>): seq<byte>
    requires forall i :: 0 <= i < |blocks| ==> blocks[i].Valid()
  {
    if blocks == [] then [] else Bytes(blocks[0]) + File(blocks[1..])
  }

  /** Append the blocks of one section, all in the builder's byte order. */
  method BuildSection(le: bool, blocks: seq<Blk>) returns (s: seq<byte>)
    requires forall i :: 0 <= i < |blocks| ==> blocks[i].Valid() && blocks[i].le == le
    ensures s == File(blocks)
  {
    hide Framed, Body;
    var b := new Builder(le);
    var i := 0;
    while i < |blocks|
      invariant 0 <= i <= |blocks| && |b.bytes| % 4 == 0
      invariant File(blocks) == b.bytes + File(blocks[i..])
    {
      var body := BuildBody(blocks[i]);
      FramedSize(blocks[i].Type(), body, le);
      FileSplit(blocks, i, b.bytes);
      b.AppendBlock(blocks[i].Type(), body);
      i := i + 1;
    }
    s := b.bytes;
  }

  lemma FileSplit(blocks: seq<Blk>, i: nat, head: seq<byte>)
    requires i < |blocks| && forall i :: 0 <= i < |blocks| ==> blocks[i].Valid()
    ensures head + File(blocks[i..]) == head + Bytes(blocks[i]) + File(blocks[i + 1..])
  {
    hide Bytes;
    var rest := File(blocks[i + 1..]);
    assert blocks[i..][0] == blocks[i] && blocks[i..][1..] == blocks[i + 1..];
    assert head + (Bytes(blocks[i]) + rest) == head + Bytes(blocks[i]) + rest;
  }

  lemma FramedSize(t: nat, body: seq<byte>, le: bool)
    requires |body| % 4 == 0
    ensures |Framed(t, body, le)| == |body| + 12
  {
  }

  lemma {:induction false} EncodedByte(v: nat, n: nat, k: nat, big: bool)
    requires k < n
    ensures Encode(v, n, big)[k] == v / Pow2(if big then 8 * (n - 1 - k) else 8 * k) % 256
  {
    var last := if big then k == n - 1 else k == 0;
    if !last {
      if big {
        EncodedByte(v / 256, n - 1, k, big);
        ShiftTwice(v, 8 * (n - 2 - k));
      } else {
        EncodedByte(v / 256, n - 1, k - 1, big);
        ShiftTwice(v, 8 * (k - 1));
      }
    }
  }

  lemma ShiftTwice(v: nat, s: nat)
    ensures v / 256 / Pow2(s) == v / Pow2(s + 8)
  {
    Pow2Adds(s, 8);
    Pow2Values();
    DivideTwice(v, 256, Pow2(s));
  }
}
