/** Cursors over [type][length][value] records: IPv6 options, IPv4 options, and raw records. Positions are offsets
    into a buffer; a record's value is the offset of its bytes, or none for a one-byte record. */
module Tlv {
  import opened Wire

  datatype PadMode = Ipv6Options | Ipv4Options | RawRecords

  datatype Record = Record(kind: nat, length: nat, value: Option<nat>)

  /** The record at p and the position after it; none at the end of the region or for a record that would run
      past it. */
  function NextRecord(buf: seq<byte>, p: nat, end: nat, pad: PadMode): (r: Option<(Record, nat)>)
    requires end <= |buf|
    ensures r.Some? ==> p < r.value.1 <= end
    ensures r.Some? && r.value.0.value.Some? ==>
      p + 2 == r.value.0.value.value && r.value.0.value.value + r.value.0.length == r.value.1
  {
    if p >= end then None
    else
      var t := buf[p];
      if pad.Ipv6Options? && t == 0 then Some((Record(0, 0, None), p + 1))
      else if pad.Ipv4Options? then
        if t == 0 then Some((Record(0, 0, None), end))
        else if t == 1 then Some((Record(1, 0, None), p + 1))
        else if p + 2 > end then None
        else
          var len := buf[p + 1];
          if len < 2 || p + len > end then None
          else Some((Record(t, len - 2, Some(p + 2)), p + len))
      else if p + 2 > end then None
      else
        var len := buf[p + 1];
        if p + 2 + len > end then None else Some((Record(t, len, Some(p + 2)), p + 2 + len))
  }

  /** Kinds that are one byte long: Pad1 of IPv6, end-of-list and no-operation of IPv4. */
  predicate IsMarker(kind: nat, pad: PadMode) {
    match pad
    case Ipv6Options => kind == 0
    case Ipv4Options => kind <= 1
    case RawRecords => false
  }

  /** A record of the region on its bytes: its kind, its length byte (which in IPv4 counts the two bytes before the
      value) and its value, all before the end; or a marker, behind which an IPv4 end-of-list leaves nothing. */
  ghost predicate IsRecord(buf: seq<byte>, p: nat, end: nat, pad: PadMode, r: Record, next: nat)
    requires end <= |buf|
  {
    && p < next <= end && r.kind == buf[p] && (r.value.None? <==> IsMarker(buf[p], pad))
    && match r.value
       case None => r.length == 0 && next == if pad.Ipv4Options? && r.kind == 0 then end else p + 1
       case Some(v) =>
         v == p + 2 && next == v + r.length && v <= end &&
         buf[p + 1] == r.length + if pad.Ipv4Options? then 2 else 0
  }

  /** The cursor yields exactly the record its bytes tell. */
  lemma RecordOnTheWire(buf: seq<byte>, p: nat, end: nat, pad: PadMode, r: Record, next: nat)
    requires end <= |buf|
    ensures NextRecord(buf, p, end, pad) == Some((r, next)) <==> IsRecord(buf, p, end, pad, r, next)
  {
  }

  /** All records of a region, in order. */
  function Records(buf: seq<byte>, p: nat, end: nat, pad: PadMode): seq<Record>
    requires end <= |buf|
    decreases end - p
  {
    match NextRecord(buf, p, end, pad)
    case None => []
    case Some((r, p')) => [r] + Records(buf, p', end, pad)
  }

  class TlvCursor {
    var p: nat
    const end: nat
    const pad: PadMode

    constructor (p: nat, end: nat, pad: PadMode)
      ensures this.p == p && this.end == end && this.pad == pad
    {
      this.p, this.end, this.pad := p, end, pad;
    }

    /** Decode the next record and move past it; a failed call leaves the cursor where it is. */
    method Next(buf: seq<byte>) returns (out: Option<Record>)
      requires end <= |buf|
      modifies this
      ensures match NextRecord(buf, old(p), end, pad)
              case None => out == None && p == old(p)
              case Some((r, p')) => out == Some(r) && p == p'
    {
      if p >= end {
        return None;
      }
      var t := buf[p];
      if pad.Ipv6Options? && t == 0 {
        p := p + 1;
        return Some(Record(0, 0, None));
      }
      if pad.Ipv4Options? {
        if t == 0 {
          p := end;
          return Some(Record(0, 0, None));
        }
        if t == 1 {
          p := p + 1;
          return Some(Record(1, 0, None));
        }
        if p + 2 > end {
          return None;
        }
        var wlen := buf[p + 1];
        if wlen < 2 || p + wlen > end {
          return None;
        }
        out := Some(Record(t, wlen - 2, Some(p + 2)));
        p := p + wlen;
        return;
      }
      if p + 2 > end {
        return None;
      }
      var len := buf[p + 1];
      if p + 2 + len > end {
        return None;
      }
      out := Some(Record(t, len, Some(p + 2)));
      p := p + 2 + len;
    }
  }

  /** The records a cursor loop yields, in order. */
  method Collect(buf: seq<byte>, p: nat, end: nat, pad: PadMode) returns (rs: seq<Record>)
    requires end <= |buf|
    ensures rs == Records(buf, p, end, pad)
  {
    rs := [];
    var c := new TlvCursor(p, end, pad);
    var r := c.Next(buf);
    while r.Some?
      invariant c.end == end && c.pad == pad && (r.Some? ==> c.p <= end)
      invariant Records(buf, p, end, pad) == rs + (if r.Some? then [r.value] + Records(buf, c.p, end, pad) else [])
      decreases r.Some?, end - c.p
    {
      assert rs + ([r.value] + Records(buf, c.p, end, pad)) == rs + [r.value] + Records(buf, c.p, end, pad);
      rs := rs + [r.value];
      r := c.Next(buf);
    }
  }

  /** The count pass: as many as the loop yields, on a 32-bit counter. */
  method TlvCount(buf: seq<byte>, p: nat, end: nat, pad: PadMode) returns (n: nat)
    requires end <= |buf|
    ensures n == |Records(buf, p, end, pad)| % TWO_TO_THE_32
  {
    n := 0;
    ghost var seen := 0;
    var c := new TlvCursor(p, end, pad);
    var r := c.Next(buf);
    while r.Some?
      invariant c.end == end && c.pad == pad && (r.Some? ==> c.p <= end)
      invariant n == seen % TWO_TO_THE_32
      invariant |Records(buf, p, end, pad)| == seen + (if r.Some? then 1 + |Records(buf, c.p, end, pad)| else 0)
      decreases r.Some?, end - c.p
    {
      n := (n + 1) % TWO_TO_THE_32;
      seen := seen + 1;
      r := c.Next(buf);
    }
  }

  /** Index a fixed-stride array: none when the index or the element's bytes are out of range. */
  function RepeatAt(base: nat, count: nat, stride: nat, end: nat, i: nat): Option<nat> {
    if i >= count then None
    else if base + i * stride + stride <= end then Some(base + i * stride) else None
  }

  // ---- the encoder ------------------------------------------------------------------------------------

  /** One record to encode. */
  datatype Item = Pad1 | Nop | Eool | Tlv(kind: nat, value: seq<byte>)

  predicate ValidItem(x: Item, pad: PadMode) {
    match pad
    case Ipv6Options => x.Pad1? || (x.Tlv? && 0 < x.kind < 256 && |x.value| < 256)
    case Ipv4Options => x.Nop? || x.Eool? || (x.Tlv? && 1 < x.kind < 256 && |x.value| < 254)
    case RawRecords => x.Tlv? && x.kind < 256 && |x.value| < 256
  }

  /** Valid records, with an end-of-list marker only in last place. */
  predicate ValidItems(xs: seq<Item>, pad: PadMode) {
    forall i :: 0 <= i < |xs| ==> ValidItem(xs[i], pad) && (xs[i].Eool? ==> i == |xs| - 1)
  }

  function EncodeItem(x: Item, pad: PadMode): seq<byte>
    requires ValidItem(x, pad)
  {
    match x
    case Pad1 => [0]
    case Nop => [1]
    case Eool => [0]
    case Tlv(t, v) => [t, if pad.Ipv4Options? then |v| + 2 else |v|] + v
  }

  function EncodeItems(xs: seq<Item>, pad: PadMode): seq<byte>
    requires ValidItems(xs, pad)
  {
    if xs == [] then [] else EncodeItem(xs[0], pad) + EncodeItems(xs[1..], pad)
  }

  /** The item a decoded record stands for. */
  function ItemOf(buf: seq<byte>, r: Record, pad: PadMode): Item
    requires r.value.Some? ==> r.value.value + r.length <= |buf|
  {
    if r.value.Some? then Tlv(r.kind, buf[r.value.value..r.value.value + r.length])
    else if pad.Ipv4Options? then (if r.kind == 0 then Eool else Nop)
    else Pad1
  }

  function Items(buf: seq<byte>, p: nat, end: nat, pad: PadMode): seq<Item>
    requires end <= |buf|
    decreases end - p
  {
    match NextRecord(buf, p, end, pad)
    case None => []
    case Some((r, p')) => [ItemOf(buf, r, pad)] + Items(buf, p', end, pad)
  }

  lemma {:induction false} ItemsAreTheRecords(buf: seq<byte>, p: nat, end: nat, pad: PadMode)
    requires end <= |buf|
    ensures |Items(buf, p, end, pad)| == |Records(buf, p, end, pad)|
    ensures forall i :: 0 <= i < |Records(buf, p, end, pad)| ==>
      var r := Records(buf, p, end, pad)[i];
      (r.value.Some? ==> p + 2 <= r.value.value && r.value.value + r.length <= end) &&
      Items(buf, p, end, pad)[i] == ItemOf(buf, r, pad)
    decreases end - p
  {
    match NextRecord(buf, p, end, pad)
    case None =>
    case Some((r, p')) => ItemsAreTheRecords(buf, p', end, pad);
  }

  /** The position after the last byte of the yielded records. An end-of-list marker takes one byte; what
      follows it in the region is padding. */
  function StopsAt(buf: seq<byte>, p: nat, end: nat, pad: PadMode): (q: nat)
    requires end <= |buf|
    ensures p <= end ==> p <= q <= end
    decreases end - p
  {
    match NextRecord(buf, p, end, pad)
    case None => p
    case Some((r, p')) => if ItemOf(buf, r, pad).Eool? then p + 1 else StopsAt(buf, p', end, pad)
  }

  // ---- round trips ------------------------------------------------------------------------------------

  /** Decoding one encoded record in place. */
  lemma DecodesItem(x: Item, buf: seq<byte>, p: nat, end: nat, pad: PadMode)
    requires ValidItem(x, pad) && p <= end <= |buf|
    requires EncodeItem(x, pad) <= buf[p..end]
    ensures var r := NextRecord(buf, p, end, pad);
      r.Some? && ItemOf(buf, r.value.0, pad) == x &&
      r.value.1 == if x.Eool? then end else p + |EncodeItem(x, pad)|
  {
    var e := EncodeItem(x, pad);
    assert forall i :: 0 <= i < |e| ==> buf[p + i] == buf[p..end][i] == e[i];
    assert buf[p] == e[0];
    if x.Tlv? {
      assert buf[p + 1] == e[1];
      assert buf[p + 2..p + 2 + |x.value|] == x.value by {
        assert forall i :: 0 <= i < |x.value| ==> buf[p + (2 + i)] == e[2 + i] == x.value[i];
      }
    }
  }

  /** Encoding any valid records and walking the bytes gives the records back; after an end-of-list marker any
      padding may follow. */
  lemma {:induction false} DecodeUndoesEncode(xs: seq<Item>, rest: seq<byte>, buf: seq<byte>, p: nat, end: nat,
                                              pad: PadMode)
    requires ValidItems(xs, pad) && p <= end <= |buf|
    requires buf[p..end] == EncodeItems(xs, pad) + rest
    requires rest == [] || (xs != [] && xs[|xs| - 1].Eool?)
    ensures Items(buf, p, end, pad) == xs
    decreases |xs|
  {
    hide NextRecord, EncodeItem, ItemOf;
    if xs == [] {
      EmptyRegion(buf, p, end, pad);
    } else {
      var e, tail := EncodeItem(xs[0], pad), EncodeItems(xs[1..], pad);
      assert EncodeItems(xs, pad) + rest == e + (tail + rest);
      DecodesItem(xs[0], buf, p, end, pad);
      if xs[0].Eool? {
        assert xs == [xs[0]];
        EmptyRegion(buf, end, end, pad);
      } else {
        assert buf[p + |e|..end] == buf[p..end][|e|..] == tail + rest;
        assert xs[1..] != [] ==> xs[1..][|xs[1..]| - 1] == xs[|xs| - 1];
        DecodeUndoesEncode(xs[1..], rest, buf, p + |e|, end, pad);
      }
    }
  }

  lemma EmptyRegion(buf: seq<byte>, p: nat, end: nat, pad: PadMode)
    requires end <= |buf| && p >= end
    ensures NextRecord(buf, p, end, pad) == None
  {
  }

  /** A yielded record re-encodes to the bytes it was read from. */
  lemma ReEncodesItem(buf: seq<byte>, p: nat, end: nat, pad: PadMode)
    requires end <= |buf| && NextRecord(buf, p, end, pad).Some?
    ensures var (r, p') := NextRecord(buf, p, end, pad).value;
      var x := ItemOf(buf, r, pad);
      && ValidItem(x, pad)
      && (if x.Eool? then p' == end && EncodeItem(x, pad) == buf[p..p + 1] else EncodeItem(x, pad) == buf[p..p'])
  {
  }

  /** The yielded records are valid and re-encode to exactly the bytes up to where the walk stopped. */
  lemma {:induction false} EncodeUndoesDecode(buf: seq<byte>, p: nat, end: nat, pad: PadMode)
    requires p <= end <= |buf|
    ensures ValidItems(Items(buf, p, end, pad), pad)
    ensures EncodeItems(Items(buf, p, end, pad), pad) == buf[p..StopsAt(buf, p, end, pad)]
    decreases end - p
  {
    hide NextRecord, EncodeItem, ItemOf;
    match NextRecord(buf, p, end, pad)
    case None =>
    case Some((r, p')) =>
      ReEncodesItem(buf, p, end, pad);
      var x := ItemOf(buf, r, pad);
      EncodeUndoesDecode(buf, p', end, pad);
      var tail := Items(buf, p', end, pad);
      assert Items(buf, p, end, pad) == [x] + tail && ([x] + tail)[1..] == tail;
      if x.Eool? {
        EmptyRegion(buf, p', end, pad);
        assert tail == [];
      } else {
        var q := StopsAt(buf, p', end, pad);
        SliceJoin(buf, p, p', q);
      }
  }

  // ---- on-wire lengths --------------------------------------------------------------------------------

  /** What an IPv4 option row reports: 1 for the one-byte markers, value length plus 2 otherwise, in 8 bits. */
  function OnWire(r: Record): nat { if r.value.None? then 1 else (r.length + 2) % 256 }

  function OnWireSum(rs: seq<Record>): nat { if rs == [] then 0 else OnWire(rs[0]) + OnWireSum(rs[1..]) }

  /** The reported IPv4 option lengths add up to the bytes the walk covered. */
  lemma {:induction false} OnWireLengthsAddUp(buf: seq<byte>, p: nat, end: nat)
    requires p <= end <= |buf|
    ensures OnWireSum(Records(buf, p, end, Ipv4Options)) == StopsAt(buf, p, end, Ipv4Options) - p
    decreases end - p
  {
    match NextRecord(buf, p, end, Ipv4Options)
    case None =>
    case Some((r, p')) =>
      OnWireLengthsAddUp(buf, p', end);
      var rest := Records(buf, p', end, Ipv4Options);
      assert ([r] + rest)[1..] == rest;
      if ItemOf(buf, r, Ipv4Options).Eool? {
        EmptyRegion(buf, p', end, Ipv4Options);
        assert rest == [];
      }
  }
}
