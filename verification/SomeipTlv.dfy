/** The cursor over SOME/IP TLV members: a two-byte tag whose wire type says how the value's length is found. */
module SomeipTlv {
  import opened Wire
  import opened ByteWords

  const CONFIG_WIRE_TYPE: nat := 4

  datatype Member = Member(dataId: nat, wireType: nat, length: nat, value: Option<nat>)

  function Be16(buf: seq<byte>, p: nat): nat
    requires p + 2 <= |buf|
  {
    WordAt(buf, p, 2, true)
  }

  function Be32(buf: seq<byte>, p: nat): nat
    requires p + 4 <= |buf|
  {
    WordAt(buf, p, 4, true)
  }

  /** Bytes of the length field after the tag; none for the wire type whose width only the IDL knows. */
  function LengthFieldSize(wt: nat): nat {
    if wt == 5 then 1 else if wt == 6 then 2 else if wt == 7 then 4 else 0
  }

  /** The length a base type implies. */
  function ImplicitLength(wt: nat): nat {
    if wt == 0 then 1 else if wt == 1 then 2 else if wt == 2 then 4 else 8
  }

  /** The member at p and the position after it. The reserved top bit of the tag is ignored. */
  function NextMember(buf: seq<byte>, p: nat, end: nat): (r: Option<(Member, nat)>)
    requires end <= |buf|
    ensures r.Some? ==> p + 2 <= r.value.1 <= end && r.value.0.length <= r.value.1 - (p + 2)
    ensures r.Some? && r.value.0.value.Some? ==> r.value.0.value.value + r.value.0.length == r.value.1
    ensures r.Some? ==> (r.value.0.value.None? <==> r.value.0.length == 0)
  {
    if p + 2 > end then None
    else
      var tag := Be16(buf, p);
      var wt, id := tag / 4096 % 8, tag % 4096;
      if wt == CONFIG_WIRE_TYPE then None
      else
        var n := LengthFieldSize(wt);
        if p + 2 + n > end then None
        else
          var len := if n == 0 then ImplicitLength(wt) else WordAt(buf, p + 2, n, true);
          var q := p + 2 + n;
          if q + len > end then None
          else Some((Member(id, wt, len, if len == 0 then None else Some(q)), q + len))
  }

  function Members(buf: seq<byte>, p: nat, end: nat): seq<Member>
    requires end <= |buf|
    decreases end - p
  {
    match NextMember(buf, p, end)
    case None => []
    case Some((m, p')) => [m] + Members(buf, p', end)
  }

  /** A member, read off the bytes: three bits of wire type and twelve of id; then for types 0 to 3 a value of 1, 2, 4
      or 8 bytes, for types 5 to 7 a length of 1, 2 or 4 bytes and a value that long. */
  function WireMember(buf: seq<byte>, p: nat, end: nat): Option<(Member, nat)>
    requires end <= |buf|
  {
    if p + 2 > end then None
    else
      var wt, id := buf[p] / 16 % 8, 0x100 * ((buf[p] % 16) as int) + (buf[p + 1] as int);
      match wt
      case 0 => WireValue(id, wt, p + 2, 1, end)
      case 1 => WireValue(id, wt, p + 2, 2, end)
      case 2 => WireValue(id, wt, p + 2, 4, end)
      case 3 => WireValue(id, wt, p + 2, 8, end)
      case 5 => if p + 3 > end then None else WireValue(id, wt, p + 3, buf[p + 2], end)
      case 6 => if p + 4 > end then None else WireValue(id, wt, p + 4, B2(buf, p + 2), end)
      case 7 => if p + 6 > end then None else WireValue(id, wt, p + 6, B4(buf, p + 2), end)
      case _ => None
  }

  function WireValue(id: nat, wt: nat, q: nat, len: nat, end: nat): Option<(Member, nat)> {
    if q + len > end then None else Some((Member(id, wt, len, if len == 0 then None else Some(q)), q + len))
  }

  lemma MemberOnTheWire(buf: seq<byte>, p: nat, end: nat)
    requires end <= |buf|
    ensures NextMember(buf, p, end) == WireMember(buf, p, end)
  {
    hide WordAt;
    if p + 2 <= end {
      WordIsBytes(buf, p, 2);
      TagBits(buf[p], buf[p + 1]);
      var n := LengthFieldSize(buf[p] / 16 % 8);
      if n > 0 && p + 2 + n <= end {
        WordIsBytes(buf, p + 2, n);
      }
    }
  }

  lemma TagBits(a: byte, b: byte)
    ensures var tag := 0x100 * (a as int) + (b as int);
      tag / 4096 % 8 == a / 16 % 8 && tag % 4096 == 0x100 * ((a % 16) as int) + (b as int)
  {
  }

  class SomeipTlvCursor {
    var p: nat
    const end: nat

    constructor (p: nat, end: nat)
      ensures this.p == p && this.end == end
    {
      this.p, this.end := p, end;
    }

    method Next(buf: seq<byte>) returns (out: Option<Member>)
      requires end <= |buf|
      modifies this
      ensures match NextMember(buf, old(p), end)
              case None => out == None && p == old(p)
              case Some((m, p')) => out == Some(m) && p == p'
    {
      if p + 2 > end {
        return None;
      }
      var tag := Be16(buf, p);
      var wt, id := tag / 4096 % 8, tag % 4096;
      var q, len := p + 2, 0;
      if wt == 0 {
        len := 1;
      } else if wt == 1 {
        len := 2;
      } else if wt == 2 {
        len := 4;
      } else if wt == 3 {
        len := 8;
      } else if wt == 5 {
        if q + 1 > end {
          return None;
        }
        len := buf[q];
        SmallWords(buf[q..q + 1]);
        q := q + 1;
      } else if wt == 6 {
        if q + 2 > end {
          return None;
        }
        len := Be16(buf, q);
        q := q + 2;
      } else if wt == 7 {
        if q + 4 > end {
          return None;
        }
        len := Be32(buf, q);
        q := q + 4;
      } else {
        return None;
      }
      if q + len > end {
        return None;
      }
      out := Some(Member(id, wt, len, if len == 0 then None else Some(q)));
      p := q + len;
    }
  }

  method SomeipTlvCount(buf: seq<byte>, p: nat, end: nat) returns (n: nat)
    requires end <= |buf|
    ensures n == |Members(buf, p, end)| % TWO_TO_THE_32
  {
    hide NextMember;
    n := 0;
    ghost var seen := 0;
    var c := new SomeipTlvCursor(p, end);
    var m := c.Next(buf);
    while m.Some?
      invariant c.end == end && (m.Some? ==> c.p <= end)
      invariant n == seen % TWO_TO_THE_32
      invariant |Members(buf, p, end)| == seen + (if m.Some? then 1 + |Members(buf, c.p, end)| else 0)
      decreases m.Some?, end - c.p
    {
      n := (n + 1) % TWO_TO_THE_32;
      seen := seen + 1;
      m := c.Next(buf);
    }
  }

  // ---- the encoder ------------------------------------------------------------------------------------

  datatype Item = Item(dataId: nat, wireType: nat, value: seq<byte>)

  /** Wire types 5, 6 and 7 write the value's length in 1, 2 and 4 bytes. */
  function PrefixSize(wt: nat): nat { if 5 <= wt < 8 then Pow2(wt - 5) else 0 }

  /** Wire types 0 to 3 are base types of 1, 2, 4 and 8 bytes; 4 is not used. */
  predicate ValidItem(x: Item) {
    && x.dataId < 4096 && x.wireType in {0, 1, 2, 3, 5, 6, 7}
    && if x.wireType < 4 then |x.value| == Pow2(x.wireType) else |x.value| < Pow2(8 * PrefixSize(x.wireType))
  }

  function EncodeItem(x: Item): seq<byte> {
    Encode(x.wireType * 4096 + x.dataId, 2, true) + Encode(|x.value|, PrefixSize(x.wireType), true) + x.value
  }

  /** The decoder's tables say the same. */
  lemma SameSizes(wt: nat)
    ensures LengthFieldSize(wt) == PrefixSize(wt)
    ensures wt < 4 ==> ImplicitLength(wt) == Pow2(wt)
    ensures CONFIG_WIRE_TYPE == 4
  {
    assert Pow2(0) == 1 && Pow2(1) == 2 && Pow2(2) == 4 && Pow2(3) == 8;
  }

  function EncodeItems(xs: seq<Item>): seq<byte> {
    if xs == [] then [] else EncodeItem(xs[0]) + EncodeItems(xs[1..])
  }

  function ItemOf(buf: seq<byte>, m: Member): Item
    requires m.value.Some? ==> m.value.value + m.length <= |buf|
  {
    Item(m.dataId, m.wireType, if m.value.None? then [] else buf[m.value.value..m.value.value + m.length])
  }

  function Items(buf: seq<byte>, p: nat, end: nat): seq<Item>
    requires end <= |buf|
    decreases end - p
  {
    match NextMember(buf, p, end)
    case None => []
    case Some((m, p')) => [ItemOf(buf, m)] + Items(buf, p', end)
  }

  function StopsAt(buf: seq<byte>, p: nat, end: nat): (q: nat)
    requires end <= |buf|
    ensures p <= end ==> p <= q <= end
    decreases end - p
  {
    match NextMember(buf, p, end)
    case None => p
    case Some((m, p')) => StopsAt(buf, p', end)
  }

  lemma TagFits(x: Item)
    requires ValidItem(x)
    ensures var tag := x.wireType * 4096 + x.dataId;
      tag < Pow2(16) && tag / 4096 % 8 == x.wireType && tag % 4096 == x.dataId
  {
    Pow2Values();
  }

  lemma EncodedParts(x: Item)
    ensures var e, n := EncodeItem(x), LengthFieldSize(x.wireType);
      && |e| == 2 + n + |x.value|
      && e[0..2] == Encode(x.wireType * 4096 + x.dataId, 2, true)
      && e[2..2 + n] == Encode(|x.value|, n, true) && e[2 + n..] == x.value
  {
    hide Encode;
    SameSizes(x.wireType);
  }

  lemma NextFromParts(buf: seq<byte>, p: nat, end: nat, wt: nat, id: nat, len: nat)
    requires wt < 8 && wt != CONFIG_WIRE_TYPE && id < 4096
    requires var n := LengthFieldSize(wt);
      && p + 2 + n + len <= end <= |buf|
      && Be16(buf, p) == wt * 4096 + id
      && (if n == 0 then len == ImplicitLength(wt) else WordAt(buf, p + 2, n, true) == len)
    ensures var q := p + 2 + LengthFieldSize(wt);
      NextMember(buf, p, end) == Some((Member(id, wt, len, if len == 0 then None else Some(q)), q + len))
  {
    hide WordAt, Be16;
    assert (wt * 4096 + id) / 4096 % 8 == wt && (wt * 4096 + id) % 4096 == id;
  }

  lemma PartsInPlace(x: Item, buf: seq<byte>, p: nat, end: nat)
    requires p <= end <= |buf| && EncodeItem(x) <= buf[p..end]
    ensures var n := LengthFieldSize(x.wireType);
      && |EncodeItem(x)| == 2 + n + |x.value| && p + |EncodeItem(x)| <= end
      && buf[p..p + 2] == Encode(x.wireType * 4096 + x.dataId, 2, true)
      && buf[p + 2..p + 2 + n] == Encode(|x.value|, n, true)
      && buf[p + 2 + n..p + 2 + n + |x.value|] == x.value
  {
    hide EncodeItem, Encode, LengthFieldSize;
    SameSizes(x.wireType);
    var e, n := EncodeItem(x), LengthFieldSize(x.wireType);
    EncodedParts(x);
    assert buf[p..p + |e|] == buf[p..end][..|e|] == e;
    SliceOfSlice(buf, p, p + |e|, 0, 2);
    SliceOfSlice(buf, p, p + |e|, 2, 2 + n);
    SliceOfSlice(buf, p, p + |e|, 2 + n, |e|);
    assert e[2 + n..|e|] == e[2 + n..];
  }

  lemma DecodesItem(x: Item, buf: seq<byte>, p: nat, end: nat)
    requires ValidItem(x) && p <= end <= |buf| && EncodeItem(x) <= buf[p..end]
    ensures var r := NextMember(buf, p, end);
      r.Some? && ItemOf(buf, r.value.0) == x && r.value.1 == p + |EncodeItem(x)|
  {
    hide EncodeItem, Encode, WordAt, NextMember, LengthFieldSize, ImplicitLength, Pow2;
    SameSizes(x.wireType);
    var n := LengthFieldSize(x.wireType);
    PartsInPlace(x, buf, p, end);
    TagFits(x);
    WordIs(buf, p, 2, x.wireType * 4096 + x.dataId);
    WordIs(buf, p + 2, n, |x.value|);
    NextFromParts(buf, p, end, x.wireType, x.dataId, |x.value|);
  }

  lemma WordIs(buf: seq<byte>, p: nat, n: nat, v: nat)
    requires p + n <= |buf|
    requires n > 0 ==> buf[p..p + n] == Encode(v, n, true) && v < Pow2(8 * n)
    ensures n > 0 ==> WordAt(buf, p, n, true) == v
  {
    if n > 0 {
      DecodeEncode(v, n, true);
    }
  }

  /** Encoding any valid members and walking the bytes gives the members back. */
  lemma {:induction false} DecodeUndoesEncode(xs: seq<Item>, buf: seq<byte>, p: nat, end: nat)
    requires forall i :: 0 <= i < |xs| ==> ValidItem(xs[i])
    requires p <= end <= |buf| && buf[p..end] == EncodeItems(xs)
    ensures Items(buf, p, end) == xs
    decreases |xs|
  {
    hide NextMember, EncodeItem, ItemOf;
    if xs == [] {
      EmptyRegion(buf, p, end);
    } else {
      var e := EncodeItem(xs[0]);
      DecodesItem(xs[0], buf, p, end);
      assert buf[p + |e|..end] == buf[p..end][|e|..] == EncodeItems(xs[1..]);
      DecodeUndoesEncode(xs[1..], buf, p + |e|, end);
    }
  }

  /** Where the i-th value starts in the encoding. */
  function ValueAt(xs: seq<Item>, i: nat): nat
    requires i < |xs|
  {
    |EncodeItems(xs[..i])| + 2 + PrefixSize(xs[i].wireType)
  }

  /** The member of the i-th item when the encoding starts at p. */
  function MemberOf(xs: seq<Item>, p: nat, i: nat): Member
    requires i < |xs|
  {
    var x := xs[i];
    Member(x.dataId, x.wireType, |x.value|, if x.value == [] then None else Some(p + ValueAt(xs, i)))
  }

  lemma FirstMember(xs: seq<Item>, buf: seq<byte>, p: nat, end: nat)
    requires xs != [] && ValidItem(xs[0]) && p <= end <= |buf| && EncodeItem(xs[0]) <= buf[p..end]
    ensures NextMember(buf, p, end) == Some((MemberOf(xs, p, 0), p + |EncodeItem(xs[0])|))
  {
    hide NextMember, EncodeItem, ValidItem, PrefixSize;
    DecodesItem(xs[0], buf, p, end);
    ItemSize(xs[0]);
    assert xs[..0] == [];
  }

  lemma MemberStep(xs: seq<Item>, p: nat, i: nat)
    requires 0 < i < |xs|
    ensures MemberOf(xs, p, i) == MemberOf(xs[1..], p + |EncodeItem(xs[0])|, i - 1)
  {
    hide EncodeItem, PrefixSize;
    assert xs[..i][1..] == xs[1..][..i - 1];
  }

  /** The members yielded from encoded items: each with its item's id and type, and the length and place of its
      value. */
  lemma {:induction false} MembersOfItems(xs: seq<Item>, buf: seq<byte>, p: nat, end: nat)
    requires forall i :: 0 <= i < |xs| ==> ValidItem(xs[i])
    requires p <= end <= |buf| && buf[p..end] == EncodeItems(xs)
    ensures |Members(buf, p, end)| == |xs|
    ensures forall i :: 0 <= i < |xs| ==> Members(buf, p, end)[i] == MemberOf(xs, p, i)
    decreases |xs|
  {
    hide NextMember, EncodeItem, ValidItem, MemberOf;
    if xs == [] {
      EmptyRegion(buf, p, end);
    } else {
      var e, rest := EncodeItem(xs[0]), xs[1..];
      FirstMember(xs, buf, p, end);
      assert buf[p + |e|..end] == buf[p..end][|e|..] == EncodeItems(rest);
      MembersOfItems(rest, buf, p + |e|, end);
      forall i | 0 < i < |xs| ensures Members(buf, p, end)[i] == MemberOf(xs, p, i) {
        MemberStep(xs, p, i);
        assert Members(buf, p, end)[i] == Members(buf, p + |e|, end)[i - 1];
      }
    }
  }

  lemma ItemSize(x: Item)
    ensures |EncodeItem(x)| == 2 + PrefixSize(x.wireType) + |x.value|
  {
  }

  lemma EmptyRegion(buf: seq<byte>, p: nat, end: nat)
    requires end <= |buf| && p >= end
    ensures NextMember(buf, p, end) == None
  {
  }

  /** Equal but for the top bit of the first byte: the tag's reserved bit. */
  predicate SameButReservedBit(a: seq<byte>, b: seq<byte>) {
    |a| == |b| > 0 && a[0] % 128 == b[0] % 128 && a[1..] == b[1..]
  }

  lemma TagBytes(a: nat, b: nat)
    requires a < 256 && b < 256
    ensures var tag := a * 256 + b; var v := tag / 4096 % 8 * 4096 + tag % 4096;
      v / 256 == a % 128 && v % 256 == b
  {
  }

  lemma EncodeTag(v: nat)
    ensures Encode(v, 2, true) == [v / 256 % 256, v % 256]
  {
    assert Encode(v, 2, true) == Encode(v / 256, 1, true) + [v % 256];
  }

  lemma TagReEncodes(buf: seq<byte>, p: nat)
    requires p + 2 <= |buf|
    ensures var tag := Be16(buf, p);
      Encode(tag / 4096 % 8 * 4096 + tag % 4096, 2, true) == [buf[p] % 128, buf[p + 1]]
  {
    hide Encode;
    var tag := Be16(buf, p);
    SmallWords(buf[p..p + 2]);
    TagBytes(buf[p], buf[p + 1]);
    EncodeTag(tag / 4096 % 8 * 4096 + tag % 4096);
  }

  lemma LengthReEncodes(buf: seq<byte>, p: nat, n: nat)
    requires p + n <= |buf|
    ensures Encode(WordAt(buf, p, n, true), n, true) == buf[p..p + n]
    ensures WordAt(buf, p, n, true) < Pow2(8 * n)
  {
    WordBound(buf[p..p + n], true);
    EncodeDecode(buf[p..p + n], true);
  }

  lemma ReEncodesItem(buf: seq<byte>, p: nat, end: nat)
    requires end <= |buf| && NextMember(buf, p, end).Some?
    ensures var (m, p') := NextMember(buf, p, end).value;
      ValidItem(ItemOf(buf, m)) && SameButReservedBit(EncodeItem(ItemOf(buf, m)), buf[p..p'])
  {
    hide Encode, Be16, WordAt, Pow2, SameButReservedBit, EncodeItem;
    var (m, p') := NextMember(buf, p, end).value;
    var x, n := ItemOf(buf, m), LengthFieldSize(m.wireType);
    SameSizes(m.wireType);
    TagReEncodes(buf, p);
    if n > 0 {
      LengthReEncodes(buf, p + 2, n);
    }
    SliceParts(buf, p, n, p', x);
  }

  lemma SliceParts(buf: seq<byte>, p: nat, n: nat, p': nat, x: Item)
    requires p + 2 + n <= p' <= |buf| && n == LengthFieldSize(x.wireType)
    requires Encode(x.wireType * 4096 + x.dataId, 2, true) == [buf[p] % 128, buf[p + 1]]
    requires n > 0 ==> Encode(|x.value|, n, true) == buf[p + 2..p + 2 + n]
    requires x.value == buf[p + 2 + n..p']
    ensures SameButReservedBit(EncodeItem(x), buf[p..p'])
  {
    SameSizes(x.wireType);
    var e := EncodeItem(x);
    assert n == 0 ==> Encode(|x.value|, n, true) == [];
    assert e == [buf[p] % 128, buf[p + 1]] + buf[p + 2..p + 2 + n] + buf[p + 2 + n..p'];
    assert e == [buf[p] % 128, buf[p + 1]] + buf[p + 2..p'];
  }

  /** Each member re-encodes to its bytes, up to the reserved tag bit, one after the other. */
  predicate ReEncodes(xs: seq<Item>, bytes: seq<byte>) {
    if xs == [] then bytes == []
    else
      var n := |EncodeItem(xs[0])|;
      n <= |bytes| && SameButReservedBit(EncodeItem(xs[0]), bytes[..n]) && ReEncodes(xs[1..], bytes[n..])
  }

  /** The yielded members are valid and re-encode, up to the reserved bit of each tag, to exactly the bytes up to
      where the walk stopped. */
  lemma {:induction false} EncodeUndoesDecode(buf: seq<byte>, p: nat, end: nat)
    requires p <= end <= |buf|
    ensures forall i :: 0 <= i < |Items(buf, p, end)| ==> ValidItem(Items(buf, p, end)[i])
    ensures ReEncodes(Items(buf, p, end), buf[p..StopsAt(buf, p, end)])
    decreases end - p
  {
    hide NextMember, EncodeItem, ItemOf, ValidItem, SameButReservedBit;
    match NextMember(buf, p, end)
    case None =>
    case Some((m, p')) =>
      ReEncodesItem(buf, p, end);
      EncodeUndoesDecode(buf, p', end);
      var x, tail, q := ItemOf(buf, m), Items(buf, p', end), StopsAt(buf, p', end);
      SameLength(EncodeItem(x), buf[p..p']);
      assert Items(buf, p, end) == [x] + tail && ([x] + tail)[1..] == tail;
      var bytes := buf[p..q];
      assert bytes[..p' - p] == buf[p..p'] && bytes[p' - p..] == buf[p'..q];
  }

  lemma SameLength(a: seq<byte>, b: seq<byte>)
    requires SameButReservedBit(a, b)
    ensures |a| == |b|
  {
  }
}
