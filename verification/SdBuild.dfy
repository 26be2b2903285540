/** Writing a service discovery message, and that reading its children undoes it. */
module SdBuild {
  import opened Wire
  import opened ByteWords
  import opened SomeipSd
  import opened SdWire

  /** An option to write: its type and the bytes behind. */
  datatype Opt = Opt(kind: byte, body: seq<byte>)

  predicate ValidOpts(os: seq<Opt>) { forall i :: 0 <= i < |os| ==> |os[i].body| < 0x1_0000 }

  function OptBytes(o: Opt): seq<byte>
    requires |o.body| < 0x1_0000
  {
    [|o.body| / 0x100, |o.body| % 0x100, o.kind] + o.body
  }

  function OptsBytes(os: seq<Opt>): seq<byte>
    requires ValidOpts(os)
  {
    if os == [] then [] else OptBytes(os[0]) + OptsBytes(os[1..])
  }

  function Four(v: nat): (s: seq<byte>)
    requires v < 0x1_0000_0000
    ensures |s| == 4
  {
    [v / 0x100_0000, v / 0x1_0000 % 0x100, v / 0x100 % 0x100, v % 0x100]
  }

  /** Message id, length, request id and versions, flags, length of the entries. */
  function Head(length: nat, client: seq<byte>, flags: seq<byte>, entries: nat): (s: seq<byte>)
    requires length < 0x1_0000_0000 && entries < 0x1_0000_0000 && |client| == 8 && |flags| == 4
    ensures |s| == 24
  {
    [0xFF, 0xFF, 0x81, 0x00] + Four(length) + client + flags + Four(entries)
  }

  /** A message's parts; its lengths fit 32 bits. */
  datatype Message = Message(client: seq<byte>, flags: seq<byte>, entries: seq<seq<byte>>, options: seq<Opt>)
  {
    predicate Valid() {
      && |client| == 8 && |flags| == 4 && AllOfSize(entries, 16) && ValidOpts(options)
      && 28 + 16 * |entries| + |OptsBytes(options)| < 0x1_0000_0000
    }
  }

  function MessageBytes(m: Message): seq<byte>
    requires m.Valid()
  {
    Head(20 + 16 * |m.entries| + |OptsBytes(m.options)|, m.client, m.flags, 16 * |m.entries|) +
    (Joined(m.entries) + (Four(|OptsBytes(m.options)|) + OptsBytes(m.options)))
  }

  // ---- reading back -----------------------------------------------------------------------------------

  lemma FourReads(p: seq<byte>, at: nat, v: nat)
    requires v < 0x1_0000_0000 && LiesAt(p, at, Four(v))
    ensures at + 4 <= |p| && B4(p, at) == v
  {
    LiesAtByte(p, at, Four(v), 0);
    LiesAtByte(p, at, Four(v), 1);
    LiesAtByte(p, at, Four(v), 2);
    LiesAtByte(p, at, Four(v), 3);
    Digits(v);
  }

  lemma Digits(v: nat)
    ensures v == 0x100_0000 * (v / 0x100_0000) + 0x1_0000 * (v / 0x1_0000 % 0x100) + 0x100 * (v / 0x100 % 0x100) +
                 v % 0x100
  {
    assert v / 0x1_0000 == 0x100 * (v / 0x100_0000) + v / 0x1_0000 % 0x100;
    assert v / 0x100 == 0x100 * (v / 0x1_0000) + v / 0x100 % 0x100;
  }

  lemma HeadReads(p: seq<byte>, off: nat, length: nat, client: seq<byte>, flags: seq<byte>, entries: nat)
    requires length < 0x1_0000_0000 && entries < 0x1_0000_0000 && |client| == 8 && |flags| == 4
    requires LiesAt(p, off, Head(length, client, flags, entries))
    ensures off + 24 <= |p| && B2(p, off) == 0xFFFF && B2(p, off + 2) == 0x8100
    ensures B4(p, off + 4) == length && B4(p, off + 20) == entries
  {
    hide Four, B4;
    var h := Head(length, client, flags, entries);
    assert h[4..8] == Four(length) && h[20..24] == Four(entries);
    InnerLies(p, off, h, 4, Four(length));
    InnerLies(p, off, h, 20, Four(entries));
    FourReads(p, off + 4, length);
    FourReads(p, off + 20, entries);
    LiesAtByte(p, off, h, 0);
    LiesAtByte(p, off, h, 1);
    LiesAtByte(p, off, h, 2);
    LiesAtByte(p, off, h, 3);
  }

  lemma OptSize(o: Opt)
    requires |o.body| < 0x1_0000
    ensures |OptBytes(o)| == 3 + |o.body|
  {
  }

  /** Where the k-th option starts. */
  function OptAt(os: seq<Opt>, k: nat): nat
    requires ValidOpts(os) && k <= |os|
  {
    |OptsBytes(os[..k])|
  }

  lemma OptAtStep(os: seq<Opt>, k: nat)
    requires ValidOpts(os) && 0 < k <= |os|
    ensures OptAt(os, k) == |OptBytes(os[0])| + OptAt(os[1..], k - 1)
  {
    hide OptBytes;
    assert os[..k][1..] == os[1..][..k - 1];
  }

  /** The option that writing put k-th behind at. */
  ghost predicate IsWritten(p: seq<byte>, at: nat, os: seq<Opt>, i: nat, k: nat, o: SdOption)
    requires ValidOpts(os) && k < |os|
  {
    && o == SdOption((i + k) % 256, at + OptAt(os, k), |os[k].body|, os[k].kind)
    && LiesAt(p, o.at + 3, os[k].body)
  }

  lemma OptReads(p: seq<byte>, at: nat, o: Opt)
    requires |o.body| < 0x1_0000 && LiesAt(p, at, OptBytes(o))
    ensures at + 3 + |o.body| <= |p| && Word16(p, at) == |o.body| && p[at + 2] == o.kind
    ensures LiesAt(p, at + 3, o.body)
  {
    var b := OptBytes(o);
    LiesAtByte(p, at, b, 0);
    LiesAtByte(p, at, b, 1);
    LiesAtByte(p, at, b, 2);
    WordIsBytes(p, at, 2);
    assert b[3..3 + |o.body|] == o.body;
    InnerLies(p, at, b, 3, o.body);
  }

  lemma {:induction false} OptionsUndo(p: seq<byte>, at: nat, os: seq<Opt>, i: nat)
    requires ValidOpts(os) && LiesAt(p, at, OptsBytes(os))
    ensures var r := OptionsFrom(p, at, at + |OptsBytes(os)|, i);
      |r| == |os| && forall k :: 0 <= k < |os| ==> IsWritten(p, at, os, i, k, r[k])
    decreases |os|
  {
    hide Word16, IsWritten, LiesAt, OptBytes;
    if os != [] {
      OptSize(os[0]);
      var rest, end := os[1..], at + |OptsBytes(os)|;
      LiesSplit(p, at, OptBytes(os[0]), OptsBytes(rest));
      OptReads(p, at, os[0]);
      var next := at + |OptBytes(os[0])|;
      OptionsUndo(p, next, rest, i + 1);
      LiesAtEnds(p, at, OptsBytes(os));
      var r, tail := OptionsFrom(p, at, end, i), OptionsFrom(p, next, end, i + 1);
      assert r == [SdOption(i % 256, at, |os[0].body|, os[0].kind)] + tail;
      FirstWritten(p, at, os, i);
      forall k | 0 < k < |os| ensures IsWritten(p, at, os, i, k, r[k]) {
        NextWritten(p, at, os, i, k, tail[k - 1]);
      }
    }
  }

  lemma FirstWritten(p: seq<byte>, at: nat, os: seq<Opt>, i: nat)
    requires ValidOpts(os) && os != [] && LiesAt(p, at + 3, os[0].body)
    ensures IsWritten(p, at, os, i, 0, SdOption(i % 256, at, |os[0].body|, os[0].kind))
  {
    assert os[..0] == [];
  }

  lemma NextWritten(p: seq<byte>, at: nat, os: seq<Opt>, i: nat, k: nat, o: SdOption)
    requires ValidOpts(os) && 0 < k < |os|
    requires IsWritten(p, at + |OptBytes(os[0])|, os[1..], i + 1, k - 1, o)
    ensures IsWritten(p, at, os, i, k, o)
  {
    hide OptBytes, LiesAt, OptAt;
    OptAtStep(os, k);
  }

  lemma PartsLie(p: seq<byte>, off: nat, m: Message)
    requires m.Valid() && LiesAt(p, off, MessageBytes(m))
    ensures var n, o := |m.entries|, OptsBytes(m.options);
      && LiesAt(p, off, Head(20 + 16 * n + |o|, m.client, m.flags, 16 * n)) && |Joined(m.entries)| == 16 * n
      && LiesAt(p, off + 24, Joined(m.entries)) && LiesAt(p, off + 24 + 16 * n, Four(|o|))
      && LiesAt(p, off + 28 + 16 * n, o)
  {
    hide Head, OptsBytes, Four, LiesAt, Joined;
    var n, o := |m.entries|, OptsBytes(m.options);
    var head, es := Head(20 + 16 * n + |o|, m.client, m.flags, 16 * n), Joined(m.entries);
    JoinedSize(m.entries, 16);
    LiesSplit(p, off, head, es + (Four(|o|) + o));
    LiesSplit(p, off + 24, es, Four(|o|) + o);
    LiesSplit(p, off + 24 + 16 * n, Four(|o|), o);
  }

  lemma RegionIsWritten(p: seq<byte>, off: nat, m: Message)
    requires m.Valid() && LiesAt(p, off, MessageBytes(m))
    ensures var n, o := |m.entries|, |OptsBytes(m.options)|;
      && SdRegion(p, off) == Some(Region(off + 24, off + 24 + 16 * n, off + 28 + 16 * n + o))
      && OptionsStart(p, SdRegion(p, off).value) == Some((off + 28 + 16 * n, off + 28 + 16 * n + o))
  {
    hide Head, OptsBytes, Four, LiesAt, Joined, B2, B4, MessageBytes;
    var n, o := |m.entries|, OptsBytes(m.options);
    PartsLie(p, off, m);
    HeadReads(p, off, 20 + 16 * n + |o|, m.client, m.flags, 16 * n);
    FourReads(p, off + 24 + 16 * n, |o|);
    LiesAtEnds(p, off + 28 + 16 * n, o);
    RegionOnTheWire(p, off);
    OptionsOnTheWire(p, SdRegion(p, off).value);
  }

  lemma EntryLies(p: seq<byte>, at: nat, es: seq<seq<byte>>, i: nat)
    requires AllOfSize(es, 16) && i < |es| && LiesAt(p, at, Joined(es))
    ensures LiesAt(p, at + 16 * i, es[i])
  {
    hide Joined, LiesAt;
    JoinedAt(es, 16, i);
    InnerLies(p, at, Joined(es), 16 * i, es[i]);
  }

  /** A message read where it was written: its entries and its options are found, all of them, in order and in
      place, numbered modulo 256. */
  lemma SdRoundTrip(p: seq<byte>, off: nat, m: Message)
    requires m.Valid() && LiesAt(p, off, MessageBytes(m))
    ensures match SdRegion(p, off)
            case None => false
            case Some(r) =>
              && |Entries(r)| == |m.entries| && |SdOptions(p, r)| == |m.options|
              && (forall i :: 0 <= i < |m.entries| ==>
                    Entries(r)[i].index == i % 256 && LiesAt(p, Entries(r)[i].at, m.entries[i]))
              && (forall k :: 0 <= k < |m.options| ==>
                    IsWritten(p, off + 28 + 16 * |m.entries|, m.options, 0, k, SdOptions(p, r)[k]))
  {
    hide Head, OptsBytes, Four, LiesAt, IsWritten, OptionsFrom, Joined, MessageBytes, OptionsStart, SdRegion;
    RegionIsWritten(p, off, m);
    PartsLie(p, off, m);
    OptionsUndo(p, off + 28 + 16 * |m.entries|, m.options, 0);
    forall i | 0 <= i < |m.entries| ensures LiesAt(p, off + 24 + 16 * i, m.entries[i]) {
      EntryLies(p, off + 24, m.entries, i);
    }
  }
}
