/** Which table and columns each header's row goes to, and windows made of frames. */
module WindowWire {
  import opened Wire
  import opened WireSpec
  import opened Dag
  import opened DagDecode
  import opened PacketWalk
  import opened PacketTables
  import opened Tables

  // ---- rows -------------------------------------------------------------------------------------------

  /** Tables by number: the six header tables of the hand-written decoder come under the same numbers first. */
  function TableOf(n: Node): nat {
    match n
    case Eth => 0
    case Vlan => 1
    case Ipv4 => 2
    case Ipv6 => 3
    case Tcp => 4
    case Udp => 5
    case Gptp => 6
    case PtpTimestampBody => 7
    case PtpTsPortBody => 8
    case PtpAnnounceBody => 9
    case PtpSignalingBody => 10
    case HopByHop => 11
    case Routing => 12
    case Fragment => 13
    case DestOpt => 14
    case Ah => 15
    case Someip => 16
  }

  lemma GraphTables(pid: nat, p: seq<byte>, v: Visit)
    requires v.off + HeaderLen(v.node) <= |p|
    ensures NodeRecord(pid, p, v).tab == TableOf(v.node) && NodeRecord(pid, p, v).row == NodeRow(pid, p, v)
  {
    hide NodeRow;
  }

  /** The row of a header: the packet's id and the bytes of its fixed part. */
  lemma HeaderRow(pid: nat, p: seq<byte>, v: Visit)
    requires PduVisit(p, v)
    ensures var n := match v.node
                     case Eth => 14
                     case Vlan => 4
                     case Ipv4 => 20
                     case Ipv6 => 40
                     case Tcp => 20
                     case _ => 8;
      && v.node in {Eth, Vlan, Ipv4, Ipv6, Tcp, Udp}
      && v.off + n <= |p| && PduRecord(pid, p, v) == Emit(TableOf(v.node), [Num(pid), Raw(p[v.off..v.off + n])])
  {
  }

  /** Only frames of link type 1 that hold an Ethernet header are decoded. */
  lemma OtherLinksHaveNoRows(pid: nat, linkType: nat, p: seq<byte>)
    ensures PacketRecords(pid, linkType, p) == [] <==> linkType != 1 || |p| < 14
    ensures PacketRecords(pid, linkType, p) == [] ==> PacketResult(linkType, p) == WalkResult(0, 0, false)
  {
    hide NetworkLayer, TransportLayer, VlanStack, Host16;
    PacketVisitsArePdus(linkType, p);
  }

  // ---- windows ----------------------------------------------------------------------------------------

  function Frames(fs: seq<seq<byte>>): seq<byte> {
    if fs == [] then [] else Frames(fs[..|fs| - 1]) + fs[|fs| - 1]
  }

  /** The k-th frame of a window of frames. */
  function RefTo(linkType: nat, fs: seq<seq<byte>>, k: nat): PacketRef
    requires k < |fs|
  {
    PacketRef(linkType, |Frames(fs[..k])|, |fs[k]|)
  }

  lemma {:induction false} FrameIsThere(fs: seq<seq<byte>>, k: nat)
    requires k < |fs|
    ensures LiesAt(Frames(fs), |Frames(fs[..k])|, fs[k])
    decreases |fs|
  {
    hide LiesAt;
    var n := |fs| - 1;
    if k == n {
      LiesLast(Frames(fs[..n]), fs[n]);
    } else {
      FrameIsThere(fs[..n], k);
      assert fs[..n][..k] == fs[..k];
      StillLies(Frames(fs[..n]), fs[n], |Frames(fs[..k])|, fs[k]);
    }
  }

  lemma LiesLast(a: seq<byte>, b: seq<byte>)
    ensures LiesAt(a + b, |a|, b)
  {
  }

  lemma StillLies(a: seq<byte>, b: seq<byte>, at: nat, part: seq<byte>)
    requires LiesAt(a, at, part)
    ensures LiesAt(a + b, at, part)
  {
    assert (a + b)[at..at + |part|] == a[at..at + |part|];
  }

  /** Frames of any sizes put one behind the other: the window's k-th packet decodes as the k-th frame alone does, under
      the k-th packet id. */
  lemma WindowsAreFrames(pidBase: nat, linkType: nat, fs: seq<seq<byte>>, refs: seq<PacketRef>)
    requires |refs| == |fs| && forall k :: 0 <= k < |fs| ==> refs[k] == RefTo(linkType, fs, k)
    ensures forall k :: 0 <= k < |fs| ==>
      && WindowStream(pidBase, Frames(fs), refs)[k] == PacketRecords(pidBase + k, linkType, fs[k])
      && PacketResult(linkType, PacketBytes(Frames(fs), refs[k])) == PacketResult(linkType, fs[k])
  {
    hide PacketRecords, PacketResult, Frames, PacketBytes, WindowStream, RefTo;
    forall k | 0 <= k < |fs|
      ensures WindowStream(pidBase, Frames(fs), refs)[k] == PacketRecords(pidBase + k, linkType, fs[k])
      ensures PacketBytes(Frames(fs), refs[k]) == fs[k]
    {
      FrameIsTaken(linkType, fs, k);
    }
  }

  lemma FrameIsTaken(linkType: nat, fs: seq<seq<byte>>, k: nat)
    requires k < |fs|
    ensures var r := RefTo(linkType, fs, k); r.linkType == linkType && PacketBytes(Frames(fs), r) == fs[k]
  {
    hide Frames;
    FrameIsThere(fs, k);
  }
}
