/** The two decoders' tables: the struct columns of the hand-written walk against the spec columns of the graph
    walk. */
module Interop {
  import opened Wire
  import opened WireSpec
  import opened Dag
  import opened DagDecode
  import opened PacketWalk
  import opened FrameBytes
  import opened WalksAgree
  import opened PacketTables
  import opened StructColumns
  import opened Tables

  const SHARED_TABLES: nat := 6

  lemma SharedIds(n: Node)
    ensures IsShared(n) <==> NodeId(n) < SHARED_TABLES
  {
  }

  /** Records of the six tables both decoders fill. */
  function SharedOnly(es: seq<Emit<Value>>): seq<Emit<Value>> {
    if es == [] then [] else (if es[0].tab < SHARED_TABLES then [es[0]] else []) + SharedOnly(es[1..])
  }

  /** Dropping other tables' records leaves a shared table's columns as they are. */
  lemma {:induction false} SharedColumns(es: seq<Emit<Value>>, t: nat, c: nat)
    requires t < SHARED_TABLES && forall i :: 0 <= i < |es| && es[i].tab == t ==> c < |es[i].row|
    ensures forall i :: 0 <= i < |SharedOnly(es)| && SharedOnly(es)[i].tab == t ==> c < |SharedOnly(es)[i].row|
    ensures Column(SharedOnly(es), t, c) == Column(es, t, c)
  {
    hide Column;
    if es != [] {
      SharedColumns(es[1..], t, c);
      var head := [es[0]];
      assert es == head + es[1..];
      ColumnConcat(head, es[1..], t, c);
      if es[0].tab < SHARED_TABLES {
        ColumnConcat(head, SharedOnly(es[1..]), t, c);
      } else {
        NotItsColumn(es[0], t, c);
        assert SharedOnly(es) == SharedOnly(es[1..]);
        assert [] + Column(es[1..], t, c) == Column(es[1..], t, c);
      }
    }
  }

  lemma NotItsColumn(e: Emit<Value>, t: nat, c: nat)
    requires e.tab != t
    ensures Column([e], t, c) == []
  {
    assert [e][..0] == [];
  }

  /** A record of the hand-written decoder, its copied header spread over the struct's columns. */
  ghost function StructRecord(pid: nat, p: seq<byte>, v: Visit): Emit<Value>
    requires PduVisit(p, v)
  {
    StructRowIsNodeRow(pid, p, v);
    var e := PduRecord(pid, p, v);
    Emit(e.tab, [e.row[0]] + StructRow(HeaderStruct(v.node), e.row[1].bytes))
  }

  ghost function StructRecords(pid: nat, p: seq<byte>, vs: seq<Visit>): (es: seq<Emit<Value>>)
    requires PduVisits(p, vs)
    ensures |es| == |vs|
  {
    seq(|vs|, i requires 0 <= i < |vs| => StructRecord(pid, p, vs[i]))
  }

  ghost function PacketColumns(pid: nat, p: seq<byte>): seq<Emit<Value>> {
    PacketVisitsArePdus(LINK_TYPE_ETHERNET, p);
    StructRecords(pid, p, PacketVisits(LINK_TYPE_ETHERNET, p))
  }

  lemma StructRecordIsNodeRecord(pid: nat, p: seq<byte>, v: Visit)
    requires PduVisit(p, v)
    ensures StructRecord(pid, p, v) == NodeRecord(pid, p, v)
  {
    hide NodeRow, StructRow, HeaderStruct, HeaderLen;
    StructRowIsNodeRow(pid, p, v);
  }

  ghost predicate InPacket(p: seq<byte>, vs: seq<Visit>) {
    forall i :: 0 <= i < |vs| ==> vs[i].off + HeaderLen(vs[i].node) <= |p|
  }

  lemma {:induction false} RestrictedArePdus(p: seq<byte>, vs: seq<Visit>)
    requires InPacket(p, vs)
    ensures PduVisits(p, Restrict(vs))
  {
    hide HeaderLen, IsShared;
    if vs != [] {
      RestrictedArePdus(p, vs[1..]);
    }
  }

  lemma RecordsStep(pid: nat, p: seq<byte>, vs: seq<Visit>)
    requires vs != [] && InPacket(p, vs)
    ensures InPacket(p, vs[1..]) && RecordsOf(pid, p, vs) == [NodeRecord(pid, p, vs[0])] + RecordsOf(pid, p, vs[1..])
  {
    hide HeaderLen, NodeRecord;
  }

  lemma StructRecordsStep(pid: nat, p: seq<byte>, v: Visit, rest: seq<Visit>)
    requires PduVisit(p, v) && PduVisits(p, rest)
    ensures PduVisits(p, [v] + rest)
    ensures StructRecords(pid, p, [v] + rest) == [NodeRecord(pid, p, v)] + StructRecords(pid, p, rest)
  {
    hide PduVisit, StructRecord, NodeRecord;
    StructRecordIsNodeRecord(pid, p, v);
  }

  lemma {:induction false} RestrictedRecords(pid: nat, p: seq<byte>, vs: seq<Visit>)
    requires InPacket(p, vs)
    ensures PduVisits(p, Restrict(vs))
    ensures SharedOnly(RecordsOf(pid, p, vs)) == StructRecords(pid, p, Restrict(vs))
  {
    hide HeaderLen, StructRecord, NodeRow, StructRecords, RecordsOf, IsShared, PduVisits;
    RestrictedArePdus(p, vs);
    if vs == [] {
      NoRecords(pid, p);
    } else {
      RecordsStep(pid, p, vs);
      RestrictedRecords(pid, p, vs[1..]);
      SharedIds(vs[0].node);
      assert RecordsOf(pid, p, vs)[1..] == RecordsOf(pid, p, vs[1..]);
      if IsShared(vs[0].node) {
        StructRecordsStep(pid, p, vs[0], Restrict(vs[1..]));
        assert Restrict(vs) == [vs[0]] + Restrict(vs[1..]);
      } else {
        assert Restrict(vs) == Restrict(vs[1..]);
        assert SharedOnly(RecordsOf(pid, p, vs)) == SharedOnly(RecordsOf(pid, p, vs[1..]));
      }
    }
  }

  lemma NoRecords(pid: nat, p: seq<byte>)
    ensures RecordsOf(pid, p, []) == [] && PduVisits(p, []) && StructRecords(pid, p, []) == []
  {
  }

  lemma PacketColumnsFit(pid: nat, p: seq<byte>)
    ensures FitTables(PacketColumns(pid, p), DagWidths())
  {
    hide StructRecord, PacketVisits, NodeRow, DagWidths;
    var vs := PacketVisits(LINK_TYPE_ETHERNET, p);
    PacketVisitsArePdus(LINK_TYPE_ETHERNET, p);
    forall i | 0 <= i < |vs| ensures FitsTable(PacketColumns(pid, p)[i], DagWidths()) {
      assert PduVisit(p, vs[i]);
      StructRecordIsNodeRecord(pid, p, vs[i]);
    }
  }

  /** The six shared tables gain the same cells from a packet, column by column. */
  ghost predicate SameTables(pid: nat, p: seq<byte>) {
    PacketColumnsFit(pid, p);
    forall t: nat, c: nat :: t < SHARED_TABLES && c < DagWidths()[t] ==> SameColumn(pid, p, t, c)
  }

  ghost predicate SameColumn(pid: nat, p: seq<byte>, t: nat, c: nat)
    requires t < SHARED_TABLES && c < DagWidths()[t] && FitTables(PacketColumns(pid, p), DagWidths())
  {
    Column(DagRecords(pid, p, Eth), t, c) == Column(PacketColumns(pid, p), t, c)
  }

  /** Records of six tables are as many as the rows of the six tables. */
  lemma {:induction false} SixCounts(es: seq<Emit<Value>>)
    requires forall i :: 0 <= i < |es| ==> es[i].tab < SHARED_TABLES
    ensures |es| == Count(es, 0) + Count(es, 1) + Count(es, 2) + Count(es, 3) + Count(es, 4) + Count(es, 5)
  {
    if es != [] {
      SixCounts(es[..|es| - 1]);
    }
  }

  lemma {:induction false} SharedOnlyIsShared(es: seq<Emit<Value>>)
    ensures forall i :: 0 <= i < |SharedOnly(es)| ==> SharedOnly(es)[i].tab < SHARED_TABLES
  {
    if es != [] {
      SharedOnlyIsShared(es[1..]);
    }
  }

  /** Equal columns have equally many rows, so both walks visited equally many shared headers. */
  lemma SameTablesSameLength(pid: nat, p: seq<byte>)
    requires SameTables(pid, p)
    ensures |SharedOnly(DagRecords(pid, p, Eth))| == |PacketColumns(pid, p)|
  {
    hide Trace, PacketVisits, StructRecord, RecordsOf, SharedOnly, Column, Count;
    var dag, pkt := DagRecords(pid, p, Eth), PacketColumns(pid, p);
    PacketColumnsFit(pid, p);
    forall t: nat | t < SHARED_TABLES ensures Count(SharedOnly(dag), t) == Count(pkt, t) {
      SharedColumns(dag, t, 0);
      assert SameColumn(pid, p, t, 0);
    }
    SharedOnlyIsShared(dag);
    SixCounts(SharedOnly(dag));
    PacketColumnsAreShared(pid, p);
    SixCounts(pkt);
  }

  lemma PacketColumnsAreShared(pid: nat, p: seq<byte>)
    ensures forall i :: 0 <= i < |PacketColumns(pid, p)| ==> PacketColumns(pid, p)[i].tab < SHARED_TABLES
  {
    hide PacketVisits, StructRow, HeaderStruct;
    var vs := PacketVisits(LINK_TYPE_ETHERNET, p);
    PacketVisitsArePdus(LINK_TYPE_ETHERNET, p);
    forall i | 0 <= i < |vs| ensures PacketColumns(pid, p)[i].tab < SHARED_TABLES {
      assert PduVisit(p, vs[i]);
      SharedIds(vs[i].node);
    }
  }

  lemma SameRecordsSameTables(pid: nat, p: seq<byte>)
    requires SharedOnly(DagRecords(pid, p, Eth)) == PacketColumns(pid, p)
    ensures SameTables(pid, p)
  {
    hide Trace, PacketVisits, StructRecord, RecordsOf, SharedOnly, Column;
    PacketColumnsFit(pid, p);
    forall t: nat, c: nat | t < SHARED_TABLES && c < DagWidths()[t] ensures SameColumn(pid, p, t, c) {
      SharedColumns(DagRecords(pid, p, Eth), t, c);
    }
  }

  /** The two decoders fill the six tables with the same cells, column by column, exactly when the frame has at most
      32 headers and no L4 header behind an IPv6 extension header. */
  lemma TablesAgreeExactly(pid: nat, p: seq<byte>)
    ensures SameTables(pid, p) <==> HeaderCount(p) <= MAX_WALK_STEPS && !L4BehindExtension(p)
  {
    hide PacketVisits, Trace, L4BehindExtension, HeaderCount, StructRecord, NodeRow, Restrict, SameTables;
    var vs, ws := Visits(p, Eth), PacketVisits(LINK_TYPE_ETHERNET, p);
    RestrictedRecords(pid, p, vs);
    WalksAgreeExactly(p);
    PacketVisitsArePdus(LINK_TYPE_ETHERNET, p);
    if SameTables(pid, p) {
      SameTablesSameLength(pid, p);
      HeadersCount(p);
      RestrictLength(vs);
      PacketWalkIsAPrefixExactly(p);
      assert |Restrict(vs)| == |ws|;
    } else if Restrict(vs) == ws {
      SameRecordsSameTables(pid, p);
    }
  }
}
