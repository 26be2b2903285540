/** Field locations resolved at start-up, the reader that takes them at run time, and the catalog of every scalar
    field of every node. */
module DparFields {
  import opened Wire
  import opened Arith
  import opened WireSpec
  import opened Protocols
  import opened Dag
  import opened FieldTags

  datatype FieldRef = FieldRef(nodeId: nat, offset: nat, byteWidth: nat, bigEndian: bool, isBitfield: bool,
                               bitOffset: nat, bitWidth: nat)
  {
    /** Bits an operand may use. */
    function WidthInBits(): nat { if isBitfield then bitWidth else 8 * byteWidth }

    /** What field_to_ref produces: a word of up to 8 bytes, and bits inside it. */
    predicate Valid() {
      byteWidth <= 8 && (isBitfield ==> bitOffset + bitWidth <= 8 * byteWidth)
    }
  }

  /** Mask of the lowest n bits, all ones from 64 on. */
  function Masked(v: nat, n: nat): nat { if n >= 64 then v % TWO_TO_THE_64 else v % Pow2(n) }

  function ShiftedRight(v: nat, s: nat): nat {
    QuotientIsNat(v, Pow2(s));
    v / Pow2(s)
  }

  /** The value a field location reads at a header. */
  function ReadRuntime(p: seq<byte>, base: nat, f: FieldRef): nat
    requires f.Valid() && base + f.offset + f.byteWidth <= |p|
  {
    var v := WordAt(p, base + f.offset, f.byteWidth, f.bigEndian);
    if !f.isBitfield then v
    else Masked(ShiftedRight(v, BitShift(f.byteWidth, f.bitOffset, f.bitWidth, f.bigEndian)), f.bitWidth)
  }

  method ReadFieldRuntime(p: seq<byte>, base: nat, f: FieldRef) returns (v: nat)
    requires f.Valid() && base + f.offset + f.byteWidth <= |p|
    ensures v == ReadRuntime(p, base, f)
  {
    v := ReadScalarAt(p, base + f.offset, f.byteWidth, f.bigEndian);
    if !f.isBitfield {
      return;
    }
    var shift := f.bitOffset;
    if f.bigEndian {
      shift := f.byteWidth * 8 - f.bitWidth - f.bitOffset;
    }
    v := Masked(ShiftedRight(v, shift), f.bitWidth);
  }

  /** The location of a spec field; byte-array fields have none. Narrowing casts included. */
  function FieldToRef(nodeId: nat, f: Field): Option<FieldRef> {
    match f
    case Blob(_, _, _) => None
    case Bits(_, o, u, bo, bw, big) =>
      Some(FieldRef(nodeId % 0x1_0000, o % 0x1_0000, u % 256, big, true, bo % 256, bw % 256))
    case Scalar(_, o, w, _, big) => Some(FieldRef(nodeId % 0x1_0000, o % 0x1_0000, w % 256, big, false, 0, 0))
  }

  lemma RefIsValid(nodeId: nat, f: Field)
    requires f.Valid() && !f.Blob? && f.offset < 0x1_0000
    ensures var r := FieldToRef(nodeId, f).value; r.Valid() && r.offset + r.byteWidth == f.End()
  {
  }

  /** The compile-time reader and the run-time reader agree on every unsigned field, scalar or bits, in either
      byte order; on a signed field the run-time value is the raw word, so the two agree modulo the word size,
      and exactly when the sign bit is clear. */
  lemma ReadersAgree(nodeId: nat, f: Field, p: seq<byte>, base: nat)
    requires f.Valid() && !f.Blob? && f.offset < 0x1_0000 && base + f.End() <= |p|
    ensures var r := FieldToRef(nodeId, f).value;
      && r.Valid() && base + r.offset + r.byteWidth <= |p|
      && var v, n := ReadRuntime(p, base, r), ReadField(f, p, base).n;
         if f.Scalar? && f.signed then
           n == ToSigned(v, f.width) && (n == v || n == v - Pow2(8 * f.width)) &&
           (n == v <==> 2 * v < Pow2(8 * f.width))
         else n == v
  {
    hide WordAt, Pow2;
    RefIsValid(nodeId, f);
  }

  // ---- the catalog ------------------------------------------------------------------------------------

  datatype CatalogEntry = CatalogEntry(node: string, field: string, ref: FieldRef)

  const NODE_NAMES: seq<string> := [
    "eth", "vlan", "ipv4", "ipv6", "tcp", "udp", "gptp", "ptp_timestamp", "ptp_ts_port", "ptp_announce",
    "ptp_signaling", "ipv6_hbh", "ipv6_routing", "ipv6_fragment", "ipv6_destopt", "ipv6_ah", "someip"]

  /** Entries of the first fields of a node. */
  function NodeEntries(id: nat, fs: seq<Field>): seq<CatalogEntry>
    requires id < |NODE_NAMES|
  {
    if fs == [] then []
    else
      var last := fs[|fs| - 1];
      NodeEntries(id, fs[..|fs| - 1]) +
      match FieldToRef(id, last)
      case None => []
      case Some(r) => [CatalogEntry(NODE_NAMES[id], last.tag, r)]
  }

  /** Entries of the first n nodes. */
  function CatalogUpTo(n: nat): seq<CatalogEntry>
    requires n <= GRAPH_SIZE
  {
    if n == 0 then [] else CatalogUpTo(n - 1) + NodeEntries(n - 1, Flatten(NodeSpec(GRAPH[n - 1])))
  }

  function L2L3Catalog(): seq<CatalogEntry> { CatalogUpTo(GRAPH_SIZE) }

  method BuildCatalog() returns (cat: seq<CatalogEntry>)
    ensures cat == L2L3Catalog()
  {
    hide NodeSpec, Flatten, FieldToRef;
    cat := [];
    for id := 0 to GRAPH_SIZE
      invariant cat == CatalogUpTo(id)
    {
      var fs := Flatten(NodeSpec(GRAPH[id]));
      for j := 0 to |fs|
        invariant cat == CatalogUpTo(id) + NodeEntries(id, fs[..j])
      {
        assert fs[..j + 1][..j] == fs[..j];
        var ref := FieldToRef(id, fs[j]);
        if ref.Some? {
          cat := cat + [CatalogEntry(NODE_NAMES[id], fs[j].tag, ref.value)];
        }
      }
      assert fs[..|fs|] == fs;
    }
  }

  /** An entry names a scalar field of its node, and its location lies inside the node's header. */
  ghost predicate EntryOk(e: CatalogEntry) {
    && e.ref.nodeId < GRAPH_SIZE && e.node == NODE_NAMES[e.ref.nodeId]
    && e.ref.Valid() && e.ref.offset + e.ref.byteWidth <= HeaderLen(GRAPH[e.ref.nodeId])
    && exists f :: f in Flatten(NodeSpec(GRAPH[e.ref.nodeId])) && f.tag == e.field &&
                 FieldToRef(e.ref.nodeId, f) == Some(e.ref)
  }

  ghost predicate EntriesOk(es: seq<CatalogEntry>) {
    forall i :: 0 <= i < |es| ==> EntryOk(es[i])
  }

  lemma NewEntryOk(id: nat, f: Field)
    requires id < GRAPH_SIZE && f in Flatten(NodeSpec(GRAPH[id])) && !f.Blob?
    ensures EntryOk(CatalogEntry(NODE_NAMES[id], f.tag, FieldToRef(id, f).value))
  {
    hide NodeSpec, Flatten, HeaderLen, NODE_NAMES;
    SpecSizes(GRAPH[id]);
    HeaderIsSmall(GRAPH[id]);
    RefIsValid(id, f);
    var r := FieldToRef(id, f).value;
    assert r.nodeId == id && FieldToRef(r.nodeId, f) == Some(r);
  }

  lemma {:induction false} NodeEntriesOk(id: nat, n: nat)
    requires id < GRAPH_SIZE && n <= |Flatten(NodeSpec(GRAPH[id]))|
    ensures EntriesOk(NodeEntries(id, Flatten(NodeSpec(GRAPH[id]))[..n]))
  {
    hide NodeSpec, Flatten, HeaderLen, EntryOk;
    if n > 0 {
      NodeEntriesOk(id, n - 1);
      var fs := Flatten(NodeSpec(GRAPH[id]));
      assert fs[..n][..n - 1] == fs[..n - 1];
      if !fs[n - 1].Blob? {
        NewEntryOk(id, fs[n - 1]);
      }
    }
  }

  lemma HeaderIsSmall(n: Node)
    ensures HeaderLen(n) <= 40
  {
  }

  lemma {:induction false} CatalogOk(n: nat)
    requires n <= GRAPH_SIZE
    ensures EntriesOk(CatalogUpTo(n))
  {
    hide NodeSpec, Flatten, EntryOk;
    if n > 0 {
      CatalogOk(n - 1);
      var fs := Flatten(NodeSpec(GRAPH[n - 1]));
      NodeEntriesOk(n - 1, |fs|);
      assert fs[..|fs|] == fs;
    }
  }

  /** The entry of a scalar or bit field of a node. */
  function EntryOf(id: nat, f: Field): CatalogEntry
    requires id < |NODE_NAMES| && !f.Blob?
  {
    CatalogEntry(NODE_NAMES[id], f.tag, FieldToRef(id, f).value)
  }

  lemma {:induction false} NodeEntriesHold(id: nat, fs: seq<Field>, n: nat, j: nat)
    requires id < |NODE_NAMES| && j < n <= |fs| && !fs[j].Blob?
    ensures EntryOf(id, fs[j]) in NodeEntries(id, fs[..n])
    decreases n
  {
    hide NODE_NAMES, FieldToRef;
    assert fs[..n][..n - 1] == fs[..n - 1];
    if j < n - 1 {
      NodeEntriesHold(id, fs, n - 1, j);
    } else {
      SomeRef(id, fs[j]);
    }
  }

  lemma SomeRef(id: nat, f: Field)
    ensures FieldToRef(id, f).Some? <==> !f.Blob?
  {
  }

  lemma {:induction false} CatalogUpToHolds(n: nat, id: nat, j: nat)
    requires id < n <= GRAPH_SIZE
    requires var fs := Flatten(NodeSpec(GRAPH[id])); j < |fs| && !fs[j].Blob?
    ensures EntryOf(id, Flatten(NodeSpec(GRAPH[id]))[j]) in CatalogUpTo(n)
    decreases n
  {
    hide NodeSpec, Flatten, NODE_NAMES, FieldToRef, NodeEntries, EntryOf;
    NamesCount();
    if id < n - 1 {
      CatalogUpToHolds(n - 1, id, j);
    } else {
      var fs := Flatten(NodeSpec(GRAPH[id]));
      NodeEntriesHold(id, fs, |fs|, j);
      assert fs[..|fs|] == fs;
    }
  }

  /** Every scalar and bit field of every node has its entry. */
  lemma CatalogIsComplete(id: nat, j: nat)
    requires id < GRAPH_SIZE
    requires var fs := Flatten(NodeSpec(GRAPH[id])); j < |fs| && !fs[j].Blob?
    ensures EntryOf(id, Flatten(NodeSpec(GRAPH[id]))[j]) in L2L3Catalog()
  {
    hide NodeSpec, Flatten, NODE_NAMES, FieldToRef, CatalogUpTo;
    CatalogUpToHolds(GRAPH_SIZE, id, j);
  }

  /** No two nodes share a name. */
  lemma NamesAreDistinct()
    ensures forall i, j :: 0 <= i < j < GRAPH_SIZE ==> NODE_NAMES[i] != NODE_NAMES[j]
  {
    assert |NODE_NAMES[0]| == 3 && |NODE_NAMES[1]| == 4;
  }

  /** The same string up to its first NUL, as the C functions see it. */
  function CString(s: string): string {
    if s == "" || s[0] == '\0' then "" else [s[0]] + CString(s[1..])
  }

  lemma {:induction false} WithoutNul(s: string)
    requires '\0' !in s
    ensures CString(s) == s
  {
    if s != "" {
      WithoutNul(s[1..]);
    }
  }

  /** The first entry with the given node and field name. */
  function FindField(cat: seq<CatalogEntry>, node: string, field: string): (r: Option<CatalogEntry>)
    ensures r.Some? ==> r.value in cat && r.value.node == node && r.value.field == field
    ensures r.None? ==> forall e :: e in cat ==> e.node != node || e.field != field
  {
    if cat == [] then None
    else if cat[0].node == node && cat[0].field == field then Some(cat[0])
    else FindField(cat[1..], node, field)
  }

  function AnchorNodeId(cat: seq<CatalogEntry>, node: string): (r: Option<nat>)
    ensures r.Some? ==> exists e :: e in cat && e.node == node && e.ref.nodeId == r.value
    ensures r.None? ==> forall e :: e in cat ==> e.node != node
  {
    if cat == [] then None
    else if cat[0].node == node then Some(cat[0].ref.nodeId)
    else AnchorNodeId(cat[1..], node)
  }

  /** Some field, however deep, is not a byte array. */
  predicate HasScalar(spec: Spec)
    decreases spec
  {
    exists i :: 0 <= i < |spec| && ScalarElem(spec[i])
  }

  predicate ScalarElem(e: Elem)
    decreases e
  {
    match e
    case Leaf(f) => !f.Blob?
    case Embed(_, _, sub) => HasScalar(sub)
  }

  lemma {:induction false} ScalarIsFlattened(spec: Spec) returns (j: nat)
    requires HasScalar(spec)
    ensures j < |Flatten(spec)| && !Flatten(spec)[j].Blob?
    decreases spec
  {
    if ScalarElem(spec[0]) {
      match spec[0]
      case Leaf(f) => j := 0;
      case Embed(prefix, offset, sub) => j := ScalarIsFlattened(sub);
    } else {
      var i :| 0 <= i < |spec| && ScalarElem(spec[i]);
      assert spec[1..][i - 1] == spec[i];
      var k := ScalarIsFlattened(spec[1..]);
      j := |ExpandOne(spec[0])| + k;
    }
  }

  lemma SubRecordsHaveScalars()
    ensures HasScalar(TIMESTAMP_SPEC) && HasScalar(PORT_IDENTITY_SPEC)
  {
    assert ScalarElem(TIMESTAMP_SPEC[0]);
    assert ScalarElem(PORT_IDENTITY_SPEC[1]);
  }

  lemma NodesHaveScalars(n: Node)
    ensures HasScalar(NodeSpec(n))
  {
    SubRecordsHaveScalars();
    var s := NodeSpec(n);
    match n
    case Eth => assert ScalarElem(s[2]);
    case PtpTimestampBody => assert ScalarElem(s[0]);
    case PtpTsPortBody => assert ScalarElem(s[0]);
    case PtpSignalingBody => assert ScalarElem(s[0]);
    case PtpAnnounceBody => assert ScalarElem(s[1]);
    case _ => assert ScalarElem(s[0]);
  }

  /** A string is the name of a node in the catalog exactly when it resolves, and then to that node's own id. */
  lemma AnchorsResolve(node: string)
    ensures match AnchorNodeId(L2L3Catalog(), node)
            case None => node !in NODE_NAMES
            case Some(id) => id < GRAPH_SIZE && node == NODE_NAMES[id]
  {
    hide CatalogUpTo, NodeSpec, Flatten, FieldToRef, NODE_NAMES, HasScalar;
    CatalogOk(GRAPH_SIZE);
    var cat := L2L3Catalog();
    if AnchorNodeId(cat, node).Some? {
      var e :| e in cat && e.node == node && e.ref.nodeId == AnchorNodeId(cat, node).value;
      var i :| 0 <= i < |cat| && cat[i] == e;
      assert EntryOk(cat[i]);
    } else if node in NODE_NAMES {
      var id :| 0 <= id < |NODE_NAMES| && NODE_NAMES[id] == node;
      NamesCount();
      NodesHaveScalars(GRAPH[id]);
      var j := ScalarIsFlattened(NodeSpec(GRAPH[id]));
      CatalogIsComplete(id, j);
    }
  }

  lemma NamesCount()
    ensures |NODE_NAMES| == GRAPH_SIZE
  {
  }

  /** Every scalar and bit field is found by the names of its node and itself: what is found is its own node and its
      own location. */
  lemma EveryFieldIsFound(id: nat, j: nat)
    requires id < GRAPH_SIZE
    requires var fs := Flatten(NodeSpec(GRAPH[id])); j < |fs| && !fs[j].Blob?
    ensures var f := Flatten(NodeSpec(GRAPH[id]))[j];
      FindField(L2L3Catalog(), NODE_NAMES[id], f.tag) == Some(EntryOf(id, f))
  {
    hide NodeSpec, Flatten, FieldToRef, CatalogUpTo, EntryOk, NODE_NAMES;
    NamesCount();
    CatalogIsComplete(id, j);
    CatalogOk(GRAPH_SIZE);
    var cat, f := L2L3Catalog(), Flatten(NodeSpec(GRAPH[id]))[j];
    assert EntryOf(id, f).node == NODE_NAMES[id] && EntryOf(id, f).field == f.tag;
    var e := FindField(cat, NODE_NAMES[id], f.tag).value;
    var i :| 0 <= i < |cat| && cat[i] == e;
    assert EntryOk(cat[i]);
    OneNodePerName(e, id);
    OneEntryPerTag(e, id, j);
  }

  lemma OneEntryPerTag(e: CatalogEntry, id: nat, j: nat)
    requires EntryOk(e) && id < GRAPH_SIZE && e.ref.nodeId == id
    requires var fs := Flatten(NodeSpec(GRAPH[id])); j < |fs| && !fs[j].Blob? && e.field == fs[j].tag
    ensures e == EntryOf(id, Flatten(NodeSpec(GRAPH[id]))[j])
  {
    hide NodeSpec, Flatten, FieldToRef, HeaderLen, NODE_NAMES;
    var fs := Flatten(NodeSpec(GRAPH[id]));
    NodeTagsAreDistinct(GRAPH[id]);
    var f :| f in fs && f.tag == e.field && FieldToRef(id, f) == Some(e.ref);
    var k :| 0 <= k < |fs| && fs[k] == f;
    assert k == j;
  }

  lemma OneNodePerName(e: CatalogEntry, id: nat)
    requires EntryOk(e) && id < GRAPH_SIZE && e.node == NODE_NAMES[id]
    ensures e.ref.nodeId == id
  {
    hide NODE_NAMES, NodeSpec, Flatten;
    NamesAreDistinct();
  }
}
