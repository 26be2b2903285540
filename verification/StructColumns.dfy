/** Packed structs overlaid on packet bytes: the second, independent field reader, and its agreement with the
    explicit-offset specs. */
module StructColumns {
  import opened Wire
  import opened Arith
  import opened WireSpec
  import opened Protocols
  import opened Dag
  import opened DagDecode
  import opened WalksAgree
  import opened PacketTables
  import opened Tables

  /** A named run of bits of a word. */
  datatype Part = Part(tag: string, bits: nat)

  /** A member of a struct without padding: an unsigned word, a word split into bit-fields, or raw bytes. */
  datatype Member =
    | Plain(tag: string, width: nat, big: bool)
    | Packed(width: nat, big: bool, parts: seq<Part>)
    | Octets(tag: string, count: nat)
  {
    function Size(): nat { if Octets? then count else width }

    /** The widths of a split word sum to the word; each is narrower than the mask's 64 bits. */
    ghost predicate Valid() {
      && (!Octets? ==> width in {1, 2, 4, 8})
      && (Packed? ==> TotalBits(parts) == 8 * width && forall j :: 0 <= j < |parts| ==> 0 < parts[j].bits < 64)
    }
  }

  function TotalBits(parts: seq<Part>): nat {
    if parts == [] then 0 else TotalBits(parts[..|parts| - 1]) + parts[|parts| - 1].bits
  }

  /** Bits of the first j parts. */
  function BitsBefore(parts: seq<Part>, j: nat): nat
    requires j <= |parts|
  {
    TotalBits(parts[..j])
  }

  lemma {:induction false} BitsBeforeGrows(parts: seq<Part>, j: nat, k: nat)
    requires j <= k <= |parts|
    ensures BitsBefore(parts, j) <= BitsBefore(parts, k)
    ensures j < k ==> BitsBefore(parts, j) + parts[j].bits <= BitsBefore(parts, k)
    decreases k - j
  {
    if j < k {
      BitsBeforeGrows(parts, j, k - 1);
      assert parts[..k][..k - 1] == parts[..k - 1];
    }
  }

  /** The running sum from the most significant bit down gives the shift that the spec reader computes from the
      bit offset. */
  method ShiftAt(width: nat, parts: seq<Part>, j: nat) returns (shift: nat)
    requires j < |parts| && TotalBits(parts) == 8 * width
    ensures BitsBefore(parts, j) + parts[j].bits <= 8 * width
    ensures shift == BitShift(width, BitsBefore(parts, j), parts[j].bits, true)
  {
    PartFits(width, parts, j);
    var acc := 0;
    for i := 0 to j + 1
      invariant acc == BitsBefore(parts, i)
    {
      assert parts[..i + 1][..i] == parts[..i];
      acc := acc + parts[i].bits;
    }
    assert parts[..j + 1][..j] == parts[..j];
    shift := 8 * width - acc;
  }

  lemma PartFits(width: nat, parts: seq<Part>, j: nat)
    requires j < |parts| && TotalBits(parts) == 8 * width
    ensures BitsBefore(parts, j) + parts[j].bits <= 8 * width
  {
    BitsBeforeGrows(parts, j, |parts|);
    assert parts[..|parts|] == parts;
  }

  /** Column j of a split word. */
  function PartValue(word: nat, width: nat, parts: seq<Part>, j: nat): nat
    requires j < |parts| && TotalBits(parts) == 8 * width
  {
    PartFits(width, parts, j);
    word / Pow2(BitShift(width, BitsBefore(parts, j), parts[j].bits, true)) % Pow2(parts[j].bits)
  }

  // ---- rows of a struct -------------------------------------------------------------------------------

  function StructSize(ms: seq<Member>): nat { if ms == [] then 0 else ms[0].Size() + StructSize(ms[1..]) }

  ghost predicate ValidStruct(ms: seq<Member>) { forall i :: 0 <= i < |ms| ==> ms[i].Valid() }

  ghost function MemberColumns(m: Member, bytes: seq<byte>): seq<Value>
    requires m.Valid() && |bytes| == m.Size()
  {
    match m
    case Plain(_, _, big) => [Num(Word(bytes, big))]
    case Packed(w, big, parts) =>
      seq(|parts|, j requires 0 <= j < |parts| => Num(PartValue(Word(bytes, big), w, parts, j)))
    case Octets(_, _) => [Raw(bytes)]
  }

  /** The columns of a struct copied from its bytes, member by member. */
  ghost function StructRow(ms: seq<Member>, bytes: seq<byte>): seq<Value>
    requires ValidStruct(ms) && |bytes| == StructSize(ms)
  {
    if ms == [] then []
    else
      var n := ms[0].Size();
      MemberColumns(ms[0], bytes[..n]) + StructRow(ms[1..], bytes[n..])
  }

  /** Where the members lie, as fields of a spec. Inside a little-endian word the spec counts bits from the
      other end. */
  ghost function MemberFields(m: Member, off: nat): seq<Field>
    requires m.Valid()
  {
    match m
    case Plain(t, w, big) => [Scalar(t, off, w, false, big)]
    case Packed(w, big, parts) =>
      seq(|parts|, j requires 0 <= j < |parts| =>
        PartFits(w, parts, j);
        var o := BitsBefore(parts, j);
        Bits(parts[j].tag, off, w, if big then o else 8 * w - o - parts[j].bits, parts[j].bits, big))
    case Octets(t, n) => [Blob(t, off, n)]
  }

  ghost function StructFields(ms: seq<Member>, off: nat): seq<Field>
    requires ValidStruct(ms)
  {
    if ms == [] then [] else MemberFields(ms[0], off) + StructFields(ms[1..], off + ms[0].Size())
  }

  /** Every field's value, in order. */
  ghost predicate ReadsAs(fs: seq<Field>, p: seq<byte>, base: nat, row: seq<Value>) {
    && |row| == |fs|
    && forall i :: 0 <= i < |fs| ==>
         fs[i].Valid() && base + fs[i].End() <= |p| && row[i] == ReadField(fs[i], p, base)
  }

  lemma MemberReadsAsFields(m: Member, p: seq<byte>, base: nat, off: nat)
    requires m.Valid() && base + off + m.Size() <= |p|
    ensures ReadsAs(MemberFields(m, off), p, base, MemberColumns(m, p[base + off..base + off + m.Size()]))
  {
    hide Word, TotalBits;
    if m.Packed? {
      forall j | 0 <= j < |m.parts|
        ensures BitsBefore(m.parts, j) + m.parts[j].bits <= 8 * m.width
      {
        PartFits(m.width, m.parts, j);
      }
    }
  }

  /** For any struct the columns of its copied bytes are the fields of its spec, read in place: in either byte
      order, wherever the struct lies. */
  lemma {:induction false} StructReadsAsSpec(ms: seq<Member>, p: seq<byte>, base: nat, off: nat)
    requires ValidStruct(ms) && base + off + StructSize(ms) <= |p|
    ensures ReadsAs(StructFields(ms, off), p, base, StructRow(ms, p[base + off..base + off + StructSize(ms)]))
  {
    hide MemberFields, MemberColumns, ReadField;
    if ms != [] {
      var n, lo, hi := ms[0].Size(), base + off, base + off + StructSize(ms);
      MemberReadsAsFields(ms[0], p, base, off);
      StructReadsAsSpec(ms[1..], p, base, off + n);
      SliceOfSlice(p, lo, hi, 0, n);
      assert p[lo..hi][..n] == p[lo..lo + n] && p[lo..hi][n..] == p[lo + n..hi];
    }
  }

  // ---- splitting and recombining a word ---------------------------------------------------------------

  /** The word with the given part values, the first part in the most significant bits. */
  function Combined(parts: seq<Part>, vs: seq<nat>, n: nat): nat
    requires n <= |parts| == |vs|
  {
    if n == 0 then 0 else Combined(parts, vs, n - 1) * Pow2(parts[n - 1].bits) + vs[n - 1]
  }

  function Split(word: nat, width: nat, parts: seq<Part>): seq<nat>
    requires TotalBits(parts) == 8 * width
  {
    seq(|parts|, j requires 0 <= j < |parts| => PartValue(word, width, parts, j))
  }

  lemma BitsBeforeStep(parts: seq<Part>, n: nat)
    requires n < |parts|
    ensures BitsBefore(parts, n + 1) == BitsBefore(parts, n) + parts[n].bits
  {
    assert parts[..n + 1][..n] == parts[..n];
  }

  lemma AllBits(parts: seq<Part>)
    ensures BitsBefore(parts, 0) == 0 && BitsBefore(parts, |parts|) == TotalBits(parts)
  {
    assert parts[..|parts|] == parts;
  }

  /** Sub-fields whose widths sum to the word recombine to exactly that word. */
  lemma PartsRecombine(word: nat, width: nat, parts: seq<Part>)
    requires TotalBits(parts) == 8 * width && word < Pow2(8 * width)
    ensures Combined(parts, Split(word, width, parts), |parts|) == word
  {
    hide TotalBits, Pow2;
    AllBits(parts);
    HighPartsRecombine(word, width, parts, |parts|);
    OnePower();
  }

  lemma OnePower()
    ensures Pow2(0) == 1
  {
  }

  lemma RecombineStep(word: nat, s: nat, b: nat)
    ensures word / Pow2(s + b) * Pow2(b) + word / Pow2(s) % Pow2(b) == word / Pow2(s)
  {
    hide Pow2;
    Pow2Adds(s, b);
    DivideTwice(word, Pow2(s), Pow2(b));
  }

  lemma {:induction false} HighPartsRecombine(word: nat, width: nat, parts: seq<Part>, n: nat)
    requires TotalBits(parts) == 8 * width && word < Pow2(8 * width) && n <= |parts|
    ensures BitsBefore(parts, n) <= 8 * width
    ensures Combined(parts, Split(word, width, parts), n) == word / Pow2(8 * width - BitsBefore(parts, n))
  {
    hide TotalBits, Pow2, BitsBefore;
    AllBits(parts);
    BitsBeforeGrows(parts, n, |parts|);
    if n == 0 {
      QuotientIs(word, Pow2(8 * width), 0, word);
    } else {
      HighPartsRecombine(word, width, parts, n - 1);
      BitsBeforeStep(parts, n - 1);
      RecombineStep(word, 8 * width - BitsBefore(parts, n), parts[n - 1].bits);
    }
  }

  /** Each value fits its part. */
  ghost predicate FitParts(parts: seq<Part>, vs: seq<nat>) {
    |vs| == |parts| && forall j :: 0 <= j < |parts| ==> vs[j] < Pow2(parts[j].bits)
  }

  lemma CombinedIsAWord(width: nat, parts: seq<Part>, vs: seq<nat>)
    requires TotalBits(parts) == 8 * width && FitParts(parts, vs)
    ensures Combined(parts, vs, |parts|) < Pow2(8 * width)
  {
    hide TotalBits, Pow2, Combined;
    AllBits(parts);
    CombinedFits(parts, vs, |parts|);
  }

  /** And any values that fit their parts are what splitting their combination gives. */
  lemma PartsSplit(width: nat, parts: seq<Part>, vs: seq<nat>)
    requires TotalBits(parts) == 8 * width && FitParts(parts, vs)
    ensures Split(Combined(parts, vs, |parts|), width, parts) == vs
  {
    hide TotalBits, FitParts, Combined, PartValue;
    SameCount(parts, vs);
    var word := Combined(parts, vs, |parts|);
    forall j | 0 <= j < |parts| ensures PartValue(word, width, parts, j) == vs[j] {
      PartSplits(width, parts, vs, j);
    }
  }

  lemma SameCount(parts: seq<Part>, vs: seq<nat>)
    requires FitParts(parts, vs)
    ensures |vs| == |parts|
  {
  }

  lemma PartSplits(width: nat, parts: seq<Part>, vs: seq<nat>, j: nat)
    requires TotalBits(parts) == 8 * width && FitParts(parts, vs) && j < |parts|
    ensures |vs| == |parts| && PartValue(Combined(parts, vs, |parts|), width, parts, j) == vs[j]
  {
    hide TotalBits, Pow2, Combined, BitsBefore;
    CombinedShifts(width, parts, vs, j + 1);
    BitsBeforeStep(parts, j);
    CombinedStep(parts, vs, j);
    PartFits(width, parts, j);
    assert BitShift(width, BitsBefore(parts, j), parts[j].bits, true) == 8 * width - BitsBefore(parts, j + 1);
  }

  lemma CombinedStep(parts: seq<Part>, vs: seq<nat>, j: nat)
    requires j < |parts| == |vs| && vs[j] < Pow2(parts[j].bits)
    ensures var c := Combined(parts, vs, j + 1);
      c / Pow2(parts[j].bits) == Combined(parts, vs, j) && c % Pow2(parts[j].bits) == vs[j]
  {
    hide Pow2;
    QuotientIs(Combined(parts, vs, j + 1), Pow2(parts[j].bits), Combined(parts, vs, j), vs[j]);
  }

  lemma {:induction false} CombinedFits(parts: seq<Part>, vs: seq<nat>, n: nat)
    requires n <= |parts| && FitParts(parts, vs)
    ensures Combined(parts, vs, n) < Pow2(BitsBefore(parts, n))
  {
    hide TotalBits, BitsBefore;
    if n == 0 {
      OnePower();
    } else {
      hide Pow2;
      CombinedFits(parts, vs, n - 1);
      BitsBeforeStep(parts, n - 1);
      var b, room := parts[n - 1].bits, BitsBefore(parts, n - 1);
      Pow2Adds(room, b);
      FitsStep(Combined(parts, vs, n - 1), Pow2(room), Pow2(b), vs[n - 1]);
    }
  }

  /** Shifting the low parts out leaves the combination of the others. */
  lemma {:induction false} CombinedShifts(width: nat, parts: seq<Part>, vs: seq<nat>, n: nat)
    requires TotalBits(parts) == 8 * width && n <= |parts| && FitParts(parts, vs)
    ensures BitsBefore(parts, n) <= 8 * width
    ensures Combined(parts, vs, |parts|) / Pow2(8 * width - BitsBefore(parts, n)) == Combined(parts, vs, n)
    decreases |parts| - n
  {
    hide TotalBits, Pow2, BitsBefore, Combined;
    AllBits(parts);
    if n == |parts| {
      OnePower();
    } else {
      CombinedShifts(width, parts, vs, n + 1);
      BitsBeforeStep(parts, n);
      var b, s := parts[n].bits, 8 * width - BitsBefore(parts, n + 1);
      Pow2Adds(s, b);
      DivideTwice(Combined(parts, vs, |parts|), Pow2(s), Pow2(b));
      CombinedStep(parts, vs, n);
    }
  }

  // ---- the six headers --------------------------------------------------------------------------------

  function Be16(tag: string): Member { Plain(tag, 2, true) }

  const ETHERNET_STRUCT: seq<Member> := [Octets("dst", 6), Octets("src", 6), Be16("ethertype")]

  const VLAN_STRUCT: seq<Member> := [
    Packed(2, true, [Part("pcp", 3), Part("dei", 1), Part("vid", 12)]), Be16("inner_ethertype")]

  const IPV4_STRUCT: seq<Member> := [
    Packed(1, true, [Part("version", 4), Part("ihl", 4)]), Packed(1, true, [Part("dscp", 6), Part("ecn", 2)]),
    Be16("total_length"), Be16("identification"), Packed(2, true, [Part("flags", 3), Part("frag_offset", 13)]),
    Plain("ttl", 1, true), Plain("protocol", 1, true), Be16("checksum"), Octets("src", 4), Octets("dst", 4)]

  const IPV6_STRUCT: seq<Member> := [
    Packed(4, true, [Part("version", 4), Part("traffic_class", 8), Part("flow_label", 20)]),
    Be16("payload_length"), Plain("next_header", 1, true), Plain("hop_limit", 1, true), Octets("src", 16),
    Octets("dst", 16)]

  const TCP_STRUCT: seq<Member> := [
    Be16("src_port"), Be16("dst_port"), Plain("seq", 4, true), Plain("ack", 4, true),
    Packed(2, true, [Part("data_offset", 4), Part("reserved", 3), Part("flags", 9)]), Be16("window"),
    Be16("checksum"), Be16("urgent_ptr")]

  const UDP_STRUCT: seq<Member> := [Be16("src_port"), Be16("dst_port"), Be16("length"), Be16("checksum")]

  function HeaderStruct(n: Node): seq<Member>
    requires IsShared(n)
  {
    match n
    case Eth => ETHERNET_STRUCT
    case Vlan => VLAN_STRUCT
    case Ipv4 => IPV4_STRUCT
    case Ipv6 => IPV6_STRUCT
    case Tcp => TCP_STRUCT
    case Udp => UDP_STRUCT
  }

  /** A valid member at bytes lo to hi is the fields from up to next of the list. */
  ghost predicate Places(m: Member, lo: nat, hi: nat, fs: seq<Field>, from: nat, next: nat) {
    m.Valid() && hi == lo + m.Size() && from <= next <= |fs| && MemberFields(m, lo) == fs[from..next]
  }

  /** Member i starts at byte at[i] and is fields from[i] up to from[i + 1] of the list. */
  ghost predicate Laid(ms: seq<Member>, at: seq<nat>, from: seq<nat>, fs: seq<Field>) {
    && |at| == |from| == |ms| + 1 && from[|ms|] == |fs|
    && forall i :: 0 <= i < |ms| ==> Places(ms[i], at[i], at[i + 1], fs, from[i], from[i + 1])
  }

  lemma {:induction false} LaidOut(ms: seq<Member>, at: seq<nat>, from: seq<nat>, fs: seq<Field>)
    requires Laid(ms, at, from, fs)
    ensures ValidStruct(ms) && at[0] + StructSize(ms) == at[|ms|]
    ensures from[0] <= |fs| && StructFields(ms, at[0]) == fs[from[0]..]
  {
    hide MemberFields;
    if ms != [] {
      assert Places(ms[0], at[0], at[1], fs, from[0], from[1]);
      LaidOut(ms[1..], at[1..], from[1..], fs);
      assert fs[from[0]..from[1]] + fs[from[1]..] == fs[from[0]..];
      assert forall i :: 1 <= i < |ms| ==> ms[i] == ms[1..][i - 1];
    }
  }

  lemma TwoParts(w: nat, off: nat, a: Part, b: Part)
    requires w in {1, 2, 4, 8} && 0 < a.bits < 64 && 0 < b.bits < 64 && a.bits + b.bits == 8 * w
    ensures var m := Packed(w, true, [a, b]);
      m.Valid() && MemberFields(m, off) == [
        Bits(a.tag, off, w, 0, a.bits, true), Bits(b.tag, off, w, a.bits, b.bits, true)]
  {
    var parts := [a, b];
    assert parts[..1] == [a] && parts[..0] == [] && [a][..0] == [];
    assert TotalBits([]) == 0 && TotalBits([a]) == a.bits && TotalBits(parts) == a.bits + b.bits;
  }

  lemma ThreeParts(w: nat, off: nat, a: Part, b: Part, c: Part)
    requires w in {1, 2, 4, 8} && 0 < a.bits < 64 && 0 < b.bits < 64 && 0 < c.bits < 64
    requires a.bits + b.bits + c.bits == 8 * w
    ensures var m := Packed(w, true, [a, b, c]);
      m.Valid() && MemberFields(m, off) == [
        Bits(a.tag, off, w, 0, a.bits, true), Bits(b.tag, off, w, a.bits, b.bits, true),
        Bits(c.tag, off, w, a.bits + b.bits, c.bits, true)]
  {
    var parts := [a, b, c];
    assert parts[..2] == [a, b] && parts[..1] == [a] && parts[..0] == [];
    assert [a, b][..1] == [a] && [a][..0] == [];
    assert TotalBits([]) == 0 && TotalBits([a]) == a.bits && TotalBits([a, b]) == a.bits + b.bits;
    assert TotalBits(parts) == a.bits + b.bits + c.bits;
  }

  lemma PlainPlaced(fs: seq<Field>, from: nat, t: string, w: nat, off: nat)
    requires from < |fs| && w in {1, 2, 4, 8} && fs[from] == Scalar(t, off, w, false, true)
    ensures Places(Plain(t, w, true), off, off + w, fs, from, from + 1)
  {
  }

  lemma OctetsPlaced(fs: seq<Field>, from: nat, t: string, n: nat, off: nat)
    requires from < |fs| && fs[from] == Blob(t, off, n)
    ensures Places(Octets(t, n), off, off + n, fs, from, from + 1)
  {
  }

  lemma TwoPlaced(fs: seq<Field>, from: nat, w: nat, off: nat, a: Part, b: Part)
    requires w in {1, 2, 4, 8} && 0 < a.bits < 64 && 0 < b.bits < 64 && a.bits + b.bits == 8 * w && from + 2 <= |fs|
    requires fs[from] == Bits(a.tag, off, w, 0, a.bits, true)
    requires fs[from + 1] == Bits(b.tag, off, w, a.bits, b.bits, true)
    ensures Places(Packed(w, true, [a, b]), off, off + w, fs, from, from + 2)
  {
    hide MemberFields;
    TwoParts(w, off, a, b);
  }

  lemma ThreePlaced(fs: seq<Field>, from: nat, w: nat, off: nat, a: Part, b: Part, c: Part)
    requires w in {1, 2, 4, 8} && 0 < a.bits < 64 && 0 < b.bits < 64 && 0 < c.bits < 64
    requires a.bits + b.bits + c.bits == 8 * w && from + 3 <= |fs|
    requires fs[from] == Bits(a.tag, off, w, 0, a.bits, true)
    requires fs[from + 1] == Bits(b.tag, off, w, a.bits, b.bits, true)
    requires fs[from + 2] == Bits(c.tag, off, w, a.bits + b.bits, c.bits, true)
    ensures Places(Packed(w, true, [a, b, c]), off, off + w, fs, from, from + 3)
  {
    hide MemberFields;
    ThreeParts(w, off, a, b, c);
  }

  lemma EthernetStruct()
    ensures Laid(ETHERNET_STRUCT, [0, 6, 12, 14], [0, 1, 2, 3], Flatten(ETHERNET_SPEC))
  {
    hide Flatten, Places;
    var fs := Flatten(ETHERNET_SPEC);
    LeavesFlatten(ETHERNET_SPEC);
    OctetsPlaced(fs, 0, "dst", 6, 0);
    OctetsPlaced(fs, 1, "src", 6, 6);
    PlainPlaced(fs, 2, "ethertype", 2, 12);
  }

  lemma VlanStruct()
    ensures Laid(VLAN_STRUCT, [0, 2, 4], [0, 3, 4], Flatten(VLAN_SPEC))
  {
    hide Flatten, Places;
    var fs := Flatten(VLAN_SPEC);
    LeavesFlatten(VLAN_SPEC);
    ThreePlaced(fs, 0, 2, 0, Part("pcp", 3), Part("dei", 1), Part("vid", 12));
    PlainPlaced(fs, 3, "inner_ethertype", 2, 2);
  }

  lemma Ipv4Struct()
    ensures Laid(IPV4_STRUCT, [0, 1, 2, 4, 6, 8, 9, 10, 12, 16, 20], [0, 2, 4, 5, 6, 8, 9, 10, 11, 12, 13],
                 Flatten(IPV4_SPEC))
  {
    hide Flatten, Places;
    var fs := Flatten(IPV4_SPEC);
    LeavesFlatten(IPV4_SPEC);
    TwoPlaced(fs, 0, 1, 0, Part("version", 4), Part("ihl", 4));
    TwoPlaced(fs, 2, 1, 1, Part("dscp", 6), Part("ecn", 2));
    PlainPlaced(fs, 4, "total_length", 2, 2);
    PlainPlaced(fs, 5, "identification", 2, 4);
    TwoPlaced(fs, 6, 2, 6, Part("flags", 3), Part("frag_offset", 13));
    PlainPlaced(fs, 8, "ttl", 1, 8);
    PlainPlaced(fs, 9, "protocol", 1, 9);
    PlainPlaced(fs, 10, "checksum", 2, 10);
    OctetsPlaced(fs, 11, "src", 4, 12);
    OctetsPlaced(fs, 12, "dst", 4, 16);
  }

  lemma Ipv6Struct()
    ensures Laid(IPV6_STRUCT, [0, 4, 6, 7, 8, 24, 40], [0, 3, 4, 5, 6, 7, 8], Flatten(IPV6_SPEC))
  {
    hide Flatten, Places;
    var fs := Flatten(IPV6_SPEC);
    LeavesFlatten(IPV6_SPEC);
    ThreePlaced(fs, 0, 4, 0, Part("version", 4), Part("traffic_class", 8), Part("flow_label", 20));
    PlainPlaced(fs, 3, "payload_length", 2, 4);
    PlainPlaced(fs, 4, "next_header", 1, 6);
    PlainPlaced(fs, 5, "hop_limit", 1, 7);
    OctetsPlaced(fs, 6, "src", 16, 8);
    OctetsPlaced(fs, 7, "dst", 16, 24);
  }

  lemma TcpStruct()
    ensures Laid(TCP_STRUCT, [0, 2, 4, 8, 12, 14, 16, 18, 20], [0, 1, 2, 3, 4, 7, 8, 9, 10], Flatten(TCP_SPEC))
  {
    hide Flatten, Places;
    var fs := Flatten(TCP_SPEC);
    LeavesFlatten(TCP_SPEC);
    PlainPlaced(fs, 0, "src_port", 2, 0);
    PlainPlaced(fs, 1, "dst_port", 2, 2);
    PlainPlaced(fs, 2, "seq", 4, 4);
    PlainPlaced(fs, 3, "ack", 4, 8);
    ThreePlaced(fs, 4, 2, 12, Part("data_offset", 4), Part("reserved", 3), Part("flags", 9));
    PlainPlaced(fs, 7, "window", 2, 14);
    PlainPlaced(fs, 8, "checksum", 2, 16);
    PlainPlaced(fs, 9, "urgent_ptr", 2, 18);
  }

  lemma UdpStruct()
    ensures Laid(UDP_STRUCT, [0, 2, 4, 6, 8], [0, 1, 2, 3, 4], Flatten(UDP_SPEC))
  {
    hide Flatten, Places;
    var fs := Flatten(UDP_SPEC);
    LeavesFlatten(UDP_SPEC);
    PlainPlaced(fs, 0, "src_port", 2, 0);
    PlainPlaced(fs, 1, "dst_port", 2, 2);
    PlainPlaced(fs, 2, "length", 2, 4);
    PlainPlaced(fs, 3, "checksum", 2, 6);
  }

  /** Some layout of the struct gives the fields of the spec. */
  lemma LayoutMatches(ms: seq<Member>, at: seq<nat>, from: seq<nat>, spec: Spec)
    requires Laid(ms, at, from, Flatten(spec)) && at[0] == from[0] == 0
    ensures ValidStruct(ms) && StructSize(ms) == at[|ms|] && StructFields(ms, 0) == Flatten(spec)
  {
    hide Flatten, Places, StructFields, StructSize, ValidStruct;
    LaidOut(ms, at, from, Flatten(spec));
    assert Flatten(spec)[0..] == Flatten(spec);
  }

  /** The struct of a header lays out exactly the fields of the graph node's spec. */
  lemma HeaderStructsMatchSpecs(n: Node)
    requires IsShared(n)
    ensures ValidStruct(HeaderStruct(n)) && StructSize(HeaderStruct(n)) == HeaderLen(n)
    ensures StructFields(HeaderStruct(n), 0) == Flatten(NodeSpec(n))
  {
    hide StructFields, StructSize, Flatten, Laid, ValidStruct;
    match n
    case Eth => EthernetStruct(); LayoutMatches(ETHERNET_STRUCT, [0, 6, 12, 14], [0, 1, 2, 3], ETHERNET_SPEC);
    case Vlan => VlanStruct(); LayoutMatches(VLAN_STRUCT, [0, 2, 4], [0, 3, 4], VLAN_SPEC);
    case Ipv4 =>
      Ipv4Struct();
      LayoutMatches(IPV4_STRUCT, [0, 1, 2, 4, 6, 8, 9, 10, 12, 16, 20], [0, 2, 4, 5, 6, 8, 9, 10, 11, 12, 13],
                    IPV4_SPEC);
    case Ipv6 => Ipv6Struct(); LayoutMatches(IPV6_STRUCT, [0, 4, 6, 7, 8, 24, 40], [0, 3, 4, 5, 6, 7, 8], IPV6_SPEC);
    case Tcp =>
      TcpStruct();
      LayoutMatches(TCP_STRUCT, [0, 2, 4, 8, 12, 14, 16, 18, 20], [0, 1, 2, 3, 4, 7, 8, 9, 10], TCP_SPEC);
    case Udp => UdpStruct(); LayoutMatches(UDP_STRUCT, [0, 2, 4, 6, 8], [0, 1, 2, 3, 4], UDP_SPEC);
  }

  /** So the columns of a header copied into its struct are the node's row, read in place by its spec. */
  lemma StructRowIsNodeRow(pid: nat, p: seq<byte>, v: Visit)
    requires PduVisit(p, v)
    ensures var ms := HeaderStruct(v.node);
      && ValidStruct(ms) && StructSize(ms) == HeaderLen(v.node)
      && [Num(pid)] + StructRow(ms, p[v.off..v.off + HeaderLen(v.node)]) == NodeRow(pid, p, v)
  {
    hide StructRow, StructFields, Flatten, NodeSpec, ReadField, HeaderLen, HeaderStruct;
    HeaderStructsMatchSpecs(v.node);
    StructReadsAsSpec(HeaderStruct(v.node), p, v.off, 0);
  }
}
