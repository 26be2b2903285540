/** Explicit-offset wire specs: fields, spec composition by embedding, and the field reader. */
module WireSpec {
  import opened Wire

  /** A scalar, a run of bits inside a storage unit, or a run of raw bytes; offsets and widths in bytes
      unless they say bits. */
  datatype Field =
    | Scalar(tag: string, offset: nat, width: nat, signed: bool, big: bool)
    | Bits(tag: string, offset: nat, unit: nat, bitOffset: nat, bitWidth: nat, big: bool)
    | Blob(tag: string, offset: nat, count: nat)
  {
    function End(): nat {
      match this
      case Scalar(_, _, _, _, _) => offset + width
      case Bits(_, _, _, _, _, _) => offset + unit
      case Blob(_, _, _) => offset + count
    }

    /** What the C++ types admit: a 1, 2, 4 or 8 byte word, and bits that lie inside the unit. A 64-bit wide
        bit-field is out: its mask would shift by the word width. */
    predicate Valid() {
      match this
      case Scalar(_, _, w, _, _) => w in {1, 2, 4, 8}
      case Bits(_, _, u, o, w, _) => u in {1, 2, 4, 8} && 0 < w < 64 && o + w <= 8 * u
      case Blob(_, _, _) => true
    }
  }

  datatype Value = Num(n: int) | Raw(bytes: seq<byte>)

  /** An element of a spec: a leaf field, or a sub-spec spliced in at an offset with a name prefix. */
  datatype Elem = Leaf(field: Field) | Embed(prefix: string, offset: nat, sub: seq<Elem>)

  type Spec = seq<Elem>

  // ---- flattening -------------------------------------------------------------------------------------

  function ShiftField(prefix: string, base: nat, f: Field): Field {
    match f
    case Scalar(t, o, w, s, b) => Scalar(prefix + t, base + o, w, s, b)
    case Bits(t, o, u, bo, bw, b) => Bits(prefix + t, base + o, u, bo, bw, b)
    case Blob(t, o, n) => Blob(prefix + t, base + o, n)
  }

  function ShiftAll(prefix: string, base: nat, fs: seq<Field>): (r: seq<Field>)
    ensures |r| == |fs|
    ensures forall i :: 0 <= i < |fs| ==> r[i] == ShiftField(prefix, base, fs[i])
  {
    seq(|fs|, i requires 0 <= i < |fs| => ShiftField(prefix, base, fs[i]))
  }

  function ExpandOne(e: Elem): seq<Field>
    decreases e
  {
    match e
    case Leaf(f) => [f]
    case Embed(prefix, offset, sub) => ShiftAll(prefix, offset, Flatten(sub))
  }

  function Flatten(spec: Spec): seq<Field>
    decreases spec
  {
    if spec == [] then [] else ExpandOne(spec[0]) + Flatten(spec[1..])
  }

  // ---- the reader -------------------------------------------------------------------------------------

  /** Two's complement of an n-byte word. */
  function ToSigned(v: nat, n: nat): int {
    if 2 * v >= Pow2(8 * n) then v - Pow2(8 * n) else v
  }

  /** MSB-first inside a big-endian unit, LSB-first inside a little-endian one. */
  function BitShift(unit: nat, bitOffset: nat, bitWidth: nat, big: bool): nat
    requires bitOffset + bitWidth <= 8 * unit
  {
    if big then 8 * unit - bitWidth - bitOffset else bitOffset
  }

  function ReadField(f: Field, p: seq<byte>, base: nat): Value
    requires f.Valid() && base + f.End() <= |p|
  {
    match f
    case Blob(_, o, n) => Raw(p[base + o..base + o + n])
    case Bits(_, o, u, bo, bw, big) =>
      Num(WordAt(p, base + o, u, big) / Pow2(BitShift(u, bo, bw, big)) % Pow2(bw))
    case Scalar(_, o, w, signed, big) =>
      var v := WordAt(p, base + o, w, big);
      Num(if signed then ToSigned(v, w) else v)
  }

  /** Bits of a little-endian unit count from the other end: the same field of the reversed bytes, read big-endian, has
      its offset from the unit's last bit. */
  lemma BitFieldsMirror(tag: string, u: nat, bo: nat, bw: nat, s: seq<byte>)
    requires Bits(tag, 0, u, bo, bw, false).Valid() && |s| == u
    ensures var f := Bits(tag, 0, u, 8 * u - bo - bw, bw, true);
      f.Valid() && ReadField(Bits(tag, 0, u, bo, bw, false), s, 0) == ReadField(f, Reverse(s), 0)
  {
    hide BigEndian, LittleEndian, Pow2, Reverse;
    ByteOrdersMirror(s);
    assert s[0..u] == s && Reverse(s)[0..u] == Reverse(s);
  }

  /** The value of an unsigned field, as the dispatch functions use it. */
  function ReadUnsigned(f: Field, p: seq<byte>, base: nat): nat
    requires f.Valid() && base + f.End() <= |p|
    requires f.Bits? || (f.Scalar? && !f.signed)
  {
    ReadField(f, p, base).n
  }

  /** The scalar reader's loop, on an unsigned 64-bit accumulator: shifting left by a byte each step never
      loses a bit for words of up to 8 bytes. */
  method ReadScalarAt(p: seq<byte>, off: nat, n: nat, big: bool) returns (v: nat)
    requires n <= 8 && off + n <= |p|
    ensures v == WordAt(p, off, n, big)
  {
    v := 0;
    if big {
      for i := 0 to n
        invariant v == BigEndian(p[off..off + i])
      {
        BigEndianBound(p[off..off + i]);
        ShiftFits(v, i);
        assert p[off..off + i + 1][..i] == p[off..off + i];
        v := v * 256 % TWO_TO_THE_64 + p[off + i];
      }
    } else {
      for i := n downto 0
        invariant v == LittleEndian(p[off + i..off + n])
      {
        WordBound(p[off + i + 1..off + n], false);
        ShiftFits(v, n - i - 1);
        assert p[off + i..off + n][1..] == p[off + i + 1..off + n];
        v := v * 256 % TWO_TO_THE_64 + p[off + i];
      }
    }
  }

  lemma ShiftFits(v: nat, i: nat)
    requires i < 8 && v < Pow2(8 * i)
    ensures v * 256 < TWO_TO_THE_64
  {
    Pow2Values();
    Pow2Adds(8 * i, 8);
    Pow2Adds(8 * i + 8, 8 * (7 - i));
    var k := Pow2(8 * (7 - i));
    assert Pow2(8 * i + 8) * k == TWO_TO_THE_64;
    assert Pow2(8 * i + 8) <= TWO_TO_THE_64 by {
      assert k >= 1;
      assert Pow2(8 * i + 8) * (k - 1) >= 0;
    }
  }

  /** The whole field reader, branch by branch. */
  method ReadFieldAt(f: Field, p: seq<byte>, base: nat) returns (v: Value)
    requires f.Valid() && base + f.End() <= |p|
    ensures v == ReadField(f, p, base)
  {
    match f {
      case Blob(_, o, n) =>
        var a := [];
        for i := 0 to n
          invariant a == p[base + o..base + o + i]
        {
          a := a + [p[base + o + i]];
        }
        v := Raw(a);
      case Bits(_, o, u, bo, bw, big) =>
        var unit := ReadScalarAt(p, base + o, u, big);
        var shift := bo;
        if big {
          shift := 8 * u - bw - bo;
        }
        v := Num(unit / Pow2(shift) % Pow2(bw));
      case Scalar(_, o, w, signed, big) =>
        var word := ReadScalarAt(p, base + o, w, big);
        v := Num(if signed then ToSigned(word, w) else word);
    }
  }

  // ---- size -------------------------------------------------------------------------------------------

  function MaxEnd(fs: seq<Field>): nat {
    if fs == [] then 0 else Max(MaxEnd(fs[..|fs| - 1]), fs[|fs| - 1].End())
  }

  function SpecSize(spec: Spec): nat {
    MaxEnd(Flatten(spec))
  }

  /** MaxEnd is the least bound on the ends: every field ends by it, and some field ends there. */
  lemma {:induction false} MaxEndIsMaximum(fs: seq<Field>)
    ensures forall i :: 0 <= i < |fs| ==> fs[i].End() <= MaxEnd(fs)
    ensures fs != [] ==> exists i :: 0 <= i < |fs| && fs[i].End() == MaxEnd(fs)
  {
    if fs != [] {
      var front := fs[..|fs| - 1];
      MaxEndIsMaximum(front);
      if front != [] && MaxEnd(fs) != fs[|fs| - 1].End() {
        var i :| 0 <= i < |front| && front[i].End() == MaxEnd(front);
        assert fs[i].End() == MaxEnd(fs);
      } else {
        assert fs[|fs| - 1].End() == MaxEnd(fs);
      }
    }
  }

  method ComputeSpecSize(spec: Spec) returns (mx: nat)
    ensures mx == SpecSize(spec)
  {
    var fs := Flatten(spec);
    mx := 0;
    for i := 0 to |fs|
      invariant mx == MaxEnd(fs[..i])
    {
      assert fs[..i + 1][..i] == fs[..i];
      mx := if fs[i].End() > mx then fs[i].End() else mx;
    }
    assert fs[..|fs|] == fs;
  }

  // ---- what flattening preserves ----------------------------------------------------------------------

  /** The unflattened meaning of a spec at a base offset: a sub-spec is read at the base plus its own
      offset, and its names carry its prefix. */
  ghost function Denote(spec: Spec, p: seq<byte>, base: nat): seq<(string, Option<Value>)>
    decreases spec
  {
    if spec == [] then [] else DenoteOne(spec[0], p, base) + Denote(spec[1..], p, base)
  }

  ghost function DenoteOne(e: Elem, p: seq<byte>, base: nat): seq<(string, Option<Value>)>
    decreases e
  {
    match e
    case Leaf(f) => [(f.tag, ReadChecked(f, p, base))]
    case Embed(prefix, offset, sub) => Prefixed(prefix, Denote(sub, p, base + offset))
  }

  ghost function ReadChecked(f: Field, p: seq<byte>, base: nat): Option<Value> {
    if f.Valid() && base + f.End() <= |p| then Some(ReadField(f, p, base)) else None
  }

  ghost function Prefixed(prefix: string, d: seq<(string, Option<Value>)>): (r: seq<(string, Option<Value>)>)
    ensures |r| == |d|
    ensures forall i :: 0 <= i < |d| ==> r[i] == (prefix + d[i].0, d[i].1)
  {
    seq(|d|, i requires 0 <= i < |d| => (prefix + d[i].0, d[i].1))
  }

  lemma ShiftedRead(prefix: string, offset: nat, f: Field, p: seq<byte>, base: nat)
    ensures ReadChecked(ShiftField(prefix, offset, f), p, base) == ReadChecked(f, p, base + offset)
    ensures ShiftField(prefix, offset, f).End() == offset + f.End()
    ensures ShiftField(prefix, offset, f).tag == prefix + f.tag
  {
    match f
    case Scalar(_, o, _, _, _) => assert base + (offset + o) == base + offset + o;
    case Bits(_, o, _, _, _, _) => assert base + (offset + o) == base + offset + o;
    case Blob(_, o, _) => assert base + (offset + o) == base + offset + o;
  }

  /** However deeply specs are nested, the flattened field list reads exactly what the nested spec means:
      the same names, the same values, in the same order. */
  lemma {:induction false} FlatteningPreservesMeaning(spec: Spec, p: seq<byte>, base: nat)
    ensures |Denote(spec, p, base)| == |Flatten(spec)|
    ensures forall i :: 0 <= i < |Flatten(spec)| ==>
              Denote(spec, p, base)[i] == (Flatten(spec)[i].tag, ReadChecked(Flatten(spec)[i], p, base))
    decreases spec
  {
    if spec != [] {
      FlatteningPreservesMeaning(spec[1..], p, base);
      match spec[0]
      case Leaf(f) =>
      case Embed(prefix, offset, sub) =>
        FlatteningPreservesMeaning(sub, p, base + offset);
        forall i | 0 <= i < |Flatten(sub)|
          ensures DenoteOne(spec[0], p, base)[i] ==
                  (ExpandOne(spec[0])[i].tag, ReadChecked(ExpandOne(spec[0])[i], p, base))
        {
          ShiftedRead(prefix, offset, Flatten(sub)[i], p, base);
        }
    }
  }

  function LeafCount(spec: Spec): nat
    decreases spec
  {
    if spec == [] then 0
    else (match spec[0] case Leaf(_) => 1 case Embed(_, _, sub) => LeafCount(sub)) + LeafCount(spec[1..])
  }

  /** Where an element of a nested spec ends; an embedded spec with no leaf takes no space. */
  function ElemEnd(e: Elem): nat
    decreases e
  {
    match e
    case Leaf(f) => f.End()
    case Embed(_, offset, sub) => if LeafCount(sub) == 0 then 0 else offset + Extent(sub)
  }

  /** The extent computed on the nested spec. */
  function Extent(spec: Spec): nat
    decreases spec
  {
    if spec == [] then 0 else Max(ElemEnd(spec[0]), Extent(spec[1..]))
  }

  lemma {:induction false} ExtentIs(spec: Spec, n: nat, w: nat)
    requires w < |spec| && ElemEnd(spec[w]) == n
    requires forall i :: 0 <= i < |spec| ==> ElemEnd(spec[i]) <= n
    ensures Extent(spec) == n
  {
    if w == 0 {
      ExtentAtMost(spec[1..], n);
    } else {
      ExtentIs(spec[1..], n, w - 1);
    }
  }

  lemma {:induction false} ExtentAtMost(spec: Spec, n: nat)
    requires forall i :: 0 <= i < |spec| ==> ElemEnd(spec[i]) <= n
    ensures Extent(spec) <= n
  {
    if spec != [] {
      ExtentAtMost(spec[1..], n);
    }
  }

  lemma {:induction false} MaxEndConcat(a: seq<Field>, b: seq<Field>)
    ensures MaxEnd(a + b) == Max(MaxEnd(a), MaxEnd(b))
  {
    if b == [] {
      assert a + b == a;
    } else {
      MaxEndConcat(a, b[..|b| - 1]);
      assert (a + b)[..|a + b| - 1] == a + b[..|b| - 1];
    }
  }

  lemma {:induction false} MaxEndShift(prefix: string, base: nat, fs: seq<Field>)
    ensures MaxEnd(ShiftAll(prefix, base, fs)) == if fs == [] then 0 else base + MaxEnd(fs)
  {
    if fs != [] {
      var front := fs[..|fs| - 1];
      MaxEndShift(prefix, base, front);
      var shifted := ShiftAll(prefix, base, fs);
      assert shifted[..|shifted| - 1] == ShiftAll(prefix, base, front);
      ShiftedRead(prefix, base, fs[|fs| - 1], [], 0);
    }
  }

  /** Field counts add up through embedding, and the size of the flattened list is the nested extent. */
  lemma {:induction false} FlatteningPreservesSize(spec: Spec)
    ensures |Flatten(spec)| == LeafCount(spec)
    ensures SpecSize(spec) == Extent(spec)
    decreases spec
  {
    if spec != [] {
      FlatteningPreservesSize(spec[1..]);
      MaxEndConcat(ExpandOne(spec[0]), Flatten(spec[1..]));
      match spec[0]
      case Leaf(f) =>
        assert [f][..0] == [];
      case Embed(prefix, offset, sub) =>
        FlatteningPreservesSize(sub);
        MaxEndShift(prefix, offset, Flatten(sub));
    }
  }

  /** Every leaf, at any depth, is a field the C++ types admit. */
  predicate ValidSpec(spec: Spec)
    decreases spec
  {
    forall i :: 0 <= i < |spec| ==>
      match spec[i] case Leaf(f) => f.Valid() case Embed(_, _, sub) => ValidSpec(sub)
  }

  lemma {:induction false} FlatteningPreservesValidity(spec: Spec)
    requires ValidSpec(spec)
    ensures forall i :: 0 <= i < |Flatten(spec)| ==> Flatten(spec)[i].Valid()
    decreases spec
  {
    if spec != [] {
      assert spec[0] in spec;
      FlatteningPreservesValidity(spec[1..]);
      match spec[0]
      case Leaf(f) =>
      case Embed(prefix, offset, sub) =>
        FlatteningPreservesValidity(sub);
        forall i | 0 <= i < |Flatten(sub)|
          ensures ExpandOne(spec[0])[i].Valid()
        {
          assert Flatten(sub)[i].Valid();
        }
    }
  }

  lemma {:induction false} LeavesFlatten(spec: Spec)
    requires forall i :: 0 <= i < |spec| ==> spec[i].Leaf?
    ensures |Flatten(spec)| == |spec| && forall i :: 0 <= i < |spec| ==> Flatten(spec)[i] == spec[i].field
  {
    if spec != [] {
      LeavesFlatten(spec[1..]);
    }
  }
}
