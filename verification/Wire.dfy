/** Bytes, words of bytes in either byte order, and the small arithmetic the other modules share.
    Shifts and masks of the source are written as division and remainder by powers of two. */
module Wire {

  type byte = b: int | 0 <= b < 256

  datatype Option<+T> = None | Some(value: T)

  const TWO_TO_THE_32: nat := 0x1_0000_0000
  const TWO_TO_THE_64: nat := 0x1_0000_0000_0000_0000

  function Min(a: nat, b: nat): nat {
    if a <= b then a else b
  }

  function Max(a: nat, b: nat): nat {
    if a >= b then a else b
  }

  function Pow2(n: nat): (r: nat)
    ensures r > 0
  {
    if n == 0 then 1 else 2 * Pow2(n - 1)
  }

  lemma {:induction false} Pow2Adds(a: nat, b: nat)
    ensures Pow2(a + b) == Pow2(a) * Pow2(b)
  {
    if a > 0 {
      Pow2Adds(a - 1, b);
      assert Pow2(a + b) == 2 * Pow2(a - 1 + b);
    }
  }

  lemma Pow2Values()
    ensures Pow2(0) == 1 && Pow2(1) == 2 && Pow2(2) == 4 && Pow2(3) == 8 && Pow2(4) == 16
    ensures Pow2(8) == 0x100 && Pow2(16) == 0x1_0000 && Pow2(24) == 0x100_0000
    ensures Pow2(32) == 0x1_0000_0000 && Pow2(64) == 0x1_0000_0000_0000_0000
  {
    assert Pow2(8) == 0x100;
    Pow2Adds(8, 8);
    Pow2Adds(16, 8);
    Pow2Adds(16, 16);
    Pow2Adds(32, 32);
  }

  // ---- words ------------------------------------------------------------------------------------------

  /** The value of a run of bytes, most significant byte first. */
  function BigEndian(s: seq<byte>): nat {
    if s == [] then 0 else BigEndian(s[..|s| - 1]) * 256 + s[|s| - 1]
  }

  /** The value of a run of bytes, least significant byte first. */
  function LittleEndian(s: seq<byte>): nat {
    if s == [] then 0 else s[0] + 256 * LittleEndian(s[1..])
  }

  function Word(s: seq<byte>, big: bool): nat {
    if big then BigEndian(s) else LittleEndian(s)
  }

  function Reverse(s: seq<byte>): (r: seq<byte>)
    ensures |r| == |s|
    ensures forall i :: 0 <= i < |s| ==> r[i] == s[|s| - 1 - i]
  {
    if s == [] then [] else Reverse(s[1..]) + [s[0]]
  }

  /** The two byte orders are each other's mirror image. */
  lemma {:induction false} ByteOrdersMirror(s: seq<byte>)
    ensures LittleEndian(s) == BigEndian(Reverse(s))
  {
    if s != [] {
      ByteOrdersMirror(s[1..]);
      var r := Reverse(s);
      assert r[..|r| - 1] == Reverse(s[1..]);
    }
  }

  lemma {:induction false} BigEndianBound(s: seq<byte>)
    ensures BigEndian(s) < Pow2(8 * |s|)
  {
    if s != [] {
      BigEndianBound(s[..|s| - 1]);
      Pow2Adds(8 * (|s| - 1), 8);
    }
  }

  lemma WordBound(s: seq<byte>, big: bool)
    ensures Word(s, big) < Pow2(8 * |s|)
  {
    ByteOrdersMirror(s);
    BigEndianBound(s);
    BigEndianBound(Reverse(s));
  }

  lemma SmallWords(s: seq<byte>)
    ensures |s| == 1 ==> BigEndian(s) == s[0] && LittleEndian(s) == s[0]
    ensures |s| == 2 ==> BigEndian(s) == 256 * (s[0] as int) + (s[1] as int)
    ensures |s| == 2 ==> LittleEndian(s) == (s[0] as int) + 256 * (s[1] as int)
    ensures |s| == 4 ==>
      BigEndian(s) == 0x100_0000 * (s[0] as int) + 0x1_0000 * (s[1] as int) + 0x100 * (s[2] as int) + (s[3] as int)
    ensures |s| == 4 ==>
      LittleEndian(s) == (s[0] as int) + 0x100 * (s[1] as int) + 0x1_0000 * (s[2] as int) + 0x100_0000 * (s[3] as int)
  {
    if |s| == 1 {
      assert s[..0] == [] == s[1..];
    } else if |s| == 2 {
      assert s[..1][..0] == [] == s[1..][1..];
    } else if |s| == 4 {
      assert s[..3][..2] == s[..2] && s[..2][..1] == s[..1] && s[..1][..0] == [];
      assert s[1..][1..] == s[2..] && s[2..][1..] == s[3..] && s[3..][1..] == [];
    }
  }

  /** n bytes holding v, in the given byte order. */
  function Encode(v: nat, n: nat, big: bool): (s: seq<byte>)
    ensures |s| == n
  {
    if n == 0 then []
    else if big then Encode(v / 256, n - 1, big) + [v % 256]
    else [v % 256] + Encode(v / 256, n - 1, big)
  }

  /** Reading back n encoded bytes gives the value, reduced to n bytes. */
  lemma {:induction false} DecodeEncode(v: nat, n: nat, big: bool)
    ensures v < Pow2(8 * n) ==> Word(Encode(v, n, big), big) == v
  {
    if n > 0 && v < Pow2(8 * n) {
      Pow2Adds(8, 8 * (n - 1));
      assert v / 256 < Pow2(8 * (n - 1));
      DecodeEncode(v / 256, n - 1, big);
      var s := Encode(v, n, big);
      if big {
        assert s[..n - 1] == Encode(v / 256, n - 1, big);
      } else {
        assert s[1..] == Encode(v / 256, n - 1, big);
      }
    }
  }

  /** Encoding what was read gives the bytes back. */
  lemma {:induction false} EncodeDecode(s: seq<byte>, big: bool)
    ensures Encode(Word(s, big), |s|, big) == s
  {
    if s != [] {
      var v := Word(s, big);
      if big {
        EncodeDecode(s[..|s| - 1], big);
        assert v / 256 == BigEndian(s[..|s| - 1]) && v % 256 == s[|s| - 1];
      } else {
        EncodeDecode(s[1..], big);
        assert v / 256 == LittleEndian(s[1..]) && v % 256 == s[0];
      }
    }
  }

  /** The bytes p[off..off+n], as a word. */
  function WordAt(p: seq<byte>, off: nat, n: nat, big: bool): nat
    requires off + n <= |p|
  {
    Word(p[off..off + n], big)
  }

  lemma SliceJoin<T>(s: seq<T>, a: nat, b: nat, c: nat)
    requires a <= b <= c <= |s|
    ensures s[a..b] + s[b..c] == s[a..c]
  {
  }

  lemma SliceOfSlice<T>(s: seq<T>, lo: nat, hi: nat, a: nat, b: nat)
    requires lo <= hi <= |s| && a <= b <= hi - lo
    ensures s[lo..hi][a..b] == s[lo + a..lo + b]
  {
    var x, y := s[lo..hi][a..b], s[lo + a..lo + b];
    assert |x| == |y|;
    forall i | 0 <= i < |x| ensures x[i] == y[i] {
      assert x[i] == s[lo..hi][a + i];
    }
  }

  /** part lies in p at off. */
  predicate LiesAt(p: seq<byte>, off: nat, part: seq<byte>) { off + |part| <= |p| && p[off..off + |part|] == part }

  lemma InnerLies(p: seq<byte>, off: nat, whole: seq<byte>, at: nat, part: seq<byte>)
    requires LiesAt(p, off, whole) && at + |part| <= |whole| && whole[at..at + |part|] == part
    ensures LiesAt(p, off + at, part)
  {
    SliceOfSlice(p, off, off + |whole|, at, at + |part|);
  }

  lemma LiesSplit(p: seq<byte>, at: nat, a: seq<byte>, b: seq<byte>)
    requires LiesAt(p, at, a + b)
    ensures LiesAt(p, at, a) && LiesAt(p, at + |a|, b)
  {
    assert (a + b)[0..|a|] == a && (a + b)[|a|..|a| + |b|] == b;
    InnerLies(p, at, a + b, 0, a);
    InnerLies(p, at, a + b, |a|, b);
  }

  lemma LiesAtByte(p: seq<byte>, off: nat, part: seq<byte>, i: nat)
    requires LiesAt(p, off, part) && i < |part|
    ensures p[off + i] == part[i]
  {
    assert p[off..off + |part|][i] == part[i];
  }

  lemma LiesAtEnds(p: seq<byte>, off: nat, part: seq<byte>)
    requires LiesAt(p, off, part)
    ensures off + |part| <= |p| && p[off..off + |part|] == part
  {
  }
}
