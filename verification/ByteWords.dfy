/** Words spelled out on their bytes, most significant first. */
module ByteWords {
  import opened Wire

  function B2(p: seq<byte>, at: nat): nat
    requires at + 2 <= |p|
  {
    0x100 * (p[at] as int) + (p[at + 1] as int)
  }

  function B4(p: seq<byte>, at: nat): nat
    requires at + 4 <= |p|
  {
    0x100_0000 * (p[at] as int) + 0x1_0000 * (p[at + 1] as int) + 0x100 * (p[at + 2] as int) + (p[at + 3] as int)
  }

  function B8(p: seq<byte>, at: nat): nat
    requires at + 8 <= |p|
  {
    0x1_0000_0000 * B4(p, at) + B4(p, at + 4)
  }

  function Bn(p: seq<byte>, at: nat, n: nat): nat
    requires n in {1, 2, 4, 8} && at + n <= |p|
  {
    if n == 1 then p[at] else if n == 2 then B2(p, at) else if n == 4 then B4(p, at) else B8(p, at)
  }

  lemma WordIsBytes(p: seq<byte>, at: nat, n: nat)
    requires n in {1, 2, 4, 8} && at + n <= |p|
    ensures WordAt(p, at, n, true) == Bn(p, at, n)
  {
    if n == 8 {
      LongWord(p, at);
    } else {
      SmallWords(p[at..at + n]);
    }
  }

  lemma FourBytes(p: seq<byte>, at: nat)
    requires at + 4 <= |p|
    ensures BigEndian(p[at..at + 4]) == B4(p, at)
  {
    SmallWords(p[at..at + 4]);
  }

  lemma LongWord(p: seq<byte>, at: nat)
    requires at + 8 <= |p|
    ensures WordAt(p, at, 8, true) == B8(p, at)
  {
    hide B4, BigEndian, Pow2;
    var a, b := p[at..at + 4], p[at + 4..at + 8];
    FourBytes(p, at);
    FourBytes(p, at + 4);
    SliceJoin(p, at, at + 4, at + 8);
    BigEndianJoins(a, b);
    Pow2Values();
  }

  lemma {:induction false} BigEndianJoins(a: seq<byte>, b: seq<byte>)
    ensures BigEndian(a + b) == BigEndian(a) * Pow2(8 * |b|) + BigEndian(b)
  {
    if b == [] {
      assert a + b == a;
    } else {
      var front := b[..|b| - 1];
      BigEndianJoins(a, front);
      assert (a + b)[..|a + b| - 1] == a + front;
      Pow2Adds(8 * |front|, 8);
      assert Pow2(8) == 256;
      assert BigEndian(a) * Pow2(8 * |front|) * 256 == BigEndian(a) * Pow2(8 * |b|);
    }
  }

  // ---- arrays of records ------------------------------------------------------------------------------

  /** Records of n bytes. */
  predicate AllOfSize(rs: seq<seq<byte>>, n: nat) { forall i :: 0 <= i < |rs| ==> |rs[i]| == n }

  function Joined(rs: seq<seq<byte>>): seq<byte> {
    if rs == [] then [] else Joined(rs[..|rs| - 1]) + rs[|rs| - 1]
  }

  lemma {:induction false} JoinedSize(rs: seq<seq<byte>>, n: nat)
    requires AllOfSize(rs, n)
    ensures |Joined(rs)| == n * |rs|
  {
    if rs != [] {
      var m := |rs| - 1;
      JoinedSize(rs[..m], n);
      Product(n, m);
    }
  }

  lemma Product(n: nat, m: nat)
    ensures n * (m + 1) == n * m + n
  {
  }

  lemma {:induction false} JoinedAt(rs: seq<seq<byte>>, n: nat, i: nat)
    requires AllOfSize(rs, n) && i < |rs|
    ensures |Joined(rs)| == n * |rs| && 0 <= n * i <= n * i + n <= n * |rs|
    ensures Joined(rs)[n * i..n * i + n] == rs[i]
    decreases |rs|
  {
    var m := |rs| - 1;
    var front := Joined(rs[..m]);
    JoinedSize(rs[..m], n);
    Product(n, m);
    if i < m {
      JoinedAt(rs[..m], n, i);
      assert rs[..m][i] == rs[i];
    }
  }
}
