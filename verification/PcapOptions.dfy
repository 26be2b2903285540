/** Option lists of pcapng blocks: writing any list and walking it back. */
module PcapOptions {
  import opened Wire
  import opened PcapBlocks
  import opened PcapParse
  import opened PcapBuild
  import opened PcapRoundTrip

  datatype Opt = Opt(code: nat, value: seq<byte>)

  /** Code 0 would end the list. */
  predicate ValidOpts(os: seq<Opt>) {
    forall i :: 0 <= i < |os| ==> 0 < os[i].code < 0x1_0000 && |os[i].value| < 0x1_0000
  }

  function OptBytes(o: Opt, le: bool): seq<byte> {
    Enc(o.code, 2, le) + Enc(|o.value|, 2, le) + o.value + Zeros(PadLen(|o.value|))
  }

  function OptsBytes(os: seq<Opt>, le: bool): seq<byte> {
    if os == [] then [] else OptBytes(os[0], le) + OptsBytes(os[1..], le)
  }

  /** Nothing more to walk: fewer than four bytes, or the end marker. */
  ghost predicate Ends(file: seq<byte>, at: nat, size: nat, le: bool)
    requires at + size <= |file|
  {
    size < 4 || Rd16(file, at, le) == 0
  }

  /** The value of the last option of a code, of at least n bytes. */
  function LastOf(os: seq<Opt>, code: nat, n: nat): (v: Option<seq<byte>>)
    ensures v.Some? ==> |v.value| >= n
  {
    if os == [] then None
    else
      var o := os[|os| - 1];
      if o.code == code && |o.value| >= n then Some(o.value) else LastOf(os[..|os| - 1], code, n)
  }

  lemma {:induction false} LastSplit(os: seq<Opt>, code: nat, n: nat)
    requires os != []
    ensures LastOf(os, code, n) ==
      if LastOf(os[1..], code, n).Some? then LastOf(os[1..], code, n) else LastOf(os[..1], code, n)
    decreases |os|
  {
    var m := |os| - 1;
    assert os[..1][..0] == [];
    if m == 0 {
      assert os[..1] == os;
    } else {
      assert os[1..][..m - 1] == os[..m][1..] && os[..m][..1] == os[..1];
      LastSplit(os[..m], code, n);
    }
  }

  lemma OptParts(o: Opt, le: bool)
    ensures var b, n := OptBytes(o, le), |o.value|;
      |b| == 4 + n + PadLen(n) && b[0..2] == Enc(o.code, 2, le) && b[2..4] == Enc(n, 2, le) && b[4..4 + n] == o.value
  {
    hide Enc, Zeros, PadLen;
  }

  lemma Padded(n: nat)
    requires n < 0x1_0000
    ensures Pad4(n) == n + PadLen(n)
  {
  }

  /** A written option is the next one, with the rest of the region behind it. */
  lemma NextIsWritten(file: seq<byte>, at: nat, size: nat, o: Opt, le: bool)
    requires 0 < o.code < 0x1_0000 && |o.value| < 0x1_0000
    requires LiesAt(file, at, OptBytes(o, le)) && |OptBytes(o, le)| <= size && at + size <= |file|
    ensures var n := |OptBytes(o, le)|;
      && NextOption(file, Options(at, size), le) ==
         Some((OptionView(o.code, |o.value|, at + 4), Options(at + n, size - n)))
      && LiesAt(file, at + 4, o.value)
  {
    hide OptBytes, Enc, WordAt, LiesAt, Pad4;
    OptParts(o, le);
    Padded(|o.value|);
    Pow2Values();
    ReadBack(file, at, OptBytes(o, le), 0, 2, o.code, le);
    ReadBack(file, at, OptBytes(o, le), 2, 2, |o.value|, le);
    InnerLies(file, at, OptBytes(o, le), 4, o.value);
  }

  lemma NothingNext(file: seq<byte>, at: nat, size: nat, le: bool)
    requires at + size <= |file| && Ends(file, at, size, le)
    ensures NextOption(file, Options(at, size), le) == None
  {
  }

  /** The resolution is the first byte of the last if_tsresol that has one, whatever the list, and what it was if
      there is none. */
  lemma {:induction false} LastResolutionWins(file: seq<byte>, at: nat, size: nat, os: seq<Opt>, le: bool, resol: nat)
    requires ValidOpts(os) && LiesAt(file, at, OptsBytes(os, le)) && |OptsBytes(os, le)| <= size && at + size <= |file|
    requires Ends(file, at + |OptsBytes(os, le)|, size - |OptsBytes(os, le)|, le)
    ensures TsResol(file, Options(at, size), le, resol) ==
            match LastOf(os, 9, 1) { case None => resol case Some(v) => v[0] as int }
    decreases |os|
  {
    hide OptBytes, NextOption, LiesAt, Ends, LastOf;
    if os == [] {
      NothingNext(file, at, size, le);
      NoneLast(9, 1);
    } else {
      var o, n := os[0], |OptBytes(os[0], le)|;
      LiesSplit(file, at, OptBytes(o, le), OptsBytes(os[1..], le));
      NextIsWritten(file, at, size, o, le);
      LastSplit(os, 9, 1);
      OneLast(os, 9, 1);
      if |o.value| >= 1 {
        LiesAtByte(file, at + 4, o.value, 0);
      }
      LastResolutionWins(file, at + n, size - n, os[1..], le,
                         if o.code == 9 && |o.value| >= 1 then o.value[0] else resol);
    }
  }

  lemma NoneLast(code: nat, n: nat)
    ensures LastOf([], code, n) == None
  {
  }

  lemma OneLast(os: seq<Opt>, code: nat, n: nat)
    requires os != []
    ensures LastOf(os[..1], code, n) == if os[0].code == code && |os[0].value| >= n then Some(os[0].value) else None
  {
    assert os[..1][..0] == [];
  }

  /** The flags are the word of the last epb_flags of at least four bytes. */
  lemma {:induction false} LastFlagsWin(file: seq<byte>, at: nat, size: nat, os: seq<Opt>, le: bool, flags: nat)
    requires ValidOpts(os) && LiesAt(file, at, OptsBytes(os, le)) && |OptsBytes(os, le)| <= size && at + size <= |file|
    requires Ends(file, at + |OptsBytes(os, le)|, size - |OptsBytes(os, le)|, le)
    ensures EpbFlags(file, Options(at, size), le, flags) ==
            match LastOf(os, 2, 4) { case None => flags case Some(v) => Word(v[..4], !le) }
    decreases |os|
  {
    hide OptBytes, NextOption, LiesAt, Ends, LastOf, Word;
    if os == [] {
      NothingNext(file, at, size, le);
      NoneLast(2, 4);
    } else {
      var o, n := os[0], |OptBytes(os[0], le)|;
      LiesSplit(file, at, OptBytes(o, le), OptsBytes(os[1..], le));
      NextIsWritten(file, at, size, o, le);
      LastSplit(os, 2, 4);
      OneLast(os, 2, 4);
      if |o.value| >= 4 {
        FirstFour(file, at + 4, o.value, le);
      }
      LastFlagsWin(file, at + n, size - n, os[1..], le,
                   if o.code == 2 && |o.value| >= 4 then Word(o.value[..4], !le) else flags);
    }
  }

  lemma FirstFour(file: seq<byte>, at: nat, v: seq<byte>, le: bool)
    requires |v| >= 4 && LiesAt(file, at, v)
    ensures Rd32(file, at, le) == Word(v[..4], !le)
  {
    SliceOfSlice(file, at, at + |v|, 0, 4);
    assert v[0..4] == v[..4];
  }
}
