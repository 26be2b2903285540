/** Scanning a capture window by window, carrying the unconsumed tail, is scanning it whole. */
module PcapStreaming {
  import opened Wire
  import opened PcapBlocks

  function ShiftRef(r: BlockRef, base: nat): BlockRef { r.(fileOffset := r.fileOffset + base) }

  function ShiftRefs(rs: seq<BlockRef>, base: nat): (r: seq<BlockRef>)
    ensures |r| == |rs|
    ensures forall i :: 0 <= i < |rs| ==> r[i] == ShiftRef(rs[i], base)
  {
    seq(|rs|, i requires 0 <= i < |rs| => ShiftRef(rs[i], base))
  }

  // ---- what a block depends on ------------------------------------------------------------------------

  /** A block found in a window is found in any longer file at the window's place, with the same size and
      contents. */
  lemma BlockIsLocal(st: State, file: seq<byte>, base: nat, window: seq<byte>, pos: nat)
    requires base + |window| <= |file| && file[base..base + |window|] == window && pos <= |window|
    ensures var f, g := BlockAt(st, window, pos), BlockAt(st, file, base + pos);
      && (f.Bad? ==> g == Bad)
      && (f.Block? ==> g == Block(ShiftRef(f.ref, base), f.st, f.size))
  {
    hide WordAt;
    var n := if st.isPcapng then 12 else 16;
    if pos + n <= |window| {
      WordIsLocal(file, base, window, pos);
      WordIsLocal(file, base, window, pos + 4);
      WordIsLocal(file, base, window, pos + 8);
    }
  }

  lemma WordIsLocal(file: seq<byte>, base: nat, window: seq<byte>, off: nat)
    requires base + |window| <= |file| && file[base..base + |window|] == window && off + 4 <= |window|
    ensures Rd32(file, base + off, true) == Rd32(window, off, true)
    ensures Rd32(file, base + off, false) == Rd32(window, off, false)
  {
    SliceOfSlice(file, base, base + |window|, off, off + 4);
  }

  // ---- extension --------------------------------------------------------------------------------------

  lemma ScanUnfolds(st: State, file: seq<byte>, pos: nat)
    ensures ScanFrom(st, file, pos) ==
      match BlockAt(st, file, pos)
      case More => Scan([], pos, st, true)
      case Bad => Scan([], pos, st, false)
      case Block(ref, st', size) =>
        var rest := ScanFrom(st', file, pos + size);
        Scan([ref] + rest.refs, rest.pos, rest.st, rest.ok)
  {
  }

  /** Scanning a window finds the first blocks of the longer file; unless it met an invalid block, the longer
      scan goes on exactly where the window's scan stopped. */
  lemma {:induction false} ScanExtends(st: State, file: seq<byte>, base: nat, window: seq<byte>, pos: nat)
    requires base + |window| <= |file| && file[base..base + |window|] == window && pos <= |window|
    ensures Continues(ScanFrom(st, window, pos), ScanFrom(st, file, base + pos), file, base)
    decreases |window| - pos
  {
    hide BlockAt, ScanFrom;
    BlockIsLocal(st, file, base, window, pos);
    ScanUnfolds(st, window, pos);
    ScanUnfolds(st, file, base + pos);
    var f := BlockAt(st, window, pos);
    if f.Block? {
      assert base + (pos + f.size) == base + pos + f.size;
      ScanExtends(f.st, file, base, window, pos + f.size);
      PrependRef(ScanFrom(f.st, window, pos + f.size), ScanFrom(f.st, file, base + pos + f.size), file, base, f.ref);
    }
  }

  /** The scan f of a file from a window's start is the window's scan w, rebased, and then, unless w met an
      invalid block, the scan from where w stopped. */
  ghost predicate Continues(w: Scan, f: Scan, file: seq<byte>, base: nat) {
    if w.ok then
      var rest := ScanFrom(w.st, file, base + w.pos);
      f == Scan(ShiftRefs(w.refs, base) + rest.refs, rest.pos, rest.st, rest.ok)
    else
      f == Scan(ShiftRefs(w.refs, base), base + w.pos, w.st, false)
  }

  lemma PrependRef(w: Scan, f: Scan, file: seq<byte>, base: nat, ref: BlockRef)
    requires Continues(w, f, file, base)
    ensures Continues(w.(refs := [ref] + w.refs), f.(refs := [ShiftRef(ref, base)] + f.refs), file, base)
  {
    hide ScanFrom;
    assert ShiftRefs([ref] + w.refs, base) == [ShiftRef(ref, base)] + ShiftRefs(w.refs, base);
    var rest := ScanFrom(w.st, file, base + w.pos).refs;
    assert [ShiftRef(ref, base)] + (ShiftRefs(w.refs, base) + rest) ==
           [ShiftRef(ref, base)] + ShiftRefs(w.refs, base) + rest;
  }

  // ---- the stream -------------------------------------------------------------------------------------

  datatype Outcome = Outcome(refs: seq<BlockRef>, st: State, error: Option<Error>)

  function Concat(chunks: seq<seq<byte>>): seq<byte> {
    if chunks == [] then [] else chunks[0] + Concat(chunks[1..])
  }

  /** Feed the chunks one after the other: each window is the unconsumed tail and the next chunk, the last one
      at the end of the capture; refs are rebased by the bytes consumed so far; an error ends the stream. */
  function Stream(st: State, tail: seq<byte>, base: nat, chunks: seq<seq<byte>>): Outcome
    requires chunks != []
    decreases |chunks|
  {
    var window := tail + chunks[0];
    var r := ScanWindow(st, window, |chunks| == 1);
    if r.error.Some? || |chunks| == 1 then Outcome(ShiftRefs(r.refs, base), r.st, r.error)
    else
      var rest := Stream(r.st, window[r.consumed..], base + r.consumed, chunks[1..]);
      Outcome(ShiftRefs(r.refs, base) + rest.refs, rest.st, rest.error)
  }

  function OneShot(file: seq<byte>): Outcome {
    var r := ScanWindow(INITIAL, file, true);
    Outcome(r.refs, r.st, r.error)
  }

  lemma StreamStep(st: State, tail: seq<byte>, base: nat, chunks: seq<seq<byte>>, i: nat, refs: seq<BlockRef>)
    requires i < |chunks|
    ensures var r, o := ScanWindow(st, tail + chunks[i], i + 1 == |chunks|), Stream(st, tail, base, chunks[i..]);
      var refs' := refs + ShiftRefs(r.refs, base);
      if r.error.Some? || i + 1 == |chunks| then o == Outcome(ShiftRefs(r.refs, base), r.st, r.error)
      else
        var next := Stream(r.st, (tail + chunks[i])[r.consumed..], base + r.consumed, chunks[i + 1..]);
        Outcome(refs + o.refs, o.st, o.error) == Outcome(refs' + next.refs, next.st, next.error)
  {
    hide ScanWindow, ShiftRefs;
    var rest := chunks[i..];
    assert rest[0] == chunks[i] && rest[1..] == chunks[i + 1..];
  }

  /** The driver, on one ScanState. */
  method StreamScan(chunks: seq<seq<byte>>) returns (out: Outcome)
    requires chunks != []
    ensures out == Stream(INITIAL, [], 0, chunks)
  {
    hide ScanWindow, Stream, ShiftRefs;
    var st := new ScanState();
    var tail, base, refs := [], 0, [];
    ghost var goal := Stream(INITIAL, [], 0, chunks);
    assert chunks[0..] == chunks && refs + goal.refs == goal.refs;
    var i := 0;
    while true
      invariant 0 <= i < |chunks|
      invariant var rest := Stream(st.View(), tail, base, chunks[i..]);
        goal == Outcome(refs + rest.refs, rest.st, rest.error)
      decreases |chunks| - i
    {
      var window, last := tail + chunks[i], i + 1 == |chunks|;
      StreamStep(st.View(), tail, base, chunks, i, refs);
      var found, consumed, error := st.Scan(window, [], last);
      if error.Some? || last {
        return Outcome(refs + ShiftRefs(found, base), st.View(), error);
      }
      refs := refs + ShiftRefs(found, base);
      tail, base, i := window[consumed..], base + consumed, i + 1;
    }
  }

  /** What is left to find in a file, from a scan state: detection first if it has not happened, then the blocks
      from base on. */
  ghost function Rest(st: State, file: seq<byte>, base: nat): Outcome
    requires base <= |file|
  {
    if !st.started then
      var r := ScanWindow(st, file[base..], true);
      Outcome(ShiftRefs(r.refs, base), r.st, r.error)
    else
      RestStarted(st, file, base)
  }

  ghost function RestStarted(st: State, file: seq<byte>, base: nat): Outcome
  {
    var s := ScanFrom(st, file, base);
    Outcome(s.refs, s.st,
            if !s.ok then Some(BadBlockLength) else if s.pos < |file| then Some(TruncatedTail) else None)
  }

  lemma RestIsWindow(st: State, file: seq<byte>, base: nat)
    requires base <= |file|
    ensures Rest(st, file, base) ==
      var r := ScanWindow(st, file[base..], true); Outcome(ShiftRefs(r.refs, base), r.st, r.error)
  {
    hide BlockAt;
    if st.started {
      var w := file[base..];
      ScanExtends(st, file, base, w, 0);
      NoMoreAtEnd(st, w, 0);
      var s := ScanFrom(st, w, 0);
      assert [] + s.refs == s.refs;
      if s.ok {
        NoMoreAtEnd(st, w, 0);
        BlockIsLocalAtEnd(s.st, file, base, w, s.pos);
        assert ShiftRefs(s.refs, base) + [] == ShiftRefs(s.refs, base);
      }
    }
  }

  /** Where a scan stops without an invalid block, there is no complete block. */
  lemma {:induction false} NoMoreAtEnd(st: State, file: seq<byte>, pos: nat)
    requires pos <= |file|
    ensures var s := ScanFrom(st, file, pos); s.ok ==> BlockAt(s.st, file, s.pos) == More
    decreases |file| - pos
  {
    hide BlockAt;
    var f := BlockAt(st, file, pos);
    if f.Block? {
      NoMoreAtEnd(f.st, file, pos + f.size);
    }
  }

  lemma BlockIsLocalAtEnd(st: State, file: seq<byte>, base: nat, window: seq<byte>, pos: nat)
    requires base <= |file| && window == file[base..] && pos <= |window| && BlockAt(st, window, pos) == More
    ensures BlockAt(st, file, base + pos) == More
  {
    hide WordAt;
    var n := if st.isPcapng then 12 else 16;
    if pos + n <= |window| {
      WordIsLocal(file, base, window, pos);
      WordIsLocal(file, base, window, pos + 4);
      WordIsLocal(file, base, window, pos + 8);
    }
  }

  /** One window that is not the last: its refs come first, and the rest is found from where it stopped. */
  lemma WindowStep(st: State, file: seq<byte>, base: nat, window: seq<byte>)
    requires base + |window| <= |file| && file[base..base + |window|] == window
    ensures var r := ScanWindow(st, window, false);
      if r.error.Some? then Rest(st, file, base) == Outcome(ShiftRefs(r.refs, base), r.st, r.error)
      else
        var rest := Rest(r.st, file, base + r.consumed);
        Rest(st, file, base) == Outcome(ShiftRefs(r.refs, base) + rest.refs, rest.st, rest.error)
  {
    hide ScanFrom, BlockAt;
    RestIsWindow(st, file, base);
    var d := Detect(st, window, false);
    DetectIsLocal(st, file[base..], window);
    match d
    case NeedMore =>
      assert [] + Rest(st, file, base).refs == Rest(st, file, base).refs;
    case Unreadable(e) =>
    case Ready(st', refs, pos) =>
      ReadyStep(st', file, base, window, pos, refs);
      var whole := ScanFrom(st', file[base..], pos);
      RestAfterReady(st', file, base, pos, refs);
  }

  /** Detection reads only the first bytes: what a window decides, the file decides. */
  lemma DetectIsLocal(st: State, file: seq<byte>, window: seq<byte>)
    requires window <= file
    ensures var d := Detect(st, window, false); !d.NeedMore? ==> Detect(st, file, true) == d
  {
    hide WordAt;
    if !st.started && |window| >= 4 {
      WordIsLocal(file, 0, window, 0);
      if |window| >= 24 {
        WordIsLocal(file, 0, window, 20);
      }
    }
  }

  lemma RestAfterReady(st: State, file: seq<byte>, base: nat, pos: nat, refs: seq<BlockRef>)
    requires st.started && base + pos <= |file|
    ensures var s := ScanFrom(st, file[base..], pos);
      var rest := RestStarted(st, file, base + pos);
      && ShiftRefs(refs + s.refs, base) == ShiftRefs(refs, base) + rest.refs
      && rest.st == s.st
      && rest.error == if !s.ok then Some(BadBlockLength)
                       else if s.pos < |file[base..]| then Some(TruncatedTail) else None
  {
    hide BlockAt;
    var w := file[base..];
    ScanExtends(st, file, base, w, pos);
    var s := ScanFrom(st, w, pos);
    if s.ok {
      NoMoreAtEnd(st, w, pos);
      BlockIsLocalAtEnd(s.st, file, base, w, s.pos);
    }
  }

  lemma ReadyStep(st: State, file: seq<byte>, base: nat, window: seq<byte>, pos: nat, refs: seq<BlockRef>)
    requires base + |window| <= |file| && file[base..base + |window|] == window && pos <= |window|
    ensures var w := ScanFrom(st, window, pos);
      var rest := RestStarted(st, file, base + pos);
      if w.ok then
        var next := RestStarted(w.st, file, base + w.pos);
        && next.st == rest.st && next.error == rest.error
        && ShiftRefs(refs, base) + rest.refs == ShiftRefs(refs + w.refs, base) + next.refs
      else
        && rest.st == w.st && rest.error == Some(BadBlockLength)
        && ShiftRefs(refs, base) + rest.refs == ShiftRefs(refs + w.refs, base)
  {
    hide BlockAt, ScanFrom;
    ScanExtends(st, file, base, window, pos);
    var w := ScanFrom(st, window, pos);
    assert ShiftRefs(refs + w.refs, base) == ShiftRefs(refs, base) + ShiftRefs(w.refs, base);
    if w.ok {
      var next := ScanFrom(w.st, file, base + w.pos).refs;
      assert ShiftRefs(refs, base) + (ShiftRefs(w.refs, base) + next) ==
             ShiftRefs(refs, base) + ShiftRefs(w.refs, base) + next;
    }
  }

  lemma Carried(file: seq<byte>, base: nat, window: seq<byte>, more: seq<byte>, k: nat)
    requires base <= |file| && file[base..] == window + more && k <= |window|
    ensures base + |window| <= |file| && file[base..base + |window|] == window
    ensures file[base + k..] == window[k..] + more
  {
    assert file[base..base + |window|] == file[base..][..|window|];
    assert file[base + k..] == file[base..][k..];
  }

  lemma StreamStops(st: State, tail: seq<byte>, base: nat, chunk: seq<byte>, file: seq<byte>)
    requires base <= |file| && file[base..] == tail + chunk
    ensures Stream(st, tail, base, [chunk]) == Rest(st, file, base)
  {
    hide ScanWindow, ShiftRefs, Rest;
    RestIsWindow(st, file, base);
  }

  lemma {:induction false} StreamIsRest(st: State, tail: seq<byte>, base: nat, chunks: seq<seq<byte>>, file: seq<byte>)
    requires chunks != [] && base <= |file| && file[base..] == tail + Concat(chunks)
    ensures Stream(st, tail, base, chunks) == Rest(st, file, base)
    decreases |chunks|
  {
    hide ScanWindow, ShiftRefs, Rest;
    var window := tail + chunks[0];
    assert tail + Concat(chunks) == window + Concat(chunks[1..]);
    if |chunks| == 1 {
      assert window + [] == window && chunks == [chunks[0]];
      StreamStops(st, tail, base, chunks[0], file);
    } else {
      Carried(file, base, window, Concat(chunks[1..]), 0);
      WindowStep(st, file, base, window);
      var r := ScanWindow(st, window, false);
      if r.error.None? {
        Carried(file, base, window, Concat(chunks[1..]), r.consumed);
        StreamIsRest(r.st, window[r.consumed..], base + r.consumed, chunks[1..], file);
      }
    }
  }

  /** However a capture is cut into windows, repeated scan_window calls that carry the unconsumed tail report the
      blocks of one scan_blocks call: the same refs, once rebased, the same error or success, and the same final
      format, byte order and link type. */
  lemma StreamingEqualsOneShot(chunks: seq<seq<byte>>)
    requires chunks != []
    ensures Stream(INITIAL, [], 0, chunks) == OneShot(Concat(chunks))
  {
    hide ScanWindow;
    var file := Concat(chunks);
    assert file[0..] == file == [] + file;
    StreamIsRest(INITIAL, [], 0, chunks, file);
    RestIsWindow(INITIAL, file, 0);
    var r := ScanWindow(INITIAL, file, true);
    assert ShiftRefs(r.refs, 0) == r.refs;
  }

  // ---- tiling -----------------------------------------------------------------------------------------

  /** The refs cover [from, to) in order, without gap or overlap. */
  ghost predicate Tiles(refs: seq<BlockRef>, from: nat, to: nat) {
    if refs == [] then from == to
    else refs[0].fileOffset == from && Tiles(refs[1..], from + refs[0].length, to)
  }

  /** A legacy record whose length, with its 16-byte header, does not fit the 32-bit length of its ref. */
  ghost predicate LengthWraps(file: seq<byte>, r: BlockRef) {
    r.kind == PcapRecord && r.fileOffset + 12 <= |file| &&
    16 + Rd32(file, r.fileOffset + 8, r.littleEndian) >= TWO_TO_THE_32
  }

  ghost predicate NoLengthWraps(file: seq<byte>, refs: seq<BlockRef>) {
    forall i :: 0 <= i < |refs| ==> !LengthWraps(file, refs[i])
  }

  lemma BlockLength(st: State, file: seq<byte>, pos: nat)
    requires BlockAt(st, file, pos).Block?
    ensures var f := BlockAt(st, file, pos);
      f.ref.length == f.size <==> !LengthWraps(file, f.ref)
  {
    hide WordAt;
    WordBound(file[pos + 4..pos + 8], true);
    if !st.isPcapng {
      WordBound(file[pos + 8..pos + 12], true);
      WordBound(file[pos + 8..pos + 12], false);
      Pow2Values();
    }
  }

  lemma {:induction false} TilesStart(refs: seq<BlockRef>, from: nat, to: nat)
    ensures Tiles(refs, from, to) && refs != [] ==> refs[0].fileOffset == from
    ensures Tiles(refs, from, to) && refs == [] ==> from == to
  {
  }

  lemma {:induction false} ScanTiles(st: State, file: seq<byte>, pos: nat)
    requires pos <= |file|
    ensures var s := ScanFrom(st, file, pos); Tiles(s.refs, pos, s.pos) <==> NoLengthWraps(file, s.refs)
    ensures var s := ScanFrom(st, file, pos); s.refs != [] ==> s.refs[0].fileOffset == pos
    ensures var s := ScanFrom(st, file, pos); s.refs == [] ==> s.pos == pos
    decreases |file| - pos
  {
    hide BlockAt, LengthWraps;
    var f := BlockAt(st, file, pos);
    if f.Block? {
      BlockLength(st, file, pos);
      ScanTiles(f.st, file, pos + f.size);
      var s, rest := ScanFrom(st, file, pos), ScanFrom(f.st, file, pos + f.size);
      assert s.refs == [f.ref] + rest.refs && s.refs[1..] == rest.refs;
      assert NoLengthWraps(file, s.refs) <==> !LengthWraps(file, f.ref) && NoLengthWraps(file, rest.refs) by {
        assert forall i :: 0 < i < |s.refs| ==> s.refs[i] == rest.refs[i - 1];
      }
      if f.ref.length != f.size {
        TilesStart(rest.refs, pos + f.ref.length, s.pos);
      }
    }
  }

  /** The refs of a window tile exactly the consumed bytes (global header included) if and only if no legacy
      record's total length overflows the 32-bit field of its ref; a pcapng window always tiles. */
  lemma WindowTiles(st: State, file: seq<byte>, atEof: bool)
    ensures var r := ScanWindow(st, file, atEof);
      r.error != Some(BadBlockLength) ==>
        (Tiles(r.refs, 0, r.consumed) <==> NoLengthWraps(file, r.refs))
  {
    hide ScanFrom, LengthWraps;
    var d := Detect(st, file, atEof);
    if d.Ready? {
      ScanTiles(d.st, file, d.pos);
      var s := ScanFrom(d.st, file, d.pos);
      if d.refs == [] {
        assert d.refs + s.refs == s.refs;
      } else {
        var all := d.refs + s.refs;
        assert all[0].kind == Idb && all[1..] == s.refs && all[0].length == d.pos;
        OnlyRecordsWrap(file, all[0]);
        assert forall i :: 0 < i < |all| ==> all[i] == s.refs[i - 1];
      }
    }
  }

  /** No pcapng block is a legacy record, so a pcapng scan always tiles. */
  lemma {:induction false} SectionsAlwaysTile(st: State, file: seq<byte>, pos: nat)
    requires st.isPcapng && pos <= |file|
    ensures var s := ScanFrom(st, file, pos); NoLengthWraps(file, s.refs) && Tiles(s.refs, pos, s.pos)
    decreases |file| - pos
  {
    hide WordAt, LengthWraps;
    var f := BlockAt(st, file, pos);
    if f.Block? {
      SectionsAlwaysTile(f.st, file, pos + f.size);
      assert f.ref.kind != PcapRecord;
      OnlyRecordsWrap(file, f.ref);
    }
    ScanTiles(st, file, pos);
  }

  lemma OnlyRecordsWrap(file: seq<byte>, r: BlockRef)
    requires r.kind != PcapRecord
    ensures !LengthWraps(file, r)
  {
  }
}
