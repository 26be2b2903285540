/** The rows a parser makes of a region undo writing the region's records. */
module DparRows {
  import opened Wire
  import opened DparRules
  import opened DparMatch
  import opened DparEngine
  import Tlv
  import SomeipTlv

  /** Raw records written one behind the other: a row each, with the record's place, type and length. */
  lemma RawRowsUndoWriting(pid: nat, ruleId: nat, p: seq<byte>, s: Span, xs: seq<Tlv.Item>)
    requires s.begin <= s.end <= |p| && Tlv.ValidItems(xs, Tlv.RawRecords)
    requires p[s.begin..s.end] == Tlv.EncodeItems(xs, Tlv.RawRecords)
    ensures var e := Emitted(1, pid, ruleId, p, s);
      && e.someip == [] && |e.raw| == |xs|
      && forall i :: 0 <= i < |xs| ==>
           xs[i].Tlv? && e.raw[i] == RawTlvRow(pid, ruleId, i % 0x1_0000_0000, xs[i].kind, |xs[i].value|)
  {
    hide Tlv.Records, Tlv.Items, Tlv.EncodeItems;
    assert Tlv.EncodeItems(xs, Tlv.RawRecords) + [] == Tlv.EncodeItems(xs, Tlv.RawRecords);
    Tlv.DecodeUndoesEncode(xs, [], p, s.begin, s.end, Tlv.RawRecords);
    Tlv.ItemsAreTheRecords(p, s.begin, s.end, Tlv.RawRecords);
    forall i | 0 <= i < |xs|
      ensures xs[i].Tlv?
      ensures Emitted(1, pid, ruleId, p, s).raw[i] ==
              RawTlvRow(pid, ruleId, i % 0x1_0000_0000, xs[i].kind, |xs[i].value|)
    {
      assert Tlv.ValidItem(xs[i], Tlv.RawRecords);
      assert Tlv.Items(p, s.begin, s.end, Tlv.RawRecords)[i] == xs[i];
    }
  }

  /** SOME/IP members written one behind the other: a row each, with the member's place, id, wire type and length, and
      where in the region its value starts (0 if it is empty). */
  lemma SomeipRowsUndoWriting(pid: nat, ruleId: nat, p: seq<byte>, s: Span, xs: seq<SomeipTlv.Item>)
    requires s.begin <= s.end <= |p| && p[s.begin..s.end] == SomeipTlv.EncodeItems(xs)
    requires forall i :: 0 <= i < |xs| ==> SomeipTlv.ValidItem(xs[i])
    ensures var e := Emitted(0, pid, ruleId, p, s);
      && e.raw == [] && |e.someip| == |xs|
      && forall i :: 0 <= i < |xs| ==>
           e.someip[i] ==
           SomeipTlvRow(pid, ruleId, i % 0x1_0000_0000, xs[i].dataId, xs[i].wireType, |xs[i].value|,
                        if xs[i].value == [] then 0 else SomeipTlv.ValueAt(xs, i) % 0x1_0000_0000)
  {
    hide SomeipTlv.Members, SomeipTlv.EncodeItems, SomeipTlv.ValueAt;
    SomeipTlv.MembersOfItems(xs, p, s.begin, s.end);
  }

  /** The parsers by name, and the tables their rows go to. */
  lemma ParsersByName()
    ensures PositionOf(KIND_NAMES, "someip_tlv") == Some(0) && PositionOf(KIND_NAMES, "raw_tlv") == Some(1)
    ensures forall name :: name != "someip_tlv" && name != "raw_tlv" ==> PositionOf(KIND_NAMES, name) == None
  {
    assert KIND_NAMES[1..] == ["raw_tlv"] && |KIND_NAMES[0]| == 10 && |"raw_tlv"| == 7;
    assert ["raw_tlv"][1..] == [];
  }
}
