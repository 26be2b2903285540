/** Within a node, no two fields share a name, embedded sub-records included. */
module FieldTags {
  import opened WireSpec
  import opened Protocols
  import opened Dag

  ghost predicate DistinctTags(fs: seq<Field>) { forall i, j :: 0 <= i < j < |fs| ==> fs[i].tag != fs[j].tag }

  ghost predicate DistinctNames(names: seq<string>) {
    forall i, j :: 0 <= i < j < |names| ==> names[i] != names[j]
  }

  /** A spec of leaves only, with a name for each. */
  ghost predicate DistinctLeaves(spec: Spec) {
    && (forall i :: 0 <= i < |spec| ==> spec[i].Leaf?)
    && forall i, j :: 0 <= i < j < |spec| ==> spec[i].field.tag != spec[j].field.tag
  }

  lemma LinkTags()
    ensures DistinctLeaves(ETHERNET_SPEC) && DistinctLeaves(VLAN_SPEC) && DistinctLeaves(IPV4_SPEC)
  {
  }

  lemma NetworkTags()
    ensures DistinctLeaves(IPV6_SPEC) && DistinctLeaves(EXT_OPT_SPEC) && DistinctLeaves(SRH_SPEC)
    ensures DistinctLeaves(FRAGMENT_SPEC) && DistinctLeaves(AH_SPEC)
  {
  }

  lemma TransportTags()
    ensures DistinctLeaves(TCP_SPEC) && DistinctLeaves(UDP_SPEC) && DistinctLeaves(SOMEIP_SPEC)
  {
  }

  lemma PtpTags()
    ensures DistinctLeaves(PTP_HEADER_SPEC)
  {
  }

  // ---- specs with sub-records -------------------------------------------------------------------------

  function Tags(fs: seq<Field>): (r: seq<string>)
    ensures |r| == |fs| && forall i :: 0 <= i < |fs| ==> r[i] == fs[i].tag
  {
    seq(|fs|, i requires 0 <= i < |fs| => fs[i].tag)
  }

  lemma TagsConcat(a: seq<Field>, b: seq<Field>)
    ensures Tags(a + b) == Tags(a) + Tags(b)
  {
  }

  function Prefixed(prefix: string, tags: seq<string>): (r: seq<string>)
    ensures |r| == |tags| && forall i :: 0 <= i < |tags| ==> r[i] == prefix + tags[i]
  {
    seq(|tags|, i requires 0 <= i < |tags| => prefix + tags[i])
  }

  /** The names a spec gives, element by element. */
  function SpecTags(spec: Spec): seq<string>
    decreases spec
  {
    if spec == [] then [] else ElemTags(spec[0]) + SpecTags(spec[1..])
  }

  function ElemTags(e: Elem): seq<string>
    decreases e
  {
    match e
    case Leaf(f) => [f.tag]
    case Embed(prefix, _, sub) => Prefixed(prefix, SpecTags(sub))
  }

  lemma {:induction false} FlattenedTags(spec: Spec)
    ensures Tags(Flatten(spec)) == SpecTags(spec)
    decreases spec
  {
    if spec != [] {
      match spec[0] {
        case Leaf(f) =>
        case Embed(prefix, offset, sub) => FlattenedTags(sub);
      }
      FlattenedTags(spec[1..]);
      TagsConcat(ExpandOne(spec[0]), Flatten(spec[1..]));
    }
  }

  const TIMESTAMP_TAGS := ["seconds_msb", "seconds_lsb", "nanoseconds"]

  lemma SubRecordTags()
    ensures SpecTags(TIMESTAMP_SPEC) == TIMESTAMP_TAGS
    ensures SpecTags(PORT_IDENTITY_SPEC) == ["clock_identity", "port_number"]
    ensures SpecTags(CLOCK_QUALITY_SPEC) == ["clock_class", "clock_accuracy", "offset_scaled_log_variance"]
  {
    LeafTags(TIMESTAMP_SPEC);
    LeafTags(PORT_IDENTITY_SPEC);
    LeafTags(CLOCK_QUALITY_SPEC);
  }

  lemma {:induction false} LeafTags(spec: Spec)
    requires forall i :: 0 <= i < |spec| ==> spec[i].Leaf?
    ensures |SpecTags(spec)| == |spec| && forall i :: 0 <= i < |spec| ==> SpecTags(spec)[i] == spec[i].field.tag
  {
    if spec != [] {
      LeafTags(spec[1..]);
    }
  }

  lemma {:induction false} TagsSplit(a: Spec, b: Spec)
    ensures SpecTags(a + b) == SpecTags(a) + SpecTags(b)
    decreases |a|
  {
    hide ElemTags;
    if a == [] {
      assert a + b == b;
    } else {
      TagsSplit(a[1..], b);
      assert (a + b)[0] == a[0] && (a + b)[1..] == a[1..] + b;
    }
  }

  lemma EmbedTags(prefix: string, offset: nat, sub: Spec)
    ensures SpecTags([Embed(prefix, offset, sub)]) == Prefixed(prefix, SpecTags(sub))
  {
    hide Prefixed;
    assert SpecTags([Embed(prefix, offset, sub)][1..]) == [];
  }

  const ORIGIN_TAGS := ["origin_seconds_msb", "origin_seconds_lsb", "origin_nanoseconds"]
  const GRANDMASTER_TAGS := [
    "grandmaster_" + "clock_class", "grandmaster_" + "clock_accuracy", "grandmaster_" + "offset_scaled_log_variance"]
  const ANNOUNCE_TAGS := ORIGIN_TAGS + ["current_utc_offset", "grandmaster_priority1"] + GRANDMASTER_TAGS +
                         ["grandmaster_priority2", "grandmaster_identity", "steps_removed", "time_source"]

  lemma OriginNames()
    ensures Prefixed("origin_", TIMESTAMP_TAGS) == ORIGIN_TAGS
  {
    assert "origin_" + "seconds_msb" == "origin_seconds_msb";
    assert "origin_" + "seconds_lsb" == "origin_seconds_lsb";
    assert "origin_" + "nanoseconds" == "origin_nanoseconds";
  }

  lemma GrandmasterNames()
    ensures Prefixed("grandmaster_", ["clock_class", "clock_accuracy", "offset_scaled_log_variance"]) ==
            GRANDMASTER_TAGS
  {
  }

  lemma AnnounceTags()
    ensures SpecTags(PTP_ANNOUNCE_BODY_SPEC) == ANNOUNCE_TAGS
  {
    hide SpecTags, Prefixed;
    SubRecordTags();
    OriginNames();
    GrandmasterNames();
    var s := PTP_ANNOUNCE_BODY_SPEC;
    EmbedTags("origin_", 0, TIMESTAMP_SPEC);
    EmbedTags("grandmaster_", 14, CLOCK_QUALITY_SPEC);
    LeafTags(s[1..3]);
    LeafTags(s[4..]);
    TagsSplit(s[..1], s[1..3]);
    TagsSplit(s[..3], s[3..4]);
    TagsSplit(s[..4], s[4..]);
    assert s == s[..4] + s[4..] && s[..4] == s[..3] + s[3..4] && s[..3] == s[..1] + s[1..3];
    assert s[..1] == [Embed("origin_", 0, TIMESTAMP_SPEC)];
    assert s[3..4] == [Embed("grandmaster_", 14, CLOCK_QUALITY_SPEC)];
  }

  lemma AnnounceDistinct()
    ensures DistinctNames(ANNOUNCE_TAGS)
  {
  }

  lemma PrefixKeepsNames(prefix: string, names: seq<string>)
    requires DistinctNames(names)
    ensures DistinctNames(Prefixed(prefix, names))
    ensures prefix != "" ==> forall i :: 0 <= i < |names| ==>
      Prefixed(prefix, names)[i] != "" && Prefixed(prefix, names)[i][0] == prefix[0]
  {
    var r := Prefixed(prefix, names);
    forall i, j | 0 <= i < j < |names| ensures r[i] != r[j] {
      assert r[i][|prefix|..] == names[i] && r[j][|prefix|..] == names[j];
    }
  }

  lemma TsPortNames()
    ensures DistinctNames(Prefixed("ts_", TIMESTAMP_TAGS) + Prefixed("req_", ["clock_identity", "port_number"]))
  {
    hide Prefixed;
    PrefixKeepsNames("ts_", TIMESTAMP_TAGS);
    PrefixKeepsNames("req_", ["clock_identity", "port_number"]);
    assert "ts_"[0] == 't' && "req_"[0] == 'r';
  }

  lemma BodyNames()
    ensures DistinctNames(SpecTags(PTP_TIMESTAMP_BODY_SPEC)) && DistinctNames(SpecTags(PTP_TS_PORT_BODY_SPEC))
    ensures DistinctNames(SpecTags(PTP_ANNOUNCE_BODY_SPEC)) && DistinctNames(SpecTags(PTP_SIGNALING_BODY_SPEC))
  {
    hide SpecTags, Prefixed;
    SubRecordTags();
    EmbedTags("ts_", 0, TIMESTAMP_SPEC);
    EmbedTags("req_", 10, PORT_IDENTITY_SPEC);
    EmbedTags("target_", 0, PORT_IDENTITY_SPEC);
    TagsSplit([Embed("ts_", 0, TIMESTAMP_SPEC)], [Embed("req_", 10, PORT_IDENTITY_SPEC)]);
    assert PTP_TS_PORT_BODY_SPEC ==
           [Embed("ts_", 0, TIMESTAMP_SPEC)] + [Embed("req_", 10, PORT_IDENTITY_SPEC)];
    PrefixKeepsNames("ts_", TIMESTAMP_TAGS);
    PrefixKeepsNames("target_", ["clock_identity", "port_number"]);
    TsPortNames();
    AnnounceTags();
    AnnounceDistinct();
  }

  lemma LeafNames(spec: Spec)
    requires DistinctLeaves(spec)
    ensures DistinctNames(SpecTags(spec))
  {
    hide SpecTags;
    LeafTags(spec);
  }

  /** No two fields of a node have the same name. */
  lemma NodeTagsAreDistinct(n: Node)
    ensures DistinctTags(Flatten(NodeSpec(n)))
  {
    hide Flatten, SpecTags, DistinctLeaves, DistinctNames, DistinctTags;
    NodeNames(n);
    FlattenedTags(NodeSpec(n));
    NamesAreTags(Flatten(NodeSpec(n)));
  }

  lemma NamesAreTags(fs: seq<Field>)
    requires DistinctNames(Tags(fs))
    ensures DistinctTags(fs)
  {
    assert forall i :: 0 <= i < |fs| ==> Tags(fs)[i] == fs[i].tag;
  }

  lemma NodeNames(n: Node)
    ensures DistinctNames(SpecTags(NodeSpec(n)))
  {
    hide SpecTags, DistinctLeaves, DistinctNames;
    LinkTags();
    NetworkTags();
    TransportTags();
    PtpTags();
    BodyNames();
    match n
    case PtpTimestampBody =>
    case PtpTsPortBody =>
    case PtpAnnounceBody =>
    case PtpSignalingBody =>
    case _ => LeafNames(NodeSpec(n));
  }
}
