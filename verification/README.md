# nanotins: decoding packet captures into tables, verified

nanotins decodes pcap and pcapng captures into columnar tables. It does most of its work more than once: a
protocol graph and a hand-written switch walk the same frames, a serial decoder and a parallel
count-scan-scatter pipeline fill the same tables, a streaming scanner and a one-shot scanner find the same blocks,
a compile-time, a run-time and an overlay reader read the same fields. Its central promise is that these
independently written paths give one answer. This project models them and proves that promise, or the exact
condition under which the code keeps it.

Bytes are integers from 0 to 255, packets and captures are sequences, offsets are natural numbers, and shifts and
masks are written as division and remainder. 8-, 16- and 32-bit truncations that matter are written out.

## How the project is laid out

- `Wire`, `Arith`, `WireSpec`, `Protocols`: bytes and words, explicit-offset specs, nesting by embedding, the field
  reader, the concrete header layouts. `StructColumns` is the second reader: packed structs copied from the packet,
  bit-fields found by a running sum of widths.
- `Dag`, `DagGrammar`: the bounded protocol walk over 17 node types, described twice (loop and declaration), the
  grammar of the frames it accepts, and what its offsets guarantee.
- `PacketWalk`, `FrameBytes`, `WalksAgree`, `PacketTables`, `Interop`: the hand-written walk, what a frame's bytes say
  about its headers without any walk, the staged and windowed decoders, and the comparison with the graph, down to
  the cells of the tables.
- `Tables`, `Bulk`, `Scatter`, `BulkIsSerial`, `BulkDecode`, `DagDecode`: the serial tables, the two executors, and the
  scatter pass as a transition system in which any worker may do its next cell write. The count walk and the scatter
  walk are methods of their own, with their counters and cursors. The pipeline is shared by the node tables, the
  headers of `PacketTables`, the IPv6 children (`Ipv6Children`) and the SOME/IP-SD children (`SomeipSd`).
- `PcapBlocks`, `PcapStreaming`, `PcapParse`, `PcapBuild`, `PcapRoundTrip`, `PcapLegacy`, `PcapOptions`: the boundary
  scan of draft-ietf-opsawg-pcapng with its carried state, streaming against one-shot, and scanning plus parsing as
  the inverse of the pcapng and of the legacy pcap builder.
- `Tlv`, `Ipv4Options`, `SomeipTlv`: record cursors (section 4.2 of RFC 8200, section 3.1 of RFC 791, and the
  SOME/IP TLV encoding) and their round trips.
- `FieldTags`, `DparFields`, `DparRules`, `DparNumbers`, `DparSound`, `DparMatch`, `DparEngine`, `DparCounters`,
  `DparSessions`: the rule engine from text to counters, and over whole sessions of loads and packets.
- `ByteWords`, `NodeBytes`, `WalkBytes`, `WindowWire`, `PcapWire`, `SdWire`, `SdBuild`, `Ipv6Wire`, `DparText`,
  `DparMeaning`, `DparRows`: the same operations once more on literal bytes and literal text, without the tables,
  constants and readers of the modules above: every column of every row, every dispatch and length, every block and
  magic, what a written rule means.
- `Witnesses`, `DparWitnesses`: a concrete input for every difference listed below.

Code that updates state is a method, with its loops, on the fields and arrays the program updates; it is proved
against a function of its inputs or its old state, and the properties are proved about that function.

## Where the code differs from its description

The model follows the code. Each difference has an exact condition on the input and, in parentheses, an input.

- `nanotins/README.md` and the header comment of `spec_dag.hpp` call the graph's traversal and tables identical to
  `walk_packet`'s. `WalksAgree.WalksAgreeExactly` and `Interop.TablesAgreeExactly` say exactly when: the bytes hold at
  most 32 headers, and IPv6 extension headers do not lead to an L4 header (`Witnesses.WalksDiffer`,
  `Witnesses.HeadersExceedTheBudget`).
- Bulk tables are called identical to the serial ones; a 32-bit total of 2^32 rows or more wraps.
  `BulkIsSerial.BulkEqualsSerial` is an if-and-only-if in that bound (`Witnesses.WrappedTotal`). The ranges of
  `bulk_for_each` cover all indices exactly when `num_tasks * n` fits 64 bits (`Bulk.RangesRunEachOnce`,
  `Witnesses.RangesMissIndices`), and the window test is exact unless its 64-bit sum wraps into the window
  (`PacketTables.InWindowExactly`, `Witnesses.WindowTestWraps`). Decoding window by window is decoding the joined
  windows exactly when no frame is cut between them (`PacketTables.WindowsComposeExactly`,
  `Witnesses.CutFramesAreLost`).
- An Authentication Header with `payload_len` 0 advances 8 bytes although its header has 12
  (`DagGrammar.HeadersLieInOrder`, `Witnesses.HeadersOverlap`); `consumed` passes the end of the packet exactly when
  some header declares that it ends there (`DagGrammar.ConsumedOverrunsExactly`, `Witnesses.ConsumedOverruns`); edge
  keys are not checked for duplicates: a table is matched exactly when repeated keys have one target
  (`Dag.MatchEdgesExact`, `Witnesses.RepeatedKeysHideEdges`), and the concrete tables repeat none
  (`Dag.TablesHaveDistinctKeys`).
- SD entry and option indices are 8 bits wide (`SomeipSd.EntryIndicesExact`, `SomeipSd.OptionIndicesExact`,
  `Witnesses.EntryIndicesRepeat`, `Witnesses.OptionIndicesRepeat`), and endpoint fields may come from beyond their
  option (`SomeipSd.EndpointIsTheOptionsExactly`, `Witnesses.EndpointsReadBeyond`).
- A legacy record of 2^32 - 16 bytes or more does not fit the 32-bit length of its ref (`PcapStreaming.WindowTiles`,
  `Witnesses.RecordLengthWraps`). The options of a packet block are those behind its padded data exactly when the
  end of the data plus 4 is below 2^32 (`PcapParse.EpbOptionsTrailExactly`); above, they are taken from the block's
  start or its data (`Witnesses.EpbOptionsPrecedeTheData`) or, at one padded captured length, from behind the block
  (`PcapParse.EpbOptionsStayExactly`, `Witnesses.EpbOptionsLeaveTheBlock`).
- The run-time field reader says it mirrors the compile-time one exactly; on a signed field with its sign bit set it
  does not (`DparFields.ReadersAgree`, `Witnesses.SignedFieldsDiffer`).
- `RuleStat.matched` is described as counting packets whose predicates passed. It does so exactly when on each of
  them the region's anchor was visited and no TCP header there ends past the packet
  (`DparCounters.MatchedCountsPassesExactly`, `DparWitnesses.MatchedMissesPasses`).
- A failed load is described as leaving no rules; it leaves the earlier ones
  (`DparSessions.FailedLoadLeavesNoneExactly`, `DparWitnesses.FailedLoadKeepsRules`). A second load keeps the totals but zeroes the per-rule counters
  (`DparCounters.ReloadKeepsBalance`, `DparWitnesses.ReloadLosesRows`); what every sequence of loads and packets
  conserves is `DparSessions.SessionsConserve`. A rule keeps 16 bits of its parser's index
  (`DparSound.ParserIsTheNamedOneExactly`, `DparWitnesses.ParserIndexWraps`).
- An operand is described as decimal or 0x-hexadecimal. A leading zero makes it octal: digits are read as the decimal
  number exactly when it fits 64 bits and does not start with a zero unless it is below 8
  (`DparNumbers.DecimalExactly`, `DparWitnesses.ZeroMakesOctal`).

## Model

| member | source | states |
|---|---|---|
| Wire.ByteOrdersMirror | nanotins/include/nanotins/wire_spec.hpp:196-211 | the little-endian reading of a run of bytes is the big-endian reading of the reversed run |
| Wire.DecodeEncode | nanotins/include/nanotins/pcap_blocks.hpp:130-151 | reading back n encoded bytes gives every value below 2^(8n), in both byte orders |
| Wire.EncodeDecode | nanotins/include/nanotins/pcap_blocks.hpp:130-151 | encoding what was read gives the bytes back, in both byte orders |
| WireSpec.ReadScalarAt | nanotins/include/nanotins/wire_spec.hpp:196-211 | the shift-and-or loop on a 64-bit accumulator loses no bit and returns the word of up to 8 bytes in its byte order |
| WireSpec.ReadFieldAt | nanotins/include/nanotins/wire_spec.hpp:215-235 | every branch of the reader (byte array, bit-field, scalar) returns the meaning of the field |
| WireSpec.BitFieldsMirror | nanotins/include/nanotins/wire_spec.hpp:212-231 | a bit field of a little-endian unit is the field at the mirrored bit offset of the reversed bytes read big-endian |
| WireSpec.FlatteningPreservesMeaning | nanotins/include/nanotins/wire_spec.hpp:125-188 | for arbitrarily nested embeds the flattened list has exactly the names and values of the nested spec, each sub-spec read at the base plus the summed offsets, in the same order |
| WireSpec.FlatteningPreservesSize | nanotins/include/nanotins/wire_spec.hpp:238-248 | the size of the flattened list is the nested extent: the maximum over leaf ends and embed offset plus sub-spec size, sub-specs without fields counting nothing |
| WireSpec.FlatteningPreservesValidity | nanotins/include/nanotins/wire_spec.hpp:125-188 | flattening a spec of admissible fields gives admissible fields |
| WireSpec.MaxEndIsMaximum | nanotins/include/nanotins/wire_spec.hpp:238-248 | every field ends by the spec size and some field ends exactly there |
| WireSpec.ComputeSpecSize | nanotins/include/nanotins/wire_spec.hpp:238-248 | the running maximum computes the spec size |
| StructColumns.ShiftAt | soatins/include/soatins/bits.hpp:51-58 | the running sum of widths gives exactly the shift the spec reader derives from the bit offset, 8*unit - width - offset |
| StructColumns.PartsRecombine | soatins/include/soatins/bits.hpp:46-60 | sub-fields whose widths sum to the word recombine to exactly that word |
| StructColumns.PartsSplit | soatins/include/soatins/bits.hpp:46-60 | any values that fit their sub-fields are what splitting their combination gives: splitting and combining are inverse both ways |
| StructColumns.CombinedIsAWord | soatins/include/soatins/bits.hpp:46-47 | a combination of fitting values fits the word |
| StructColumns.StructReadsAsSpec | soatins/include/soatins/reflect.hpp:26-51 | for any packed struct, in either byte order and wherever it lies, the columns of its copied bytes equal the explicit-offset fields read in place |
| StructColumns.HeaderStructsMatchSpecs | nanotins/include/nanotins/protocols.hpp:57-125 | each of the six header structs has the size of its spec and lays out exactly the spec's fields |
| StructColumns.StructRowIsNodeRow | nanotins/include/nanotins/protocols.hpp:140-147 | the columns of an overlaid header are the row the graph decoder writes for that header |
| Interop.SharedColumns | nanotins/include/nanotins/protocol_decode.hpp:33-45 | dropping the records of other tables changes no column of the six shared tables |
| Interop.TablesAgreeExactly | nanotins/README.md:20-23 | the six tables of the two decoders agree cell by cell in every column if and only if the frame's bytes hold at most 32 headers (Ethernet, tags, IP, L4) and its IPv6 extension headers do not lead to a TCP or UDP header |
| Dag.SpecSizes | nanotins/include/nanotins/spec_dag.hpp:97-104 | the fixed header length of each of the 17 nodes is its spec size, and all its fields lie inside it |
| Dag.MatchEdgesExact | nanotins/include/nanotins/spec_dag.hpp:72-79 | for every edge table: the scan returns a node exactly when some edge carries the key to it, for all keys, if and only if edges that repeat a key carry it to the same node |
| Dag.TablesHaveDistinctKeys | nanotins/include/nanotins/spec_dag.hpp:166-189 | no concrete dispatch table repeats a key, which match_edges itself does not check |
| Dag.Walk | nanotins/include/nanotins/spec_dag.hpp:127-144 | the loop's visitor calls, consumed count and step count are those of the walk, for every packet and root |
| Dag.WalkIsUnique | nanotins/include/nanotins/spec_dag.hpp:127-144 | at most one visit sequence meets the loop-free description of the walk |
| Dag.VisitsAreTheWalk | nanotins/include/nanotins/spec_dag.hpp:124-144 | a visit sequence is the loop's if and only if it starts at the root at 0, every header fits, every step follows dispatch and advance, and it stops only where the budget, dispatch or the packet ends it |
| WalkBytes.NextOnTheWire | nanotins/include/nanotins/spec_dag.hpp:166-362 | every node dispatches, for all bytes, to the node its own bytes name: EtherTypes 0x8100, 0x88A8, 0x0800, 0x86DD, 0x88F7; protocols 6 and 17 unless a fragment offset is set; extension headers 0, 43, 44, 51, 60; port 30490 on either end; PTP message types |
| WalkBytes.MessageTypes | nanotins/include/nanotins/spec_dag.hpp:345-353 | the PTP dispatch sends each of the nine message types to its body and every other value nowhere |
| WalkBytes.LengthOnTheWire | nanotins/include/nanotins/spec_dag.hpp:191-402 | how far each header advances, as arithmetic on its bytes |
| WalkBytes.VisitsOnTheWire | nanotins/include/nanotins/spec_dag.hpp:127-145 | a sequence of visits is the walk if and only if it is the one the frame's bytes tell, header by header, told without the dispatch tables and the field reader |
| WalkBytes.SomeipIsVisitedExactly | nanotins/include/nanotins/spec_dag.hpp:314-341 | behind a visited TCP or UDP header the next visit is a SOME/IP header at its end if and only if its source or destination port is 30490, 16 bytes are left, and it is not the 32nd header |
| DagGrammar.EveryWalkIsAFrameWord | nanotins/include/nanotins/spec_dag.hpp:191-401 | on every byte string the visited nodes form a prefix of a word in Eth Vlan* (Ipv4 L4? or Ipv6 Ext* L4? or Gptp Body?)?, L4 being Tcp or Udp and an optional SomeIp |
| DagGrammar.AtMostOneRowPerLayer | nanotins/include/nanotins/spec_dag.hpp:191-401 | two headers of a packet share a layer only as VLAN tags or as extension headers: never both IPv4 and IPv6, never both TCP and UDP |
| DagGrammar.FragmentsEndTheWalk | nanotins/include/nanotins/spec_dag.hpp:217-222 | nothing follows an IPv4 or Fragment header with a nonzero fragment offset |
| DagGrammar.HeadersLieInOrder | nanotins/include/nanotins/spec_dag.hpp:96-144 | every visited header lies inside the packet, offsets climb by at least 4, and a header overlaps the next one exactly when it is an AH with payload_len 0 |
| DagGrammar.ConsumedOverrunsExactly | nanotins/include/nanotins/spec_dag.hpp:132-142 | consumed exceeds the packet if and only if some visited header's length field (IHL, TCP data offset, extension or AH length) declares an end past the packet; every header but the last ends inside it |
| DagGrammar.CapTruncates | nanotins/include/nanotins/spec_dag.hpp:90-91 | the walk is exactly the first 32 visits of the uncapped walk, which always terminates; on packets of up to 128 bytes the cap never bites |
| DagGrammar.UncappedLength | nanotins/include/nanotins/spec_dag.hpp:127-144 | the uncapped walk makes at most one visit per four bytes |
| Tables.TableSet.Append | nanotins/include/nanotins/dag_decode.hpp:47-53 | every column of the record's table gains exactly its value; every other table keeps its contents |
| Tables.TableSet.AppendAll | nanotins/include/nanotins/dag_decode.hpp:47-53 | every column keeps its old rows and gains its column of the records, in order |
| Tables.TableSet.ResizeTable | nanotins/include/nanotins/dag_bulk.hpp:132-138 | the loop over one table's columns resizes each of them and touches no other table |
| Tables.TableSet.Resize | nanotins/include/nanotins/dag_bulk.hpp:132-138 | afterwards every column has its table's total of cells: old cells that fit are where they were, new ones hold the fill value |
| Tables.AppendedTwice | nanotins/include/nanotins/dag_decode.hpp:73-83 | appending one batch of records and then another is appending both at once |
| DagDecode.DagDecodePacket | nanotins/include/nanotins/dag_decode.hpp:73-83 | the tables gain exactly one row per visit: packet id and every spec field read at the visit's offset |
| DagDecode.RowsPerPacket | nanotins/include/nanotins/dag_decode.hpp:73-83 | a packet adds at most one row to every table but VLAN and the extension headers, and at most 32 there |
| NodeBytes.RowOnTheWire | nanotins/include/nanotins/dag_decode.hpp:47-52 | every row of every node is the packet id and, in spec order, each field as the big-endian arithmetic of its own bytes |
| NodeBytes.EthRow | nanotins/include/nanotins/protocol_specs.hpp:21-24 | the Eth row of any packet, column by column, as arithmetic on the header's bytes: two addresses and the EtherType |
| NodeBytes.VlanRow | nanotins/include/nanotins/protocol_specs.hpp:27-31 | the Vlan row of any packet, column by column, as arithmetic on the header's bytes: priority, drop eligibility and id out of the tag, inner EtherType |
| NodeBytes.Ipv4Row | nanotins/include/nanotins/protocol_specs.hpp:34-48 | the Ipv4 row of any packet, column by column, as arithmetic on the header's bytes: 13 fields |
| NodeBytes.Ipv6Row | nanotins/include/nanotins/protocol_specs.hpp:50-59 | the Ipv6 row of any packet, column by column, as arithmetic on the header's bytes: 8 fields |
| NodeBytes.TcpRow | nanotins/include/nanotins/protocol_specs.hpp:61-72 | the Tcp row of any packet, column by column, as arithmetic on the header's bytes: 10 fields |
| NodeBytes.UdpRow | nanotins/include/nanotins/protocol_specs.hpp:74-79 | the Udp row of any packet, column by column, as arithmetic on the header's bytes: 4 fields |
| NodeBytes.GptpRow | nanotins/include/nanotins/protocol_specs_ptp.hpp:48-66 | the Gptp row of any packet, column by column, as arithmetic on the header's bytes: 12 fields, the last one signed |
| NodeBytes.HopByHopRow | nanotins/include/nanotins/protocol_specs.hpp:89-92 | the HopByHop row of any packet, column by column, as arithmetic on the header's bytes: 2 fields |
| NodeBytes.DestOptRow | nanotins/include/nanotins/protocol_specs.hpp:89-92 | the DestOpt row of any packet, column by column, as arithmetic on the header's bytes: 2 fields |
| NodeBytes.RoutingRow | nanotins/include/nanotins/protocol_specs.hpp:95-103 | the Routing row of any packet, column by column, as arithmetic on the header's bytes: 7 fields |
| NodeBytes.FragmentRow | nanotins/include/nanotins/protocol_specs.hpp:106-113 | the Fragment row of any packet, column by column, as arithmetic on the header's bytes: 6 fields |
| NodeBytes.AhRow | nanotins/include/nanotins/protocol_specs.hpp:116-121 | the Ah row of any packet, column by column, as arithmetic on the header's bytes: 5 fields |
| NodeBytes.SomeipRow | nanotins/include/nanotins/protocol_specs_someip.hpp:33-44 | the Someip row of any packet, column by column, as arithmetic on the header's bytes: 9 fields |
| NodeBytes.PtpTimestampBodyRow | nanotins/include/nanotins/protocol_specs_ptp.hpp:113-113 | the PtpTimestampBody row of any packet, column by column, as arithmetic on the header's bytes: the timestamp |
| NodeBytes.PtpTsPortBodyRow | nanotins/include/nanotins/protocol_specs_ptp.hpp:116-118 | the PtpTsPortBody row of any packet, column by column, as arithmetic on the header's bytes: the timestamp and the requesting port |
| NodeBytes.PtpAnnounceBodyRow | nanotins/include/nanotins/protocol_specs_ptp.hpp:121-129 | the PtpAnnounceBody row of any packet, column by column, as arithmetic on the header's bytes: timestamp, signed UTC offset, the grandmaster's columns |
| NodeBytes.PtpSignalingBodyRow | nanotins/include/nanotins/protocol_specs_ptp.hpp:132-132 | the PtpSignalingBody row of any packet, column by column, as arithmetic on the header's bytes: the target port |
| NodeBytes.ColumnsByName | nanotins/include/nanotins/protocol_specs.hpp:21-121 | the columns of every table, in order and by name, embedded sub-records with their prefixes |
| WindowWire.GraphTables | nanotins/include/nanotins/spec_dag.hpp:411-413 | each node's rows go to the table of its place in the graph: 0 for Ethernet to 16 for SOME/IP |
| Bulk.RangesRunEachOnce | nanotins/include/nanotins/bulk.hpp:22-36 | for all n and num_tasks the task ranges, computed in 64 bits, cover [0, n) exactly once if and only if num_tasks * n does not wrap; when it wraps the last index is never run |
| Bulk.RangesAreEven | nanotins/include/nanotins/bulk.hpp:28-34 | every task's range holds n / num_tasks indices or one more |
| Bulk.SerialRunsEachOnce | nanotins/include/nanotins/bulk.hpp:42-47 | the sequential executor runs each index exactly once |
| Bulk.EveryExecutorRunsEachOnce | nanotins/include/nanotins/bulk.hpp:22-47 | either executor runs each index exactly once, for any number of tasks, zero included |
| Bulk.RunningIsModular | nanotins/include/nanotins/dag_bulk.hpp:157-166 | the running 32-bit sums are the true row totals modulo 2^32 |
| BulkDecode.ExclusiveScan | nanotins/include/nanotins/dag_bulk.hpp:157-166 | from the count pass's 32-bit counts the scan gives every packet the sums of the packets before it, seeded with the table sizes, and ends at the new totals |
| BulkDecode.TaskProgram | nanotins/include/nanotins/bulk.hpp:28-34 | a task performs the writes of its packets' kernels, one after the other |
| BulkDecode.ScatterAll | nanotins/include/nanotins/dag_bulk.hpp:173-180 | running every packet's kernel on either executor, in any interleaving of its writes, fills the resized tables with every packet's records in packet order |
| BulkDecode.Execute | nanotins/include/nanotins/bulk.hpp:28-35 | running the tasks' writes to completion, any task next, ends in the serial tables |
| Scatter.PacketWritesRight | nanotins/include/nanotins/dag_bulk.hpp:89-107 | every write of a packet lands in a row of its own and writes the serial value there |
| Scatter.PacketWritesDistinct | nanotins/include/nanotins/dag_bulk.hpp:89-107 | a packet never writes a cell twice |
| Scatter.PacketWritesCover | nanotins/include/nanotins/dag_bulk.hpp:89-107 | a packet writes every cell of its rows |
| BulkIsSerial.EveryReachableStateIsOnTrack | nanotins/include/nanotins/dag_bulk.hpp:89-107 | at every state any interleaving can reach: no old row changed, the next write of each worker is in bounds and to a cell nobody wrote, every written cell already holds its serial value |
| BulkIsSerial.BulkEqualsSerial | nanotins/include/nanotins/dag_bulk.hpp:148-181 | for any starting tables, any partition over workers and any complete interleaving of cell writes, the final tables are the serial ones if and only if no table reaches 2^32 rows |
| BulkIsSerial.WrappedTotalsLoseRows | nanotins/include/nanotins/dag_bulk.hpp:157-171 | when a 32-bit total wraps, the resized tables cannot hold the serial result |
| BulkIsSerial.SchedulesFinish | nanotins/include/nanotins/bulk.hpp:22-36 | every legal schedule makes progress, and is complete exactly when it is as long as the number of cells to write |
| BulkIsSerial.SomeScheduleFinishes | nanotins/include/nanotins/bulk.hpp:22-36 | from every state there is a schedule that completes |
| BulkIsSerial.WindowsRunExactly | nanotins/include/nanotins/dag_bulk.hpp:148-150 | two windows, each run in bulk under any complete schedule, the second into what the first left, end in the serial tables of both if and only if no joint total reaches 2^32 rows |
| BulkIsSerial.KernelRowIsSlot | nanotins/include/nanotins/dag_bulk.hpp:95-106 | the row a kernel's cursor gives a record is the table's old size plus the table's records of earlier packets and of the packet so far, modulo 2^32 |
| BulkIsSerial.WritesAreRows | nanotins/include/nanotins/dag_bulk.hpp:99-106 | a packet's writes are its records in order, each whole, into the row its cursor gives it |
| BulkIsSerial.KernelRowsAreABijectionExactly | nanotins/include/nanotins/dag_bulk.hpp:89-107 | the rows the kernels write, record by record, are a bijection onto the new rows of every table if and only if no table that gains records ends with more than 2^32 rows |
| BulkIsSerial.WindowsCompose | nanotins/include/nanotins/dag_bulk.hpp:148-150 | the serial result of one list of packets and then, from there, of another is the serial result of both lists |
| Scatter.WritesConcat | nanotins/include/nanotins/dag_bulk.hpp:95-106 | scattering one batch of records and then another is scattering both, the second from where the first left the cursors |
| DagDecode.CountPacketDag | nanotins/include/nanotins/dag_bulk.hpp:51-57 | the count visitor, run over the walk, counts each node's rows of the packet, modulo 2^32 |
| DagDecode.ScatterRow | nanotins/include/nanotins/dag_bulk.hpp:78-87 | storing the packet id and every spec field of a header writes exactly the row the serial append adds |
| DagDecode.ScatterPacketDag | nanotins/include/nanotins/dag_bulk.hpp:91-107 | the scatter visitor with its cursor array writes the packet's serial rows, each to its table's next slot from the packet's base on |
| DagDecode.DagDecodeBulk | nanotins/include/nanotins/dag_bulk.hpp:148-181 | a count walk, the scan, the resize and a second, scattering walk of every packet, on either executor, append exactly the rows of dag_decode_packet on every packet in order |
| DagDecode.DagDecodeSerially | nanotins/include/nanotins/dag_decode.hpp:73-83 | so does the serial decode of every packet in order |
| DagDecode.DagBulkEqualsSerial | nanotins/include/nanotins/dag_bulk.hpp:148-181 | for every interleaving, exactly when no table reaches 2^32 rows |
| DagDecode.DagWindowsRunExactly | nanotins/include/nanotins/dag_bulk.hpp:148-150 | two windows of packets with ids of their own, decoded in bulk one after the other under any complete schedules, leave the tables of one serial decode if and only if no table reaches 2^32 rows |
| PacketWalk.WalkLink | nanotins/include/nanotins/protocol_decode.hpp:189-208 | the Ethernet and VLAN loop visits the link layer's headers; the loop has no cap |
| PacketWalk.WalkNetwork | nanotins/include/nanotins/protocol_decode.hpp:101-131 | the IP stage visits its header and reports length, discriminator and the fragment gate |
| PacketWalk.WalkTransport | nanotins/include/nanotins/protocol_decode.hpp:140-168 | the L4 stage visits its header and reports length and packed ports |
| PacketWalk.WalkPacket | nanotins/include/nanotins/protocol_decode.hpp:186-264 | the hand-written switch visits the three layers' headers in order and reports where the L4 payload starts |
| PacketWalk.NetworkRebased | nanotins/include/nanotins/protocol_decode.hpp:101-131 | an IP header parsed in the span that starts at it is the one seen from the whole packet, offsets shifted |
| PacketWalk.TransportRebased | nanotins/include/nanotins/protocol_decode.hpp:140-168 | the same for the L4 header |
| WalksAgree.Ipv4Fields | nanotins/include/nanotins/protocol_decode.hpp:218-227 | masking the struct words gives the spec fields: header length, protocol and fragment offset |
| WalksAgree.LinkIsTags | nanotins/include/nanotins/protocol_decode.hpp:193-211 | the link layer has one header more than the bytes have VLAN tags, and ends four bytes further per tag, at the type written there |
| WalksAgree.HeadersCount | nanotins/include/nanotins/protocol_decode.hpp:186-264 | walk_packet visits as many headers as can be counted on the bytes |
| WalksAgree.L4IsLedTo | nanotins/include/nanotins/spec_dag.hpp:228-308 | from a next-header byte the graph walk meets a TCP or UDP header exactly when following each extension header's own length field leads to one that fits, later fragments leading nowhere |
| WalksAgree.SameHeaders | nanotins/include/nanotins/protocol_decode.hpp:186-264 | when the bytes hold at most 32 headers and the IPv6 header announces no extension header, both walks visit the same headers at the same offsets |
| WalksAgree.PacketWalkIsAPrefixExactly | nanotins/include/nanotins/protocol_decode.hpp:186-264 | walk_packet's headers are a prefix of the graph walk's, restricted to the six shared types, if and only if the bytes hold at most 32 headers |
| WalksAgree.WalksAgreeExactly | nanotins/include/nanotins/spec_dag.hpp:6-11 | the two walks visit the same shared headers if and only if the bytes hold at most 32 headers and following the extension headers' own length fields does not lead to a TCP or UDP header that fits |
| WalksAgree.UpTo29TagsFit | nanotins/include/nanotins/protocol_decode.hpp:200-208 | a frame with at most 29 VLAN tags never exceeds the cap |
| WalksAgree.PayloadOffsetsAgree | nanotins/include/nanotins/protocol_decode.hpp:232-276 | where both walks reach L4, the graph's consumed length is walk_packet's payload offset, plus 16 exactly when a port of the L4 header, read off its bytes, is 30490, a SOME/IP header fits behind it, and the frame has fewer than 32 headers |
| WalksAgree.L4Ports | nanotins/include/nanotins/protocol_decode.hpp:136-138 | the packed ports of a frame that reaches L4 are the first four bytes of the L4 header as one big-endian word: source above destination |
| PacketTables.DecodePacket | nanotins/include/nanotins/protocol_decode.hpp:266-274 | the six tables gain one row per header walk_packet visits, in order |
| WindowWire.HeaderRow | nanotins/include/nanotins/protocol_decode.hpp:268-284 | a header's row is the packet id and the 14, 4, 20, 40, 20 or 8 bytes of its fixed part, in the table of its kind |
| WindowWire.OtherLinksHaveNoRows | nanotins/include/nanotins/protocol_decode.hpp:187-198 | a packet gives no row, and no L4 result, exactly when its link type is not 1 or it is shorter than an Ethernet header |
| PacketTables.DecodeL2 | nanotins/include/nanotins/protocol_decode.hpp:72-99 | the stage appends the link layer's rows and reports its length and ethertype |
| PacketTables.DecodeL3 | nanotins/include/nanotins/protocol_decode.hpp:101-131 | the stage appends the IP row and reports length and protocol, 0 for a later fragment |
| PacketTables.DecodeL4 | nanotins/include/nanotins/protocol_decode.hpp:140-168 | the stage appends the L4 row and reports length and packed ports |
| PacketTables.DecodeStaged | nanotins/include/nanotins/protocol_decode.hpp:67-168 | chaining the stages, each on the bytes its predecessor left, appends the rows of decode_packet; on reaching L4 the three lengths sum to l4_payload_offset, with the same ports |
| PacketTables.InWindowExactly | nanotins/include/nanotins/protocol_decode_bulk.hpp:55-57 | the 64-bit window test accepts exactly the packets that lie in the window, unless offset + size wraps to at most the window's size |
| PacketTables.CountPacket | nanotins/include/nanotins/protocol_decode.hpp:329-337 | the six count visitors count the packet's rows per table, modulo 2^32 |
| PacketTables.ScatterPacket | nanotins/include/nanotins/protocol_decode.hpp:359-395 | the six scatter visitors with their cursors write the packet's serial rows from its base on, and report walk_packet's result |
| PacketTables.CountAll | nanotins/include/nanotins/protocol_decode_bulk.hpp:46-60 | pass 1, packets in any order, fills every packet's own slot with its counts |
| PacketTables.ScatterKernels | nanotins/include/nanotins/protocol_decode_bulk.hpp:73-94 | pass 2, packets in any order, walks every packet again: its kernel writes its rows, and its trailer is its walk result |
| PacketTables.DecodeWindow | nanotins/include/nanotins/protocol_decode_bulk.hpp:35-95 | a counting pass and a second walking, scattering pass, packets in any order and writes in any interleaving, give the tables and trailers of decode_packet and walk_packet on every packet in order |
| WindowWire.WindowsAreFrames | nanotins/include/nanotins/protocol_decode_bulk.hpp:40-97 | a window made of any frames back to back: its k-th packet gives the rows and the walk result of the k-th frame alone, under packet id base + k |
| PacketTables.WindowsComposeExactly | nanotins/include/nanotins/protocol_decode_bulk.hpp:14-18 | decoding one window and then the next, ids counting on, is decoding the joined bytes, the second window's packets moved behind the first, if and only if no Ethernet frame of at least 14 bytes is cut by the first window's end and completed by the second |
| PacketTables.BatchesCompose | nanotins/include/nanotins/protocol_decode_bulk.hpp:62-71 | decoding the packets of one window in two batches, ids counting on, is decoding them in one |
| PcapBlocks.ScanState.DetectFormat | nanotins/include/nanotins/pcap_blocks.hpp:213-245 | format, byte order and link type are fixed by the leading bytes, or more bytes are asked for, or the capture is refused |
| PcapWire.DetectionOnTheWire | nanotins/include/nanotins/pcap_blocks.hpp:215-246 | the format is told by the first four bytes: 0A 0D 0D 0A, or one of the four legacy magics in the byte order they are in, with the link type at bytes 20 to 23 |
| PcapBlocks.ScanState.WalkRecords | nanotins/include/nanotins/pcap_blocks.hpp:247-258 | the legacy record loop finds every complete record and stops before an incomplete one |
| PcapWire.RecordsOnTheWire | nanotins/include/nanotins/pcap_blocks.hpp:247-258 | a legacy record at any position: 16 bytes and as many more as bytes 8 to 11 say |
| PcapBlocks.ScanState.WalkSections | nanotins/include/nanotins/pcap_blocks.hpp:259-282 | the block loop finds every complete block, a section header committing its byte order only once it fits, and stops at an invalid length |
| PcapWire.BlocksOnTheWire | nanotins/include/nanotins/pcap_blocks.hpp:259-283 | a pcapng block at any position, told on its bytes: a section header starts 0A 0D 0D 0A and is little-endian exactly when its bytes 8 to 11 are 4D 3C 2B 1A; types 1, 6 and 3 are interfaces, packets and simple packets; the length is bytes 4 to 7 |
| PcapBlocks.ScanState.Scan | nanotins/include/nanotins/pcap_blocks.hpp:207-290 | the new state, refs, consumed count and error are those of the window, refs appended to what was there |
| PcapBlocks.ScanBlocks | nanotins/include/nanotins/pcap_blocks.hpp:292-299 | one-shot scanning is one window at the end of the capture from the initial state |
| PcapWire.SmallSectionScans | nanotins/include/nanotins/pcap_blocks.hpp:202-299 | the 28-byte little-endian section header, byte by byte: one section ref of length 28, little-endian, and no error |
| PcapWire.TwelveBytes | nanotins/include/nanotins/pcap_blocks.hpp:266-272 | a block of twelve bytes, the smallest, is found; one that says 11 is invalid and one that says 13 needs more bytes |
| PcapStreaming.StreamScan | nanotins/include/nanotins/pcap_blocks.hpp:202-206 | driving scan_window over windows with the unconsumed tail carried over gives the stream's outcome |
| PcapStreaming.ScanExtends | nanotins/include/nanotins/pcap_blocks.hpp:246-282 | blocks found in a prefix of the file are found in the whole file, which goes on from where the prefix stopped |
| PcapStreaming.StreamingEqualsOneShot | nanotins/include/nanotins/pcap_blocks.hpp:202-299 | however a capture is cut into windows, the rebased refs, the error or success and the final format, byte order and link type are those of one scan_blocks call |
| PcapStreaming.WindowTiles | nanotins/include/nanotins/pcap_blocks.hpp:246-284 | the refs tile the consumed bytes without gap or overlap if and only if no legacy record's total length exceeds the 32-bit length of its ref |
| PcapStreaming.SectionsAlwaysTile | nanotins/include/nanotins/pcap_blocks.hpp:259-282 | a pcapng scan always tiles |
| PcapParse.NextOption | nanotins/include/nanotins/pcap_blocks.hpp:180-200 | an option yielded lies inside the region, and the cursor moves on to exactly the rest of it |
| PcapParse.OptionCursor.Next | nanotins/include/nanotins/pcap_blocks.hpp:180-200 | the cursor object yields that option and moves past it; a failed call leaves it alone |
| PcapParse.Signed64Exactly | nanotins/include/nanotins/pcap_blocks.hpp:302-309 | a section length is the one signed 64-bit number with the bits of its word |
| PcapOptions.NextIsWritten | nanotins/include/nanotins/pcap_blocks.hpp:181-200 | an option written as code, length, value and padding is the next one, with the rest of the region behind it |
| PcapParse.ParseIdbOptions | nanotins/include/nanotins/pcap_blocks.hpp:346-352 | the option loop returns the last if_tsresol, 6 without one |
| PcapOptions.LastResolutionWins | nanotins/include/nanotins/pcap_blocks.hpp:345-352 | for every list of options written in either byte order: if_tsresol is the first byte of the last option of code 9 that has a value, and the default without one |
| PcapParse.ParseEpbOptions | nanotins/include/nanotins/pcap_blocks.hpp:401-408 | the option loop returns the last epb_flags, 0 without one |
| PcapOptions.LastFlagsWin | nanotins/include/nanotins/pcap_blocks.hpp:401-409 | for every list of options: epb_flags is the word of the last option of code 2 with at least four bytes, and the default without one |
| PcapParse.EpbOptionsTrailExactly | nanotins/include/nanotins/pcap_blocks.hpp:391-399 | the 32-bit computation takes the options from behind the padded data, or finds that they do not fit, if and only if the unreduced end of the padded data plus 4 is below 2^32 |
| PcapParse.EpbOptionsStayExactly | nanotins/include/nanotins/pcap_blocks.hpp:391-399 | wherever the 32-bit computation takes the options from, they lie inside their block if and only if the padded captured length is not 2^32 - 32 |
| PcapBuild.Builder.Word | nanotins/tests/pcap_fixtures.hpp:31-42 | one byte per step gives the encoding of the value in the builder's byte order |
| PcapBuild.Builder.AppendBlock | nanotins/tests/pcap_fixtures.hpp:46-55 | type, total length, body, padding and total length again follow what was there |
| PcapBuild.BuildSection | nanotins/tests/pcap_fixtures.hpp:118-140 | appending the blocks of a section gives the concatenation of their encodings |
| PcapWire.SectionStarts | nanotins/tests/pcap_fixtures.hpp:57-62 | a built section header starts with the literal bytes of its type, length and byte-order magic, in either order |
| PcapRoundTrip.ShbParses | nanotins/include/nanotins/pcap_blocks.hpp:302-315 | a built section header parses to version 1.0 and section length -1, in both byte orders |
| PcapRoundTrip.IdbParses | nanotins/include/nanotins/pcap_blocks.hpp:317-354 | a built interface block parses back to its link type, snap length and timestamp resolution |
| PcapRoundTrip.EpbParses | nanotins/include/nanotins/pcap_blocks.hpp:357-410 | a built packet block parses back to its interface, timestamp, lengths, flags and exactly its payload bytes |
| PcapWire.SmallSectionParses | nanotins/include/nanotins/pcap_blocks.hpp:302-315 | the 28-byte section header parses to version 1.0 and no length |
| PcapWire.SmallInterfaceParses | nanotins/include/nanotins/pcap_blocks.hpp:317-354 | a 20-byte interface block without options parses, with resolution 6 |
| PcapWire.SmallPacketIsFound | nanotins/include/nanotins/pcap_blocks.hpp:260-281 | a 36-byte packet block, byte by byte, is found in a little-endian section |
| PcapWire.SmallPacketParses | nanotins/include/nanotins/pcap_blocks.hpp:357-410 | that packet block parses, field by field: interface 2, timestamp 3 * 2^32 + 4, captured length 4 of 5, no flags |
| PcapWire.LegacyResolution | nanotins/include/nanotins/pcap_blocks.hpp:322-336 | the interface of a legacy capture has resolution 9 behind a nanosecond magic and 6 behind a microsecond one, with the link type and snap length of its bytes |
| PcapRoundTrip.ScanAndParseUndoTheBuilder | nanotins/include/nanotins/pcap_blocks.hpp:292-410 | for any list of sections, each in its own byte order, scanning the built capture succeeds with exactly one ref per block, and every ref is classified and parses back to the block it was built from |
| PcapLegacy.BuildPcap | nanotins/tests/pcap_fixtures.hpp:131-151 | the builder's calls append the global header and every record |
| PcapLegacy.ScanAndParseUndoThePcapBuilder | nanotins/include/nanotins/pcap_blocks.hpp:213-258 | for any records, in either byte order and either timestamp resolution, scanning the built legacy capture succeeds with one interface ref and one ref per record, and every ref parses back to what it was built from |
| Tlv.TlvCursor.Next | nanotins/include/nanotins/tlv.hpp:49-93 | in all three modes the cursor yields the next record and moves past it, or fails and stays |
| Tlv.RecordOnTheWire | nanotins/include/nanotins/tlv.hpp:52-93 | a record is yielded, in each of the three modes, if and only if it is the one its bytes tell: kind, length byte (in IPv4 counting its own two bytes) and value inside the region, or a marker |
| Tlv.TlvCount | nanotins/include/nanotins/tlv.hpp:96-107 | the count is the number of records the cursor yields, modulo 2^32 |
| Tlv.Collect | nanotins/include/nanotins/tlv.hpp:96-107 | a cursor loop yields exactly the records of the region, in order, and terminates |
| Tlv.ItemsAreTheRecords | nanotins/include/nanotins/tlv.hpp:49-93 | every value range yielded lies inside the region |
| Tlv.DecodeUndoesEncode | nanotins/include/nanotins/tlv.hpp:49-93 | encoding any valid records and walking the bytes returns the same list, in all three modes; padding may follow an end-of-list marker |
| Tlv.EncodeUndoesDecode | nanotins/include/nanotins/tlv.hpp:49-93 | the yielded records are valid and re-encode to exactly the bytes up to where the walk stopped |
| Tlv.OnWireLengthsAddUp | nanotins/include/nanotins/ipv4_children.hpp:79-85 | the on-wire IPv4 option lengths sum to the bytes the walk covered |
| Ipv4Options.ForEachIpv4Opt | nanotins/include/nanotins/ipv4_children.hpp:63-86 | the traversal reports the options between the fixed header and the declared end, clamped to the packet; none for IHL of at most 5 |
| Ipv4Options.OptionsOnTheWire | nanotins/include/nanotins/ipv4_children.hpp:67-84 | the options end where the low half of the header's first byte says, in words; each is reported with its type and its own length byte, a marker with 1 |
| Ipv4Options.ReportedLengthsAddUp | nanotins/include/nanotins/ipv4_children.hpp:79-85 | the reported lengths sum to the option bytes walked and never exceed the option space |
| SomeipTlv.SomeipTlvCursor.Next | nanotins/include/nanotins/someip_tlv.hpp:78-119 | the cursor yields the next member and moves past it, or fails and stays |
| SomeipTlv.MemberOnTheWire | nanotins/include/nanotins/someip_tlv.hpp:78-119 | for every region and position: wire types 0 to 3 yield values of 1, 2, 4 and 8 bytes, 5 to 7 values as long as their 1, 2 or 4 length bytes say, each only if it fits, and 4 nothing; id and type are the tag's bits |
| SomeipTlv.SomeipTlvCount | nanotins/include/nanotins/someip_tlv.hpp:122-132 | the count is the number of members the cursor yields, modulo 2^32 |
| SomeipTlv.DecodeUndoesEncode | nanotins/include/nanotins/someip_tlv.hpp:81-119 | encoding any valid members and walking the bytes returns the same list |
| SomeipTlv.MembersOfItems | nanotins/include/nanotins/someip_tlv.hpp:78-119 | the members yielded from any encoded items have the items' ids, types and lengths, and start where the encoding put their values |
| SomeipTlv.EncodeUndoesDecode | nanotins/include/nanotins/someip_tlv.hpp:81-119 | the yielded members are valid and re-encode, up to the reserved bit of each tag, to exactly the bytes up to where the walk stopped |
| Ipv6Children.Segments | nanotins/include/nanotins/ipv6_children.hpp:81-93 | exactly min(last_entry + 1, whole segments that fit) segments, in order, 16 bytes apart, each inside the packet |
| Ipv6Children.ForEachSrhChild | nanotins/include/nanotins/ipv6_children.hpp:77-102 | the loop visits exactly those segments, then the TLVs behind the declared list |
| Ipv6Wire.RoutingBytes | nanotins/include/nanotins/ipv6_children.hpp:80-101 | the segments visited are as many as byte 4 plus one declares and the header, 8 times byte 1 plus one long, has room for; the TLVs lie behind the declared ones |
| Ipv6Wire.SrhRoundTrip | nanotins/include/nanotins/ipv6_children.hpp:77-103 | a routing header written with any segments and TLVs: reading it gives all of them back, in order |
| Ipv6Children.TlvsNeedAllSegments | nanotins/include/nanotins/ipv6_children.hpp:94-101 | TLVs are visited only if every declared segment was |
| Ipv6Children.ForEachOpt | nanotins/include/nanotins/ipv6_children.hpp:105-122 | the options of the header up to its declared end, clamped to the packet |
| Ipv6Wire.ExtensionBytes | nanotins/include/nanotins/ipv6_children.hpp:110-116 | the options end 8 times byte 1 plus one behind the header's start, or with the packet |
| Ipv6Wire.OptionsRoundTrip | nanotins/include/nanotins/ipv6_children.hpp:107-124 | an options header written with any options: reading it gives all of them back, in order |
| Ipv6Children.CollectKids | nanotins/include/nanotins/ipv6_children.hpp:188-226 | one walk yields the child rows of both tables, in emit order |
| Ipv6Wire.KidsOnTheWire | nanotins/include/nanotins/ipv6_children.hpp:127-142 | the child rows of any header: segment rows with packet, order, index and address; option rows with packet, container 43, 0 or 60, type and length; none for other headers |
| Ipv6Children.OrdersCountHeaders | nanotins/include/nanotins/ipv6_children.hpp:194-198 | srh_order is the number of routing headers before this one in the packet; it never wraps |
| Ipv6Wire.OrderIsRank | nanotins/include/nanotins/ipv6_children.hpp:237-245 | the order of a routing header is the number of routing headers visited before it |
| Ipv6Children.KidsAreByVisit | nanotins/include/nanotins/ipv6_children.hpp:188-226 | the child rows are exactly each visited header's own rows, without the running counter |
| Ipv6Children.DagDecodeWithChildren | nanotins/include/nanotins/ipv6_children.hpp:231-250 | node rows and child rows of one packet are appended together |
| Ipv6Children.AddSegments | nanotins/include/nanotins/ipv6_children.hpp:125-133 | the serial callback adds, column by column, the rows the scatter stores |
| Ipv6Children.CountPacketIpv6Children | nanotins/include/nanotins/ipv6_children.hpp:155-170 | the count walk's two counters are the packet's rows in the two child tables, modulo 2^32 |
| Ipv6Children.ScatterSegments | nanotins/include/nanotins/ipv6_children.hpp:199-207 | four stores per segment, each segment in the next row, are the serial rows |
| Ipv6Children.ScatterOptions | nanotins/include/nanotins/ipv6_children.hpp:208-223 | four stores per option are the serial rows |
| Ipv6Children.ScatterPacketIpv6Children | nanotins/include/nanotins/ipv6_children.hpp:188-226 | the scatter walk with its two cursors and its routing-header count writes the packet's serial child rows |
| Ipv6Children.Ipv6ChildrenBulk | nanotins/include/nanotins/ipv6_children_bulk.hpp:26-67 | count walk, scan, resize and scatter walk leave both child tables, grown together, as if every packet's children were appended in order |
| Ipv6Children.Ipv6BulkEqualsSerial | nanotins/include/nanotins/ipv6_children_bulk.hpp:23-67 | for every partition and interleaving, exactly when neither table reaches 2^32 rows |
| SomeipSd.ForEachSdChild | nanotins/include/nanotins/someip_sd.hpp:140-196 | the traversal visits exactly the whole entries and the options of the message, both clamped to the message and the packet; nothing for a message that is not SD |
| SdWire.RegionOnTheWire | nanotins/include/nanotins/someip_sd.hpp:144-163 | a discovery message is one whose first four bytes are FF FF 81 00; its end is 8 bytes behind its length word's count, its entries are counted by bytes 20 to 23 |
| SdWire.OptionsOnTheWire | nanotins/include/nanotins/someip_sd.hpp:175-183 | the options are counted by the word behind the declared entries |
| SdBuild.SdRoundTrip | nanotins/include/nanotins/someip_sd.hpp:141-196 | a message written with any entries and options, anywhere in a packet: both are found again, all of them, in order and in place |
| SomeipSd.WalkOptions | nanotins/include/nanotins/someip_sd.hpp:184-195 | the option loop yields the options from the array's start on |
| SdWire.OptionsAreBytes | nanotins/include/nanotins/someip_sd.hpp:185-195 | each option is found with the length its first two bytes and the type its third byte give, right behind the one before |
| SdBuild.OptionsUndo | nanotins/include/nanotins/someip_sd.hpp:184-196 | any list of options written back to back is read back |
| SomeipSd.OptionsAreTheChain | nanotins/include/nanotins/someip_sd.hpp:184-195 | a list is the loop's options if and only if it is the chain described declaratively: back to back, each inside the array, stopping only where the next does not fit |
| SomeipSd.OptionsNeedAllEntries | nanotins/include/nanotins/someip_sd.hpp:173-177 | options are visited only behind a complete declared entries array and a length word that fits |
| SomeipSd.EntryIndicesExact | nanotins/include/nanotins/someip_sd.hpp:168-171 | the stored 8-bit entry indices are the true ones if and only if the clamped array is shorter than 257 entries |
| SomeipSd.OptionIndicesExact | nanotins/include/nanotins/someip_sd.hpp:184-195 | the stored 8-bit option indices are the true ones if and only if the array does not hold 257 options, followed by their own length fields |
| SomeipSd.SdDecodeEndpoint | nanotins/include/nanotins/someip_sd.hpp:105-131 | address, protocol and port of an endpoint option, all zero for other or truncated ones |
| SdWire.OtherKindsHaveNone | nanotins/include/nanotins/someip_sd.hpp:109-118 | an option of any other type has address, protocol and port zero |
| SdWire.EndpointRoundTrip | nanotins/include/nanotins/someip_sd.hpp:105-131 | for each of the six endpoint kinds and every address, protocol and port: decoding the written option gives exactly them, an IPv4 address followed by zeros |
| SomeipSd.EndpointIsTheOptionsExactly | nanotins/include/nanotins/someip_sd.hpp:105-131 | an endpoint depends on its option's bytes alone if and only if the option is no endpoint, is long enough to hold one, the packet is too short for one, or every byte the decoder would store is zero: reads are bounded by the packet, not the option |
| SomeipSd.CollectSdKids | nanotins/include/nanotins/someip_sd.hpp:270-320 | one walk yields the entry and option rows of every SD message |
| SdWire.SdKidsAreTheLast | nanotins/include/nanotins/someip_sd.hpp:199-245 | a packet's discovery rows are those of the SOME/IP header its walk ends with, and without one there are none |
| SdWire.MessageRows | nanotins/include/nanotins/someip_sd.hpp:141-196 | a message's rows: one per whole entry of the declared array inside the message, numbered modulo 256, and then one per option |
| SomeipSd.DagDecodeWithSd | nanotins/include/nanotins/someip_sd.hpp:322-337 | node rows and SD rows of one packet are appended together |
| SomeipSd.AddEntry | nanotins/include/nanotins/someip_sd.hpp:199-203 | the serial add of an entry, every field read by its name, is the row the scatter stores |
| SdWire.EntryRow | nanotins/include/nanotins/someip_sd.hpp:282-296 | the twelve columns of an entry's row as arithmetic on its sixteen bytes |
| SomeipSd.AddOption | nanotins/include/nanotins/someip_sd.hpp:204-212 | the serial add of an option with its decoded endpoint is the row the scatter stores |
| SdWire.EndpointRow | nanotins/include/nanotins/someip_sd.hpp:298-312 | the seven columns of a written IPv4 endpoint's row |
| SomeipSd.CountPacketSdChildren | nanotins/include/nanotins/someip_sd.hpp:228-241 | the count walk's two counters are the packet's entries and options, modulo 2^32 |
| SomeipSd.StoreEntry | nanotins/include/nanotins/someip_sd.hpp:282-297 | the twelve stores of an entry write exactly its serial row |
| SomeipSd.StoreOption | nanotins/include/nanotins/someip_sd.hpp:298-313 | the seven stores of an option write exactly its serial row |
| SomeipSd.ScatterPacketSdChildren | nanotins/include/nanotins/someip_sd.hpp:270-316 | the scatter walk with its two cursors writes the packet's serial child rows from its bases on |
| SomeipSd.SomeipSdBulk | nanotins/include/nanotins/someip_sd_bulk.hpp:26-91 | count walk, scan, resize and scatter walk leave all 19 columns as if every packet's children were appended in order |
| SomeipSd.SdBulkEqualsSerial | nanotins/include/nanotins/someip_sd_bulk.hpp:23-91 | for every partition and interleaving, exactly when neither table reaches 2^32 rows |
| DparFields.ReadFieldRuntime | nanotins/include/nanotins/dpar.hpp:88-109 | the loop and the shift-and-mask read the field location's value |
| DparFields.ReadersAgree | nanotins/include/nanotins/dpar.hpp:87-109 | the run-time reader equals the compile-time one on every unsigned field of either byte order; on a signed field it returns the raw word, equal exactly when the sign bit is clear and otherwise 2^width apart |
| DparFields.BuildCatalog | nanotins/include/nanotins/dpar.hpp:143-184 | the two loops build the catalog that CatalogIsComplete and CatalogOk describe |
| DparFields.CatalogOk | nanotins/include/nanotins/dpar.hpp:143-184 | every entry names a field of its node, and its location lies inside that node's header |
| DparFields.CatalogIsComplete | nanotins/include/nanotins/dpar.hpp:143-184 | every scalar and bit field of every node, embedded ones included, has its entry |
| DparFields.NamesAreDistinct | nanotins/include/nanotins/dpar.hpp:174-180 | no two nodes share a name |
| FieldTags.NodeTagsAreDistinct | nanotins/include/nanotins/protocol_specs.hpp:21-123 | no two fields of a node, those of embedded sub-records included, share a name |
| DparFields.FindField | nanotins/include/nanotins/dpar.hpp:187-195 | an entry found has both names asked for; none is found exactly when there is none |
| DparFields.EveryFieldIsFound | nanotins/include/nanotins/dpar.hpp:187-195 | looking up a scalar or bit field by the names of its node and itself finds exactly its own node and location |
| DparFields.AnchorsResolve | nanotins/include/nanotins/dpar.hpp:266-273 | a string resolves exactly when it is one of the 17 node names, and then to that node's own id |
| DparText.NamesResolve | nanotins/include/nanotins/dpar.hpp:266-274 | each of the 17 names resolves to its own node, and no other name does |
| DparMatch.AnchorsAreTheRegions | nanotins/include/nanotins/dpar.hpp:257-273 | each of the five regions' anchor names resolves to the node the region needs |
| DparRules.Tokenize | nanotins/include/nanotins/dpar.hpp:220-237 | the two scanning loops split a line into its blank-separated words |
| DparText.TokensUndoSpacing | nanotins/include/nanotins/dpar.hpp:216-238 | words separated and surrounded by any runs of blanks, tabs and carriage returns are the tokens |
| DparRules.ParseConditions | nanotins/include/nanotins/dpar.hpp:324-380 | the loop reports no error exactly when every condition is right, and then returns them and the token after them |
| DparRules.ParseTail | nanotins/include/nanotins/dpar.hpp:382-439 | arrow, parser, region and label, with no error exactly when all are right |
| DparRules.ParseRule | nanotins/include/nanotins/dpar.hpp:314-443 | a rule line yields a rule exactly when no error was found in it |
| DparRules.RulesAreByLine | nanotins/include/nanotins/dpar.hpp:284-293 | there are rules exactly when every line is right, and then each is its own line's |
| DparRules.CompileRules | nanotins/include/nanotins/dpar.hpp:294-451 | all or nothing: success exactly when no error was collected, with the rules of the lines in order, and no rules otherwise; the line numbers reported are those of exactly the lines that hold a wrong rule |
| DparText.CommentsChangeNothing | nanotins/include/nanotins/dpar.hpp:310-312 | inserting a blank line or a # comment anywhere between the lines of a file changes no rule and no number |
| DparSound.CompiledRulesAreOk | nanotins/include/nanotins/dpar.hpp:284-451 | when any text compiles, whatever the palette, rule i has id i, 1 to 6 conditions on catalog fields with operands that fit, an existing parser and the region's own anchor |
| DparText.SixConditionsAtMost | nanotins/include/nanotins/dpar.hpp:324-380 | a rule whose parts are all right compiles if and only if it has at most six conditions |
| DparText.LabelAndNumber | nanotins/include/nanotins/dpar.hpp:319-322 | a rule is numbered by its place and keeps the first 31 characters of its label |
| DparText.OperandFitsExactly | nanotins/include/nanotins/dpar.hpp:352-358 | an operand is accepted for a field, of any width, byte order or bit position, if and only if some header gives the field that value |
| DparText.RegionsByName | nanotins/include/nanotins/dpar.hpp:257-264 | a text names a region if and only if it is that region's own name |
| DparNumbers.DecimalExactly | nanotins/include/nanotins/dpar.hpp:248-255 | a text of decimal digits is read as the number it says if and only if that number is below 2^64 and, when the text starts with a zero, below 8 |
| DparNumbers.DecimalRoundTrip | nanotins/include/nanotins/dpar.hpp:248-255 | every 64-bit number written in decimal is read back |
| DparNumbers.HexRoundTrip | nanotins/include/nanotins/dpar.hpp:248-255 | every 64-bit number written in hexadecimal behind 0x is read back |
| DparSound.ParserIsTheNamedOneExactly | nanotins/include/nanotins/dpar.hpp:392-410 | the parser a rule selects is the one its line names if and only if that one is among the first 65536 of the palette |
| DparSound.TokensUndoJoin | nanotins/include/nanotins/dpar.hpp:220-237 | tokenizing words joined by spaces gives the words back |
| DparSound.LinesUndoJoin | nanotins/include/nanotins/dpar.hpp:302-307 | splitting joined lines gives the lines back |
| DparSound.RuleParses | nanotins/include/nanotins/dpar.hpp:314-443 | the tokens of a meaningful rule denote that rule |
| DparSound.CompileUndoesWriting | nanotins/include/nanotins/dpar.hpp:284-451 | compiling a file of written rules succeeds and gives exactly the rules written, numbered in file order |
| DparMatch.CompiledRulesAreRunnable | nanotins/include/nanotins/dpar.hpp:284-451 | whatever text the rules come from, every condition reads inside its node's header and every anchor is the node its region needs |
| DparMatch.RecordWalk | nanotins/include/nanotins/dpar.hpp:532-538 | the two arrays say, for every node, whether it was visited and where its last visit was |
| DparMatch.EvalConditions | nanotins/include/nanotins/dpar.hpp:544-556 | the loop answers whether all conditions hold on the last visited instances, and never reads outside the packet |
| DparMeaning.ComparesAsWritten | nanotins/include/nanotins/dpar.hpp:239-246 | the five comparator texts are all there are, and each compares with the interval it is written for: [k,k], [0,k), (k,..), [0,k], [k,..) |
| DparMeaning.OneTextPerOp | nanotins/include/nanotins/dpar.hpp:239-246 | only a comparator's own text is read as it |
| DparMeaning.WrittenConditionMeans | nanotins/include/nanotins/dpar.hpp:544-556 | a condition written as node, field, comparator text and number holds of a packet if and only if the node was visited and the spec reader's value of the field at its last visit (the raw word of a signed field) lies in the comparator's interval |
| DparMatch.Region | nanotins/include/nanotins/dpar.hpp:467-517 | a region that resolves lies inside the packet |
| DparMatch.RegionFailsOnlyPastTheEnd | nanotins/include/nanotins/dpar.hpp:508-510 | a region fails to resolve exactly when its anchor was not visited or a TCP header claims to end past the packet |
| DparMatch.ResolveRegion | nanotins/include/nanotins/dpar.hpp:467-517 | the switch resolves to the bytes behind the anchor's header: its begin is the anchor's offset plus the graph's own advance |
| DparMeaning.RegionOnTheWire | nanotins/include/nanotins/dpar.hpp:467-517 | the region handed over, begin and end, as arithmetic on the bytes at the anchor's last visit; a SOME/IP region ends where its length word says, clamped |
| DparMatch.FiringsAreExact | nanotins/include/nanotins/dpar.hpp:519-574 | exactly the rules fire whose conditions all hold on the last visited instances and whose region resolves, each once and in rule order, each region inside the packet and starting where the anchor's last header ends |
| DparMeaning.WrittenRuleFires | nanotins/include/nanotins/dpar.hpp:540-562 | a written rule fires if and only if each of its conditions is true of the packet, told without the comparison, and its region's anchor was visited and the payload starts inside the packet |
| DparMeaning.WrittenRulesFire | nanotins/include/nanotins/dpar.hpp:525-575 | for every file of written rules and every packet: compiling the file and running it fires exactly the rules that are true of the packet, each once and in file order, each with the payload its region names |
| DparEngine.Palette.EmitSomeip | nanotins/include/nanotins/dpar_palette.hpp:66-83 | one row per member of the region, numbered, value offsets relative to the region, appended to the table; returns their number |
| DparEngine.Palette.EmitRaw | nanotins/include/nanotins/dpar_palette.hpp:86-102 | one numbered row per raw record of the region |
| DparEngine.Palette.Emit | nanotins/include/nanotins/dpar_palette.hpp:117-148 | the selected parser's rows and no others are appended; an unknown kind adds none |
| DparRows.RawRowsUndoWriting | nanotins/include/nanotins/dpar_palette.hpp:88-101 | raw records written in a region: a row each, with packet, rule, place, type and length |
| DparRows.SomeipRowsUndoWriting | nanotins/include/nanotins/dpar_palette.hpp:66-84 | SOME/IP members written in a region: a row each, with packet, rule, place, id, wire type, length and the offset at which the value starts |
| DparRows.ParsersByName | nanotins/include/nanotins/dpar_palette.hpp:68-91 | someip_tlv is parser 0 and raw_tlv parser 1, and no other name is one |
| DparEngine.Match | nanotins/include/nanotins/dpar.hpp:541-564 | a span is handed over exactly when the rule fires, and it is the rule's region |
| DparEngine.Engine.constructor | nanotins/include/nanotins/dpar_palette.hpp:162-163 | a fresh engine has the graph's catalog, no rules, empty tables and zero counters |
| DparEngine.Engine.LoadRules | nanotins/include/nanotins/dpar_palette.hpp:165-174 | success replaces the rules and zeroes the per-rule counters alone; failure changes nothing, earlier rules included |
| DparEngine.Engine.Fire | nanotins/include/nanotins/dpar.hpp:565-570 | one firing adds its rows to table, total and its rule, and one match to its rule, never outside per_rule |
| DparEngine.Engine.Run | nanotins/include/nanotins/dpar.hpp:522-575 | one packet changes counters and tables exactly by its firings, in order; without rules it changes nothing |
| DparCounters.RowsAreConserved | nanotins/include/nanotins/dpar.hpp:198-209 | over every run of a freshly loaded engine: total table rows = rows_emitted = sum over rules; rows with rule_id r = per_rule[r].rows_emitted; rules_evaluated = packets_seen * rules; packets_matched_any at most packets_seen and at most the sum of matched |
| DparCounters.CountersAreExact | nanotins/include/nanotins/dpar.hpp:519-575 | after any run per_rule[r].matched is the number of packets rule r fired on, packets_matched_any the number some rule fired on, packets_seen the number of packets |
| DparCounters.FireCountIsPassCount | nanotins/include/nanotins/dpar.hpp:541-567 | a rule never fires on more packets than its conditions pass on, and on as many exactly when each of those packets was visited at the anchor with no TCP header declaring an end past the packet |
| DparCounters.MatchedCountsPassesExactly | nanotins/include/nanotins/dpar.hpp:199-199 | after any run per_rule[r].matched counts the packets whose predicates all passed, as it says, if and only if on each of them the region's anchor was visited and no TCP header there declared an end past the packet |
| DparCounters.CompiledRulesCount | nanotins/include/nanotins/dpar_palette.hpp:165-184 | both hold for the rules any text compiles to |
| DparCounters.ReloadKeepsBalance | nanotins/include/nanotins/dpar_palette.hpp:167-174 | a second load keeps the sum of the per-rule counters equal to the rows in the tables if and only if no row had been emitted before it |
| DparSessions.Play | nanotins/include/nanotins/dpar_palette.hpp:156-189 | the engine's methods, called in any order, are the session's events |
| DparSessions.FailedLoadLeavesNoneExactly | nanotins/include/nanotins/dpar_palette.hpp:165-174 | a failed load changes nothing, and so leaves no rules if and only if there were none |
| DparSessions.SessionsConserve | nanotins/include/nanotins/dpar.hpp:198-209 | over every sequence of loads, failed ones included, and packets: table rows = rows_emitted; per-rule counters = rows added since the last load, in all and rule by rule; packets_seen and rules_evaluated count the packets fed under rules and the rules they met |
| DparSessions.SessionsCount | nanotins/include/nanotins/dpar.hpp:198-209 | over every such sequence per_rule[r].matched is the number of packets rule r fired on since it was loaded |
| Witnesses.WalksDiffer | nanotins/include/nanotins/spec_dag.hpp:6-11 | a 70-byte frame (Ethernet, IPv6, Hop-by-Hop, UDP) on which the two walks and the six tables differ |
| Witnesses.HeadersExceedTheBudget | nanotins/include/nanotins/spec_dag.hpp:90-91 | a frame of 32 VLAN tags has 33 headers: walk_packet's are no prefix of the graph's, and the tables differ |
| Witnesses.HeadersOverlap | nanotins/include/nanotins/spec_dag.hpp:96-144 | a frame whose AH has payload_len 0: the next visit starts four bytes inside it |
| Witnesses.ConsumedOverruns | nanotins/include/nanotins/spec_dag.hpp:132-142 | a 34-byte frame with IHL 15 of which more than 34 bytes are consumed |
| Witnesses.RepeatedKeysHideEdges | nanotins/include/nanotins/spec_dag.hpp:72-79 | a table with a repeated key whose first edge is never taken |
| Witnesses.SignedFieldsDiffer | nanotins/include/nanotins/dpar.hpp:87-109 | a gPTP header whose last byte is 255: one reader says -1, the other 255 |
| Witnesses.EpbOptionsLeaveTheBlock | nanotins/include/nanotins/pcap_blocks.hpp:391-399 | a captured length that puts the option region behind its block |
| Witnesses.EpbOptionsPrecedeTheData | nanotins/include/nanotins/pcap_blocks.hpp:391-399 | captured lengths at which the options are read from the block's own type word, or from where its data starts |
| Witnesses.EntryIndicesRepeat | nanotins/include/nanotins/someip_sd.hpp:168-171 | a discovery message of 257 entries whose last is stored with index 0 |
| Witnesses.OptionIndicesRepeat | nanotins/include/nanotins/someip_sd.hpp:184-195 | 257 empty options, the last stored with index 0 |
| Witnesses.EndpointsReadBeyond | nanotins/include/nanotins/someip_sd.hpp:105-131 | a 4-byte endpoint option whose protocol is read from behind it |
| Witnesses.WrappedTotal | nanotins/include/nanotins/dag_bulk.hpp:157-171 | an Ethernet table of 2^32 - 1 rows and one more frame: a complete bulk run over the graph's tables does not leave the serial tables |
| Witnesses.CutFramesAreLost | nanotins/include/nanotins/protocol_decode_bulk.hpp:55-57 | a 14-byte frame of which the window holds 10 bytes: decoding both windows apart is not decoding their bytes joined |
| Witnesses.RecordLengthWraps | nanotins/include/nanotins/pcap_blocks.hpp:247-258 | a legacy record of 2^32 - 16 bytes, whose ref has length 0 and does not tile |
| Witnesses.RangesMissIndices | nanotins/include/nanotins/bulk.hpp:29-30 | two tasks over 2^63 indices that do not run all of them |
| Witnesses.WindowTestWraps | nanotins/include/nanotins/protocol_decode_bulk.hpp:55-57 | a packet at offset 2^64 - 1 that passes the test of every window |
| DparWitnesses.TextCompiles | nanotins/include/nanotins/dpar.hpp:284-451 | a rule text over the graph's own catalog and the built-in palette compiles, for each of the five regions, to the rule it says |
| DparWitnesses.DecimalPortRule | nanotins/include/nanotins/dpar.hpp:454-556 | for each of the five comparators, every number below 65536 in decimal and every port: the rule on udp.dst_port, compiled from its text, fires on a UDP frame to that port if and only if the port lies in the comparator's interval |
| DparWitnesses.AboveSystemPorts | nanotins/include/nanotins/dpar.hpp:454-556 | udp.dst_port > 1023 fires on frames to ports 5353 and 1024, and not on frames to 53 and 1023 |
| DparWitnesses.ZeroMakesOctal | nanotins/include/nanotins/dpar.hpp:248-255 | the operand 010 is read as 8, 08 is rejected, and -1 is read as 2^64 - 1 |
| DparWitnesses.FailedLoadKeepsRules | nanotins/include/nanotins/dpar_palette.hpp:165-174 | after a rule text and then a text that does not compile, the rules in force are the first text's |
| DparWitnesses.ParserIndexWraps | nanotins/include/nanotins/dpar.hpp:392-410 | a palette of 65537 parsers and a line naming the last: the rule selects the first |
| DparWitnesses.MatchedMissesPasses | nanotins/include/nanotins/dpar.hpp:199-199 | an ARP frame that passes a rule's only predicate while its matched counter stays 0 |
| DparWitnesses.ReloadLosesRows | nanotins/include/nanotins/dpar_palette.hpp:167-174 | one packet, one row, and a second load: the tables no longer hold what the per-rule counters say |

## Left out

- PcapParse.ParseEpb: the flags of a packet block are given only when the option loop stays inside the file; what lies behind a mapped file is not part of this model.
- PcapRoundTrip.EpbParses: the captured length equals the data length, as every packet the builder's callers build has it; the parser itself does not compare the captured length with the block's.
- BulkDecode.Execute: a worker's writes are single column cells and are not torn; memory ordering between threads is not modelled beyond the scheduler's promise that every index runs once.
- DagDecode.DagDecodeBulk: stated for totals below 2^32 rows and `num_tasks * n` below 2^64, the exact bounds of BulkEqualsSerial and RangesRunEachOnce. The same holds for DecodeWindow, Ipv6ChildrenBulk and SomeipSdBulk.
- PacketTables.DecodeWindow: no packet's 64-bit `offset + size` wraps into the window (InWindowExactly); a packet for which it does is not one of the window's.
- Ipv6Children.DagDecodeWithChildren: node rows and child rows are appended one after the other instead of visit by visit; the two sets of tables share no column. The same holds for DagDecodeWithSd.
- DparRules.CompileRules: error texts are reduced to a line number and the kind of problem, and a condition that is wrong in another way does not count towards the maximum of six.
- DparRules.ParseConditions: the number parser of operands is a parameter, any partial function to natural numbers; the program's own, `strtoull` with base 0 in the C locale, is `DparNumbers.ParseU64`.
- DparSound.CompileUndoesWriting: labels and operands contain no blank, because the tokenizer splits a quoted label at blanks.
- DparEngine.Engine.Run: the 64-bit counters are unbounded integers, and the palette is the built-in one of two kinds.
- DparCounters.CountersAreExact: rule ids are stored in 32 bits; the counters are per rule for up to 2^32 rules.
- Visitors and callbacks are modelled as the sequence of calls made, since they do nothing but append or write.
- Pointer arithmetic is on unbounded offsets; wrap-around of host pointers is not modelled.
- Arrow and nanoarrow export, file reading, command-line programs, NDJSON printing and reflection plumbing are not part of this model.
- The bulk form of the IPv4 option rows, the LLDP and OddTlv parser kinds, and the gPTP overlay reader repeat in a weaker form what the IPv6, SD and cursor models prove.
- `parse_epbs_bulk`, `parse_shb`'s options and fixed-capacity sinks add nothing beyond the parsers and the pipeline above.
