# Gossiping: a model of its codecs, its replicated store, its collector and its membership

A node keeps a map from job names to entries, each saying which targets the job probes. Entries travel as protobuf
messages, singly by broadcast or all together by push/pull, and the newer entry of a name wins. A collector starts
and stops tasks so that they match the stored entries. Beside this a node keeps the book of its peers, and sends
broadcasts through a bounded queue.

The model follows the layers from the bytes up. Where the program changes things step by step, the model is a method
or a class whose contract ties it to a function; what the program promises is then proved of that function.

| module | what it models |
|---|---|
| Base | fixed-width integers, byte strings, the optional value |
| Varint | base 128 varints: writer, size, decode loop |
| Skip, Groups | the skipper of unknown fields and the wire grammar it accepts; the skipper that the standard asks for |
| Message | tags, records, unknown fields, the decode loop in general, backward writing |
| ClusterPb, ClusterRoundTrip | Part and FullState: writers, decoders, round trips, "Last One Wins" |
| TargetPb, TargetRoundTrip | Targetgroup and MeshEntry: wire form and decoders as functions, and the round trips |
| TargetCodec, MeshCodec | their writers, sizes and decode loops |
| TargetMerge | "Last One Wins" for them |
| Acceptance, WireExamples, Calendar | which bytes each message accepts and what it makes of them, told over the wire grammar; messages byte for byte; the years of valid instants |
| Framing | streams of entries, each behind its length |
| Panics | when decoding panics |
| NoGrowth, Growth | when an entry gets no longer by being decoded and written again, and how much longer it can get |
| Lww, Replicas | the merge as a function, and any number of replicas that gossip |
| Fnv, TaskKey | FNV-1a and the key of a task |
| Collector | the running tasks of each job, and Coordinate |
| Store | the replicated store with the collector among its callbacks |
| Delegate, PushPull | dispatch by key, and what a state does when its bytes arrive |
| Membership, History, Fates, Duplicates | the events on the book of peers as functions; what the book says and whom it lists, told from the history of events and their times; when the list names a peer twice |
| Peer | the same on a Go map and a Go slice in memory |
| Channel, Broadcasts | the broadcast queue, its worker and its counters; the same told from the events of a run |

The main results, bottom to top:

- `skip` stops inside a buffer exactly behind one well-formed field (Skip.SkipExact). So unknown fields are kept
  whole, each message accepts exactly certain sequences of fields (Acceptance.MeshAccepts), accepted bytes may be
  re-encoded without growing or losing anything (ClusterRoundTrip.PartReencode), and decoding is compositional
  (ClusterRoundTrip.PartLastOneWins).
- An entry survives the trip through bytes in whatever order its labels were iterated (TargetRoundTrip.MeshRoundTrip).
- Push/pull is a join, from store to bytes to store (PushPull.Exchange), and in every run of broadcasts and late,
  repeated or reordered deliveries replicas that know of the same entries agree on all times, and on all entries if
  name and time identify an entry (Replicas.Converge).
- Unless some task was refused, the tasks that run are exactly those the store asks for (Store.Store.Merge), so nodes
  whose stores agree run the same (PushPull.AgreeingNodes); and no task is started or stopped twice
  (Collector.Collector.Coordinate).
- The book of peers agrees with itself in every run (Membership.RunAgrees), and with the history of events
  (History.RecordTold, Fates.ListedTold); and a slice copied without its elements does not change under its reader
  (Peer.Peer.ReadCopy).

What one might expect of the code and it does not do, with the exact condition or a witness:

- Equal times: an entry that is not older is taken, so two entries of one job and one time end differently on
  different nodes. The order of delivery is irrelevant exactly when the newest entry of each name is unique
  (Lww.OrderIrrelevantExactly), and an exchange leaves equal stores exactly when entries held at equal times were equal
  (Lww.ExchangeAgrees).
- Expired peers stay in the map, all of them: it is keyed by address, and the deletion uses the name
  (Membership.ExpiredStay). What it might delete is another peer, one whose address is that name
  (Membership.ExpiryForgetsExactly).
- Without labels every address has the same key, so a job without labels probes one target at most
  (TaskKey.NoLabelsNoAddress, Collector.WantedWithoutLabels).
- A present but empty Data comes back absent, and that is the only difference (ClusterRoundTrip.PartReencode).
- A group may be closed under another number than it was opened under, which the Protocol Buffers encoding forbids
  (Groups.EndNumberIgnored). What skip passes over is a field of the standard exactly where a skipper that keeps the
  numbers of the open groups stops as well (Groups.SkipMeetsStandard, Groups.StrictExact).
- Decoding a map entry may panic, and with it a merge: the guard against a wrapping sum that stands everywhere else is
  missing at tasks/targetpb/target.pb.go:563. It happens exactly where that guard would have acted
  (Panics.StreamPanicsExactly), as on the fifteen bytes of Panics.SomeStreamPanics. Part and FullState never panic.
- An entry can take more bytes to write than it was read from: a map entry is always written with its key and its
  value, an instant even if it was absent, and a negative status in ten bytes. It takes no more if every map entry
  holds both within its bounds, the instant is there, and no status is both negative and short
  (NoGrowth.MeshNoGrowth). Field by field the conditions are exact (NoGrowth.EntryExactly, NoGrowth.StatusExactly,
  NoGrowth.UpdatedAbsent); over a whole message, room saved in one field may pay for another. In any case the growth is
  bounded (Growth.GrowthBound), and what is written again is read back as the same entry (Growth.MeshReencode).
- A peer whose leave is announced twice is listed twice (Duplicates.LeaveDuplicates). A run lists nobody twice exactly
  if its seeds are distinct and unlisted and so is every known peer that leaves (Duplicates.RunDuplicates).
- The comment and the test of the channel speak of small messages that go another way; that code is commented out
  (cluster/channel.go:141), and every message goes through the queue. The model follows the code.
- Deleting a job broadcasts an entry without a target group (cmd/gossiping/serve/launch.go:149), which the collector
  dereferences (tasks/manager.go:56). So the contracts require a group in every entry that a store with a collector
  takes, and for a deletion that is met exactly when a strictly newer entry is stored and the deletion has no effect
  (PushPull.DeletionArrives).

The bounds in the contracts on bytes are that no buffer reaches 2 to the 63 bytes, which is as long as a Go slice may
be, and no framed message 2 to the 35, which is as much as its length can say; those of the module Growth are its
subject. Assumptions about peers: an address contains a colon and a name, being a ULID, does not; a configured peer that
parses is written in canonical form; the clock does not go back.

## Model

| member | source | states |
|---|---|---|
| Varint.EncodeVarint | cluster/clusterpb/cluster.pb.go:212-222 | exactly `sov(v)` bytes in front of the offset become the base 128 form of v; no other byte of the buffer changes |
| Varint.ReadVarint | cluster/clusterpb/cluster.pb.go:301-314 | the loop, which shifts each group, loses what passes the 64th bit and or-s the rest in, yields the value cut to 64 bits, the bytes used, or the first of the two errors, as the recursive definition on the bytes ahead does |
| Varint.OrIsSum | cluster/clusterpb/cluster.pb.go:301-314 | or-ing bits above those already there adds them, whatever the shift |
| Varint.OrIsAccumulate | cluster/clusterpb/cluster.pb.go:301-314 | in every turn of the loop the accumulator is below the shifted group, so the or on 64-bit words is the sum modulo 2 to the 64 |
| Varint.OrBits | cluster/clusterpb/cluster.pb.go:301-314 | the or the loop computes is the or of each bit |
| Varint.ReadWord | tasks/targetpb/target.pb.go:660-674 | the loop into a 32-bit word, each group shifted and cut to 32 bits before it is or-ed in: the word is the low half of the bits read, also when the loop gives up half way, and the loop ends as the 64-bit one does |
| Varint.OrLowWord | tasks/targetpb/target.pb.go:660-674 | a turn on the 32-bit word does what the turn on 64 bits does to the low half |
| Varint.SovIsLength | cluster/clusterpb/cluster.pb.go:261-263 | the bit-length formula is the length of the written form, for every uint64 |
| Varint.VarintRoundTrip | cluster/clusterpb/cluster.pb.go:212-222 | every uint64 takes one to ten bytes, and reading gives it back from exactly these, whatever follows |
| Varint.VarintMinimal | cluster/clusterpb/cluster.pb.go:212-222 | no byte string that decodes to a value is shorter than the writer's form of that value |
| Varint.VarintLocal | cluster/clusterpb/cluster.pb.go:301-314 | a successful read depends on the bytes it used and on no others |
| Skip.SkipMethod | cluster/clusterpb/cluster.pb.go:475-552 | the loop with its index and depth returns what the recursive definition does, error for error; it ends on all bytes |
| Skip.PassElement | cluster/clusterpb/cluster.pb.go:480-546 | one turn of the switch: every wire type, the length checks, the illegal types |
| Skip.SkipExact | cluster/clusterpb/cluster.pb.go:475-552 | skip stops inside a buffer after n bytes if and only if those n bytes are one well-formed field of the wire grammar, groups nested to any depth included |
| Skip.SkipsRaw | cluster/clusterpb/cluster.pb.go:475-552 | a well-formed field is passed over exactly at any open depth, whatever follows |
| Skip.SkippedCloses | cluster/clusterpb/cluster.pb.go:475-552 | what is passed over from inside d groups splits into the fields and the end tags of these d groups, innermost first |
| Skip.SkipLocal | cluster/clusterpb/cluster.pb.go:475-552 | a result is not changed by appended bytes |
| Groups.StrictExact | cluster/clusterpb/cluster.pb.go:475-552 | the skipper that the encoding asks for, which matches the numbers of a group, stops after n bytes if and only if they are one well-formed field whose groups close under the number that opened them |
| Groups.SkipMeetsStandard | cluster/clusterpb/cluster.pb.go:532-548 | where skip stops inside a buffer, it has passed over such a field if and only if the strict skipper stops there too |
| Groups.StrictRaw | cluster/clusterpb/cluster.pb.go:475-552 | the strict skipper passes over a well-formed field whose numbers match, at any depth, and refuses any other, wherever in it the mismatch is |
| Groups.EndNumberIgnored | cluster/clusterpb/cluster.pb.go:534-538 | skip accepts a group opened under field 1 and closed under field 2, which the strict skipper refuses |
| Message.ReadTagAt | cluster/clusterpb/cluster.pb.go:272-294 | field number as an int32, wire type, end-group and non-positive field numbers refused |
| Message.ReadLen | cluster/clusterpb/cluster.pb.go:315-325 | a negative length, a sum that wraps, and a length past the end are each told apart; otherwise exactly the payload |
| Message.ReadUnknown | cluster/clusterpb/cluster.pb.go:363-378 | the whole field, tag included, is what is kept, or the error of skip and of the two bounds |
| Message.LenMinimal | cluster/clusterpb/cluster.pb.go:315-325 | a record that was read takes no more bytes to write than it was read from, whatever over-long varints it used |
| Message.DecodeAppend | cluster/clusterpb/cluster.pb.go:267-386 | "Last One Wins" for any loop whose turns are local: after accepted bytes a, decoding a + b is decoding b on top of the result |
| Message.DecodeShift | cluster/clusterpb/cluster.pb.go:267-386 | accepted bytes decode alike wherever in a buffer they begin |
| Message.ForeignReads | cluster/clusterpb/cluster.pb.go:362-379 | a well-formed field numbered above those declared comes back byte for byte as an unknown field |
| Message.UnknownIsForeign | cluster/clusterpb/cluster.pb.go:362-379 | and every unknown field kept is such a field |
| Message.PutLen | cluster/clusterpb/cluster.pb.go:145-169 | payload, then its length in front, then the tag; the bytes around them are untouched |
| Message.PutSize | cluster/clusterpb/cluster.pb.go:195-207 | the size of what was just written goes in front of it |
| ClusterPb.SizePart | cluster/clusterpb/cluster.pb.go:223-241 | the sizes add up to the length of the wire form |
| ClusterPb.SizeFullState | cluster/clusterpb/cluster.pb.go:243-259 | the same with the nested parts |
| ClusterPb.MarshalPartTo | cluster/clusterpb/cluster.pb.go:145-169 | the backward writer puts the wire form exactly in front of the end and touches nothing else; the cursor never goes below zero |
| ClusterPb.MarshalPart | cluster/clusterpb/cluster.pb.go:130-138 | a buffer of the computed size is filled to the last byte |
| ClusterPb.MarshalFullStateTo | cluster/clusterpb/cluster.pb.go:186-210 | backward over the parts, each nested with its size, for any number of parts |
| ClusterPb.MarshalFullState | cluster/clusterpb/cluster.pb.go:171-179 | a buffer of the computed size is filled to the last byte |
| ClusterPb.PartMessage.Unmarshal | cluster/clusterpb/cluster.pb.go:267-386 | on all bytes: the error, or none, and what the fields of the message are afterwards, also after an error half way |
| ClusterPb.FullStateMessage.Unmarshal | cluster/clusterpb/cluster.pb.go:387-474 | the same, with a part that fails staying appended as far as it got |
| ClusterRoundTrip.PartLastOneWins | cluster/clusterpb/cluster.pb.go:267-386 | if a is accepted, a + b decodes as b on top of the result of a, and is accepted or not alike |
| ClusterRoundTrip.FullStateLastOneWins | cluster/clusterpb/cluster.pb.go:387-474 | the same for whole states |
| ClusterRoundTrip.PartRoundTrip | cluster/clusterpb/cluster.pb.go:130-169 | a part whose unrecognized bytes are whole unknown fields is read back as written, a present empty Data as an absent one |
| ClusterRoundTrip.PartReencode | cluster/clusterpb/cluster.pb.go:267-386 | any bytes a fresh part accepts: the re-encoding is no longer, decodes to the same key, data and unrecognized bytes, and to the very same part if and only if Data was not present and empty |
| ClusterRoundTrip.PartDecodeSound | cluster/clusterpb/cluster.pb.go:362-379 | what a decoder collects as unrecognized is always whole unknown fields, and the message grows by no more than was read |
| ClusterRoundTrip.FullStateAppends | cluster/clusterpb/cluster.pb.go:387-474 | decoding a written state on top of another appends its parts in order |
| ClusterRoundTrip.FullStateRoundTrip | cluster/clusterpb/cluster.pb.go:171-210 | any number of parts come back in order; the very same state if and only if no Data is present and empty |
| ClusterRoundTrip.FullStateConcat | cluster/clusterpb/cluster.pb.go:387-474 | concatenated encodings decode to concatenated parts |
| ClusterRoundTrip.FullStateDecodeSound | cluster/clusterpb/cluster.pb.go:387-474 | unknown fields are kept whole at both levels, and the state grows by no more than was read |
| ClusterRoundTrip.FullStateReencode | cluster/clusterpb/cluster.pb.go:387-474 | any bytes a fresh state accepts: the re-encoding is no longer and decodes to the same parts |
| Acceptance.PartAccepts | cluster/clusterpb/cluster.pb.go:267-386 | a part decodes if and only if the bytes are whole fields of the wire grammar of which those numbered 1 and 2 are records |
| Acceptance.PartHolds | cluster/clusterpb/cluster.pb.go:267-386 | it then holds the last record numbered 1, the last numbered 2, and all other fields as they were |
| Acceptance.FullStateAccepts | cluster/clusterpb/cluster.pb.go:387-474 | a state decodes if and only if the bytes are whole fields of which those numbered 1 are records that decode as parts |
| Acceptance.FullStateHolds | cluster/clusterpb/cluster.pb.go:387-474 | it then holds a part for each of these records, in turn, and all other fields as they were |
| TargetCodec.SizeTargetgroup | tasks/targetpb/target.pb.go:332-353 | the size is the length of the wire form for every iteration order of the label map at once |
| TargetCodec.MarshalEntry | tasks/targetpb/target.pb.go:235-253 | value, key, the size of both, the tag, back to front |
| TargetCodec.MarshalLabels | tasks/targetpb/target.pb.go:235-253 | the loop over the map writes each entry once, in some order of the keys |
| TargetCodec.MarshalTargetgroupTo | tasks/targetpb/target.pb.go:230-264 | the labels, then the targets backwards, fill exactly the space in front of the end, whichever order the map is visited in |
| TargetCodec.MarshalTargetgroup | tasks/targetpb/target.pb.go:215-223 | a buffer sized in one iteration order is filled exactly in another |
| MeshCodec.SizeMesh | tasks/targetpb/target.pb.go:355-375 | the sizes add up to the length of the wire form, ten bytes for a negative status included; an instant out of range, which cannot be written, counts for nothing |
| MeshCodec.MarshalMeshTo | tasks/targetpb/target.pb.go:281-319 | group, time, status and name, back to front; an instant out of range is the only error |
| MeshCodec.MarshalMesh | tasks/targetpb/target.pb.go:266-274 | a buffer of the computed size is filled to the last byte |
| MeshCodec.UnmarshalEntry | tasks/targetpb/target.pb.go:473-570 | the inner loop over a map entry, with the bounds it checks; and when the cursor wraps to a negative number, the panic at the next index |
| MeshCodec.TargetgroupMessage.Unmarshal | tasks/targetpb/target.pb.go:383-594 | on all bytes: whether it returns, with what error, or panics, and the fields at that point |
| MeshCodec.MeshEntryMessage.Unmarshal | tasks/targetpb/target.pb.go:595-767 | on all bytes: whether it returns, with what error, or panics, and all fields at that point, half-read ones included; a group met twice is merged into the one there |
| MeshCodec.UnmarshalTime | tasks/targetpb/target.pb.go:675-707 | the instant of the google.protobuf.Timestamp message, refused outside its range |
| TargetRoundTrip.SizeAnyOrder | tasks/targetpb/target.pb.go:332-353 | two iteration orders of one map need the same number of bytes |
| TargetRoundTrip.NegativeTakesTen | tasks/targetpb/target.pb.go:306-310 | a negative number, sign-extended, takes all ten bytes |
| TargetRoundTrip.TimeRoundTrip | tasks/targetpb/target.pb.go:298-305 | every instant of the years 1 to 9999, to the nanosecond, comes back |
| TargetRoundTrip.AssignAll | tasks/targetpb/target.pb.go:473-570 | assigning the entries in any iteration order rebuilds the map |
| TargetRoundTrip.TargetgroupRoundTrip | tasks/targetpb/target.pb.go:215-264 | targets come back in order and labels as a map, whatever order they were written in |
| TargetRoundTrip.MeshRoundTrip | tasks/targetpb/target.pb.go:266-319 | every int32 status, every valid instant and the labels in any order come back, and an absent group stays distinct from an empty one |
| TargetRoundTrip.GroupReadsOver | tasks/targetpb/target.pb.go:383-594 | a written group decoded on top of another appends its targets and overrides its labels |
| TargetRoundTrip.MeshReadsOver | tasks/targetpb/target.pb.go:595-767 | a written entry decoded on top of another: name and status count if written, the time always, and the group is merged into the one there |
| TargetMerge.GroupLastOneWins | tasks/targetpb/target.pb.go:383-594 | if a is accepted, a + b decodes as b on top of the result of a, and is accepted or not alike, although lengths inside map entries are checked against the whole buffer |
| TargetMerge.MeshLastOneWins | tasks/targetpb/target.pb.go:595-767 | the same for entries |
| Acceptance.MeshAccepts | tasks/targetpb/target.pb.go:595-767 | an entry decodes if and only if the bytes are whole fields of which number 1 stands for records, 2 for varints, 3 for records that hold an instant and 4 for records that decode as groups; other numbers may stand for anything |
| Acceptance.MeshHolds | tasks/targetpb/target.pb.go:595-767 | it then holds the last name, the last status, the last instant and the groups one merged into the other; other fields leave no trace |
| Acceptance.MeshSkipsForeign | tasks/targetpb/target.pb.go:744-759 | a field that is not declared, wherever it stands, changes neither whether the bytes are accepted nor the entry |
| Acceptance.GroupSkipsForeign | tasks/targetpb/target.pb.go:571-588 | the same for groups |
| Acceptance.GroupFieldTold | tasks/targetpb/target.pb.go:383-594 | what each field does to a group: a target is appended, a label assigned, others passed over, wrong wire types refused |
| Acceptance.EntryHolds | tasks/targetpb/target.pb.go:473-570 | a map entry whose fields lie within it is read as its last key and its last value |
| Acceptance.TimeAccepts | tasks/targetpb/target.pb.go:700-703 | an instant decodes if and only if the bytes are whole fields that fold to a valid one |
| WireExamples.EntryWireTypes | tasks/targetpb/target.pb.go:496-543 | inside a map entry the wire type is not looked at |
| Calendar.ValidYears | tasks/targetpb/target.pb.go:298-305 | valid are exactly the instants of the years 1 to 9999, counted by the leap-year rule |
| WireExamples.SomeVarint | cluster/clusterpb/cluster.pb.go:212-222 | 300 is ac 02 |
| WireExamples.SomePart | cluster/clusterpb/cluster.proto:11-14 | key is field 1, data field 2 |
| WireExamples.SomeState | cluster/clusterpb/cluster.proto:16-18 | parts are field 1 |
| WireExamples.SomeGroup | tasks/targetpb/target.proto:8-11 | targets are field 1, labels field 2, a key is 1 and a value 2 |
| WireExamples.SomeTime | tasks/targetpb/target.pb.go:298-305 | seconds are field 1, nanos field 2 |
| WireExamples.SomeEntry | tasks/targetpb/target.proto:19-24 | name, status, updated and targetgroup are fields 1 to 4 |
| WireExamples.SomeNegative | tasks/targetpb/target.pb.go:306-310 | a status of -1 is nine bytes ff and 01 |
| WireExamples.WireTypes | cluster/clusterpb/cluster.pb.go:496-543 | what each wire type is followed by, and which are refused |
| WireExamples.Casts | cluster/clusterpb/cluster.pb.go:288-289 | casts keep the low bits and stay in the range of their type |
| Panics.PartNeverPanics | cluster/clusterpb/cluster.pb.go:267-386 | no bytes whatever, on top of no part whatever |
| Panics.FullStateNeverPanics | cluster/clusterpb/cluster.pb.go:387-474 | nor for whole states |
| Panics.EntryPanicsExactly | tasks/targetpb/target.pb.go:478-570 | the loop over a map entry panics if and only if, behind fields it takes, it meets at index pos one that is neither key nor value with a skip count n such that pos + n is not an int; there is no guard for that |
| Panics.GroupPanicsExactly | tasks/targetpb/target.pb.go:383-594 | decoding a group, on top of any other, panics if and only if such a map entry stands behind fields that are taken |
| Panics.MeshPanicsExactly | tasks/targetpb/target.pb.go:595-767 | decoding an entry panics if and only if its group does, behind fields that are taken |
| Panics.StreamPanicsExactly | tasks/store.go:61-72 | merging a stream panics if and only if such an entry stands behind frames that decode |
| Panics.SomeStreamPanics | tasks/targetpb/target.pb.go:555-566 | fifteen bytes on which it does |
| NoGrowth.MeshNoGrowth | tasks/targetpb/target.pb.go:595-767 | an accepted entry takes no more bytes to write, in any order of its labels, than to read, if every map entry holds a key and a value within its bounds, Updated is there, and every status is non-negative or was read from ten bytes |
| NoGrowth.GroupNoGrowth | tasks/targetpb/target.pb.go:383-594 | the same for groups, of which only the first is asked |
| NoGrowth.EntryExactly | tasks/targetpb/target.pb.go:473-570 | a map entry with nothing to spare takes no more to write than to read if and only if it holds a key and a value within its bounds |
| NoGrowth.StatusExactly | tasks/targetpb/target.pb.go:306-310 | a status takes no more to write than its varint took if and only if it is not negative or the varint had ten bytes |
| NoGrowth.UpdatedAbsent | tasks/targetpb/target.pb.go:298-305 | where Updated is absent, thirteen bytes are written for it all the same |
| NoGrowth.EmptyEntryGrows | tasks/targetpb/target.pb.go:235-253 | a map entry of two bytes, without key and value, is written in six |
| NoGrowth.OverlapGrows | tasks/targetpb/target.pb.go:516-524 | nine bytes with a key that reaches beyond its map entry are written in twelve |
| NoGrowth.StatusGrows | tasks/targetpb/target.pb.go:306-310 | a status of six bytes is written in eleven |
| NoGrowth.NothingGrows | tasks/targetpb/target.pb.go:298-305 | no bytes at all are written as thirteen |
| Growth.GrowthBound | tasks/targetpb/target.pb.go:383-767 | an entry decoded from N bytes, N up to a gibibyte, is written in at most N (2 N + 33) + 2 N + 66 bytes, in any order of its labels |
| Growth.MeshReencode | tasks/targetpb/target.pb.go:595-767 | any bytes up to a gibibyte that a fresh entry accepts, and longer ones that meet the three conditions, decode to an entry that, rewritten in any order of its labels, decodes to the very same entry |
| Growth.MergeKeepsWritable | tasks/store.go:55-84 | a store that can be written still can be after merging any bytes in which each message has at most 64 KiB or meets the three conditions |
| Growth.MessageKeepsWritable | cluster/delegate.go:149-170 | so can all stores of a node after any such broadcast, or any of at most 64 KiB |
| Growth.StateKeepsWritable | cluster/delegate.go:209-236 | and after any such remote state |
| Framing.WriteDelimited | cmd/gossiping/serve/launch.go:62-72 | the frame of an entry reads back as that entry, whatever follows and whatever order its labels were written in; the only error is an instant out of range |
| Framing.ReadDelimited | tasks/store.go:61-71 | a frame into a fresh entry, the end of the buffer, an entry that is refused with an error, or one on which the decoder panics; lengths of more than five bytes are none of these |
| Framing.ParseFrame | tasks/store.go:55-72 | a frame at the head of a stream is its entry, and the stream goes on behind it |
| Framing.ParseAppend | tasks/store.go:40-53 | the concatenation of streams is the concatenation of their entries |
| Framing.ParseRefuses | tasks/store.go:61-72 | a message that is refused ends a stream: what stood before it is read, and nothing behind it |
| Framing.ParseInRange | tasks/store.go:55-72 | no bytes whatever yield an entry with a status or an instant out of range |
| Lww.MergeAllNewest | tasks/store.go:100-114 | after any sequence of merges a store holds, for exactly the names seen, an entry seen than which none is newer |
| Lww.AfterIsLater | tasks/store.go:107 | one time is after another if and only if it is more nanoseconds since the epoch |
| Lww.MergeKeepsLatest | tasks/store.go:100-114 | in nanoseconds: what is stored under a name after any merges is the latest of what was there and what came |
| Lww.JoinTakesLater | tasks/store.go:55-84 | in nanoseconds: a join holds the later of two entries, and the incoming one of two at one instant |
| Lww.SeenDetermines | tasks/store.go:100-114 | stores that have seen the same entries agree on every time, and on every entry if name and time identify one |
| Lww.OrderIrrelevantExactly | tasks/store.go:100-114 | delivery order and repetition do not matter if and only if the newest entry of each name is unique |
| Lww.EqualTimesDiverge | tasks/store.go:107-111 | two different entries of one name and one time leave two stores different when they arrive in different orders |
| Lww.MergeIsJoin | tasks/store.go:55-84 | merging the entries of another store, in any order of its map, is the pointwise newer of the two |
| Lww.ExchangeAgrees | tasks/store.go:55-84 | a mutual exchange leaves equal times always, and equal stores if and only if entries held at equal times were equal |
| Lww.JoinLaws | tasks/store.go:55-84 | a push/pull may be repeated and regrouped without effect |
| Lww.JoinNewest | tasks/store.go:55-84 | the join of two stores is the newest of all that either has seen, superseded entries included |
| Lww.MergeAppend | tasks/store.go:55-84 | two streams merged in turn are their concatenation merged once, callbacks included |
| Replicas.StepKeeps | tasks/store.go:55-114 | every step, a broadcast, a delivery, a state sent or received late or twice, keeps each store the newest of what its replica knows of, and all of that broadcast |
| Replicas.StateNewest | cluster/delegate.go:209-236 | what arrives with a state is the newest of all its sender knew, not only of what it lists |
| Replicas.RunKeeps | tasks/store.go:55-114 | so does every run, and no store goes back in time |
| Replicas.StoredWasBroadcast | tasks/store.go:100-114 | in any run from empty stores, what is stored under a name was once broadcast under that name |
| Replicas.NeverOlder | tasks/store.go:100-114 | between any two points of a run a stored name stays and its time does not decrease |
| Replicas.InstantNeverFalls | tasks/store.go:100-114 | in nanoseconds: between any two points of a run the instant stored under a name never falls, and at every point it is the latest of all that the replica knows of that name |
| Replicas.Converge | tasks/store.go:100-114 | replicas that know of the same entries, one by one or through the states of others, agree on times, and on entries if (name, time) identifies what was broadcast |
| Replicas.PushPullAgrees | cluster/delegate.go:183-236 | after any run, one exchange of the states of before it leaves both with the join and with all that either knew, and with equal stores under the same condition |
| Fnv.HashAdd | tasks/fnv.go:29-36 | the loop is the hash of the string from the given start |
| Fnv.HashAddByte | tasks/fnv.go:38-42 | one step |
| Fnv.StepUndone | tasks/fnv.go:29-42 | xor and multiplication by the odd prime, modulo 2 to the 64, have a two-sided inverse |
| Fnv.HashInjective | tasks/fnv.go:29-36 | from different starts a string never leads to the same hash |
| Fnv.HashSurjective | tasks/fnv.go:29-36 | and every hash is reached from some start |
| Fnv.OneByteDiffers | tasks/fnv.go:29-36 | strings of one length that differ in exactly one byte never collide from the same start |
| Fnv.XorBits | tasks/fnv.go:31-32 | the exclusive or of the step is that of each bit |
| Fnv.HashOfA | tasks/fnv.go:16-42 | the published hash of "a" |
| Fnv.HashOfFoobar | tasks/fnv.go:16-42 | the published hash of "foobar" |
| TaskKey.TaskID | tasks/manager.go:122-147 | in whatever order the map was iterated, the result is FNV-1a of one byte stream: over the label names in ascending order, each name and its value followed by byte 255, then "__addr__", 255, the address, 255; and the offset basis if there are no labels |
| TaskKey.TaskIDTold | tasks/manager.go:122-147 | that stream may be taken over any listing of the names, each once, in which each is a prefix of the next or less where they first differ |
| TaskKey.FirstDifference | tasks/manager.go:131 | the order of the sort is that order |
| TaskKey.SortStrings | tasks/manager.go:131 | the same names, each a prefix of every later one or less where they first differ |
| TaskKey.SortedUnique | tasks/manager.go:127-131 | there is one sorted list of a map's keys |
| TaskKey.StreamDetermines | tasks/manager.go:133-146 | for strings without byte 255 the streams are equal if and only if label maps and addresses are |
| TaskKey.JoinedInjective | tasks/manager.go:112-115 | a separator that occurs in no string makes the concatenation decodable |
| TaskKey.AddressTold | tasks/manager.go:122-147 | with labels, addresses of one length that differ in one byte have different keys |
| TaskKey.NoLabelsNoAddress | tasks/manager.go:122-125 | without labels all addresses share one key |
| Collector.Collector.Coordinate | tasks/manager.go:45-110 | the job then runs exactly the wanted keys, one for each target, that were running or could be created, and all of them unless a task that was asked for meanwhile was refused; survivors are the same tasks, created ones are new and probe a target of the group, every other task of the job is stopped once, all other jobs are untouched; and over any run every task ever started was started once and either runs, under the key of what it probes, or has been stopped exactly once |
| Collector.Collector.constructor | tasks/manager.go:20-28 | a new collector runs nothing |
| Collector.Collector.AddTargets | tasks/manager.go:55-88 | the first loop: the cache holds the wanted keys, the running tasks stay, each wanted key is running or a task for it was refused, and none is missing if none was refused |
| Collector.Collector.SeeTo | tasks/manager.go:56-87 | one turn of it |
| Collector.Collector.NewTask | tasks/task.go:38-42 | each request counts, and is granted or refused as the world answers it, not as the program likes |
| Collector.Collector.AddTarget | tasks/manager.go:64-87 | one target: nothing is asked for if its key runs; else one task is, and it is created and started if and only if it is not refused |
| Collector.Collector.RemoveOthers | tasks/manager.go:90-109 | the second loop: what is left is what is in the cache, and only the others were touched |
| Collector.Collector.RemoveTask | tasks/manager.go:104-105 | one task is stopped and leaves the job |
| Collector.Search | tasks/manager.go:92-98 | found if and only if in the cache |
| Collector.CopyLabels | tasks/manager.go:57-62 | the copying loop is map override |
| Collector.WantedWithoutLabels | tasks/manager.go:64-69 | a job without any label wants one key for all its targets, so only one of them is probed |
| Collector.NothingToDo | tasks/manager.go:45-110 | a job that runs just the wanted keys starts and stops nothing |
| Store.Store.MergeEntry | tasks/store.go:100-114 | the entry is refused, and nothing changes, if and only if one is stored under its name that is later, in nanoseconds; else it is stored |
| Store.Store.Accept | tasks/store.go:74-82 | callbacks hear of an entry if and only if it was taken; its job is incomplete from then on if and only if a task asked for meanwhile was refused; other jobs keep their very tasks; an entry stored already, of a job that is not incomplete, starts and stops nothing |
| Store.Store.Call | tasks/store.go:78-82 | the collector among the callbacks, after the entry is in the map |
| Store.Store.Merge | tasks/store.go:55-84 | any bytes: the entries up to the first that cannot be read are merged in turn and those taken are announced; nothing stored gets earlier, in nanoseconds, and nothing that came is later than what is stored; the outcome is no error, the error of the bad entry, or the panic of its decoder. If no task was ever refused, every job runs exactly the keys of its stored entry; jobs that took nothing keep their very tasks; a stream of entries stored already fires the callbacks and starts and stops nothing |
| Store.SameKeys | tasks/manager.go:45-110 | stores that hold the same entry of a job, with equal external labels and nothing refused for it, run the same keys |
| Store.SameJobs | tasks/manager.go:45-110 | equal stores with nothing refused run the same jobs with the same keys |
| Store.Store.MarshalBinary | tasks/store.go:40-53 | what the bytes parse to is the entries of the store, each once, in some order of the map, and there is no error |
| Store.SyncOne | tasks/manager.go:45-110 | coordinating a taken entry brings its job in step, but for what could not be created, and leaves the other jobs as they are |
| Delegate.Delegate.constructor | cluster/delegate.go:50-143 | a new delegate has no stores |
| Delegate.Delegate.AddState | cluster/cluster.go:561-562 | a store of its own is entered under its key |
| Delegate.Delegate.NotifyMsg | cluster/delegate.go:149-170 | any bytes: one store at most changes, the one of the part's key, by the merge of the part's data; it panics only if that merge does. Entries that are not taken may lack a group |
| Delegate.Delegate.MergeRemoteState | cluster/delegate.go:209-236 | nothing if the state does not decode; else a first stretch of its parts is merged, part after part, unknown keys passed over: all of them, or up to the first that is refused or panics, or up to one that is cut short |
| Delegate.Delegate.MergeReceived | cluster/delegate.go:221-235 | one part: its store merges, no other store changes, and how it ends |
| Delegate.Delegate.LocalState | cluster/delegate.go:183-207 | the encoding of one part per store, each listing its store, in whatever order the maps were iterated |
| Delegate.Delegate.MergeInto | cluster/delegate.go:161-170 | the store of one key merges, the others keep their entries and their collectors |
| PushPull.LocalStateArrives | cluster/delegate.go:183-236 | the bytes of the local state of A decode to parts none of which is cut short, do not panic, and leave every store B has with the pointwise newer entries |
| PushPull.LocalStateTaken | cluster/delegate.go:209-236 | and collectors can be called with what is taken of it if the entries not older than those at B have groups |
| PushPull.DescribedRunnable | cluster/delegate.go:218-235 | the same for the parts in any order |
| PushPull.Deliver | cluster/delegate.go:209-236 | MergeRemoteState with the bytes of a local state ends without panic, in the join |
| PushPull.Exchange | cluster/delegate.go:183-236 | two delegates exchange the bytes of their states of before: through all layers, each ends with the join of what both held |
| PushPull.MergeDescribed | cluster/delegate.go:218-235 | part by part, in any order of the parts |
| PushPull.ExchangeStates | cluster/delegate.go:183-236 | two nodes that exchange the bytes of their states agree on all times of shared stores; on the stores if and only if entries held at equal times were equal |
| PushPull.BroadcastArrives | cluster/delegate.go:149-170 | a framed entry wrapped in a part is, on arrival, merged as just that entry |
| PushPull.AgreeingNodes | cluster/delegate.go:183-236 | two nodes whose stores under a key agree, with equal external labels and nothing refused, run the same jobs with the same keys |
| PushPull.DeletionArrives | cmd/gossiping/serve/launch.go:145-150 | a deletion is an entry without a group, which no collector can be called with: the requirement of NotifyMsg holds for it if and only if the store holds a strictly newer entry, and then nothing changes |
| Membership.SeedAllKeeps | cluster/cluster.go:267-308 | seeding keeps map and list in agreement |
| Membership.JoinKeeps | cluster/cluster.go:470-503 | so does a join |
| Membership.LeaveKeeps | cluster/cluster.go:505-531 | so does a leave, at a time not before the last |
| Membership.UpdateKeeps | cluster/cluster.go:533-557 | so does an update |
| Membership.ExpireKeeps | cluster/cluster.go:387-406 | so does expiry, and it takes nothing out of the map |
| Membership.ExpiryDropsPrefix | cluster/cluster.go:393-405 | in the order of leaving, what expires is exactly a prefix of the list |
| Membership.ExpiredStay | cluster/cluster.go:387-406 | in any book in agreement every expired peer stays in the map: expired peers leave it if and only if there are none |
| Membership.ExpiryForgetsExactly | cluster/cluster.go:395-403 | in any book at all, expiry removes something from the map if and only if the name of an expired peer is a key of it, although keys are addresses |
| Membership.RunKeeps | cluster/cluster.go:267-557 | every run under a clock that does not go back keeps the agreement |
| Membership.RunAgrees | cluster/cluster.go:267-557 | in every reachable state: listed peers have a Failed record, no Alive peer is listed, every Failed record is listed or was dropped by expiry, and a sweep drops a prefix |
| History.RecordTold | cluster/cluster.go:267-557 | in every run from the start an address is in the map if and only if it once joined or was seeded, and Alive if and only if it joined and has since neither left nor been seeded; events about other addresses, updates and sweeps play no part |
| History.RunIs | cluster/cluster.go:267-557 | the same from any state in agreement |
| Fates.ListedTold | cluster/cluster.go:267-557 | from the history of events and their times: an address is listed if and only if at some time t it was seeded, or left when known, and since then has neither joined nor met a sweep at a time now with a timeout for which now >= t + timeout |
| Fates.LastFailureDecides | cluster/cluster.go:387-406 | the time of its last failure decides |
| Fates.SomeSweeps | cluster/cluster.go:393-405 | who left at 100 survives a sweep with timeout 50 until 149, and none from 150 on |
| Fates.RecordCarries | cluster/cluster.go:470-557 | a record carries the node of the last seeding, join or update of its address |
| Duplicates.LeaveDuplicates | cluster/cluster.go:510-519 | a leave keeps the list free of duplicates if and only if the peer is unknown or not listed |
| Duplicates.SeedDuplicates | cluster/cluster.go:276-307 | seeding does if and only if the seeds taken are distinct and none is listed |
| Duplicates.StepDuplicates | cluster/cluster.go:267-557 | every other event does always |
| Duplicates.RunDuplicates | cluster/cluster.go:267-557 | a run never lists a peer twice if and only if each seeding and each leave in it is such |
| Duplicates.AliveListsOnce | cluster/cluster.go:505-531 | the leave of a peer that is Alive is |
| Peer.Peer.SetInitialFailed | cluster/cluster.go:267-308 | the loop over the seeds, on the slice in memory, does what the event does |
| Peer.Peer.PeerJoin | cluster/cluster.go:470-503 | the method does what the event does, and counts and signals it |
| Peer.Peer.PeerLeave | cluster/cluster.go:505-531 | the same; a leave of an unknown node does and counts nothing |
| Peer.Peer.PeerUpdate | cluster/cluster.go:533-557 | the same; an update of an unknown node does and counts nothing |
| Peer.Peer.RemoveFailedPeers | cluster/cluster.go:387-406 | the loop into a new slice, with a deletion from the map for each dropped peer, does what the event does |
| Peer.RemoveOldPeer | cluster/cluster.go:849-858 | the filter loop, into a new array |
| Peer.Peer.Append | cluster/cluster.go:495-518 | in place while the capacity lasts, else into a new array; no slice header copied earlier sees a change |
| Peer.Peer.StoreBehind | cluster/cluster.go:495-518 | the one store into an array that a reader may hold lies behind the end of the list, and so leaves every copied slice as it was |
| Peer.Peer.CopyFailedPeers | cluster/cluster.go:408-411 | the copied header shares the array of the list |
| Peer.Peer.ReadCopy | cluster/cluster.go:413-428 | without the lock: whatever events came in between, and in the middle of one, each element read through a copied header is the one listed when it was copied |
| Channel.StepCounted | cluster/channel.go:98-152 | every step keeps the books of messages and of sends |
| Channel.StepOrdered | cluster/channel.go:98-152 | every step keeps the sends of a message together |
| Channel.NothingLost | cluster/channel.go:129-140 | in every run, encoded broadcasts = handled + in hand + queued + dropped, with at most 200 queued |
| Channel.FirstInFirstOut | cluster/channel.go:98-140 | messages are handled in the order in which they entered the queue |
| Channel.OneAtATime | cluster/channel.go:101-123 | no send of a message begins before all sends of every earlier one have ended |
| Channel.SendsCounted | cluster/channel.go:104-120 | the counter of sends is the sum of peer counts of handled messages and the begun sends of the one in hand; the counter of failures is the failed sends and never exceeds it |
| Channel.QueuedAreParts | cluster/channel.go:130-136 | whatever is queued is the encoding of a part under the channel's key |
| Broadcasts.QueueCarries | cluster/channel.go:129-140 | from the events of the run: the k-th message that entered the queue decodes to a part under the key with the k-th payload that was broadcast, could be encoded and found fewer than 200 waiting; and dropped are exactly those that found 200 |
| Broadcasts.SendsTold | cluster/channel.go:104-123 | from the events of the run: what the counters of sends and failures are, and that each message handled went to as many peers as there were |
| Broadcasts.SomeMessage | cluster/channel.go:130 | under the key "k" the payload "x" is queued as 0a 01 6b 12 01 78 |
| Channel.Channel.constructor | cluster/channel.go:77-96 | a new channel is empty |
| Channel.Channel.Broadcast | cluster/channel.go:130-140 | encoded and queued, or dropped and counted when 200 are waiting |
| Channel.Channel.Receive | cluster/channel.go:102-104 | the worker takes the oldest message |
| Channel.Channel.Begin | cluster/channel.go:106-108 | a goroutine counts its send before making it |
| Channel.Channel.End | cluster/channel.go:110-119 | and a failure after it |
| Channel.Channel.Wait | cluster/channel.go:122-123 | only when all goroutines of the message are done is the next one taken |

## Left out

- Store.Store.Merge: how the framing library ends on a length of more than five bytes, or on a length or a message that is cut short, is not claimed; any outcome is allowed, and the entries merged before it are stated. The entries taken must have a target group when a collector is attached.
- Store.Store.MarshalBinary: no entry may be longer to write than the five bytes of length in a frame can say; that this holds of what was merged is Growth.MergeKeepsWritable, under its conditions.
- Delegate.Delegate.MergeRemoteState: where a part is cut short, whether the loop goes on behind it is not claimed, for the same reason; nor is whether it panics.
- Delegate.Delegate.NotifyMsg: stores under different keys are taken to share nothing, and the counters of bytes are not modelled.
- Collector.Collector.Coordinate: which tasks can be created is a parameter, the answers; the goroutine of a task is not modelled, only that it was started and stopped.
- Framing.WriteDelimited: the library is modelled as a varint length of at most five bytes followed by the message, and longer messages are not covered; the instant is modelled as the google.protobuf.Timestamp layout, of size zero when out of range. Neither library is part of this model.
- Channel.Channel.Broadcast: the encoding error is modelled as a length of 2 to the 63 or more, the only one the generated code could meet; the histogram of durations is left out.
- Peer.Peer.PeerJoin: nodes are values, so memberlist changing a node in place is not modelled.
- TaskKey.SortStrings: the library sort is modelled as an insertion sort.
- Callbacks other than the collector appear only as the history of the entries they were called with.
- A panic is an outcome of the call in which it happens; what becomes of the process is not modelled.
- Locks are modelled by taking each method, and each step of the channel's goroutines, as atomic; the reader of failed peers holds none, and may come in the middle of a method.
- Replicas are values rather than objects: the network is a state machine over the merge function that the store's methods are proved to compute.
- XXX_unrecognized nil and empty are one value.
- memberlist, sockets, DNS and retry, address parsing, metrics other than the counters of the channel and the peers, logging, HTTP, the command line, ping execution and state files are I/O.
- Position, Jobs, Snapshot, PeerStatus.String, OversizedMessage, Settle and the getters would only add easy members.
