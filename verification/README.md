# Verified model of the xyzen relay

This Dafny 4.11 project models the parts of the xyzen relay whose behaviour is decided by state and
arithmetic, and proves what they promise over every input and every run.

- **Stream relay** (`NalKinds`, `WarmupWindow`, `WarmupHistory`, `WarmupJoin`, `Rooms`,
  `RoomLifetimes`). The warm-up window is a class updated frame by frame; it is proved to be a declarative function of
  the whole history of a room. Rooms, publishers and viewers are a transition system in which
  recording, sending, looking up a room, subscribing, taking the snapshot, replaying and receiving
  are separate steps that interleave freely.
- **Framing codec** (`FrameCodec`, `FrameStreams`, `RustDeskCodec`). The resumable decoder and the
  encoder, as a codec object over buffers it changes in place, and theorems about whole streams.
- **Capturers** (`AnnexB`, `Avcc`, `SniffedSamples`, `Nv12`, `CaptureSessions`,
  `CaptureSettings`, `CaptureStops`, `CaptureToRelay`). NAL splitting and rewriting, pixel
  conversion, the capture-session machine, and what the relay makes of the frames emitted.
- **Rendezvous** (`Registry`, `Rendezvous`, `RendezvousLookup`) and **relay** (`RelayPairing`,
  `RelayPump`). The peer registry, punch and ack handling, pairing through one wait slot, and byte
  pumping, with every interleaving of their lock sections.

Each lock section or atomic access of the concurrent code is one step. A step that is not enabled
changes nothing, so a theorem about `Run(steps)` for every `steps` is about every run. Where the
shared state is an object of its own (`WarmupWindow`, `PeerRegistry`, `PendingMap`, `WaitSlot`,
`SharedState`), a class carries the lock sections as methods. Channels are stated as assumptions:
a broadcast channel is an append-only log with one position per receiver, an unbounded queue loses
nothing. Time, random values and I/O outcomes are parameters of steps. Bit operations are written
as the arithmetic they perform (`& 0x1f` as `% 32`, an arithmetic right shift as flooring
division, an or of disjoint bits as a sum); `usize` is 64 bits.

## Where the code and its comments differ

The model follows the code. Each difference below is a proved statement.

- A viewer that subscribes before a frame is recorded and takes its snapshot after is sent that
  frame twice. It is level with the room again exactly under the condition of `JoinHealsExactly`;
  `RacedJoinDiverges` is a concrete case where it is not (comments at
  crates/stream/src/main.rs:441-447).
- The comment at crates/stream/src/main.rs:20-21 says the room is dropped when the publisher
  disconnects; those at 407-410 say its cleanup drops the room once no one publishes or watches.
  Neither holds. A publisher that ends on a socket error skips the cleanup
  (`ErroredPublisherLeavesRoom`), and the last viewer of a publisher long gone removes nothing
  (`WatchedRoomOutlivesItsViewers`): in both runs nobody publishes or watches and the room is
  there with its cache. `PeerHasRoomExactly` says when a peer has a room. Nor does the cleanup ask
  for other publishers: `LaterViewerMeetsPublisherExactly` says when a publisher and a later viewer
  still meet, `PublisherLeftAlone` is a run in which they do not.
- The comment at crates/stream/src/main.rs:67-70 says the cache holds the most recent access unit of
  a keyframe; of a burst of keyframe NALs it holds the last (`BurstKeepsItsLast`).
- The comment at crates/win-capturer/src/encoder.rs:317-320 calls the Annex-B sniff unambiguous;
  it fires on length-prefixed samples whose first NAL has length 1 or 256..511 (`SniffedExactly`).
  `PermittedSampleExactly` and `ShortSampleExactly` say which samples still come out right.
- The macOS capturer's comment says parameter sets go out as separate NALs; they go out glued
  into one chunk, which the relay files under the first one's type (`GluedSetsShareOneSlot`,
  `GluedSetsKeepTypesExactly`).
- An odd display size is rounded up in `configure`, after which every packed frame of that display
  is too small for `submit_frame` (`PackedFrameAcceptedExactly`).
- `dispatch_punch` tells the target before filing the requester, so an ack can come too soon
  (`AckBetweenNotifyAndInsert`), and an ack answers whichever requester the map yields
  (`AckReachesOwnRequesterExactly`, `AckCanAnswerAnother`). A WebSocket connection remembers only its last id
  (`DisconnectLeavesExactly`). `pair_or_wait` drops a waiting connection exactly when another call
  has filled the slot since this one looked (`NobodyDisplacedExactly`, `OverlapCanDisplace`).
- Settings changed between reading them and clearing the rebuild flag are lost, and only those
  (`UnflaggedSessionIsCurrentExactly`, `UnflaggedSettingsAreCurrentExactly`,
  `RetuneIsLostInSomeRun`). A failed thread spawn leaves the publisher claimed for good; among the
  modelled steps nothing else does (`WedgedExactly`, `FirstStartCanWedge`).
- A `stop` made before a start call has lowered the shutdown flag is lost (`StopTakesEffectExactly`,
  `StopInsideStartIsLost`).

## Model

| member | source | states |
|---|---|---|
| NalKinds.DiscoveryAgrees | crates/stream/src/main.rs:172-237 | discovery and locked classification agree on parameter sets: a stored one is recognised again with no codec known, and what locks nothing is a parameter set of neither codec |
| NalKinds.KindsByCodec | crates/stream/src/main.rs:191-236 | a locked room only yields its own codec's parameter-set types, and an unlocked one never yields a keyframe or delta |
| NalKinds.HeaderKinds | crates/stream/src/main.rs:191-236 | in header bytes: which are parameter sets, of which type, and which keyframes of each codec, that everything else is a delta, and what discovery makes of each |
| WarmupWindows.RecordKeepsInvariant | crates/stream/src/main.rs:97-117 | one `record` keeps counters equal to stored bytes within 8 and 16 MiB, at most one keyframe, no keyframe no deltas, codec unset iff no parameter sets, keys of the locked codec only; a set codec stays |
| WarmupWindows.WarmupWindow.constructor | crates/stream/src/main.rs:96-117 | a new window is empty and valid |
| WarmupWindows.WarmupWindow.Record | crates/stream/src/main.rs:270-319 | the in-place update takes the whole window to the recorded one, keeps the invariant, and reports exactly the keyframes |
| WarmupWindows.WarmupWindow.TakeSnapshot | crates/stream/src/main.rs:243-266 | the list built is the snapshot: parameter sets by ascending type, keyframe, deltas |
| WarmupHistory.InvariantOverRuns | crates/stream/src/main.rs:97-117 | the window invariant holds after any number of recordings and the codec never changes once set |
| WarmupHistory.CodecRefinesHistory | crates/stream/src/main.rs:119-126 | the room's codec is that of the first frame of the history that looks like a parameter set |
| WarmupHistory.ParamSetsRefineHistory | crates/stream/src/main.rs:103-107 | the stored parameter set of each type is the last of that type in the history |
| WarmupHistory.TailRefinesHistory | crates/stream/src/main.rs:279-317 | keyframe and deltas are the last keyframe and everything since but parameter sets, or nothing when either cap is exceeded |
| WarmupHistory.BurstKeepsItsLast | crates/stream/src/main.rs:279-296 | of consecutive keyframe NALs ending the keyframes of a history only the last is kept, so the burst is in the slot iff it is one NAL within the caps |
| WarmupHistory.SnapshotRefinesHistory | crates/stream/src/main.rs:239-319 | the incremental snapshot equals a declarative function of the whole history, and is empty exactly when the history has no keyframe within the caps |
| WarmupJoin.ReplayFixpoint | crates/stream/src/main.rs:239-319 | recording a non-empty snapshot of any reachable window into a fresh window rebuilds that window exactly |
| WarmupJoin.KeyframeSynchronises | crates/stream/src/main.rs:279-293 | two windows of one codec fed the same frames agree on keyframe and deltas from the first keyframe both are fed |
| WarmupJoin.JoinHealsExactly | crates/stream/src/main.rs:441-510 | snapshot of R frames plus frames from s on gives the room's window at every m >= R iff a keyframe came live, or only parameter sets were sent twice, or the room has dropped its cache |
| WarmupJoin.JoinWithoutRaceHeals | crates/stream/src/main.rs:441-452 | with nothing recorded between subscribing and the snapshot the viewer is level at once and stays so |
| WarmupJoin.RacedJoinDiverges | crates/stream/src/main.rs:441-452 | a concrete join that sends a delta twice and leaves the viewer out of step |
| RoomLifetimes.RacedViewerDiverges | crates/stream/src/main.rs:438-510 | a concrete run in which a viewer has been sent everything, cached and live, and is out of step with its room |
| Rooms.NeverNeither | crates/stream/src/main.rs:387-398 | with any number of publishers and viewers, each frame sent is in the history the snapshot was computed from or at or after the viewer's receive position |
| Rooms.ViewersSeeTheirPeer | crates/stream/src/main.rs:355-365 | every frame in a viewer's room came from a publisher connected under the viewer's own peer id |
| Rooms.ViewerStream | crates/stream/src/main.rs:438-510 | with any number of publishers and no lag a viewer is sent exactly the snapshot of the frames recorded by then, followed by what was sent to the room from its subscription on |
| Rooms.SolePublisherStream | crates/stream/src/main.rs:438-510 | with one publisher and no lag a viewer is sent exactly the snapshot of the first R frames, then every frame from its subscription on, and s <= R |
| Rooms.ViewerHealsExactly | crates/stream/src/main.rs:438-510 | the same as JoinHealsExactly for what a viewer of any run was really sent, once past the frames its snapshot covers |
| RoomLifetimes.ReceiversAreWatchers | crates/stream/src/main.rs:413 | in every run a room has receivers iff someone given it has subscribed and not left since |
| RoomLifetimes.PeerHasRoomExactly | crates/stream/src/main.rs:355-424 | in every run a peer has a room iff someone was admitted to it and no clean close has come since with every subscriber of it gone; socket errors and leaving viewers never drop it |
| RoomLifetimes.CloseDropsUnwatchedRoom | crates/stream/src/main.rs:407-422 | a clean close removes the peer's room iff everyone who has subscribed to it has left; the next session starts empty then, and from the old cache otherwise |
| RoomLifetimes.ErroredPublisherLeavesRoom | crates/stream/src/main.rs:383-384 | a concrete run in which the publisher ends on a socket error, nobody publishes or watches, and the room is there with its frames cached |
| RoomLifetimes.WatchedRoomOutlivesItsViewers | crates/stream/src/main.rs:411-423 | a concrete run with the same end after a clean close and the last viewer's leaving |
| RoomLifetimes.UnwatchedRoomIsDropped | crates/stream/src/main.rs:411-415 | a concrete run in which the last viewer leaves before the close: the room and its frames are gone and the next is empty |
| RoomLifetimes.LivePositions | crates/stream/src/main.rs:448-452 | every live viewer's positions are how much had been sent to its room at its subscription and how much recorded at its later snapshot |
| RoomLifetimes.LeftViewerTakesNothing | crates/stream/src/main.rs:483-510 | a viewer that has left takes nothing further |
| RoomLifetimes.EndedPublisherIsSilent | crates/stream/src/main.rs:383-424 | a publisher that has ended records and sends nothing further and ends only once |
| RoomLifetimes.LaterViewerMeetsPublisherExactly | crates/stream/src/main.rs:355-422 | in every run a viewer joining now gets the room a publisher records to iff no clean close has dropped the peer's room since that publisher connected |
| RoomLifetimes.PublisherLeftAlone | crates/stream/src/main.rs:411-415 | a concrete run in which an open publisher and a later viewer of the same peer are in different rooms |
| Rooms.RunKeepsInv | crates/stream/src/main.rs:379-510 | every step of every interleaving keeps the room, publisher and viewer invariants |
| RustDeskCodecs.RustDeskCodec.constructor | crates/proto/src/codec.rs:28-36 | a new codec expects a header and is not raw |
| RustDeskCodecs.RustDeskCodec.SetRaw | crates/proto/src/codec.rs:45-47 | switches to passthrough and keeps the decoder state |
| RustDeskCodecs.RustDeskCodec.Decode | crates/proto/src/codec.rs:54-104 | one call leaves the state, the buffer and the result of the decoding function, raw or framed |
| RustDeskCodecs.RustDeskCodec.Encode | crates/proto/src/codec.rs:110-140 | appends the encoding of the item, or nothing and fails exactly when it exceeds 64 MiB |
| RustDeskCodecs.DecodeAll | crates/proto/src/codec.rs:50-105 | decoding until no frame is left is the draining function of state and buffer, and draining again yields nothing more |
| FrameStreams.DecodeExtends | crates/proto/src/codec.rs:54-104 | bytes behind a frame or an error change nothing about it, and a decoder that needed more resumes where it stopped |
| FrameStreams.ChunkingIndependent | crates/proto/src/codec.rs:54-104 | any chunking gives the same frames, final state, leftover bytes and error as feeding all at once |
| FrameStreams.FailureRepeats | crates/proto/src/codec.rs:84-89 | an oversized header consumes nothing and fails again however many bytes follow |
| FrameStreams.HeaderReadsBack | crates/proto/src/codec.rs:69-83 | the header written for a length reads back as that length and its own size |
| FrameStreams.RefusedExactly | crates/proto/src/codec.rs:72-84 | the headers refused are exactly those of 4 bytes that announce 67108865 bytes or more |
| FrameStreams.LargestGoesThrough | crates/proto/src/codec.rs:54-140 | a payload of 67108864 bytes still round-trips |
| FrameStreams.RawHandsUpChunks | crates/proto/src/codec.rs:57-63 | in raw mode each chunk that is not empty is handed up as it came, leaving the framing state and nothing in the buffer |
| FrameStreams.StreamRoundTrip | crates/proto/src/codec.rs:54-140 | decoding the concatenated encodings of any payloads up to 64 MiB, in any chunks, gives exactly the payloads and nothing left over |
| FrameStreams.UniquelyDecodable | crates/proto/src/codec.rs:110-140 | two lists with the same encoding are the same list |
| FrameStreams.PrefixYieldsComplete | crates/proto/src/codec.rs:66-97 | a strict prefix of a stream yields the frames complete in it and no other, without error |
| FrameStreams.EncodingIsMinimal | crates/proto/src/codec.rs:124-132 | re-encoding what any buffer decoded to never takes more bytes than were consumed |
| AnnexB.FindStarts | crates/win-capturer/src/encoder.rs:354-370 | the scanning loop finds the start codes, 4-byte ones first |
| AnnexB.AnnexBSplit | crates/win-capturer/src/encoder.rs:353-389 | the two loops over positions compute the one-pass split of the bytes |
| AnnexB.SplitOfJoin | crates/win-capturer/src/encoder.rs:353-389 | splitting joined code-free NALs gives them back, less a zero in front of a 3-byte code and less the empty ones |
| AnnexB.SplitUndoesJoinExactly | crates/win-capturer/src/encoder.rs:349-389 | for any mix of 3- and 4-byte codes, splitting undoes joining iff every NAL is non-empty, has no start code inside and does not end in zero in front of a 3-byte code |
| AnnexB.SplitIsCodeFree | crates/win-capturer/src/encoder.rs:371-388 | from any buffer at all, every NAL emitted is non-empty, framed by a 4-byte code and free of start codes |
| AnnexB.LeadingBytesDropped | crates/win-capturer/src/encoder.rs:353-389 | bytes before the first start code are dropped |
| AnnexB.SplitUndoesPrefixExactly | crates/win-capturer/src/encoder.rs:349-389 | NALs put behind 4-byte codes and concatenated split into themselves iff none is empty or holds a start code |
| AnnexB.SplitIdempotent | crates/win-capturer/src/encoder.rs:349-389 | splitting the concatenated output of any buffer gives the same output |
| Avcc.AvccToAnnexB | crates/win-capturer/src/encoder.rs:323-343 | the loop emits each complete record behind a start code, or splits when the sample looks like Annex-B |
| Avcc.SniffedExactly | crates/win-capturer/src/encoder.rs:345-347 | the sniffer fires on a length-prefixed sample iff its first length is 1 or in 256..511 |
| Avcc.RewriteIsLossless | crates/win-capturer/src/encoder.rs:327-342 | records come out in order, only a truncated tail is dropped, output bytes equal consumed bytes |
| Avcc.EveryBufferParses | crates/win-capturer/src/encoder.rs:327-342 | every buffer is a list of encoded NALs and a truncated tail, so the rewrite theorem covers all buffers |
| Avcc.SingleNalExactly | crates/win-capturer/src/encoder.rs:317-326 | a one-NAL sample is rewritten faithfully iff its length is not in 256..511 |
| Avcc.SingletonsSurvive | crates/win-capturer/src/encoder.rs:323-326 | a sample of one-byte NALs is sniffed and still rewritten faithfully |
| SniffedSamples.PermittedSampleExactly | crates/win-capturer/src/encoder.rs:317-347 | a sample of NALs of any size whose first and last bytes are not zero (section 7.4.1 of ITU-T H.264) is rewritten faithfully iff its first length is neither 1 nor in 256..511, or all its NALs are of one byte |
| SniffedSamples.ShortSampleExactly | crates/win-capturer/src/encoder.rs:323-347 | a sample of any NALs shorter than 65536 bytes, permitted or not, is rewritten faithfully iff its first length is neither 1 nor in 256..511, or all its NALs are of one byte |
| SniffedSamples.LuckySampleSurvives | crates/win-capturer/src/encoder.rs:323-389 | four NALs outside both theorems that are sniffed, are not all of one byte and still come out right |
| Avcc.SampleToAnnexB | crates/win-capturer/src/encoder.rs:401-427 | every NAL of a sample goes out behind the same 8-byte big-endian stamp |
| Avcc.EmitAnnexBChunk | crates/mac-capturer/swift/MacCapturer.swift:603-620 | the bytes written one by one are the big-endian stamp and the chunk |
| Avcc.ParameterSetPrefix | crates/mac-capturer/swift/MacCapturer.swift:547-564 | the prefix is every parameter set behind a start code, in order, and empty iff there is none |
| Avcc.HandleEncoded | crates/mac-capturer/swift/MacCapturer.swift:535-613 | the macOS loop emits the parameter sets as one chunk and then every NAL without ever sniffing, each chunk behind the time read for it |
| Avcc.StampReadsBack | crates/mac-capturer/swift/MacCapturer.swift:612-618 | every signed 64-bit timestamp is recovered from its stamp |
| Nv12.LimitedRange | crates/win-capturer/src/encoder.rs:529-556 | Y is in 16..235, U and V in 16..240, so the clamps never act |
| Nv12.LumaMatchesStatedFormula | crates/win-capturer/src/encoder.rs:529-531 | Y is within 1 of the real formula stated beside it |
| Nv12.MatchesBt601 | crates/win-capturer/src/encoder.rs:513-515 | Y, Cb and Cr are within 1 of section 2.5.3 of ITU-R BT.601-7 |
| Nv12.RoundsToNearest | crates/win-capturer/src/encoder.rs:531-554 | each component is its fixed-point value rounded to the nearest integer |
| Nv12.GreyBlockHasNoChroma | crates/win-capturer/src/encoder.rs:549-556 | a block of grey pixels of any shades has chroma 128 |
| Nv12.SampleHasItsOwnByte | crates/win-capturer/src/encoder.rs:531-556 | every luma and chroma sample has an index inside the output that names it |
| Nv12.ByteHasItsOwnSample | crates/win-capturer/src/encoder.rs:531-556 | every one of the w*h*3/2 output bytes is one sample, so each is written exactly once |
| Nv12.AverageBlock | crates/win-capturer/src/encoder.rs:538-551 | the inner loops average the four pixels of the block |
| Nv12.LumaPlane | crates/win-capturer/src/encoder.rs:521-533 | the first pair of loops fills exactly the luma plane |
| Nv12.ChromaPlane | crates/win-capturer/src/encoder.rs:535-558 | the second pair of loops fills exactly the interleaved chroma plane |
| Nv12.LumaIsRight | crates/win-capturer/src/encoder.rs:521-533 | each luma byte is within 1 of the stated formula of the red, green and blue bytes of its own pixel, third, second and first of its four |
| Nv12.ChromaIsRight | crates/win-capturer/src/encoder.rs:535-558 | each pair of chroma bytes is within 1 of Cb, then Cr, of section 2.5.3 of ITU-R BT.601-7 for the averages over its block's four pixels |
| Nv12.BgraToNv12 | crates/win-capturer/src/encoder.rs:516-559 | for all even sizes every output byte is its own sample's value, luma and chroma are right in the bytes of the pixels, all accesses are in bounds and nothing beyond both planes changes |
| Nv12.RoundUpEvenIsLeastEven | crates/win-capturer/src/encoder.rs:115-118 | configured sides are the least even numbers not below the given ones, except the largest 32-bit side, which wraps to 0 |
| Nv12.PackedFrameAcceptedExactly | crates/win-capturer/src/encoder.rs:173-181 | a packed frame of the configured display is accepted iff both its sides are even, or one is 0 or the largest 32-bit number |
| CaptureToRelay.FramedNalClassified | crates/stream/src/main.rs:172-189 | behind any 8-byte stamp and either start code a NAL is classified by its own header byte |
| CaptureToRelay.UnframedIsUnknown | crates/stream/src/main.rs:172-189 | a frame with no start code behind its stamp is unknown |
| CaptureToRelay.StampedNalClassified | crates/stream/src/main.rs:172-237 | a non-empty stamped NAL is classified by its own header byte for any timestamp and is never unknown once a codec is known |
| CaptureToRelay.StampedNalKind | crates/stream/src/main.rs:191-211 | locked to HEVC a stamped NAL is a keyframe iff its header byte modulo 128 is in 32..47 and a parameter set iff in 64..69; locked to H.264 iff modulo 32 it is 5, and 7 or 8; everything else is a delta |
| CaptureToRelay.SampleClassified | crates/win-capturer/src/encoder.rs:401-427 | every chunk of every sample, sniffed or not, is a stamped NAL the relay classifies by that NAL's header |
| CaptureToRelay.SessionLocksItsCodec | crates/stream/src/main.rs:166-171 | a session starting with a parameter set locks its codec, and every later NAL is classified as that codec would |
| CaptureToRelay.SessionSnapshotExactly | crates/stream/src/main.rs:243-319 | a viewer joining a session of either codec is replayed something iff the last random access point, told by its header byte, is within 8 MiB and what is not a parameter set since within 16 MiB |
| CaptureToRelay.LocksExactly | crates/stream/src/main.rs:212-236 | the room locks to a codec iff the first NAL that looks like a parameter set of either looks like one of that codec |
| CaptureToRelay.SliceFirstLocksWrongCodec | crates/stream/src/main.rs:212-225 | an H.264 session joined at a slice 0x41 locks to HEVC and its parameter sets are then deltas |
| CaptureToRelay.GluedSetsShareOneSlot | crates/mac-capturer/swift/MacCapturer.swift:539-585 | whatever HEVC sets a keyframe has, the relay files the macOS chunk of them under the first one's type and changes nothing else, or files none when locked to H.264 |
| CaptureToRelay.GluedSetsKeepTypesExactly | crates/stream/src/main.rs:270-283 | after that chunk a set's type is cached iff it is the first one's or was before; from an empty cache every set's type is present iff all are of one type |
| CaptureToRelay.GluedSetsComeApartExactly | crates/mac-capturer/swift/MacCapturer.swift:547-585 | splitting that chunk behind its stamp gives every set back iff none is empty or holds a start code |
| Registry.PeerRegistry.Upsert | crates/rendezvous/src/registry.rs:42-51 | sets the peer's entry and no other |
| Registry.PeerRegistry.Get | crates/rendezvous/src/registry.rs:53-55 | returns exactly the entry there is |
| Registry.PeerRegistry.RemoveIfWs | crates/rendezvous/src/registry.rs:57-65 | removes the entry iff it is a push channel and the caller's own |
| Registry.LookupFindsLatestSurviving | crates/rendezvous/src/registry.rs:42-66 | after any registrations and disconnects a lookup finds exactly the latest registration that survives |
| Rendezvous.PendingMap.Insert | crates/rendezvous/src/server.rs:437-440 | files the requester under the target and tells whom it overwrote |
| Rendezvous.PendingMap.PopAny | crates/rendezvous/src/server.rs:443-455 | answers and removes one entry, whichever comes first, unless there is none |
| Rendezvous.InsertAsStep | crates/rendezvous/src/server.rs:437-440 | filing on the object is the machine's insert step |
| Rendezvous.AckAsStep | crates/rendezvous/src/server.rs:443-455 | answering on the object is the machine's ack step for the key that came first |
| Rendezvous.PunchesConserved | crates/rendezvous/src/server.rs:411-456 | in every interleaving inserts equal responses, overwritten and pending entries, in total and per requester, and responses never exceed acks |
| Rendezvous.TcpAnsweredAtMostOnce | crates/rendezvous/src/server.rs:180-247 | a TCP requester gets at most one response |
| Rendezvous.AckBetweenNotifyAndInsert | crates/rendezvous/src/server.rs:431-455 | from any run, an ack between notify and insert answers the requester of whichever entry comes first, nobody iff none is pending, and the target's own requester is filed only afterwards |
| Rendezvous.AckReachesOwnRequesterExactly | crates/rendezvous/src/server.rs:443-455 | once a requester is filed, an ack serves its request iff the map yields that entry; it is sure to iff no other target is pending, and the requester is sure of an answer iff it alone is waiting |
| Rendezvous.AckCanComeTooSoon | crates/rendezvous/src/server.rs:431-440 | a concrete run in which the only ack answers nobody and the requester stays pending |
| Rendezvous.AckCanAnswerAnother | crates/rendezvous/src/server.rs:443-455 | a concrete run in which one target acks and the requester of another is answered |
| Rendezvous.LookupInRun | crates/rendezvous/src/server.rs:419-420 | in every run of the server a lookup finds exactly the latest surviving registration |
| RendezvousLookup.LookupFindsExactly | crates/rendezvous/src/server.rs:105-420 | in every run a lookup finds an id at an address iff some message registered it so, no later message registered it, and that connection has not closed with the id as its last |
| RendezvousLookup.ConnectionIds | crates/rendezvous/src/server.rs:334-361 | a connection's remembered id is the last it registered, over both kinds of registration |
| RendezvousLookup.RegisterPkRegisters | crates/rendezvous/src/server.rs:354-363 | RegisterPk registers as RegisterPeer does, unless its id is empty: then nothing changes |
| RendezvousLookup.BusyConnectionWaits | crates/rendezvous/src/server.rs:180-247 | a connection inside a punch, closed, or past its only TCP message handles none |
| RendezvousLookup.FirstMessageIsLast | crates/rendezvous/src/server.rs:191-236 | a TCP connection's first message is its last, whether or not its target is found |
| RendezvousLookup.NoticeGoesWhereLookedUp | crates/rendezvous/src/server.rs:419-436 | the target is notified where the lookup found it, whatever is registered or closed between |
| Rendezvous.DisconnectRemovesOnlyOwn | crates/rendezvous/src/server.rs:399-401 | a disconnect removes the connection's last id iff it still owns the entry, and changes nothing else |
| Rendezvous.OneIdLeavesNothing | crates/rendezvous/src/server.rs:399-401 | a closed connection that only ever used one id has no entry left, whatever else runs |
| Rendezvous.DisconnectLeavesExactly | crates/rendezvous/src/server.rs:334-401 | a disconnect leaves something of the connection's iff an id other than its last still maps to it |
| Rendezvous.TwoIdsLeaveOne | crates/rendezvous/src/server.rs:334-361 | a concrete connection that registers two ids and leaves the first behind |
| RelayPairing.WaitSlot.Take | crates/relay/src/main.rs:109-112 | the first lock section empties the slot |
| RelayPairing.WaitSlot.Replace | crates/relay/src/main.rs:121-123 | the second lock section fills it and drops whoever was there |
| RelayPairing.WaitSlot.PairOrWait | crates/relay/src/main.rs:108-125 | an uninterrupted call pairs with whoever waits, or waits, and drops nobody |
| RelayPairing.TakeAsStep | crates/relay/src/main.rs:109-120 | taking on the object is the machine's take: a partner found makes a pair, else the call holds |
| RelayPairing.PutAsStep | crates/relay/src/main.rs:121-123 | replacing on the object is the machine's put: whoever waited is the one dropped |
| RelayPairing.CallAsTwoSteps | crates/relay/src/main.rs:108-125 | an uninterrupted call on the object is the machine's take and put of one task in a row |
| RelayPairing.EachInOnePlace | crates/relay/src/main.rs:63-125 | in every interleaving each accepted connection is in exactly one of a pair, the slot, a call or the dropped ones |
| RelayPairing.PairingConserves | crates/relay/src/main.rs:63-125 | accepted = 2 pairs + waiting + in hand + displaced |
| RelayPairing.PairsDisjoint | crates/relay/src/main.rs:113-120 | no connection is paired with itself or twice |
| RelayPairing.NobodyDisplacedExactly | crates/relay/src/main.rs:108-125 | in every interleaving nobody is dropped iff no call puts its connection into a slot filled since its take |
| RelayPairing.NobodyDisplaced | crates/relay/src/main.rs:108-125 | so nobody is dropped unless both tasks are past an empty take at once |
| RelayPairing.BothHoldingNeedNotDisplace | crates/relay/src/main.rs:108-125 | a concrete run in which both are and still nobody is dropped |
| RelayPairing.SerialCallsPairNeighbours | crates/relay/src/main.rs:63-125 | calls that never overlap pair arrivals 2i and 2i+1 for every i and drop nobody |
| RelayPairing.OverlapCanDisplace | crates/relay/src/main.rs:108-125 | a concrete interleaving that drops a connection |
| RelayPump.PumpTcpToWs | crates/relay/src/main.rs:173-183 | for any read sizes the Binary payloads, each 1 to 32 KiB, are a prefix of the TCP bytes and all of them at end of stream |
| RelayPump.PumpWsToTcp | crates/relay/src/main.rs:184-193 | writes exactly the Binary payloads before the first close, in order |
| RelayPump.PumpWsToWs | crates/relay/src/main.rs:147-156 | forwards the messages before the first close unchanged |
| RelayPump.CarriedFrames | crates/relay/src/main.rs:170-195 | however an encoded stream is cut, what decodes is a prefix of the frames sent, and all of them iff every byte is there |
| RelayPump.SendTcpToWs | crates/relay/src/main.rs:173-183 | frames encoded by the codec, pumped with any read sizes and decoded message by message arrive as sent |
| RelayPump.SendWsToTcp | crates/relay/src/main.rs:184-193 | frames encoded by the codec, sent in Binary messages cut anywhere with other messages between, pumped and read back in any pieces arrive in order, and all of them iff every byte was sent before a close and read |
| CaptureSessions.SharedState.Claim | crates/win-capturer/src/publisher.rs:102-114 | a start succeeds iff none is running and then sets everything |
| CaptureSessions.SharedState.Select | crates/win-capturer/src/publisher.rs:142-153 | while running the display is the one given and the flag goes up unless it was active already; no other field changes |
| CaptureSessions.SharedState.Bitrate | crates/win-capturer/src/publisher.rs:159-167 | while running the bitrate is the one given and the flag goes up; no other field changes |
| CaptureSessions.SharedState.Fps | crates/win-capturer/src/publisher.rs:173-181 | while running the rate is the one given and the flag goes up; no other field changes |
| CaptureSessions.SharedState.Resolution | crates/win-capturer/src/publisher.rs:189-198 | while running width and height are those given and the flag goes up; no other field changes |
| CaptureSessions.SharedState.ReadSettings | crates/win-capturer/src/publisher.rs:235-244 | reads all five settings together |
| CaptureSessions.SharedState.ClearRebuild | crates/win-capturer/src/publisher.rs:245-247 | lowers the flag and nothing else |
| CaptureSettings.ClaimAsStep | crates/win-capturer/src/publisher.rs:102-114 | claiming on the object is the machine's start step |
| CaptureSettings.SetAsStep | crates/win-capturer/src/publisher.rs:142-198 | each setter on the object is the machine's set step |
| CaptureSettings.ReadAsStep | crates/win-capturer/src/publisher.rs:235-244 | reading on the object gives the snapshot the machine's thread holds |
| CaptureSettings.ClearAsStep | crates/win-capturer/src/publisher.rs:245-247 | clearing on the object is the machine's clear step |
| CaptureSessions.SessionsNeverOverlap | crates/win-capturer/src/publisher.rs:95-133 | in every interleaving of starts, stops and exits there is at most one capture thread |
| CaptureSessions.RetuneStopsSession | crates/win-capturer/src/publisher.rs:344-355 | an effective change since the session's flag clear stops the session at its next flag check |
| CaptureSessions.StoppingSessionOnlyEnds | crates/win-capturer/src/publisher.rs:347-355 | a stopping session takes no further frame: it stays as it is or has ended, whatever else happens |
| CaptureSessions.RetuneReachesNextSession | crates/win-capturer/src/publisher.rs:230-288 | every later session's settings are those of a revision no older than any change made while an earlier session ran |
| CaptureSettings.SettingsAreLastWritten | crates/win-capturer/src/publisher.rs:102-198 | in every run each field of the settings is what the last successful start or effective setter of that field wrote |
| CaptureSettings.SessionRunsWithLastWritten | crates/win-capturer/src/publisher.rs:230-244 | in every run each field of a session's settings is what was last written to it before the session read them |
| CaptureSettings.RetuneCarriedThrough | crates/win-capturer/src/publisher.rs:230-355 | a concrete run in which a session is told a new frame rate, stops, and the next runs at it |
| CaptureSettings.FlagDecidesFrame | crates/win-capturer/src/publisher.rs:351-355 | a frame stops the session iff the rebuild flag is up and else goes on with its dimensions |
| CaptureSettings.FrameDecidesSession | crates/win-capturer/src/publisher.rs:363-412 | a frame of other dimensions stops the session and raises the rebuild flag, a gone receiver stops it and raises the shutdown flag, a failure ends it, the first frame fixes the dimensions |
| CaptureSessions.UnflaggedSessionIsCurrent | crates/win-capturer/src/publisher.rs:235-247 | a session with the flag down has seen no change since its clear, and is current unless one fell between read and clear |
| CaptureSessions.UnflaggedSessionIsCurrentExactly | crates/win-capturer/src/publisher.rs:235-247 | in every run a session with the flag down has the latest revision of the settings iff no effective change fell between its reading them and its clearing the flag, and those changes applied in order to what it read give the settings there are |
| CaptureSessions.UnflaggedSettingsAreCurrentExactly | crates/win-capturer/src/publisher.rs:235-247 | its settings themselves are the ones there are iff the last of those changes of each kind, if any, wrote what it had read |
| CaptureSessions.RetuneBetweenSectionsIsLost | crates/win-capturer/src/publisher.rs:235-247 | from any state, a change between the two lock sections is lost |
| CaptureSessions.RetuneIsLostInSomeRun | crates/win-capturer/src/publisher.rs:235-247 | a concrete run that ends with an unflagged session at the old frame rate |
| CaptureSessions.FailedSpawnWedges | crates/win-capturer/src/publisher.rs:120-131 | after a failed spawn no later start ever succeeds, whatever happens |
| CaptureSessions.WedgedExactly | crates/win-capturer/src/publisher.rs:95-133 | in every run the publisher is claimed with no call or thread left to release it iff some spawn has failed |
| CaptureSessions.FirstStartCanWedge | crates/win-capturer/src/publisher.rs:120-131 | a concrete run in which the first start does so |
| CaptureStops.StopHolds | crates/win-capturer/src/publisher.rs:125-139 | a stop made once a start call has lowered the flag keeps it up until the capture thread lowers it on its way out or fails to spawn |
| CaptureStops.StopIsLost | crates/win-capturer/src/publisher.rs:102-139 | a stop made with nobody there, inside a start call before that, or after the thread has lowered the flag, never reaches a later thread |
| CaptureStops.StopTakesEffectExactly | crates/win-capturer/src/publisher.rs:102-139 | whoever is there to heed a stop finds the flag up iff somebody was there when it was made, with no thread gone and no new raise between |
| CaptureStops.ThreadHeedsFlag | crates/win-capturer/src/publisher.rs:230-350 | a thread that looks at the flag leaves its loop or takes no further frame iff it is up |
| CaptureStops.FlagIsUpExactly | crates/win-capturer/src/publisher.rs:115-139 | in every run the shutdown flag is up iff a stop or a gone receiver has asked for it and neither a start call nor a leaving thread has lowered it since |
| CaptureStops.SenderIsThereExactly | crates/win-capturer/src/publisher.rs:117-128 | in every run the sender slot is filled iff a start call has filled it and its thread has not emptied it, or failed to spawn |
| CaptureStops.EveryWayOutReleases | crates/win-capturer/src/publisher.rs:120-131 | a thread that leaves by a failed initialisation, a monitor not found, or the flag gives up claim, flag and sender |
| CaptureStops.StopInsideStartIsLost | crates/win-capturer/src/publisher.rs:114-139 | a concrete run in which a stop falls between a start call's lock section and its lowering of the flag, and the thread goes on to capture |

## Left out

- SniffedSamples.ShortSampleExactly: with `PermittedSampleExactly` it leaves open the samples that have both a NAL of 65536 bytes or more and a NAL that is empty or begins or ends in zero, which an H.264 encoder does not emit; `LuckySampleSurvives` shows the same condition does not hold of all of them.
- Rooms.ViewerStream: does not cover lagging receivers; a `Lag` step skips ahead, and the content theorems exclude viewers that lagged.
- WarmupJoin.JoinHealsExactly: says nothing of a viewer whose snapshot was empty; it waits for the next keyframe with no parameter sets replayed.
- CaptureToRelay.SessionLocksItsCodec: needs a first NAL with a parameter-set header, since other header bytes alias across codecs (`SliceFirstLocksWrongCodec`).
- Rooms are modelled on values rather than as objects shared by handlers; `WarmupWindow` is the class for the part the source updates in place. Closing of the broadcast channel and the heartbeat ping are not modelled.
- CaptureSessions.WedgedExactly: does not cover a panic on the capture thread or the error return on a poisoned sender lock, which also skip the release.
- Whether a requester is still connected when a response is sent to it: responses count attempts.
- Messages other than registration, punch and ack, protobuf encoding, and the audit log.
- Sockets, handshakes, task scheduling, timeouts and the TCP to TCP copy, which is a library call.
- MediaFoundation, VideoToolbox, ScreenCaptureKit and Windows capture calls, and presentation times.
- The control plane (SQL, bearer check, id generation), the web pages and the scripts.
