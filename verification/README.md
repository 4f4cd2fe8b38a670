# One-KVM: streams, timing and state machines

One-KVM is an IP-KVM daemon: it captures video and audio, injects keyboard and mouse input over a CH9329
serial chip or a USB OTG gadget, and serves RTSP and RustDesk clients. These modules model the parts of it
where bytes, frames, events or counters have to come out right over a whole stream or a whole run, and
prove that they do, or exactly when.

| module | models |
|---|---|
| `Resampler` | the 48 kHz PCM buffer in front of the Opus encoder |
| `HidQueue` | the HID event queue: producers, channel, one-slot mouse move, flag, worker |
| `AnnexB` | the H.264/H.265 byte stream splitter |
| `RtspControl` | the RTSP control channel with interleaved frames |
| `RtpClock` | RTP time stamps, sequence numbers and markers |
| `BytesCodec` | RustDesk's variable-length framing |
| `SessionNonce` | the nonce counters of an encrypted RustDesk session |
| `VideoGate` | the gate that waits for keyframes after a gap |
| `Ch9329` | CH9329 packets and their resynchronising receiver |
| `Keyboard` | the six-key report and the CH9329 keyboard state |
| `OtgEndpoint`, `OtgManager`, `OtgConfig`, `OtgService` | endpoint accounting, gadget functions, configuration budget, gadget reconcile |
| `CivilDate` | days since the epoch to a calendar date |
| `ChannelWriter` | the writer that cuts a download into chunks |
| `Prelude` | options, results, bytes, chunked streams |

Objects that the program updates in place are classes whose methods are proved against specification
functions; the theorems are lemmas about those functions, and a method that drives the class over a whole
input ties the two together. The event queue is a system of atomic steps, one per atomic action of the
program, and its theorems hold in every state that any interleaving reaches.

Some of what the program's design suggests does not hold of the code as it is. Each such case is a lemma
with the condition under which it holds, or a run that shows it does not:

- the resampler is faithful up to 144 kHz input and no further (`Resampler.RunsFaithfulIff`);
- the CH9329 checksum detects a change of any byte but the length (`Ch9329.LengthChangeDetectedIff`), and
  a stray header pair can make the receiver wait in front of a good packet (`Ch9329.StrayHeaderStalls`):
  a packet is found exactly if the scan gets past all that stands before it (`Ch9329.PacketFoundIff`);
- control requests are taken as sent exactly if no interleaved frame shows a blank line before its end and
  a frame right after a request that does not parse is followed by nothing that could be taken
  (`RtspControl.TakenAsSentIff`);
- mouse moves can be processed out of order, even those of one producer and without any race
  (`HidQueue.MovesCanSwap`): exactly when a take from the slot passes an older move in the channel or comes
  after a newer one (`HidQueue.MovesSwappedIff`);
- the video gate is exact within one subscription, but its state outlives a subscription
  (`VideoGate.ForwardsDecodableIff`, `VideoGate.RestartDeceives`);
- the report shows the keys held only while there are at most six (`Keyboard.ReportIsExactIff`);
- RTP time can go back at the 32-bit wrap (`RtpClock.WrapGoesBack`), and over a whole run increases exactly
  without one (`RtpClock.StampsIncreaseIff`);
- the endpoint budget counts an endpoint for keyboard LEDs that the gadget does not take
  (`OtgConfig.RejectedThoughItFitsIff`).

## Model

| member | source | states |
|---|---|---|
| Resampler.RunsFaithfulIff | src/audio/resample.rs:56-156 | in every run of pushes of any size and pops, each sample popped is the integer nearest to the line between its two neighbours in the whole input, halves away from zero, if and only if the rate is at most 144000 |
| Resampler.SafeRunsComplete | src/audio/resample.rs:75-127 | up to that rate a last pop leaves no complete block behind and pops no incomplete one |
| Resampler.OutputInterpolatesIff | src/audio/resample.rs:81-109 | the whole-stream resampler is exactly linear interpolation at positions k times rate over 48000: both neighbours are in the stream and every sample is the nearest integer between them |
| Resampler.LerpIsNearestIff | src/audio/resample.rs:93-109 | between any two samples the interpolated one is the nearest integer, halves away from zero, and no other |
| Resampler.ChunkingIrrelevant | src/audio/resample.rs:51-128 | up to that rate the pops depend on the input bytes alone, not on how they were pushed or when earlier pops came |
| Resampler.SafeRunsResampleInput | src/audio/resample.rs:131-155 | up to that rate no run ever loses or doubles an input frame at a trim |
| Resampler.ClipFreeIff | src/audio/resample.rs:148-154 | the clip of a trim to the buffer's length is inactive for all streams exactly up to 144000 |
| Resampler.HighRateLosesFrames | src/audio/resample.rs:149-155 | for every higher rate and channel count, a run whose output is not the resampled input |
| Resampler.RunPipeline | src/audio/resample.rs:25-128 | the buffer driven over any run interpolates its stream linearly, also above the safe rate |
| Resampler.Opus48kPcmBuffer.PopOpusFrames | src/audio/resample.rs:56-128 | all popped so far interpolates the stream linearly, it is every complete block and no more, and at most rate/50 + 3 frames stay buffered |
| Resampler.Opus48kPcmBuffer.PushInterleaved | src/audio/resample.rs:51-53 | the stream grows by the data; the buffer stays the stream from its start frame on |
| Resampler.Opus48kPcmBuffer.FillBlock | src/audio/resample.rs:76-111 | the inner loop: up to 960 frames, each sample the nearest integer between its neighbours in the buffer, ending early only at the first one not available |
| Resampler.Opus48kPcmBuffer.TrimResamplePrefix | src/audio/resample.rs:131-155 | the trim drops what the specification drops and moves the start frame by the unclipped amount |
| Resampler.BlockCompleteIff | src/audio/resample.rs:82-87 | the number of blocks popped is the largest the input supports |
| Resampler.LerpBetween | src/audio/resample.rs:93-109 | an interpolated sample lies between its neighbours, so the 16-bit clamp never changes it |
| Resampler.ResampledIdentity | src/audio/resample.rs:28-29 | interpolating 48 kHz stereo returns it unchanged, so the pass-through state loses nothing |
| HidQueue.ReachableInvariant | src/hid/mod.rs:518-634 | order, slot, flag and conservation invariants hold in every reachable state of every interleaving |
| HidQueue.NonMovesInAcceptanceOrder | src/hid/mod.rs:534-552 | events that are not moves are processed in exactly their acceptance order, and the queue never exceeds 64 |
| HidQueue.EachEventInOnePlace | src/hid/mod.rs:597-634 | every submitted event is in exactly one place, once: producer, channel, worker, slot, superseded, processed or dropped |
| HidQueue.FilledSlotIsAnnounced | src/hid/mod.rs:545-550 | a filled slot implies that the flag is set, or a producer is about to set it, or the worker is about to empty the slot |
| HidQueue.SlotMovesInWriteOrder | src/hid/mod.rs:597-609 | moves through the slot are processed in write order; one is superseded only by the next write |
| HidQueue.DroppedIff | src/hid/mod.rs:611-627 | over any run an event is dropped if and only if it waited for a place in the channel until its time ran out |
| HidQueue.WaitingIsNoMove | src/hid/mod.rs:597-627 | only events that are not moves wait, so no move is ever dropped |
| HidQueue.WaitingCanBeAccepted | src/hid/mod.rs:615-620 | from every reachable state an event that waits can still be accepted next, after the worker takes one event if the channel is full |
| HidQueue.TakesWithinStores | src/hid/mod.rs:545-550 | over any run the worker looks into the slot at most once for each time the flag was set |
| HidQueue.FirstEventsAccepted | src/hid/mod.rs:597-614 | the channel turns nothing away before it is full: the first 64 events of one producer use neither slot nor timed send |
| HidQueue.MovesSwappedIff | src/hid/mod.rs:534-609 | in every run of one producer that ends drained, moves are processed out of submission order if and only if some take from the slot finds an older move in the channel or comes after a newer move was processed from it |
| HidQueue.UnusedSlotKeepsOrder | src/hid/mod.rs:597-609 | as long as the slot has not been used, the moves of one producer keep their order |
| HidQueue.StepSwaps | src/hid/mod.rs:545-550 | no step but such a take ever changes the order of what is processed, in hand and queued |
| HidQueue.MovesCanSwap | src/hid/mod.rs:545-550 | a race-free run: the move in the slot is flushed after the first key, ahead of the older move still queued |
| HidQueue.RefusedMoveIsPassed | src/hid/mod.rs:597-609 | a racing run: a refused move reaches the slot after the channel was emptied and is passed by the next move |
| AnnexB.SplitUndoesJoin | src/rtsp/service.rs:804-857 | splitting returns exactly the NAL units joined with any mix of 3- and 4-byte start codes and padding zeros |
| AnnexB.SplitIsClean | src/rtsp/service.rs:804-831 | on any input the slices are in order, disjoint, not empty, free of start codes and of trailing zeros |
| AnnexB.SplitLeavesOutNothing | src/rtsp/service.rs:804-831 | after the first start code only zeros and start codes are left out |
| AnnexB.SplitStartsAfterCode | src/rtsp/service.rs:808-831 | nothing before the first start code is returned |
| AnnexB.FindFirst | src/rtsp/service.rs:833-857 | the search stops at the first start code and knows the four-byte form |
| AnnexB.SplitAnnexBNalUnits | src/rtsp/service.rs:804-831 | the loop computes the specified split |
| AnnexB.FindAnnexBStartCode | src/rtsp/service.rs:833-857 | the loop computes the specified search |
| RtspControl.TakenAsSentIff | src/rtsp/service.rs:584-598 | for all well-formed requests and frames, whether the requests parse or not: every way of cutting the stream into reads yields the requests as sent if and only if, before the end of the session, no frame shows a blank line early and a frame right after a request that does not parse is followed by frames only, all without a blank line |
| RtspControl.RunTakesRequests | src/rtsp/service.rs:584-598 | clean traffic, also with requests that do not parse, is taken as sent for every split into reads, and nothing is left behind |
| RtspControl.UnparsedRequestHidesFrame | src/rtsp/service.rs:588-590 | an instance of the second break: in one read the frame is taken for a request, in three reads the same bytes are taken as sent |
| RtspControl.RunQuiet | src/rtsp/service.rs:584-598 | without a blank line nothing is ever taken, whatever is stripped and however the bytes are cut |
| RtspControl.StripUndoesSendIff | src/rtsp/service.rs:606-687 | stripping removes exactly what was sent if and only if the packet has at most 65535 bytes |
| RtspControl.InterleavedLayout | src/rtsp/service.rs:606-625 | a frame on the wire byte by byte: dollar sign, channel, 16-bit length with the higher byte first, packet |
| RtspControl.DispatchedAsSent | src/rtsp/service.rs:588-596 | of requests taken as sent exactly those that parse are dispatched, in order, up to the one that ends the session |
| RtspControl.ControlLoop | src/rtsp/service.rs:578-599 | the loop over reads takes and dispatches what the specification says |
| RtspControl.HandleRequests | src/rtsp/service.rs:588-598 | the inner loop, with its asymmetric strip after handled requests only |
| RtspControl.StripInterleavedFramesPrefix | src/rtsp/service.rs:674-687 | a dollar sign and as many bytes as the two length bytes announce are dropped, or nothing |
| RtspControl.TakeRtspRequestFromBuffer | src/rtsp/service.rs:689-695 | the text up to the end of the first CR LF CR LF is removed, or nothing if there is none |
| RtspControl.FindBytes | src/rtsp/service.rs:697-701 | the first match, or none anywhere |
| RtpClock.StampsBeforeWrap | src/rtsp/service.rs:1144-1155 | until the 32-bit wrap stamps strictly increase, never lag the 90 kHz PTS and equal it whenever it passes the last stamp |
| RtpClock.StampsAreTimeline | src/rtsp/service.rs:1131-1155 | wrapping 32-bit stamps equal the unbounded timeline while that is below 2^32 |
| RtpClock.TimelineLeads | src/rtsp/service.rs:1144-1155 | the timeline is the PTS last adopted plus the increments since, and at least the latest PTS |
| RtpClock.LeadBoundedIff | src/rtsp/service.rs:1144-1155 | the lead over the latest PTS is at most the increments since the last adoption if and only if that PTS is not below the one adopted |
| RtpClock.StampsIncreaseIff | src/rtsp/service.rs:1131-1155 | over any whole run the stamps strictly increase if and only if the last would be below 2^32 without wrapping |
| RtpClock.UnwrappedIsTimeline | src/rtsp/service.rs:1131-1155 | those unwrapped stamps are the exact timeline while that is below 2^32 |
| RtpClock.PtsIsTicks | src/rtsp/service.rs:1131-1136 | the stamp of a PTS is its 90 kHz time modulo 2^32 as long as the 64-bit product does not wrap |
| RtpClock.StampIs | src/rtsp/service.rs:1144-1155 | the stamp by value: that time where it is greater than the last stamp, and the last plus the increment modulo 2^32 elsewhere |
| RtpClock.StampIncreasesIff | src/rtsp/service.rs:1148-1152 | one stamp increases exactly unless the PTS does not pass it and the increment wraps |
| RtpClock.WrapGoesBack | src/rtsp/service.rs:1144-1155 | three frames at the wrap whose stamps go forward and back again |
| RtpClock.MarkersTellFrames | src/rtsp/service.rs:551-572 | grouping packets by marker gives back each frame's packets: the marker is on the last packet of a frame and on no other |
| RtpClock.PacketsAreFrames | src/rtsp/service.rs:535-572 | each frame is in its place among the packets: its payloads in order, all with the stamp of the run up to it, numbered on, the last one marked, and nothing else is sent |
| RtpClock.PayloadsAreSent | src/rtsp/service.rs:551-572 | the payloads of all packets, in order, are the concatenation of the frames' payloads |
| RtpClock.NumbersStep | src/rtsp/service.rs:570-570 | across all frames sequence numbers step by one modulo 2^16 |
| RtpClock.RtpStream.SendFrame | src/rtsp/service.rs:535-572 | packet k carries payload k, the current stamp, the next number and, if last, the marker; a frame without payloads still moves the clock |
| RtpClock.StreamVideo | src/rtsp/service.rs:535-572 | a whole run sends every frame in its place and the payloads in order |
| BytesCodec.EncodedStreamDecodes | src/rustdesk/bytes_codec.rs:184-268 | the concatenated encodings of any messages within the limit decode to exactly those and leave nothing |
| BytesCodec.DrainSplits | src/rustdesk/bytes_codec.rs:184-243 | decoding piece by piece equals decoding at once, for every stream, malformed ones included |
| BytesCodec.ReceiveStream | src/rustdesk/bytes_codec.rs:179-243 | a codec with any limit fed with chunks returns what the whole stream holds |
| BytesCodec.FrameDecodes | src/rustdesk/bytes_codec.rs:205-243 | one frame decodes to its message and leaves what follows, or is refused by a smaller limit |
| BytesCodec.StepExtends | src/rustdesk/bytes_codec.rs:184-203 | more bytes never change a result already returned |
| BytesCodec.FramesPrefixFree | src/rustdesk/bytes_codec.rs:19-46 | no frame is a proper prefix of another |
| BytesCodec.FrameLayout | src/rustdesk/bytes_codec.rs:19-46 | a frame on the wire byte by byte, for each of the four header lengths |
| BytesCodec.EncodeFrame | src/rustdesk/bytes_codec.rs:19-46 | the frame of a message, or an error beyond 0x3FFFFFFF bytes |
| BytesCodec.EncodeFrameInto | src/rustdesk/bytes_codec.rs:124-150 | appends the identical frame to the buffer |
| BytesCodec.BytesCodec.Encode | src/rustdesk/bytes_codec.rs:246-268 | appends the identical frame to the buffer |
| BytesCodec.BytesCodec.Decode | src/rustdesk/bytes_codec.rs:184-243 | one stateful call consumes and returns as specified |
| BytesCodec.HeaderReadersAgree | src/rustdesk/bytes_codec.rs:49-65 | the two header readers agree on every header |
| BytesCodec.ReadFrame | src/rustdesk/bytes_codec.rs:68-97 | reading one frame from a stream agrees with the codec |
| BytesCodec.HeadValueFits | src/rustdesk/bytes_codec.rs:205-236 | no header announces more than 0x3FFFFFFF bytes |
| SessionNonce.Session.Send | src/rustdesk/connection.rs:438-456 | the i-th sealed message, reply, video or audio, carries i in eight little-endian bytes and sixteen zeros, across key changes |
| SessionNonce.Session.Receive | src/rustdesk/connection.rs:469-491 | a message is opened exactly if it is sealed under the key with the next number in those bytes; anything else is passed on and the counter is rolled back |
| SessionNonce.Converse | src/rustdesk/connection.rs:347-381 | two sides in any run of messages, key changes and unsealed messages: exactly the messages sealed are opened, in order, the others come as sent, and both counters end at the number of sealed messages |
| SessionNonce.OpenedAreSealed | src/rustdesk/connection.rs:469-491 | as many messages are opened as were sealed |
| SessionNonce.ReceiveAll | src/rustdesk/connection.rs:469-491 | a session that receives any messages opens exactly those that carry its next nonce, and its count is their number |
| SessionNonce.NoncesDistinctIff | src/rustdesk/connection.rs:432-436 | no nonce repeats if and only if at most 2^64 messages were sealed |
| SessionNonce.NonceTellsNumber | src/rustdesk/connection.rs:432-436 | two counter values share a nonce only if they are equal |
| SessionNonce.NonceBytesAre | src/rustdesk/connection.rs:432-436 | the nonce byte by byte: the counter, least significant byte first, and sixteen zeros |
| SessionNonce.MissedMessagesBlock | src/rustdesk/connection.rs:472-487 | a receiver that misses sealed messages opens none of the later ones; one that misses none opens all |
| VideoGate.ForwardsDecodableIff | src/rustdesk/connection.rs:1698-1736 | over any number of subscriptions the gate forwards exactly the decodable frames if and only if no subscription begins where the open gate sees no gap to its first, non-key frame |
| VideoGate.OneSubscriptionExact | src/rustdesk/connection.rs:1698-1736 | within one subscription a frame is forwarded if and only if consecutive received frames join it to a keyframe |
| VideoGate.DecodableIsForwarded | src/rustdesk/connection.rs:1704-1720 | nothing decodable is ever held back |
| VideoGate.SentInRunsIff | src/rustdesk/connection.rs:1698-1736 | over any number of subscriptions the output is a concatenation of gap-free runs, each of one subscription and begun by a keyframe, if and only if the gate is nowhere deceived |
| VideoGate.RestartDeceives | src/rustdesk/connection.rs:1623-1624 | after a pipeline restart a non-key frame is forwarded without any keyframe of its subscription |
| VideoGate.Gate.OnFrame | src/rustdesk/connection.rs:1698-1736 | a frame is forwarded exactly if received frames without a visible gap chain it to a keyframe |
| VideoGate.RunVideoStreaming | src/rustdesk/connection.rs:1623-1736 | the loop sends exactly the chained frames, in order |
| Ch9329.ReceiveFindsPackets | src/hid/ch9329.rs:639-663 | over packets in noise free of header pairs the receive loop sees exactly their responses for every chunking, overflow trims included |
| Ch9329.OverflowCutsNoise | src/hid/ch9329.rs:659-662 | the overflow trim never cuts into an incomplete packet with at most 64 data bytes |
| Ch9329.OverflowCutsTo | src/hid/ch9329.rs:659-662 | a buffer over 280 bytes is cut to its last 70 and no other is touched |
| Ch9329.ExtractStable | src/hid/ch9329.rs:593-616 | a response once extracted is unchanged by appending any bytes |
| Ch9329.PacketFoundIff | src/hid/ch9329.rs:593-616 | a packet is the one extracted if and only if every header pair before it announces an end within the buffer and encloses no packet |
| Ch9329.PassableReceived | src/hid/ch9329.rs:639-663 | with any such bytes between packets, every chunking that does not overflow the buffer yields exactly their responses |
| Ch9329.UncutIsWhole | src/hid/ch9329.rs:639-663 | unless the buffer overflows, the responses are those of the whole stream, whatever it holds and however it is cut |
| Ch9329.ShortNeverCut | src/hid/ch9329.rs:659-662 | a stream of at most 280 bytes never overflows the buffer |
| Ch9329.StrayHeaderStalls | src/hid/ch9329.rs:601-605 | a header pair with a long length stalls the scan in front of a complete packet |
| Ch9329.XferReceive | src/hid/ch9329.rs:618-663 | the receive loop returns the first response that repeats the command with its top bit set or, for an error, its two top bits, and none exactly if there is none |
| Ch9329.TryExtractResponse | src/hid/ch9329.rs:593-616 | the scan loop computes the specified extraction |
| Ch9329.ParseUndoesBuild | src/hid/ch9329.rs:287-336 | parsing a built packet gives back address, command and data; it is an error exactly from command 0xC0 on, with the code of its first data byte |
| Ch9329.ParsedIsPacket | src/hid/ch9329.rs:287-336 | the parser accepts nothing but built packets, errors from command 0xC0 on |
| Ch9329.OneByteChangeDetected | src/hid/ch9329.rs:307-319 | a change of any one byte other than the length is rejected |
| Ch9329.LengthChangeDetectedIff | src/hid/ch9329.rs:300-319 | a changed length passes exactly if it is smaller and the byte it makes the checksum happens to be the sum |
| Ch9329.LengthChangeCanPass | src/hid/ch9329.rs:300-319 | a packet for which that happens |
| Ch9329.BuildPacketBuf | src/hid/ch9329.rs:523-558 | the buffer holds header, address, command, length, data and the sum of them all modulo 256, and zeros after it |
| Ch9329.PacketLayout | src/hid/ch9329.rs:523-558 | a packet on the wire byte by byte |
| Keyboard.ReportIsExactIff | src/hid/types.rs:297-316 | over a run the report shows exactly the held keys at every point if and only if never more than six are held, repeats counted |
| Keyboard.HeldIsShownOrLost | src/hid/types.rs:297-322 | every held key is shown or was refused by a full report and not released since |
| Keyboard.HeldCounts | src/hid/ch9329.rs:1084-1092 | how often a key is held is the number of its presses that no release or reset followed |
| Keyboard.NoStuckKeys | src/hid/types.rs:308-316 | every key in the report has a press that no release or reset followed |
| Keyboard.ReleaseClears | src/hid/types.rs:308-322 | a release clears every trace of its key |
| Keyboard.KeyboardReport.AddKey | src/hid/types.rs:297-305 | the key goes to the first empty slot; a full report refuses it unchanged |
| Keyboard.KeyboardReport.RemoveKey | src/hid/types.rs:308-316 | all occurrences go, other multiplicities stay, the slots are in descending order |
| Keyboard.Ch9329Keyboard.SendKeyboard | src/hid/ch9329.rs:1060-1100 | report and modifier byte follow the run; the bytes sent are the report |
| Keyboard.Ch9329Keyboard.Reset | src/hid/ch9329.rs:1167-1175 | a reset sends an empty report |
| Keyboard.PutBitPuts | src/hid/ch9329.rs:1068-1071 | setting or clearing one modifier leaves the others |
| Keyboard.FlagBitsPut | src/hid/types.rs:48-75 | the modifier byte has exactly the bits of the flags |
| Keyboard.BitWeights | src/hid/types.rs:48-75 | bit i of the modifier byte has weight 2^i |
| OtgEndpoint.GrantsWhatFitsIff | src/otg/endpoint.rs:25-35 | wrapping 8-bit allocation grants exactly what fits if and only if the request does not wrap to a small number; the guard excludes that |
| OtgEndpoint.WrapGrantsTooMuch | src/otg/endpoint.rs:26-33 | a request that wraps and is granted |
| OtgEndpoint.UsedWithinMax | src/otg/endpoint.rs:25-40 | the count stays within the limit in every run of allocations and releases |
| OtgEndpoint.ReleaseUndoesAllocateIff | src/otg/endpoint.rs:25-40 | after any run a release undoes the allocation before it if and only if that did not wrap |
| OtgEndpoint.RunOps | src/otg/endpoint.rs:25-40 | an allocator driven over any run counts as specified |
| OtgManager.AllAddedIff | src/otg/manager.rs:134-202 | all of a sequence of adds succeed if and only if the costs sum to at most the limit; used never exceeds it; names are distinct |
| OtgManager.NumberedAreDistinct | src/otg/hid.rs:113-153 | counting instances gives every function its own name |
| OtgManager.OtgGadgetManager.AddFunction | src/otg/manager.rs:179-202 | a function is registered, with its metadata, exactly if its endpoints fit; a failed add changes nothing |
| OtgManager.OtgGadgetManager.AddKeyboard | src/otg/manager.rs:134-140 | success registers hid.usb<n> with one endpoint and gives the device path of n, the next instance; failure changes nothing |
| OtgManager.OtgGadgetManager.AddMsd | src/otg/manager.rs:170-176 | the same for mass_storage.usb<n>, with its own instance count and two endpoints |
| OtgManager.RunAdds | src/otg/manager.rs:134-202 | any sequence of adds, failures included, leaves the specified functions |
| OtgConfig.ValidatedIsRegistered | src/config/schema.rs:394-418 | every configuration that passes validation has all its functions registered |
| OtgConfig.AcceptedIff | src/config/schema.rs:394-418 | a configuration is accepted exactly if it is not for the gadget or selects some function and keeps its budget, LED endpoint included |
| OtgConfig.AcceptedMeans | src/otg/service.rs:71-91 | what an accepted configuration desires: the functions of its profile, LEDs only with a keyboard, and a limit of 5, 6 or 16 endpoints |
| OtgConfig.LowEndpointIff | src/otg/configfs.rs:84-87 | a controller is a low-endpoint one exactly if its name has musb in it, in any case |
| OtgConfig.WantedAreEnabled | src/otg/service.rs:282-350 | the functions added are exactly the enabled ones, each once, in a fixed order |
| OtgConfig.BudgetAgainstCost | src/config/schema.rs:259-277 | the budget exceeds the real cost by exactly the LED endpoint |
| OtgConfig.RejectedThoughItFitsIff | src/config/schema.rs:385-418 | validation rejects a selection that would register exactly if the LED endpoint alone takes it over the limit |
| OtgService.ActiveIffHeld | src/otg/service.rs:195-419 | after any run with any failures a gadget is active for a state if and only if some operation wanted it, found the file system and a UDC, had room for its functions, and set up and bound it, and all later ones asked for the same |
| OtgService.OtgService.ApplyDesiredState | src/otg/service.rs:195-392 | a matching state touches nothing; otherwise a manager is held if and only if every step succeeds, and the error is that of the first step that fails |
| OtgService.OtgService.ReconcileGadget | src/otg/service.rs:228-392 | a gadget comes up if and only if it is wanted, the file system and a UDC are there, its functions fit, and setup and binding work; the error is that of the first of these that fails; the record, field by field, is that of the state or cleared |
| OtgService.ObstacleIs | src/otg/service.rs:258-365 | the error of each first failing step, and the first function that does not fit |
| OtgService.OtgService.ApplyConfig | src/otg/service.rs:189-192 | a configuration that is refused changes nothing; an accepted one never fails for want of endpoints |
| OtgService.OtgService.Shutdown | src/otg/service.rs:396-419 | everything is cleared and the desired state is the default |
| OtgService.AddHidFunctions | src/otg/service.rs:282-334 | functions are added in order up to the first that does not fit; paths match |
| OtgService.PathsAreConsecutive | src/otg/service.rs:28-43 | paths exist for exactly the enabled functions, numbered from 0 without a hole |
| OtgService.FirstUnfitIff | src/otg/service.rs:284-350 | no add fails if and only if the total fits |
| OtgService.Serve | src/otg/service.rs:195-419 | a service driven over any run is active for exactly the state that the run determines |
| CivilDate.CivilFromDaysInvertsCount | build.rs:110-123 | for every day number, negative ones included, the result is a valid date and counting its days gives the number back |
| CivilDate.CountInvertsCivilFromDays | build.rs:110-123 | every valid date comes back from its day count |
| CivilDate.CivilFromDaysFollowsCalendar | build.rs:110-123 | day 0 is 1970-01-01 and each further day is the calendar successor |
| CivilDate.NextDayCounts | build.rs:110-123 | the independent day count rises by one with each calendar day |
| CivilDate.YearCastExact | build.rs:122-122 | the cast of the year to 32 bits is exact precisely on the stated range of days |
| ChannelWriter.Stream | src/msd/ventoy_drive.rs:425-490 | everything written to an open channel comes out, in chunks that depend on the bytes alone |
| ChannelWriter.ChunksUnique | src/msd/ventoy_drive.rs:461-478 | full chunks and a shorter rest are the only way to cut a stream |
| ChannelWriter.ChunksAreFull | src/msd/ventoy_drive.rs:461-478 | all chunks but the last have 65536 bytes, the last is not empty, and together they are the stream |
| ChannelWriter.Writer.Write | src/msd/ventoy_drive.rs:461-478 | bytes are conserved, every chunk sent is full and less than one stays; it fails exactly if the channel closes too early, and then what was sent is intact |
| ChannelWriter.Writer.FlushBuffer | src/msd/ventoy_drive.rs:446-457 | what was buffered is sent, and the buffer is empty even if sending fails |

## Left out

- Resampler: positions are exact rationals where the program uses doubles, and frame counters do not wrap at 64 bits.
- HidQueue: a closed channel (both producers then return an error) and stopping the worker are not steps; that a pending move is ever flushed is not claimed, because only a later event triggers it.
- RtspControl: which texts parse and which requests end the session are parameters; requests are byte sequences, not lossily decoded text; errors of the socket end the run.
- RtpClock: the increment of a frame is a parameter of at least 1 (the program rounds a floating-point duration); payloads come from the H.264 and H.265 payloaders, which are not part of this model; frames of another codec are never seen.
- BytesCodec: messages are byte sequences without capacity or reserve; a reader that fails other than by ending is not modelled.
- SessionNonce: the secretbox is ideal, and a key is adopted by both sides at the same point of the stream; the two directions are independent runs of the same rule.
- VideoGate: keyframe requests, the conversion of frames and a closed video channel, which ends the run, are left out; numbers start over with each subscription's pipeline (src/video/shared_video_pipeline.rs:268).
- Ch9329: the deadline and read errors end the list of reads; a packet longer than 64 bytes is outside the debug assertion of the builder and not built.
- Keyboard: mouse reports, media keys and the table from key names to usage codes.
- OtgManager: descriptions of functions, gadget directories, links and the rest of ConfigFS.
- OtgService: calls do not overlap; mounting, setup and binding are arbitrary successes or failures; error texts are reduced to their causes; the UDC name is resolved once per configuration where the program looks it up several times; waiting for device files does not change the outcome and is left out; the fixed device version of the descriptor is left out.
- ChannelWriter: the flush when the writer is dropped is the same flush, its result ignored.
- The RTSP session set-up, DESCRIBE and SDP, authentication, and the H.264 frame adapter.
- ALSA, Opus, V4L2, serial ports, GPIO, WebRTC, web server, databases, sessions, users and extensions.
