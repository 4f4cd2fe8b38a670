/** Time stamps and sequence numbers of an RTP stream (src/rtsp/service.rs). The 90 kHz increment of a
    frame, at least 1, and its payloads come from outside. */
module RtpClock {
  import opened Prelude

  const TWO_32 := 0x1_0000_0000
  const TWO_16 := 0x1_0000

  type U32 = x: int | 0 <= x < 0x1_0000_0000
  type U16 = x: int | 0 <= x < 0x1_0000
  type I64 = x: int | -0x8000_0000_0000_0000 <= x < 0x8000_0000_0000_0000
  type Increment = x: int | 1 <= x < 0x1_0000_0000 witness 1

  type Payload = seq<Byte>

  datatype Frame = Frame(ptsMs: I64, increment: Increment, payloads: seq<Payload>)

  datatype Packet = Packet(marker: bool, sequenceNumber: U16, timestamp: U32, payload: Payload)

  /** The product wraps at 64 bits and the result is cut to 32. */
  function PtsToRtpTimestamp(ptsMs: I64): U32 {
    if ptsMs <= 0 then 0
    else
      var ticks: nat := ptsMs * 90_000 % TWO_64 / 1000;
      ticks % TWO_32
  }

  function WrappingAdd(a: U32, b: U32): U32 {
    var sum: nat := a + b;
    if sum < TWO_32 then sum else sum - TWO_32
  }

  function Stamp(last: U32, frame: Frame): U32 {
    var fromPts := PtsToRtpTimestamp(frame.ptsMs);
    if fromPts > last then fromPts else WrappingAdd(last, frame.increment)
  }

  /** The last stamp after a run, from 0. */
  function StampAfter(frames: seq<Frame>): U32 {
    if frames == [] then 0 else Stamp(StampAfter(frames[..|frames| - 1]), frames[|frames| - 1])
  }

  /* ---- The timeline that never wraps ---- */

  /** Exact 90 kHz time of a frame. */
  function Ticks(frame: Frame): nat {
    if frame.ptsMs <= 0 then 0 else 90 * frame.ptsMs
  }

  predicate Adopts(frames: seq<Frame>)
    requires frames != []
    decreases |frames|, 0
  {
    Ticks(frames[|frames| - 1]) > Timeline(frames[..|frames| - 1])
  }

  /** Exact time where it passes what was reached before, and a step of the increment elsewhere. */
  function Timeline(frames: seq<Frame>): nat
    decreases |frames|, 1
  {
    if frames == [] then 0
    else if Adopts(frames) then Ticks(frames[|frames| - 1])
    else Timeline(frames[..|frames| - 1]) + frames[|frames| - 1].increment
  }

  /** The exact time last adopted, and the increments since. */
  function Adopted(frames: seq<Frame>): nat {
    if frames == [] then 0
    else if Adopts(frames) then Ticks(frames[|frames| - 1])
    else Adopted(frames[..|frames| - 1])
  }

  function IncrementsSince(frames: seq<Frame>): nat {
    if frames == [] || Adopts(frames) then 0
    else IncrementsSince(frames[..|frames| - 1]) + frames[|frames| - 1].increment
  }

  lemma {:induction false} TimelineIncreases(frames: seq<Frame>, i: nat, j: nat)
    requires i < j <= |frames|
    ensures Timeline(frames[..i]) < Timeline(frames[..j])
  {
    assert frames[..j][..j - 1] == frames[..j - 1];
    if i < j - 1 {
      TimelineIncreases(frames, i, j - 1);
    }
  }

  /** The timeline never lags the exact time of the latest frame, and leads the time last adopted by
      just the increments since. */
  lemma {:induction false} TimelineLeads(frames: seq<Frame>)
    ensures Timeline(frames) == Adopted(frames) + IncrementsSince(frames)
    ensures frames != [] ==> Timeline(frames) >= Ticks(frames[|frames| - 1])
    decreases |frames|
  {
    if frames != [] {
      TimelineLeads(frames[..|frames| - 1]);
    }
  }

  /** The lead over the latest PTS is at most those increments exactly if that PTS is not below the one
      adopted last. */
  lemma LeadBoundedIff(frames: seq<Frame>)
    requires frames != []
    ensures Timeline(frames) - Ticks(frames[|frames| - 1]) <= IncrementsSince(frames)
            <==> Ticks(frames[|frames| - 1]) >= Adopted(frames)
  {
    TimelineLeads(frames);
  }

  /** As long as the 64-bit product does not wrap, the stamp of a PTS is its 90 kHz time modulo 2^32. */
  lemma PtsIsTicks(ptsMs: I64)
    requires ptsMs * 90_000 < TWO_64
    ensures PtsToRtpTimestamp(ptsMs) == if ptsMs <= 0 then 0 else 90 * ptsMs % 0x1_0000_0000
  {
    if ptsMs > 0 {
      assert ptsMs * 90_000 % TWO_64 == 1000 * (90 * ptsMs);
    }
  }

  /** The stamp is the PTS where that is greater and the increment later, modulo 2^32, elsewhere. */
  lemma StampIs(last: U32, frame: Frame)
    requires frame.ptsMs * 90_000 < TWO_64
    ensures var pts := if frame.ptsMs <= 0 then 0 else 90 * frame.ptsMs % 0x1_0000_0000;
            Stamp(last, frame) == if pts > last then pts else (last + frame.increment) % 0x1_0000_0000
  {
    PtsIsTicks(frame.ptsMs);
    hide PtsToRtpTimestamp;
  }

  lemma PtsExactBelowWrap(frame: Frame)
    requires Ticks(frame) < TWO_32
    ensures PtsToRtpTimestamp(frame.ptsMs) == Ticks(frame)
  {
  }

  /** Until the timeline passes 32 bits the stamps are the timeline. */
  lemma StampsAreTimeline(frames: seq<Frame>)
    requires Timeline(frames) < TWO_32
    ensures StampAfter(frames) == Timeline(frames)
  {
    hide Timeline, Unwrapped, StampAfter;
    UnwrappedIsTimeline(frames);
    StampsAreUnwrapped(frames);
  }

  /** Over a run whose timeline stays below 2^32 the stamps strictly increase, never lag the exact time
      and equal it whenever it passes the stamp before. */
  lemma StampsBeforeWrap(frames: seq<Frame>, i: nat, j: nat)
    requires Timeline(frames) < TWO_32 && i < j <= |frames|
    ensures StampAfter(frames[..i]) < StampAfter(frames[..j])
    ensures StampAfter(frames[..j]) >= Ticks(frames[j - 1])
    ensures Ticks(frames[j - 1]) > StampAfter(frames[..j - 1]) ==> StampAfter(frames[..j]) == Ticks(frames[j - 1])
  {
    hide StampAfter;
    assert frames[..|frames|] == frames;
    forall k: nat | k <= |frames| ensures StampAfter(frames[..k]) == Timeline(frames[..k]) {
      if k < |frames| {
        TimelineIncreases(frames, k, |frames|);
      }
      StampsAreTimeline(frames[..k]);
    }
    TimelineIncreases(frames, i, j);
    TimelineLeads(frames[..j]);
    assert frames[..j][..j - 1] == frames[..j - 1];
  }

  /** One step increases the stamp exactly unless the PTS does not pass it and the increment wraps. */
  lemma StampIncreasesIff(last: U32, frame: Frame)
    ensures Stamp(last, frame) > last <==>
            PtsToRtpTimestamp(frame.ptsMs) > last || last + frame.increment < TWO_32
  {
    hide PtsToRtpTimestamp;
  }

  /** The stamps as they would be if adding an increment did not wrap. */
  function Unwrapped(frames: seq<Frame>): nat {
    if frames == [] then 0
    else
      var before, frame := Unwrapped(frames[..|frames| - 1]), frames[|frames| - 1];
      if PtsToRtpTimestamp(frame.ptsMs) > before then PtsToRtpTimestamp(frame.ptsMs) else before + frame.increment
  }

  lemma {:induction false} UnwrappedIncreases(frames: seq<Frame>, i: nat, j: nat)
    requires i < j <= |frames|
    ensures Unwrapped(frames[..i]) < Unwrapped(frames[..j])
  {
    hide PtsToRtpTimestamp;
    assert frames[..j][..j - 1] == frames[..j - 1];
    if i < j - 1 {
      UnwrappedIncreases(frames, i, j - 1);
    }
  }

  lemma {:induction false} StampsAreUnwrapped(frames: seq<Frame>)
    requires Unwrapped(frames) < TWO_32
    ensures StampAfter(frames) == Unwrapped(frames)
    decreases |frames|
  {
    if frames != [] {
      hide PtsToRtpTimestamp;
      StampsAreUnwrapped(frames[..|frames| - 1]);
    }
  }

  ghost predicate StampsIncrease(frames: seq<Frame>) {
    forall i :: 0 <= i < |frames| ==> StampAfter(frames[..i]) < StampAfter(frames[..i + 1])
  }

  /** Over a whole run, whatever its PTS, the stamps strictly increase if and only if the last of them
      would be below 2^32 without wrapping. */
  lemma StampsIncreaseIff(frames: seq<Frame>)
    ensures StampsIncrease(frames) <==> Unwrapped(frames) < TWO_32
  {
    hide StampAfter, Unwrapped;
    if Unwrapped(frames) < TWO_32 {
      forall i | 0 <= i < |frames| ensures StampAfter(frames[..i]) < StampAfter(frames[..i + 1]) {
        StampIncreasesAt(frames, i);
      }
    } else {
      var k := FirstWrap(frames);
      assert frames[..k + 1][..k] == frames[..k];
      WrapDecreases(frames[..k + 1]);
    }
  }

  lemma StampIncreasesAt(frames: seq<Frame>, i: nat)
    requires i < |frames| && Unwrapped(frames) < TWO_32
    ensures StampAfter(frames[..i]) < StampAfter(frames[..i + 1])
  {
    hide StampAfter, Unwrapped;
    assert frames[..|frames|] == frames;
    if i + 1 < |frames| {
      UnwrappedIncreases(frames, i + 1, |frames|);
    }
    UnwrappedIncreases(frames, i, i + 1);
    StampsAreUnwrapped(frames[..i]);
    StampsAreUnwrapped(frames[..i + 1]);
  }

  lemma FirstWrap(frames: seq<Frame>) returns (k: nat)
    requires Unwrapped(frames) >= TWO_32
    ensures k < |frames| && Unwrapped(frames[..k]) < TWO_32 <= Unwrapped(frames[..k + 1])
    decreases |frames|
  {
    var last := |frames| - 1;
    if Unwrapped(frames[..last]) < TWO_32 {
      k := last;
      assert frames[..last + 1] == frames;
    } else {
      k := FirstWrap(frames[..last]);
      assert frames[..last][..k] == frames[..k] && frames[..last][..k + 1] == frames[..k + 1];
    }
  }

  lemma WrapDecreases(frames: seq<Frame>)
    requires frames != [] && Unwrapped(frames[..|frames| - 1]) < TWO_32 <= Unwrapped(frames)
    ensures StampAfter(frames) < StampAfter(frames[..|frames| - 1])
  {
    StampsAreUnwrapped(frames[..|frames| - 1]);
    hide PtsToRtpTimestamp;
  }

  /** Below 2^32 the two timelines are one. */
  lemma {:induction false} UnwrappedIsTimeline(frames: seq<Frame>)
    requires Timeline(frames) < TWO_32
    ensures Unwrapped(frames) == Timeline(frames)
    decreases |frames|
  {
    if frames != [] {
      TimelineIncreases(frames, |frames| - 1, |frames|);
      assert frames[..|frames|] == frames;
      UnwrappedIsTimeline(frames[..|frames| - 1]);
      TimelineLeads(frames);
      PtsExactBelowWrap(frames[|frames| - 1]);
      hide PtsToRtpTimestamp;
    }
  }

  /** At the wrap the stamps can go back: a frame just below it gets 4294967220; the second frame of the
      same PTS is stepped over the wrap to 2924; for the third that PTS passes the stamp again. */
  lemma WrapGoesBack(frame: Frame)
    requires frame.ptsMs == 47_721_858 && frame.increment == 3000
    ensures StampAfter([frame]) == 4_294_967_220
    ensures StampAfter([frame, frame]) == 2924
    ensures StampAfter([frame, frame, frame]) == 4_294_967_220
  {
    assert [frame][..0] == [] && [frame, frame][..1] == [frame] && [frame, frame, frame][..2] == [frame, frame];
    assert PtsToRtpTimestamp(frame.ptsMs) == 4_294_967_220;
    hide PtsToRtpTimestamp;
  }

  /* ---- Packets ---- */

  function FramePackets(payloads: seq<Payload>, first: nat, timestamp: U32): seq<Packet> {
    seq(|payloads|, i requires 0 <= i < |payloads| =>
      Packet(i == |payloads| - 1, (first + i) % TWO_16, timestamp, payloads[i]))
  }

  /** The packets of a run whose first packet has sequence number `start`. */
  function Packets(frames: seq<Frame>, start: nat): seq<Packet> {
    if frames == [] then []
    else
      var before := Packets(frames[..|frames| - 1], start);
      before + FramePackets(frames[|frames| - 1].payloads, start + |before|, StampAfter(frames))
  }

  function NextNumber(n: U16): U16 {
    if n == TWO_16 - 1 then 0 else n + 1
  }

  lemma NextNumberCounts(n: nat)
    ensures NextNumber(n % TWO_16) == (n + 1) % TWO_16
  {
  }

  class RtpStream {
    var last: U32
    var sequenceNumber: U16
    ghost var start: nat
    ghost var frames: seq<Frame>
    ghost var sent: seq<Packet>

    ghost predicate Valid()
      reads this
    {
      && last == StampAfter(frames)
      && sent == Packets(frames, start)
      && sequenceNumber == (start + |sent|) % TWO_16
    }

    constructor (start: U16)
      ensures Valid() && frames == [] && sent == [] && this.start == start
    {
      last, sequenceNumber := 0, start;
      this.start, frames, sent := start, [], [];
    }

    method MonotonicRtpTimestamp(frame: Frame) returns (timestamp: U32)
      modifies this`last
      ensures last == timestamp == Stamp(old(last), frame)
    {
      var fromPts := PtsToRtpTimestamp(frame.ptsMs);
      timestamp := if fromPts > last then fromPts else WrappingAdd(last, frame.increment);
      last := timestamp;
    }

    /** Even a frame without payloads moves the clock. */
    method SendFrame(frame: Frame) returns (packets: seq<Packet>)
      requires Valid()
      modifies this
      ensures Valid() && start == old(start) && frames == old(frames) + [frame]
      ensures sent == old(sent) + packets && |packets| == |frame.payloads|
      ensures forall k :: 0 <= k < |packets| ==>
        packets[k] == Packet(k == |packets| - 1, (start + |old(sent)| + k) % 0x1_0000, last, frame.payloads[k])
    {
      hide Stamp, PtsToRtpTimestamp, NextNumber;
      ghost var run := frames + [frame];
      assert run[..|frames|] == frames;
      ghost var first := start + |sent|;
      var timestamp := MonotonicRtpTimestamp(frame);
      packets := [];
      for i := 0 to |frame.payloads|
        invariant |packets| == i && sequenceNumber == (first + i) % TWO_16
        invariant last == timestamp && start == old(start) && frames == old(frames) && sent == old(sent)
        invariant forall k :: 0 <= k < i ==>
          packets[k] == Packet(k == |frame.payloads| - 1, (first + k) % TWO_16, timestamp, frame.payloads[k])
      {
        var marker := i == |frame.payloads| - 1;
        packets := packets + [Packet(marker, sequenceNumber, timestamp, frame.payloads[i])];
        NextNumberCounts(first + i);
        sequenceNumber := NextNumber(sequenceNumber);
      }
      assert packets == FramePackets(frame.payloads, first, timestamp);
      frames := run;
      sent := sent + packets;
    }
  }

  /* ---- What is in the packets ---- */

  function PayloadCount(frames: seq<Frame>): nat {
    if frames == [] then 0 else PayloadCount(frames[..|frames| - 1]) + |frames[|frames| - 1].payloads|
  }

  predicate IsPacket(packet: Packet, marker: bool, number: nat, timestamp: U32, payload: Payload) {
    packet == Packet(marker, number % 0x1_0000, timestamp, payload)
  }

  /** From position `at` on there is a packet for each payload, in order, all stamped alike and numbered
      on, and the last one marked. */
  ghost predicate GroupAt(packets: seq<Packet>, at: nat, payloads: seq<Payload>, number: nat, timestamp: U32) {
    && at + |payloads| <= |packets|
    && forall k :: 0 <= k < |payloads| ==>
      IsPacket(packets[at + k], k == |payloads| - 1, number + k, timestamp, payloads[k])
  }

  /** Frame i is in its place, with the stamp of the run up to it. */
  ghost predicate FrameSent(packets: seq<Packet>, frames: seq<Frame>, start: nat, i: nat)
    requires i < |frames|
  {
    var before := PayloadCount(frames[..i]);
    GroupAt(packets, before, frames[i].payloads, start + before, StampAfter(frames[..i + 1]))
  }

  function PayloadsOf(packets: seq<Packet>): seq<Payload> {
    seq(|packets|, i requires 0 <= i < |packets| => packets[i].payload)
  }

  function AllPayloads(frames: seq<Frame>): seq<Payload> {
    Concat(seq(|frames|, i requires 0 <= i < |frames| => frames[i].payloads))
  }

  /** Nothing else is sent. */
  ghost predicate AllSent(packets: seq<Packet>, frames: seq<Frame>, start: nat) {
    && |packets| == PayloadCount(frames)
    && forall i :: 0 <= i < |frames| ==> FrameSent(packets, frames, start, i)
  }

  lemma GroupStays(packets: seq<Packet>, more: seq<Packet>, at: nat, payloads: seq<Payload>, number: nat, timestamp: U32)
    requires GroupAt(packets, at, payloads, number, timestamp)
    ensures GroupAt(packets + more, at, payloads, number, timestamp)
  {
    hide IsPacket;
  }

  lemma GroupAtEnd(packets: seq<Packet>, payloads: seq<Payload>, number: nat, timestamp: U32)
    ensures GroupAt(packets + FramePackets(payloads, number, timestamp), |packets|, payloads, number, timestamp)
  {
    var all, at := packets + FramePackets(payloads, number, timestamp), |packets|;
    forall k | 0 <= k < |payloads|
      ensures IsPacket(all[at + k], k == |payloads| - 1, number + k, timestamp, payloads[k]) {
      assert all[at + k] == FramePackets(payloads, number, timestamp)[k];
    }
  }

  lemma FrameSentBefore(packets: seq<Packet>, more: seq<Packet>, frames: seq<Frame>, start: nat, i: nat)
    requires i + 1 < |frames| && FrameSent(packets, frames[..|frames| - 1], start, i)
    ensures FrameSent(packets + more, frames, start, i)
  {
    hide StampAfter, PayloadCount, GroupAt;
    var earlier := frames[..|frames| - 1];
    assert earlier[..i] == frames[..i] && earlier[..i + 1] == frames[..i + 1] && earlier[i] == frames[i];
    var before := PayloadCount(frames[..i]);
    GroupStays(packets, more, before, frames[i].payloads, start + before, StampAfter(frames[..i + 1]));
  }

  lemma FrameSentLast(packets: seq<Packet>, frames: seq<Frame>, start: nat)
    requires frames != [] && |packets| == PayloadCount(frames[..|frames| - 1])
    ensures var last := |frames| - 1;
            FrameSent(packets + FramePackets(frames[last].payloads, start + |packets|, StampAfter(frames)), frames, start, last)
  {
    hide StampAfter, PayloadCount, FramePackets, GroupAt;
    assert frames[..|frames|] == frames;
    GroupAtEnd(packets, frames[|frames| - 1].payloads, start + |packets|, StampAfter(frames));
  }

  lemma FrameSentMore(packets: seq<Packet>, frames: seq<Frame>, start: nat, group: seq<Packet>, i: nat)
    requires i < |frames| && AllSent(packets, frames[..|frames| - 1], start)
    requires group == FramePackets(frames[|frames| - 1].payloads, start + |packets|, StampAfter(frames))
    ensures FrameSent(packets + group, frames, start, i)
  {
    hide FrameSent, StampAfter, FramePackets, PayloadCount;
    if i < |frames| - 1 {
      assert FrameSent(packets, frames[..|frames| - 1], start, i);
      FrameSentBefore(packets, group, frames, start, i);
    } else {
      FrameSentLast(packets, frames, start);
    }
  }

  lemma AllSentMore(packets: seq<Packet>, frames: seq<Frame>, start: nat, group: seq<Packet>)
    requires frames != [] && AllSent(packets, frames[..|frames| - 1], start)
    requires group == FramePackets(frames[|frames| - 1].payloads, start + |packets|, StampAfter(frames))
    ensures AllSent(packets + group, frames, start)
  {
    assert |group| == |frames[|frames| - 1].payloads|;
    assert PayloadCount(frames) == PayloadCount(frames[..|frames| - 1]) + |group|;
    hide FrameSent, StampAfter, FramePackets, PayloadCount;
    forall i | 0 <= i < |frames| ensures FrameSent(packets + group, frames, start, i) {
      FrameSentMore(packets, frames, start, group, i);
    }
  }

  /** The packets of a run are its frames, in order, each in full. */
  lemma {:induction false} PacketsAreFrames(frames: seq<Frame>, start: nat)
    ensures AllSent(Packets(frames, start), frames, start)
    decreases |frames|
  {
    if frames != [] {
      var last := |frames| - 1;
      var before := Packets(frames[..last], start);
      var group := FramePackets(frames[last].payloads, start + |before|, StampAfter(frames));
      assert Packets(frames, start) == before + group;
      hide AllSent, FramePackets, StampAfter, Packets;
      PacketsAreFrames(frames[..last], start);
      AllSentMore(before, frames, start, group);
    }
  }

  /** The payloads of the packets, in order, are those of the frames, in order. */
  lemma {:induction false} PayloadsAreSent(frames: seq<Frame>, start: nat)
    ensures PayloadsOf(Packets(frames, start)) == AllPayloads(frames)
    decreases |frames|
  {
    if frames != [] {
      var earlier, payloads := frames[..|frames| - 1], frames[|frames| - 1].payloads;
      PayloadsAreSent(earlier, start);
      var before := Packets(earlier, start);
      var group := FramePackets(payloads, start + |before|, StampAfter(frames));
      assert PayloadsOf(before + group) == PayloadsOf(before) + PayloadsOf(group);
      assert PayloadsOf(group) == payloads;
      ConcatSnoc(seq(|earlier|, i requires 0 <= i < |earlier| => earlier[i].payloads), payloads);
      assert seq(|frames|, i requires 0 <= i < |frames| => frames[i].payloads)
          == seq(|earlier|, i requires 0 <= i < |earlier| => earlier[i].payloads) + [payloads];
    }
  }

  method StreamVideo(frames: seq<Frame>, start: U16) returns (packets: seq<Packet>)
    ensures packets == Packets(frames, start)
    ensures AllSent(packets, frames, start) && PayloadsOf(packets) == AllPayloads(frames)
  {
    PacketsAreFrames(frames, start);
    PayloadsAreSent(frames, start);
    hide AllSent, PayloadsOf, AllPayloads;
    var stream := new RtpStream(start);
    packets := [];
    for i := 0 to |frames|
      invariant stream.Valid() && fresh(stream) && stream.start == start
      invariant stream.frames == frames[..i] && packets == stream.sent
    {
      var more := stream.SendFrame(frames[i]);
      packets := packets + more;
    }
    assert frames[..|frames|] == frames;
  }

  /** Across all frames the sequence numbers step by one modulo 2^16. */
  lemma {:induction false} NumbersStep(frames: seq<Frame>, start: nat)
    ensures forall i :: 0 <= i < |Packets(frames, start)| ==>
      Packets(frames, start)[i].sequenceNumber == (start + i) % TWO_16
    decreases |frames|
  {
    if frames != [] {
      var earlier, payloads := frames[..|frames| - 1], frames[|frames| - 1].payloads;
      NumbersStep(earlier, start);
      var before := Packets(earlier, start);
      var group := FramePackets(payloads, start + |before|, StampAfter(frames));
      assert Packets(frames, start) == before + group;
      hide Packets, StampAfter;
      assert forall k :: 0 <= k < |group| ==> group[k].sequenceNumber == (start + |before| + k) % TWO_16;
      forall i | 0 <= i < |before + group|
        ensures (before + group)[i].sequenceNumber == (start + i) % TWO_16 {
        if i >= |before| {
          assert (before + group)[i] == group[i - |before|];
        }
      }
    }
  }

  /* ---- What the receiver can tell ---- */

  /** Frames as the receiver groups them: up to each marker. The second part is a frame not ended yet. */
  function Regroup(packets: seq<Packet>): (seq<seq<Packet>>, seq<Packet>) {
    if packets == [] then ([], [])
    else
      var (frames, open) := Regroup(packets[..|packets| - 1]);
      var packet := packets[|packets| - 1];
      if packet.marker then (frames + [open + [packet]], []) else (frames, open + [packet])
  }

  /** The packets of each frame that has any. */
  function PacketGroups(frames: seq<Frame>, start: nat): seq<seq<Packet>> {
    if frames == [] then []
    else
      var earlier, frame := frames[..|frames| - 1], frames[|frames| - 1];
      if frame.payloads == [] then PacketGroups(earlier, start)
      else PacketGroups(earlier, start)
           + [FramePackets(frame.payloads, start + |Packets(earlier, start)|, StampAfter(frames))]
  }

  lemma {:induction false} RegroupUnended(before: seq<Packet>, part: seq<Packet>)
    requires Regroup(before).1 == [] && forall i :: 0 <= i < |part| ==> !part[i].marker
    ensures Regroup(before + part) == (Regroup(before).0, part)
    decreases |part|
  {
    if part == [] {
      assert before + part == before;
    } else {
      var last := |part| - 1;
      assert (before + part)[..|before + part| - 1] == before + part[..last];
      RegroupUnended(before, part[..last]);
      assert part == part[..last] + [part[last]];
    }
  }

  lemma GroupEnds(before: seq<Packet>, group: seq<Packet>)
    requires Regroup(before).1 == [] && group != []
    requires forall i :: 0 <= i < |group| ==> group[i].marker == (i == |group| - 1)
    ensures Regroup(before + group) == (Regroup(before).0 + [group], [])
  {
    var last := |group| - 1;
    RegroupUnended(before, group[..last]);
    assert (before + group)[..|before + group| - 1] == before + group[..last];
    assert group == group[..last] + [group[last]];
  }

  lemma MarkedAtEnd(payloads: seq<Payload>, first: nat, timestamp: U32)
    ensures |FramePackets(payloads, first, timestamp)| == |payloads|
    ensures forall i :: 0 <= i < |payloads| ==>
      FramePackets(payloads, first, timestamp)[i].marker == (i == |payloads| - 1)
  {
  }

  /** The marker alone tells the receiver the frames: grouping the packets by it gives back exactly the
      payloads of each frame, all stamped alike, and leaves no frame unended. */
  lemma {:induction false} MarkersTellFrames(frames: seq<Frame>, start: nat)
    ensures Regroup(Packets(frames, start)) == (PacketGroups(frames, start), [])
    decreases |frames|
  {
    if frames != [] {
      var earlier, payloads := frames[..|frames| - 1], frames[|frames| - 1].payloads;
      var before := Packets(earlier, start);
      var group := FramePackets(payloads, start + |before|, StampAfter(frames));
      assert Packets(frames, start) == before + group;
      assert PacketGroups(frames, start) ==
             if payloads == [] then PacketGroups(earlier, start) else PacketGroups(earlier, start) + [group];
      MarkedAtEnd(payloads, start + |before|, StampAfter(frames));
      hide Regroup, FramePackets, StampAfter, Packets, PacketGroups;
      MarkersTellFrames(earlier, start);
      if payloads == [] {
        assert before + group == before;
      } else {
        GroupEnds(before, group);
      }
    }
  }
}
