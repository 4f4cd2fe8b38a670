/** The gate between the shared video pipeline and one connection (src/rustdesk/connection.rs): after
    a gap in the sequence numbers, frames are held back until a keyframe. Its state outlives a
    subscription; the numbers of the next one start over. */
module VideoGate {
  import opened Prelude

  datatype Frame = Frame(subscription: nat, sequence: U64, isKeyframe: bool, data: seq<Byte>)

  function SaturatingSucc(x: U64): U64 {
    if x == TWO_64 - 1 then x else x + 1
  }

  /** No gap is seen between a frame and the next. */
  predicate Joins(prev: Frame, next: Frame) {
    next.sequence <= SaturatingSucc(prev.sequence)
  }

  /** A keyframe j, and no gap seen from there to frame i. */
  ghost predicate Chain(frames: seq<Frame>, j: nat, i: nat) {
    && j <= i < |frames| && frames[j].isKeyframe
    && forall t :: j < t <= i ==> Joins(frames[t - 1], frames[t])
  }

  ghost predicate Chained(frames: seq<Frame>, i: nat) {
    exists j: nat :: Chain(frames, j, i)
  }

  lemma ChainedStep(frames: seq<Frame>, i: nat)
    requires i < |frames|
    ensures Chained(frames, i) <==>
            frames[i].isKeyframe || (i > 0 && Chained(frames, i - 1) && Joins(frames[i - 1], frames[i]))
  {
    if frames[i].isKeyframe {
      assert Chain(frames, i, i);
    } else if i > 0 && Chained(frames, i - 1) && Joins(frames[i - 1], frames[i]) {
      var j: nat :| Chain(frames, j, i - 1);
      assert Chain(frames, j, i);
    } else if Chained(frames, i) {
      var j: nat :| Chain(frames, j, i);
      assert Chain(frames, j, i - 1);
    }
  }

  /** What comes later has no say in whether a frame is chained. */
  lemma ChainedPrefix(frames: seq<Frame>, n: nat, i: nat)
    requires i < n <= |frames|
    ensures Chained(frames[..n], i) <==> Chained(frames, i)
  {
    if Chained(frames, i) {
      var j: nat :| Chain(frames, j, i);
      assert Chain(frames[..n], j, i);
    }
    if Chained(frames[..n], i) {
      var j: nat :| Chain(frames[..n], j, i);
      assert forall t :: j < t <= i ==> Joins(frames[..n][t - 1], frames[..n][t]);
      assert Chain(frames, j, i);
    }
  }

  /** The frames to forward. */
  ghost function Kept(frames: seq<Frame>): seq<Frame> {
    if frames == [] then []
    else
      var last := |frames| - 1;
      if Chained(frames, last) then Kept(frames[..last]) + [frames[last]] else Kept(frames[..last])
  }

  class Gate {
    var waitingForKeyframe: bool
    var lastSequence: Option<U64>
    ghost var received: seq<Frame>

    /** The gate waits unless the frame before was chained; only then is the last number of use. */
    ghost predicate Valid()
      reads this
    {
      && waitingForKeyframe == (received == [] || !Chained(received, |received| - 1))
      && (received == [] ==> lastSequence == None)
      && (!waitingForKeyframe ==> lastSequence == Some(received[|received| - 1].sequence))
    }

    constructor ()
      ensures Valid() && received == []
    {
      waitingForKeyframe, lastSequence, received := true, None, [];
    }

    /** A frame is forwarded exactly if it is chained to a keyframe. */
    method OnFrame(frame: Frame) returns (forward: bool)
      requires Valid()
      modifies this
      ensures Valid() && received == old(received) + [frame]
      ensures forward <==> Chained(received, |received| - 1)
    {
      ghost var before := received;
      received := received + [frame];
      ChainedStep(received, |before|);
      if before != [] {
        assert received[..|before|] == before;
        ChainedPrefix(received, |before|, |before| - 1);
      }
      var gapDetected := match lastSequence
        case Some(prev) => frame.sequence > SaturatingSucc(prev)
        case None => false;
      if waitingForKeyframe || gapDetected {
        if frame.isKeyframe {
          waitingForKeyframe := false;
        } else {
          if gapDetected {
            waitingForKeyframe := true;
          }
          return false;
        }
      }
      lastSequence := Some(frame.sequence);
      forward := true;
    }
  }

  /** The streaming loop over everything that one connection receives. */
  method RunVideoStreaming(frames: seq<Frame>) returns (sent: seq<Frame>)
    ensures sent == Kept(frames)
  {
    var gate := new Gate();
    sent := [];
    for i := 0 to |frames|
      invariant gate.Valid() && gate.received == frames[..i]
      invariant fresh(gate)
      invariant sent == Kept(frames[..i])
    {
      var forward := gate.OnFrame(frames[i]);
      assert frames[..i + 1] == frames[..i] + [frames[i]] && frames[..i + 1][..i] == frames[..i];
      if forward {
        sent := sent + [frames[i]];
      }
    }
    assert frames[..|frames|] == frames;
  }

  /* ---- What a decoder can use ---- */

  /** A frame can be decoded if received frames of its own subscription, numbered without a hole, lead
      from a keyframe to it. */
  ghost predicate Leads(frames: seq<Frame>, j: nat, i: nat) {
    && j <= i < |frames| && frames[j].isKeyframe
    && forall t :: j < t <= i ==>
      frames[t].subscription == frames[t - 1].subscription && frames[t].sequence == frames[t - 1].sequence + 1
  }

  ghost predicate Decodable(frames: seq<Frame>, i: nat) {
    exists j: nat :: Leads(frames, j, i)
  }

  /** Numbers increase within a subscription. */
  ghost predicate Increasing(frames: seq<Frame>) {
    forall t :: 0 < t < |frames| && frames[t].subscription == frames[t - 1].subscription ==>
      frames[t - 1].sequence < frames[t].sequence
  }

  ghost predicate OneSubscription(frames: seq<Frame>) {
    forall t :: 0 < t < |frames| ==> frames[t].subscription == frames[t - 1].subscription
  }

  /** Where the gate is deceived: it was open when a subscription ended, and the next one begins with a
      frame that is no keyframe and whose number leaves no gap after the last one of the old. */
  ghost predicate Deceives(frames: seq<Frame>, b: nat) {
    && 0 < b < |frames| && frames[b].subscription != frames[b - 1].subscription
    && !frames[b].isKeyframe && Joins(frames[b - 1], frames[b]) && Decodable(frames, b - 1)
  }

  lemma DecodableStep(frames: seq<Frame>, i: nat)
    requires i < |frames|
    ensures Decodable(frames, i) <==>
            frames[i].isKeyframe || (i > 0 && Decodable(frames, i - 1)
                                     && frames[i].subscription == frames[i - 1].subscription
                                     && frames[i].sequence == frames[i - 1].sequence + 1)
  {
    if frames[i].isKeyframe {
      assert Leads(frames, i, i);
    } else if i > 0 && Decodable(frames, i - 1)
      && frames[i].subscription == frames[i - 1].subscription && frames[i].sequence == frames[i - 1].sequence + 1 {
      var j: nat :| Leads(frames, j, i - 1);
      assert Leads(frames, j, i);
    } else if Decodable(frames, i) {
      var j: nat :| Leads(frames, j, i);
      assert Leads(frames, j, i - 1);
    }
  }

  /** Up to the first place where the gate is deceived it is right about every frame. */
  lemma {:induction false} RightBefore(frames: seq<Frame>, i: nat)
    requires Increasing(frames) && i < |frames|
    requires forall b :: 0 < b <= i ==> !Deceives(frames, b)
    ensures Chained(frames, i) <==> Decodable(frames, i)
  {
    ChainedStep(frames, i);
    DecodableStep(frames, i);
    if i > 0 {
      RightBefore(frames, i - 1);
      assert !Deceives(frames, i);
    }
  }

  /** The gate forwards exactly what can be decoded if and only if it is nowhere deceived. */
  lemma {:induction false} ForwardsDecodableIff(frames: seq<Frame>)
    requires Increasing(frames)
    ensures (forall i :: 0 <= i < |frames| ==> (Chained(frames, i) <==> Decodable(frames, i)))
            <==> (forall b :: 0 < b < |frames| ==> !Deceives(frames, b))
  {
    if forall b :: 0 < b < |frames| ==> !Deceives(frames, b) {
      forall i | 0 <= i < |frames| ensures Chained(frames, i) <==> Decodable(frames, i) {
        RightBefore(frames, i);
      }
    } else {
      var b :| 0 < b < |frames| && Deceives(frames, b);
      ChainedStep(frames, b);
      DecodableStep(frames, b);
      // frame b - 1 can be decoded, so either it is chained and so is b, or it shows the difference
      assert Chained(frames, b - 1) ==> Chained(frames, b) && !Decodable(frames, b);
    }
  }

  /** Within one subscription the gate is exact. */
  lemma OneSubscriptionExact(frames: seq<Frame>, i: nat)
    requires Increasing(frames) && OneSubscription(frames) && i < |frames|
    ensures Chained(frames, i) <==> Decodable(frames, i)
  {
    RightBefore(frames, i);
  }

  /** Nothing that can be decoded is ever held back, whatever the subscriptions. */
  lemma {:induction false} DecodableIsForwarded(frames: seq<Frame>, i: nat)
    requires Decodable(frames, i)
    ensures Chained(frames, i)
  {
    var j: nat :| Leads(frames, j, i);
    assert Chain(frames, j, i);
  }

  /** Sent frames form runs, each begun by a keyframe, within one subscription and without a hole. */
  ghost predicate Runs(sent: seq<Frame>) {
    forall k :: 0 <= k < |sent| ==> InRun(sent, k)
  }

  predicate InRun(sent: seq<Frame>, k: nat)
    requires k < |sent|
  {
    sent[k].isKeyframe || (k > 0 && Follows(sent[k - 1], sent[k]))
  }

  predicate Follows(prev: Frame, next: Frame) {
    next.subscription == prev.subscription && next.sequence == prev.sequence + 1
  }

  /** A frame that is forwarded only because the gate was open when the subscription before ended. */
  ghost predicate Leaks(frames: seq<Frame>, b: nat) {
    && 0 < b < |frames| && frames[b].subscription != frames[b - 1].subscription
    && !frames[b].isKeyframe && Joins(frames[b - 1], frames[b]) && Chained(frames, b - 1)
  }

  ghost predicate NoLeaks(frames: seq<Frame>) {
    forall b: nat :: !Leaks(frames, b)
  }

  lemma {:induction false} KeptRunsIff(frames: seq<Frame>)
    requires Increasing(frames)
    ensures Runs(Kept(frames)) <==> NoLeaks(frames)
    ensures frames != [] && Chained(frames, |frames| - 1) ==>
            Kept(frames) != [] && Kept(frames)[|Kept(frames)| - 1] == frames[|frames| - 1]
    decreases |frames|
  {
    if frames != [] {
      var last := |frames| - 1;
      var before := frames[..last];
      KeptRunsIff(before);
      ChainedStep(frames, last);
      LeaksBefore(frames);
      if last > 0 {
        ChainedPrefix(frames, last, last - 1);
      }
      hide Chained, Leaks, Increasing, NoLeaks;
      if Chained(frames, last) {
        RunsSnoc(Kept(before), frames[last]);
        LastLeaksIff(frames);
      } else {
        LastLeaksIff(frames);
      }
    }
  }

  lemma RunsSnoc(sent: seq<Frame>, frame: Frame)
    ensures Runs(sent + [frame]) <==>
            Runs(sent) && (frame.isKeyframe || (sent != [] && Follows(sent[|sent| - 1], frame)))
  {
    var more := sent + [frame];
    assert forall k :: 0 <= k < |sent| ==> more[k] == sent[k];
    if Runs(more) {
      forall k | 0 <= k < |sent| ensures InRun(sent, k) {
        assert InRun(more, k);
      }
      assert InRun(more, |sent|);
    } else if Runs(sent) {
      var k :| 0 <= k < |more| && !InRun(more, k);
      assert k < |sent| ==> InRun(sent, k);
    }
  }

  lemma LeaksBefore(frames: seq<Frame>)
    requires frames != []
    ensures NoLeaks(frames) <==> !Leaks(frames, |frames| - 1) && NoLeaks(frames[..|frames| - 1])
  {
    var last := |frames| - 1;
    forall b: nat | b < last ensures Leaks(frames, b) <==> Leaks(frames[..last], b) {
      if b > 0 {
        ChainedPrefix(frames, last, b - 1);
      }
    }
  }

  lemma LastLeaksIff(frames: seq<Frame>)
    requires Increasing(frames) && frames != []
    ensures var last := |frames| - 1;
            Leaks(frames, last) <==>
            Chained(frames, last) && !frames[last].isKeyframe && !(last > 0 && Follows(frames[last - 1], frames[last]))
  {
    ChainedStep(frames, |frames| - 1);
  }

  /** The output is a sequence of such runs, over any number of subscriptions, if and only if the gate is
      nowhere deceived. */
  lemma SentInRunsIff(frames: seq<Frame>)
    requires Increasing(frames)
    ensures Runs(Kept(frames)) <==> forall b :: 0 < b < |frames| ==> !Deceives(frames, b)
  {
    hide Kept, Runs, NoLeaks, Deceives, Increasing;
    KeptRunsIff(frames);
    NoLeaksIff(frames);
  }

  lemma NoLeaksIff(frames: seq<Frame>)
    requires Increasing(frames)
    ensures NoLeaks(frames) <==> forall b :: 0 < b < |frames| ==> !Deceives(frames, b)
  {
    hide Chained, Decodable, Increasing;
    if forall b :: 0 < b < |frames| ==> !Deceives(frames, b) {
      forall b: nat ensures !Leaks(frames, b) {
        if 0 < b < |frames| {
          RightBefore(frames, b - 1);
          assert !Deceives(frames, b);
        }
      }
    } else {
      var b :| 0 < b < |frames| && Deceives(frames, b);
      DecodableIsForwarded(frames, b - 1);
      assert Leaks(frames, b);
    }
  }

  /** The state of the gate survives a restart of the pipeline, whose numbers start over: after a
      keyframe numbered 7, the third frame of the next subscription, whose first two were missed, is
      forwarded without any keyframe of its own. */
  lemma RestartDeceives() returns (frames: seq<Frame>)
    ensures Increasing(frames) && |frames| == 2 && Chained(frames, 1) && !Decodable(frames, 1)
    ensures !frames[1].isKeyframe && frames[1].sequence == 3
  {
    frames := [Frame(0, 7, true, []), Frame(1, 3, false, [])];
    ChainedStep(frames, 0);
    ChainedStep(frames, 1);
    DecodableStep(frames, 1);
  }
}
