/** The nonce counters of an encrypted session (src/rustdesk/connection.rs). The secretbox is ideal: a
    sealed message opens with its own key and nonce and with no other. The nonce is not sent; each side
    counts. */
module SessionNonce {
  import opened Prelude

  type Key = seq<Byte>

  datatype Nonce = Nonce(bytes: seq<Byte>)

  datatype Wire = Plain(data: seq<Byte>) | Sealed(key: Key, nonce: Nonce, data: seq<Byte>)

  function Open(wire: Wire, nonce: Nonce, key: Key): Option<seq<Byte>> {
    if wire.Sealed? && wire.nonce == nonce && wire.key == key then Some(wire.data) else None
  }

  /** Eight bytes of the number, least significant first, and sixteen zeros. */
  function GetNonce(seqnum: U64): (nonce: Nonce)
    ensures |nonce.bytes| == 24
  {
    PowersOf256();
    LittleEndianHolds(seqnum, 8);
    Nonce(LittleEndian(seqnum, 8) + seq(16, _ => 0))
  }

  /** The nonce on the wire, byte by byte: the number, least significant byte first, and zeros. */
  ghost predicate NonceIs(nonce: Nonce, n: nat) {
    && |nonce.bytes| == 24
    && nonce.bytes[0] == n % 256
    && nonce.bytes[1] == n / 0x100 % 256
    && nonce.bytes[2] == n / 0x1_0000 % 256
    && nonce.bytes[3] == n / 0x100_0000 % 256
    && nonce.bytes[4] == n / 0x1_0000_0000 % 256
    && nonce.bytes[5] == n / 0x100_0000_0000 % 256
    && nonce.bytes[6] == n / 0x1_0000_0000_0000 % 256
    && nonce.bytes[7] == n / 0x100_0000_0000_0000 % 256
    && forall i :: 8 <= i < 24 ==> nonce.bytes[i] == 0
  }

  /** The number without its i lowest bytes. */
  function Shifted(n: nat, i: nat): nat {
    if i == 0 then n else Shifted(n, i - 1) / 256
  }

  lemma {:induction false} ShiftedFirst(n: nat, i: nat)
    ensures Shifted(n, i + 1) == Shifted(n / 256, i)
  {
    if i > 0 {
      ShiftedFirst(n, i - 1);
    }
  }

  lemma {:induction false} LittleEndianAt(n: nat, width: nat, i: nat)
    requires i < width
    ensures |LittleEndian(n, width)| == width && LittleEndian(n, width)[i] == Shifted(n, i) % 256
    decreases width
  {
    LittleEndianLength(n, width);
    if i > 0 {
      LittleEndianAt(n / 256, width - 1, i - 1);
      ShiftedFirst(n, i - 1);
    }
  }

  lemma {:induction false} LittleEndianLength(n: nat, width: nat)
    ensures |LittleEndian(n, width)| == width
  {
    if width > 0 {
      LittleEndianLength(n / 256, width - 1);
    }
  }

  lemma ShiftedIs(n: nat)
    ensures Shifted(n, 0) == n && Shifted(n, 1) == n / 0x100 && Shifted(n, 2) == n / 0x1_0000
    ensures Shifted(n, 3) == n / 0x100_0000 && Shifted(n, 4) == n / 0x1_0000_0000
    ensures Shifted(n, 5) == n / 0x100_0000_0000 && Shifted(n, 6) == n / 0x1_0000_0000_0000
    ensures Shifted(n, 7) == n / 0x100_0000_0000_0000
  {
    ShiftedSteps(n);
    hide Shifted;
    assert n / 0x100 / 256 == n / 0x1_0000;
    assert n / 0x1_0000 / 256 == n / 0x100_0000;
    assert n / 0x100_0000 / 256 == n / 0x1_0000_0000;
    assert n / 0x1_0000_0000 / 256 == n / 0x100_0000_0000;
    assert n / 0x100_0000_0000 / 256 == n / 0x1_0000_0000_0000;
    assert n / 0x1_0000_0000_0000 / 256 == n / 0x100_0000_0000_0000;
  }

  lemma ShiftedSteps(n: nat)
    ensures Shifted(n, 0) == n
    ensures Shifted(n, 1) == n / 256 && Shifted(n, 2) == Shifted(n, 1) / 256 && Shifted(n, 3) == Shifted(n, 2) / 256
    ensures Shifted(n, 4) == Shifted(n, 3) / 256 && Shifted(n, 5) == Shifted(n, 4) / 256
    ensures Shifted(n, 6) == Shifted(n, 5) / 256 && Shifted(n, 7) == Shifted(n, 6) / 256
  {
  }

  lemma NonceBytesAre(n: U64)
    ensures NonceIs(GetNonce(n), n)
  {
    LittleEndianLength(n, 8);
    ShiftedIs(n);
    hide LittleEndian, Shifted;
    forall i: nat | i < 8 ensures GetNonce(n).bytes[i] == Shifted(n, i) % 256 {
      LittleEndianAt(n, 8, i);
    }
  }

  lemma NonceTellsNumber(a: U64, b: U64)
    ensures GetNonce(a) == GetNonce(b) <==> a == b
  {
    PowersOf256();
    LittleEndianHolds(a, 8);
    LittleEndianHolds(b, 8);
    assert GetNonce(a).bytes[..8] == LittleEndian(a, 8) && GetNonce(b).bytes[..8] == LittleEndian(b, 8);
  }

  /** Counting modulo 2^64. */
  function Wrap(n: nat): U64 {
    n % TWO_64
  }

  function Succ(n: U64): U64 {
    if n == TWO_64 - 1 then 0 else n + 1
  }

  function Pred(n: U64): U64 {
    if n == 0 then TWO_64 - 1 else n - 1
  }

  lemma WrapSucc(n: nat)
    ensures Wrap(n + 1) == Succ(Wrap(n))
  {
  }

  /** The nonce of the n-th message, counted from 1. */
  function NthNonce(n: nat): Nonce {
    GetNonce(Wrap(n))
  }

  lemma NthNonceIs(n: nat)
    ensures NonceIs(NthNonce(n), n % 0x1_0000_0000_0000_0000)
  {
    hide NonceIs, GetNonce;
    NonceBytesAre(Wrap(n));
  }

  lemma NthNonceIff(nonce: Nonce, n: nat)
    ensures nonce == NthNonce(n) <==> NonceIs(nonce, n % 0x1_0000_0000_0000_0000)
  {
    NthNonceIs(n);
    hide NthNonce;
    OneNonceIs(nonce, NthNonce(n), n % 0x1_0000_0000_0000_0000);
  }

  lemma OneNonceIs(a: Nonce, b: Nonce, n: nat)
    requires NonceIs(b, n)
    ensures NonceIs(a, n) <==> a == b
  {
    if NonceIs(a, n) {
      assert forall i :: 0 <= i < 24 ==> a.bytes[i] == b.bytes[i];
    }
  }

  /** Nonces come round after exactly 2^64 messages. */
  lemma NonceComesRound(n: nat, d: nat)
    requires 0 < d <= TWO_64
    ensures NthNonce(n + d) == NthNonce(n) <==> d == TWO_64
  {
    WrapComesRound(n, d);
    hide Wrap, GetNonce;
    NonceTellsNumber(Wrap(n + d), Wrap(n));
  }

  lemma WrapComesRound(n: nat, d: nat)
    requires 0 < d <= TWO_64
    ensures Wrap(n + d) == Wrap(n) <==> d == TWO_64
  {
    var q, r := n / TWO_64, n % TWO_64;
    assert n == q * TWO_64 + r;
    if r + d < TWO_64 {
      assert (n + d) / TWO_64 == q;
    } else {
      assert (n + d) / TWO_64 == q + 1;
    }
  }

  function SealedCount(sent: seq<Wire>): nat {
    if sent == [] then 0 else SealedCount(sent[..|sent| - 1]) + if sent[|sent| - 1].Sealed? then 1 else 0
  }

  lemma SealedCountSnoc(sent: seq<Wire>, wire: Wire)
    ensures SealedCount(sent + [wire]) == SealedCount(sent) + if wire.Sealed? then 1 else 0
  {
    assert (sent + [wire])[..|sent|] == sent;
  }

  ghost predicate NonceCounts(sent: seq<Wire>, i: nat)
    requires i < |sent|
  {
    sent[i].Sealed? ==> sent[i].nonce == NthNonce(SealedCount(sent[..i]) + 1)
  }

  /** The i-th sealed message, whatever it carries and under whichever key, has nonce i. */
  ghost predicate NumberedNonces(sent: seq<Wire>) {
    forall i :: 0 <= i < |sent| ==> NonceCounts(sent, i)
  }

  lemma EarlierCounts(sent: seq<Wire>, wire: Wire, i: nat)
    requires i < |sent| && NonceCounts(sent, i)
    ensures NonceCounts(sent + [wire], i)
  {
    hide NthNonce, SealedCount;
    assert (sent + [wire])[..i] == sent[..i];
  }

  lemma NumberedSnoc(sent: seq<Wire>, wire: Wire)
    requires NumberedNonces(sent) && (wire.Sealed? ==> wire.nonce == NthNonce(SealedCount(sent) + 1))
    ensures NumberedNonces(sent + [wire])
  {
    hide NonceCounts, SealedCount, NthNonce;
    var more := sent + [wire];
    forall i | 0 <= i < |more| ensures NonceCounts(more, i) {
      if i < |sent| {
        EarlierCounts(sent, wire, i);
      } else {
        LastCounts(sent, wire);
      }
    }
  }

  lemma LastCounts(sent: seq<Wire>, wire: Wire)
    requires wire.Sealed? ==> wire.nonce == NthNonce(SealedCount(sent) + 1)
    ensures NonceCounts(sent + [wire], |sent|)
  {
    hide NthNonce, SealedCount;
    assert (sent + [wire])[..|sent|] == sent;
  }

  /** What a message turns out to be for the receiver. */
  datatype Received = Opened(data: seq<Byte>) | AsSent(wire: Wire)

  class Session {
    var sessionKey: Option<Key>
    var encSeqnum: U64
    var decSeqnum: U64
    ghost var sent: seq<Wire>
    ghost var openings: nat

    ghost predicate Valid()
      reads this
    {
      && encSeqnum == Wrap(SealedCount(sent)) && NumberedNonces(sent)
      && decSeqnum == Wrap(openings)
    }

    constructor ()
      ensures Valid() && sessionKey == None && sent == [] && openings == 0
    {
      sessionKey, encSeqnum, decSeqnum, sent, openings := None, 0, 0, [], 0;
    }

    /** A new key leaves the counters as they are. */
    method AdoptKey(key: Key)
      requires Valid()
      modifies this
      ensures Valid() && sessionKey == Some(key) && sent == old(sent) && openings == old(openings)
    {
      sessionKey := Some(key);
    }

    /** A reply, a video frame or an audio frame: they all count together. */
    method Send(data: seq<Byte>) returns (wire: Wire)
      requires Valid()
      modifies this
      ensures Valid() && sessionKey == old(sessionKey) && openings == old(openings)
      ensures sent == old(sent) + [wire] && wire.data == data
      ensures match sessionKey
              case None => wire == Plain(data)
              case Some(key) => wire == Sealed(key, NthNonce(SealedCount(old(sent)) + 1), data)
      ensures wire.Sealed? ==> NonceIs(wire.nonce, SealedCount(sent) % 0x1_0000_0000_0000_0000)
    {
      hide GetNonce, NumberedNonces, Wrap, NonceIs;
      NthNonceIs(SealedCount(sent) + 1);
      match sessionKey {
        case Some(key) =>
          WrapSucc(SealedCount(sent));
          encSeqnum := Succ(encSeqnum);
          wire := Sealed(key, GetNonce(encSeqnum), data);
        case None =>
          wire := Plain(data);
      }
      SealedCountSnoc(sent, wire);
      NumberedSnoc(sent, wire);
      sent := sent + [wire];
    }

    /** What opens under the next number counts; what does not is passed on as it came and leaves the
        counter where it was. */
    method Receive(wire: Wire) returns (received: Received)
      requires Valid()
      modifies this
      ensures Valid() && sessionKey == old(sessionKey) && sent == old(sent) && encSeqnum == old(encSeqnum)
      ensures received == match sessionKey
              case None => AsSent(wire)
              case Some(key) =>
                (match Open(wire, NthNonce(old(openings) + 1), key) case Some(data) => Opened(data) case None => AsSent(wire))
      ensures openings == old(openings) + if received.Opened? then 1 else 0
      ensures received.Opened? <==>
                wire.Sealed? && sessionKey == Some(wire.key) && NonceIs(wire.nonce, (old(openings) + 1) % 0x1_0000_0000_0000_0000)
    {
      hide GetNonce, Wrap, NumberedNonces, NonceIs;
      if wire.Sealed? {
        NthNonceIff(wire.nonce, openings + 1);
      }
      received := AsSent(wire);
      if sessionKey.Some? {
        WrapSucc(openings);
        decSeqnum := Succ(decSeqnum);
        match Open(wire, GetNonce(decSeqnum), sessionKey.value) {
          case Some(data) =>
            received := Opened(data);
            openings := openings + 1;
          case None =>
            decSeqnum := Pred(decSeqnum);
        }
      }
    }
  }

  /* ---- Nonces never repeat ---- */

  lemma {:induction false} SealedCountGrows(sent: seq<Wire>, i: nat, j: nat)
    requires i < j <= |sent| && sent[i].Sealed?
    ensures SealedCount(sent[..i]) < SealedCount(sent[..j])
  {
    assert sent[..j][..j - 1] == sent[..j - 1];
    if i < j - 1 {
      SealedCountGrows(sent, i, j - 1);
    }
  }

  /** The message that is the n-th sealed one. */
  lemma {:induction false} FindSealed(sent: seq<Wire>, n: nat) returns (i: nat)
    requires n < SealedCount(sent)
    ensures i < |sent| && sent[i].Sealed? && SealedCount(sent[..i]) == n
    decreases |sent|
  {
    var last := |sent| - 1;
    if n < SealedCount(sent[..last]) {
      i := FindSealed(sent[..last], n);
      assert sent[..last][..i] == sent[..i];
    } else {
      i := last;
    }
  }

  ghost predicate NoncesDistinct(sent: seq<Wire>) {
    forall i, j :: 0 <= i < j < |sent| && sent[i].Sealed? && sent[j].Sealed? ==> sent[i].nonce != sent[j].nonce
  }

  /** No nonce is used twice, across all keys, if and only if at most 2^64 messages have been sealed. */
  lemma NoncesDistinctIff(sent: seq<Wire>)
    requires NumberedNonces(sent)
    ensures NoncesDistinct(sent) <==> SealedCount(sent) <= TWO_64
  {
    hide NthNonce, SealedCount, NumberedNonces, NoncesDistinct;
    if SealedCount(sent) <= TWO_64 {
      FewAreDistinct(sent);
    } else {
      SomeRepeats(sent);
    }
  }

  lemma FewAreDistinct(sent: seq<Wire>)
    requires NumberedNonces(sent) && SealedCount(sent) <= TWO_64
    ensures NoncesDistinct(sent)
  {
    hide NthNonce, SealedCount;
    forall i, j | 0 <= i < j < |sent| && sent[i].Sealed? && sent[j].Sealed? ensures sent[i].nonce != sent[j].nonce {
      var a, b := SealedCount(sent[..i]), SealedCount(sent[..j]);
      assert NonceCounts(sent, i) && NonceCounts(sent, j);
      SealedCountGrows(sent, i, j);
      SealedCountGrows(sent, j, |sent|);
      assert sent[..|sent|] == sent;
      NonceComesRound(a + 1, b - a);
    }
  }

  lemma SomeRepeats(sent: seq<Wire>)
    requires NumberedNonces(sent) && SealedCount(sent) > TWO_64
    ensures !NoncesDistinct(sent)
  {
    hide NthNonce, SealedCount;
    var i := FindSealed(sent, 0);
    var j := FindSealed(sent, TWO_64);
    NonceComesRound(1, TWO_64);
    assert NonceCounts(sent, i) && NonceCounts(sent, j);
    assert i != j;
  }

  /* ---- Two sides of one channel ---- */

  /** What happens on the way from one side to the other: both adopt a key, the sender sends a message,
      or a message arrives that was never sealed. */
  datatype Event = Rekey(key: Key) | Message(data: seq<Byte>) | Unsealed(data: seq<Byte>)

  /** The key both sides have after some events. */
  function KeyAfter(events: seq<Event>): Option<Key> {
    if events == [] then None
    else match events[|events| - 1]
      case Rekey(key) => Some(key)
      case _ => KeyAfter(events[..|events| - 1])
  }

  /** What the sender puts on the channel: messages under a key are sealed and numbered from 1. */
  function Sent(events: seq<Event>): seq<Wire> {
    if events == [] then []
    else
      var before, last := events[..|events| - 1], events[|events| - 1];
      if !last.Message? then Sent(before)
      else Sent(before) + [match KeyAfter(before)
                           case None => Plain(last.data)
                           case Some(key) => Sealed(key, NthNonce(SealedCount(Sent(before)) + 1), last.data)]
  }

  /** What the receiver makes of it: every sealed message is opened, every other comes as it was sent. */
  function Deliveries(events: seq<Event>): seq<Received> {
    if events == [] then []
    else
      var before, last := events[..|events| - 1], events[|events| - 1];
      match last
      case Rekey(_) => Deliveries(before)
      case Message(data) => Deliveries(before) + [if KeyAfter(before).Some? then Opened(data) else AsSent(Plain(data))]
      case Unsealed(data) => Deliveries(before) + [AsSent(Plain(data))]
  }

  /** Over an ordered channel the counters stay in step: every message sealed is opened, in order, with
      the count it was sealed under, and messages that were never sealed disturb neither side. */
  method Converse(events: seq<Event>)
    returns (delivered: seq<Received>, wires: seq<Wire>, encSeqnum: U64, decSeqnum: U64, ghost openings: nat)
    ensures delivered == Deliveries(events) && wires == Sent(events)
    ensures openings == SealedCount(wires) && NumberedNonces(wires)
    ensures encSeqnum == decSeqnum == Wrap(SealedCount(wires))
  {
    hide NthNonce, Wrap, NumberedNonces, SealedCount;
    var sender := new Session();
    var receiver := new Session();
    delivered, wires := [], [];
    SealedNone();
    for i := 0 to |events|
      invariant sender != receiver && fresh(sender) && fresh(receiver)
      invariant sender.Valid() && receiver.Valid()
      invariant sender.sessionKey == receiver.sessionKey == KeyAfter(events[..i])
      invariant receiver.openings == SealedCount(sender.sent)
      invariant wires == sender.sent == Sent(events[..i]) && delivered == Deliveries(events[..i])
    {
      assert events[..i + 1][..i] == events[..i];
      match events[i] {
        case Rekey(key) =>
          sender.AdoptKey(key);
          receiver.AdoptKey(key);
        case Message(data) =>
          var wire := sender.Send(data);
          SealedCountSnoc(wires, wire);
          wires := wires + [wire];
          var received := receiver.Receive(wire);
          delivered := delivered + [received];
        case Unsealed(data) =>
          var received := receiver.Receive(Plain(data));
          delivered := delivered + [received];
      }
    }
    assert events[..|events|] == events;
    encSeqnum, decSeqnum, openings := sender.encSeqnum, receiver.decSeqnum, receiver.openings;
  }

  lemma SealedNone()
    ensures SealedCount([]) == 0
  {
  }

  /** How often the receiver opens a message is how often one was sealed. */
  lemma {:induction false} OpenedAreSealed(events: seq<Event>)
    ensures OpenedCount(Deliveries(events)) == SealedCount(Sent(events))
    decreases |events|
  {
    if events != [] {
      var before := events[..|events| - 1];
      OpenedAreSealed(before);
      hide NthNonce;
      var sent, delivered := Sent(before), Deliveries(before);
      if Sent(events) != sent {
        SealedCountSnoc(sent, Sent(events)[|sent|]);
      }
      if Deliveries(events) != delivered {
        OpenedCountSnoc(delivered, Deliveries(events)[|delivered|]);
      }
    }
  }

  function OpenedCount(delivered: seq<Received>): nat {
    if delivered == [] then 0 else OpenedCount(delivered[..|delivered| - 1]) + if delivered[|delivered| - 1].Opened? then 1 else 0
  }

  lemma OpenedCountSnoc(delivered: seq<Received>, received: Received)
    ensures OpenedCount(delivered + [received]) == OpenedCount(delivered) + if received.Opened? then 1 else 0
  {
    assert (delivered + [received])[..|delivered|] == delivered;
  }

  /* ---- A channel that loses messages ---- */

  /** A session receives whatever comes. */
  method ReceiveAll(receiver: Session, wires: seq<Wire>) returns (delivered: seq<Received>)
    requires receiver.Valid() && receiver.sessionKey.Some?
    modifies receiver
    ensures receiver.Valid() && receiver.sessionKey == old(receiver.sessionKey)
    ensures receiver.openings == OpenedAfter(receiver.sessionKey.value, old(receiver.openings), wires)
    ensures delivered == ReceivedFrom(receiver.sessionKey.value, old(receiver.openings), wires)
  {
    hide NthNonce, Wrap, NumberedNonces, Open;
    delivered := [];
    ghost var key, start := receiver.sessionKey.value, receiver.openings;
    for n := 0 to |wires|
      invariant receiver.Valid() && receiver.sessionKey == Some(key)
      invariant receiver.openings == OpenedAfter(key, start, wires[..n])
      invariant delivered == ReceivedFrom(key, start, wires[..n])
    {
      assert wires[..n + 1][..n] == wires[..n];
      var received := receiver.Receive(wires[n]);
      delivered := delivered + [received];
    }
    assert wires[..|wires|] == wires;
  }

  function ReceivedFrom(key: Key, openings: nat, wires: seq<Wire>): seq<Received> {
    if wires == [] then []
    else
      var before := wires[..|wires| - 1];
      ReceivedFrom(key, openings, before) + [ReceivedAs(key, OpenedAfter(key, openings, before), wires[|wires| - 1])]
  }

  /** What a message turns out to be for a receiver that has opened so many. */
  function ReceivedAs(key: Key, openings: nat, wire: Wire): Received {
    match Open(wire, NthNonce(openings + 1), key)
    case Some(data) => Opened(data)
    case None => AsSent(wire)
  }

  /** After how many of these messages the receiver's count stands where. */
  function OpenedAfter(key: Key, openings: nat, wires: seq<Wire>): nat {
    if wires == [] then openings
    else
      var before := OpenedAfter(key, openings, wires[..|wires| - 1]);
      if Open(wires[|wires| - 1], NthNonce(before + 1), key).Some? then before + 1 else before
  }

  /** The messages sealed as number first, first + 1, and so on. */
  ghost predicate SealedFrom(key: Key, first: nat, wires: seq<Wire>) {
    forall i :: 0 <= i < |wires| ==>
      wires[i].Sealed? && wires[i].key == key && wires[i].nonce == NthNonce(first + i)
  }

  lemma SealedFromPrefix(key: Key, first: nat, wires: seq<Wire>, n: nat)
    requires SealedFrom(key, first, wires) && n < |wires|
    ensures SealedFrom(key, first, wires[..n])
    ensures wires[n].Sealed? && wires[n].key == key && wires[n].nonce == NthNonce(first + n)
  {
    hide NthNonce;
  }

  lemma OpenedStep(key: Key, openings: nat, wires: seq<Wire>, number: nat)
    requires wires != []
    requires wires[|wires| - 1].Sealed? && wires[|wires| - 1].key == key && wires[|wires| - 1].nonce == NthNonce(number)
    ensures var before := OpenedAfter(key, openings, wires[..|wires| - 1]);
            OpenedAfter(key, openings, wires) == if NthNonce(number) == NthNonce(before + 1) then before + 1 else before
  {
    hide NthNonce;
  }

  /** The last message opens if none was missed, and does not otherwise. */
  lemma LastOpensIff(key: Key, openings: nat, missed: nat, wires: seq<Wire>)
    requires wires != [] && SealedFrom(key, openings + 1 + missed, wires)
    requires 0 < missed ==> missed + |wires| <= TWO_64
    requires OpenedAfter(key, openings, wires[..|wires| - 1]) == if missed == 0 then openings + |wires| - 1 else openings
    ensures OpenedAfter(key, openings, wires) == if missed == 0 then openings + |wires| else openings
  {
    hide NthNonce, OpenedAfter, SealedFrom, Open;
    var last := |wires| - 1;
    var number := openings + 1 + missed + last;
    SealedFromPrefix(key, openings + 1 + missed, wires, last);
    OpenedStep(key, openings, wires, number);
    if missed > 0 {
      NonceComesRound(openings + 1, missed + last);
      assert openings + 1 + (missed + last) == number;
    }
  }

  /** The order of the channel is needed: a receiver that misses messages opens none of those that
      follow, until the numbers come round. */
  lemma {:induction false} MissedMessagesBlock(key: Key, openings: nat, missed: nat, wires: seq<Wire>)
    requires SealedFrom(key, openings + 1 + missed, wires)
    requires 0 < missed ==> missed + |wires| <= TWO_64
    ensures OpenedAfter(key, openings, wires) == if missed == 0 then openings + |wires| else openings
    decreases |wires|
  {
    if wires != [] {
      hide NthNonce, OpenedAfter, SealedFrom;
      SealedFromPrefix(key, openings + 1 + missed, wires, |wires| - 1);
      MissedMessagesBlock(key, openings, missed, wires[..|wires| - 1]);
      LastOpensIff(key, openings, missed, wires);
    }
  }
}
