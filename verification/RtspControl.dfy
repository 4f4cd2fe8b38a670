/** The control channel of an RTSP session over TCP (src/rtsp/service.rs): requests and interleaved
    RTP/RTCP frames (section 10.12 of RFC 2326) arrive mixed in one byte stream. */
module RtspControl {
  import opened Prelude

  type Bytes = seq<Byte>

  const DOLLAR: Byte := 0x24
  const DELIMITER: Bytes := [13, 10, 13, 10]

  class ByteBuffer {
    var data: Bytes

    constructor ()
      ensures data == []
    {
      data := [];
    }
  }

  /* ---- Interleaved frames ---- */

  /** What `send_interleaved_rtp` writes: the length goes into 16 bits. */
  function Interleaved(channel: Byte, packet: Bytes): Bytes {
    var len := |packet| % 0x1_0000;
    [DOLLAR, channel, len / 256, len % 256] + packet
  }

  /** How long the frame at the front of a buffer is. */
  function FrameLength(buffer: Bytes): nat
    requires |buffer| >= 4
  {
    4 + 256 * (buffer[2] as int) + buffer[3]
  }

  predicate FrameComplete(buffer: Bytes) {
    |buffer| >= 4 && buffer[0] == DOLLAR && |buffer| >= FrameLength(buffer)
  }

  /** A packet on the wire (section 10.12 of RFC 2326): a dollar sign, the channel, two bytes of length,
      the higher one first and cut to 16 bits, and the packet. */
  lemma InterleavedLayout(channel: Byte, packet: Bytes)
    ensures var b := Interleaved(channel, packet);
            && |b| == 4 + |packet| && b[0] == 0x24 && b[1] == channel && b[4..] == packet
            && 256 * (b[2] as int) + b[3] == |packet| % 0x1_0000
  {
    var n := |packet|;
    assert n % 0x1_0000 == 256 * (n / 256 % 256) + n % 256;
  }

  function StripAll(buffer: Bytes): Bytes
    decreases |buffer|
  {
    if FrameComplete(buffer) then StripAll(buffer[FrameLength(buffer)..]) else buffer
  }

  method StripInterleavedFramesPrefix(buffer: ByteBuffer) returns (stripped: bool)
    modifies buffer
    ensures stripped == FrameComplete(old(buffer.data))
    ensures buffer.data == if stripped then old(buffer.data)[FrameLength(old(buffer.data))..] else old(buffer.data)
    ensures var b := old(buffer.data);
            if |b| >= 4 && b[0] == 0x24 && |b| >= 4 + 256 * (b[2] as int) + b[3]
            then stripped && buffer.data == b[4 + 256 * (b[2] as int) + b[3]..]
            else !stripped && buffer.data == b
  {
    if |buffer.data| < 4 || buffer.data[0] != DOLLAR {
      return false;
    }
    var high, low: int := buffer.data[2], buffer.data[3];
    var frameLen := 4 + (256 * high + low);
    if |buffer.data| < frameLen {
      return false;
    }
    buffer.data := buffer.data[frameLen..];
    return true;
  }

  /** Stripping takes off exactly what was sent, up to the longest packet 16 bits can announce, and
      no packet beyond it. */
  lemma StripUndoesSendIff(channel: Byte, packet: Bytes, rest: Bytes)
    ensures var buffer := Interleaved(channel, packet) + rest;
            && FrameComplete(buffer)
            && (buffer[FrameLength(buffer)..] == rest <==> |packet| <= 0xFFFF)
  {
    var buffer := Interleaved(channel, packet) + rest;
    var len := |packet| % 0x1_0000;
    assert FrameLength(buffer) == 4 + len;
    if |packet| <= 0xFFFF {
      assert buffer[4 + |packet|..] == rest;
    } else {
      assert |buffer[4 + len..]| > |rest|;
    }
  }

  /* ---- Requests ---- */

  predicate MatchAt(haystack: Bytes, needle: Bytes, i: nat) {
    i + |needle| <= |haystack| && haystack[i..i + |needle|] == needle
  }

  function FindFrom(haystack: Bytes, needle: Bytes, i: nat): Option<nat>
    decreases |haystack| - i
  {
    if i + |needle| > |haystack| then None
    else if haystack[i..i + |needle|] == needle then Some(i)
    else FindFrom(haystack, needle, i + 1)
  }

  method FindBytes(haystack: Bytes, needle: Bytes) returns (r: Option<nat>)
    requires needle != []
    ensures r == FindFrom(haystack, needle, 0)
    ensures match r
            case Some(p) => MatchAt(haystack, needle, p) && forall j :: 0 <= j < p ==> !MatchAt(haystack, needle, j)
            case None => forall j :: 0 <= j ==> !MatchAt(haystack, needle, j)
  {
    var i := 0;
    while i + |needle| <= |haystack|
      invariant FindFrom(haystack, needle, i) == FindFrom(haystack, needle, 0)
      invariant forall j :: 0 <= j < i ==> !MatchAt(haystack, needle, j)
    {
      if haystack[i..i + |needle|] == needle {
        return Some(i);
      }
      i := i + 1;
    }
    return None;
  }

  lemma {:induction false} FindsFirst(haystack: Bytes, needle: Bytes, i: nat, p: nat)
    requires i <= p && MatchAt(haystack, needle, p)
    requires forall j :: i <= j < p ==> !MatchAt(haystack, needle, j)
    ensures FindFrom(haystack, needle, i) == Some(p)
    decreases p - i
  {
    if i < p {
      assert !MatchAt(haystack, needle, i);
      FindsFirst(haystack, needle, i + 1, p);
    }
  }

  lemma {:induction false} FindsNone(haystack: Bytes, needle: Bytes, i: nat)
    requires forall j :: i <= j ==> !MatchAt(haystack, needle, j)
    ensures FindFrom(haystack, needle, i) == None
    decreases |haystack| - i
  {
    assert !MatchAt(haystack, needle, i);
    if i + |needle| <= |haystack| {
      FindsNone(haystack, needle, i + 1);
    }
  }

  lemma {:induction false} FindSpec(haystack: Bytes, needle: Bytes, i: nat)
    ensures match FindFrom(haystack, needle, i)
            case Some(p) => i <= p && MatchAt(haystack, needle, p) && forall j :: i <= j < p ==> !MatchAt(haystack, needle, j)
            case None => forall j :: i <= j ==> !MatchAt(haystack, needle, j)
    decreases |haystack| - i
  {
    if i + |needle| <= |haystack| && !MatchAt(haystack, needle, i) {
      FindSpec(haystack, needle, i + 1);
    }
  }

  /** The text up to and including the first blank line, and the bytes after it. */
  function Take(buffer: Bytes): (r: Option<(Bytes, Bytes)>)
    ensures r.Some? ==> r.value.0 + r.value.1 == buffer && |r.value.1| < |buffer|
  {
    FindSpec(buffer, DELIMITER, 0);
    match FindFrom(buffer, DELIMITER, 0)
    case None => None
    case Some(p) => Some((buffer[..p + 4], buffer[p + 4..]))
  }

  /** CR LF CR LF. */
  predicate BlankLineIn(b: Bytes, j: nat) {
    j + 4 <= |b| && b[j] == 13 && b[j + 1] == 10 && b[j + 2] == 13 && b[j + 3] == 10
  }

  /** Taken is everything up to the end of the first CR LF CR LF, if there is one. */
  ghost predicate FirstText(buffer: Bytes, raw: Option<Bytes>, rest: Bytes) {
    match raw
    case None => rest == buffer && forall j: nat :: !BlankLineIn(buffer, j)
    case Some(text) =>
      && text + rest == buffer && |text| >= 4 && BlankLineIn(buffer, |text| - 4)
      && forall j: nat :: j < |text| - 4 ==> !BlankLineIn(buffer, j)
  }

  lemma TakenIs(buffer: Bytes)
    ensures match Take(buffer)
            case None => FirstText(buffer, None, buffer)
            case Some((raw, rest)) => FirstText(buffer, Some(raw), rest)
  {
    FindSpec(buffer, DELIMITER, 0);
    forall j: nat ensures MatchAt(buffer, DELIMITER, j) <==> BlankLineIn(buffer, j) {
      if j + 4 <= |buffer| {
        assert buffer[j..j + 4] == [buffer[j], buffer[j + 1], buffer[j + 2], buffer[j + 3]];
      }
    }
    hide MatchAt, BlankLineIn;
  }

  method TakeRtspRequestFromBuffer(buffer: ByteBuffer) returns (r: Option<Bytes>)
    modifies buffer
    ensures match Take(old(buffer.data))
            case None => r == None && buffer.data == old(buffer.data)
            case Some((raw, rest)) => r == Some(raw) && buffer.data == rest
    ensures FirstText(old(buffer.data), r, buffer.data)
  {
    hide FirstText;
    TakenIs(buffer.data);
    var pos := FindBytes(buffer.data, DELIMITER);
    if pos.None? {
      return None;
    }
    var reqEnd := pos.value + |DELIMITER|;
    r := Some(buffer.data[..reqEnd]);
    buffer.data := buffer.data[reqEnd..];
  }

  /* ---- The control loop ---- */

  /** What the loop asks of the code that parses and answers requests: which texts are requests, and
      which requests end the session. */
  datatype Handler = Handler(parses: Bytes -> bool, teardown: Bytes -> bool)

  /** What the loop has done: the texts taken off the buffer, the buffer left, and whether a request
      ended the session. */
  datatype Outcome = Outcome(taken: seq<Bytes>, buffer: Bytes, ended: bool)

  function TakeAll(h: Handler, buffer: Bytes): Outcome
    decreases |buffer|
  {
    match Take(buffer)
    case None => Outcome([], buffer, false)
    case Some((raw, rest)) =>
      if !h.parses(raw) then Also(raw, TakeAll(h, rest))
      else if h.teardown(raw) then Outcome([raw], rest, true)
      else
        StripShortens(rest);
        Also(raw, TakeAll(h, StripAll(rest)))
  }

  function Also(raw: Bytes, o: Outcome): Outcome {
    o.(taken := [raw] + o.taken)
  }

  lemma {:induction false} StripShortens(buffer: Bytes)
    ensures |StripAll(buffer)| <= |buffer|
    decreases |buffer|
  {
    if FrameComplete(buffer) {
      StripShortens(buffer[FrameLength(buffer)..]);
    }
  }

  function Process(h: Handler, buffer: Bytes): Outcome {
    TakeAll(h, StripAll(buffer))
  }

  /** The loop over the reads of a connection. */
  function Run(h: Handler, buffer: Bytes, chunks: seq<Bytes>): Outcome
    decreases |chunks|
  {
    if chunks == [] then Outcome([], buffer, false)
    else
      var o := Process(h, buffer + chunks[0]);
      if o.ended then o
      else
        var later := Run(h, o.buffer, chunks[1..]);
        later.(taken := o.taken + later.taken)
  }

  method ControlLoop(h: Handler, chunks: seq<Bytes>) returns (taken: seq<Bytes>, dispatched: seq<Bytes>, ended: bool)
    ensures taken == Run(h, [], chunks).taken && ended == Run(h, [], chunks).ended
    ensures dispatched == Dispatched(h, taken)
  {
    hide TakeAll, StripAll;
    var buffer := new ByteBuffer();
    taken, dispatched := [], [];
    for i := 0 to |chunks|
      invariant fresh(buffer)
      invariant var later := Run(h, buffer.data, chunks[i..]); Run(h, [], chunks) == later.(taken := taken + later.taken)
      invariant dispatched == Dispatched(h, taken)
    {
      assert chunks[i..][1..] == chunks[i + 1..];
      buffer.data := buffer.data + chunks[i];
      StripPrefix(buffer);
      var more, handled, end := HandleRequests(h, buffer);
      DispatchedAppend(h, taken, more);
      taken, dispatched := taken + more, dispatched + handled;
      if end {
        return taken, dispatched, true;
      }
    }
    return taken, dispatched, false;
  }

  /** The inner loop: requests off the buffer, and frames after each request that was handled. */
  method HandleRequests(h: Handler, buffer: ByteBuffer) returns (taken: seq<Bytes>, dispatched: seq<Bytes>, ended: bool)
    modifies buffer
    ensures TakeAll(h, old(buffer.data)) == Outcome(taken, buffer.data, ended)
    ensures dispatched == Dispatched(h, taken)
  {
    hide StripAll, Take, Dispatched;
    DispatchedNone(h);
    taken, dispatched := [], [];
    while true
      invariant var more := TakeAll(h, buffer.data); TakeAll(h, old(buffer.data)) == more.(taken := taken + more.taken)
      invariant dispatched == Dispatched(h, taken)
      decreases |buffer.data|
    {
      ghost var o, sofar := TakeAll(h, buffer.data), taken;
      var raw := TakeRtspRequestFromBuffer(buffer);
      if raw.None? {
        return taken, dispatched, false;
      }
      DispatchedSnoc(h, taken, raw.value);
      taken := taken + [raw.value];
      assert sofar + o.taken == taken + o.taken[1..];
      if !h.parses(raw.value) {
        continue;
      }
      dispatched := dispatched + [raw.value];
      if h.teardown(raw.value) {
        return taken, dispatched, true;
      }
      StripPrefix(buffer);
    }
  }

  method StripPrefix(buffer: ByteBuffer)
    modifies buffer
    ensures buffer.data == StripAll(old(buffer.data)) && |buffer.data| <= |old(buffer.data)|
  {
    var more := true;
    while more
      invariant StripAll(buffer.data) == StripAll(old(buffer.data)) && |buffer.data| <= |old(buffer.data)|
      invariant !more ==> !FrameComplete(buffer.data)
      decreases more, |buffer.data|
    {
      more := StripInterleavedFramesPrefix(buffer);
    }
  }

  /** The texts that go to the request handler. */
  function Dispatched(h: Handler, taken: seq<Bytes>): seq<Bytes> {
    if taken == [] then []
    else Dispatched(h, taken[..|taken| - 1]) + if h.parses(taken[|taken| - 1]) then [taken[|taken| - 1]] else []
  }

  lemma DispatchedNone(h: Handler)
    ensures Dispatched(h, []) == []
  {
  }

  lemma DispatchedSnoc(h: Handler, taken: seq<Bytes>, raw: Bytes)
    ensures Dispatched(h, taken + [raw]) == Dispatched(h, taken) + if h.parses(raw) then [raw] else []
  {
    assert (taken + [raw])[..|taken|] == taken;
  }

  lemma {:induction false} DispatchedAppend(h: Handler, a: seq<Bytes>, b: seq<Bytes>)
    ensures Dispatched(h, a + b) == Dispatched(h, a) + Dispatched(h, b)
    decreases |b|
  {
    if b == [] {
      assert a + b == a;
    } else {
      var last := |b| - 1;
      assert a + b == a + b[..last] + [b[last]];
      DispatchedAppend(h, a, b[..last]);
      DispatchedSnoc(h, a + b[..last], b[last]);
    }
  }

  /* ---- Well-formed traffic ---- */

  datatype Item = Request(raw: Bytes) | Frame(channel: Byte, packet: Bytes)

  function Wire(it: Item): Bytes {
    match it
    case Request(raw) => raw
    case Frame(channel, packet) => Interleaved(channel, packet)
  }

  function WireAll(items: seq<Item>): Bytes {
    if items == [] then [] else Wire(items[0]) + WireAll(items[1..])
  }

  /** The first blank line is the last thing in the text. */
  predicate BlankLineAtEnd(b: Bytes) {
    && |b| >= 4 && MatchAt(b, DELIMITER, |b| - 4)
    && forall j :: 0 <= j < |b| - 4 ==> !MatchAt(b, DELIMITER, j)
  }

  /** No blank line before the end: none is complete while the last byte is missing. */
  predicate Clean(b: Bytes) {
    forall j :: 0 <= j < |b| - 4 ==> !MatchAt(b, DELIMITER, j)
  }

  predicate GoodItem(it: Item) {
    match it
    case Request(raw) => BlankLineAtEnd(raw) && raw[0] != DOLLAR
    case Frame(_, packet) => |packet| <= 0xFFFF
  }

  /** Traffic the loop takes apart as it was sent: frames are clean, and none directly follows a
      request that does not parse, for after such a request the loop does not strip frames. */
  ghost predicate Smooth(h: Handler, items: seq<Item>) {
    forall i :: 0 <= i < |items| ==>
      && GoodItem(items[i])
      && (items[i].Frame? ==> Clean(Wire(items[i])))
      && (items[i].Request? && !h.parses(items[i].raw) && i + 1 < |items| ==> items[i + 1].Request?)
  }

  predicate Ends(h: Handler, it: Item) {
    it.Request? && h.parses(it.raw) && h.teardown(it.raw)
  }

  /** The requests sent, up to the first that ends the session. */
  function Requests(h: Handler, items: seq<Item>): seq<Bytes> {
    if items == [] then []
    else if items[0].Frame? then Requests(h, items[1..])
    else if Ends(h, items[0]) then [items[0].raw]
    else [items[0].raw] + Requests(h, items[1..])
  }

  predicate SomeEnds(h: Handler, items: seq<Item>) {
    exists i :: 0 <= i < |items| && Ends(h, items[i])
  }

  /* ---- Complete items ---- */

  lemma StripFrame(channel: Byte, packet: Bytes, x: Bytes)
    requires |packet| <= 0xFFFF
    ensures StripAll(Interleaved(channel, packet) + x) == StripAll(x)
  {
    StripUndoesSendIff(channel, packet, x);
  }

  lemma TakeRequest(raw: Bytes, x: Bytes)
    requires BlankLineAtEnd(raw)
    ensures Take(raw + x) == Some((raw, x))
  {
    forall j | 0 <= j < |raw| - 4 ensures !MatchAt(raw + x, DELIMITER, j) {
      assert (raw + x)[j..j + 4] == raw[j..j + 4];
      assert !MatchAt(raw, DELIMITER, j);
    }
    var p := |raw| - 4;
    assert (raw + x)[p..p + 4] == raw[p..p + 4];
    FindsFirst(raw + x, DELIMITER, 0, p);
    assert (raw + x)[..p + 4] == raw && (raw + x)[p + 4..] == x;
  }

  lemma ProcessItem(h: Handler, it: Item, x: Bytes)
    requires GoodItem(it)
    ensures it.Frame? ==> Process(h, Wire(it) + x) == Process(h, x)
    ensures it.Request? && !Ends(h, it) && (h.parses(it.raw) || x == [] || x[0] != DOLLAR) ==>
      Process(h, Wire(it) + x) == Also(it.raw, Process(h, x))
    ensures Ends(h, it) ==> Process(h, Wire(it) + x) == Outcome([it.raw], x, true)
  {
    match it
    case Frame(channel, packet) => StripFrame(channel, packet, x);
    case Request(raw) => TakeRequest(raw, x);
  }

  /** Complete items at the front of the buffer are all taken, whatever follows. */
  lemma {:induction false} ProcessItems(h: Handler, items: seq<Item>, x: Bytes)
    requires Smooth(h, items)
    requires items != [] && items[|items| - 1].Request? && !h.parses(items[|items| - 1].raw) ==> x == [] || x[0] != DOLLAR
    ensures var o := Process(h, WireAll(items) + x);
            if SomeEnds(h, items) then o.taken == Requests(h, items) && o.ended
            else var p := Process(h, x); o == p.(taken := Requests(h, items) + p.taken)
    decreases |items|
  {
    hide Process, GoodItem, Wire;
    if items == [] {
      assert WireAll(items) + x == x;
    } else {
      var first, later := items[0], items[1..];
      var y := WireAll(later) + x;
      assert WireAll(items) + x == Wire(first) + y;
      SmoothTail(h, items);
      SomeEndsTail(h, items);
      NextStarts(h, items, x);
      ProcessItem(h, first, y);
      if !Ends(h, first) {
        ProcessItems(h, later, x);
      }
    }
  }

  lemma SomeEndsTail(h: Handler, items: seq<Item>)
    requires items != []
    ensures SomeEnds(h, items) <==> Ends(h, items[0]) || SomeEnds(h, items[1..])
  {
    if SomeEnds(h, items[1..]) {
      var i :| 0 <= i < |items| - 1 && Ends(h, items[1..][i]);
      assert Ends(h, items[i + 1]);
    }
    if SomeEnds(h, items) {
      var i :| 0 <= i < |items| && Ends(h, items[i]);
      assert i > 0 ==> Ends(h, items[1..][i - 1]);
    }
  }

  /** After a request that does not parse, the bytes that follow do not start a frame. */
  lemma NextStarts(h: Handler, items: seq<Item>, x: Bytes)
    requires items != [] && Smooth(h, items)
    requires items[|items| - 1].Request? && !h.parses(items[|items| - 1].raw) ==> x == [] || x[0] != DOLLAR
    ensures var y := WireAll(items[1..]) + x;
            items[0].Request? && !h.parses(items[0].raw) ==> y == [] || y[0] != DOLLAR
  {
    hide Wire, GoodItem, Clean;
    if |items| > 1 {
      var later := items[1..];
      assert later[0] == items[1] && GoodItem(items[1]);
      WireStarts(later[0], WireAll(later[1..]) + x);
      assert WireAll(later) + x == Wire(later[0]) + (WireAll(later[1..]) + x);
    } else {
      assert WireAll(items[1..]) + x == x;
    }
  }

  lemma WireStarts(it: Item, x: Bytes)
    requires GoodItem(it)
    ensures Wire(it) != [] && ((Wire(it) + x)[0] == DOLLAR <==> it.Frame?)
  {
  }

  lemma SmoothTail(h: Handler, items: seq<Item>)
    requires items != [] && Smooth(h, items)
    ensures Smooth(h, items[1..])
  {
    forall i | 0 <= i < |items| - 1
      ensures var it := items[1..][i];
              && GoodItem(it) && (it.Frame? ==> Clean(Wire(it)))
              && (it.Request? && !h.parses(it.raw) && i + 1 < |items| - 1 ==> items[1..][i + 1].Request?)
    {
      assert items[1..][i] == items[i + 1];
    }
  }

  /* ---- Incomplete items ---- */

  predicate ProperPrefix(x: Bytes, whole: Bytes) {
    x <= whole && |x| < |whole|
  }

  lemma MatchInPrefix(x: Bytes, whole: Bytes, j: nat)
    requires x <= whole && MatchAt(x, DELIMITER, j)
    ensures MatchAt(whole, DELIMITER, j)
  {
    assert whole[j..j + 4] == x[j..j + 4];
  }

  lemma TakeNothing(x: Bytes, whole: Bytes)
    requires ProperPrefix(x, whole) && Clean(whole)
    ensures Take(x) == None
  {
    forall j: nat ensures !MatchAt(x, DELIMITER, j) {
      if MatchAt(x, DELIMITER, j) {
        MatchInPrefix(x, whole, j);
      }
    }
    FindsNone(x, DELIMITER, 0);
  }

  /** A frame that has not arrived whole stays in the buffer. */
  lemma PartialFrameStays(channel: Byte, packet: Bytes, x: Bytes)
    requires |packet| <= 0xFFFF && ProperPrefix(x, Interleaved(channel, packet))
    ensures StripAll(x) == x && (x != [] ==> x[0] == DOLLAR)
  {
    if |x| >= 4 {
      assert x[2] == Interleaved(channel, packet)[2] && x[3] == Interleaved(channel, packet)[3];
    }
  }

  lemma PartialItem(h: Handler, it: Item, x: Bytes)
    requires GoodItem(it) && (it.Frame? ==> Clean(Wire(it))) && ProperPrefix(x, Wire(it))
    ensures Process(h, x) == Outcome([], x, false)
  {
    if it.Frame? {
      PartialFrameStays(it.channel, it.packet, x);
    }
    TakeNothing(x, Wire(it));
  }

  /* ---- Every way of cutting the stream ---- */

  lemma {:induction false} RequestsSplit(h: Handler, items: seq<Item>, n: nat)
    requires n <= |items|
    ensures SomeEnds(h, items[..n]) ==> Requests(h, items) == Requests(h, items[..n])
    ensures !SomeEnds(h, items[..n]) ==>
      Requests(h, items) == Requests(h, items[..n]) + Requests(h, items[n..])
  {
    if n == 0 {
      assert items[0..] == items;
    } else {
      var later := items[1..];
      RequestsSplit(h, later, n - 1);
      assert items[..n][1..] == later[..n - 1] && items[n..] == later[n - 1..] && items[..n][0] == items[0];
      SomeEndsTail(h, items[..n]);
    }
  }

  lemma {:induction false} WireAllSplit(items: seq<Item>, n: nat)
    requires n <= |items|
    ensures WireAll(items) == WireAll(items[..n]) + WireAll(items[n..])
  {
    hide Wire;
    if n == 0 {
      assert items[0..] == items;
    } else {
      WireAllSplit(items[1..], n - 1);
      assert items[..n][1..] == items[1..][..n - 1] && items[n..] == items[1..][n - 1..];
    }
  }

  lemma WireAllPrefix(items: seq<Item>, n: nat)
    requires 0 < n <= |items|
    ensures WireAll(items[..n]) == Wire(items[0]) + WireAll(items[1..][..n - 1])
    ensures items[n..] == items[1..][n - 1..]
  {
    assert items[..n][1..] == items[1..][..n - 1];
  }

  /** Where a buffer ends among the items: n are whole in it, and x of the next has arrived. */
  lemma {:induction false} Cut(items: seq<Item>, junk: Bytes, buffer: Bytes, unread: Bytes) returns (n: nat, x: Bytes)
    requires buffer + unread == WireAll(items) + junk
    ensures n <= |items| && buffer == WireAll(items[..n]) + x && x + unread == WireAll(items[n..]) + junk
    ensures n < |items| ==> ProperPrefix(x, Wire(items[n]))
    decreases |items|
  {
    hide Wire;
    if items == [] {
      n, x := 0, buffer;
      assert WireAll(items) == [] && items[..0] == items;
    } else {
      var first, after := Wire(items[0]), WireAll(items[1..]) + junk;
      assert buffer + unread == first + after;
      if |buffer| < |first| {
        n, x := 0, buffer;
        SplitEarlier(buffer, unread, first, after);
        assert items[0..] == items;
      } else {
        hide WireAll;
        SplitEarlier(first, after, buffer, unread);
        var m, y := Cut(items[1..], junk, buffer[|first|..], unread);
        n, x := m + 1, y;
        WireAllPrefix(items, n);
        JoinCut(buffer, first, WireAll(items[1..][..m]), x);
      }
    }
  }

  lemma JoinCut(buffer: Bytes, first: Bytes, middle: Bytes, x: Bytes)
    requires first <= buffer && buffer[|first|..] == middle + x
    ensures buffer == first + middle + x
  {
    assert buffer == first + buffer[|first|..];
  }

  lemma SmoothParts(h: Handler, items: seq<Item>, n: nat)
    requires n <= |items| && Smooth(h, items)
    ensures Smooth(h, items[..n]) && Smooth(h, items[n..])
    decreases n
  {
    if n == 0 {
      assert items[0..] == items;
    } else {
      SmoothParts(h, items, n - 1);
      SmoothTail(h, items[n - 1..]);
      assert items[n - 1..][1..] == items[n..];
      forall i | 0 <= i < n
        ensures var it := items[..n][i];
                && GoodItem(it) && (it.Frame? ==> Clean(Wire(it)))
                && (it.Request? && !h.parses(it.raw) && i + 1 < n ==> items[..n][i + 1].Request?)
      {
        assert items[..n][i] == items[i];
      }
    }
  }

  /** Smooth traffic, followed by anything at all if its last request ends the session. */
  ghost predicate Traffic(h: Handler, items: seq<Item>, junk: Bytes) {
    && Smooth(h, items)
    && (junk != [] ==> items != [] && Ends(h, items[|items| - 1]))
  }

  /** One read: the whole items in the buffer are taken and the begun one is kept. */
  lemma ProcessRead(h: Handler, items: seq<Item>, junk: Bytes, buffer: Bytes, unread: Bytes) returns (n: nat)
    requires Traffic(h, items, junk) && buffer + unread == WireAll(items) + junk
    ensures n <= |items|
    ensures var o := Process(h, buffer);
            if SomeEnds(h, items[..n]) then o.taken == Requests(h, items) && o.ended
            else
              && o.taken + Requests(h, items[n..]) == Requests(h, items) && !o.ended
              && o.buffer + unread == WireAll(items[n..]) + junk
              && Traffic(h, items[n..], junk)
              && (if n < |items| then ProperPrefix(o.buffer, Wire(items[n])) else o.buffer == [])
  {
    hide Process, Requests, WireAll, GoodItem, Wire, Clean, Ends, SomeEnds;
    var x;
    n, x := Cut(items, junk, buffer, unread);
    SmoothParts(h, items, n);
    RequestsSplit(h, items, n);
    TrafficTail(h, items, junk, n);
    if n < |items| {
      PartialItem(h, items[n], x);
      PartialAfterUnparsed(h, items, n, x);
    } else {
      AllWhole(h, items, junk, x, unread);
    }
    ProcessItems(h, items[..n], x);
  }

  lemma TrafficTail(h: Handler, items: seq<Item>, junk: Bytes, n: nat)
    requires n <= |items| && Traffic(h, items, junk)
    ensures n < |items| || junk == [] ==> Traffic(h, items[n..], junk)
  {
    SmoothParts(h, items, n);
  }

  lemma PartialAfterUnparsed(h: Handler, items: seq<Item>, n: nat, x: Bytes)
    requires n < |items| && Smooth(h, items) && ProperPrefix(x, Wire(items[n]))
    ensures GoodItem(items[n]) && (items[n].Frame? ==> Clean(Wire(items[n])))
    ensures n > 0 && items[n - 1].Request? && !h.parses(items[n - 1].raw) ==> x == [] || x[0] != DOLLAR
  {
    assert GoodItem(items[n]);
    if x != [] {
      WireStarts(items[n], []);
    }
  }

  /** All items are whole in the buffer: what follows them is junk after the end, or nothing. */
  lemma AllWhole(h: Handler, items: seq<Item>, junk: Bytes, x: Bytes, unread: Bytes)
    requires Traffic(h, items, junk) && x + unread == WireAll(items[|items|..]) + junk
    ensures items[..|items|] == items
    ensures SomeEnds(h, items) || (x == [] && unread == [] && junk == [] && Process(h, x) == Outcome([], [], false)
                                   && Requests(h, items[|items|..]) == [] && WireAll(items[|items|..]) == [])
    ensures items != [] && items[|items| - 1].Request? && !h.parses(items[|items| - 1].raw) ==> x == []
  {
    assert items[|items|..] == [] && items[..|items|] == items;
    if junk != [] {
      assert Ends(h, items[|items| - 1]);
    }
    FindsNone([], DELIMITER, 0);
  }

  /** However smooth traffic is cut into reads, the loop takes exactly the requests sent, in order,
      up to the one that ends the session, and otherwise leaves nothing behind. */
  lemma {:induction false} RunTakesRequests(h: Handler, buffer: Bytes, chunks: seq<Bytes>, items: seq<Item>, junk: Bytes)
    requires Traffic(h, items, junk) && buffer + Concat(chunks) == WireAll(items) + junk
    requires if items == [] then buffer == [] else ProperPrefix(buffer, Wire(items[0]))
    ensures var o := Run(h, buffer, chunks);
            o.taken == Requests(h, items) && (o.ended <==> SomeEnds(h, items)) && (!o.ended ==> o.buffer == [])
    decreases |chunks|
  {
    if chunks == [] {
      assert items == [];
    } else {
      var now, unread := buffer + chunks[0], Concat(chunks[1..]);
      assert now + unread == buffer + Concat(chunks);
      hide Process, Requests, WireAll, Wire, Traffic, Ends, Concat;
      var n := ProcessRead(h, items, junk, now, unread);
      if SomeEnds(h, items[..n]) {
        var i :| 0 <= i < n && Ends(h, items[..n][i]);
        assert Ends(h, items[i]);
      } else {
        RunTakesRequests(h, Process(h, now).buffer, chunks[1..], items[n..], junk);
        SomeEndsSplit(h, items, n);
      }
    }
  }

  lemma SomeEndsSplit(h: Handler, items: seq<Item>, n: nat)
    requires n <= |items|
    ensures SomeEnds(h, items) <==> SomeEnds(h, items[..n]) || SomeEnds(h, items[n..])
  {
    forall i | 0 <= i < |items| && Ends(h, items[i])
      ensures SomeEnds(h, items[..n]) || SomeEnds(h, items[n..])
    {
      assert if i < n then Ends(h, items[..n][i]) else Ends(h, items[n..][i - n]);
    }
    forall i | 0 <= i < n && Ends(h, items[..n][i]) ensures SomeEnds(h, items) { assert Ends(h, items[i]); }
    forall i | 0 <= i < |items| - n && Ends(h, items[n..][i]) ensures SomeEnds(h, items) { assert Ends(h, items[n + i]); }
  }

  /* ---- Exactly which traffic is safe ---- */

  /** How many items matter: up to the first that ends the session. */
  function LiveCount(h: Handler, items: seq<Item>): (n: nat)
    ensures n <= |items| && (n < |items| ==> n > 0 && Ends(h, items[n - 1]))
    ensures forall i :: 0 <= i < n - 1 ==> !Ends(h, items[i])
  {
    if items == [] then 0
    else if Ends(h, items[0]) then 1
    else LiveCount(h, items[1..]) + 1
  }

  ghost predicate AllGood(items: seq<Item>) {
    forall i :: 0 <= i < |items| ==> GoodItem(items[i])
  }

  /** No blank line anywhere. */
  ghost predicate Quiet(b: Bytes) {
    forall j :: 0 <= j ==> !MatchAt(b, DELIMITER, j)
  }

  /** Item i is a frame with a blank line that can be complete before the frame is. */
  ghost predicate UncleanFrame(h: Handler, items: seq<Item>, i: nat) {
    i < LiveCount(h, items) && items[i].Frame? && !Clean(Wire(items[i]))
  }

  /** Item i is a request that does not parse and a frame follows it. */
  ghost predicate Unstripped(h: Handler, items: seq<Item>, i: nat) {
    i + 1 < LiveCount(h, items) && items[i].Request? && !h.parses(items[i].raw) && items[i + 1].Frame?
  }

  /** After item i there is nothing but frames without a blank line. */
  ghost predicate QuietAfter(h: Handler, items: seq<Item>, i: nat) {
    forall k :: i < k < LiveCount(h, items) ==> items[k].Frame? && Quiet(Wire(items[k]))
  }

  ghost predicate Breaks(h: Handler, items: seq<Item>, i: nat) {
    UncleanFrame(h, items, i) || (Unstripped(h, items, i) && !QuietAfter(h, items, i))
  }

  ghost predicate TakenAsSent(h: Handler, items: seq<Item>) {
    forall chunks: seq<Bytes> :: Concat(chunks) == WireAll(items) ==> Run(h, [], chunks).taken == Requests(h, items)
  }

  /** Every way of cutting the stream gives the requests as sent if and only if, up to the end of the
      session, no frame carries a blank line that can be complete before the frame is, and a frame
      right after a request that does not parse is followed by frames only, all of them and itself
      without a blank line. */
  lemma TakenAsSentIff(h: Handler, items: seq<Item>)
    requires AllGood(items)
    ensures TakenAsSent(h, items) <==> forall i: nat :: !Breaks(h, items, i)
  {
    hide Breaks, LiveCount;
    if i: nat :| Breaks(h, items, i) {
      var j := FirstBreak(h, items, i);
      var chunks := BreakBreaks(h, items, j);
    } else {
      forall chunks: seq<Bytes> | Concat(chunks) == WireAll(items) ensures Run(h, [], chunks).taken == Requests(h, items) {
        NothingBreaks(h, items, chunks);
      }
    }
  }

  lemma {:induction false} FirstBreak(h: Handler, items: seq<Item>, i: nat) returns (j: nat)
    requires Breaks(h, items, i)
    ensures j <= i && Breaks(h, items, j) && forall k: nat :: k < j ==> !Breaks(h, items, k)
  {
    hide Breaks;
    if k: nat :| k < i && Breaks(h, items, k) {
      j := FirstBreak(h, items, k);
    } else {
      j := i;
    }
  }

  /** Before the first break there is no frame right after a request that does not parse. */
  lemma BeforeBreak(h: Handler, items: seq<Item>, j: nat)
    requires AllGood(items) && j <= LiveCount(h, items) && forall k: nat :: k < j ==> !Breaks(h, items, k)
    requires j == LiveCount(h, items) ==> forall k: nat :: !Unstripped(h, items, k)
    requires j < LiveCount(h, items) ==> Breaks(h, items, j) || items[j].Request?
    ensures Smooth(h, items[..j])
    ensures 0 < j < LiveCount(h, items) && items[j - 1].Request? && !h.parses(items[j - 1].raw) ==> items[j].Request?
  {
    hide LiveCount, Wire, GoodItem;
    forall k: nat | k < j ensures !Unstripped(h, items, k) {
      assert !Breaks(h, items, k);
    }
    var before := items[..j];
    forall i | 0 <= i < j
      ensures GoodItem(before[i]) && (before[i].Frame? ==> Clean(Wire(before[i])))
      ensures before[i].Request? && !h.parses(before[i].raw) && i + 1 < j ==> before[i + 1].Request?
    {
      assert !Breaks(h, items, i) && !Unstripped(h, items, i);
      assert GoodItem(items[i]);
    }
    if j > 0 {
      assert !Unstripped(h, items, j - 1);
    }
  }

  /* ---- What breaks ---- */

  lemma BreakBreaks(h: Handler, items: seq<Item>, j: nat) returns (chunks: seq<Bytes>)
    requires AllGood(items) && Breaks(h, items, j) && forall k: nat :: k < j ==> !Breaks(h, items, k)
    ensures Concat(chunks) == WireAll(items) && Run(h, [], chunks).taken != Requests(h, items)
  {
    hide LiveCount, Smooth, Wire;
    BeforeBreak(h, items, j);
    NoEndBefore(h, items, j);
    if UncleanFrame(h, items, j) {
      chunks := UncleanFrameBreaks(h, items, j);
    } else {
      chunks := [WireAll(items)];
      UnstrippedBreaks(h, items, j);
      OneRead(h, WireAll(items));
      ConcatOne(WireAll(items));
    }
  }

  lemma ConcatOne(a: Bytes)
    ensures Concat([a]) == a
  {
  }

  lemma NoEndBefore(h: Handler, items: seq<Item>, j: nat)
    requires j < LiveCount(h, items)
    ensures !SomeEnds(h, items[..j])
  {
    hide Ends;
    forall i | 0 <= i < j ensures !Ends(h, items[..j][i]) {
      assert items[..j][i] == items[i];
    }
  }

  /** No request starts like a frame. */
  lemma {:induction false} RequestsAreNoFrames(h: Handler, items: seq<Item>)
    requires AllGood(items)
    ensures forall k :: 0 <= k < |Requests(h, items)| ==> Requests(h, items)[k] != [] && Requests(h, items)[k][0] != DOLLAR
  {
    if items != [] {
      assert GoodItem(items[0]);
      RequestsAreNoFrames(h, items[1..]);
    }
  }

  /** Cutting the stream inside the frame, right after its blank line, makes the loop take the
      beginning of the frame for a request. */
  lemma UncleanFrameBreaks(h: Handler, items: seq<Item>, j: nat) returns (chunks: seq<Bytes>)
    requires AllGood(items) && UncleanFrame(h, items, j)
    requires Smooth(h, items[..j]) && !SomeEnds(h, items[..j])
    requires j > 0 && items[j - 1].Request? ==> h.parses(items[j - 1].raw)
    ensures Concat(chunks) == WireAll(items) && Run(h, [], chunks).taken != Requests(h, items)
  {
    hide Process, Requests, WireAll, Wire, Run, Concat, GoodItem, Smooth, SomeEnds;
    var f, before := Wire(items[j]), items[..j];
    var p := FirstMatch(f);
    var x, y := f[..p + 4], f[p + 4..] + WireAll(items[j + 1..]);
    chunks := [WireAll(before) + x, y];
    TwoReads(h, WireAll(before) + x, y);
    WireAllAt(items, j);
    assert f == x + f[p + 4..];
    assert WireAll(items) == WireAll(before) + x + y;
    ReadUpTo(h, items, j, x);
    RequestsAreNoFrames(h, items);
    var k, o := |Requests(h, before)|, Process(h, WireAll(before) + x);
  }

  lemma WireAllAt(items: seq<Item>, j: nat)
    requires j < |items|
    ensures WireAll(items) == WireAll(items[..j]) + (Wire(items[j]) + WireAll(items[j + 1..]))
  {
    WireAllSplit(items, j);
    assert items[j..][1..] == items[j + 1..];
  }

  lemma TwoReads(h: Handler, a: Bytes, b: Bytes)
    ensures Concat([a, b]) == a + b && Process(h, a).taken <= Run(h, [], [a, b]).taken
  {
    assert [] + a == a && [a, b][1..] == [b] && [b][1..] == [];
    assert Concat([b]) == b;
  }

  /** The items before the frame are taken as sent, and then its beginning. */
  lemma ReadUpTo(h: Handler, items: seq<Item>, j: nat, x: Bytes)
    requires AllGood(items) && j < |items| && items[j].Frame?
    requires Smooth(h, items[..j]) && !SomeEnds(h, items[..j])
    requires j > 0 && items[j - 1].Request? ==> h.parses(items[j - 1].raw)
    requires ProperPrefix(x, Wire(items[j])) && BlankLineAtEnd(x)
    ensures var k, o := |Requests(h, items[..j])|, Process(h, WireAll(items[..j]) + x);
            k < |o.taken| && o.taken[k] != [] && o.taken[k][0] == DOLLAR
  {
    hide Smooth, SomeEnds, Process, Requests, WireAll;
    assert GoodItem(items[j]);
    ProcessItems(h, items[..j], x);
    TakesFrameStart(h, items[j], x);
  }

  /** All in one read: the frame after the request is taken as the beginning of what follows. */
  lemma UnstrippedBreaks(h: Handler, items: seq<Item>, j: nat)
    requires AllGood(items) && Unstripped(h, items, j) && !QuietAfter(h, items, j)
    requires Smooth(h, items[..j]) && !SomeEnds(h, items[..j])
    ensures Process(h, WireAll(items)).taken != Requests(h, items)
  {
    hide Smooth, SomeEnds, Process, Requests, WireAll, LiveCount, TakeAll;
    var before, raw, rest := items[..j], items[j].raw, WireAll(items[j + 1..]);
    assert GoodItem(items[j]);
    WireAllAt(items, j);
    ProcessItems(h, before, raw + rest);
    ProcessUnparsed(h, raw, rest);
    RestTaken(h, items, j);
    RequestsAreNoFrames(h, items);
    var k, o := |Requests(h, before)|, Process(h, WireAll(items));
    assert o.taken[k + 1] == TakeAll(h, rest).taken[0];
  }

  lemma ProcessUnparsed(h: Handler, raw: Bytes, rest: Bytes)
    requires BlankLineAtEnd(raw) && raw[0] != DOLLAR && !h.parses(raw)
    ensures Process(h, raw + rest) == Also(raw, TakeAll(h, rest))
  {
    TakeRequest(raw, rest);
  }

  lemma RestTaken(h: Handler, items: seq<Item>, j: nat)
    requires AllGood(items) && Unstripped(h, items, j) && !QuietAfter(h, items, j)
    ensures var o := TakeAll(h, WireAll(items[j + 1..]));
            o.taken != [] && o.taken[0] != [] && o.taken[0][0] == DOLLAR
  {
    hide WireAll, LiveCount, Wire, GoodItem, TakeAll;
    var later := items[j + 1..];
    var k :| j < k < LiveCount(h, items) && !(items[k].Frame? && Quiet(Wire(items[k])));
    assert later[k - j - 1] == items[k] && GoodItem(items[k]);
    NotQuiet(items[k]);
    MatchInside(later, k - j - 1);
    assert GoodItem(items[j + 1]) && later[0] == items[j + 1];
    WireStarts(later[0], []);
    WireAllLonger(later);
    assert WireAll(later)[0] == (Wire(later[0]) + [])[0];
    TakesFirst(h, WireAll(later));
  }

  lemma NotQuiet(it: Item)
    requires GoodItem(it) && !(it.Frame? && Quiet(Wire(it)))
    ensures !Quiet(Wire(it))
  {
  }

  lemma MatchInside(items: seq<Item>, k: nat)
    requires k < |items| && !Quiet(Wire(items[k]))
    ensures !Quiet(WireAll(items))
  {
    hide Wire, WireAll;
    WireAllAt(items, k);
    var before, w := WireAll(items[..k]), Wire(items[k]);
    var j :| 0 <= j && MatchAt(w, DELIMITER, j);
    assert WireAll(items)[|before| + j..|before| + j + 4] == w[j..j + 4];
    assert MatchAt(WireAll(items), DELIMITER, |before| + j);
  }

  lemma TakesFirst(h: Handler, buffer: Bytes)
    requires !Quiet(buffer) && buffer != []
    ensures var o := TakeAll(h, buffer); o.taken != [] && o.taken[0] != [] && o.taken[0][0] == buffer[0]
  {
    FindSpec(buffer, DELIMITER, 0);
  }

  /* ---- What does not ---- */

  lemma NothingBreaks(h: Handler, items: seq<Item>, chunks: seq<Bytes>)
    requires AllGood(items) && (forall i: nat :: !Breaks(h, items, i)) && Concat(chunks) == WireAll(items)
    ensures Run(h, [], chunks).taken == Requests(h, items)
  {
    if i: nat :| Unstripped(h, items, i) {
      UnstrippedTakenAsSent(h, items, i, chunks);
    } else {
      SmoothTakenAsSent(h, items, chunks);
    }
  }

  lemma SmoothTakenAsSent(h: Handler, items: seq<Item>, chunks: seq<Bytes>)
    requires AllGood(items) && Concat(chunks) == WireAll(items)
    requires forall i: nat :: !Breaks(h, items, i) && !Unstripped(h, items, i)
    ensures Run(h, [], chunks).taken == Requests(h, items)
  {
    var n := LiveCount(h, items);
    var live, junk := items[..n], WireAll(items[n..]);
    WireAllSplit(items, n);
    RequestsSplit(h, items, n);
    LiveTraffic(h, items, n);
    hide Run, WireAll, Requests, Traffic, Concat;
    assert [] + Concat(chunks) == WireAll(live) + junk;
    RunTakesRequests(h, [], chunks, live, junk);
  }

  lemma LiveTraffic(h: Handler, items: seq<Item>, n: nat)
    requires AllGood(items) && n == LiveCount(h, items)
    requires forall i: nat :: !Breaks(h, items, i) && !Unstripped(h, items, i)
    ensures Traffic(h, items[..n], WireAll(items[n..]))
    ensures n < |items| ==> SomeEnds(h, items[..n])
    ensures n == |items| ==> items[..n] == items
    ensures items[..n] != [] ==> ProperPrefix([], Wire(items[..n][0]))
  {
    hide Clean, Breaks, Unstripped, Smooth;
    BeforeBreak(h, items, n);
    hide LiveCount;
    var live := items[..n];
    if n < |items| {
      assert Ends(h, live[n - 1]);
    }
    if live != [] {
      assert GoodItem(items[0]);
      WireStarts(live[0], []);
    }
  }

  /** The requests among the items that parse, up to the first that ends the session. */
  function SentParsed(h: Handler, items: seq<Item>): seq<Bytes> {
    if items == [] then []
    else match items[0]
      case Frame(_, _) => SentParsed(h, items[1..])
      case Request(raw) =>
        if !h.parses(raw) then SentParsed(h, items[1..])
        else if h.teardown(raw) then [raw]
        else [raw] + SentParsed(h, items[1..])
  }

  /** Of requests taken as sent, exactly those that parse are dispatched, in order. */
  lemma {:induction false} DispatchedAsSent(h: Handler, items: seq<Item>)
    ensures Dispatched(h, Requests(h, items)) == SentParsed(h, items)
  {
    if items != [] {
      DispatchedAsSent(h, items[1..]);
      if items[0].Request? {
        DispatchedOne(h, items[0].raw);
        hide Dispatched;
        DispatchedAppend(h, [items[0].raw], Requests(h, items[1..]));
      }
    }
  }

  lemma DispatchedOne(h: Handler, raw: Bytes)
    ensures Dispatched(h, [raw]) == if h.parses(raw) then [raw] else []
  {
    assert [raw][..0] == [];
  }

  /** The one frame that is not stripped starts a stretch in which there is nothing to take. */
  lemma UnstrippedTakenAsSent(h: Handler, items: seq<Item>, i: nat, chunks: seq<Bytes>)
    requires AllGood(items) && (forall k: nat :: !Breaks(h, items, k)) && Unstripped(h, items, i)
    requires Concat(chunks) == WireAll(items)
    ensures Run(h, [], chunks).taken == Requests(h, items)
  {
    hide LiveCount, WireAll, Wire, Requests, Run, Smooth, Concat, GoodItem, Clean;
    var before, later := items[..i + 1], items[i + 1..];
    assert !Breaks(h, items, i) && QuietAfter(h, items, i);
    assert LiveCount(h, items) == |items|;
    NoEndBefore(h, items, i + 1);
    SmoothUpTo(h, items, i);
    QuietFrames(h, later);
    WireAllSplit(items, i + 1);
    RequestsSplit(h, items, i + 1);
    assert GoodItem(items[0]) && before[0] == items[0];
    WireStarts(before[0], []);
    assert [] + Concat(chunks) == Concat(chunks);
    RunThenQuiet(h, [], chunks, before, WireAll(later));
  }

  lemma SmoothUpTo(h: Handler, items: seq<Item>, i: nat)
    requires AllGood(items) && (forall k: nat :: !Breaks(h, items, k)) && Unstripped(h, items, i)
    ensures Smooth(h, items[..i + 1])
  {
    hide LiveCount, Wire, GoodItem;
    BeforeBreak(h, items, i);
    var before := items[..i + 1];
    forall k | 0 <= k < i + 1
      ensures GoodItem(before[k]) && (before[k].Frame? ==> Clean(Wire(before[k])))
      ensures before[k].Request? && !h.parses(before[k].raw) && k + 1 < i + 1 ==> before[k + 1].Request?
    {
      assert GoodItem(items[k]);
      if k < i {
        assert items[..i][k] == items[k];
        assert k + 1 < i ==> items[..i][k + 1] == items[k + 1];
      }
    }
  }

  lemma {:induction false} QuietFrames(h: Handler, frames: seq<Item>)
    requires forall k :: 0 <= k < |frames| ==> frames[k].Frame? && GoodItem(frames[k]) && Quiet(Wire(frames[k]))
    ensures Quiet(WireAll(frames)) && Requests(h, frames) == []
    ensures WireAll(frames) != [] ==> WireAll(frames)[0] == DOLLAR
  {
    if frames != [] {
      hide Quiet, Wire;
      QuietFrames(h, frames[1..]);
      WireStarts(frames[0], WireAll(frames[1..]));
      QuietJoin(Wire(frames[0]), WireAll(frames[1..]));
    }
  }

  lemma MatchNoDollar(b: Bytes, j: nat)
    requires MatchAt(b, DELIMITER, j)
    ensures forall k :: j <= k < j + 4 ==> b[k] != DOLLAR
  {
    forall k | j <= k < j + 4 ensures b[k] != DOLLAR {
      assert b[k] == b[j..j + 4][k - j];
    }
  }

  /** No blank line reaches over the start of a frame. */
  lemma QuietJoin(a: Bytes, b: Bytes)
    requires Quiet(a) && Quiet(b) && (b != [] ==> b[0] == DOLLAR)
    ensures Quiet(a + b)
  {
    assert b != [] ==> (a + b)[|a|] == b[0];
    forall j: nat ensures !MatchAt(a + b, DELIMITER, j) {
      if MatchAt(a + b, DELIMITER, j) {
        if j + 4 <= |a| {
          assert (a + b)[j..j + 4] == a[j..j + 4];
          assert MatchAt(a, DELIMITER, j);
        } else if j >= |a| {
          assert (a + b)[j..j + 4] == b[j - |a|..j - |a| + 4];
          assert MatchAt(b, DELIMITER, j - |a|);
        } else {
          MatchNoDollar(a + b, j);
        }
      }
    }
  }

  /** Without a blank line there is nothing to take, whatever is stripped and however it is cut. */
  lemma {:induction false} RunQuiet(h: Handler, buffer: Bytes, chunks: seq<Bytes>)
    requires Quiet(buffer + Concat(chunks))
    ensures Run(h, buffer, chunks).taken == []
    decreases |chunks|
  {
    if chunks != [] {
      var now, unread := buffer + chunks[0], Concat(chunks[1..]);
      assert now + unread == buffer + Concat(chunks);
      hide Concat;
      StripIsSuffix(now);
      var left := StripAll(now);
      var n := |now| - |left|;
      assert (now + unread)[n..] == left + unread;
      QuietPart(now + unread, n, left + unread);
      QuietPrefix(left, unread);
      FindsNone(left, DELIMITER, 0);
      assert Process(h, now) == Outcome([], left, false);
      hide Process, StripAll;
      RunQuiet(h, left, chunks[1..]);
    }
  }

  lemma {:induction false} StripIsSuffix(buffer: Bytes)
    ensures |StripAll(buffer)| <= |buffer| && StripAll(buffer) == buffer[|buffer| - |StripAll(buffer)|..]
    decreases |buffer|
  {
    if FrameComplete(buffer) {
      StripIsSuffix(buffer[FrameLength(buffer)..]);
    }
  }

  lemma QuietPart(b: Bytes, n: nat, part: Bytes)
    requires Quiet(b) && n <= |b| && part == b[n..]
    ensures Quiet(part)
  {
    forall j: nat ensures !MatchAt(part, DELIMITER, j) {
      if MatchAt(part, DELIMITER, j) {
        assert b[n + j..n + j + 4] == part[j..j + 4];
        assert MatchAt(b, DELIMITER, n + j);
      }
    }
  }

  lemma QuietPrefix(a: Bytes, b: Bytes)
    requires Quiet(a + b)
    ensures Quiet(a)
  {
    forall j: nat ensures !MatchAt(a, DELIMITER, j) {
      if MatchAt(a, DELIMITER, j) {
        MatchInPrefix(a, a + b, j);
      }
    }
  }

  /** Smooth items up to a request that does not parse, and then a stretch without a blank line. */
  lemma {:induction false} RunThenQuiet(h: Handler, buffer: Bytes, chunks: seq<Bytes>, items: seq<Item>, rest: Bytes)
    requires Smooth(h, items) && !SomeEnds(h, items) && Quiet(rest)
    requires items != [] && items[|items| - 1].Request? && !h.parses(items[|items| - 1].raw)
    requires buffer + Concat(chunks) == WireAll(items) + rest && ProperPrefix(buffer, Wire(items[0]))
    ensures Run(h, buffer, chunks).taken == Requests(h, items)
    decreases |chunks|
  {
    hide WireAll, Wire, Smooth, SomeEnds, Quiet, Process, Requests;
    if chunks == [] {
      WireAllLonger(items);
    } else {
      var now, unread := buffer + chunks[0], Concat(chunks[1..]);
      assert now + unread == WireAll(items) + rest;
      hide Concat;
      if |now| <= |WireAll(items)| {
        SplitEarlier(now, unread, WireAll(items), rest);
        var missing := WireAll(items)[|now|..];
        assert now + missing == WireAll(items) + [];
        var n := ProcessRead(h, items, [], now, missing);
        SomeEndsSplit(h, items, n);
        SmoothParts(h, items, n);
        var left := Process(h, now).buffer;
        assert left + missing == WireAll(items[n..]) + [] && WireAll(items[n..]) + [] == WireAll(items[n..]);
        assert left + unread == (left + missing) + rest;
        if n < |items| {
          RunThenQuiet(h, left, chunks[1..], items[n..], rest);
        } else {
          NothingLeft(h, items, n);
          assert left + Concat(chunks[1..]) == rest;
          RunQuiet(h, left, chunks[1..]);
        }
      } else {
        SplitEarlier(WireAll(items), rest, now, unread);
        var y := now[|WireAll(items)|..];
        assert now == WireAll(items) + y;
        QuietPrefix(y, unread);
        ProcessToQuiet(h, items, y);
        RunQuiet(h, y, chunks[1..]);
      }
    }
  }

  lemma NothingLeft(h: Handler, items: seq<Item>, n: nat)
    requires n == |items|
    ensures WireAll(items[n..]) == [] && Requests(h, items[n..]) == []
  {
  }

  lemma WireAllLonger(items: seq<Item>)
    requires items != []
    ensures Wire(items[0]) <= WireAll(items)
  {
  }

  /** The request that does not parse is taken, and the bytes after it stay in the buffer. */
  lemma ProcessToQuiet(h: Handler, items: seq<Item>, y: Bytes)
    requires Smooth(h, items) && !SomeEnds(h, items) && Quiet(y)
    requires items != [] && items[|items| - 1].Request? && !h.parses(items[|items| - 1].raw)
    ensures Process(h, WireAll(items) + y) == Outcome(Requests(h, items), y, false)
  {
    hide WireAll, Requests, Smooth, SomeEnds, Process, Quiet, BlankLineAtEnd;
    LastRequest(h, items);
    LastWire(items, y);
    ProcessThenUnparsed(h, items[..|items| - 1], items[|items| - 1].raw, y);
  }

  lemma ProcessThenUnparsed(h: Handler, before: seq<Item>, raw: Bytes, y: Bytes)
    requires Smooth(h, before) && !SomeEnds(h, before) && Quiet(y)
    requires BlankLineAtEnd(raw) && raw[0] != DOLLAR && !h.parses(raw)
    ensures Process(h, WireAll(before) + (raw + y)) == Outcome(Requests(h, before) + [raw], y, false)
  {
    QuietStays(h, y);
    hide WireAll, Requests, Smooth, SomeEnds, Process, Quiet, TakeAll, BlankLineAtEnd;
    ProcessItems(h, before, raw + y);
    ProcessUnparsed(h, raw, y);
  }

  lemma QuietStays(h: Handler, y: Bytes)
    requires Quiet(y)
    ensures TakeAll(h, y) == Outcome([], y, false)
  {
    FindsNone(y, DELIMITER, 0);
  }

  lemma LastRequest(h: Handler, items: seq<Item>)
    requires Smooth(h, items) && !SomeEnds(h, items)
    requires items != [] && items[|items| - 1].Request? && !h.parses(items[|items| - 1].raw)
    ensures var before, raw := items[..|items| - 1], items[|items| - 1].raw;
            && BlankLineAtEnd(raw) && raw[0] != DOLLAR
            && Smooth(h, before) && !SomeEnds(h, before)
            && Requests(h, items) == Requests(h, before) + [raw]
  {
    var last := |items| - 1;
    assert GoodItem(items[last]);
    assert items[last..] == [items[last]];
    assert Requests(h, items[last..]) == [items[last].raw];
    hide Smooth, SomeEnds, BlankLineAtEnd, Requests;
    SmoothParts(h, items, last);
    SomeEndsSplit(h, items, last);
    RequestsSplit(h, items, last);
  }

  lemma LastWire(items: seq<Item>, y: Bytes)
    requires items != []
    ensures WireAll(items) + y == WireAll(items[..|items| - 1]) + (Wire(items[|items| - 1]) + y)
  {
    var last := |items| - 1;
    var before, w := WireAll(items[..last]), Wire(items[last]);
    assert WireAll(items[last + 1..]) == [];
    hide WireAll, Wire;
    WireAllAt(items, last);
    Regroup(before, w, y);
  }

  lemma Regroup(a: Bytes, b: Bytes, c: Bytes)
    ensures a + (b + []) + c == a + (b + c)
  {
  }

  lemma FirstMatch(f: Bytes) returns (p: nat)
    requires !Clean(f)
    ensures p < |f| - 4 && BlankLineAtEnd(f[..p + 4])
  {
    FindSpec(f, DELIMITER, 0);
    p := FindFrom(f, DELIMITER, 0).value;
    var g := f[..p + 4];
    forall j | 0 <= j < p ensures !MatchAt(g, DELIMITER, j) {
      if MatchAt(g, DELIMITER, j) { MatchInPrefix(g, f, j); }
    }
    assert g[p..p + 4] == f[p..p + 4];
  }

  /** A frame cut after a blank line: its beginning is taken off the buffer. */
  lemma TakesFrameStart(h: Handler, it: Item, x: Bytes)
    requires GoodItem(it) && it.Frame? && ProperPrefix(x, Wire(it)) && BlankLineAtEnd(x)
    ensures x[0] == DOLLAR && Process(h, x).taken != [] && Process(h, x).taken[0] == x
  {
    PartialFrameStays(it.channel, it.packet, x);
    TakeRequest(x, []);
    assert x + [] == x;
  }

  /** A request that does not parse, a frame, a request, all in one read: the frame is taken as the
      beginning of the next request. In three reads the same bytes are taken as sent. */
  lemma UnparsedRequestHidesFrame(h: Handler, bad: Bytes, channel: Byte, packet: Bytes, good: Bytes)
    requires BlankLineAtEnd(bad) && bad[0] != DOLLAR && !h.parses(bad)
    requires |packet| <= 0xFFFF && Clean(Interleaved(channel, packet))
    requires BlankLineAtEnd(good) && good[0] != DOLLAR
    ensures var frame := Interleaved(channel, packet);
            && Run(h, [], [bad + frame + good]).taken != [bad, good]
            && Run(h, [], [bad, frame, good]).taken == [bad, good]
  {
    var frame := Interleaved(channel, packet);
    InOneRead(h, bad, frame, good);
    OneRead(h, bad + frame + good);
    InThreeReads(h, bad, channel, packet, good);
    hide Run, Process;
    assert [bad, good][1] == good;
  }

  lemma OneRead(h: Handler, a: Bytes)
    ensures Run(h, [], [a]).taken == Process(h, a).taken
  {
    assert [] + a == a;
  }

  lemma InThreeReads(h: Handler, bad: Bytes, channel: Byte, packet: Bytes, good: Bytes)
    requires BlankLineAtEnd(bad) && bad[0] != DOLLAR && !h.parses(bad)
    requires |packet| <= 0xFFFF && BlankLineAtEnd(good) && good[0] != DOLLAR
    ensures Run(h, [], [bad, Interleaved(channel, packet), good]).taken == [bad, good]
  {
    var frame := Interleaved(channel, packet);
    PieceTaken(h, bad);
    PieceTaken(h, good);
    FrameAlone(h, channel, packet);
    hide Process, Interleaved, BlankLineAtEnd;
    var pieces := [bad, frame, good];
    assert [] + bad == bad && [] + frame == frame && [] + good == good;
    assert pieces[1..] == [frame, good] && pieces[1..][1..] == [good];
    assert Run(h, [], [good]).taken == [good];
    assert Run(h, [], [frame, good]).taken == [good];
  }

  lemma InOneRead(h: Handler, bad: Bytes, frame: Bytes, good: Bytes)
    requires BlankLineAtEnd(bad) && bad[0] != DOLLAR && !h.parses(bad)
    requires frame != [] && frame[0] == DOLLAR && BlankLineAtEnd(good) && good[0] != DOLLAR
    ensures var o := Process(h, bad + frame + good); |o.taken| > 1 && o.taken[1] != good
  {
    assert bad + frame + good == bad + (frame + good);
    TakeRequest(bad, frame + good);
    TakesSomething(h, frame + good, |frame| + |good| - 4, good);
  }

  lemma FrameAlone(h: Handler, channel: Byte, packet: Bytes)
    requires |packet| <= 0xFFFF
    ensures Process(h, Interleaved(channel, packet)) == Outcome([], [], false)
  {
    StripFrame(channel, packet, []);
    assert Interleaved(channel, packet) + [] == Interleaved(channel, packet);
    FindsNone([], DELIMITER, 0);
  }

  lemma PieceTaken(h: Handler, raw: Bytes)
    requires BlankLineAtEnd(raw) && raw[0] != DOLLAR
    ensures var o := Process(h, raw); o.taken == [raw] && o.buffer == [] && (o.ended ==> h.parses(raw))
  {
    TakeRequest(raw, []);
    assert raw + [] == raw;
    FindsNone([], DELIMITER, 0);
    assert TakeAll(h, []) == Outcome([], [], false);
  }

  lemma TakesSomething(h: Handler, buffer: Bytes, p: nat, good: Bytes)
    requires buffer != [] && buffer[0] == DOLLAR && BlankLineAtEnd(good)
    requires p + 4 == |buffer| && |good| <= |buffer| && buffer[|buffer| - |good|..] == good
    ensures var o := TakeAll(h, buffer); o.taken != [] && o.taken[0] != [] && o.taken[0][0] == DOLLAR
  {
    assert buffer[p..p + 4] == good[|good| - 4..];
    assert MatchAt(buffer, DELIMITER, p);
    FindSpec(buffer, DELIMITER, 0);
  }
}
