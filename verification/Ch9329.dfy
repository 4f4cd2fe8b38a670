/** The serial protocol of the CH9329 HID chip (src/hid/ch9329.rs): packets, their parser and the
    receive loop that finds responses in a noisy byte stream. */
module Ch9329 {
  import opened Prelude

  type Bytes = seq<Byte>

  const HEADER_0: Byte := 0x57
  const HEADER_1: Byte := 0xAB
  const MAX_DATA_LEN := 64
  const MAX_PACKET_SIZE := 70

  datatype Ch9329Error =
    Success | Timeout | InvalidHeader | InvalidCommand | ChecksumError | ParameterError | OperationFailed

  datatype Response =
    Response(address: Byte, cmd: Byte, data: Bytes, isError: bool, errorCode: Option<Ch9329Error>)

  function ErrorFrom(code: Byte): Ch9329Error {
    if code == 0 then Success
    else if code == 0xE1 then Timeout
    else if code == 0xE2 then InvalidHeader
    else if code == 0xE3 then InvalidCommand
    else if code == 0xE4 then ChecksumError
    else if code == 0xE5 then ParameterError
    else OperationFailed
  }

  /* ---- Packets ---- */

  /** The sum of all bytes, wrapping at 256. */
  function Checksum(data: Bytes): Byte {
    if data == [] then 0 else (Checksum(data[..|data| - 1]) + data[|data| - 1]) % 256
  }

  function Body(address: Byte, cmd: Byte, data: Bytes): Bytes
    requires |data| < 256
  {
    [HEADER_0, HEADER_1, address, cmd, |data|] + data
  }

  function Packet(address: Byte, cmd: Byte, data: Bytes): Bytes
    requires |data| < 256
  {
    Body(address, cmd, data) + [Checksum(Body(address, cmd, data))]
  }

  /** Fills a zeroed buffer with a packet; its length bounds are the debug assertion's. */
  method BuildPacketBuf(address: Byte, cmd: Byte, data: Bytes) returns (packet: array<Byte>, packetLen: nat)
    requires |data| <= MAX_DATA_LEN
    ensures fresh(packet) && packet.Length == MAX_PACKET_SIZE && packetLen == 6 + |data|
    ensures packet[..packetLen] == Packet(address, cmd, data)
    ensures packet[0] == 0x57 && packet[1] == 0xAB && packet[2] == address && packet[3] == cmd && packet[4] == |data|
    ensures packet[5..5 + |data|] == data
    ensures packet[5 + |data|] == (0x57 + 0xAB + address + cmd + |data| + Sum(data)) % 256
    ensures forall i :: packetLen <= i < MAX_PACKET_SIZE ==> packet[i] == 0
  {
    PacketLayout(address, cmd, data);
    hide Checksum, Sum;
    var len: Byte := |data|;
    packetLen := 6 + |data|;
    packet := new Byte[MAX_PACKET_SIZE](_ => 0);
    packet[0] := HEADER_0;
    packet[1] := HEADER_1;
    packet[2] := address;
    packet[3] := cmd;
    packet[4] := len;
    forall i | 0 <= i < |data| {
      packet[5 + i] := data[i];
    }
    assert packet[..5 + |data|] == Body(address, cmd, data);
    packet[5 + |data|] := Checksum(packet[..5 + |data|]);
    assert packet[..5 + |data|] == Body(address, cmd, data);
  }

  /** `Response::parse`. */
  function ParseResponse(bytes: Bytes): Option<Response> {
    if |bytes| < 6 || bytes[0] != HEADER_0 || bytes[1] != HEADER_1 then None
    else
      var len: nat := bytes[4];
      if |bytes| < 5 + len + 1 || bytes[5 + len] != Checksum(bytes[..5 + len]) then None
      else Some(ResponseOf(bytes[2], bytes[3], bytes[5..5 + len]))
  }

  function ResponseOf(address: Byte, cmd: Byte, data: Bytes): Response {
    var isError := cmd >= 0xC0;
    Response(address, cmd, data, isError, if isError && data != [] then Some(ErrorFrom(data[0])) else None)
  }

  /** The fields of a response to a packet: it is an error from command 0xC0 on, and then the first data
      byte, if any, is its code. */
  predicate Means(r: Response, address: Byte, cmd: Byte, data: Bytes) {
    && r.address == address && r.cmd == cmd && r.data == data
    && (r.isError <==> cmd >= 0xC0)
    && (r.errorCode == None <==> cmd < 0xC0 || data == [])
    && (r.errorCode.Some? ==> HasCode(r.errorCode.value, data[0]))
  }

  predicate HasCode(error: Ch9329Error, code: Byte) {
    match error
    case Success => code == 0x00
    case Timeout => code == 0xE1
    case InvalidHeader => code == 0xE2
    case InvalidCommand => code == 0xE3
    case ChecksumError => code == 0xE4
    case ParameterError => code == 0xE5
    case OperationFailed => code !in {0x00, 0xE1, 0xE2, 0xE3, 0xE4, 0xE5}
  }

  /** Parsing undoes building, whatever follows the packet. */
  lemma ParseUndoesBuild(address: Byte, cmd: Byte, data: Bytes, rest: Bytes)
    requires |data| < 256
    ensures var r := ParseResponse(Packet(address, cmd, data) + rest);
            r == Some(ResponseOf(address, cmd, data)) && Means(r.value, address, cmd, data)
  {
    var bytes := Packet(address, cmd, data) + rest;
    assert bytes[..5 + |data|] == Body(address, cmd, data);
    assert bytes[5..5 + |data|] == data;
  }

  /** The parser accepts nothing but built packets. */
  lemma ParsedIsPacket(bytes: Bytes)
    requires ParseResponse(bytes).Some?
    ensures var r := ParseResponse(bytes).value;
            && |r.data| < 256 && Packet(r.address, r.cmd, r.data) <= bytes
            && r == ResponseOf(r.address, r.cmd, r.data) && Means(r, r.address, r.cmd, r.data)
  {
    var len: nat := bytes[4];
    assert bytes[..5 + len] == Body(bytes[2], bytes[3], bytes[5..5 + len]);
    assert bytes[..6 + len] == bytes[..5 + len] + [bytes[5 + len]];
  }

  function Sum(data: Bytes): nat {
    if data == [] then 0 else data[0] + Sum(data[1..])
  }

  lemma SumSnoc(data: Bytes, b: Byte)
    ensures Sum(data + [b]) == Sum(data) + b
  {
    SumAppend(data, [b]);
    assert [b][1..] == [];
  }

  lemma {:induction false} ChecksumIsSum(data: Bytes)
    ensures Checksum(data) == Sum(data) % 256
    decreases |data|
  {
    if data != [] {
      var last := |data| - 1;
      ChecksumIsSum(data[..last]);
      SumSnoc(data[..last], data[last]);
      assert data == data[..last] + [data[last]];
      WrapAdd(Sum(data[..last]), data[last]);
    }
  }

  /** A packet on the wire, byte by byte; the last one is the sum of all others modulo 256. */
  lemma PacketLayout(address: Byte, cmd: Byte, data: Bytes)
    requires |data| < 256
    ensures var p := Packet(address, cmd, data);
            && |p| == |data| + 6 && p[0] == 0x57 && p[1] == 0xAB && p[2] == address && p[3] == cmd && p[4] == |data|
            && p[5..5 + |data|] == data
            && p[5 + |data|] == (0x57 + 0xAB + address + cmd + |data| + Sum(data)) % 256
  {
    ChecksumIsSum(Body(address, cmd, data));
    BodySum(address, cmd, data);
  }

  lemma BodySum(address: Byte, cmd: Byte, data: Bytes)
    requires |data| < 256
    ensures Sum(Body(address, cmd, data)) == 0x57 + 0xAB + address + cmd + |data| + Sum(data)
  {
    hide Sum;
    SumFive(HEADER_0, HEADER_1, address, cmd, |data|);
    SumAppend([HEADER_0, HEADER_1, address, cmd, |data|], data);
  }

  lemma SumFive(a: Byte, b: Byte, c: Byte, d: Byte, e: Byte)
    ensures Sum([a, b, c, d, e]) == a + b + c + d + e
  {
    assert Sum([a]) == a;
    hide Sum;
    SumSnoc([a], b);
    assert [a, b] == [a] + [b];
    SumSnoc([a, b], c);
    assert [a, b, c] == [a, b] + [c];
    SumSnoc([a, b, c], d);
    assert [a, b, c, d] == [a, b, c] + [d];
    SumSnoc([a, b, c, d], e);
    assert [a, b, c, d, e] == [a, b, c, d] + [e];
  }

  lemma {:induction false} SumAppend(a: Bytes, b: Bytes)
    ensures Sum(a + b) == Sum(a) + Sum(b)
  {
    if a == [] {
      assert a + b == b;
    } else {
      assert (a + b)[1..] == a[1..] + b;
      SumAppend(a[1..], b);
    }
  }

  /* ---- Checksum detection ---- */

  lemma {:induction false} ChecksumOfUpdate(s: Bytes, i: nat, v: Byte)
    requires i < |s|
    ensures Checksum(s[i := v]) == (Checksum(s) - s[i] + v) % 256
  {
    var last := |s| - 1;
    if i == last {
      assert s[i := v][..last] == s[..last];
      WrapAdd(Checksum(s[..last]) + s[last], v - s[last]);
    } else {
      assert s[i := v][..last] == s[..last][i := v];
      assert Checksum(s) == (Checksum(s[..last]) + s[last]) % 256;
      assert Checksum(s[i := v]) == (Checksum(s[..last][i := v]) + s[last]) % 256;
      hide Checksum;
      ChecksumOfUpdate(s[..last], i, v);
      WrapSwap(Checksum(s[..last]), v - s[i], s[last]);
    }
  }

  lemma WrapSwap(c: int, d: int, l: int)
    ensures ((c + d) % 256 + l) % 256 == ((c + l) % 256 + d) % 256
  {
    WrapAdd(c + d, l);
    WrapAdd(c + l, d);
  }

  lemma WrapAdd(a: int, b: int)
    ensures (a % 256 + b) % 256 == (a + b) % 256
  {
  }

  /** Any one byte of a packet changed, other than its length, and the parser refuses it. */
  lemma OneByteChangeDetected(address: Byte, cmd: Byte, data: Bytes, i: nat, v: Byte)
    requires |data| < 256
    requires i < |Packet(address, cmd, data)| && i != 4 && v != Packet(address, cmd, data)[i]
    ensures ParseResponse(Packet(address, cmd, data)[i := v]) == None
  {
    var body := Body(address, cmd, data);
    var changed := Packet(address, cmd, data)[i := v];
    assert changed[4] == |data|;
    if i < |body| {
      assert changed[..5 + |data|] == body[i := v];
      ChecksumOfUpdate(body, i, v);
      hide Checksum;
      OtherByteOtherSum(Checksum(body), body[i], v);
    } else {
      assert changed[..5 + |data|] == body;
      hide Checksum;
    }
  }

  lemma OtherByteOtherSum(sum: Byte, b: Byte, v: Byte)
    requires b != v
    ensures (sum - b + v) % 256 != sum
  {
  }

  /** A changed length byte is refused unless it is smaller and the byte it makes the checksum
      happens to be the sum. */
  lemma LengthChangeDetectedIff(address: Byte, cmd: Byte, data: Bytes, v: Byte)
    requires |data| < 256 && v != |data|
    ensures var changed := Packet(address, cmd, data)[4 := v];
            ParseResponse(changed).Some? <==>
              v < |data| && data[v] == (Checksum(Body(address, cmd, data[..v])))
  {
    var changed := Packet(address, cmd, data)[4 := v];
    if v < |data| {
      assert changed[..5 + v] == Body(address, cmd, data[..v]);
    }
  }

  lemma ChecksumSnoc(s: Bytes, b: Byte)
    ensures Checksum(s + [b]) == (Checksum(s) + b) % 256
  {
    assert (s + [b])[..|s|] == s;
  }

  /** That does happen: the checksum does not protect the length. */
  lemma LengthChangeCanPass()
    ensures ParseResponse(Packet(0, 0, [2])[4 := 0]).Some?
  {
    EmptyBodySum();
    hide Checksum, Body, Packet, ParseResponse;
    LengthChangeDetectedIff(0, 0, [2], 0);
    assert [2][..0] == [];
  }

  lemma EmptyBodySum()
    ensures Checksum(Body(0, 0, [])) == 2
  {
    var none: Bytes := [];
    assert Body(0, 0, []) == none + [HEADER_0] + [HEADER_1] + [0] + [0] + [0];
    assert Checksum(none) == 0;
    hide Checksum, Body;
    ChecksumSnoc(none, HEADER_0);
    ChecksumSnoc(none + [HEADER_0], HEADER_1);
    ChecksumSnoc(none + [HEADER_0] + [HEADER_1], 0);
    ChecksumSnoc(none + [HEADER_0] + [HEADER_1] + [0], 0);
    ChecksumSnoc(none + [HEADER_0] + [HEADER_1] + [0] + [0], 0);
  }

  /* ---- Extraction ---- */

  predicate HeaderAt(buffer: Bytes, i: nat)
    requires i + 6 <= |buffer|
  {
    buffer[i] == HEADER_0 && buffer[i + 1] == HEADER_1
  }

  /** The first response in the buffer from an offset on, and where the bytes after it start. */
  function ExtractFrom(buffer: Bytes, offset: nat): Option<(Response, nat)>
    decreases |buffer| - offset
  {
    if offset + 6 > |buffer| then None
    else if !HeaderAt(buffer, offset) then ExtractFrom(buffer, offset + 1)
    else
      var end := offset + 6 + buffer[offset + 4];
      if end > |buffer| then None
      else
        match ParseResponse(buffer[offset..end])
        case Some(r) => Some((r, end))
        case None => ExtractFrom(buffer, offset + 1)
  }

  method TryExtractResponse(buffer: Bytes) returns (r: Option<(Response, nat)>)
    ensures r == ExtractFrom(buffer, 0)
    ensures r.Some? ==> 0 < r.value.1 <= |buffer|
  {
    var offset := 0;
    while offset + 6 <= |buffer|
      invariant ExtractFrom(buffer, offset) == ExtractFrom(buffer, 0)
      decreases |buffer| - offset
    {
      if buffer[offset] != HEADER_0 || buffer[offset + 1] != HEADER_1 {
        offset := offset + 1;
        continue;
      }
      var len: nat := buffer[offset + 4];
      var frameLen := 6 + len;
      if offset + frameLen > |buffer| {
        return None;
      }
      var frame := buffer[offset..offset + frameLen];
      var parsed := ParseResponse(frame);
      if parsed.Some? {
        return Some((parsed.value, offset + frameLen));
      }
      offset := offset + 1;
    }
    return None;
  }

  lemma {:induction false} ExtractConsumes(buffer: Bytes, offset: nat)
    ensures ExtractFrom(buffer, offset).Some? ==> offset < ExtractFrom(buffer, offset).value.1 <= |buffer|
    decreases |buffer| - offset
  {
    if offset + 6 <= |buffer| {
      ExtractConsumes(buffer, offset + 1);
    }
  }

  /** A response once found stays the same, whatever arrives later. */
  lemma {:induction false} ExtractStable(buffer: Bytes, more: Bytes, offset: nat)
    requires ExtractFrom(buffer, offset).Some?
    ensures ExtractFrom(buffer + more, offset) == ExtractFrom(buffer, offset)
    decreases |buffer| - offset
  {
    if HeaderAt(buffer, offset) {
      var end := offset + 6 + buffer[offset + 4];
      assert (buffer + more)[offset..end] == buffer[offset..end];
    }
    if !HeaderAt(buffer, offset)
    || ParseResponse(buffer[offset..offset + 6 + buffer[offset + 4]]).None? {
      ExtractStable(buffer, more, offset + 1);
    }
  }

  /* ---- Noise and frames ---- */

  /** Line noise: bytes without the two header bytes in a row. */
  predicate Noise(s: Bytes) {
    forall i :: 0 <= i < |s| - 1 ==> !(s[i] == HEADER_0 && s[i + 1] == HEADER_1)
  }

  /** A packet on the line and the noise before it. */
  datatype Item = Item(noise: Bytes, address: Byte, cmd: Byte, data: Bytes)

  predicate Fits(it: Item) {
    |it.data| <= MAX_DATA_LEN
  }

  predicate GoodItem(it: Item) {
    Noise(it.noise) && Fits(it)
  }

  ghost predicate AllFit(items: seq<Item>) {
    forall i :: 0 <= i < |items| ==> Fits(items[i])
  }

  ghost predicate GoodItems(items: seq<Item>) {
    forall i :: 0 <= i < |items| ==> GoodItem(items[i])
  }

  function ItemBytes(it: Item): Bytes
    requires Fits(it)
  {
    it.noise + Packet(it.address, it.cmd, it.data)
  }

  function Stream(items: seq<Item>, tail: Bytes): Bytes
    requires AllFit(items)
  {
    if items == [] then tail else ItemBytes(items[0]) + Stream(items[1..], tail)
  }

  function Responses(items: seq<Item>): seq<Response> {
    if items == [] then []
    else [ResponseOf(items[0].address, items[0].cmd, items[0].data)] + Responses(items[1..])
  }

  /** No header starts at offsets below n: the scan passes over them. */
  lemma {:induction false} ScanSkips(buffer: Bytes, offset: nat, n: nat)
    requires offset <= n
    requires forall i :: offset <= i < n && i + 6 <= |buffer| ==> !HeaderAt(buffer, i)
    ensures ExtractFrom(buffer, offset) == ExtractFrom(buffer, n)
    decreases n - offset
  {
    if offset < n {
      ScanSkips(buffer, offset + 1, n);
    }
  }

  /** Noise in front of more bytes shows no header, unless the bytes start with the second one. */
  lemma NoiseHasNoHeader(noise: Bytes, rest: Bytes)
    requires Noise(noise) && (rest != [] ==> rest[0] != HEADER_1)
    ensures forall i :: 0 <= i < |noise| && i + 6 <= |noise + rest| ==> !HeaderAt(noise + rest, i)
  {
    forall i | 0 <= i < |noise| && i + 6 <= |noise + rest| ensures !HeaderAt(noise + rest, i) {
      if i < |noise| - 1 {
        assert !(noise[i] == HEADER_0 && noise[i + 1] == HEADER_1);
      }
    }
  }

  /** Noise and a complete packet: the packet's response, and nothing beyond is consumed. */
  lemma CompleteExtracts(it: Item, rest: Bytes)
    requires GoodItem(it)
    ensures var r := ResponseOf(it.address, it.cmd, it.data);
            ExtractFrom(ItemBytes(it) + rest, 0) == Some((r, |ItemBytes(it)|))
  {
    var n, packet := |it.noise|, Packet(it.address, it.cmd, it.data);
    var buffer := ItemBytes(it) + rest;
    assert buffer == it.noise + (packet + rest);
    NoiseHasNoHeader(it.noise, packet + rest);
    ScanSkips(buffer, 0, n);
    assert buffer[n..n + |packet|] == packet + [];
    ParseUndoesBuild(it.address, it.cmd, it.data, []);
  }

  /** Noise alone: nothing. */
  lemma NoiseWaits(part: Bytes)
    requires Noise(part)
    ensures ExtractFrom(part, 0) == None
  {
    assert part == part + [];
    NoiseHasNoHeader(part, []);
    ScanSkips(part, 0, |part|);
  }

  /** Noise and an incomplete packet: nothing yet. */
  lemma IncompleteWaits(it: Item, part: Bytes)
    requires GoodItem(it) && part <= ItemBytes(it) && part != ItemBytes(it)
    ensures ExtractFrom(part, 0) == None
  {
    var n := |it.noise|;
    if |part| <= n {
      assert part == it.noise[..|part|];
      NoiseWaits(part);
    } else {
      var begun := part[n..];
      assert part == it.noise + begun;
      assert begun[0] == HEADER_0;
      NoiseHasNoHeader(it.noise, begun);
      ScanSkips(part, 0, n);
    }
  }

  /* ---- Exactly which bytes may come before a packet ---- */

  /** The scan gets past offset i: there is no header, or all that it announces is there and is not a
      packet. */
  predicate Passes(buffer: Bytes, i: nat)
    requires i + 6 <= |buffer|
  {
    HeaderAt(buffer, i) ==>
      var end := i + 6 + buffer[i + 4];
      end <= |buffer| && ParseResponse(buffer[i..end]) == None
  }

  ghost predicate AllPass(buffer: Bytes, n: nat)
    requires n + 6 <= |buffer|
  {
    forall i :: 0 <= i < n ==> Passes(buffer, i)
  }

  lemma {:induction false} ScanPasses(buffer: Bytes, offset: nat, n: nat)
    requires offset <= n && n + 6 <= |buffer| && forall i :: offset <= i < n ==> Passes(buffer, i)
    ensures ExtractFrom(buffer, offset) == ExtractFrom(buffer, n)
    decreases n - offset
  {
    hide ParseResponse;
    if offset < n {
      assert Passes(buffer, offset);
      ScanPasses(buffer, offset + 1, n);
    }
  }

  /** Where the scan does not get past, it ends: with nothing or with a packet that starts there. */
  lemma {:induction false} ScanStops(buffer: Bytes, offset: nat, i: nat)
    requires offset <= i && i + 6 <= |buffer| && !Passes(buffer, i)
    ensures match ExtractFrom(buffer, offset) case Some((r, end)) => end <= i + 6 + |r.data| case None => true
    decreases i - offset
  {
    if !Passes(buffer, offset) {
      ParsedLength(buffer, offset);
    } else {
      hide ParseResponse;
      ScanStops(buffer, offset + 1, i);
    }
  }

  lemma ParsedLength(buffer: Bytes, i: nat)
    requires i + 6 <= |buffer| && !Passes(buffer, i)
    ensures match ExtractFrom(buffer, i) case Some((r, end)) => end == i + 6 + |r.data| case None => true
  {
  }

  /** A packet is the one found if and only if the scan gets past everything before it: each header
      pair there announces an end within the buffer, and what it encloses does not parse. */
  lemma PacketFoundIff(noise: Bytes, address: Byte, cmd: Byte, data: Bytes, rest: Bytes)
    requires |data| < 256
    ensures var packet := Packet(address, cmd, data);
            var buffer := noise + packet + rest;
            (ExtractFrom(buffer, 0) == Some((ResponseOf(address, cmd, data), |noise| + |packet|))
             <==> AllPass(buffer, |noise|))
  {
    var n, packet := |noise|, Packet(address, cmd, data);
    var buffer := noise + packet + rest;
    if AllPass(buffer, n) {
      ScanPasses(buffer, 0, n);
      assert buffer[n..n + |packet|] == packet + [];
      ParseUndoesBuild(address, cmd, data, []);
    } else {
      var i :| 0 <= i < n && !Passes(buffer, i);
      hide Passes, ExtractFrom;
      ScanStops(buffer, 0, i);
    }
  }

  /** A header pair that announces too much: the scan waits for bytes that never come, with a complete
      packet behind it. */
  lemma StrayHeaderStalls(address: Byte, cmd: Byte, data: Bytes)
    requires |data| <= MAX_DATA_LEN
    ensures ExtractFrom([HEADER_0, HEADER_1, 0, 0, 0xFF] + Packet(address, cmd, data), 0) == None
  {
    var buffer := [HEADER_0, HEADER_1, 0, 0, 0xFF] + Packet(address, cmd, data);
    assert buffer[0] == HEADER_0 && buffer[1] == HEADER_1 && buffer[4] == 0xFF;
  }

  /* ---- The receive loop ---- */

  /** All the responses in a buffer and the bytes they leave. */
  function ExtractAll(pending: Bytes): (seq<Response>, Bytes)
    decreases |pending|
  {
    match ExtractFrom(pending, 0)
    case None => ([], pending)
    case Some((r, consumed)) =>
      ExtractConsumes(pending, 0);
      var (rs, rest) := ExtractAll(pending[consumed..]);
      ([r] + rs, rest)
  }

  /** The overflow guard: too long a buffer is cut to one packet's worth. */
  function Overflow(pending: Bytes): Bytes {
    if |pending| > MAX_PACKET_SIZE * 4 then pending[|pending| - MAX_PACKET_SIZE..] else pending
  }

  /** A buffer over 280 bytes is cut to its last 70; a shorter one is left alone. */
  lemma OverflowCutsTo(pending: Bytes)
    ensures |pending| <= 280 ==> Overflow(pending) == pending
    ensures |pending| > 280 ==> |Overflow(pending)| == 70 && exists cut :: pending == cut + Overflow(pending)
  {
    if |pending| > 280 {
      assert pending == pending[..|pending| - 70] + Overflow(pending);
    }
  }

  /** Everything a sequence of reads brings out of the buffer. */
  function Receive(pending: Bytes, chunks: seq<Bytes>): seq<Response>
    decreases |chunks|
  {
    if chunks == [] then []
    else
      var (rs, rest) := ExtractAll(pending + chunks[0]);
      rs + Receive(Overflow(rest), chunks[1..])
  }

  function ExpectedResponseCmd(cmd: Byte, isError: bool): Byte {
    if isError then cmd % 64 + 0xC0 else if cmd < 0x80 then cmd + 0x80 else cmd
  }

  predicate Answers(cmd: Byte, r: Response) {
    r.cmd == ExpectedResponseCmd(cmd, false) || r.cmd == ExpectedResponseCmd(cmd, true)
  }

  function FirstAnswer(cmd: Byte, rs: seq<Response>): Option<Response> {
    if rs == [] then None else if Answers(cmd, rs[0]) then Some(rs[0]) else FirstAnswer(cmd, rs[1..])
  }

  lemma {:induction false} FirstAnswerAppend(cmd: Byte, a: seq<Response>, b: seq<Response>)
    ensures FirstAnswer(cmd, a + b) == if FirstAnswer(cmd, a).Some? then FirstAnswer(cmd, a) else FirstAnswer(cmd, b)
  {
    if a == [] {
      assert a + b == b;
    } else {
      assert (a + b)[1..] == a[1..] + b;
      FirstAnswerAppend(cmd, a[1..], b);
    }
  }

  /** A response to a command repeats its low seven bits with the top bit set or, for an error, its low
      six bits with the two top bits set. */
  predicate Replies(cmd: Byte, r: Response) {
    (r.cmd >= 128 && r.cmd % 128 == cmd % 128) || (r.cmd >= 192 && r.cmd % 64 == cmd % 64)
  }

  /** The first reply among some responses, if there is one. */
  ghost predicate FirstReply(cmd: Byte, rs: seq<Response>, r: Option<Response>) {
    match r
    case None => forall k :: 0 <= k < |rs| ==> !Replies(cmd, rs[k])
    case Some(reply) => exists k :: 0 <= k < |rs| && rs[k] == reply && Replies(cmd, rs[k])
                                    && forall i :: 0 <= i < k ==> !Replies(cmd, rs[i])
  }

  lemma {:induction false} FirstAnswerIsReply(cmd: Byte, rs: seq<Response>)
    ensures FirstReply(cmd, rs, FirstAnswer(cmd, rs))
  {
    if rs != [] {
      AnswersIsReplies(cmd, rs[0]);
      hide Answers, Replies;
      if !Answers(cmd, rs[0]) {
        FirstAnswerIsReply(cmd, rs[1..]);
        FirstReplyLater(cmd, rs, FirstAnswer(cmd, rs[1..]));
      } else {
        assert rs[0] == rs[0] && Replies(cmd, rs[0]);
      }
    }
  }

  lemma FirstReplyLater(cmd: Byte, rs: seq<Response>, r: Option<Response>)
    requires rs != [] && !Replies(cmd, rs[0]) && FirstReply(cmd, rs[1..], r)
    ensures FirstReply(cmd, rs, r)
  {
    hide Replies;
    var later := rs[1..];
    assert forall k :: 0 < k < |rs| ==> rs[k] == later[k - 1];
    if r.Some? {
      var k :| 0 <= k < |later| && later[k] == r.value && Replies(cmd, later[k])
               && forall i :: 0 <= i < k ==> !Replies(cmd, later[i]);
      assert rs[k + 1] == r.value && Replies(cmd, rs[k + 1]);
      forall i | 0 <= i < k + 1 ensures !Replies(cmd, rs[i]) {
        if i > 0 { assert !Replies(cmd, later[i - 1]); }
      }
    }
  }

  lemma AnswersIsReplies(cmd: Byte, r: Response)
    ensures Answers(cmd, r) <==> Replies(cmd, r)
  {
  }

  /** The inner loop of `xfer_packet`: responses off the buffer, up to the first that answers. */
  method ExtractUntilAnswer(cmd: Byte, pending: Bytes) returns (r: Option<Response>, left: Bytes)
    ensures r == FirstAnswer(cmd, ExtractAll(pending).0)
    ensures r == None ==> left == ExtractAll(pending).1
  {
    hide ExtractFrom;
    left := pending;
    while true
      invariant FirstAnswer(cmd, ExtractAll(left).0) == FirstAnswer(cmd, ExtractAll(pending).0)
      invariant ExtractAll(left).1 == ExtractAll(pending).1
      decreases |left|
    {
      var extracted := TryExtractResponse(left);
      if extracted.None? {
        return None, left;
      }
      var (response, consumed) := extracted.value;
      left := left[consumed..];
      if response.cmd == ExpectedResponseCmd(cmd, false) || response.cmd == ExpectedResponseCmd(cmd, true) {
        return Some(response), left;
      }
    }
  }

  /** The receive loop of `xfer_packet`, over the reads that arrive before its deadline. */
  method XferReceive(cmd: Byte, chunks: seq<Bytes>) returns (r: Option<Response>)
    ensures r == FirstAnswer(cmd, Receive([], chunks))
    ensures FirstReply(cmd, Receive([], chunks), r)
  {
    hide ExtractFrom, ExtractAll, FirstReply, FirstAnswer;
    FirstAnswerIsReply(cmd, Receive([], chunks));
    NoAnswer(cmd);
    var pending: Bytes := [];
    for i := 0 to |chunks|
      invariant FirstAnswer(cmd, Receive([], chunks)) == FirstAnswer(cmd, Receive(pending, chunks[i..]))
    {
      assert chunks[i..][1..] == chunks[i + 1..];
      pending := pending + chunks[i];
      ghost var (rs, rest) := ExtractAll(pending);
      FirstAnswerAppend(cmd, rs, Receive(Overflow(rest), chunks[i + 1..]));
      r, pending := ExtractUntilAnswer(cmd, pending);
      if r.Some? {
        return;
      }
      if |pending| > MAX_PACKET_SIZE * 4 {
        pending := pending[|pending| - MAX_PACKET_SIZE..];
      }
    }
    return None;
  }

  lemma NoAnswer(cmd: Byte)
    ensures FirstAnswer(cmd, []) == None
  {
  }

  /** What may wait in the buffer: less than the noise and packet that come next. */
  ghost predicate Waiting(pending: Bytes, items: seq<Item>)
    requires GoodItems(items)
  {
    items != [] ==> |pending| < |ItemBytes(items[0])|
  }

  /** After extraction, the buffer holds the beginning of the items not yet seen whole. */
  lemma {:induction false} ExtractAllItems(pending: Bytes, unread: Bytes, items: seq<Item>, tail: Bytes) returns (n: nat)
    requires GoodItems(items) && Noise(tail) && pending + unread == Stream(items, tail)
    ensures n <= |items|
    ensures ExtractAll(pending).0 == Responses(items[..n])
    ensures ExtractAll(pending).1 + unread == Stream(items[n..], tail)
    ensures Waiting(ExtractAll(pending).1, items[n..])
    decreases |items|
  {
    hide ItemBytes, ExtractFrom, ResponseOf;
    if items == [] {
      n := 0;
      assert pending == tail[..|pending|];
      NoiseWaits(pending);
    } else {
      var first := ItemBytes(items[0]);
      var later := Stream(items[1..], tail);
      assert pending + unread == first + later;
      if |pending| < |first| {
        n := 0;
        SplitEarlier(pending, unread, first, later);
        IncompleteWaits(items[0], pending);
      } else {
        var rest := pending[|first|..];
        SplitEarlier(first, later, pending, unread);
        assert pending == first + rest;
        CompleteExtracts(items[0], rest);
        var m := ExtractAllItems(rest, unread, items[1..], tail);
        n := m + 1;
        ResponsesSnocFront(items, n);
      }
    }
  }

  /** The overflow guard only ever cuts noise: the stream still to come is that of the same packets
      after less noise. */
  lemma OverflowCutsNoise(pending: Bytes, unread: Bytes, items: seq<Item>, tail: Bytes)
      returns (items': seq<Item>, tail': Bytes)
    requires GoodItems(items) && Noise(tail) && pending + unread == Stream(items, tail) && Waiting(pending, items)
    ensures GoodItems(items') && Noise(tail') && Overflow(pending) + unread == Stream(items', tail')
    ensures Waiting(Overflow(pending), items') && Responses(items') == Responses(items)
  {
    items', tail' := items, tail;
    if |pending| > MAX_PACKET_SIZE * 4 {
      var cut := |pending| - MAX_PACKET_SIZE;
      assert Overflow(pending) + unread == (pending + unread)[cut..];
      if items == [] {
        tail' := tail[cut..];
      } else {
        var it := items[0];
        assert cut < |it.noise|;
        var it' := it.(noise := it.noise[cut..]);
        items' := [it'] + items[1..];
        assert ItemBytes(it') == ItemBytes(it)[cut..];
        assert items'[1..] == items[1..];
      }
    }
  }

  /** Over packets in noise, however the bytes are cut into reads, the receive loop sees exactly the
      packets' responses, in order. */
  lemma {:induction false} ReceiveFindsPackets(pending: Bytes, chunks: seq<Bytes>, items: seq<Item>, tail: Bytes)
    requires GoodItems(items) && Noise(tail) && Waiting(pending, items)
    requires pending + Concat(chunks) == Stream(items, tail)
    ensures Receive(pending, chunks) == Responses(items)
    decreases |chunks|
  {
    if chunks != [] {
      var now := pending + chunks[0];
      assert now + Concat(chunks[1..]) == pending + Concat(chunks);
      var n := ExtractAllItems(now, Concat(chunks[1..]), items, tail);
      var rest := ExtractAll(now).1;
      var items', tail' := OverflowCutsNoise(rest, Concat(chunks[1..]), items[n..], tail);
      ReceiveFindsPackets(Overflow(rest), chunks[1..], items', tail');
      ResponsesSplit(items, n);
    }
  }

  lemma ResponsesSnocFront(items: seq<Item>, n: nat)
    requires 0 < n <= |items|
    ensures items[n..] == items[1..][n - 1..]
    ensures Responses(items[..n]) ==
            [ResponseOf(items[0].address, items[0].cmd, items[0].data)] + Responses(items[1..][..n - 1])
  {
    assert items[..n][1..] == items[1..][..n - 1];
  }

  lemma {:induction false} ResponsesSplit(items: seq<Item>, n: nat)
    requires n <= |items|
    ensures Responses(items) == Responses(items[..n]) + Responses(items[n..])
  {
    if n == 0 {
      assert items[0..] == items;
    } else {
      hide ResponseOf;
      ResponsesSplit(items[1..], n - 1);
      ResponsesSnocFront(items, n);
    }
  }

  /* ---- Any bytes between packets, as long as nothing is cut ---- */

  /** Extraction in two pieces is extraction of the whole, for every stream. */
  lemma {:induction false} ExtractAllSplits(a: Bytes, b: Bytes)
    ensures var (rs, rest) := ExtractAll(a);
            ExtractAll(a + b) == (rs + ExtractAll(rest + b).0, ExtractAll(rest + b).1)
    decreases |a|
  {
    hide ExtractFrom;
    if ExtractFrom(a, 0).Some? {
      var (r, consumed) := ExtractFrom(a, 0).value;
      ExtractConsumes(a, 0);
      ExtractStable(a, b, 0);
      assert (a + b)[consumed..] == a[consumed..] + b;
      ExtractAllSplits(a[consumed..], b);
      var (later, rest) := ExtractAll(a[consumed..]);
      assert [r] + (later + ExtractAll(rest + b).0) == [r] + later + ExtractAll(rest + b).0;
    } else {
      assert [] + ExtractAll(a + b).0 == ExtractAll(a + b).0;
    }
  }

  lemma {:induction false} ExtractAllDone(a: Bytes)
    ensures ExtractFrom(ExtractAll(a).1, 0) == None
    decreases |a|
  {
    hide ExtractFrom;
    if ExtractFrom(a, 0).Some? {
      ExtractConsumes(a, 0);
      ExtractAllDone(a[ExtractFrom(a, 0).value.1..]);
    }
  }

  /** The overflow guard never acts. */
  ghost predicate NeverCut(pending: Bytes, chunks: seq<Bytes>)
    decreases |chunks|
  {
    chunks == [] ||
    var rest := ExtractAll(pending + chunks[0]).1;
    Overflow(rest) == rest && NeverCut(rest, chunks[1..])
  }

  /** Unless a read overflows the buffer, the responses are those of the whole stream, whatever it
      holds and however it is cut. */
  lemma {:induction false} UncutIsWhole(pending: Bytes, chunks: seq<Bytes>)
    requires ExtractFrom(pending, 0) == None && NeverCut(pending, chunks)
    ensures Receive(pending, chunks) == ExtractAll(pending + Concat(chunks)).0
    decreases |chunks|
  {
    hide ExtractFrom, Overflow;
    if chunks == [] {
      assert pending + Concat(chunks) == pending;
    } else {
      var now, unread := pending + chunks[0], Concat(chunks[1..]);
      assert pending + Concat(chunks) == now + unread;
      ExtractAllDone(now);
      ExtractAllSplits(now, unread);
      UncutIsWhole(ExtractAll(now).1, chunks[1..]);
    }
  }

  lemma {:induction false} ExtractAllShortens(a: Bytes)
    ensures |ExtractAll(a).1| <= |a|
    decreases |a|
  {
    hide ExtractFrom;
    if ExtractFrom(a, 0).Some? {
      ExtractConsumes(a, 0);
      ExtractAllShortens(a[ExtractFrom(a, 0).value.1..]);
    }
  }

  /** A stream of at most four packets' length is never cut. */
  lemma {:induction false} ShortNeverCut(pending: Bytes, chunks: seq<Bytes>)
    requires |pending + Concat(chunks)| <= MAX_PACKET_SIZE * 4
    ensures NeverCut(pending, chunks)
    decreases |chunks|
  {
    if chunks != [] {
      ExtractAllShortens(pending + chunks[0]);
      ShortNeverCut(ExtractAll(pending + chunks[0]).1, chunks[1..]);
    }
  }

  /** Before each packet there are only bytes that the scan gets past, given all that follows. */
  ghost predicate Passable(items: seq<Item>, tail: Bytes)
    requires AllFit(items)
    decreases |items|
  {
    items == [] || (AllPass(ItemBytes(items[0]) + Stream(items[1..], tail), |items[0].noise|) && Passable(items[1..], tail))
  }

  lemma {:induction false} PassableExtracts(items: seq<Item>, tail: Bytes)
    requires AllFit(items) && Passable(items, tail) && ExtractFrom(tail, 0) == None
    ensures ExtractAll(Stream(items, tail)) == (Responses(items), tail)
    decreases |items|
  {
    if items != [] {
      var it, later := items[0], Stream(items[1..], tail);
      assert AllFit(items[1..]);
      PacketFoundIff(it.noise, it.address, it.cmd, it.data, later);
      hide ExtractFrom, AllPass, Packet, ResponseOf;
      PassableExtracts(items[1..], tail);
      assert Stream(items, tail)[|ItemBytes(it)|..] == later;
    }
  }

  /** Over packets with any such bytes between them the receive loop sees exactly their responses, for
      every chunking that does not overflow the buffer. */
  lemma PassableReceived(chunks: seq<Bytes>, items: seq<Item>, tail: Bytes)
    requires AllFit(items) && Passable(items, tail) && ExtractFrom(tail, 0) == None
    requires Concat(chunks) == Stream(items, tail) && NeverCut([], chunks)
    ensures Receive([], chunks) == Responses(items)
  {
    assert ExtractFrom([], 0) == None;
    hide ExtractFrom, Passable;
    assert [] + Concat(chunks) == Concat(chunks);
    UncutIsWhole([], chunks);
    PassableExtracts(items, tail);
  }
}
