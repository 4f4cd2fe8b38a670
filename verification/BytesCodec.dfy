/** The length-prefixed framing of the RustDesk TCP stream (src/rustdesk/bytes_codec.rs). */
module BytesCodec {
  import opened Prelude

  const MAX_PACKET_LENGTH := 0x3FFF_FFFF

  datatype Error = MessageTooLarge | UnexpectedEof

  type Bytes = seq<Byte>

  /** A growable byte buffer that codecs read from the front of and append to. */
  class BytesMut {
    var data: Bytes

    constructor (initial: Bytes)
      ensures data == initial
    {
      data := initial;
    }
  }

  /* ---- The wire format ---- */

  /** How many header bytes a length takes: the least h whose 8 * h - 2 bits hold it. */
  function HeaderLength(len: nat): nat {
    if len < 64 then 1 else if len < 64 * 256 then 2 else if len < 64 * 65536 then 3 else 4
  }

  /** One message on the wire: its length and its header's length in one number, then the message. */
  function Frame(msg: Bytes): Bytes
    requires |msg| <= MAX_PACKET_LENGTH
  {
    Header(|msg|) + msg
  }

  function Header(len: nat): Bytes {
    var h := HeaderLength(len);
    LittleEndian(4 * len + (h - 1), h)
  }

  ghost predicate Encodable(msgs: seq<Bytes>) {
    forall i :: 0 <= i < |msgs| ==> |msgs[i]| <= MAX_PACKET_LENGTH
  }

  function EncodeAll(msgs: seq<Bytes>): Bytes
    requires Encodable(msgs)
  {
    if msgs == [] then [] else Frame(msgs[0]) + EncodeAll(msgs[1..])
  }

  /** Four bytes of a little-endian number, written out. */
  lemma LittleEndianBytes(n: nat)
    ensures LittleEndian(n, 1) == [n % 256]
    ensures LittleEndian(n, 2) == [n % 256, n / 256 % 256]
    ensures LittleEndian(n, 3) == [n % 256, n / 256 % 256, n / 65536 % 256]
    ensures LittleEndian(n, 4) == [n % 256, n / 256 % 256, n / 65536 % 256, n / 16777216 % 256]
  {
    var a, b, c := n / 256, n / 65536, n / 16777216;
    assert a / 256 == b && b / 256 == c;
    assert forall x: nat :: LittleEndian(x, 1) == [x % 256] + LittleEndian(x / 256, 0);
    assert LittleEndian(n, 2) == [n % 256] + LittleEndian(a, 1) && LittleEndian(a, 2) == [a % 256] + LittleEndian(b, 1);
    assert LittleEndian(b, 2) == [b % 256] + LittleEndian(c, 1);
    assert LittleEndian(n, 3) == [n % 256] + LittleEndian(a, 2) && LittleEndian(a, 3) == [a % 256] + LittleEndian(b, 2);
    assert LittleEndian(n, 4) == [n % 256] + LittleEndian(a, 3);
  }

  lemma LowBytes(n: nat)
    ensures LittleEndian(n, 3) == LittleEndian(n % 65536, 2) + [n / 65536 % 256]
  {
    LowDigits(n);
    LittleEndianBytes(n);
    LittleEndianBytes(n % 65536);
    hide LittleEndian;
  }

  lemma LowDigits(n: nat)
    ensures n % 65536 % 256 == n % 256 && n % 65536 / 256 % 256 == n / 256 % 256
  {
    var q, r := n / 65536, n % 65536;
    assert n / 256 == 256 * q + r / 256;
  }

  /** The header of each length class, as the encoders write it. */
  lemma HeaderForms(len: nat)
    ensures len <= 0x3F ==> Header(len) == [4 * len % 256]
    ensures 0x3F < len <= 0x3FFF ==> Header(len) == LittleEndian(4 * len % 0x1_0000 + 1, 2)
    ensures 0x3FFF < len <= 0x3F_FFFF ==> Header(len) == LittleEndian(4 * len + 2, 3)
    ensures 0x3F_FFFF < len <= MAX_PACKET_LENGTH ==> Header(len) == LittleEndian(4 * len % 0x1_0000_0000 + 3, 4)
  {
    hide LittleEndian;
    if len <= 0x3F {
      LittleEndianBytes(4 * len);
    } else if len <= 0x3FFF {
      CastFits(4 * len, 0x1_0000);
    } else if len <= MAX_PACKET_LENGTH {
      CastFits(4 * len, 0x1_0000_0000);
    }
  }

  /** A frame on the wire: four times the length plus the number of further header bytes, least
      significant byte first, in the fewest bytes that hold it, and then the message. */
  lemma FrameLayout(msg: Bytes)
    requires |msg| <= 0x3FFF_FFFF
    ensures var n := |msg|;
            Frame(msg) == (
              if n < 0x40 then [4 * n]
              else if n < 0x4000 then [(4 * n + 1) % 256, (4 * n + 1) / 256]
              else if n < 0x40_0000 then [(4 * n + 2) % 256, (4 * n + 2) / 256 % 256, (4 * n + 2) / 0x1_0000]
              else [(4 * n + 3) % 256, (4 * n + 3) / 256 % 256, (4 * n + 3) / 0x1_0000 % 256, (4 * n + 3) / 0x100_0000]) + msg
  {
    var n := |msg|;
    hide LittleEndian;
    if n < 0x40 {
      LittleEndianBytes(4 * n);
    } else if n < 0x4000 {
      LittleEndianBytes(4 * n + 1);
      CastFits((4 * n + 1) / 256, 256);
    } else if n < 0x40_0000 {
      LittleEndianBytes(4 * n + 2);
      CastFits((4 * n + 2) / 0x1_0000, 256);
    } else {
      LittleEndianBytes(4 * n + 3);
      CastFits((4 * n + 3) / 0x100_0000, 256);
    }
  }

  lemma CastFits(x: nat, m: nat)
    requires x < m
    ensures x % m == x
  {
  }

  lemma ThreeBytes(h: nat)
    ensures LittleEndian(h, 3) == [h % 256] + [h / 256 % 256] + [h / 65536 % 256]
    ensures LittleEndian(h, 3) == LittleEndian(h % 0x1_0000, 2) + [h / 65536 % 256]
  {
    LittleEndianBytes(h);
    LowBytes(h);
    hide LittleEndian;
  }

  /* ---- The three encoders ---- */

  method EncodeFrame(msg: Bytes) returns (r: Result<Bytes, Error>)
    ensures |msg| <= MAX_PACKET_LENGTH ==> r == Ok(Frame(msg))
    ensures |msg| > MAX_PACKET_LENGTH ==> r == Err(MessageTooLarge)
  {
    var len := |msg|;
    HeaderForms(len);
    ThreeBytes(4 * len + 2);
    var buf: Bytes := [];
    if len <= 0x3F {
      buf := buf + [4 * len % 256];
    } else if len <= 0x3FFF {
      var h := 4 * len % 0x1_0000 + 1;
      buf := buf + LittleEndian(h, 2);
    } else if len <= 0x3F_FFFF {
      var h := 4 * len + 2;
      buf := buf + [h % 256];
      buf := buf + [h / 256 % 256];
      buf := buf + [h / 65536 % 256];
    } else if len <= MAX_PACKET_LENGTH {
      buf := buf + LittleEndian(4 * len % 0x1_0000_0000 + 3, 4);
    } else {
      return Err(MessageTooLarge);
    }
    assert buf == Header(len);
    r := Ok(buf + msg);
  }

  method EncodeFrameInto(msg: Bytes, buf: BytesMut) returns (r: Result<(), Error>)
    modifies buf
    ensures |msg| <= MAX_PACKET_LENGTH ==> r == Ok(()) && buf.data == old(buf.data) + Frame(msg)
    ensures |msg| > MAX_PACKET_LENGTH ==> r == Err(MessageTooLarge) && buf.data == old(buf.data)
  {
    var len := |msg|;
    HeaderForms(len);
    ThreeBytes(4 * len + 2);
    if len <= 0x3F {
      buf.data := buf.data + [4 * len % 256];
    } else if len <= 0x3FFF {
      buf.data := buf.data + LittleEndian(4 * len % 0x1_0000 + 1, 2);
    } else if len <= 0x3F_FFFF {
      var h := 4 * len + 2;
      buf.data := buf.data + [h % 256];
      buf.data := buf.data + [h / 256 % 256];
      buf.data := buf.data + [h / 65536 % 256];
    } else if len <= MAX_PACKET_LENGTH {
      buf.data := buf.data + LittleEndian(4 * len % 0x1_0000_0000 + 3, 4);
    } else {
      return Err(MessageTooLarge);
    }
    buf.data := buf.data + msg;
    assert buf.data == old(buf.data) + (Header(len) + msg);
    r := Ok(());
  }

  /* ---- Decoding ---- */

  datatype DecodeState = Head | Data(n: nat)

  /** What a header's first byte says about its length. */
  function HeadLength(first: Byte): nat {
    first % 4 + 1
  }

  function HeadValue(src: Bytes): nat
    requires src != [] && |src| >= HeadLength(src[0])
  {
    FromLittleEndian(src[..HeadLength(src[0])]) / 4
  }

  function HeadNumber(b0: nat, b1: nat, b2: nat, b3: nat): nat {
    b0 + 256 * b1 + 65536 * b2 + 16777216 * b3
  }

  /** `decode_header`: header bytes that are missing count as zero. */
  function DecodeHeader(first: Byte, rest: Bytes): (nat, nat) {
    var headLen := HeadLength(first);
    var n := HeadNumber(first,
                        if headLen > 1 && rest != [] then rest[0] else 0,
                        if headLen > 2 && |rest| >= 2 then rest[1] else 0,
                        if headLen > 3 && |rest| >= 3 then rest[2] else 0);
    (headLen, n / 4)
  }

  lemma HeaderReadersAgree(src: Bytes, rest: Bytes)
    requires src != [] && |src| >= HeadLength(src[0])
    requires |rest| >= HeadLength(src[0]) - 1 && rest[..HeadLength(src[0]) - 1] == src[1..HeadLength(src[0])]
    ensures DecodeHeader(src[0], rest) == (HeadLength(src[0]), HeadValue(src))
  {
    HeadBytes(src);
    var h := HeadLength(src[0]);
    forall i | 0 <= i < h - 1 ensures rest[i] == src[i + 1] {
      assert rest[..h - 1][i] == src[1..h][i];
    }
  }

  lemma HeadBytes(src: Bytes)
    requires src != [] && |src| >= HeadLength(src[0])
    ensures var h := HeadLength(src[0]);
            HeadValue(src) == HeadNumber(src[0], if h > 1 then src[1] else 0, if h > 2 then src[2] else 0,
                                         if h > 3 then src[3] else 0) / 4
  {
    var h := HeadLength(src[0]);
    SliceValue(src, 0, h);
    SliceValue(src, 1, h);
    if h > 1 { SliceValue(src, 2, h); }
    if h > 2 { SliceValue(src, 3, h); }
    if h > 3 { SliceValue(src, 4, h); }
  }

  lemma SliceValue(src: Bytes, i: nat, h: nat)
    requires i <= h <= |src|
    ensures FromLittleEndian(src[i..h]) == if i == h then 0 else src[i] + 256 * FromLittleEndian(src[i + 1..h])
  {
    if i < h {
      assert src[i..h][1..] == src[i + 1..h];
    }
  }

  /** One call of `decode`: its result, the state and the bytes it leaves. */
  datatype Step = Step(result: Result<Option<Bytes>, Error>, state: DecodeState, rest: Bytes)

  function DecodeHead(max: nat, src: Bytes): Result<Option<nat>, Error> {
    if src == [] || |src| < HeadLength(src[0]) then Ok(None)
    else if HeadValue(src) > max then Err(MessageTooLarge)
    else Ok(Some(HeadValue(src)))
  }

  function DecodeData(n: nat, src: Bytes): Step {
    if |src| < n then Step(Ok(None), Data(n), src) else Step(Ok(Some(src[..n])), Head, src[n..])
  }

  function DecodeStep(max: nat, state: DecodeState, src: Bytes): Step {
    match state
    case Data(n) => DecodeData(n, src)
    case Head =>
      match DecodeHead(max, src)
      case Err(e) => Step(Err(e), Head, src)
      case Ok(None) => Step(Ok(None), Head, src)
      case Ok(Some(n)) => DecodeData(n, src[HeadLength(src[0])..])
  }

  class BytesCodec {
    var state: DecodeState
    var maxPacketLength: nat

    constructor ()
      ensures state == Head && maxPacketLength == MAX_PACKET_LENGTH
    {
      state, maxPacketLength := Head, MAX_PACKET_LENGTH;
    }

    method SetMaxPacketLength(n: nat)
      modifies this
      ensures maxPacketLength == n && state == old(state)
    {
      maxPacketLength := n;
    }

    method Decode(src: BytesMut) returns (r: Result<Option<Bytes>, Error>)
      modifies this, src
      ensures maxPacketLength == old(maxPacketLength)
      ensures Step(r, state, src.data) == DecodeStep(maxPacketLength, old(state), old(src.data))
    {
      var n: nat;
      if state.Data? {
        n := state.n;
      } else {
        var head := ReadHead(src);
        match head {
          case Err(e) => return Err(e);
          case Ok(None) => return Ok(None);
          case Ok(Some(len)) => state := Data(len); n := len;
        }
      }
      if |src.data| < n {
        return Ok(None);
      }
      r := Ok(Some(src.data[..n]));
      src.data := src.data[n..];
      state := Head;
    }

    /** `decode_head`: the header is consumed exactly when its length is returned. */
    method ReadHead(src: BytesMut) returns (r: Result<Option<nat>, Error>)
      modifies src
      ensures r == DecodeHead(maxPacketLength, old(src.data))
      ensures src.data == match r case Ok(Some(n)) => old(src.data)[HeadLength(old(src.data)[0])..] case _ => old(src.data)
    {
      if src.data == [] {
        return Ok(None);
      }
      var headLen := HeadLength(src.data[0]);
      if |src.data| < headLen {
        return Ok(None);
      }
      HeadBytes(src.data);
      var n: nat := src.data[0];
      if headLen > 1 { n := HeadNumber(n, src.data[1], 0, 0); }
      if headLen > 2 { n := HeadNumber(n, 0, src.data[2], 0); }
      if headLen > 3 { n := HeadNumber(n, 0, 0, src.data[3]); }
      n := n / 4;
      if n > maxPacketLength {
        return Err(MessageTooLarge);
      }
      src.data := src.data[headLen..];
      r := Ok(Some(n));
    }

    method Encode(msg: Bytes, buf: BytesMut) returns (r: Result<(), Error>)
      modifies buf
      ensures |msg| <= MAX_PACKET_LENGTH ==> r == Ok(()) && buf.data == old(buf.data) + Frame(msg)
      ensures |msg| > MAX_PACKET_LENGTH ==> r == Err(MessageTooLarge) && buf.data == old(buf.data)
    {
      var len := |msg|;
      HeaderForms(len);
      ThreeBytes(4 * len + 2);
      if len <= 0x3F {
        buf.data := buf.data + [4 * len % 256];
      } else if len <= 0x3FFF {
        buf.data := buf.data + LittleEndian(4 * len % 0x1_0000 + 1, 2);
      } else if len <= 0x3F_FFFF {
        var h := 4 * len + 2;
        buf.data := buf.data + LittleEndian(h % 0x1_0000, 2);
        buf.data := buf.data + [h / 65536 % 256];
      } else if len <= MAX_PACKET_LENGTH {
        buf.data := buf.data + LittleEndian(4 * len % 0x1_0000_0000 + 3, 4);
      } else {
        return Err(MessageTooLarge);
      }
      buf.data := buf.data + msg;
      assert buf.data == old(buf.data) + (Header(len) + msg);
      r := Ok(());
    }
  }

  /** `read_frame`: one message from the front of a reader, or the end of the stream. */
  method ReadFrame(reader: BytesMut) returns (r: Result<Bytes, Error>)
    modifies reader
    ensures match DecodeStep(MAX_PACKET_LENGTH, Head, old(reader.data))
            case Step(Ok(Some(msg)), _, rest) => r == Ok(msg) && reader.data == rest
            case _ => r == Err(UnexpectedEof)
  {
    if reader.data == [] {
      return Err(UnexpectedEof);
    }
    ghost var src := reader.data;
    var first := reader.data[0];
    reader.data := reader.data[1..];
    var headLen := HeadLength(first);
    if |reader.data| < headLen - 1 {
      return Err(UnexpectedEof);
    }
    var headerRest := reader.data[..headLen - 1] + seq(4 - headLen, _ => 0);
    reader.data := reader.data[headLen - 1..];
    HeaderReadersAgree(src, headerRest);
    HeadValueFits(src);
    var (_, msgLen) := DecodeHeader(first, headerRest);
    if msgLen > MAX_PACKET_LENGTH {
      return Err(MessageTooLarge);
    }
    assert reader.data == src[headLen..];
    if |reader.data| < msgLen {
      return Err(UnexpectedEof);
    }
    r := Ok(reader.data[..msgLen]);
    reader.data := reader.data[msgLen..];
  }

  /** No header can announce more than the largest message. */
  lemma HeadValueFits(src: Bytes)
    requires src != [] && |src| >= HeadLength(src[0])
    ensures HeadValue(src) <= MAX_PACKET_LENGTH
  {
    HeadBytes(src);
  }

  /* ---- One message ---- */

  /** A header tells its own length and the message's. */
  lemma HeaderReads(len: nat, rest: Bytes)
    requires len <= MAX_PACKET_LENGTH
    ensures var src := Header(len) + rest;
            && src != [] && HeadLength(src[0]) == |Header(len)| == HeaderLength(len)
            && HeadValue(src) == len
  {
    var h := HeaderLength(len);
    var n := 4 * len + (h - 1);
    PowersOf256();
    LittleEndianHolds(n, h);
    assert (Header(len) + rest)[..h] == Header(len);
    assert Header(len)[0] == n % 256;
  }

  /** Decoding an encoded message gives it back and leaves what follows it; a smaller limit
      refuses it at the header. */
  lemma FrameDecodes(max: nat, msg: Bytes, rest: Bytes)
    requires |msg| <= MAX_PACKET_LENGTH
    ensures DecodeStep(max, Head, Frame(msg) + rest) ==
            if |msg| <= max then Step(Ok(Some(msg)), Head, rest)
            else Step(Err(MessageTooLarge), Head, Frame(msg) + rest)
  {
    var src := Frame(msg) + rest;
    assert src == Header(|msg|) + (msg + rest);
    HeaderReads(|msg|, msg + rest);
    assert src[HeadLength(src[0])..] == msg + rest;
    assert (msg + rest)[..|msg|] == msg && (msg + rest)[|msg|..] == rest;
  }

  /** A stream starts with at most one frame: no frame is a proper prefix of another. */
  lemma FramesPrefixFree(a: Bytes, x: Bytes, b: Bytes, y: Bytes)
    requires |a| <= MAX_PACKET_LENGTH && |b| <= MAX_PACKET_LENGTH
    requires Frame(a) + x == Frame(b) + y
    ensures a == b && x == y
  {
    FrameDecodes(MAX_PACKET_LENGTH, a, x);
    FrameDecodes(MAX_PACKET_LENGTH, b, y);
  }

  /* ---- Streams ---- */

  /** What decoding until nothing more comes out yields. */
  datatype Drained = Drained(msgs: seq<Bytes>, state: DecodeState, rest: Bytes, failed: bool)

  function Drain(max: nat, state: DecodeState, src: Bytes): Drained
    decreases |src|, state.Data?
  {
    var step := DecodeStep(max, state, src);
    match step.result
    case Err(_) => Drained([], step.state, step.rest, true)
    case Ok(None) => Drained([], step.state, step.rest, false)
    case Ok(Some(msg)) =>
      var d := Drain(max, step.state, step.rest);
      d.(msgs := [msg] + d.msgs)
  }

  /** More bytes do not change what a call of `decode` already returned. */
  lemma StepExtends(max: nat, state: DecodeState, a: Bytes, b: Bytes)
    ensures var s, t := DecodeStep(max, state, a), DecodeStep(max, state, a + b);
            && (s.result != Ok(None) ==> t == s.(rest := s.rest + b))
            && (s.result == Ok(None) ==> t == DecodeStep(max, s.state, s.rest + b))
  {
    var src := if state.Head? && a != [] && |a| >= HeadLength(a[0]) then a[HeadLength(a[0])..] else a;
    if state.Head? && a != [] && |a| >= HeadLength(a[0]) {
      var h := HeadLength(a[0]);
      assert (a + b)[..h] == a[..h] && (a + b)[h..] == src + b;
    }
    forall n: nat | n <= |src| ensures (src + b)[..n] == src[..n] && (src + b)[n..] == src[n..] + b {}
  }

  lemma StepProgress(max: nat, state: DecodeState, src: Bytes)
    ensures var s := DecodeStep(max, state, src);
            s.result.Ok? && s.result.value.Some? ==>
              s.state == Head && (|s.rest| < |src| || (|s.rest| == |src| && state.Data?))
  {
  }

  /** Decoding a stream piece by piece is decoding it whole, for every stream, good or bad. */
  lemma {:induction false} DrainSplits(max: nat, state: DecodeState, a: Bytes, b: Bytes)
    ensures var d := Drain(max, state, a);
            Drain(max, state, a + b) ==
            if d.failed then d.(rest := d.rest + b)
            else
              var e := Drain(max, d.state, d.rest + b);
              e.(msgs := d.msgs + e.msgs)
    decreases |a|, state.Data?
  {
    StepProgress(max, state, a);
    hide DecodeStep;
    StepExtends(max, state, a, b);
    var s := DecodeStep(max, state, a);
    if s.result.Ok? && s.result.value.Some? {
      DrainSplits(max, s.state, s.rest, b);
    }
  }

  /** Decodes until nothing more comes out. */
  method DrainBuffer(codec: BytesCodec, src: BytesMut) returns (msgs: seq<Bytes>, failed: bool)
    modifies codec, src
    ensures codec.maxPacketLength == old(codec.maxPacketLength)
    ensures Drain(codec.maxPacketLength, old(codec.state), old(src.data)) == Drained(msgs, codec.state, src.data, failed)
  {
    hide DecodeStep;
    msgs := [];
    ghost var max := codec.maxPacketLength;
    ghost var whole := Drain(max, codec.state, src.data);
    while true
      invariant codec.maxPacketLength == max
      invariant var d := Drain(max, codec.state, src.data); whole == d.(msgs := msgs + d.msgs)
      decreases |src.data|, codec.state.Data?
    {
      ghost var d := Drain(max, codec.state, src.data);
      StepProgress(max, codec.state, src.data);
      var r := codec.Decode(src);
      match r {
        case Ok(Some(msg)) =>
          msgs := msgs + [msg];
          assert d.msgs == [msg] + Drain(max, codec.state, src.data).msgs;
        case Ok(None) => return msgs, false;
        case Err(_) => return msgs, true;
      }
    }
  }

  lemma DrainNothing(max: nat)
    ensures Concat<Byte>([]) == [] && Drain(max, Head, []) == Drained([], Head, [], false)
  {
  }

  /** Feeds the chunks of a stream to a codec with some limit and decodes after each as far as it goes. */
  method ReceiveStream(max: nat, chunks: seq<Bytes>) returns (msgs: seq<Bytes>, failed: bool, left: Bytes)
    ensures var d := Drain(max, Head, Concat(chunks));
            msgs == d.msgs && failed == d.failed && (!failed ==> left == d.rest)
  {
    var codec := new BytesCodec();
    codec.SetMaxPacketLength(max);
    var src := new BytesMut([]);
    msgs := [];
    assert chunks[..0] == [];
    DrainNothing(max);
    hide Drain;
    for i := 0 to |chunks|
      invariant fresh(codec) && fresh(src) && codec.maxPacketLength == max
      invariant Drain(max, Head, Concat(chunks[..i])) == Drained(msgs, codec.state, src.data, false)
    {
      ConcatAt(chunks, i);
      DrainSplits(max, Head, Concat(chunks[..i]), chunks[i]);
      src.data := src.data + chunks[i];
      var more, bad := DrainBuffer(codec, src);
      msgs := msgs + more;
      if bad {
        DrainSplits(max, Head, Concat(chunks[..i + 1]), Concat(chunks[i + 1..]));
        return msgs, true, [];
      }
    }
    assert chunks[..|chunks|] == chunks;
    return msgs, false, src.data;
  }

  /** Round trip over streams: the encoded messages come back in order and nothing is left. */
  lemma {:induction false} EncodedStreamDecodes(max: nat, msgs: seq<Bytes>)
    requires Encodable(msgs) && forall i :: 0 <= i < |msgs| ==> |msgs[i]| <= max
    ensures Drain(max, Head, EncodeAll(msgs)) == Drained(msgs, Head, [], false)
  {
    if msgs != [] {
      hide DecodeStep, Frame;
      FrameDecodes(max, msgs[0], EncodeAll(msgs[1..]));
      EncodedStreamDecodes(max, msgs[1..]);
    }
  }
}
