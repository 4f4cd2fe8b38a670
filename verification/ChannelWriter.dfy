/** The writer that cuts a byte stream into chunks for a channel (src/msd/ventoy_drive.rs). The channel
    takes a number of further chunks, which may be unlimited, before its other end closes. */
module ChannelWriter {
  import opened Prelude

  const STREAM_CHUNK_SIZE := 64 * 1024

  /** How many more chunks the channel takes. */
  datatype Room = Unlimited | AtMost(chunks: nat)

  predicate Closed(room: Room) {
    room == AtMost(0)
  }

  function Less(room: Room, n: nat): Room {
    match room
    case Unlimited => room
    case AtMost(chunks) => AtMost(if chunks >= n then chunks - n else 0)
  }

  /** The channel does not take all full chunks of this many bytes. */
  predicate Short(room: Room, bytes: nat) {
    room.AtMost? && (room.chunks + 1) * STREAM_CHUNK_SIZE <= bytes
  }

  ghost predicate AllFull(chunks: seq<seq<Byte>>) {
    forall i :: 0 <= i < |chunks| ==> |chunks[i]| == STREAM_CHUNK_SIZE
  }

  /** Of so many bytes the channel takes all full chunks exactly if it takes n of them. */
  lemma ShortAt(room: Room, n: nat, bytes: nat)
    requires n * STREAM_CHUNK_SIZE <= bytes < (n + 1) * STREAM_CHUNK_SIZE
    ensures Short(room, bytes) <==> Short(room, n * STREAM_CHUNK_SIZE)
  {
  }

  /** It fails at chunk n + 1 exactly if it has closed after n. */
  lemma OneLess(room: Room, n: nat, bytes: nat)
    requires !Short(room, n * STREAM_CHUNK_SIZE)
    ensures Less(Less(room, n), 1) == Less(room, n + 1)
    ensures Closed(Less(room, n)) <==> Short(room, (n + 1) * STREAM_CHUNK_SIZE)
    ensures (n + 1) * STREAM_CHUNK_SIZE <= bytes && Closed(Less(room, n)) ==> Short(room, bytes)
  {
  }

  lemma ShortMeans(room: Room, bytes: nat)
    ensures Short(room, bytes) <==> room.AtMost? && (room.chunks + 1) * 65536 <= bytes
  {
  }

  lemma NoChunks(room: Room)
    ensures Less(room, 0) == room && !Short(room, 0)
  {
  }

  /** The first chunks are as before and all further ones full. */
  ghost predicate SendsFull(before: seq<seq<Byte>>, after: seq<seq<Byte>>) {
    before <= after && AllFull(after[|before|..])
  }

  lemma NoneYet(before: seq<seq<Byte>>)
    ensures SendsFull(before, before)
  {
  }

  lemma OneMore(before: seq<seq<Byte>>, after: seq<seq<Byte>>, chunk: seq<Byte>)
    requires SendsFull(before, after) && |chunk| == STREAM_CHUNK_SIZE
    ensures SendsFull(before, after + [chunk])
  {
  }

  lemma CutAt(stream: seq<Byte>, sent: seq<Byte>, buffer: seq<Byte>, buf: seq<Byte>, written: nat, n: nat)
    requires written + n <= |buf| && sent + buffer == stream + buf[..written]
    ensures sent + (buffer + buf[written..written + n]) == stream + buf[..written + n]
    ensures sent <= stream + buf
  {
    var done, piece, rest := stream + buf[..written], buf[written..written + n], buf[written..];
    assert stream + buf[..written + n] == done + piece;
    assert sent + (buffer + piece) == (sent + buffer) + piece;
    assert stream + buf == done + rest;
    assert sent <= (sent + buffer) + rest;
  }

  class Writer {
    var sent: seq<seq<Byte>>
    var room: Room
    var buffer: seq<Byte>

    ghost predicate Valid()
      reads this
    {
      |buffer| < STREAM_CHUNK_SIZE
    }

    /** All bytes taken and not lost. */
    ghost function Stream(): seq<Byte>
      reads this
    {
      Concat(sent) + buffer
    }

    constructor (room: Room)
      ensures Valid() && Stream() == [] && sent == [] && this.room == room
    {
      sent, this.room, buffer := [], room, [];
    }

    /** Sends what is buffered, if anything; the buffer is empty after that even if sending fails. */
    method FlushBuffer() returns (ok: bool)
      modifies this
      ensures buffer == []
      ensures ok <==> old(buffer) == [] || !Closed(old(room))
      ensures sent == if ok && old(buffer) != [] then old(sent) + [old(buffer)] else old(sent)
      ensures room == if old(buffer) != [] then Less(old(room), 1) else old(room)
      ensures ok ==> Stream() == old(Stream())
      ensures !ok ==> Closed(room)
    {
      if buffer == [] {
        return true;
      }
      var chunk := buffer;
      buffer := [];
      if Closed(room) {
        return false;
      }
      room := Less(room, 1);
      ConcatSnoc(sent, chunk);
      sent := sent + [chunk];
      ok := true;
    }

    /** On success every byte is taken; what a write sends are full chunks, and less than one stays
        buffered. On failure the channel is closed, all sent before is intact and the buffer is lost. */
    method Write(buf: seq<Byte>) returns (r: Result<nat, ()>)
      requires Valid()
      modifies this
      ensures Valid()
      ensures r.Ok? ==> r.value == |buf| && Stream() == old(Stream()) + buf
      ensures |sent| >= |old(sent)| && SendsFull(old(sent), sent)
      ensures r.Err? ==> buffer == [] && Closed(room) && Concat(sent) <= old(Stream()) + buf
      ensures r.Err? <==> Short(old(room), |old(buffer)| + |buf|)
      ensures r.Err? <==> old(room).AtMost? && (old(room).chunks + 1) * 65536 <= |old(buffer)| + |buf|
      ensures r.Ok? ==> room == Less(old(room), |sent| - |old(sent)|)
    {
      hide Concat, SendsFull, Less, Short, Closed;
      var written := 0;
      ghost var stream, room0, n := Stream(), room, 0;
      NoneYet(sent);
      NoChunks(room0);
      ShortMeans(room0, |buffer| + |buf|);
      while written < |buf|
        invariant 0 <= written <= |buf| && Valid()
        invariant Stream() == stream + buf[..written]
        invariant SendsFull(old(sent), sent) && |sent| == |old(sent)| + n
        invariant |old(buffer)| + written == n * STREAM_CHUNK_SIZE + |buffer|
        invariant !Short(room0, n * STREAM_CHUNK_SIZE) && room == Less(room0, n)
        decreases |buf| - written
      {
        var space := STREAM_CHUNK_SIZE - |buffer|;
        var toCopy := if space <= |buf| - written then space else |buf| - written;
        CutAt(stream, Concat(sent), buffer, buf, written, toCopy);
        buffer := buffer + buf[written..written + toCopy];
        written := written + toCopy;
        if |buffer| >= STREAM_CHUNK_SIZE {
          OneLess(room0, n, |old(buffer)| + |buf|);
          OneMore(old(sent), sent, buffer);
          var ok := FlushBuffer();
          if !ok {
            return Err(());
          }
          n := n + 1;
        }
      }
      assert buf[..written] == buf;
      ShortAt(room0, n, |old(buffer)| + |buf|);
      r := Ok(written);
    }

    /** An explicit flush, and the one when the writer goes away: nothing stays behind. */
    method Flush() returns (ok: bool)
      modifies this
      ensures buffer == []
      ensures ok <==> old(buffer) == [] || !Closed(old(room))
      ensures ok ==> Concat(sent) == old(Stream())
      ensures sent == if ok && old(buffer) != [] then old(sent) + [old(buffer)] else old(sent)
    {
      ok := FlushBuffer();
    }
  }

  /* ---- Whole streams ---- */

  /** A stream cut into full chunks and what is left over. */
  function Chunks(stream: seq<Byte>): seq<seq<Byte>> {
    if stream == [] then []
    else if |stream| <= STREAM_CHUNK_SIZE then [stream]
    else [stream[..STREAM_CHUNK_SIZE]] + Chunks(stream[STREAM_CHUNK_SIZE..])
  }

  /** Full chunks and a shorter rest are the only way to cut their stream. */
  lemma {:induction false} ChunksUnique(chunks: seq<seq<Byte>>, rest: seq<Byte>)
    requires AllFull(chunks) && |rest| < STREAM_CHUNK_SIZE
    ensures Chunks(Concat(chunks) + rest) == if rest == [] then chunks else chunks + [rest]
  {
    var stream := Concat(chunks) + rest;
    if chunks == [] {
      assert stream == rest;
    } else {
      var tail := Concat(chunks[1..]) + rest;
      assert |chunks[0]| == STREAM_CHUNK_SIZE && AllFull(chunks[1..]);
      assert stream == chunks[0] + tail;
      ChunksUnique(chunks[1..], rest);
      if tail == [] {
        assert chunks[1..] == [] && stream == chunks[0];
        assert chunks == [stream];
      } else {
        assert stream[..STREAM_CHUNK_SIZE] == chunks[0] && stream[STREAM_CHUNK_SIZE..] == tail;
        assert chunks == [chunks[0]] + chunks[1..];
      }
    }
  }

  /** All chunks of a stream but the last have 65536 bytes, the last has some and no more, and together
      they are the stream. */
  lemma {:induction false} ChunksAreFull(stream: seq<Byte>)
    ensures Concat(Chunks(stream)) == stream
    ensures forall i :: 0 <= i < |Chunks(stream)| ==> 0 < |Chunks(stream)[i]| <= 65536
    ensures forall i :: 0 <= i < |Chunks(stream)| - 1 ==> |Chunks(stream)[i]| == 65536
    decreases |stream|
  {
    if |stream| > STREAM_CHUNK_SIZE {
      ChunksAreFull(stream[STREAM_CHUNK_SIZE..]);
    }
  }

  /** Everything written to a channel that stays open comes out of it, in chunks that depend on the
      bytes alone and not on how the writes divided them. */
  method Stream(bufs: seq<seq<Byte>>) returns (chunks: seq<seq<Byte>>)
    ensures chunks == Chunks(Concat(bufs)) && Concat(chunks) == Concat(bufs)
  {
    var writer := new Writer(Unlimited);
    for i := 0 to |bufs|
      invariant writer.Valid() && fresh(writer) && writer.room == Unlimited
      invariant writer.Stream() == Concat(bufs[..i]) && AllFull(writer.sent)
    {
      ConcatAt(bufs, i);
      ghost var before := writer.sent;
      var r := writer.Write(bufs[i]);
      assert r.Ok?;
      assert writer.sent == before + writer.sent[|before|..];
    }
    assert bufs[..|bufs|] == bufs;
    ChunksUnique(writer.sent, writer.buffer);
    var ok := writer.Flush();
    chunks := writer.sent;
  }
}
