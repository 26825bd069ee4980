/**
  The bounded, lazily-filled byte source used as an upload body.

  A stream hands out chunks of a cached random buffer until a fixed number of
  bytes has been produced, and then answers every read with end-of-stream.
  The buffer is regenerated, at exactly the requested size, only when a chunk
  larger than the current buffer is asked for, so its length never shrinks.

  Fresh random bytes are not produced here: whoever performs a read passes
  them in, and they are used only when the buffer has to grow.
 */
module Streams {
  import opened ReadResults

  type byte = bv8

  /** Buffer length a stream starts with when none is given: one mebibyte. */
  const DefaultInitialBufferLength: nat := 1024 * 1024

  /** The state of one stream: the cached buffer, the length recorded for it,
      and the number of bytes still to hand out. */
  datatype LargeStream = LargeStream(baseData: seq<byte>, baseDataLength: nat, remaining: nat)

  /** The recorded buffer length is the buffer's actual length. */
  predicate Valid(s: LargeStream)
  {
    |s.baseData| == s.baseDataLength
  }

  /** A new stream that will produce `length` bytes, starting from a buffer
      of `initialBufferLength` random bytes. */
  function New(length: nat, randomBytes: seq<byte>, initialBufferLength: nat := DefaultInitialBufferLength): (s: LargeStream)
    requires |randomBytes| == initialBufferLength
    ensures Valid(s)
    ensures Remaining(s) == length
    ensures s.baseDataLength == initialBufferLength && s.baseData == randomBytes
  {
    LargeStream(randomBytes, initialBufferLength, length)
  }

  /** How many bytes a read asks for: the size given, or the current buffer
      length when the size is omitted. */
  function Requested(s: LargeStream, size: Option<nat>): (n: nat)
  {
    match size
    case None => s.baseDataLength
    case Some(k) => k
  }

  /** The effective chunk size of a read: the request, capped by what is left. */
  function ChunkSize(s: LargeStream, size: Option<nat>): (e: nat)
    ensures e <= Requested(s, size) && e <= s.remaining
    ensures e == Requested(s, size) || e == s.remaining
  {
    var n := Requested(s, size);
    if n < s.remaining then n else s.remaining
  }

  /** Whether a read must regenerate the buffer: the stream is not exhausted
      and the effective chunk exceeds the current buffer. */
  predicate Grows(s: LargeStream, size: Option<nat>)
  {
    s.remaining != 0 && ChunkSize(s, size) > s.baseDataLength
  }

  /** What a read needs from its caller: `randomBytes` holds exactly the bytes
      a regenerated buffer would be made of, whenever the read regenerates. */
  predicate RandomBytesFit(s: LargeStream, size: Option<nat>, randomBytes: seq<byte>)
  {
    Grows(s, size) ==> |randomBytes| == ChunkSize(s, size)
  }

  datatype ReadResult = ReadResult(chunk: Option<seq<byte>>, next: LargeStream)

  /** One read: end-of-stream once nothing is left, otherwise the first
      `ChunkSize` bytes of the (possibly regenerated) buffer. */
  function Read(s: LargeStream, size: Option<nat>, randomBytes: seq<byte>): (r: ReadResult)
    requires Valid(s)
    requires RandomBytesFit(s, size, randomBytes)
    ensures Valid(r.next)
    // end-of-stream exactly when nothing is left, and then nothing changes
    ensures r.chunk.None? <==> s.remaining == 0
    ensures r.chunk.None? ==> r.next == s
    // a chunk has the effective size and is a prefix of the buffer now held
    ensures r.chunk.Some? ==> |r.chunk.value| == ChunkSize(s, size)
    ensures r.chunk.Some? ==> r.chunk.value <= r.next.baseData
    // the bytes handed out are exactly the bytes no longer remaining
    ensures r.chunk.Some? ==> |r.chunk.value| + r.next.remaining == s.remaining
    // the buffer only grows, and only to the chunk's size, from the random bytes
    ensures r.next.baseDataLength >= s.baseDataLength
    ensures Grows(s, size) ==> r.next.baseData == randomBytes && r.next.baseDataLength == |r.chunk.value|
    ensures !Grows(s, size) ==> r.next.baseData == s.baseData
  {
    if s.remaining == 0 then
      ReadResult(None, s)
    else
      var e := ChunkSize(s, size);
      var buffer := if e > s.baseDataLength then randomBytes else s.baseData;
      ReadResult(Some(buffer[..e]), LargeStream(buffer, |buffer|, s.remaining - e))
  }

  /** The number of bytes not yet handed out; zero exactly when the stream
      is exhausted, that is, when even an empty read reports end-of-stream. */
  function Remaining(s: LargeStream): (n: nat)
    requires Valid(s)
    ensures n == 0 <==> Read(s, Some(0), []).chunk.None?
  {
    s.remaining
  }

  /** Once exhausted, every read, of any size, is end-of-stream and leaves
      the stream as it was. */
  lemma ExhaustedStaysExhausted(s: LargeStream, size: Option<nat>, randomBytes: seq<byte>)
    requires Valid(s) && s.remaining == 0
    ensures RandomBytesFit(s, size, randomBytes)
    ensures Read(s, size, randomBytes) == ReadResult(None, s)
  {
  }

  /** A zero-size read on a live stream yields an empty chunk, not
      end-of-stream, and leaves the stream as it was. */
  lemma EmptyChunkIsNotEnd(s: LargeStream, randomBytes: seq<byte>)
    requires Valid(s) && s.remaining > 0
    ensures RandomBytesFit(s, Some(0), randomBytes)
    ensures Read(s, Some(0), randomBytes) == ReadResult(Some([]), s)
  {
  }

  /** A read that omits the size never regenerates the buffer. */
  lemma DefaultReadKeepsBuffer(s: LargeStream, randomBytes: seq<byte>)
    requires Valid(s)
    ensures !Grows(s, None)
    ensures Read(s, None, randomBytes).next.baseData == s.baseData
  {
  }

  /** Requests no larger than the current buffer never regenerate it; in
      particular, after a regrowth to `e` bytes, later requests of at most
      `e` bytes reuse the new buffer. */
  lemma SmallRequestKeepsBuffer(s: LargeStream, k: nat, randomBytes: seq<byte>)
    requires Valid(s) && k <= s.baseDataLength
    ensures !Grows(s, Some(k))
    ensures Read(s, Some(k), randomBytes).next.baseData == s.baseData
  {
  }

  /** After a regrowing read, a repeat of the same request does not regrow. */
  lemma NoRegrowthAfterGrowth(s: LargeStream, k: nat, randomBytes: seq<byte>)
    requires Valid(s) && RandomBytesFit(s, Some(k), randomBytes) && Grows(s, Some(k))
    ensures !Grows(Read(s, Some(k), randomBytes).next, Some(k))
  {
    var t := Read(s, Some(k), randomBytes).next;
    assert t.baseDataLength == ChunkSize(s, Some(k));
  }

  /** A size-less read on a live stream makes progress exactly when the
      buffer is non-empty: with an empty initial buffer, default reads return
      empty chunks forever. */
  lemma DefaultReadProgress(s: LargeStream, randomBytes: seq<byte>)
    requires Valid(s) && s.remaining > 0
    ensures Read(s, None, randomBytes).next.remaining < s.remaining <==> s.baseDataLength > 0
  {
  }

  /** The worked example: with one mebibyte plus ten bytes and the default
      buffer, three size-less reads give a full buffer, then ten bytes, then
      end-of-stream. */
  lemma ThreeReadsExample(randomBytes: seq<byte>)
    requires |randomBytes| == DefaultInitialBufferLength
    ensures var s0 := New(DefaultInitialBufferLength + 10, randomBytes);
            var r1 := Read(s0, None, []);
            var r2 := Read(r1.next, None, []);
            var r3 := Read(r2.next, None, []);
            && r1.chunk == Some(randomBytes) && Remaining(r1.next) == 10
            && r2.chunk == Some(randomBytes[..10]) && Remaining(r2.next) == 0
            && r3.chunk == None
  {
    assert randomBytes[..DefaultInitialBufferLength] == randomBytes;
    assert randomBytes[..10][..10] == randomBytes[..10];
  }
}
