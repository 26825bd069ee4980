# LargeStream: a bounded, lazily-filled upload body

This project models `LargeStream` from the storage upload benchmark. The
benchmark uses `LargeStream` as the body of a streaming `PUT`. A stream is
built with a target length and an initial buffer of random bytes. Each
`read(size)` hands out the next chunk: the first `min(size, remaining)` bytes
of the cached buffer, where an omitted size means "the current buffer
length". Once the target has been used up, every read returns `None`
(end-of-stream). The buffer is regenerated with fresh random bytes only when
a chunk is larger than the current buffer, and then it has exactly the
chunk's length, so the buffer never shrinks.

Layout:

- `read_results.dfy`, module `ReadResults`: the `Option` type used as the tagged
  read result. `None` is end-of-stream. `Some(chunk)` is a chunk, possibly
  empty.
- `large_stream.dfy`, module `Streams`: the stream state, the constructor,
  `Read` and `Remaining`, and lemmas about single reads.
- `traces.dfy`, module `Traces`: runs of many reads (`Run`), byte
  conservation, the finality of end-of-stream, and `Drain`, a loop of
  size-less reads that empties the stream.

Modelling choices:

- The stream is an immutable `LargeStream(baseData, baseDataLength, remaining)`
  value. `Read` returns the chunk and the next state.
- `os.urandom` is not modelled. Whoever performs a read passes the random
  bytes in as `randomBytes`. They are used only when the buffer grows, and
  their length must then equal the chunk size (`RandomBytesFit`).
- Python's `size=None` is `Option<nat>.None`. Sizes and lengths are `nat`.
- The source keeps no total length. Conservation is therefore stated
  against the `remaining` a run starts from, which for a new stream is the
  constructor's `length` (`Traces.Conservation`).
- `remaining` does not strictly decrease. `read(0)` on a live stream leaves
  it unchanged (`Streams.EmptyChunkIsNotEnd`). So does a size-less read when
  the buffer is empty (`Streams.DefaultReadProgress`).
- `New` takes the random bytes before the buffer length, so that the buffer
  length can default to one mebibyte as in the source.

## Model

| member | source | states |
|---|---|---|
| `Streams.New` | app.py:95-99 | A new stream has the requested length left to hand out. Its buffer is the given random bytes, and the recorded buffer length equals the buffer's actual length. |
| `Streams.ChunkSize` | app.py:105-109 | The effective chunk size is the minimum of the request and the bytes left. The request is the current buffer length when no size is given. |
| `Streams.Read` | app.py:101-114 | A read returns end-of-stream exactly when nothing is left, and then the state is unchanged. Otherwise the chunk has the effective size and is a prefix of the buffer now held. Remaining drops by the chunk's length. The buffer length never decreases. The buffer is replaced only when the chunk exceeds it, and then by the random bytes, at exactly the chunk's length. |
| `Streams.Remaining` | app.py:116-117 | Remaining is zero exactly when a read reports end-of-stream. It is a query and changes no state. |
| `Streams.ExhaustedStaysExhausted` | app.py:101-103 | On an exhausted stream, a read of any size, with any random bytes, returns end-of-stream and leaves the state unchanged. |
| `Streams.EmptyChunkIsNotEnd` | app.py:102-114 | On a live stream, `read(0)` returns an empty chunk, not end-of-stream, and leaves the state unchanged. |
| `Streams.DefaultReadKeepsBuffer` | app.py:105-112 | A read without a size never regenerates the buffer. |
| `Streams.SmallRequestKeepsBuffer` | app.py:109-112 | A request no larger than the current buffer never regenerates it. |
| `Streams.NoRegrowthAfterGrowth` | app.py:110-112 | After a read regrows the buffer, the same request does not regrow it again. |
| `Streams.DefaultReadProgress` | app.py:95-109 | On a live stream, a size-less read lowers remaining if and only if the buffer is non-empty. A stream built with an empty initial buffer stalls under default reads. |
| `Streams.ThreeReadsExample` | app.py:94-114 | With one mebibyte plus ten bytes and the default one-mebibyte buffer, three size-less reads return the whole buffer, then its first ten bytes, then end-of-stream. Remaining goes to 10 and then 0. |
| `Traces.Run` | app.py:101-114 | Over any run of reads, bytes handed out plus bytes left equal what was left at the start. The buffer never shrinks. After the first end-of-stream, every later read is end-of-stream. Once end-of-stream is seen, nothing is left. On an exhausted stream, every read is end-of-stream. |
| `Traces.NoneRunIsConstant` | app.py:101-103 | Any run of reads on an exhausted stream is well supplied whatever random bytes it offers. It returns only end-of-stream and ends in the state it started from. |
| `Traces.Conservation` | app.py:95-114 | For a new stream of `length` bytes, any run of reads hands out bytes that, added to `remaining()`, give `length`. Once end-of-stream has been returned, exactly `length` bytes have been handed out. |
| `Traces.EmptyStreamEndsAtOnce` | app.py:95-103 | A stream of length 0 returns end-of-stream on its first read. |
| `Traces.Drain` | app.py:101-114 | With a non-empty buffer, repeated size-less reads terminate, because each one lowers remaining. The results are chunks followed by one end-of-stream. The buffer is never regenerated. Every chunk is a non-empty prefix of the buffer, and all chunks but the last fill it. The chunk lengths add up to what was left. The chunk count is the ceiling of remaining divided by the buffer length. |

## Left out

- The HTTP transport adapter classes (`HttpXTransportResponse`, `HttpxStreamDownloadGenerator`, `HttpXTransport`, app.py:16-92) are left out. They are thin wrappers over third-party HTTP client and pipeline libraries whose code is not part of this model.
- The benchmark driver (app.py:119-209) is left out. It covers argument parsing, the endless upload loop, the network calls, the swallowed exception from the pre-trial delete, and printing. All of it is process and network I/O.
- The throughput and timing computations are left out. They use floating point and the wall clock.
- The contents produced by `os.urandom` are left out. Random bytes are an arbitrary `seq<bv8>` parameter of the right length.
- The `_position` field is left out. It is set by the constructor and never read.
- Negative `size`, `length` and `initial_buffer_length` values are excluded by the `nat` types as misuse. The command-line size (app.py:124) is not validated, but a negative one makes `os.urandom(size)` raise `ValueError` at app.py:146, before any stream is built. The benchmark never passes `initial_buffer_length`, and the sizes given to `read` come from the HTTP libraries. Negative values are reachable only by calling the class directly. On such misuse the class behaves as follows.
  - A negative length `-n` is not 0, so the first `read(k)` with `k >= 0` computes `e = min(k, -n) = -n`. It sets `_remaining` to 0 and returns `_base_data[:-n]`, which is the buffer without its last `n` bytes (empty if the buffer has at most `n` bytes).
  - A negative `size` gives a negative `e`, so `_remaining` grows by `|e|`. The returned slice is the buffer without its last `|e|` bytes.
  - A negative `initial_buffer_length` makes `os.urandom` raise `ValueError` in the constructor (app.py:96).
- Streams.Read: the returned chunk is modelled as a value. Whether Python copies the slice or shares the buffer is not observable in this model.
