# lz_stream_io in Dafny

`lz_stream_io` adapts the asynchronous collections of futures 0.1 to byte I/O.

- `StreamRead` turns a `Stream` of byte buffers into a `Read`/`BufRead`/`AsyncRead`. It keeps the stream behind a `Fuse` and keeps the bytes of the last item that have not been handed out in an accumulator. `fill_buf` polls only when the accumulator is empty. `read` copies what fits and consumes exactly that.
- `SinkWrite` turns a `Sink` of byte buffers into a `Write`/`AsyncWrite`. Every `write` offers the whole buffer as one item. `flush` and `shutdown` both drive `poll_complete`; `flush` reports a pending completion as WouldBlock, `shutdown` as `NotReady`.
- The crate root's `async_io!` macro turns `NotReady` into a WouldBlock error.

This project models these pieces as pure functions over immutable state:

- `io.dfy` (module `Io`): bytes, `Async`, results, the error kinds the adapters report (WouldBlock, or a converted transport error), and `?` and `async_io!` as control-flow values.
- `stream_read.dfy` (module `StreamRead`):
  - The producer is a script of answers plus a cursor. It has a fuse, the reader, `new`, `into_inner`, `fill_buf`, `consume` and `read`.
  - tokio-io's `read_to_end` drives the reader.
  - The crate's read test.
- `sink_write.dfy` (module `SinkWrite`):
  - The consumer is the accepted items plus scripts of `start_send` and `poll_complete` answers. It has the writer, `new`, `into_inner`, `write`, `flush` and `shutdown`.
  - tokio-io's `write_all` and `shutdown` drive the writer.
  - The crate's write test.
- `round_trip.dfy` (module `RoundTrip`): the crate-level usage example. Buffers are written through a `SinkWrite` into an unbounded channel, then read back through a `StreamRead` after the writer has been dropped.

A script that has run out keeps answering not ready: nothing more ever arrives. The drivers retry a WouldBlock at once. They end `Stalled` when the answer did not move the script forward, which is where a real task would wait forever.

## Model

| member | source | states |
|---|---|---|
| Io.Try | src/stream_read.rs:50 | `?`: a transport success continues with its value; a transport error returns at once as `Err(From::from(e))`, with the same cause |
| Io.AsyncIo | src/lib.rs:47-52 | `async_io!`: `Ready(r)` continues with `r` and `NotReady` returns `Err(WouldBlock)`, in both directions |
| Io.AsyncIoTryOutcomes | src/sink_write.rs:39 | `async_io!(e?)`: only a ready success continues, with its value; WouldBlock exactly when the answer was `Ok(NotReady)`; a transport error exactly when the answer was an error, with its cause |
| StreamRead.FusedNext | src/stream_read.rs:18 | the fuse: once latched it answers end-of-stream without polling; it latches exactly on the first end-of-stream answer; otherwise it polls the producer, which moves on by exactly one answer whenever it has answers left |
| StreamRead.New | src/stream_read.rs:16-21 | a new reader has an empty accumulator and an unlatched fuse, wraps exactly the given producer, and is well formed exactly when the producer is |
| StreamRead.IntoInner | src/stream_read.rs:24-26 | unwrapping gives the producer at the point it has been polled to |
| StreamRead.RewrapIdentity | src/stream_read.rs:16-26 | `new(into_inner(r))` gives `r` back exactly when `r` had no buffered bytes and an unlatched fuse |
| StreamRead.FillBuf | src/stream_read.rs:48-59 | buffered bytes are returned without polling; an empty accumulator polls once: an item becomes the accumulator, end of stream gives an empty view, `NotReady` gives WouldBlock (and only it does), a stream error passes on with its cause; a latched reader returns an empty view unchanged; well-formedness is kept |
| StreamRead.FillBufAccounting | src/stream_read.rs:48-59 | the accumulator afterwards is the accumulator before followed by the bytes of exactly the answers polled |
| StreamRead.Consume | src/stream_read.rs:61-63 | the first `amt` bytes are removed and the rest kept in order; the stream is untouched |
| StreamRead.Read | src/stream_read.rs:34-40 | `fill_buf` errors pass through with the destination untouched; otherwise `n = min(len(dest), len(available))`, the first `n` destination bytes are the first `n` available, the rest of the destination is unchanged, and exactly `n` bytes are consumed; on every path the stream is left as `fill_buf` left it; a latched reader reads 0 |
| StreamRead.ReadAccounting | src/stream_read.rs:34-40 | what a read delivers, followed by what it leaves buffered, equals what was buffered followed by the bytes of what it polled |
| StreamRead.ReadProgress | src/stream_read.rs:34-40 | a read that returns bytes without polling shrinks the accumulator |
| StreamRead.ReadManyPreservesOrder | src/stream_read.rs:34-63 | over any sequence of reads and any producer answers: no byte is lost, duplicated or reordered, and the producer is polled forwards only |
| StreamRead.DeliveredFromNew | src/stream_read.rs:16-40 | from a new reader, everything delivered followed by the accumulator is the concatenation of the items polled |
| StreamRead.FusedReaderStaysAtEnd | src/stream_read.rs:48-59 | after end of stream every read returns 0, changes nothing and never polls the producer again |
| StreamRead.ReadToEndDelivers | src/stream_read.rs:97-101 | `read_to_end` never fails with WouldBlock; when it finishes the accumulator is empty and the result is the bytes buffered plus the items polled, in order |
| StreamRead.ReadToEndOfClean | src/stream_read.rs:97-101 | over a producer whose items are non-empty, with `NotReady`s in between, then the end: `read_to_end` finishes with all item bytes in order, whatever the read size, and polls exactly up to the end |
| StreamRead.ReadToEndFromNew | src/stream_read.rs:97-101 | the same from a new reader: the result is the concatenation of the items |
| StreamRead.EmptyItemEndsReadToEnd | src/stream_read.rs:48-59 | an item with no bytes gives an empty view while the stream has not ended, so `read_to_end` finishes early |
| StreamRead.HelloWorldBodyBytes | src/stream_read.rs:88-94 | the items of the read test join to "hello world" |
| StreamRead.ReadToEndHelloWorld | src/stream_read.rs:83-104 | the read test: reading the test producer to the end gives "hello world" for every read size, and polls exactly up to the end |
| SinkWrite.NewIntoInner | src/sink_write.rs:13-15 | `new` wraps exactly the consumer it is given: unwrapping a new writer gives that consumer back |
| SinkWrite.IntoInner | src/sink_write.rs:13-20 | `into_inner` undoes `new`: the consumer comes back with everything it accepted |
| SinkWrite.Write | src/sink_write.rs:29-36 | the whole buffer is offered as one item; accepted, the result is its full length and it is the one new item; refused, WouldBlock and nothing recorded; a consumer error passes on with its cause |
| SinkWrite.Flush | src/sink_write.rs:38-42 | `Ok(())` exactly when completion is ready; WouldBlock exactly when it is pending; a consumer error passes on |
| SinkWrite.Shutdown | src/sink_write.rs:50-52 | the completion answer passes through: `Ready` for ready, `NotReady` for pending, a converted error for an error |
| SinkWrite.FlushIsShutdown | src/sink_write.rs:38-52 | `flush` and `shutdown` do the same to the consumer and report the same outcome, differing only in WouldBlock against `NotReady` |
| SinkWrite.ShutdownDoesNotClose | src/sink_write.rs:29-52 | after `shutdown` a write still reaches the consumer as one item |
| SinkWrite.RetryAfterWouldBlock | src/sink_write.rs:29-36 | a refused write that is then retried and accepted records the buffer exactly once |
| SinkWrite.WriteAllAllOrNothing | src/sink_write.rs:29-36 | under `write_all`, whatever the consumer answers, the buffer's unwritten rest becomes exactly one item, or nothing; it is never split, and a failure is never WouldBlock |
| SinkWrite.AcceptedWriteAll | src/sink_write.rs:29-36 | `write_all` to a consumer that accepts finishes after one offer for a non-empty buffer and none for an empty one |
| SinkWrite.WriteEachRecords | src/sink_write.rs:67-68 | consecutive `write_all`s to an accepting consumer finish and record exactly the non-empty buffers, in order, one item each |
| SinkWrite.ShutdownAllCompletes | src/sink_write.rs:69 | driving `shutdown` over a consumer that completes after any number of pending answers finishes and leaves the items untouched |
| SinkWrite.WriteThenShutdown | src/sink_write.rs:62-75 | writing then shutting down finishes and leaves the consumer holding the non-empty buffers, in order |
| SinkWrite.WriteHelloWorld | src/sink_write.rs:62-75 | the write test: the consumer ends with exactly the two items "hello" and " world" |
| RoundTrip.ReceivedBytes | src/lib.rs:22 | the channel hands over exactly the bytes of the accepted items, and non-empty items make a well-behaved producer |
| RoundTrip.WriteThenRead | src/lib.rs:29-38 | buffers written with `write_all` and read back with `read_to_end` after the writer is dropped come back as their concatenation, whatever the read size |
| RoundTrip.HelloWorldRoundTrip | src/lib.rs:32-37 | the crate example: writing "hello" and " world" and reading to the end gives "hello world" |

## Left out

- The futures/tokio trait machinery itself: `Stream`, `Sink`, `Read`, `BufRead`, `Write`, `AsyncRead` and `AsyncWrite` are not modelled as traits. Each adapter method is a function from the adapter state to its result and new state.
- Task wake-ups and executors: none are modelled. A driver retries a WouldBlock at once and ends `Stalled` when the producer or consumer script has run out.
- Threads, `thread::sleep`, `mpsc` senders and `wait()` in the tests and the example: these are replaced by scripts of answers. The sleeps of the read test become `NotReady` answers between items.
- `io::Error` construction and `From<S::Error>`: a converted transport error is `Transport(cause)`, with the cause kept opaque.
- StreamRead.ReadToEnd and SinkWrite.WriteAll end `Failed` on every transport error. The real drivers do not when a stream or sink error converts to an `io::Error` of kind WouldBlock, which tokio-io's `try_nb!` turns into `NotReady`, or of kind `Interrupted`, which std's `read_to_end` retries. An opaque cause has no kind, so the model cannot tell those errors apart.
- `#[derive(Debug)]` and the `Item: AsRef<[u8]>` / `SinkItem: From<&[u8]>` conversions: items are byte sequences directly.
- Integer widths: `usize` counts and lengths are unbounded naturals. No value in these adapters comes near the width, so nothing wraps.
- The `Vec` that `read_to_end` grows: each read uses a destination of a fixed positive size, and the contracts quantify over that size. tokio-io grows its buffer between reads, but every size it uses is positive.
- `AsyncSink::NotReady(item)`: the item handed back is not kept, because the adapter drops it.
- `write_all`'s `WriteZero` error is not modelled. `write` reports the full length of a non-empty buffer, so that branch cannot be taken.
- StreamRead.Consume: requires `amt` to be at most the buffered length, because `Vec::split_off` panics beyond it. The panic itself is not modelled.
- The empty-item behaviour is stated as a property of the code as written, `StreamRead.EmptyItemEndsReadToEnd`, rather than as a defect. An empty item shows an empty view without signalling the end of the stream. `BufRead` callers then read that as end of file.
