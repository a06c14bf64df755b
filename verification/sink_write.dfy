/** `SinkWrite`: a byte writer over a consumer of byte buffers. It holds
    nothing but the consumer: every write becomes one whole item. */
module SinkWrite {
  import opened Io

  /** What `start_send` and `poll_complete` answer, `Poll<(), Error>`. A
      not-ready `start_send` hands the item back (`AsyncSink::NotReady(item)`);
      the adapter drops it, so the item is not kept here. */
  type SinkPoll<E> = Result<Poll<()>, E>

  predicate IsReady<E>(p: SinkPoll<E>)
  {
    p.Ok? && p.value.Ready?
  }

  /** The wrapped consumer: the items it has accepted, in order, and the
      answers it gives to `start_send` and to `poll_complete`, each with the
      position of the next answer. Once a script has run out the consumer
      stays not ready. */
  datatype Consumer<E> = Consumer(items: seq<seq<byte>>,
                                  sends: seq<SinkPoll<E>>, sent: nat,
                                  completions: seq<SinkPoll<E>>, completed: nat)
  {
    predicate Valid()
    {
      sent <= |sends| && completed <= |completions|
    }

    /** `Sink::start_send`: the item joins the accepted ones exactly when the
        consumer answers ready. */
    function StartSend(item: seq<byte>): (res: (SinkPoll<E>, Consumer<E>))
      ensures res.1.items == if IsReady(res.0) then items + [item] else items
      ensures res.1.sends == sends && res.1.completions == completions && res.1.completed == completed
      ensures res.1.sent == sent + 1 || (res.1.sent == sent && sent >= |sends| && res.0 == Ok(NotReady))
      ensures res.1.sent == sent + 1 ==> sent < |sends| && res.0 == sends[sent]
      ensures Valid() ==> res.1.Valid()
    {
      if sent < |sends| then
        var answer := sends[sent];
        (answer, this.(items := if IsReady(answer) then items + [item] else items, sent := sent + 1))
      else
        (Ok(NotReady), this)
    }

    /** `Sink::poll_complete`: finishing outstanding work neither adds nor
        removes accepted items. */
    function PollComplete(): (res: (SinkPoll<E>, Consumer<E>))
      ensures res.1.items == items
      ensures res.1.sends == sends && res.1.sent == sent && res.1.completions == completions
      ensures res.1.completed == completed + 1 || (res.1.completed == completed && completed >= |completions| && res.0 == Ok(NotReady))
      ensures res.1.completed == completed + 1 ==> completed < |completions| && res.0 == completions[completed]
      ensures Valid() ==> res.1.Valid()
    {
      if completed < |completions| then (completions[completed], this.(completed := completed + 1))
      else (Ok(NotReady), this)
    }
  }

  /** The writer owns the consumer and nothing else. */
  datatype Writer<E> = Writer(sink: Consumer<E>)

  /** `SinkWrite::new`. */
  function New<E>(c: Consumer<E>): Writer<E>
  {
    Writer(c)
  }

  /** `new` then `into_inner` gives back the consumer it was given. */
  lemma NewIntoInner<E>(c: Consumer<E>)
    ensures IntoInner(New(c)) == c
  {
  }

  /** `SinkWrite::into_inner`: the consumer, with everything it accepted. */
  function IntoInner<E>(w: Writer<E>): (c: Consumer<E>)
    ensures New(c) == w
  {
    w.sink
  }

  /** `Write::write`: offers the whole buffer as one item. Accepted, it reports
      the full length; refused, nothing was taken and it reports WouldBlock; a
      consumer failure is passed on. */
  function Write<E>(w: Writer<E>, buf: seq<byte>): (out: (IoResult<nat, E>, Writer<E>))
    ensures out.1.sink == w.sink.StartSend(buf).1
    ensures out.0.Ok? <==> IsReady(w.sink.StartSend(buf).0)
    ensures out.0.Ok? ==> out.0.value == |buf|
    ensures out.1.sink.items == if out.0.Ok? then w.sink.items + [buf] else w.sink.items
    ensures out.0 == Err(WouldBlock) <==> w.sink.StartSend(buf).0 == Ok(NotReady)
    ensures out.0.Err? && out.0.error.Transport? <==> w.sink.StartSend(buf).0.Err?
    ensures out.0.Err? && out.0.error.Transport? ==> out.0.error.cause == w.sink.StartSend(buf).0.error
  {
    var (sent, c) := w.sink.StartSend(buf);
    match Try<Poll<()>, nat, E>(sent)
    case Return(early) => (early, Writer(c))
    case Continue(NotReady) => (Err(WouldBlock), Writer(c))
    case Continue(Ready(_)) => (Ok(|buf|), Writer(c))
  }

  /** `Write::flush`: `async_io!(poll_complete()?)`, then `Ok(())`. */
  function Flush<E>(w: Writer<E>): (out: (IoResult<(), E>, Writer<E>))
    ensures out.1.sink == w.sink.PollComplete().1
    ensures out.0 == Ok(()) <==> IsReady(w.sink.PollComplete().0)
    ensures out.0 == Err(WouldBlock) <==> w.sink.PollComplete().0 == Ok(NotReady)
    ensures w.sink.PollComplete().0.Err? ==> out.0 == Err(Transport(w.sink.PollComplete().0.error))
  {
    var (done, c) := w.sink.PollComplete();
    AsyncIoTryOutcomes<(), (), E>(done);
    match AsyncIoTry<(), (), E>(done)
    case Return(early) => (early, Writer(c))
    case Continue(_) => (Ok(()), Writer(c))
  }

  /** `AsyncWrite::shutdown`: `Ok(poll_complete()?)`, the completion answer
      passed through as a poll with its error converted. */
  function Shutdown<E>(w: Writer<E>): (out: (Result<Poll<()>, IoError<E>>, Writer<E>))
    ensures out.1.sink == w.sink.PollComplete().1
    ensures out.0 == Ok(Ready(())) <==> IsReady(w.sink.PollComplete().0)
    ensures out.0 == Ok(NotReady) <==> w.sink.PollComplete().0 == Ok(NotReady)
    ensures w.sink.PollComplete().0.Err? ==> out.0 == Err(Transport(w.sink.PollComplete().0.error))
  {
    var (done, c) := w.sink.PollComplete();
    match Try<Poll<()>, Poll<()>, E>(done)
    case Return(early) => (early, Writer(c))
    case Continue(Ready(_)) => (Ok(Ready(())), Writer(c))
    case Continue(NotReady) => (Ok(NotReady), Writer(c))
  }

  /** `flush` and `shutdown` do the same thing to the consumer and differ only
      in how they report a pending completion: WouldBlock against `NotReady`. */
  lemma FlushIsShutdown<E>(w: Writer<E>)
    ensures Flush(w).1 == Shutdown(w).1
    ensures Flush(w).0 == Ok(()) <==> Shutdown(w).0 == Ok(Ready(()))
    ensures Flush(w).0 == Err(WouldBlock) <==> Shutdown(w).0 == Ok(NotReady)
    ensures Flush(w).0.Err? && Flush(w).0.error.Transport? <==> Shutdown(w).0.Err?
    ensures Shutdown(w).0.Err? ==> Flush(w).0.Err? && Flush(w).0.error == Shutdown(w).0.error
  {
  }

  /** `shutdown` does not close the writer: a later write is offered to the
      consumer exactly as it would have been before. */
  lemma ShutdownDoesNotClose<E>(w: Writer<E>, buf: seq<byte>)
    requires w.sink.Valid()
    requires w.sink.sent < |w.sink.sends| && IsReady(w.sink.sends[w.sink.sent])
    ensures Write(Shutdown(w).1, buf).0 == Ok(|buf|)
    ensures Write(Shutdown(w).1, buf).1.sink.items == w.sink.items + [buf]
  {
  }

  /** No double buffering: after a write that was refused, retrying the same
      buffer delivers it exactly once, as one item. */
  lemma RetryAfterWouldBlock<E>(w: Writer<E>, buf: seq<byte>)
    requires Write(w, buf).0 == Err(WouldBlock)
    requires Write(Write(w, buf).1, buf).0.Ok?
    ensures Write(Write(w, buf).1, buf).1.sink.items == w.sink.items + [buf]
  {
  }

  /** tokio-io's `write_all`: writes the unwritten rest of `buf` until none is
      left, suspended by a WouldBlock until the consumer has moved on; when
      its script has run out it stays suspended (Stalled). */
  function WriteAll<E>(w: Writer<E>, buf: seq<byte>, pos: nat): (res: (Drive<(), IoError<E>>, Writer<E>))
    requires w.sink.Valid() && pos <= |buf|
    decreases |w.sink.sends| - w.sink.sent, |buf| - pos
  {
    if pos == |buf| then (Finished(()), w)
    else
      var (r, w') := Write(w, buf[pos..]);
      match r
      case Ok(n) => WriteAll(w', buf, pos + n)
      case Err(WouldBlock) =>
        if w'.sink.sent == w.sink.sent then (Stalled, w') else WriteAll(w', buf, pos)
      case Err(e) => (Failed(e), w')
  }

  /** Whatever the consumer answers, `write_all` leaves the accepted items
      either as they were or with the unwritten rest of the buffer as exactly
      one more item, the latter precisely when it finishes with bytes to write;
      it never splits a buffer and never fails with WouldBlock. */
  lemma {:induction false} WriteAllAllOrNothing<E>(w: Writer<E>, buf: seq<byte>, pos: nat)
    requires w.sink.Valid() && pos <= |buf|
    ensures var (d, w') := WriteAll(w, buf, pos);
            && w'.sink.Valid()
            && (d.Failed? ==> d.error.Transport?)
            && w'.sink.items == if d.Finished? && pos < |buf| then w.sink.items + [buf[pos..]] else w.sink.items
    decreases |w.sink.sends| - w.sink.sent, |buf| - pos
  {
    if pos < |buf| {
      var (r, w1) := Write(w, buf[pos..]);
      match r
      case Ok(n) =>
        assert pos + n == |buf|;
        assert WriteAll(w, buf, pos) == WriteAll(w1, buf, |buf|);
      case Err(WouldBlock) =>
        if w1.sink.sent != w.sink.sent {
          WriteAllAllOrNothing(w1, buf, pos);
        }
      case Err(e) =>
    }
  }

  /** The consumer will accept the next `k` items without a refusal. */
  predicate Accepting<E>(c: Consumer<E>, k: nat)
  {
    c.sent + k <= |c.sends| && forall i | c.sent <= i < c.sent + k :: IsReady(c.sends[i])
  }

  /** The consumer will complete outstanding work after `k` pending answers. */
  predicate CompletesAfter<E>(c: Consumer<E>, k: nat)
  {
    && c.completed + k < |c.completions|
    && (forall i | c.completed <= i < c.completed + k :: c.completions[i] == Ok(NotReady))
    && IsReady(c.completions[c.completed + k])
  }

  /** The buffers with at least one byte: `write_all` skips empty ones. */
  function NonEmpty(bufs: seq<seq<byte>>): seq<seq<byte>>
  {
    if |bufs| == 0 then []
    else if bufs[0] == [] then NonEmpty(bufs[1..])
    else [bufs[0]] + NonEmpty(bufs[1..])
  }

  lemma {:induction false} NonEmptyBytes(bufs: seq<seq<byte>>)
    ensures Concat(NonEmpty(bufs)) == Concat(bufs)
    ensures forall i | 0 <= i < |NonEmpty(bufs)| :: NonEmpty(bufs)[i] != []
    ensures |NonEmpty(bufs)| <= |bufs|
  {
    if |bufs| > 0 {
      NonEmptyBytes(bufs[1..]);
      if bufs[0] != [] {
        ConcatAppend([bufs[0]], NonEmpty(bufs[1..]));
        assert Concat([bufs[0]]) == bufs[0] by {
          assert [bufs[0]][1..] == [];
        }
      }
    }
  }

  /** The caller's `write_all` of each buffer in turn, stopping at the first
      that does not finish. */
  function WriteEach<E>(w: Writer<E>, bufs: seq<seq<byte>>): (res: (Drive<(), IoError<E>>, Writer<E>))
    requires w.sink.Valid()
    ensures res.1.sink.Valid()
    decreases |bufs|
  {
    if |bufs| == 0 then (Finished(()), w)
    else
      WriteAllAllOrNothing(w, bufs[0], 0);
      var (d, w') := WriteAll(w, bufs[0], 0);
      if d.Finished? then WriteEach(w', bufs[1..]) else (d, w')
  }

  /** Over a consumer that accepts every offer, writing a sequence of buffers
      with `write_all` records exactly the non-empty ones, in order, one item
      per buffer. */
  lemma {:induction false} WriteEachRecords<E>(w: Writer<E>, bufs: seq<seq<byte>>)
    requires w.sink.Valid() && Accepting(w.sink, |bufs|)
    ensures var (d, w') := WriteEach(w, bufs);
            && d == Finished(())
            && w'.sink.Valid()
            && w'.sink.items == w.sink.items + NonEmpty(bufs)
            && w'.sink.completed == w.sink.completed && w'.sink.completions == w.sink.completions
    decreases |bufs|
  {
    if |bufs| > 0 {
      var b := bufs[0];
      var w1 := WriteAll(w, b, 0).1;
      AcceptedWriteAll(w, b);
      assert WriteEach(w, bufs) == WriteEach(w1, bufs[1..]);
      assert Accepting(w1.sink, |bufs| - 1);
      WriteEachRecords(w1, bufs[1..]);
      if b != [] {
        assert w.sink.items + [b] + NonEmpty(bufs[1..]) == w.sink.items + ([b] + NonEmpty(bufs[1..]));
      }
    }
  }

  /** `write_all` of one buffer over a consumer that accepts the next offer:
      it finishes, and the buffer, if not empty, is the one new item. */
  lemma AcceptedWriteAll<E>(w: Writer<E>, b: seq<byte>)
    requires w.sink.Valid() && Accepting(w.sink, 1)
    ensures var (d, w') := WriteAll(w, b, 0);
            && d == Finished(())
            && w'.sink.Valid()
            && w'.sink.items == (if b == [] then w.sink.items else w.sink.items + [b])
            && w'.sink.sent == (if b == [] then w.sink.sent else w.sink.sent + 1)
            && w'.sink.sends == w.sink.sends
            && w'.sink.completed == w.sink.completed && w'.sink.completions == w.sink.completions
  {
    if b != [] {
      assert b[0..] == b;
      assert IsReady(w.sink.sends[w.sink.sent]);
      var (r, w1) := Write(w, b);
      assert r == Ok(|b|);
      assert WriteAll(w, b, 0) == WriteAll(w1, b, |b|);
    }
  }

  /** tokio-io's `shutdown`: calls `shutdown` until it is ready, suspended
      while it is not; when the script has run out it stays suspended. */
  function ShutdownAll<E>(w: Writer<E>): (res: (Drive<(), IoError<E>>, Writer<E>))
    requires w.sink.Valid()
    decreases |w.sink.completions| - w.sink.completed
  {
    var (r, w') := Shutdown(w);
    match r
    case Ok(Ready(_)) => (Finished(()), w')
    case Ok(NotReady) =>
      if w'.sink.completed == w.sink.completed then (Stalled, w') else ShutdownAll(w')
    case Err(e) => (Failed(e), w')
  }

  /** Driving `shutdown` over a consumer that completes after `k` pending
      answers finishes, and leaves the accepted items untouched. */
  lemma {:induction false} ShutdownAllCompletes<E>(w: Writer<E>, k: nat)
    requires w.sink.Valid() && CompletesAfter(w.sink, k)
    ensures ShutdownAll(w).0 == Finished(())
    ensures ShutdownAll(w).1.sink.items == w.sink.items
    decreases k
  {
    var w1 := Shutdown(w).1;
    if k > 0 {
      assert w.sink.completions[w.sink.completed] == Ok(NotReady);
      assert CompletesAfter(w1.sink, k - 1);
      ShutdownAllCompletes(w1, k - 1);
    }
  }

  /** Writing buffers with `write_all` and then driving `shutdown`, over a
      consumer that accepts every offer and completes after `k` pending
      answers: both finish, and the consumer holds the non-empty buffers as
      new items, in order. */
  lemma WriteThenShutdown<E>(c: Consumer<E>, bufs: seq<seq<byte>>, k: nat)
    requires c.Valid() && Accepting(c, |bufs|) && CompletesAfter(c, k)
    ensures var (d1, w1) := WriteEach(New(c), bufs);
            && d1 == Finished(())
            && ShutdownAll(w1).0 == Finished(())
            && IntoInner(ShutdownAll(w1).1).items == c.items + NonEmpty(bufs)
  {
    WriteEachRecords(New(c), bufs);
    var (d1, w1) := WriteEach(New(c), bufs);
    ShutdownAllCompletes(w1, k);
  }

  /** The crate's write test: "hello" then " world" through `write_all`, then
      `shutdown`, over a consumer that accepts both and completes after `k`
      pending answers; `into_inner` then gives exactly those two items. */
  lemma WriteHelloWorld<E>(c: Consumer<E>, k: nat)
    requires c.Valid() && c.items == [] && Accepting(c, 2) && CompletesAfter(c, k)
    ensures var (d1, w1) := WriteEach(New(c), [HELLO, WORLD]);
            && d1 == Finished(())
            && ShutdownAll(w1).0 == Finished(())
            && IntoInner(ShutdownAll(w1).1).items == [HELLO, WORLD]
  {
    WriteThenShutdown(c, [HELLO, WORLD], k);
    HelloWorldNonEmpty();
  }

  lemma HelloWorldNonEmpty()
    ensures NonEmpty([HELLO, WORLD]) == [HELLO, WORLD]
  {
    assert |HELLO| == 5 && |WORLD| == 6;
    assert [HELLO, WORLD][1..] == [WORLD];
    assert [WORLD][1..] == [];
    assert NonEmpty([WORLD]) == [WORLD] + NonEmpty([]);
  }
}
