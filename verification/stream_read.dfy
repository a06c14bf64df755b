/** `StreamRead`: a byte reader over a producer of byte buffers. It keeps the
    producer behind a fuse and holds the bytes pulled but not yet handed out
    in an accumulator `buf`. */
module StreamRead {
  import opened Io

  /** One answer of the wrapped producer to a poll, `Poll<Option<Item>, Error>`:
      an item, the end of the stream (`Ready(None)`), not ready, or a failure. */
  type StreamPoll<E> = Result<Poll<Option<seq<byte>>>, E>

  predicate IsEnd<E>(p: StreamPoll<E>)
  {
    p.Ok? && p.value.Ready? && p.value.value.None?
  }

  /** The bytes an answer carries: those of its item, none otherwise. */
  function Payload<E>(p: StreamPoll<E>): seq<byte>
  {
    if p.Ok? && p.value.Ready? && p.value.value.Some? then p.value.value.value else []
  }

  /** The item bytes of a run of answers, joined in order: `Concat` of the
      answers' payloads. It is kept as its own recursion over answers because
      every reader proof slices the producer's script, and a direct recursion
      over the slice avoids rewriting each slice into a mapped sequence. */
  function Flatten<E>(s: seq<StreamPoll<E>>): seq<byte>
  {
    if |s| == 0 then [] else Payload(s[0]) + Flatten(s[1..])
  }

  lemma {:induction false} FlattenAppend<E>(a: seq<StreamPoll<E>>, b: seq<StreamPoll<E>>)
    ensures Flatten(a + b) == Flatten(a) + Flatten(b)
  {
    if |a| == 0 {
      assert a + b == b;
    } else {
      assert (a + b)[1..] == a[1..] + b;
      FlattenAppend(a[1..], b);
    }
  }

  /** Splitting a run of answers at `j` splits its bytes at the same place. */
  lemma FlattenSplit<E>(s: seq<StreamPoll<E>>, i: nat, j: nat, k: nat)
    requires i <= j <= k <= |s|
    ensures Flatten(s[i..k]) == Flatten(s[i..j]) + Flatten(s[j..k])
  {
    assert s[i..k] == s[i..j] + s[j..k];
    FlattenAppend(s[i..j], s[j..k]);
  }

  lemma FlattenOne<E>(s: seq<StreamPoll<E>>, i: nat)
    requires i < |s|
    ensures Flatten(s[i..i + 1]) == Payload(s[i])
  {
    assert s[i..i + 1][1..] == [];
  }

  /** Two hand-offs in a row: what the first delivered and kept, followed by
      what the second delivered and kept, regroups into one hand-off. */
  lemma Regroup(d1: seq<byte>, kept1: seq<byte>, d2: seq<byte>, kept2: seq<byte>,
                before: seq<byte>, new1: seq<byte>, new2: seq<byte>)
    requires d1 + kept1 == before + new1
    requires d2 + kept2 == kept1 + new2
    ensures (d1 + d2) + kept2 == before + (new1 + new2)
  {
    calc {
      (d1 + d2) + kept2;
      d1 + (d2 + kept2);
      d1 + (kept1 + new2);
      (d1 + kept1) + new2;
      (before + new1) + new2;
    }
  }

  /** The wrapped producer: the answers it gives, in order, and the position
      of the next one. Once the script has run out nothing more arrives, so
      every later poll answers NotReady. */
  datatype Producer<E> = Producer(script: seq<StreamPoll<E>>, cursor: nat)
  {
    predicate Valid()
    {
      cursor <= |script|
    }

    /** `Stream::poll` of the wrapped producer. */
    function Next(): (res: (StreamPoll<E>, Producer<E>))
      ensures res.1.script == script
      ensures res.1.cursor == cursor + 1 || (res.1.cursor == cursor && res.0 == Ok(NotReady))
      ensures res.1.cursor == cursor + 1 ==> cursor < |script| && res.0 == script[cursor]
      ensures res.1.cursor == cursor ==> cursor >= |script|
      ensures Valid() ==> res.1.Valid()
    {
      if cursor < |script| then (script[cursor], this.(cursor := cursor + 1))
      else (Ok(NotReady), this)
    }
  }

  /** `futures::stream::Fuse`: the producer plus a latch set by the first
      end-of-stream answer. */
  datatype Fused<E> = Fused(inner: Producer<E>, done: bool)

  /** `Fuse::poll`: a latched fuse answers end-of-stream without polling the
      producer; otherwise it polls once and latches on an end-of-stream answer. */
  function FusedNext<E>(f: Fused<E>): (res: (StreamPoll<E>, Fused<E>))
    ensures f.done ==> res == (Ok(Ready(None)), f)
    ensures res.1.done <==> f.done || IsEnd(res.0)
    ensures res.1.inner.script == f.inner.script
    ensures res.1.inner.cursor == f.inner.cursor
            || (!f.done && res.1.inner.cursor == f.inner.cursor + 1
                && f.inner.cursor < |f.inner.script| && res.0 == f.inner.script[f.inner.cursor])
    ensures res.1.inner.cursor == f.inner.cursor ==> f.done || res.0 == Ok(NotReady)
    ensures !f.done && f.inner.cursor < |f.inner.script| ==> res.1.inner.cursor == f.inner.cursor + 1
    ensures f.inner.Valid() ==> res.1.inner.Valid()
  {
    if f.done then (Ok(Ready(None)), f)
    else
      var (r, p) := f.inner.Next();
      (r, Fused(p, IsEnd(r)))
  }

  /** The reader: the fused producer and the accumulator of bytes pulled from
      it but not yet delivered. */
  datatype Reader<E> = Reader(stream: Fused<E>, buf: seq<byte>)
  {
    function Script(): seq<StreamPoll<E>>
    {
      stream.inner.script
    }

    function Cursor(): nat
    {
      stream.inner.cursor
    }

    /** What every reachable reader satisfies: the producer's cursor is inside
        its script, and a latched fuse was latched by the last answer polled,
        an end of stream, which left the accumulator empty. */
    predicate Valid()
    {
      && stream.inner.Valid()
      && (stream.done ==> buf == [] && 0 < Cursor() && IsEnd(Script()[Cursor() - 1]))
    }
  }

  /** `StreamRead::new`: an empty accumulator and a fresh, unlatched fuse. */
  function New<E>(p: Producer<E>): (r: Reader<E>)
    ensures r.buf == [] && !r.stream.done
    ensures IntoInner(r) == p
    ensures r.Valid() <==> p.Valid()
  {
    Reader(Fused(p, false), [])
  }

  /** `StreamRead::into_inner`: the producer, as far as it has been polled;
      the fuse and the accumulated bytes are dropped. */
  function IntoInner<E>(r: Reader<E>): (p: Producer<E>)
    ensures p.script == r.Script() && p.cursor == r.Cursor()
  {
    r.stream.inner
  }

  /** Unwrapping and re-wrapping gives the same reader back exactly when there
      was nothing to lose: no buffered bytes and no latched fuse. */
  lemma RewrapIdentity<E>(r: Reader<E>)
    ensures New(IntoInner(r)) == r <==> r.buf == [] && !r.stream.done
  {
  }

  /** `BufRead::fill_buf`: with bytes in the accumulator, hands them out without
      polling; with none, polls the fused producer once and appends an item,
      reports an empty view at end of stream, and otherwise fails. */
  function FillBuf<E>(r: Reader<E>): (out: (IoResult<seq<byte>, E>, Reader<E>))
    ensures out.1.Script() == r.Script()
    ensures r.buf != [] ==> out == (Ok(r.buf), r)
    ensures r.Valid() && r.stream.done ==> out == (Ok([]), r)
    ensures out.0.Ok? ==> out.0.value == out.1.buf
    ensures out.0.Err? ==> out.1.buf == r.buf == []
    ensures r.buf == [] ==> out.1.stream == FusedNext(r.stream).1
    ensures r.buf == [] ==> out.1.buf == Payload(FusedNext(r.stream).0)
    ensures out.0 == Err(WouldBlock) <==> r.buf == [] && FusedNext(r.stream).0 == Ok(NotReady)
    ensures out.0.Err? && out.0.error.Transport? <==> r.buf == [] && FusedNext(r.stream).0.Err?
    ensures out.0.Err? && out.0.error.Transport? ==> out.0.error.cause == FusedNext(r.stream).0.error
    ensures r.Valid() ==> out.1.Valid()
    ensures r.Valid() ==> r.Cursor() <= out.1.Cursor() <= r.Cursor() + 1
  {
    if r.buf == [] then
      var (polled, s) := FusedNext(r.stream);
      match polled
      case Err(e) => (Err(Transport(e)), r.(stream := s))
      case Ok(NotReady) => (Err(WouldBlock), r.(stream := s))
      case Ok(Ready(None)) => (Ok(r.buf), r.(stream := s))
      case Ok(Ready(Some(item))) =>
        var r' := Reader(s, r.buf + item);
        (Ok(r'.buf), r')
    else
      (Ok(r.buf), r)
  }

  /** What `fill_buf` adds to the accumulator is exactly the bytes of what it
      polled: nothing when it does not poll, the item's bytes when it does. */
  lemma FillBufAccounting<E>(r: Reader<E>)
    ensures r.Valid() ==> FillBuf(r).1.buf == r.buf + Flatten(r.Script()[r.Cursor()..FillBuf(r).1.Cursor()])
  {
    if !r.Valid() {
      return;
    }
    var c := r.Cursor();
    var c' := FillBuf(r).1.Cursor();
    if c' == c {
      assert r.Script()[c..c'] == [];
    } else {
      FlattenOne(r.Script(), c);
    }
  }

  /** `BufRead::consume`: drops the first `amt` bytes of the accumulator.
      `Vec::split_off` panics beyond the end, hence the precondition. */
  function Consume<E>(r: Reader<E>, amt: nat): (r': Reader<E>)
    requires amt <= |r.buf|
    ensures r'.stream == r.stream
    ensures r.buf == r.buf[..amt] + r'.buf
    ensures r.Valid() ==> r'.Valid()
  {
    r.(buf := r.buf[amt..])
  }

  /** The result of `Read::read`: the count returned, the destination buffer
      afterwards, and the reader afterwards. */
  datatype ReadOutcome<E> = ReadOutcome(result: IoResult<nat, E>, dest: seq<byte>, reader: Reader<E>)

  /** The bytes a read call handed to its caller. */
  function Delivered<E>(o: ReadOutcome<E>): seq<byte>
  {
    if o.result.Ok? && o.result.value <= |o.dest| then o.dest[..o.result.value] else []
  }

  /** `Read::read`: fills the accumulator, copies as much of it as fits into
      the front of `dest`, and consumes exactly what was copied. */
  function Read<E>(r: Reader<E>, dest: seq<byte>): (out: ReadOutcome<E>)
    ensures |out.dest| == |dest|
    ensures out.reader.Script() == r.Script()
    ensures out.reader.stream == FillBuf(r).1.stream
    ensures out.result.Err? ==> FillBuf(r).0.Err? && out.result.error == FillBuf(r).0.error && out.dest == dest && out.reader.buf == r.buf
    ensures out.result.Ok? ==> FillBuf(r).0.Ok?
    ensures out.result.Ok? && FillBuf(r).0.Ok? ==>
              var avail := FillBuf(r).0.value;
              var n := out.result.value;
              && n == Min(|dest|, |avail|)
              && out.dest[..n] == avail[..n]
              && out.dest[n..] == dest[n..]
              && out.reader.buf == avail[n..]
    ensures r.Valid() ==> out.reader.Valid()
    ensures r.Valid() && r.stream.done ==> out == ReadOutcome(Ok(0), dest, r)
    ensures r.Valid() ==> r.Cursor() <= out.reader.Cursor() <= r.Cursor() + 1
  {
    var (filled, r1) := FillBuf(r);
    match filled
    case Err(e) => ReadOutcome(Err(e), dest, r1)
    case Ok(avail) =>
      var n := Min(|dest|, |avail|);
      ReadOutcome(Ok(n), avail[..n] + dest[n..], Consume(r1, n))
  }

  /** What a read hands out, followed by what it leaves buffered, is what was
      buffered before followed by the bytes of what it polled. */
  lemma ReadAccounting<E>(r: Reader<E>, dest: seq<byte>)
    requires r.Valid()
    ensures var out := Read(r, dest);
            Delivered(out) + out.reader.buf == r.buf + Flatten(r.Script()[r.Cursor()..out.reader.Cursor()])
  {
    FillBufAccounting(r);
    var out := Read(r, dest);
    if out.result.Ok? {
      var avail := FillBuf(r).0.value;
      var n := out.result.value;
      assert avail[..n] + avail[n..] == avail;
    }
  }

  /** A read that leaves the producer where it was either made no progress
      at all or shrank the accumulator. */
  lemma ReadProgress<E>(r: Reader<E>, dest: seq<byte>)
    requires r.Valid()
    ensures var out := Read(r, dest);
            out.reader.Cursor() == r.Cursor() && out.result.Ok? && out.result.value > 0
            ==> |out.reader.buf| < |r.buf|
  {
  }

  /** The caller's loop calling `read` once per destination buffer, whatever
      each call answers. */
  function ReadMany<E>(r: Reader<E>, dests: seq<seq<byte>>): (res: (seq<byte>, Reader<E>))
    decreases |dests|
  {
    if |dests| == 0 then ([], r)
    else
      var o := Read(r, dests[0]);
      var (rest, last) := ReadMany(o.reader, dests[1..]);
      (Delivered(o) + rest, last)
  }

  /** Order preservation: however the reads are sized and whatever the
      producer answers, the bytes delivered followed by those still buffered
      are the bytes buffered before followed by the items polled meanwhile,
      in order; no byte is lost, repeated or reordered. */
  lemma {:induction false} ReadManyPreservesOrder<E>(r: Reader<E>, dests: seq<seq<byte>>)
    requires r.Valid()
    ensures var (out, last) := ReadMany(r, dests);
            && last.Valid()
            && last.Script() == r.Script()
            && r.Cursor() <= last.Cursor()
            && out + last.buf == r.buf + Flatten(r.Script()[r.Cursor()..last.Cursor()])
    decreases |dests|
  {
    if |dests| > 0 {
      var o := Read(r, dests[0]);
      ReadAccounting(r, dests[0]);
      ReadManyPreservesOrder(o.reader, dests[1..]);
      var (rest, last) := ReadMany(o.reader, dests[1..]);
      assert ReadMany(r, dests) == (Delivered(o) + rest, last);
      var s := r.Script();
      FlattenSplit(s, r.Cursor(), o.reader.Cursor(), last.Cursor());
      var d := Delivered(o);
      var f1 := Flatten(s[r.Cursor()..o.reader.Cursor()]);
      var f2 := Flatten(s[o.reader.Cursor()..last.Cursor()]);
      assert d + o.reader.buf == r.buf + f1;
      assert rest + last.buf == o.reader.buf + f2;
      Regroup(d, o.reader.buf, rest, last.buf, r.buf, f1, f2);
    }
  }

  /** From a new reader: every byte delivered so far, followed by the
      accumulator, is exactly the concatenation of the items pulled. */
  lemma DeliveredFromNew<E>(p: Producer<E>, dests: seq<seq<byte>>)
    requires p.Valid()
    ensures var (out, last) := ReadMany(New(p), dests);
            p.cursor <= last.Cursor() <= |p.script| && out + last.buf == Flatten(p.script[p.cursor..last.Cursor()])
  {
    ReadManyPreservesOrder(New(p), dests);
  }

  /** The fuse: once the end of the stream has been seen, every later read
      delivers nothing, fails never, and does not poll the producer again. */
  lemma {:induction false} FusedReaderStaysAtEnd<E>(r: Reader<E>, dests: seq<seq<byte>>)
    requires r.Valid() && r.stream.done
    ensures ReadMany(r, dests) == ([], r)
    decreases |dests|
  {
    if |dests| > 0 {
      FusedReaderStaysAtEnd(Read(r, dests[0]).reader, dests[1..]);
    }
  }

  /** tokio-io's `read_to_end` driving the reader with reads of `chunk` bytes
      until one returns 0. A WouldBlock suspends it until the producer has
      moved on; when the script has run out it stays suspended (Stalled). */
  function ReadToEnd<E>(r: Reader<E>, chunk: nat, acc: seq<byte>): (res: (Drive<seq<byte>, IoError<E>>, Reader<E>))
    requires r.Valid() && chunk > 0
    decreases |r.Script()| - r.Cursor(), |r.buf|
  {
    var o := Read(r, Zeros(chunk));
    ReadProgress(r, Zeros(chunk));
    match o.result
    case Ok(n) =>
      if n == 0 then (Finished(acc), o.reader)
      else ReadToEnd(o.reader, chunk, acc + o.dest[..n])
    case Err(WouldBlock) =>
      if o.reader.Cursor() == r.Cursor() then (Stalled, o.reader)
      else ReadToEnd(o.reader, chunk, acc)
    case Err(e) => (Failed(e), o.reader)
  }

  /** Whatever the producer answers, `read_to_end` either fails with a
      transport error, stalls, or finishes with exactly the bytes buffered
      before and the items pulled, in order, leaving nothing behind. */
  lemma {:induction false} ReadToEndDelivers<E>(r: Reader<E>, chunk: nat, acc: seq<byte>)
    requires r.Valid() && chunk > 0
    ensures var (d, last) := ReadToEnd(r, chunk, acc);
            && (d.Failed? ==> d.error.Transport?)
            && last.Script() == r.Script()
            && r.Cursor() <= last.Cursor() <= |r.Script()|
            && (d.Finished? ==> last.buf == [] && d.value == acc + r.buf + Flatten(r.Script()[r.Cursor()..last.Cursor()]))
    decreases |r.Script()| - r.Cursor(), |r.buf|, 1
  {
    var o := Read(r, Zeros(chunk));
    ReadAccounting(r, Zeros(chunk));
    ReadProgress(r, Zeros(chunk));
    if o.result.Ok? && o.result.value > 0 {
      DeliversAfterCopy(r, chunk, acc);
    } else if o.result == Err(WouldBlock) && o.reader.Cursor() != r.Cursor() {
      DeliversAfterWait(r, chunk, acc);
    } else if o.result.Ok? {
      assert ReadToEnd(r, chunk, acc) == (Finished(acc), o.reader);
      assert o.reader.buf == [] && Delivered(o) == [];
      assert r.buf + Flatten(r.Script()[r.Cursor()..o.reader.Cursor()]) == [];
      assert acc + [] == acc;
    }
  }

  /** The step of `ReadToEndDelivers` on which the read copied bytes. */
  lemma {:induction false} DeliversAfterCopy<E>(r: Reader<E>, chunk: nat, acc: seq<byte>)
    requires r.Valid() && chunk > 0
    requires Read(r, Zeros(chunk)).result.Ok? && Read(r, Zeros(chunk)).result.value > 0
    ensures var (d, last) := ReadToEnd(r, chunk, acc);
            && (d.Failed? ==> d.error.Transport?)
            && last.Script() == r.Script()
            && r.Cursor() <= last.Cursor() <= |r.Script()|
            && (d.Finished? ==> last.buf == [] && d.value == acc + r.buf + Flatten(r.Script()[r.Cursor()..last.Cursor()]))
    decreases |r.Script()| - r.Cursor(), |r.buf|, 0
  {
    var o := Read(r, Zeros(chunk));
    ReadAccounting(r, Zeros(chunk));
    ReadProgress(r, Zeros(chunk));
    var s := r.Script();
    var n := o.result.value;
    var next := acc + o.dest[..n];
    ReadToEndDelivers(o.reader, chunk, next);
    var (d, last) := ReadToEnd(o.reader, chunk, next);
    assert ReadToEnd(r, chunk, acc) == (d, last);
    FlattenSplit(s, r.Cursor(), o.reader.Cursor(), last.Cursor());
    if d.Finished? {
      Extend(acc, o.dest[..n], o.reader.buf, r.buf,
             Flatten(s[r.Cursor()..o.reader.Cursor()]), Flatten(s[o.reader.Cursor()..last.Cursor()]));
    }
  }

  /** The step of `ReadToEndDelivers` on which the producer was not ready and
      the driver polls again. */
  lemma {:induction false} DeliversAfterWait<E>(r: Reader<E>, chunk: nat, acc: seq<byte>)
    requires r.Valid() && chunk > 0
    requires Read(r, Zeros(chunk)).result == Err(WouldBlock)
    requires Read(r, Zeros(chunk)).reader.Cursor() != r.Cursor()
    ensures var (d, last) := ReadToEnd(r, chunk, acc);
            && (d.Failed? ==> d.error.Transport?)
            && last.Script() == r.Script()
            && r.Cursor() <= last.Cursor() <= |r.Script()|
            && (d.Finished? ==> last.buf == [] && d.value == acc + r.buf + Flatten(r.Script()[r.Cursor()..last.Cursor()]))
    decreases |r.Script()| - r.Cursor(), |r.buf|, 0
  {
    var o := Read(r, Zeros(chunk));
    ReadAccounting(r, Zeros(chunk));
    var s := r.Script();
    ReadToEndDelivers(o.reader, chunk, acc);
    var (d, last) := ReadToEnd(o.reader, chunk, acc);
    assert ReadToEnd(r, chunk, acc) == (d, last);
    var new1 := Flatten(s[r.Cursor()..o.reader.Cursor()]);
    var new2 := Flatten(s[o.reader.Cursor()..last.Cursor()]);
    FlattenSplit(s, r.Cursor(), o.reader.Cursor(), last.Cursor());
    assert Delivered(o) == [] && o.reader.buf == r.buf;
    assert |new1| == 0 by {
      assert |Delivered(o) + o.reader.buf| == |r.buf + new1|;
    }
    assert new1 + new2 == new2;
  }

  /** Associativity of byte concatenation, as a lemma: calling it gives the
      solver the one instance a proof needs without exposing the terms to
      its general sequence reasoning. */
  lemma AppendAssoc(a: seq<byte>, b: seq<byte>, c: seq<byte>)
    ensures (a + b) + c == a + (b + c)
  {
  }

  /** One more hand-off appended to a driver's accumulator. */
  lemma Extend(acc: seq<byte>, d: seq<byte>, kept: seq<byte>, before: seq<byte>, new1: seq<byte>, new2: seq<byte>)
    requires d + kept == before + new1
    ensures (acc + d) + kept + new2 == acc + before + (new1 + new2)
  {
    calc {
      (acc + d) + kept + new2;
      acc + (d + kept) + new2;
      acc + (before + new1) + new2;
    }
  }

  /** A well-behaved producer: each answer before the end of the stream is an
      item with at least one byte or a not-ready. */
  predicate Clean<E>(body: seq<StreamPoll<E>>)
  {
    forall i | 0 <= i < |body| ::
      body[i] == Ok(NotReady) || (Payload(body[i]) != [] && body[i] == Ok(Ready(Some(Payload(body[i])))))
  }

  /** The read-to-end scenario: over a producer that answers a clean run of
      items and not-readies and then ends, `read_to_end` finishes with the
      items' bytes in order and never polls past the end of the stream. */
  lemma {:induction false} ReadToEndOfClean<E>(r: Reader<E>, body: seq<StreamPoll<E>>, tail: seq<StreamPoll<E>>,
                                               chunk: nat, acc: seq<byte>)
    requires r.Script() == body + [Ok(Ready(None))] + tail && Clean(body)
    requires r.Cursor() <= |body| && !r.stream.done
    requires chunk > 0
    ensures r.Valid()
    ensures var (d, last) := ReadToEnd(r, chunk, acc);
            d == Finished(acc + r.buf + Flatten(body[r.Cursor()..])) && last.Cursor() == |body| + 1
    decreases |r.Script()| - r.Cursor(), |r.buf|, 1
  {
    var c := r.Cursor();
    if r.buf != [] {
      BufferedClean(r, body, tail, chunk, acc);
    } else if c < |body| {
      if body[c] == Ok(NotReady) {
        PendingClean(r, body, tail, chunk, acc);
      } else {
        ItemClean(r, body, tail, chunk, acc);
      }
      assert acc + r.buf == acc;
    } else {
      EndClean(r, body, tail, chunk, acc);
    }
  }

  /** The last step of `ReadToEndOfClean`: the producer answers the end of the
      stream, the read returns 0 and the driver finishes. */
  lemma EndClean<E>(r: Reader<E>, body: seq<StreamPoll<E>>, tail: seq<StreamPoll<E>>, chunk: nat, acc: seq<byte>)
    requires r.Script() == body + [Ok(Ready(None))] + tail
    requires r.Cursor() == |body| && !r.stream.done && r.buf == []
    requires chunk > 0
    ensures var (d, last) := ReadToEnd(r, chunk, acc);
            d == Finished(acc + r.buf + Flatten(body[r.Cursor()..])) && last.Cursor() == |body| + 1
  {
    var o := Read(r, Zeros(chunk));
    assert r.Script()[r.Cursor()] == Ok(Ready(None));
    ReadPolled(r, Zeros(chunk));
    assert ReadToEnd(r, chunk, acc) == (Finished(acc), o.reader);
    assert body[r.Cursor()..] == [];
    assert acc + r.buf + [] == acc;
  }

  /** A step of `ReadToEndOfClean` with bytes buffered: part of them is
      delivered and the producer is left alone. */
  lemma {:induction false} BufferedClean<E>(r: Reader<E>, body: seq<StreamPoll<E>>, tail: seq<StreamPoll<E>>,
                                            chunk: nat, acc: seq<byte>)
    requires r.Script() == body + [Ok(Ready(None))] + tail && Clean(body)
    requires r.Cursor() <= |body| && !r.stream.done && r.buf != []
    requires chunk > 0
    ensures var (d, last) := ReadToEnd(r, chunk, acc);
            d == Finished(acc + r.buf + Flatten(body[r.Cursor()..])) && last.Cursor() == |body| + 1
    decreases |r.Script()| - r.Cursor(), |r.buf|, 0
  {
    var o := Read(r, Zeros(chunk));
    ReadProgress(r, Zeros(chunk));
    ReadBuffered(r, Zeros(chunk));
    var n := o.result.value;
    var next := acc + o.dest[..n];
    ReadToEndOfClean(o.reader, body, tail, chunk, next);
    assert ReadToEnd(r, chunk, acc) == ReadToEnd(o.reader, chunk, next);
    AppendAssoc(acc, o.dest[..n], o.reader.buf);
  }

  /** A polling step of `ReadToEndOfClean` on which the producer is not ready:
      the driver is suspended and polls again. */
  lemma {:induction false} PendingClean<E>(r: Reader<E>, body: seq<StreamPoll<E>>, tail: seq<StreamPoll<E>>,
                                           chunk: nat, acc: seq<byte>)
    requires r.Script() == body + [Ok(Ready(None))] + tail && Clean(body)
    requires r.Cursor() < |body| && !r.stream.done && r.buf == []
    requires body[r.Cursor()] == Ok(NotReady)
    requires chunk > 0
    ensures var (d, last) := ReadToEnd(r, chunk, acc);
            d == Finished(acc + Flatten(body[r.Cursor()..])) && last.Cursor() == |body| + 1
    decreases |r.Script()| - r.Cursor(), |r.buf|, 0
  {
    var c := r.Cursor();
    var o := Read(r, Zeros(chunk));
    assert r.Script()[c] == Ok(NotReady);
    ReadPolled(r, Zeros(chunk));
    ReadToEndOfClean(o.reader, body, tail, chunk, acc);
    assert ReadToEnd(r, chunk, acc) == ReadToEnd(o.reader, chunk, acc);
    assert o.reader.buf == [];
    assert Flatten(body[c..]) == Flatten(body[c + 1..]) by {
      assert body[c..][1..] == body[c + 1..];
    }
    var res := ReadToEnd(o.reader, chunk, acc);
    assert res.0 == Finished(acc + [] + Flatten(body[c + 1..]));
    assert acc + [] == acc;
  }

  /** A polling step of `ReadToEndOfClean` on which the producer answers an
      item: part of it is delivered, the rest stays buffered. */
  lemma {:induction false} ItemClean<E>(r: Reader<E>, body: seq<StreamPoll<E>>, tail: seq<StreamPoll<E>>,
                                        chunk: nat, acc: seq<byte>)
    requires r.Script() == body + [Ok(Ready(None))] + tail && Clean(body)
    requires r.Cursor() < |body| && !r.stream.done && r.buf == []
    requires body[r.Cursor()] != Ok(NotReady)
    requires chunk > 0
    ensures var (d, last) := ReadToEnd(r, chunk, acc);
            d == Finished(acc + Flatten(body[r.Cursor()..])) && last.Cursor() == |body| + 1
    decreases |r.Script()| - r.Cursor(), |r.buf|, 0
  {
    var c := r.Cursor();
    var x := body[c];
    var o := Read(r, Zeros(chunk));
    assert Payload(x) != [] && x == Ok(Ready(Some(Payload(x))));
    assert r.Script()[c] == x;
    ReadPolled(r, Zeros(chunk));
    var n := o.result.value;
    var next := acc + o.dest[..n];
    ReadToEndOfClean(o.reader, body, tail, chunk, next);
    assert ReadToEnd(r, chunk, acc) == ReadToEnd(o.reader, chunk, next);
    assert Flatten(body[c..]) == Payload(x) + Flatten(body[c + 1..]) by {
      assert body[c..][1..] == body[c + 1..];
    }
    AppendAssoc(acc, o.dest[..n], o.reader.buf);
    AppendAssoc(acc, Payload(x), Flatten(body[c + 1..]));
  }

  /** A read from a reader holding bytes hands out a non-empty prefix of them
      and leaves the producer alone. */
  lemma ReadBuffered<E>(r: Reader<E>, dest: seq<byte>)
    requires r.Valid() && r.buf != [] && |dest| > 0
    ensures var o := Read(r, dest);
            && o.result == Ok(Min(|dest|, |r.buf|)) && o.result.value > 0
            && o.dest[..o.result.value] + o.reader.buf == r.buf
            && o.reader.stream == r.stream
  {
    var o := Read(r, dest);
    var n := Min(|dest|, |r.buf|);
    assert r.buf[..n] + r.buf[n..] == r.buf;
  }

  /** A read from an unlatched reader with an empty accumulator polls the
      producer exactly once and hands out a prefix of the item it answers. */
  lemma ReadPolled<E>(r: Reader<E>, dest: seq<byte>)
    requires r.Valid() && r.buf == [] && !r.stream.done && r.Cursor() < |r.Script()| && |dest| > 0
    ensures var o := Read(r, dest);
            var x := r.Script()[r.Cursor()];
            && o.reader.Cursor() == r.Cursor() + 1
            && o.reader.stream.done == IsEnd(x)
            && (x == Ok(NotReady) ==> o.result == Err(WouldBlock))
            && (x.Ok? && x.value.Ready? ==>
                  && o.result.Ok?
                  && (o.result.value == 0 <==> Payload(x) == [])
                  && o.dest[..o.result.value] + o.reader.buf == Payload(x))
  {
    var o := Read(r, dest);
    var x := r.Script()[r.Cursor()];
    var item := Payload(x);
    if x.Ok? && x.value.Ready? {
      assert FillBuf(r).0 == Ok(item);
      var n := Min(|dest|, |item|);
      assert item[..n] + item[n..] == item;
    }
  }

  /** A quirk of the adapter as written: an item with no bytes gives an empty
      view, which the caller takes for the end of the stream, so `read_to_end`
      finishes before the producer has ended and leaves the rest unread. */
  lemma EmptyItemEndsReadToEnd<E>(rest: seq<StreamPoll<E>>, chunk: nat)
    requires chunk > 0
    ensures ReadToEnd(New(Producer([Ok(Ready(Some([])))] + rest, 0)), chunk, []).0 == Finished([])
    ensures !ReadToEnd(New(Producer([Ok(Ready(Some([])))] + rest, 0)), chunk, []).1.stream.done
  {
    var r := New(Producer([Ok(Ready(Some([])))] + rest, 0));
    assert Read(r, Zeros(chunk)).result == Ok(0);
  }

  lemma FlattenCons<E>(x: StreamPoll<E>, s: seq<StreamPoll<E>>)
    ensures Flatten([x] + s) == Payload(x) + Flatten(s)
  {
    assert ([x] + s)[1..] == s;
  }

  /** The answers of the producer in the crate's read test before it ends:
      "he", "llo", " wor", "ld", each but the first preceded by a not-ready. */
  function HelloWorldBody<E>(): seq<StreamPoll<E>>
  {
    [Ok(Ready(Some(HE)))] + ([Ok(NotReady)] +
    ([Ok(Ready(Some(LLO)))] + ([Ok(NotReady)] +
    ([Ok(Ready(Some(WOR)))] + ([Ok(NotReady)] +
    [Ok(Ready(Some(LD)))])))))
  }

  lemma HelloWorldBodyClean<E>()
    ensures Clean(HelloWorldBody<E>())
  {
  }

  lemma HelloWorldBodyBytes<E>()
    ensures Flatten(HelloWorldBody<E>()) == HELLO_WORLD
  {
    var he: StreamPoll<E> := Ok(Ready(Some(HE)));
    var llo: StreamPoll<E> := Ok(Ready(Some(LLO)));
    var wor: StreamPoll<E> := Ok(Ready(Some(WOR)));
    var ld: StreamPoll<E> := Ok(Ready(Some(LD)));
    var gap: StreamPoll<E> := Ok(NotReady);
    var s3 := [gap] + [ld];
    var s5 := [gap] + ([wor] + s3);
    var s7 := [he] + ([gap] + ([llo] + s5));
    assert HelloWorldBody<E>() == s7;
    FlattenCons(ld, []);
    FlattenCons(gap, [ld]);
    FlattenCons(wor, s3);
    FlattenCons(gap, [wor] + s3);
    FlattenCons(llo, s5);
    FlattenCons(gap, [llo] + s5);
    FlattenCons(he, [gap] + ([llo] + s5));
    assert HE + (LLO + (WOR + LD)) == HELLO_WORLD;
  }

  /** A new reader over a clean producer: `read_to_end` finishes with the
      items' bytes in order and polls the producer exactly up to its end. */
  lemma ReadToEndFromNew<E>(body: seq<StreamPoll<E>>, tail: seq<StreamPoll<E>>, chunk: nat)
    requires Clean(body) && chunk > 0
    ensures var (d, last) := ReadToEnd(New(Producer(body + [Ok(Ready(None))] + tail, 0)), chunk, []);
            d == Finished(Flatten(body)) && last.Cursor() == |body| + 1
  {
    var r := New(Producer(body + [Ok(Ready(None))] + tail, 0));
    ReadToEndOfClean(r, body, tail, chunk, []);
    assert body[0..] == body;
    assert [] + r.buf + Flatten(body) == Flatten(body);
  }

  /** Reading the crate's test producer to the end yields "hello world",
      whatever the read size, and the producer is not polled past its end. */
  lemma ReadToEndHelloWorld<E>(chunk: nat, tail: seq<StreamPoll<E>>)
    requires chunk > 0
    ensures var (d, last) := ReadToEnd(New(Producer(HelloWorldBody<E>() + [Ok(Ready(None))] + tail, 0)), chunk, []);
            d == Finished(HELLO_WORLD) && last.Cursor() == 8
  {
    HelloWorldBodyClean<E>();
    HelloWorldBodyBytes<E>();
    ReadToEndFromNew(HelloWorldBody<E>(), tail, chunk);
  }
}
