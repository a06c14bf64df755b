/** The crate's usage example: bytes written through a `SinkWrite` into one end
    of an unbounded channel come out, in order and complete, of a `StreamRead`
    over the other end once the writing side has been dropped. */
module RoundTrip {
  import opened Io
  import StreamRead
  import SinkWrite

  /** What the receiving end of the channel answers: every item the sending end
      accepted, in order, each ready at once. */
  function Received<E>(items: seq<seq<byte>>): seq<StreamRead.StreamPoll<E>>
  {
    if |items| == 0 then [] else [Ok(Ready(Some(items[0])))] + Received(items[1..])
  }

  /** After the sender is dropped the receiver ends the stream. */
  function Hangup<E>(items: seq<seq<byte>>): StreamRead.Producer<E>
  {
    StreamRead.Producer(Received(items) + [Ok(Ready(None))], 0)
  }

  /** The channel hands over exactly the bytes of the accepted items, and
      items that are all non-empty make a well-behaved producer. */
  lemma {:induction false} ReceivedBytes<E>(items: seq<seq<byte>>)
    ensures |Received<E>(items)| == |items|
    ensures StreamRead.Flatten(Received<E>(items)) == Concat(items)
    ensures (forall i | 0 <= i < |items| :: items[i] != []) ==> StreamRead.Clean(Received<E>(items))
  {
    if |items| > 0 {
      var head: StreamRead.StreamPoll<E> := Ok(Ready(Some(items[0])));
      ReceivedBytes<E>(items[1..]);
      StreamRead.FlattenCons(head, Received<E>(items[1..]));
      if forall i | 0 <= i < |items| :: items[i] != [] {
        var rest := Received<E>(items[1..]);
        assert forall i | 0 <= i < |items[1..]| :: items[1..][i] != [] by {
          forall i | 0 <= i < |items[1..]|
            ensures items[1..][i] != []
          {
            assert items[1..][i] == items[i + 1];
          }
        }
        forall i | 0 <= i < |[head] + rest|
          ensures ([head] + rest)[i] == Ok(NotReady)
                  || (StreamRead.Payload(([head] + rest)[i]) != []
                      && ([head] + rest)[i] == Ok(Ready(Some(StreamRead.Payload(([head] + rest)[i])))))
        {
          if i > 0 {
            assert ([head] + rest)[i] == rest[i - 1];
          }
        }
      }
    }
  }

  /** Writing buffers with `write_all` into a channel that accepts them all,
      dropping the writer, and reading the other end to the end gives back
      every byte written, in order, whatever the read size. */
  lemma WriteThenRead<E>(c: SinkWrite.Consumer<E>, bufs: seq<seq<byte>>, chunk: nat)
    requires c.Valid() && c.items == [] && SinkWrite.Accepting(c, |bufs|) && chunk > 0
    ensures var (dw, w) := SinkWrite.WriteEach(SinkWrite.New(c), bufs);
            var (dr, r) := StreamRead.ReadToEnd(StreamRead.New(Hangup<E>(SinkWrite.IntoInner(w).items)), chunk, []);
            dw == Finished(()) && dr == Finished(Concat(bufs))
  {
    SinkWrite.WriteEachRecords(SinkWrite.New(c), bufs);
    var (dw, w) := SinkWrite.WriteEach(SinkWrite.New(c), bufs);
    var items := SinkWrite.IntoInner(w).items;
    assert items == SinkWrite.NonEmpty(bufs);
    SinkWrite.NonEmptyBytes(bufs);
    ReceivedBytes<E>(items);
    var body := Received<E>(items);
    assert body + [Ok(Ready(None))] + [] == Hangup<E>(items).script;
    StreamRead.ReadToEndFromNew(body, [], chunk);
  }

  /** The example itself: "hello" and then " world" written, "hello world" read. */
  lemma HelloWorldRoundTrip<E>(c: SinkWrite.Consumer<E>, chunk: nat)
    requires c.Valid() && c.items == [] && SinkWrite.Accepting(c, 2) && chunk > 0
    ensures var (dw, w) := SinkWrite.WriteEach(SinkWrite.New(c), [HELLO, WORLD]);
            var (dr, r) := StreamRead.ReadToEnd(StreamRead.New(Hangup<E>(SinkWrite.IntoInner(w).items)), chunk, []);
            dr == Finished(HELLO_WORLD)
  {
    WriteThenRead(c, [HELLO, WORLD], chunk);
    HelloWorldJoined();
  }

  lemma HelloWorldJoined()
    ensures Concat([HELLO, WORLD]) == HELLO_WORLD
  {
    assert [HELLO, WORLD][1..] == [WORLD];
    assert [WORLD][1..] == [];
    assert Concat([WORLD]) == WORLD + Concat([]);
  }
}
