/** Vocabulary shared by both adapters: bytes, the `Async` answer of a
    non-blocking poll, results, the I/O error kinds the adapters report, the
    outcome of a driver loop, and the `async_io!` macro of the crate root
    together with the `?` operator it is used with. */
module Io {

  /** An octet, the element type of every buffer. */
  newtype byte = b: int | 0 <= b < 0x100

  /** `futures::Async`: a value is ready now, or the caller must come back later. */
  datatype Poll<+T> = Ready(value: T) | NotReady

  datatype Option<+T> = None | Some(value: T)

  datatype Result<+T, +E> = Ok(value: T) | Err(error: E)

  /** The error side of `std::io::Result` as the adapters see it: the synthetic
      WouldBlock kind, or a failure of the wrapped transport, converted by `From`
      and otherwise opaque. */
  datatype IoError<+E> = WouldBlock | Transport(cause: E)

  type IoResult<T, E> = Result<T, IoError<E>>

  /** Where evaluation goes after an expression that may leave the enclosing
      function: on with a value, or out with the value the function returns. */
  datatype Flow<+T, +R> = Continue(value: T) | Return(early: R)

  /** What a driver loop (`read_to_end`, `write_all`, `shutdown` of tokio-io)
      ends with when it is polled until it can make no more progress. */
  datatype Drive<+T, +E> = Finished(value: T) | Failed(error: E) | Stalled

  function Min(a: nat, b: nat): nat
  {
    if a <= b then a else b
  }

  /** A destination buffer of `n` bytes; its initial contents never matter. */
  function Zeros(n: nat): (z: seq<byte>)
    ensures |z| == n
  {
    seq(n, _ => 0 as byte)
  }

  /** The bytes of a sequence of buffers, joined in order. */
  function Concat(bufs: seq<seq<byte>>): seq<byte>
  {
    if |bufs| == 0 then [] else bufs[0] + Concat(bufs[1..])
  }

  lemma {:induction false} ConcatAppend(a: seq<seq<byte>>, b: seq<seq<byte>>)
    ensures Concat(a + b) == Concat(a) + Concat(b)
  {
    if |a| == 0 {
      assert a + b == b;
    } else {
      assert (a + b)[1..] == a[1..] + b;
      ConcatAppend(a[1..], b);
    }
  }

  /** The `?` operator inside a function returning an `IoResult`: a transport
      success continues with its value, a transport error `e` makes the
      function return `Err(From::from(e))` at once. */
  function Try<T, U, E>(x: Result<T, E>): (f: Flow<T, IoResult<U, E>>)
    ensures f.Continue? <==> x.Ok?
    ensures x.Ok? ==> f.value == x.value
    ensures x.Err? ==> f.early == Err(Transport(x.error))
  {
    match x
    case Ok(v) => Continue(v)
    case Err(e) => Return(Err(Transport(e)))
  }

  /** The `async_io!` macro: `Ready(r)` evaluates to `r`, `NotReady` makes the
      enclosing function return `Err(WouldBlock)`. */
  function AsyncIo<T, U, E>(p: Poll<T>): (f: Flow<T, IoResult<U, E>>)
    ensures f.Continue? <==> p.Ready?
    ensures p.Ready? ==> f.value == p.value
    ensures f.Return? ==> f.early == Err(WouldBlock)
  {
    match p
    case Ready(r) => Continue(r)
    case NotReady => Return(Err(WouldBlock))
  }

  /** `async_io!(e?)`, the form `flush` uses. */
  function AsyncIoTry<T, U, E>(x: Result<Poll<T>, E>): Flow<T, IoResult<U, E>>
  {
    match Try(x)
    case Return(early) => Return(early)
    case Continue(p) => AsyncIo(p)
  }

  /** Of the two steps of `async_io!(e?)` only the macro makes a WouldBlock and
      only the `?` passes on a transport error; a ready value goes through
      untouched. */
  lemma AsyncIoTryOutcomes<T, U, E>(x: Result<Poll<T>, E>)
    ensures AsyncIoTry<T, U, E>(x).Continue? <==> x.Ok? && x.value.Ready?
    ensures x.Ok? && x.value.Ready? ==> AsyncIoTry<T, U, E>(x).value == x.value.value
    ensures AsyncIoTry<T, U, E>(x) == Return(Err(WouldBlock)) <==> x == Ok(NotReady)
    ensures x.Err? <==> AsyncIoTry<T, U, E>(x).Return? && AsyncIoTry<T, U, E>(x).early.Err?
                        && AsyncIoTry<T, U, E>(x).early.error.Transport?
    ensures x.Err? ==> AsyncIoTry<T, U, E>(x) == Return(Err(Transport(x.error)))
  {
  }

  // Byte strings of the crate's tests, spelled out in ASCII codes.

  /** "he" */
  const HE: seq<byte> := [0x68, 0x65]
  /** "llo" */
  const LLO: seq<byte> := [0x6c, 0x6c, 0x6f]
  /** " wor" */
  const WOR: seq<byte> := [0x20, 0x77, 0x6f, 0x72]
  /** "ld" */
  const LD: seq<byte> := [0x6c, 0x64]
  /** "hello" */
  const HELLO: seq<byte> := [0x68, 0x65, 0x6c, 0x6c, 0x6f]
  /** " world" */
  const WORLD: seq<byte> := [0x20, 0x77, 0x6f, 0x72, 0x6c, 0x64]
  /** "hello world" */
  const HELLO_WORLD: seq<byte> := [0x68, 0x65, 0x6c, 0x6c, 0x6f, 0x20, 0x77, 0x6f, 0x72, 0x6c, 0x64]
}
