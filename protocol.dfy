/**
  Vocabulary shared by the three RealDB clients: the return codes, the wire
  versions, the 4-byte command tags, the handshake greeting, and the way the
  model stands in for the socket, the clock and the random nonce source.
 */
module Protocol {
  import opened Bytes
  import opened Optional

  /** Status of an operation. ConnectError and Timeout are made up by the client. */
  datatype ReturnCode =
    | Failed | Ok | Timeout | DatetimeError | ArgumentOutOfRange
    | Busy | Null | NotFound | ConnectError

  /** The integer each code has in the `ReturnCode` enumeration. */
  function Value(c: ReturnCode): int
  {
    match c
    case Failed => 0
    case Ok => 1
    case Timeout => 100
    case DatetimeError => 101
    case ArgumentOutOfRange => 102
    case Busy => 200
    case Null => 201
    case NotFound => 255
    case ConnectError => 300
  }

  /** `ReturnCode(v)`: the code with value v, or None where Python raises ValueError. */
  function CodeOf(v: int): (c: Option<ReturnCode>)
    ensures c.Some? ==> Value(c.value) == v
  {
    if v == 0 then Some(Failed)
    else if v == 1 then Some(Ok)
    else if v == 100 then Some(Timeout)
    else if v == 101 then Some(DatetimeError)
    else if v == 102 then Some(ArgumentOutOfRange)
    else if v == 200 then Some(Busy)
    else if v == 201 then Some(Null)
    else if v == 255 then Some(NotFound)
    else if v == 300 then Some(ConnectError)
    else None
  }

  /** Every code is found again from its value, so CodeOf is the inverse of Value. */
  lemma CodeOfValue(c: ReturnCode)
    ensures CodeOf(Value(c)) == Some(c)
  {
  }

  /** The server revision the client talks to (`db_version`); any other number is unsupported. */
  datatype Version = V1 | V2 | V3 | Unsupported(number: int)

  /** The value the random nonce source draws: an unsigned 64-bit integer (`getrandbits(64)`). */
  type Nonce = x: int | 0 <= x < 0x1_0000_0000_0000_0000

  const PING: seq<byte> := [112, 105, 110, 103]
  const TCON: seq<byte> := [116, 99, 111, 110]
  const READ: seq<byte> := [114, 101, 97, 100]
  const WRIT: seq<byte> := [119, 114, 105, 116]
  const STAR: seq<byte> := [83, 84, 65, 82]

  /** What one `recv` call produced: bytes (possibly none), a socket timeout, or another socket error. */
  datatype Recv = Data(bytes: seq<byte>) | RecvTimedOut | RecvFailed

  /**
    One pass of a receive loop: what `recv` produced, and the clock (seconds
    since the loop was entered) read before and after the call.
   */
  datatype Poll = Poll(got: Recv, before: real, after: real)

  /** Every byte delivered by a trace, in order. */
  function Delivered(polls: seq<Poll>): seq<byte>
  {
    if polls == [] then []
    else (if polls[0].got.Data? then polls[0].got.bytes else []) + Delivered(polls[1..])
  }

  /**
    The server side of one connection as the client sees it: the greeting
    (None when connect or the first recv raises) and, for the k-th request
    sent on the connection, the passes of the receive loop that waits for
    its reply.
   */
  datatype Link = Link(greeting: Option<seq<byte>>, replies: nat -> seq<Poll>)

  /** The frames one step wrote to the socket: none when packing raised before `sendall`. */
  function Frames(frame: Option<seq<byte>>): (fs: seq<seq<byte>>)
    ensures frame.Some? ==> fs == [frame.value]
    ensures frame.None? ==> fs == []
  {
    if frame.Some? then [frame.value] else []
  }

  /** The handshake check: the greeting arrived and its first four bytes are `STAR`. */
  predicate Greeted(greeting: Option<seq<byte>>)
  {
    greeting.Some? && |greeting.value| >= 4 && greeting.value[..4] == STAR
  }
}
