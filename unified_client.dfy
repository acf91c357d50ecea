/**
  The operations of the unified client (`PYRealDB` in `py_realdb_sdk.py`):
  `Ping`, `ReadTagConfig`, `ReadData` (through `__mk_a_read_req`) and
  `WriteData`. Each is a method that runs the exchange over a `Link`, proved
  to compute a specification function; the lemmas after each say what the
  outcome promises.

  Inputs stand in for what the client reads from outside: times are already
  whole seconds since 2017-01-01, `nonces(k)` is the k-th 64-bit draw, and
  `link.replies(k)` is what the receive loop meets after the k-th request on
  the connection. Every outcome also reports whether a socket was opened and
  which frames were written to it.
 */
module UnifiedClient {
  import opened Bytes
  import opened Optional
  import opened Arith
  import opened Protocol
  import opened Codec
  import opened Matrix
  import opened Chunking
  import opened Reassembler

  /** The nonce a reply must echo: the one drawn, or 0 for version 1, which sends none. */
  function ExpectedNonce(version: Version, nonce: Nonce): int
  {
    if version.V1? then 0 else nonce
  }

  // ---------------------------------------------------------------- one read request

  /** What one `__mk_a_read_req` call returns, and the frame it wrote (None when packing raised). */
  datatype Round = Round(code: ReturnCode, rows: seq<seq<Sample>>, sent: Option<seq<byte>>)

  /**
    `__mk_a_read_req`: pack the request, receive the reply, pass on a server
    error, refuse a reply with the wrong nonce, then unpack exactly the
    header and n*duration samples and cut them into one row per address.
    A reply of any other size, a negative duration and an empty address list
    (division by zero) all end in FAILED.
   */
  function ReadRound(version: Version, replies: seq<Poll>, nonce: Nonce, timeout: real,
                     addresses: seq<int>, start: int, duration: int): (r: Round)
    ensures r.sent == EncodeRead(version, nonce, start, duration, addresses)
    ensures r.code != Ok ==> r.rows == []
  {
    var n := |addresses|;
    match EncodeRead(version, nonce, start, duration, addresses)
    case None => Round(Failed, [], None)
    case Some(frame) =>
      var rc := Receive(version, timeout, replies);
      if rc.code != Ok then Round(rc.code, [], Some(frame))
      else if rc.nonce != ExpectedNonce(version, nonce) then Round(Failed, [], Some(frame))
      else if duration < 0 || n == 0 then Round(Failed, [], Some(frame))
      else
        match DecodeReadReply(version, n, duration, rc.data)
        case None => Round(Failed, [], Some(frame))
        case Some(vals) => Round(Ok, Flat2Matrix(vals, n), Some(frame))
  }

  /**
    A sub-request is OK exactly when the request packs, the reply is OK and
    echoes the nonce, there is at least one address, and the reply holds
    exactly the header and n*duration samples. Then the rows, one per address
    and `duration` long, laid end to end are the reply's bytes after its header.
   */
  lemma ReadRoundMeans(version: Version, replies: seq<Poll>, nonce: Nonce, timeout: real,
                       addresses: seq<int>, start: int, duration: int)
    ensures var r := ReadRound(version, replies, nonce, timeout, addresses, start, duration);
      var rc := Receive(version, timeout, replies);
      r.code == Ok <==>
        && EncodeRead(version, nonce, start, duration, addresses).Some? && !version.Unsupported?
        && rc.code == Ok && rc.nonce == ExpectedNonce(version, nonce)
        && duration >= 0 && |addresses| > 0
        && |rc.data| == ReadReplyHeaderSize(version) + 4 * (|addresses| * duration)
    ensures var r := ReadRound(version, replies, nonce, timeout, addresses, start, duration);
      r.code == Ok ==>
        var rc := Receive(version, timeout, replies);
        && !version.Unsupported? && duration >= 0
        && rc.code == Ok && rc.nonce == ExpectedNonce(version, nonce)
        && |r.rows| == |addresses| && Rectangular(r.rows, duration)
        && |rc.data| == ReadReplyHeaderSize(version) + 4 * (|addresses| * duration)
        && Unwords(Flatten(r.rows)) == rc.data[ReadReplyHeaderSize(version)..]
  {
    var n := |addresses|;
    var r := ReadRound(version, replies, nonce, timeout, addresses, start, duration);
    if r.code == Ok {
      var rc := Receive(version, timeout, replies);
      var vals := DecodeReadReply(version, n, duration, rc.data).value;
      DivUnique(n * duration, n, duration, 0);
      FlattenFlat2Matrix(vals, n);
    }
  }

  /**
    End to end: a reply frame with an OK code that echoes the nonce and holds
    n*duration samples, delivered in any chunks before the deadline (with a
    version 2 or 3 header never cut after 9 to 16 bytes), makes the
    sub-request OK with those samples as its rows, channel by channel.
   */
  lemma ReadAnswered(version: Version, replies: seq<Poll>, nonce: Nonce, timeout: real,
                     addresses: seq<int>, start: int, duration: int, reply: seq<byte>)
    requires EncodeRead(version, nonce, start, duration, addresses).Some?
    requires |addresses| > 0 && duration >= 0
    requires ReplyFrame(version, reply) && EchoedNonce(version, reply) == ExpectedNonce(version, nonce)
    requires |reply| == ReadReplyHeaderSize(version) + 4 * (|addresses| * duration)
    requires InTime(timeout, replies) && Delivered(replies) == reply && (version.V1? || HeaderNeverShort(0, replies))
    ensures var r := ReadRound(version, replies, nonce, timeout, addresses, start, duration);
      && r.code == Ok && |r.rows| == |addresses| && Rectangular(r.rows, duration)
      && Unwords(Flatten(r.rows)) == reply[ReadReplyHeaderSize(version)..]
  {
    if version.V1? {
      WholeFrameReceivedV1(timeout, reply, replies);
    } else {
      WholeFrameReceived(version, timeout, reply, replies);
    }
    ReadRoundMeans(version, replies, nonce, timeout, addresses, start, duration);
  }

  /** `__mk_a_read_req` over the reply trace of its request. */
  method MakeReadRequest(version: Version, replies: seq<Poll>, nonce: Nonce, timeout: real,
                         addresses: seq<int>, start: int, duration: int)
    returns (code: ReturnCode, mat: seq<seq<Sample>>, sent: Option<seq<byte>>)
    ensures Round(code, mat, sent) == ReadRound(version, replies, nonce, timeout, addresses, start, duration)
  {
    sent := EncodeRead(version, nonce, start, duration, addresses);
    if sent.None? {
      return Failed, [], sent;
    }
    var returnCode, returnNonce, returnData := RecvTimeout(version, timeout, replies);
    if returnCode != Ok {
      return returnCode, [], sent;
    }
    if returnNonce != ExpectedNonce(version, nonce) {
      return Failed, [], sent;
    }
    if duration < 0 {
      return Failed, [], sent;
    }
    var vals := DecodeReadReply(version, |addresses|, duration, returnData);
    if vals.None? || |addresses| == 0 {
      return Failed, [], sent;
    }
    return Ok, Flat2Matrix(vals.value, |addresses|), sent;
  }

  /** A version 1 reply never fails the nonce check: its receive loop reports nonce 0 with OK. */
  lemma V1NonceAlwaysMatches(replies: seq<Poll>, nonce: Nonce, timeout: real)
    ensures Receive(V1, timeout, replies).code == Ok ==> Receive(V1, timeout, replies).nonce == ExpectedNonce(V1, nonce)
  {
    ReceiveSettles(V1, timeout, replies);
  }

  /**
    A sub-request ends in one of OK, FAILED, TIMEOUT, DATETIME_ERROR or
    ARGUMENT_OUT_OF_RANGE; a server error code is passed on even when the
    reply's nonce is wrong, and an OK reply with the wrong nonce is FAILED.
   */
  lemma ReadRoundCodes(version: Version, replies: seq<Poll>, nonce: Nonce, timeout: real,
                       addresses: seq<int>, start: int, duration: int)
    requires EncodeRead(version, nonce, start, duration, addresses).Some?
    ensures ReadRound(version, replies, nonce, timeout, addresses, start, duration).code
              in {Ok, Failed, Timeout, DatetimeError, ArgumentOutOfRange}
    ensures Receive(version, timeout, replies).code != Ok ==>
              ReadRound(version, replies, nonce, timeout, addresses, start, duration).code == Receive(version, timeout, replies).code
    ensures Receive(version, timeout, replies).code == Ok && Receive(version, timeout, replies).nonce != ExpectedNonce(version, nonce) ==>
              ReadRound(version, replies, nonce, timeout, addresses, start, duration).code == Failed
  {
    ReceiveSettles(version, timeout, replies);
  }

  // ---------------------------------------------------------------- ReadData

  /** What `ReadData` returns, whether it opened a socket, and the frames it wrote. */
  datatype ReadOutcome = ReadOutcome(code: ReturnCode, rows: seq<seq<Sample>>, connected: bool, sent: seq<seq<byte>>)

  /**
    The sub-requests still to send, the first of them the k-th on the
    connection, with `acc` the rows gathered so far. The first error ends
    the read with no rows; after the last request its code, OK, is returned.
   */
  function ReadChunks(version: Version, link: Link, nonces: nat -> Nonce, timeout: real, addresses: seq<int>,
                      rest: seq<Chunk>, k: nat, acc: seq<seq<Sample>>, sent: seq<seq<byte>>): ReadOutcome
    decreases |rest|
  {
    if rest == [] then ReadOutcome(Ok, acc, true, sent)
    else
      var r := ReadRound(version, link.replies(k), nonces(k), timeout, addresses, rest[0].start, rest[0].length);
      if r.code != Ok then ReadOutcome(r.code, [], true, sent + Frames(r.sent))
      else ReadChunks(version, link, nonces, timeout, addresses, rest[1..], k + 1, Concat2Matrix(acc, r.rows), sent + Frames(r.sent))
  }

  /** The request loop over `[start, end)` once connected, from one empty row per address. */
  function ReadRange(version: Version, link: Link, nonces: nat -> Nonce, timeout: real,
                     addresses: seq<int>, start: int, end: int): ReadOutcome
  {
    ReadChunks(version, link, nonces, timeout, addresses, Chunks(start, end, UNIFIED_LIMIT), 0, EmptyRows(|addresses|), [])
  }

  /**
    `ReadData` over `[start, start + duration)`. With a zero duration the
    loop runs no request, its code variable is never bound, and the error
    that raises is reported as FAILED.
   */
  function ReadSpec(version: Version, link: Link, nonces: nat -> Nonce, timeout: real,
                    addresses: seq<int>, start: int, duration: int): ReadOutcome
  {
    if start < 0 || duration < 0 then ReadOutcome(Failed, [], false, [])
    else if !Greeted(link.greeting) then ReadOutcome(ConnectError, [], true, [])
    else if duration == 0 then ReadOutcome(Failed, [], true, [])
    else ReadRange(version, link, nonces, timeout, addresses, start, start + duration)
  }

  /** One turn of the request loop: the sub-range at `from`, then the rest from `from + limit`. */
  lemma ReadChunksStep(version: Version, link: Link, nonces: nat -> Nonce, timeout: real, addresses: seq<int>,
                       from: int, end: int, k: nat, acc: seq<seq<Sample>>, sent: seq<seq<byte>>,
                       code: ReturnCode, mat: seq<seq<Sample>>, frame: Option<seq<byte>>)
    requires from < end
    requires Round(code, mat, frame) == ReadRound(version, link.replies(k), nonces(k), timeout, addresses, from, Min(UNIFIED_LIMIT, end - from))
    ensures code != Ok ==>
      ReadChunks(version, link, nonces, timeout, addresses, Chunks(from, end, UNIFIED_LIMIT), k, acc, sent)
      == ReadOutcome(code, [], true, sent + Frames(frame))
    ensures code == Ok ==>
      ReadChunks(version, link, nonces, timeout, addresses, Chunks(from, end, UNIFIED_LIMIT), k, acc, sent)
      == ReadChunks(version, link, nonces, timeout, addresses, Chunks(from + UNIFIED_LIMIT, end, UNIFIED_LIMIT), k + 1,
                    Concat2Matrix(acc, mat), sent + Frames(frame))
  {
    ChunksStep(from, end, UNIFIED_LIMIT);
  }

  /**
    The request loop of `ReadData` over `[start, end)`: one request per
    sub-range of at most 7200 seconds, gathering the rows and stopping at the
    first error. `returnCode` stays unbound (None) when no request is made.
   */
  method RequestLoop(version: Version, link: Link, nonces: nat -> Nonce, timeout: real,
                     addresses: seq<int>, start: int, end: int)
    returns (returnCode: Option<ReturnCode>, rows: seq<seq<Sample>>, sent: seq<seq<byte>>)
    ensures start >= end ==> returnCode == None && rows == EmptyRows(|addresses|) && sent == []
    ensures start < end ==>
      && returnCode.Some?
      && ReadOutcome(returnCode.value, rows, true, sent) == ReadRange(version, link, nonces, timeout, addresses, start, end)
  {
    rows := EmptyRows(|addresses|);
    sent := [];
    returnCode := None;
    var i := start;
    var k: nat := 0;
    while i < end
      invariant (returnCode == None && i == start && rows == EmptyRows(|addresses|) && sent == [])
        || (returnCode == Some(Ok) && start < end)
      invariant ReadChunks(version, link, nonces, timeout, addresses, Chunks(i, end, UNIFIED_LIMIT), k, rows, sent)
                == ReadRange(version, link, nonces, timeout, addresses, start, end)
      decreases end - i
    {
      var c, v, frame := MakeReadRequest(version, link.replies(k), nonces(k), timeout, addresses, i, Min(UNIFIED_LIMIT, end - i));
      ReadChunksStep(version, link, nonces, timeout, addresses, i, end, k, rows, sent, c, v, frame);
      sent := sent + Frames(frame);
      returnCode := Some(c);
      if c != Ok {
        return returnCode, [], sent;
      }
      rows := Concat2Matrix(rows, v);
      i := i + UNIFIED_LIMIT;
      k := k + 1;
    }
  }

  /**
    `ReadData`: refuse a negative range, connect and check the greeting,
    then run the request loop; a loop that made no request leaves the code
    unbound, which is reported as FAILED.
   */
  method ReadData(version: Version, link: Link, nonces: nat -> Nonce, timeout: real,
                  addresses: seq<int>, start: int, duration: int)
    returns (code: ReturnCode, rows: seq<seq<Sample>>, connected: bool, sent: seq<seq<byte>>)
    ensures ReadOutcome(code, rows, connected, sent) == ReadSpec(version, link, nonces, timeout, addresses, start, duration)
  {
    if start < 0 || duration < 0 {
      return Failed, [], false, [];
    }
    if !Greeted(link.greeting) {
      return ConnectError, [], true, [];
    }
    connected := true;
    var returnCode;
    returnCode, rows, sent := RequestLoop(version, link, nonces, timeout, addresses, start, start + duration);
    if returnCode.None? {
      return Failed, [], connected, [];
    }
    code := returnCode.value;
  }

  // ---------------------------------------------------------------- what a read promises

  /**
    The gates before any request: a negative start or duration is refused
    without opening a socket; a failed handshake is CONNECT_ERROR with
    nothing sent; a zero duration sends nothing and ends in FAILED.
   */
  lemma ReadGates(version: Version, link: Link, nonces: nat -> Nonce, timeout: real,
                  addresses: seq<int>, start: int, duration: int)
    ensures start < 0 || duration < 0 ==>
              ReadSpec(version, link, nonces, timeout, addresses, start, duration) == ReadOutcome(Failed, [], false, [])
    ensures start >= 0 && duration >= 0 && !Greeted(link.greeting) ==>
              ReadSpec(version, link, nonces, timeout, addresses, start, duration) == ReadOutcome(ConnectError, [], true, [])
    ensures start >= 0 && duration == 0 && Greeted(link.greeting) ==>
              ReadSpec(version, link, nonces, timeout, addresses, start, duration) == ReadOutcome(Failed, [], true, [])
  {
  }

  /**
    The outcome of every sub-request of a read over `chunks`: the j-th is
    `__mk_a_read_req` with the j-th nonce, on the j-th trace.
   */
  function Rounds(version: Version, link: Link, nonces: nat -> Nonce, timeout: real, addresses: seq<int>,
                  chunks: seq<Chunk>): (rs: seq<Round>)
    ensures |rs| == |chunks|
    ensures forall j :: 0 <= j < |chunks| ==>
              rs[j] == ReadRound(version, link.replies(j), nonces(j), timeout, addresses, chunks[j].start, chunks[j].length)
  {
    seq(|chunks|, j requires 0 <= j < |chunks| =>
                    ReadRound(version, link.replies(j), nonces(j), timeout, addresses, chunks[j].start, chunks[j].length))
  }

  /**
    What holds after k sub-requests all succeeded, `rounds` being the outcome
    of each: they were OK, their frames went out in order, and row i holds
    row i of each of them, one after the other, at the sum of the lengths
    before it.
   */
  predicate Gathered(version: Version, nonces: nat -> Nonce, addresses: seq<int>, chunks: seq<Chunk>,
                     rounds: seq<Round>, k: nat, acc: seq<seq<Sample>>, sent: seq<seq<byte>>)
  {
    && k <= |chunks| == |rounds|
    && |acc| == |addresses| && TotalLength(chunks[..k]) >= 0 && Rectangular(acc, TotalLength(chunks[..k]))
    && |sent| == k
    && (forall j {:trigger sent[j]} :: 0 <= j < k ==>
          && rounds[j].sent == Some(sent[j])
          && EncodeRead(version, nonces(j), chunks[j].start, chunks[j].length, addresses) == Some(sent[j]))
    && (forall j :: 0 <= j < k ==> rounds[j].code == Ok && |rounds[j].rows| == |acc|)
    && (forall j, i {:trigger rounds[j].rows[i]} :: 0 <= j < k && 0 <= i < |acc| ==>
          HoldsAt(acc[i], TotalLength(chunks[..j]), rounds[j].rows[i]))
  }

  /**
    The read stopped at the j-th sub-request: every one before it was OK, the
    j-th ended with `code`, and the frames sent are theirs, in order, with
    nothing after the j-th.
   */
  predicate FailedAt(rounds: seq<Round>, j: nat, code: ReturnCode, sent: seq<seq<byte>>)
  {
    && j < |rounds|
    && (forall m :: 0 <= m < j ==> rounds[m].code == Ok)
    && rounds[j].code == code
    && |sent| == j + |Frames(rounds[j].sent)|
    && forall m :: 0 <= m < |sent| ==> rounds[m].sent == Some(sent[m])
  }

  /** One more successful sub-request keeps the gathered facts. */
  lemma GatherStep(version: Version, nonces: nat -> Nonce, addresses: seq<int>, chunks: seq<Chunk>,
                   rounds: seq<Round>, k: nat, acc: seq<seq<Sample>>, sent: seq<seq<byte>>)
    requires Gathered(version, nonces, addresses, chunks, rounds, k, acc, sent) && k < |chunks| && chunks[k].length >= 0
    requires rounds[k].code == Ok && rounds[k].sent.Some?
    requires rounds[k].sent == EncodeRead(version, nonces(k), chunks[k].start, chunks[k].length, addresses)
    requires |rounds[k].rows| == |addresses| && Rectangular(rounds[k].rows, chunks[k].length)
    ensures Gathered(version, nonces, addresses, chunks, rounds, k + 1,
                     Concat2Matrix(acc, rounds[k].rows), sent + Frames(rounds[k].sent))
  {
    var r := rounds[k];
    var sent' := sent + Frames(r.sent);
    var acc' := Concat2Matrix(acc, r.rows);
    TotalLengthSnoc(chunks, k);
    ConcatRectangular(acc, TotalLength(chunks[..k]), r.rows, chunks[k].length);
    assert |acc'| == |addresses| && Rectangular(acc', TotalLength(chunks[..k + 1]));
    assert |sent'| == k + 1;
    forall j | 0 <= j < k + 1
      ensures rounds[j].sent == Some(sent'[j])
      ensures EncodeRead(version, nonces(j), chunks[j].start, chunks[j].length, addresses) == Some(sent'[j])
    {
      if j < k {
        assert sent'[j] == sent[j];
      } else {
        assert sent'[j] == r.sent.value;
      }
    }
    forall j, i {:trigger rounds[j].rows[i]} | 0 <= j < k + 1 && 0 <= i < |acc'|
      ensures HoldsAt(acc'[i], TotalLength(chunks[..j]), rounds[j].rows[i])
    {
      ConcatRows(acc, r.rows, i);
      HoldsAtAppend(acc[i], r.rows[i]);
      if j == k {
        assert |acc[i]| == TotalLength(chunks[..k]);
      } else {
        assert HoldsAt(acc[i], TotalLength(chunks[..j]), rounds[j].rows[i]);
      }
    }
  }

  /** A failing k-th sub-request after k successful ones stops the read there. */
  lemma FailStep(version: Version, nonces: nat -> Nonce, addresses: seq<int>, chunks: seq<Chunk>,
                 rounds: seq<Round>, k: nat, acc: seq<seq<Sample>>, sent: seq<seq<byte>>)
    requires Gathered(version, nonces, addresses, chunks, rounds, k, acc, sent) && k < |chunks|
    ensures FailedAt(rounds, k, rounds[k].code, sent + Frames(rounds[k].sent))
  {
    var r := rounds[k];
    var sent' := sent + Frames(r.sent);
    forall m | 0 <= m < |sent'|
      ensures rounds[m].sent == Some(sent'[m])
    {
      if m < k {
        assert sent'[m] == sent[m];
      } else {
        assert sent'[m] == r.sent.value;
      }
    }
  }

  /**
    Induction over the sub-requests: an error leaves no rows and names the
    sub-request that failed; success keeps the gathered facts to the end.
   */
  lemma {:induction false} ReadChunksGather(version: Version, link: Link, nonces: nat -> Nonce, timeout: real,
                                            addresses: seq<int>, chunks: seq<Chunk>, rest: seq<Chunk>, k: nat,
                                            acc: seq<seq<Sample>>, sent: seq<seq<byte>>)
    requires k <= |chunks| && rest == chunks[k..]
    requires Gathered(version, nonces, addresses, chunks, Rounds(version, link, nonces, timeout, addresses, chunks), k, acc, sent)
    requires forall j :: 0 <= j < |chunks| ==> chunks[j].length >= 0
    ensures var o := ReadChunks(version, link, nonces, timeout, addresses, rest, k, acc, sent);
      var rounds := Rounds(version, link, nonces, timeout, addresses, chunks);
      && (o.code != Ok ==>
            && o.rows == []
            && exists j :: k <= j < |chunks| && FailedAt(rounds, j, o.code, o.sent))
      && (o.code == Ok ==> Gathered(version, nonces, addresses, chunks, rounds, |chunks|, o.rows, o.sent))
    decreases |rest|
  {
    if k < |chunks| {
      assert rest[0] == chunks[k] && rest[1..] == chunks[k + 1..];
      var rounds := Rounds(version, link, nonces, timeout, addresses, chunks);
      var r := rounds[k];
      assert r == ReadRound(version, link.replies(k), nonces(k), timeout, addresses, chunks[k].start, chunks[k].length);
      ReadRoundMeans(version, link.replies(k), nonces(k), timeout, addresses, chunks[k].start, chunks[k].length);
      if r.code == Ok {
        GatherStep(version, nonces, addresses, chunks, rounds, k, acc, sent);
        ReadChunksGather(version, link, nonces, timeout, addresses, chunks, rest[1..], k + 1, Concat2Matrix(acc, r.rows), sent + Frames(r.sent));
      } else {
        FailStep(version, nonces, addresses, chunks, rounds, k, acc, sent);
      }
    }
  }

  /**
    `ReadData` is all or nothing: any error returns no rows. On OK there is
    one row per address holding `duration` samples, and the frames sent are
    exactly the read requests for the sub-ranges, which lie end to end over
    `[start, start + duration)`, each at most 7200 seconds, each with its own
    nonce and the full address list.
   */
  lemma ReadOutcomeShape(version: Version, link: Link, nonces: nat -> Nonce, timeout: real,
                         addresses: seq<int>, start: int, duration: int)
    ensures var o := ReadSpec(version, link, nonces, timeout, addresses, start, duration);
      && (o.code != Ok ==> o.rows == [])
      && (o.code == Ok ==>
            var chunks := Chunks(start, start + duration, UNIFIED_LIMIT);
            && duration > 0 && Tiles(chunks, start, start + duration)
            && |o.rows| == |addresses| && Rectangular(o.rows, duration)
            && |o.sent| == |chunks|
            && forall j :: 0 <= j < |chunks| ==>
                 chunks[j].length <= UNIFIED_LIMIT
                 && DecodeRead(version, o.sent[j])
                    == Some(ReadRequest(ExpectedNonce(version, nonces(j)), chunks[j].start, chunks[j].length, addresses)))
  {
    if start >= 0 && duration > 0 && Greeted(link.greeting) {
      var o := ReadSpec(version, link, nonces, timeout, addresses, start, duration);
      var chunks := Chunks(start, start + duration, UNIFIED_LIMIT);
      assert o == ReadChunks(version, link, nonces, timeout, addresses, chunks, 0, EmptyRows(|addresses|), []);
      ReadGathered(version, link, nonces, timeout, addresses, start, duration);
      if o.code == Ok {
        GatheredShape(version, nonces, addresses, start, duration, Rounds(version, link, nonces, timeout, addresses, chunks), o.rows, o.sent);
      }
    }
  }

  /**
    On OK every sub-request was OK, and the rows are theirs joined channel by
    channel in the order sent: row i holds row i of the j-th sub-request
    from `chunks[j].start - start` on.
   */
  lemma ReadRowsInOrder(version: Version, link: Link, nonces: nat -> Nonce, timeout: real,
                        addresses: seq<int>, start: int, duration: int)
    ensures var o := ReadSpec(version, link, nonces, timeout, addresses, start, duration);
      var chunks := Chunks(start, start + duration, UNIFIED_LIMIT);
      o.code == Ok ==> InOrder(addresses, chunks, Rounds(version, link, nonces, timeout, addresses, chunks), start, o.rows)
  {
    if start >= 0 && duration > 0 && Greeted(link.greeting) {
      var o := ReadSpec(version, link, nonces, timeout, addresses, start, duration);
      var chunks := Chunks(start, start + duration, UNIFIED_LIMIT);
      assert o == ReadChunks(version, link, nonces, timeout, addresses, chunks, 0, EmptyRows(|addresses|), []);
      ReadChunksInOrder(version, link, nonces, timeout, addresses, start, duration);
    }
  }

  /**
    Once connected, a read that is not OK stops at its first failing
    sub-request: it returns that sub-request's code, every one before it was
    OK, and no frame goes out after it.
   */
  lemma ReadStopsAtFirstError(version: Version, link: Link, nonces: nat -> Nonce, timeout: real,
                              addresses: seq<int>, start: int, duration: int)
    requires start >= 0 && duration > 0 && Greeted(link.greeting)
    ensures var o := ReadSpec(version, link, nonces, timeout, addresses, start, duration);
      var chunks := Chunks(start, start + duration, UNIFIED_LIMIT);
      o.code != Ok ==> exists j :: 0 <= j < |chunks| && FailedAt(Rounds(version, link, nonces, timeout, addresses, chunks), j, o.code, o.sent)
  {
    var chunks := Chunks(start, start + duration, UNIFIED_LIMIT);
    assert ReadSpec(version, link, nonces, timeout, addresses, start, duration) == ReadChunks(version, link, nonces, timeout, addresses, chunks, 0, EmptyRows(|addresses|), []);
    ReadGathered(version, link, nonces, timeout, addresses, start, duration);
  }

  /** Rows and frames gathered over every sub-range of `[start, start + duration)`, read back. */
  lemma GatheredShape(version: Version, nonces: nat -> Nonce, addresses: seq<int>, start: int, duration: int,
                      rounds: seq<Round>, rows: seq<seq<Sample>>, sent: seq<seq<byte>>)
    requires start >= 0 && duration > 0
    requires var chunks := Chunks(start, start + duration, UNIFIED_LIMIT);
      Gathered(version, nonces, addresses, chunks, rounds, |chunks|, rows, sent)
    ensures var chunks := Chunks(start, start + duration, UNIFIED_LIMIT);
      && Tiles(chunks, start, start + duration)
      && |rows| == |addresses| && Rectangular(rows, duration)
      && |sent| == |chunks|
      && (forall j :: 0 <= j < |chunks| ==>
           chunks[j].length <= UNIFIED_LIMIT
           && DecodeRead(version, sent[j])
              == Some(ReadRequest(ExpectedNonce(version, nonces(j)), chunks[j].start, chunks[j].length, addresses)))
  {
    var chunks := Chunks(start, start + duration, UNIFIED_LIMIT);
    ChunksTile(start, start + duration, UNIFIED_LIMIT);
    assert chunks[..|chunks|] == chunks;
    ChunksTotal(start, duration, UNIFIED_LIMIT);
    forall j | 0 <= j < |chunks|
      ensures chunks[j].length <= UNIFIED_LIMIT
      ensures DecodeRead(version, sent[j])
              == Some(ReadRequest(ExpectedNonce(version, nonces(j)), chunks[j].start, chunks[j].length, addresses))
    {
      SentRequest(version, nonces, addresses, start, duration, chunks, sent, j);
    }
  }

  /**
    Every sub-request was OK, `rounds` being the outcome of each, and `rows`
    are theirs joined channel by channel in the order sent: row i holds row i
    of the j-th sub-request from `chunks[j].start - from` on.
   */
  predicate InOrder(addresses: seq<int>, chunks: seq<Chunk>, rounds: seq<Round>, from: int, rows: seq<seq<Sample>>)
  {
    && |rows| == |addresses| && |rounds| == |chunks|
    && (forall j :: 0 <= j < |chunks| ==> rounds[j].code == Ok && |rounds[j].rows| == |addresses|)
    && (forall j, i {:trigger rounds[j].rows[i]} :: 0 <= j < |chunks| && 0 <= i < |addresses| ==>
          HoldsAt(rows[i], chunks[j].start - from, rounds[j].rows[i]))
  }

  /** Rows gathered over sub-ranges that tile `[from, end)` hold each sub-request's rows where its sub-range starts. */
  lemma GatheredRows(version: Version, nonces: nat -> Nonce, addresses: seq<int>, chunks: seq<Chunk>,
                     rounds: seq<Round>, from: int, end: int, rows: seq<seq<Sample>>, sent: seq<seq<byte>>)
    requires Tiles(chunks, from, end) && Gathered(version, nonces, addresses, chunks, rounds, |chunks|, rows, sent)
    ensures InOrder(addresses, chunks, rounds, from, rows)
  {
    assert chunks[..|chunks|] == chunks;
    forall j, i {:trigger rounds[j].rows[i]} | 0 <= j < |chunks| && 0 <= i < |addresses|
      ensures HoldsAt(rows[i], chunks[j].start - from, rounds[j].rows[i])
    {
      TilesOffset(chunks, from, end, j);
      assert HoldsAt(rows[i], TotalLength(chunks[..j]), rounds[j].rows[i]);
    }
  }

  /** `GatheredRows` over the sub-ranges of `[start, start + duration)`. */
  lemma GatheredRowsOver(version: Version, nonces: nat -> Nonce, addresses: seq<int>, start: int, duration: int,
                         rounds: seq<Round>, rows: seq<seq<Sample>>, sent: seq<seq<byte>>)
    requires duration >= 0
    requires var chunks := Chunks(start, start + duration, UNIFIED_LIMIT);
      Gathered(version, nonces, addresses, chunks, rounds, |chunks|, rows, sent)
    ensures InOrder(addresses, Chunks(start, start + duration, UNIFIED_LIMIT), rounds, start, rows)
  {
    ChunksTile(start, start + duration, UNIFIED_LIMIT);
    GatheredRows(version, nonces, addresses, Chunks(start, start + duration, UNIFIED_LIMIT), rounds,
                 start, start + duration, rows, sent);
  }

  lemma SentRequest(version: Version, nonces: nat -> Nonce, addresses: seq<int>, start: int, duration: int,
                    chunks: seq<Chunk>, sent: seq<seq<byte>>, j: nat)
    requires chunks == Chunks(start, start + duration, UNIFIED_LIMIT) && j < |chunks| && |sent| == |chunks|
    requires EncodeRead(version, nonces(j), chunks[j].start, chunks[j].length, addresses) == Some(sent[j])
    ensures chunks[j].length <= UNIFIED_LIMIT
    ensures DecodeRead(version, sent[j])
            == Some(ReadRequest(ExpectedNonce(version, nonces(j)), chunks[j].start, chunks[j].length, addresses))
  {
    ChunkAt(start, start + duration, UNIFIED_LIMIT, j);
    ReadRoundTrip(version, nonces(j), chunks[j].start, chunks[j].length, addresses);
  }

  lemma ReadGathered(version: Version, link: Link, nonces: nat -> Nonce, timeout: real,
                     addresses: seq<int>, start: int, duration: int)
    requires start >= 0 && duration >= 0
    ensures var chunks := Chunks(start, start + duration, UNIFIED_LIMIT);
      var o := ReadChunks(version, link, nonces, timeout, addresses, chunks, 0, EmptyRows(|addresses|), []);
      var rounds := Rounds(version, link, nonces, timeout, addresses, chunks);
      && (o.code != Ok ==>
            && o.rows == []
            && exists j :: 0 <= j < |chunks| && FailedAt(rounds, j, o.code, o.sent))
      && (o.code == Ok ==> Gathered(version, nonces, addresses, chunks, rounds, |chunks|, o.rows, o.sent))
  {
    var chunks := Chunks(start, start + duration, UNIFIED_LIMIT);
    ChunksTile(start, start + duration, UNIFIED_LIMIT);
    TilesBounds(chunks, start, start + duration);
    assert chunks[..0] == [] && chunks[0..] == chunks;
    assert Gathered(version, nonces, addresses, chunks, Rounds(version, link, nonces, timeout, addresses, chunks), 0, EmptyRows(|addresses|), []);
    ReadChunksGather(version, link, nonces, timeout, addresses, chunks, chunks, 0, EmptyRows(|addresses|), []);
  }

  /** The rows of a successful request loop hold each sub-request's rows where its sub-range starts. */
  lemma ReadChunksInOrder(version: Version, link: Link, nonces: nat -> Nonce, timeout: real,
                          addresses: seq<int>, start: int, duration: int)
    requires start >= 0 && duration >= 0
    ensures var chunks := Chunks(start, start + duration, UNIFIED_LIMIT);
      var o := ReadChunks(version, link, nonces, timeout, addresses, chunks, 0, EmptyRows(|addresses|), []);
      o.code == Ok ==> InOrder(addresses, chunks, Rounds(version, link, nonces, timeout, addresses, chunks), start, o.rows)
  {
    var chunks := Chunks(start, start + duration, UNIFIED_LIMIT);
    var o := ReadChunks(version, link, nonces, timeout, addresses, chunks, 0, EmptyRows(|addresses|), []);
    ReadGathered(version, link, nonces, timeout, addresses, start, duration);
    if o.code == Ok {
      GatheredRowsOver(version, nonces, addresses, start, duration, Rounds(version, link, nonces, timeout, addresses, chunks), o.rows, o.sent);
    }
  }

  /**
    A read that fits one request returns the reply's samples channel by
    channel: laid end to end, the rows are the reply's bytes after its header.
   */
  lemma SingleRequestRows(version: Version, link: Link, nonces: nat -> Nonce, timeout: real,
                          addresses: seq<int>, start: int, duration: int)
    requires 0 <= start && 0 < duration <= UNIFIED_LIMIT
    ensures var o := ReadSpec(version, link, nonces, timeout, addresses, start, duration);
      o.code == Ok ==>
        && !version.Unsupported?
        && Unwords(Flatten(o.rows)) == Receive(version, timeout, link.replies(0)).data[ReadReplyHeaderSize(version)..]
  {
    var r := ReadRound(version, link.replies(0), nonces(0), timeout, addresses, start, duration);
    ReadRoundMeans(version, link.replies(0), nonces(0), timeout, addresses, start, duration);
    var o := ReadSpec(version, link, nonces, timeout, addresses, start, duration);
    if Greeted(link.greeting) && r.code == Ok {
      assert o == ReadChunks(version, link, nonces, timeout, addresses, Chunks(start, start + duration, UNIFIED_LIMIT), 0,
                             EmptyRows(|addresses|), []);
      ReadChunksStep(version, link, nonces, timeout, addresses, start, start + duration, 0, EmptyRows(|addresses|), [],
                     r.code, r.rows, r.sent);
      assert Chunks(start + UNIFIED_LIMIT, start + duration, UNIFIED_LIMIT) == [];
      ConcatOntoEmpty(r.rows);
      assert o.rows == r.rows;
    }
  }

  // ---------------------------------------------------------------- WriteData

  /** What `WriteData` returns, whether it opened a socket, and the frame it wrote. */
  datatype WriteOutcome = WriteOutcome(code: ReturnCode, connected: bool, sent: Option<seq<byte>>)

  /**
    `WriteData`: mismatched lists are refused before connecting; after the
    handshake the pairs are packed for the server version; version 1 waits
    for no reply, the others take the reply's code and refuse an OK reply
    with the wrong nonce.
   */
  function WriteSpec(version: Version, link: Link, nonce: Nonce, timeout: real, writeTime: int,
                     addresses: seq<int>, values: seq<Sample>): WriteOutcome
  {
    if |addresses| != |values| then WriteOutcome(Failed, false, None)
    else if !Greeted(link.greeting) then WriteOutcome(ConnectError, true, None)
    else
      match EncodeWrite(version, nonce, writeTime, addresses, values)
      case None => WriteOutcome(Failed, true, None)
      case Some(frame) =>
        if version.V1? then WriteOutcome(Ok, true, Some(frame))
        else
          var rc := Receive(version, timeout, link.replies(0));
          WriteOutcome(if rc.code == Ok && rc.nonce != nonce then Failed else rc.code, true, Some(frame))
  }

  method WriteData(version: Version, link: Link, nonce: Nonce, timeout: real, writeTime: int,
                   addresses: seq<int>, values: seq<Sample>)
    returns (code: ReturnCode, connected: bool, sent: Option<seq<byte>>)
    ensures WriteOutcome(code, connected, sent) == WriteSpec(version, link, nonce, timeout, writeTime, addresses, values)
  {
    if |addresses| != |values| {
      return Failed, false, None;
    }
    connected := true;
    if !Greeted(link.greeting) {
      return ConnectError, connected, None;
    }
    sent := EncodeWrite(version, nonce, writeTime, addresses, values);
    if sent.None? {
      return Failed, connected, sent;
    }
    if version.V1? {
      code := Ok;
    } else {
      var returnNonce, data;
      code, returnNonce, data := RecvTimeout(version, timeout, link.replies(0));
      if code == Ok && returnNonce != nonce {
        code := Failed;
      }
    }
  }

  /**
    Mismatched lists are FAILED before connecting and a failed handshake is
    CONNECT_ERROR with nothing sent. A write is OK exactly when the lists
    match, the handshake succeeds, the frame packs and, from version 2 on,
    the server's reply is OK and echoes the nonce; version 1 waits for no
    reply. The frame sent carries exactly the given pairs (and, from version
    2 on, the nonce and write time). A server error is passed on.
   */
  lemma WriteOutcomeMeans(version: Version, link: Link, nonce: Nonce, timeout: real, writeTime: int,
                          addresses: seq<int>, values: seq<Sample>)
    ensures var o := WriteSpec(version, link, nonce, timeout, writeTime, addresses, values);
      && (|addresses| != |values| ==> o == WriteOutcome(Failed, false, None))
      && (|addresses| == |values| && !Greeted(link.greeting) ==> o == WriteOutcome(ConnectError, true, None))
      && (o.code == Ok <==>
            && |addresses| == |values| && Greeted(link.greeting)
            && EncodeWrite(version, nonce, writeTime, addresses, values).Some?
            && (version.V1? || (Receive(version, timeout, link.replies(0)).code == Ok
                                && Receive(version, timeout, link.replies(0)).nonce == nonce)))
      && (|addresses| == |values| && Greeted(link.greeting) && !version.V1?
          && EncodeWrite(version, nonce, writeTime, addresses, values).Some?
          && Receive(version, timeout, link.replies(0)).code != Ok ==>
            o.code == Receive(version, timeout, link.replies(0)).code)
      && (o.code == Ok ==>
            && |addresses| == |values| && Greeted(link.greeting) && o.sent.Some?
            && DecodeWrite(version, o.sent.value)
               == Some(if version.V1? then WriteRequest(0, 0, addresses, values)
                       else WriteRequest(nonce, writeTime, addresses, values))
            && (!version.V1? ==> Receive(version, timeout, link.replies(0)).nonce == nonce))
      && ((version.V1? && |addresses| == |values| && Greeted(link.greeting)
            && EncodeWrite(version, nonce, writeTime, addresses, values).Some?) ==> o.code == Ok)
      && o.code !in {Busy, Null, NotFound}
  {
    if |addresses| == |values| && EncodeWrite(version, nonce, writeTime, addresses, values).Some? {
      WriteRoundTrip(version, nonce, writeTime, addresses, values);
    }
    ReceiveSettles(version, timeout, link.replies(0));
  }

  /**
    End to end: a version 2 or 3 write whose frame packs, answered by an OK
    frame echoing the nonce in any chunks before the deadline, is OK.
   */
  lemma WriteAnswered(version: Version, link: Link, nonce: Nonce, timeout: real, writeTime: int,
                      addresses: seq<int>, values: seq<Sample>, reply: seq<byte>)
    requires version == V2 || version == V3
    requires |addresses| == |values| && Greeted(link.greeting)
    requires EncodeWrite(version, nonce, writeTime, addresses, values).Some?
    requires ReplyFrame(version, reply) && DecodeUnsigned(reply[8..16]) == nonce
    requires InTime(timeout, link.replies(0)) && Delivered(link.replies(0)) == reply && HeaderNeverShort(0, link.replies(0))
    ensures WriteSpec(version, link, nonce, timeout, writeTime, addresses, values)
            == WriteOutcome(Ok, true, EncodeWrite(version, nonce, writeTime, addresses, values))
  {
    WholeFrameReceived(version, timeout, reply, link.replies(0));
  }

  // ---------------------------------------------------------------- Ping and ReadTagConfig

  /** What `Ping` returns (the server clock in milliseconds on OK) and the frame it wrote. */
  datatype PingOutcome = PingOutcome(code: ReturnCode, millis: Option<int>, sent: Option<seq<byte>>)

  /**
    `Ping`: after the handshake only version 3 is served; the reply must
    carry OK and the nonce, and be exactly the 25-byte `=4siQbq` layout.
   */
  function PingSpec(version: Version, link: Link, nonce: Nonce, timeout: real): PingOutcome
  {
    if !Greeted(link.greeting) then PingOutcome(ConnectError, None, None)
    else if !version.V3? then PingOutcome(Failed, None, None)
    else
      var frame := EncodeCommand(PING, nonce);
      var rc := Receive(V3, timeout, link.replies(0));
      if rc.code != Ok then PingOutcome(rc.code, None, Some(frame))
      else if rc.nonce != nonce then PingOutcome(Failed, None, Some(frame))
      else
        match DecodePingReply(rc.data)
        case None => PingOutcome(Failed, None, Some(frame))
        case Some(ms) => PingOutcome(Ok, Some(ms), Some(frame))
  }

  method Ping(version: Version, link: Link, nonce: Nonce, timeout: real)
    returns (code: ReturnCode, millis: Option<int>, sent: Option<seq<byte>>)
    ensures PingOutcome(code, millis, sent) == PingSpec(version, link, nonce, timeout)
  {
    if !Greeted(link.greeting) {
      return ConnectError, None, None;
    }
    if !version.V3? {
      return Failed, None, None;
    }
    sent := Some(EncodeCommand(PING, nonce));
    var returnNonce, data;
    code, returnNonce, data := RecvTimeout(V3, timeout, link.replies(0));
    if code != Ok {
      return code, None, sent;
    }
    if returnNonce != nonce {
      return Failed, None, sent;
    }
    millis := DecodePingReply(data);
    if millis.None? {
      return Failed, None, sent;
    }
  }

  /**
    A failed handshake is CONNECT_ERROR and a server version other than 3
    FAILED, both with nothing sent. A ping is OK exactly when the handshake
    succeeds, the server is version 3, and the reply is OK, echoes the nonce
    and is 25 bytes long; then the request was a well-framed 24-byte `ping`
    frame with the nonce, and the result is the clock in the reply's last
    eight bytes. A server error is passed on.
   */
  lemma PingOutcomeMeans(version: Version, link: Link, nonce: Nonce, timeout: real)
    ensures !Greeted(link.greeting) ==> PingSpec(version, link, nonce, timeout) == PingOutcome(ConnectError, None, None)
    ensures Greeted(link.greeting) && !version.V3? ==> PingSpec(version, link, nonce, timeout) == PingOutcome(Failed, None, None)
    ensures var o := PingSpec(version, link, nonce, timeout);
      var rc := Receive(V3, timeout, link.replies(0));
      && (o.code == Ok <==> Greeted(link.greeting) && version.V3? && rc.code == Ok && rc.nonce == nonce && |rc.data| == 25)
      && (Greeted(link.greeting) && version.V3? && rc.code != Ok ==> o.code == rc.code)
    ensures var o := PingSpec(version, link, nonce, timeout);
      o.code == Ok ==>
        var rc := Receive(V3, timeout, link.replies(0));
        && version == V3 && o.sent.Some? && |o.sent.value| == 24 && WellFramed(o.sent.value)
        && DecodeCommand(o.sent.value) == Some((PING, nonce))
        && |rc.data| == 25 && rc.data[16] == 1 && rc.nonce == nonce
        && o.millis == Some(DecodeSigned(rc.data[17..25]))
  {
    CommandRoundTrip(PING, nonce);
    ReceiveSettles(V3, timeout, link.replies(0));
  }

  /**
    End to end: a version 3 server that answers with a 25-byte OK frame
    echoing the nonce, in any chunks before the deadline, gets the ping back
    OK with the clock the frame carries.
   */
  lemma PingAnswered(link: Link, nonce: Nonce, timeout: real, reply: seq<byte>)
    requires Greeted(link.greeting)
    requires ReplyFrame(V3, reply) && |reply| == 25 && DecodeUnsigned(reply[8..16]) == nonce
    requires InTime(timeout, link.replies(0)) && Delivered(link.replies(0)) == reply && HeaderNeverShort(0, link.replies(0))
    ensures PingSpec(V3, link, nonce, timeout)
            == PingOutcome(Ok, Some(DecodeSigned(reply[17..25])), Some(EncodeCommand(PING, nonce)))
  {
    WholeFrameReceived(V3, timeout, reply, link.replies(0));
  }

  /** What `ReadTagConfig` returns: on OK the CSV text of the tag table, as bytes. */
  datatype TagConfigOutcome = TagConfigOutcome(code: ReturnCode, csv: seq<byte>, sent: Option<seq<byte>>)

  function TagConfigSpec(version: Version, link: Link, nonce: Nonce, timeout: real): TagConfigOutcome
  {
    if !Greeted(link.greeting) then TagConfigOutcome(ConnectError, [], None)
    else if !version.V3? then TagConfigOutcome(Failed, [], None)
    else
      var frame := EncodeCommand(TCON, nonce);
      var rc := Receive(V3, timeout, link.replies(0));
      if rc.code != Ok then TagConfigOutcome(rc.code, [], Some(frame))
      else if rc.nonce != nonce then TagConfigOutcome(Failed, [], Some(frame))
      else TagConfigOutcome(Ok, TagConfigText(rc.data), Some(frame))
  }

  method ReadTagConfig(version: Version, link: Link, nonce: Nonce, timeout: real)
    returns (code: ReturnCode, csv: seq<byte>, sent: Option<seq<byte>>)
    ensures TagConfigOutcome(code, csv, sent) == TagConfigSpec(version, link, nonce, timeout)
  {
    if !Greeted(link.greeting) {
      return ConnectError, [], None;
    }
    if !version.V3? {
      return Failed, [], None;
    }
    sent := Some(EncodeCommand(TCON, nonce));
    var returnNonce, data;
    code, returnNonce, data := RecvTimeout(V3, timeout, link.replies(0));
    if code != Ok {
      return code, [], sent;
    }
    if returnNonce != nonce {
      return Failed, [], sent;
    }
    csv := TagConfigText(data);
  }

  /**
    A failed handshake is CONNECT_ERROR and a server version other than 3
    FAILED, both with nothing sent. A tag-table read is OK exactly when the
    handshake succeeds, the server is version 3, and the reply is OK and
    echoes the nonce; then it sent a `tcon` request with the nonce, and
    returns what follows the reply's 17-byte header, less a leading
    byte-order mark. A server error is passed on.
   */
  lemma TagConfigOutcomeMeans(version: Version, link: Link, nonce: Nonce, timeout: real)
    ensures !Greeted(link.greeting) ==> TagConfigSpec(version, link, nonce, timeout) == TagConfigOutcome(ConnectError, [], None)
    ensures Greeted(link.greeting) && !version.V3? ==> TagConfigSpec(version, link, nonce, timeout) == TagConfigOutcome(Failed, [], None)
    ensures var o := TagConfigSpec(version, link, nonce, timeout);
      var rc := Receive(V3, timeout, link.replies(0));
      && (o.code == Ok <==> Greeted(link.greeting) && version.V3? && rc.code == Ok && rc.nonce == nonce)
      && (Greeted(link.greeting) && version.V3? && rc.code != Ok ==> o.code == rc.code)
    ensures var o := TagConfigSpec(version, link, nonce, timeout);
      o.code == Ok ==>
        var rc := Receive(V3, timeout, link.replies(0));
        && version == V3 && o.sent.Some? && DecodeCommand(o.sent.value) == Some((TCON, nonce))
        && |rc.data| >= 17 && rc.data[16] == 1 && rc.nonce == nonce
        && (o.csv == rc.data[17..] || (rc.data[17..20] == BOM && o.csv == rc.data[20..]))
  {
    CommandRoundTrip(TCON, nonce);
    ReceiveSettles(V3, timeout, link.replies(0));
  }

  /**
    End to end: a version 3 server that answers with an OK frame echoing the
    nonce whose body is the CSV text, with or without a byte-order mark before
    it, in any chunks before the deadline, gets that text back.
   */
  lemma TagConfigAnswered(link: Link, nonce: Nonce, timeout: real, header: seq<byte>, mark: bool, text: seq<byte>,
                          polls: seq<Poll>)
    requires Greeted(link.greeting) && link.replies(0) == polls
    requires |header| == 17 && (|text| < 3 || text[..3] != BOM)
    requires var reply := header + (if mark then BOM else []) + text;
      ReplyFrame(V3, reply) && DecodeUnsigned(reply[8..16]) == nonce
      && InTime(timeout, polls) && Delivered(polls) == reply && HeaderNeverShort(0, polls)
    ensures TagConfigSpec(V3, link, nonce, timeout) == TagConfigOutcome(Ok, text, Some(EncodeCommand(TCON, nonce)))
  {
    var reply := header + (if mark then BOM else []) + text;
    WholeFrameReceived(V3, timeout, reply, polls);
    TagConfigTextRoundTrip(header, text);
    if mark {
      assert reply == header + BOM + text;
    } else {
      assert reply == header + text;
    }
  }
}
