/**
  `ReadData` and `__mk_a_read_req` of the two legacy clients, as functions.
  The clients differ only in their dialect: the version 3 style client
  (`py_realdb_sdk2.py`) asks for at most 7200 seconds per request in the
  binary layout and reads a 16-byte reply header; the version 1 client
  (`py_realdb_sdk1.py`) asks for at most 300 seconds per request in the text
  layout and reads an 8-byte header. Neither checks a nonce or a return code
  in the reply, and neither checks the handshake greeting.
 */
module LegacyRead {
  import opened Bytes
  import opened Optional
  import opened Arith
  import opened Protocol
  import opened Codec
  import opened Matrix
  import opened Chunking
  import opened LegacyReassembler
  import opened LegacyCommon
  import LegacyV3Codec

  datatype Dialect = V3Style | V1Style

  /** Seconds per sub-request (`PYREALDB_NUMPERREQ`). */
  function Limit(d: Dialect): (l: nat)
    ensures l > 0
  {
    match d
    case V3Style => LEGACY_V3_LIMIT
    case V1Style => LEGACY_V1_LIMIT
  }

  /** The header the receive loop unpacks to learn the frame length: `4siq` or `4si`. */
  function HeaderSize(d: Dialect): (h: nat)
    ensures h >= 8
  {
    match d
    case V3Style => 16
    case V1Style => 8
  }

  /** The reply layout: `=4siq3c` (19 bytes before the samples) or `4si` (8 bytes). */
  function ReplyLayout(d: Dialect): (v: Version)
    ensures !v.Unsupported? && ReadReplyHeaderSize(v) >= 8
  {
    match d
    case V3Style => V3
    case V1Style => V1
  }

  /** The receive loop is always called with its default timeout of two seconds. */
  const TIMEOUT: real := 2.0

  /** The request a sub-range is packed into; None where `struct.pack` raises. */
  function EncodeRequest(d: Dialect, start: int, duration: int, addresses: seq<int>): Option<seq<byte>>
  {
    match d
    case V3Style => LegacyV3Codec.EncodeRead(start, duration, addresses)
    case V1Style => Codec.EncodeRead(V1, 0, start, duration, addresses)
  }

  /**
    The legacy `s_duration`: the limit, cut short when the sub-range would
    pass the end. It is the `min` the unified client writes.
   */
  function SubDuration(i: int, end: int, limit: nat): (s: int)
    ensures s == Min(limit, end - i)
  {
    if i + limit > end then end - i else limit
  }

  /**
    `__mk_a_read_req`: pack and send the request, wait for the reply, and
    unpack exactly the header and n*duration samples into one row per
    address. A timed-out reply is S_FAIL; a reply of any other size, a
    negative duration or an empty address list raises. The `else` branch
    for an empty reply cannot be taken: without the time-out flag the buffer
    holds a whole frame.
   */
  function ReadRound(d: Dialect, replies: seq<Poll>, addresses: seq<int>, start: int, duration: int): (r: Round)
    ensures r.sent == EncodeRequest(d, start, duration, addresses)
    ensures r.ending != Returned(SOk) ==> r.rows == []
  {
    var n := |addresses|;
    match EncodeRequest(d, start, duration, addresses)
    case None => Round(Raised, [], None)
    case Some(frame) =>
      var o := Receive(HeaderSize(d), TIMEOUT, replies);
      if o.timedOut then Round(Returned(SFail), [], Some(frame))
      else if o.data == [] then Round(Returned(SFail), [], Some(frame))
      else if duration < 0 || n == 0 then Round(Raised, [], Some(frame))
      else
        match DecodeReadReply(ReplyLayout(d), n, duration, o.data)
        case None => Round(Raised, [], Some(frame))
        case Some(vals) => Round(Returned(SOk), Flat2Matrix(vals, n), Some(frame))
  }

  /**
    S_FAIL means the reply timed out. S_OK means the reply came in time
    holding exactly the header and n*duration samples; the rows, one per
    address and `duration` long, laid end to end are the reply's bytes after
    its header.
   */
  lemma ReadRoundMeans(d: Dialect, replies: seq<Poll>, addresses: seq<int>, start: int, duration: int)
    ensures var r := ReadRound(d, replies, addresses, start, duration);
      r.ending == Returned(SFail) ==> Receive(HeaderSize(d), TIMEOUT, replies).timedOut
    ensures var r := ReadRound(d, replies, addresses, start, duration);
      r.ending == Returned(SOk) ==>
        var o := Receive(HeaderSize(d), TIMEOUT, replies);
        && !o.timedOut && duration >= 0
        && |r.rows| == |addresses| && Rectangular(r.rows, duration)
        && |o.data| == ReadReplyHeaderSize(ReplyLayout(d)) + 4 * (|addresses| * duration)
        && Unwords(Flatten(r.rows)) == o.data[ReadReplyHeaderSize(ReplyLayout(d))..]
  {
    var n := |addresses|;
    var r := ReadRound(d, replies, addresses, start, duration);
    var o := Receive(HeaderSize(d), TIMEOUT, replies);
    ReceiveFramed(HeaderSize(d), TIMEOUT, replies);
    if r.ending == Returned(SOk) {
      var vals := DecodeReadReply(ReplyLayout(d), n, duration, o.data).value;
      DivUnique(n * duration, n, duration, 0);
      FlattenFlat2Matrix(vals, n);
    }
  }

  /**
    The reply's code bytes are never looked at: a reply of the right size
    that arrives in time is S_OK whatever its code, nonce or header say.
   */
  lemma ReplyCodeIgnored(d: Dialect, replies: seq<Poll>, addresses: seq<int>, start: int, duration: int)
    requires EncodeRequest(d, start, duration, addresses).Some? && |addresses| > 0 && duration >= 0
    requires !Receive(HeaderSize(d), TIMEOUT, replies).timedOut
    requires |Receive(HeaderSize(d), TIMEOUT, replies).data| == ReadReplyHeaderSize(ReplyLayout(d)) + 4 * (|addresses| * duration)
    ensures ReadRound(d, replies, addresses, start, duration).ending == Returned(SOk)
  {
    var o := Receive(HeaderSize(d), TIMEOUT, replies);
    assert o.data != [];
    assert DecodeReadReply(ReplyLayout(d), |addresses|, duration, o.data).Some?;
  }

  // ---------------------------------------------------------------- ReadData

  /** The sub-requests from the k-th on; `acc` is `ret_data`, extended in place after each. */
  function ReadChunks(d: Dialect, link: Link, addresses: seq<int>, chunks: seq<Chunk>, k: nat,
                      acc: seq<seq<Sample>>, sent: seq<seq<byte>>): ReadOutcome
    requires k <= |chunks|
    decreases |chunks| - k
  {
    if k == |chunks| then ReadOutcome(Returned(SOk), acc, true, sent)
    else
      var r := ReadRound(d, link.replies(k), addresses, chunks[k].start, chunks[k].length);
      if r.ending != Returned(SOk) then ReadOutcome(r.ending, [], true, sent + Frames(r.sent))
      else ReadChunks(d, link, addresses, chunks, k + 1, Concat2Matrix(acc, r.rows), sent + Frames(r.sent))
  }

  /** One turn of the request loop: an error ends the read, S_OK moves on to the next sub-range. */
  lemma ReadChunksStep(d: Dialect, link: Link, addresses: seq<int>, chunks: seq<Chunk>, k: nat,
                       acc: seq<seq<Sample>>, sent: seq<seq<byte>>, ending: Ending, mat: seq<seq<Sample>>, frame: Option<seq<byte>>)
    requires k < |chunks|
    requires Round(ending, mat, frame) == ReadRound(d, link.replies(k), addresses, chunks[k].start, chunks[k].length)
    ensures ending != Returned(SOk) ==>
      ReadChunks(d, link, addresses, chunks, k, acc, sent) == ReadOutcome(ending, [], true, sent + Frames(frame))
    ensures ending == Returned(SOk) ==>
      ReadChunks(d, link, addresses, chunks, k, acc, sent)
      == ReadChunks(d, link, addresses, chunks, k + 1, Concat2Matrix(acc, mat), sent + Frames(frame))
  {
  }

  /** The request loop over `[start, end)` once connected: `ret_data` starts as one empty row per address. */
  function ReadRange(d: Dialect, link: Link, addresses: seq<int>, start: int, end: int): ReadOutcome
  {
    ReadChunks(d, link, addresses, Chunks(start, end, Limit(d)), 0, EmptyRows(|addresses|), [])
  }

  /**
    `ReadData` over `[start, start + duration)`: a negative start or
    duration is S_FAIL before connecting; a failed connect raises; the
    greeting is read and ignored.
   */
  function ReadSpec(d: Dialect, link: Link, addresses: seq<int>, start: int, duration: int): ReadOutcome
  {
    if start < 0 || duration < 0 then ReadOutcome(Returned(SFail), [], false, [])
    else if link.greeting.None? then ReadOutcome(Raised, [], true, [])
    else ReadRange(d, link, addresses, start, start + duration)
  }

  /**
    Unlike the unified client, a zero duration is S_OK with one empty row
    per address, and nothing is sent; so is any greeting, even one that is
    not `STAR`.
   */
  lemma ZeroDurationIsOk(d: Dialect, link: Link, addresses: seq<int>, start: int)
    requires start >= 0 && link.greeting.Some?
    ensures ReadSpec(d, link, addresses, start, 0) == ReadOutcome(Returned(SOk), EmptyRows(|addresses|), true, [])
  {
    assert Chunks(start, start + 0, Limit(d)) == [];
  }

  /** The outcome of every sub-request of a read over `chunks`, the j-th on the j-th trace. */
  function Rounds(d: Dialect, link: Link, addresses: seq<int>, chunks: seq<Chunk>): (rs: seq<Round>)
    ensures |rs| == |chunks|
    ensures forall j :: 0 <= j < |chunks| ==>
              rs[j] == ReadRound(d, link.replies(j), addresses, chunks[j].start, chunks[j].length)
  {
    seq(|chunks|, j requires 0 <= j < |chunks| => ReadRound(d, link.replies(j), addresses, chunks[j].start, chunks[j].length))
  }

  /**
    What holds after k sub-requests all returned S_OK, `rounds` being the
    outcome of each: their frames went out in order, and row i of `ret_data`
    holds row i of each of them, one after the other, at the sum of the
    lengths before it.
   */
  predicate Gathered(d: Dialect, addresses: seq<int>, chunks: seq<Chunk>, rounds: seq<Round>, k: nat,
                     acc: seq<seq<Sample>>, sent: seq<seq<byte>>)
  {
    && k <= |chunks| == |rounds|
    && |acc| == |addresses| && TotalLength(chunks[..k]) >= 0 && Rectangular(acc, TotalLength(chunks[..k]))
    && |sent| == k
    && (forall j {:trigger sent[j]} :: 0 <= j < k ==>
          && rounds[j].sent == Some(sent[j])
          && EncodeRequest(d, chunks[j].start, chunks[j].length, addresses) == Some(sent[j]))
    && (forall j :: 0 <= j < k ==> rounds[j].ending == Returned(SOk) && |rounds[j].rows| == |acc|)
    && (forall j, i {:trigger rounds[j].rows[i]} :: 0 <= j < k && 0 <= i < |acc| ==>
          HoldsAt(acc[i], TotalLength(chunks[..j]), rounds[j].rows[i]))
  }

  /**
    The read stopped at the j-th sub-request: every one before it returned
    S_OK, the j-th ended with `ending`, and the frames sent are theirs, in
    order, with nothing after the j-th.
   */
  predicate FailedAt(rounds: seq<Round>, j: nat, ending: Ending, sent: seq<seq<byte>>)
  {
    && j < |rounds|
    && (forall m :: 0 <= m < j ==> rounds[m].ending == Returned(SOk))
    && rounds[j].ending == ending
    && |sent| == j + |Frames(rounds[j].sent)|
    && forall m :: 0 <= m < |sent| ==> rounds[m].sent == Some(sent[m])
  }

  /** One more sub-request that returned S_OK keeps the gathered facts. */
  lemma GatherStep(d: Dialect, addresses: seq<int>, chunks: seq<Chunk>, rounds: seq<Round>, k: nat,
                   acc: seq<seq<Sample>>, sent: seq<seq<byte>>)
    requires Gathered(d, addresses, chunks, rounds, k, acc, sent) && k < |chunks| && chunks[k].length >= 0
    requires rounds[k].ending == Returned(SOk) && rounds[k].sent.Some?
    requires rounds[k].sent == EncodeRequest(d, chunks[k].start, chunks[k].length, addresses)
    requires |rounds[k].rows| == |addresses| && Rectangular(rounds[k].rows, chunks[k].length)
    ensures Gathered(d, addresses, chunks, rounds, k + 1, Concat2Matrix(acc, rounds[k].rows), sent + Frames(rounds[k].sent))
  {
    var r := rounds[k];
    var sent' := sent + Frames(r.sent);
    var acc' := Concat2Matrix(acc, r.rows);
    TotalLengthSnoc(chunks, k);
    ConcatRectangular(acc, TotalLength(chunks[..k]), r.rows, chunks[k].length);
    assert |acc'| == |addresses| && Rectangular(acc', TotalLength(chunks[..k + 1]));
    assert |sent'| == k + 1;
    forall j | 0 <= j < k + 1
      ensures rounds[j].sent == Some(sent'[j])
      ensures EncodeRequest(d, chunks[j].start, chunks[j].length, addresses) == Some(sent'[j])
    {
      if j < k {
        assert sent'[j] == sent[j];
      } else {
        assert sent'[j] == r.sent.value;
      }
    }
    forall j, i {:trigger rounds[j].rows[i]} | 0 <= j < k + 1 && 0 <= i < |acc'|
      ensures HoldsAt(acc'[i], TotalLength(chunks[..j]), rounds[j].rows[i])
    {
      ConcatRows(acc, r.rows, i);
      HoldsAtAppend(acc[i], r.rows[i]);
      if j == k {
        assert |acc[i]| == TotalLength(chunks[..k]);
      } else {
        assert HoldsAt(acc[i], TotalLength(chunks[..j]), rounds[j].rows[i]);
      }
    }
  }

  /** A k-th sub-request that is not S_OK after k that were stops the read there. */
  lemma FailStep(d: Dialect, addresses: seq<int>, chunks: seq<Chunk>, rounds: seq<Round>, k: nat,
                 acc: seq<seq<Sample>>, sent: seq<seq<byte>>)
    requires Gathered(d, addresses, chunks, rounds, k, acc, sent) && k < |chunks|
    ensures FailedAt(rounds, k, rounds[k].ending, sent + Frames(rounds[k].sent))
  {
    var r := rounds[k];
    var sent' := sent + Frames(r.sent);
    forall m | 0 <= m < |sent'|
      ensures rounds[m].sent == Some(sent'[m])
    {
      if m < k {
        assert sent'[m] == sent[m];
      } else {
        assert sent'[m] == r.sent.value;
      }
    }
  }

  lemma {:induction false} ReadChunksGather(d: Dialect, link: Link, addresses: seq<int>, chunks: seq<Chunk>, k: nat,
                                            acc: seq<seq<Sample>>, sent: seq<seq<byte>>)
    requires Gathered(d, addresses, chunks, Rounds(d, link, addresses, chunks), k, acc, sent)
    requires forall j :: 0 <= j < |chunks| ==> chunks[j].length >= 0
    ensures var o := ReadChunks(d, link, addresses, chunks, k, acc, sent);
      var rounds := Rounds(d, link, addresses, chunks);
      && (o.ending != Returned(SOk) ==>
            && o.rows == []
            && exists j :: k <= j < |chunks| && FailedAt(rounds, j, o.ending, o.sent))
      && (o.ending == Returned(SOk) ==> Gathered(d, addresses, chunks, rounds, |chunks|, o.rows, o.sent))
    decreases |chunks| - k
  {
    if k < |chunks| {
      var rounds := Rounds(d, link, addresses, chunks);
      var r := rounds[k];
      assert r == ReadRound(d, link.replies(k), addresses, chunks[k].start, chunks[k].length);
      ReadRoundMeans(d, link.replies(k), addresses, chunks[k].start, chunks[k].length);
      if r.ending == Returned(SOk) {
        GatherStep(d, addresses, chunks, rounds, k, acc, sent);
        ReadChunksGather(d, link, addresses, chunks, k + 1, Concat2Matrix(acc, r.rows), sent + Frames(r.sent));
      } else {
        FailStep(d, addresses, chunks, rounds, k, acc, sent);
      }
    }
  }

  lemma ReadGathered(d: Dialect, link: Link, addresses: seq<int>, start: int, duration: int)
    requires start >= 0 && duration >= 0
    ensures var chunks := Chunks(start, start + duration, Limit(d));
      var o := ReadChunks(d, link, addresses, chunks, 0, EmptyRows(|addresses|), []);
      var rounds := Rounds(d, link, addresses, chunks);
      && (o.ending != Returned(SOk) ==>
            && o.rows == []
            && exists j :: 0 <= j < |chunks| && FailedAt(rounds, j, o.ending, o.sent))
      && (o.ending == Returned(SOk) ==> Gathered(d, addresses, chunks, rounds, |chunks|, o.rows, o.sent))
  {
    var chunks := Chunks(start, start + duration, Limit(d));
    ChunksTile(start, start + duration, Limit(d));
    TilesBounds(chunks, start, start + duration);
    assert chunks[..0] == [];
    assert Gathered(d, addresses, chunks, Rounds(d, link, addresses, chunks), 0, EmptyRows(|addresses|), []);
    ReadChunksGather(d, link, addresses, chunks, 0, EmptyRows(|addresses|), []);
  }

  /** The rows of a successful request loop hold each sub-request's rows where its sub-range starts. */
  lemma ReadChunksInOrder(d: Dialect, link: Link, addresses: seq<int>, start: int, duration: int)
    requires start >= 0 && duration >= 0
    ensures var chunks := Chunks(start, start + duration, Limit(d));
      var o := ReadChunks(d, link, addresses, chunks, 0, EmptyRows(|addresses|), []);
      o.ending == Returned(SOk) ==> InOrder(addresses, chunks, Rounds(d, link, addresses, chunks), start, o.rows)
  {
    var chunks := Chunks(start, start + duration, Limit(d));
    var o := ReadChunks(d, link, addresses, chunks, 0, EmptyRows(|addresses|), []);
    ReadGathered(d, link, addresses, start, duration);
    if o.ending == Returned(SOk) {
      GatheredRowsOver(d, addresses, start, duration, Rounds(d, link, addresses, chunks), o.rows, o.sent);
    }
  }

  /** The request a frame of the dialect decodes to, as (start, duration, addresses). */
  function DecodeRequest(d: Dialect, frame: seq<byte>): Option<(int, int, seq<int>)>
  {
    match d
    case V3Style =>
      (match LegacyV3Codec.DecodeRead(frame)
       case None => None
       case Some(q) => if q.nonce == LegacyV3Codec.RNDCODE && q.version == LegacyV3Codec.VERSION
                       then Some((q.start, q.duration, q.addresses)) else None)
    case V1Style =>
      (match Codec.DecodeRead(V1, frame)
       case None => None
       case Some(q) => Some((q.start, q.duration, q.addresses)))
  }

  lemma RequestRoundTrip(d: Dialect, start: int, duration: int, addresses: seq<int>)
    requires EncodeRequest(d, start, duration, addresses).Some?
    ensures WellFramed(EncodeRequest(d, start, duration, addresses).value)
    ensures DecodeRequest(d, EncodeRequest(d, start, duration, addresses).value) == Some((start, duration, addresses))
  {
    match d {
      case V3Style => LegacyV3Codec.ReadRoundTrip(start, duration, addresses);
      case V1Style => Codec.ReadRoundTrip(V1, 0, start, duration, addresses);
    }
  }

  /** The j-th frame sent is the request for the j-th sub-range, and that sub-range is within the limit. */
  lemma SentRequest(d: Dialect, addresses: seq<int>, start: int, duration: int,
                    chunks: seq<Chunk>, sent: seq<seq<byte>>, j: nat)
    requires chunks == Chunks(start, start + duration, Limit(d)) && j < |chunks| && |sent| == |chunks|
    requires EncodeRequest(d, chunks[j].start, chunks[j].length, addresses) == Some(sent[j])
    ensures chunks[j].length <= Limit(d) && WellFramed(sent[j])
    ensures DecodeRequest(d, sent[j]) == Some((chunks[j].start, chunks[j].length, addresses))
  {
    ChunkAt(start, start + duration, Limit(d), j);
    RequestRoundTrip(d, chunks[j].start, chunks[j].length, addresses);
  }

  /** Rows and frames gathered over every sub-range of `[start, start + duration)`, read back. */
  lemma GatheredShape(d: Dialect, addresses: seq<int>, start: int, duration: int, rounds: seq<Round>,
                      rows: seq<seq<Sample>>, sent: seq<seq<byte>>)
    requires start >= 0 && duration >= 0
    requires var chunks := Chunks(start, start + duration, Limit(d));
      Gathered(d, addresses, chunks, rounds, |chunks|, rows, sent)
    ensures var chunks := Chunks(start, start + duration, Limit(d));
      && Tiles(chunks, start, start + duration)
      && |rows| == |addresses| && Rectangular(rows, duration)
      && |sent| == |chunks|
      && forall j :: 0 <= j < |chunks| ==>
           chunks[j].length <= Limit(d) && WellFramed(sent[j])
           && DecodeRequest(d, sent[j]) == Some((chunks[j].start, chunks[j].length, addresses))
  {
    var chunks := Chunks(start, start + duration, Limit(d));
    assert chunks[..|chunks|] == chunks;
    ChunksTotal(start, duration, Limit(d));
    forall j | 0 <= j < |chunks|
      ensures chunks[j].length <= Limit(d) && WellFramed(sent[j])
      ensures DecodeRequest(d, sent[j]) == Some((chunks[j].start, chunks[j].length, addresses))
    {
      SentRequest(d, addresses, start, duration, chunks, sent, j);
    }
  }

  /**
    Every sub-request was S_OK, `rounds` being the outcome of each, and
    `rows` are theirs appended channel by channel in the order sent: row i
    holds row i of the j-th sub-request from `chunks[j].start - from` on.
   */
  predicate InOrder(addresses: seq<int>, chunks: seq<Chunk>, rounds: seq<Round>, from: int, rows: seq<seq<Sample>>)
  {
    && |rows| == |addresses| && |rounds| == |chunks|
    && (forall j :: 0 <= j < |chunks| ==> rounds[j].ending == Returned(SOk) && |rounds[j].rows| == |addresses|)
    && (forall j, i {:trigger rounds[j].rows[i]} :: 0 <= j < |chunks| && 0 <= i < |addresses| ==>
          HoldsAt(rows[i], chunks[j].start - from, rounds[j].rows[i]))
  }

  /** Rows gathered over sub-ranges that tile `[from, end)` hold each sub-request's rows where its sub-range starts. */
  lemma GatheredRows(d: Dialect, addresses: seq<int>, chunks: seq<Chunk>, rounds: seq<Round>, from: int, end: int,
                     rows: seq<seq<Sample>>, sent: seq<seq<byte>>)
    requires Tiles(chunks, from, end) && Gathered(d, addresses, chunks, rounds, |chunks|, rows, sent)
    ensures InOrder(addresses, chunks, rounds, from, rows)
  {
    assert chunks[..|chunks|] == chunks;
    forall j, i {:trigger rounds[j].rows[i]} | 0 <= j < |chunks| && 0 <= i < |addresses|
      ensures HoldsAt(rows[i], chunks[j].start - from, rounds[j].rows[i])
    {
      TilesOffset(chunks, from, end, j);
      assert HoldsAt(rows[i], TotalLength(chunks[..j]), rounds[j].rows[i]);
    }
  }

  /** `GatheredRows` over the sub-ranges of `[start, start + duration)`. */
  lemma GatheredRowsOver(d: Dialect, addresses: seq<int>, start: int, duration: int, rounds: seq<Round>,
                         rows: seq<seq<Sample>>, sent: seq<seq<byte>>)
    requires duration >= 0
    requires var chunks := Chunks(start, start + duration, Limit(d));
      Gathered(d, addresses, chunks, rounds, |chunks|, rows, sent)
    ensures InOrder(addresses, Chunks(start, start + duration, Limit(d)), rounds, start, rows)
  {
    ChunksTile(start, start + duration, Limit(d));
    GatheredRows(d, addresses, Chunks(start, start + duration, Limit(d)), rounds, start, start + duration, rows, sent);
  }

  /**
    A legacy read is all or nothing. On S_OK there is one row per address
    holding `duration` samples, and the frames sent are exactly the requests
    for consecutive sub-ranges of at most `Limit(d)` seconds that tile
    `[start, start + duration)`, each naming every address.
   */
  lemma ReadOutcomeShape(d: Dialect, link: Link, addresses: seq<int>, start: int, duration: int)
    ensures var o := ReadSpec(d, link, addresses, start, duration);
      && (o.ending != Returned(SOk) ==> o.rows == [])
      && (o.ending == Returned(SOk) ==>
            var chunks := Chunks(start, start + duration, Limit(d));
            && duration >= 0 && Tiles(chunks, start, start + duration)
            && |o.rows| == |addresses| && Rectangular(o.rows, duration)
            && |o.sent| == |chunks|
            && forall j :: 0 <= j < |chunks| ==>
                 chunks[j].length <= Limit(d) && WellFramed(o.sent[j])
                 && DecodeRequest(d, o.sent[j]) == Some((chunks[j].start, chunks[j].length, addresses)))
  {
    if start >= 0 && duration >= 0 && link.greeting.Some? {
      var o := ReadSpec(d, link, addresses, start, duration);
      var chunks := Chunks(start, start + duration, Limit(d));
      assert o == ReadChunks(d, link, addresses, chunks, 0, EmptyRows(|addresses|), []);
      ReadGathered(d, link, addresses, start, duration);
      if o.ending == Returned(SOk) {
        GatheredShape(d, addresses, start, duration, Rounds(d, link, addresses, chunks), o.rows, o.sent);
      }
    }
  }

  /**
    On S_OK every sub-request was S_OK, and the rows are theirs appended
    channel by channel in the order sent: row i holds row i of the j-th
    sub-request from `chunks[j].start - start` on.
   */
  lemma ReadRowsInOrder(d: Dialect, link: Link, addresses: seq<int>, start: int, duration: int)
    ensures var o := ReadSpec(d, link, addresses, start, duration);
      var chunks := Chunks(start, start + duration, Limit(d));
      o.ending == Returned(SOk) ==> InOrder(addresses, chunks, Rounds(d, link, addresses, chunks), start, o.rows)
  {
    if start >= 0 && duration >= 0 && link.greeting.Some? {
      var o := ReadSpec(d, link, addresses, start, duration);
      var chunks := Chunks(start, start + duration, Limit(d));
      assert o == ReadChunks(d, link, addresses, chunks, 0, EmptyRows(|addresses|), []);
      ReadChunksInOrder(d, link, addresses, start, duration);
    }
  }

  /**
    Once connected, a read that is not S_OK stops at its first sub-request
    that is not: it ends as that one did, every one before it was S_OK, and
    no frame goes out after it.
   */
  lemma ReadStopsAtFirstError(d: Dialect, link: Link, addresses: seq<int>, start: int, duration: int)
    requires start >= 0 && duration >= 0 && link.greeting.Some?
    ensures var o := ReadSpec(d, link, addresses, start, duration);
      var chunks := Chunks(start, start + duration, Limit(d));
      o.ending != Returned(SOk) ==>
        exists j :: 0 <= j < |chunks| && FailedAt(Rounds(d, link, addresses, chunks), j, o.ending, o.sent)
  {
    var chunks := Chunks(start, start + duration, Limit(d));
    assert ReadSpec(d, link, addresses, start, duration) == ReadChunks(d, link, addresses, chunks, 0, EmptyRows(|addresses|), []);
    ReadGathered(d, link, addresses, start, duration);
  }
}
