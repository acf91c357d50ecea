/**
  The legacy version 1 client (`py_realdb_sdk1.py`): its `ReadData`,
  `WriteData` and `__mk_a_read_req` as methods, proved equal to the
  functions of `LegacyRead` and to `WriteSpec` below. Requests ask for at
  most 300 seconds in the text layout; the reply header is `4si`; rows are
  cut out of the reply with the nested-loop `__flat_2_matrix`.
 */
module LegacyV1Client {
  import opened Bytes
  import opened Optional
  import opened Protocol
  import opened Codec
  import opened Matrix
  import opened Chunking
  import opened LegacyReassembler
  import opened LegacyCommon
  import opened LegacyRead

  /**
    `__mk_a_read_req`: one text request; the reply is unpacked as `4si`
    followed by n*duration floats, which raises on a negative count or a
    reply of any other size, and `__flat_2_matrix` divides by the number of
    addresses, which raises when there are none.
   */
  method MakeReadRequest(replies: seq<Poll>, addresses: seq<int>, start: int, duration: int)
    returns (ending: Ending, mat: seq<seq<Sample>>, frame: Option<seq<byte>>)
    ensures Round(ending, mat, frame) == ReadRound(V1Style, replies, addresses, start, duration)
  {
    frame := Codec.EncodeRead(V1, 0, start, duration, addresses);
    if frame.None? {
      return Raised, [], frame;
    }
    var timedOut, data := RecvTimeout(HeaderSize(V1Style), TIMEOUT, replies);
    if timedOut {
      return Returned(SFail), [], frame;
    }
    if data == [] {
      return Returned(SFail), [], frame;
    }
    if duration < 0 {
      return Raised, [], frame;
    }
    var n := |addresses|;
    var vals := DecodeReadReply(V1, n, duration, data);
    if vals.None? || n == 0 {
      return Raised, [], frame;
    }
    mat := Flat2MatrixLoop(vals.value, n);
    ending := Returned(SOk);
  }

  /**
    The request loop of `ReadData` over `[start, end)`: one sub-request per
    300 seconds, each one's rows appended in place to `retData`; the first
    failure ends the loop.
   */
  method RequestLoop(link: Link, addresses: seq<int>, retData: array<seq<Sample>>, start: int, end: int)
    returns (ending: Ending, rows: seq<seq<Sample>>, sent: seq<seq<byte>>)
    requires retData[..] == EmptyRows(|addresses|)
    modifies retData
    ensures ReadOutcome(ending, rows, true, sent)
            == ReadRange(V1Style, link, addresses, start, end)
    ensures ending == Returned(SOk) ==> retData[..] == rows
  {
    ghost var chunks := Chunks(start, end, Limit(V1Style));
    sent := [];
    var i := start;
    var k := 0;
    while i < end
      invariant 0 <= k <= |chunks|
      invariant Chunks(i, end, Limit(V1Style)) == chunks[k..]
      invariant ReadChunks(V1Style, link, addresses, chunks, k, retData[..], sent)
                == ReadRange(V1Style, link, addresses, start, end)
      decreases end - i
    {
      ChunksStep(i, end, Limit(V1Style));
      var sDuration := SubDuration(i, end, Limit(V1Style));
      var e, v, frame := MakeReadRequest(link.replies(k), addresses, i, sDuration);
      ReadChunksStep(V1Style, link, addresses, chunks, k, retData[..], sent, e, v, frame);
      sent := sent + Frames(frame);
      if e != Returned(SOk) {
        return e, [], sent;
      }
      ConcatInPlace(retData, v);
      assert chunks[k + 1..] == chunks[k..][1..];
      i := i + Limit(V1Style);
      k := k + 1;
    }
    ending, rows := Returned(SOk), retData[..];
  }

  /**
    `ReadData`: a negative start or duration is S_FAIL before connecting;
    the greeting is read and ignored; `ret_data` starts as one empty row per
    address and the request loop fills it.
   */
  method ReadData(link: Link, addresses: seq<int>, start: int, duration: int)
    returns (ending: Ending, rows: seq<seq<Sample>>, connected: bool, sent: seq<seq<byte>>)
    ensures ReadOutcome(ending, rows, connected, sent) == ReadSpec(V1Style, link, addresses, start, duration)
  {
    if start < 0 || duration < 0 {
      return Returned(SFail), [], false, [];
    }
    connected := true;
    if link.greeting.None? {
      return Raised, [], connected, [];
    }
    var retData := new seq<Sample>[|addresses|](_ => []);
    assert retData[..] == EmptyRows(|addresses|);
    ending, rows, sent := RequestLoop(link, addresses, retData, start, start + duration);
  }

  // ---------------------------------------------------------------- WriteData

  /** `struct.pack('4si' + 'if' * n, b'writ', n * 8, *addr_vals)`; None where it raises. */
  function PackWrite(n: nat, addrVals: seq<Field>): Option<seq<byte>>
  {
    Pow256Widths();
    if FitsSigned(8 * n, 4) && AddressesFit(addrVals, 4)
    then Some(WRIT + I32(8 * n) + PackFields(addrVals, 4, 0))
    else None
  }

  /**
    Packing the interleaved list is the version 1 write frame: `i` and `f`
    are both four-byte aligned, so no padding creeps in, and `pack` raises
    exactly when the frame cannot be encoded.
   */
  lemma PackWriteIsEncodeWrite(addresses: seq<int>, values: seq<Sample>)
    requires |addresses| == |values|
    ensures PackWrite(|values|, Interleaved(addresses, values)) == Codec.EncodeWrite(V1, 0, 0, addresses, values)
  {
    if AllSigned(addresses, 4) {
      PackInterleaved(addresses, values, 4, 0);
    }
    if AddressesFit(Interleaved(addresses, values), 4) {
      InterleavedFitBack(addresses, values, 4);
    }
  }

  /**
    `WriteData`: mismatched lists are S_FAIL before connecting; otherwise
    the greeting is read and ignored, the pairs are packed and sent, and the
    call is S_OK without waiting for any reply.
   */
  function WriteSpec(link: Link, addresses: seq<int>, values: seq<Sample>): WriteOutcome
  {
    if |addresses| != |values| then WriteOutcome(Returned(SFail), false, None)
    else if link.greeting.None? then WriteOutcome(Raised, true, None)
    else
      match Codec.EncodeWrite(V1, 0, 0, addresses, values)
      case None => WriteOutcome(Raised, true, None)
      case Some(frame) => WriteOutcome(Returned(SOk), true, Some(frame))
  }

  method WriteData(link: Link, addresses: seq<int>, values: seq<Sample>)
    returns (ending: Ending, connected: bool, sent: Option<seq<byte>>)
    ensures WriteOutcome(ending, connected, sent) == WriteSpec(link, addresses, values)
  {
    if |addresses| != |values| {
      return Returned(SFail), false, None;
    }
    connected := true;
    if link.greeting.None? {
      return Raised, connected, None;
    }
    var addrVals := InterleaveLoop(addresses, values);
    PackWriteIsEncodeWrite(addresses, values);
    sent := PackWrite(|values|, addrVals);
    if sent.None? {
      return Raised, connected, sent;
    }
    ending := Returned(SOk);
  }

  /**
    A write is S_OK exactly when the lists match, the connection is made,
    and the length field and every address fit a signed 32-bit field; the
    frame it sent is well framed and decodes to exactly the pairs. The
    server's reply plays no part.
   */
  lemma WriteOutcomeMeans(link: Link, addresses: seq<int>, values: seq<Sample>, other: nat -> seq<Poll>)
    ensures var o := WriteSpec(link, addresses, values);
      && (o.ending == Returned(SOk) <==>
            |addresses| == |values| && link.greeting.Some? && FitsSigned(8 * |addresses|, 4) && AllSigned(addresses, 4))
      && (o.ending == Returned(SFail) <==> |addresses| != |values|)
      && (o.ending == Returned(SOk) ==>
            && o.sent.Some? && WellFramed(o.sent.value) && |o.sent.value| == 8 + 8 * |addresses|
            && Codec.DecodeWrite(V1, o.sent.value) == Some(WriteRequest(0, 0, addresses, values)))
      && o == WriteSpec(Link(link.greeting, other), addresses, values)
  {
    if |addresses| == |values| && Codec.EncodeWrite(V1, 0, 0, addresses, values).Some? {
      Codec.WriteRoundTrip(V1, 0, 0, addresses, values);
    }
  }
}
