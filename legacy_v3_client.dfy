/**
  The legacy client that speaks the version 3 layout (`py_realdb_sdk2.py`):
  its `ReadData`, `WriteData` and `__mk_a_read_req` as methods, proved equal
  to the functions of `LegacyRead` and to `WriteSpec` below. The rows a read
  gathers live in an array of rows that each sub-request extends in place.
 */
module LegacyV3Client {
  import opened Bytes
  import opened Optional
  import opened Protocol
  import opened Codec
  import opened Matrix
  import opened Chunking
  import opened LegacyReassembler
  import opened LegacyCommon
  import opened LegacyRead
  import LegacyV3Codec

  /** `__mk_a_read_req`: one sub-request, its reply unpacked with the list-comprehension `__flat_2_matrix`. */
  method MakeReadRequest(replies: seq<Poll>, addresses: seq<int>, start: int, duration: int)
    returns (ending: Ending, mat: seq<seq<Sample>>, frame: Option<seq<byte>>)
    ensures Round(ending, mat, frame) == ReadRound(V3Style, replies, addresses, start, duration)
  {
    frame := LegacyV3Codec.EncodeRead(start, duration, addresses);
    if frame.None? {
      return Raised, [], frame;
    }
    var timedOut, data := RecvTimeout(HeaderSize(V3Style), TIMEOUT, replies);
    if timedOut {
      return Returned(SFail), [], frame;
    }
    if data == [] {
      return Returned(SFail), [], frame;
    }
    var n := |addresses|;
    if duration < 0 {
      return Raised, [], frame;
    }
    var vals := DecodeReadReply(V3, n, duration, data);
    if vals.None? || n == 0 {
      return Raised, [], frame;
    }
    mat := Flat2Matrix(vals.value, n);
    ending := Returned(SOk);
  }

  /**
    The request loop of `ReadData` over `[start, end)`: one sub-request per
    7200 seconds, each one's rows appended in place to `retData`; the first
    failure ends the loop.
   */
  method RequestLoop(link: Link, addresses: seq<int>, retData: array<seq<Sample>>, start: int, end: int)
    returns (ending: Ending, rows: seq<seq<Sample>>, sent: seq<seq<byte>>)
    requires retData[..] == EmptyRows(|addresses|)
    modifies retData
    ensures ReadOutcome(ending, rows, true, sent)
            == ReadRange(V3Style, link, addresses, start, end)
    ensures ending == Returned(SOk) ==> retData[..] == rows
  {
    ghost var chunks := Chunks(start, end, Limit(V3Style));
    sent := [];
    var i := start;
    var k := 0;
    while i < end
      invariant 0 <= k <= |chunks|
      invariant Chunks(i, end, Limit(V3Style)) == chunks[k..]
      invariant ReadChunks(V3Style, link, addresses, chunks, k, retData[..], sent)
                == ReadRange(V3Style, link, addresses, start, end)
      decreases end - i
    {
      ChunksStep(i, end, Limit(V3Style));
      var sDuration := SubDuration(i, end, Limit(V3Style));
      var e, v, frame := MakeReadRequest(link.replies(k), addresses, i, sDuration);
      ReadChunksStep(V3Style, link, addresses, chunks, k, retData[..], sent, e, v, frame);
      sent := sent + Frames(frame);
      if e != Returned(SOk) {
        return e, [], sent;
      }
      ConcatInPlace(retData, v);
      assert chunks[k + 1..] == chunks[k..][1..];
      i := i + Limit(V3Style);
      k := k + 1;
    }
    ending, rows := Returned(SOk), retData[..];
  }

  /**
    `ReadData`: a negative start or duration is S_FAIL before connecting;
    the greeting is read and ignored; `ret_data` starts as one empty row per
    address and the request loop fills it.
   */
  method ReadData(link: Link, addresses: seq<int>, start: int, duration: int)
    returns (ending: Ending, rows: seq<seq<Sample>>, connected: bool, sent: seq<seq<byte>>)
    ensures ReadOutcome(ending, rows, connected, sent) == ReadSpec(V3Style, link, addresses, start, duration)
  {
    if start < 0 || duration < 0 {
      return Returned(SFail), [], false, [];
    }
    connected := true;
    if link.greeting.None? {
      return Raised, [], connected, [];
    }
    var retData := new seq<Sample>[|addresses|](_ => []);
    assert retData[..] == EmptyRows(|addresses|);
    ending, rows, sent := RequestLoop(link, addresses, retData, start, start + duration);
  }

  // ---------------------------------------------------------------- WriteData

  /**
    `WriteData`: mismatched lists are S_FAIL before connecting; otherwise
    the greeting is read and ignored, the pairs are packed and sent, and the
    call is S_OK without waiting for any reply. The frame is packed with
    native alignment (`LegacyV3Codec.EncodeWriteAsWritten`).
   */
  function WriteSpec(link: Link, writeTime: int, addresses: seq<int>, values: seq<Sample>): WriteOutcome
  {
    if |addresses| != |values| then WriteOutcome(Returned(SFail), false, None)
    else if link.greeting.None? then WriteOutcome(Raised, true, None)
    else
      match LegacyV3Codec.EncodeWriteAsWritten(writeTime, addresses, values)
      case None => WriteOutcome(Raised, true, None)
      case Some(frame) => WriteOutcome(Returned(SOk), true, Some(frame))
  }

  method WriteData(link: Link, writeTime: int, addresses: seq<int>, values: seq<Sample>)
    returns (ending: Ending, connected: bool, sent: Option<seq<byte>>)
    ensures WriteOutcome(ending, connected, sent) == WriteSpec(link, writeTime, addresses, values)
  {
    if |addresses| != |values| {
      return Returned(SFail), false, None;
    }
    connected := true;
    if link.greeting.None? {
      return Raised, connected, None;
    }
    var addrVals := InterleaveLoop(addresses, values);
    sent := LegacyV3Codec.PackWrite(writeTime, |values|, addrVals, LegacyV3Codec.NATIVE_PAD);
    if sent.None? {
      return Raised, connected, sent;
    }
    ending := Returned(SOk);
  }

  /**
    A write is S_OK exactly when the lists match, the connection is made,
    and the write time, the length field and every address fit their
    signed fields. The frame it sent is 24+8n bytes while its length field
    says 16+6n, so any non-empty write is misframed; with its alignment
    padding stripped it is well framed and carries nonce 10, version 10000,
    the write time and exactly the pairs. The server's reply plays no part:
    S_OK says only that the frame was packed.
   */
  lemma WriteOutcomeMeans(link: Link, writeTime: int, addresses: seq<int>, values: seq<Sample>, other: nat -> seq<Poll>)
    ensures var o := WriteSpec(link, writeTime, addresses, values);
      && (o.ending == Returned(SOk) <==>
            && |addresses| == |values| && link.greeting.Some?
            && FitsSigned(writeTime, 4) && FitsSigned(16 + 6 * |addresses|, 4) && AllSigned(addresses, 2))
      && (o.ending == Returned(SFail) <==> |addresses| != |values|)
      && (o.ending == Returned(SOk) ==>
            && o.sent.Some? && |o.sent.value| == 24 + 8 * |addresses| && LengthField(o.sent.value) == 16 + 6 * |addresses|
            && (|addresses| > 0 ==> !WellFramed(o.sent.value))
            && WellFramed(LegacyV3Codec.StripPadding(o.sent.value))
            && LegacyV3Codec.DecodeWrite(LegacyV3Codec.StripPadding(o.sent.value))
               == Some(LegacyV3Codec.LegacyWriteRequest(LegacyV3Codec.RNDCODE, LegacyV3Codec.VERSION, writeTime, addresses, values)))
      && o == WriteSpec(Link(link.greeting, other), writeTime, addresses, values)
  {
    if |addresses| == |values| {
      if AllSigned(addresses, 2) {
        InterleavedFit(addresses, values, 2);
      }
      if AddressesFit(Interleaved(addresses, values), 2) {
        InterleavedFitBack(addresses, values, 2);
      }
      LegacyV3Codec.AsWrittenStripped(writeTime, addresses, values);
      if LegacyV3Codec.EncodeWrite(writeTime, addresses, values).Some? {
        LegacyV3Codec.WriteRoundTrip(writeTime, addresses, values);
        LegacyV3Codec.WriteAsWrittenMisframed(writeTime, addresses, values);
      }
    }
  }
}
