/**
  The receive loop of the unified client (`__recv_timeout`): it gathers the
  chunks one `recv` call returns after another until a whole reply frame is
  buffered, the server reports an error, or the clock passes the timeout.

  `Receive` is the loop read as a function of the passes it makes (a trace of
  `Poll`s); `RecvTimeout` is the loop itself, proved to compute `Receive`.
  A trace that ends before the loop stops stands for the deadline passing.
 */
module Reassembler {
  import opened Bytes
  import opened Optional
  import opened Protocol
  import opened Codec

  /** What the loop hands back: the return code, the nonce echoed by the server, and every byte received. */
  datatype Reception = Reception(code: ReturnCode, nonce: int, data: seq<byte>)

  /** The loop's variables between two passes (`total_size` is always the length of `data`). */
  datatype Progress = Progress(data: seq<byte>, frameLen: int, code: ReturnCode, nonce: int)

  /** The outcome of one pass: go round again, or leave the loop with a reception. */
  datatype Turn = Continue(progress: Progress) | Finish(reception: Reception)

  /** Before the first pass: nothing buffered, no frame length, code FAILED, nonce 0. */
  const Start: Progress := Progress([], 0, Failed, 0)

  /** The code byte of a version 2 or 3 reply header, read as the signed `b` field it is unpacked with. */
  function CodeByte(data: seq<byte>): (v: int)
    requires |data| >= 17
    ensures -128 <= v < 128
    ensures v == if data[16] < 128 then data[16] as int else data[16] as int - 256
  {
    DecodeSigned(data[16..17])
  }

  /**
    Reads the reply header once more than eight bytes are buffered and no
    frame length is known yet. Versions 2 and 3 unpack `4siQb` from the first
    17 bytes, which raises (FAILED) when fewer are buffered; a code byte that
    is not a `ReturnCode` value raises too, after the nonce was assigned.
    Version 1 has no nonce or code and is taken as OK.
   */
  function DecodeHeader(version: Version, p: Progress): Turn
    requires |p.data| > 8
  {
    match version
    case V1 => Continue(Progress(p.data, LengthField(p.data), Ok, 0))
    case Unsupported(_) => Finish(Reception(Failed, p.nonce, p.data))
    case _ =>
      if |p.data| < 17 then Finish(Reception(Failed, p.nonce, p.data))
      else
        var frameLen := LengthField(p.data);
        var nonce := DecodeUnsigned(p.data[8..16]);
        match CodeOf(CodeByte(p.data))
        case None => Finish(Reception(Failed, nonce, p.data))
        case Some(c) =>
          if c != Ok then Finish(Reception(c, nonce, p.data))
          else Continue(Progress(p.data, frameLen, Ok, nonce))
  }

  /** The frame is complete once a non-zero length is known and that many bytes follow the first eight. */
  predicate Complete(p: Progress)
  {
    p.frameLen != 0 && p.frameLen + 8 <= |p.data|
  }

  /** One pass of the loop. */
  function Step(version: Version, timeout: real, p: Progress, poll: Poll): Turn
  {
    match poll.got
    case RecvTimedOut => Finish(Reception(Timeout, p.nonce, p.data))
    case RecvFailed => Finish(Reception(Failed, p.nonce, p.data))
    case Data(bytes) =>
      var q := p.(data := p.data + bytes);
      if poll.after > timeout then Finish(Reception(Timeout, q.nonce, q.data))
      else
        var t := if |q.data| > 8 && q.frameLen == 0 then DecodeHeader(version, q) else Continue(q);
        match t
        case Finish(_) => t
        case Continue(q') => if Complete(q') then Finish(Reception(q'.code, q'.nonce, q'.data)) else t
  }

  /** The passes from state p on; running out of passes is the deadline passing. */
  function Run(version: Version, timeout: real, polls: seq<Poll>, p: Progress): Reception
    decreases |polls|
  {
    if polls == [] then Reception(Timeout, p.nonce, p.data)
    else
      match Step(version, timeout, p, polls[0])
      case Finish(r) => r
      case Continue(q) => Run(version, timeout, polls[1..], q)
  }

  function Receive(version: Version, timeout: real, polls: seq<Poll>): Reception
  {
    Run(version, timeout, polls, Start)
  }

  /** `__recv_timeout`, pass by pass, over the trace of what each `recv` returned and when. */
  method RecvTimeout(version: Version, timeout: real, polls: seq<Poll>) returns (code: ReturnCode, nonce: int, data: seq<byte>)
    ensures Reception(code, nonce, data) == Receive(version, timeout, polls)
  {
    var frameLen := 0;
    data := [];
    var totalSize := 0;
    code := Failed;
    nonce := 0;
    var i := 0;
    while i < |polls|
      invariant 0 <= i <= |polls|
      invariant totalSize == |data|
      invariant Run(version, timeout, polls[i..], Progress(data, frameLen, code, nonce)) == Receive(version, timeout, polls)
    {
      var poll := polls[i];
      assert polls[i..][1..] == polls[i + 1..];
      match poll.got {
        case RecvTimedOut =>
          return Timeout, nonce, data;
        case RecvFailed =>
          return Failed, nonce, data;
        case Data(bytes) =>
          totalSize := totalSize + |bytes|;
          data := data + bytes;
          if poll.after > timeout {
            return Timeout, nonce, data;
          }
          if |data| > 8 && frameLen == 0 {
            if version.V1? {
              frameLen := LengthField(data);
              nonce := 0;
              code := Ok;
            } else if version.Unsupported? {
              return Failed, nonce, data;
            } else {
              if |data| < 17 {
                return Failed, nonce, data;
              }
              frameLen := LengthField(data);
              nonce := DecodeUnsigned(data[8..16]);
              var c := CodeOf(CodeByte(data));
              if c.None? {
                return Failed, nonce, data;
              }
              code := c.value;
            }
            if code != Ok {
              return code, nonce, data;
            }
          }
          if frameLen != 0 && frameLen + 8 <= totalSize {
            return code, nonce, data;
          }
      }
      i := i + 1;
    }
    return Timeout, nonce, data;
  }

  // ---------------------------------------------------------------- what a reception means

  /** The header facts an OK reception of the given version carries. */
  predicate HeaderOk(version: Version, data: seq<byte>, nonce: int)
  {
    match version
    case V1 => |data| > 8 && nonce == 0
    case Unsupported(_) => false
    case _ => |data| >= 17 && data[16] == 1 && nonce == DecodeUnsigned(data[8..16])
  }

  /**
    What an OK reception guarantees: the header was read for a supported
    version, and the buffer holds at least the whole frame its length field
    announces.
   */
  predicate FrameReceived(version: Version, r: Reception)
  {
    HeaderOk(version, r.data, r.nonce) && LengthField(r.data) != 0 && LengthField(r.data) + 8 <= |r.data|
  }

  /** The codes the loop can hand back: a signed code byte cannot carry BUSY, NULL or NOT_FOUND. */
  predicate Reportable(version: Version, c: ReturnCode)
  {
    if version.V1? then c in {Ok, Timeout, Failed}
    else c in {Ok, Timeout, Failed, DatetimeError, ArgumentOutOfRange}
  }

  predicate Settled(version: Version, r: Reception)
  {
    Reportable(version, r.code) && (r.code == Ok ==> FrameReceived(version, r))
  }

  /** What holds between passes: a known frame length was read from the buffer's header, with an OK code. */
  predicate Consistent(version: Version, p: Progress)
  {
    p.frameLen != 0 ==> |p.data| > 8 && p.frameLen == LengthField(p.data) && p.code == Ok && HeaderOk(version, p.data, p.nonce)
  }

  lemma SignedCodes(v: int)
    requires -128 <= v < 128
    ensures CodeOf(v).Some? ==> CodeOf(v).value in {Ok, Failed, Timeout, DatetimeError, ArgumentOutOfRange}
  {
  }

  lemma StepSettles(version: Version, timeout: real, p: Progress, poll: Poll)
    requires Consistent(version, p)
    ensures Step(version, timeout, p, poll).Continue? ==> Consistent(version, Step(version, timeout, p, poll).progress)
    ensures Step(version, timeout, p, poll).Finish? && Step(version, timeout, p, poll).reception.code != Timeout ==>
              Settled(version, Step(version, timeout, p, poll).reception)
  {
    if poll.got.Data? {
      var q := p.(data := p.data + poll.got.bytes);
      if |p.data| > 8 {
        assert q.data[4..8] == p.data[4..8];
      }
      if |p.data| >= 17 {
        assert q.data[8..16] == p.data[8..16];
      }
      if |q.data| >= 17 {
        SignedCodes(CodeByte(q.data));
      }
    }
  }

  lemma {:induction false} RunSettles(version: Version, timeout: real, polls: seq<Poll>, p: Progress)
    requires Consistent(version, p)
    ensures var r := Run(version, timeout, polls, p); r.code == Timeout || Settled(version, r)
    decreases |polls|
  {
    if polls != [] {
      StepSettles(version, timeout, p, polls[0]);
      match Step(version, timeout, p, polls[0])
      case Finish(r) =>
      case Continue(q) => RunSettles(version, timeout, polls[1..], q);
    }
  }

  /**
    An OK reception holds a complete frame whose header was read for a
    supported version (versions 2 and 3: code byte 1 and the nonce it
    carries; version 1: nonce 0), and the loop never reports BUSY, NULL,
    NOT_FOUND or CONNECT_ERROR, nor for version 1 any server code at all.
   */
  lemma ReceiveSettles(version: Version, timeout: real, polls: seq<Poll>)
    ensures Reportable(version, Receive(version, timeout, polls).code)
    ensures Receive(version, timeout, polls).code == Ok ==> FrameReceived(version, Receive(version, timeout, polls))
  {
    RunSettles(version, timeout, polls, Start);
  }

  lemma {:induction false} RunDelivered(version: Version, timeout: real, polls: seq<Poll>, p: Progress)
    ensures p.data <= Run(version, timeout, polls, p).data <= p.data + Delivered(polls)
    decreases |polls|
  {
    if polls != [] {
      var rest := p.data + (if polls[0].got.Data? then polls[0].got.bytes else []);
      assert p.data + Delivered(polls) == rest + Delivered(polls[1..]);
      match Step(version, timeout, p, polls[0])
      case Finish(r) =>
      case Continue(q) => RunDelivered(version, timeout, polls[1..], q);
    }
  }

  /** The buffer handed back is a prefix of the bytes the trace delivered, in order: nothing is dropped or reordered. */
  lemma ReceivedPrefix(version: Version, timeout: real, polls: seq<Poll>)
    ensures Receive(version, timeout, polls).data <= Delivered(polls)
  {
    RunDelivered(version, timeout, polls, Start);
  }

  // ---------------------------------------------------------------- replies that arrive in pieces

  /**
    The passes of `polls` run from state p: Finish when the loop leaves during
    them, otherwise Continue with the state after the last of them.
   */
  function Advance(version: Version, timeout: real, polls: seq<Poll>, p: Progress): Turn
    decreases |polls|
  {
    if polls == [] then Continue(p)
    else
      match Step(version, timeout, p, polls[0])
      case Finish(r) => Finish(r)
      case Continue(q) => Advance(version, timeout, polls[1..], q)
  }

  /** A trace run in two parts: the loop either leaves during the first part or carries its state into the second. */
  lemma {:induction false} RunAppend(version: Version, timeout: real, pre: seq<Poll>, rest: seq<Poll>, p: Progress)
    ensures Run(version, timeout, pre + rest, p)
            == match Advance(version, timeout, pre, p)
               case Finish(r) => r
               case Continue(q) => Run(version, timeout, rest, q)
    decreases |pre|
  {
    if pre != [] {
      assert (pre + rest)[0] == pre[0];
      assert (pre + rest)[1..] == pre[1..] + rest;
      match Step(version, timeout, p, pre[0])
      case Finish(r) =>
      case Continue(q) => RunAppend(version, timeout, pre[1..], rest, q);
    } else {
      assert pre + rest == rest;
    }
  }

  /** While the loop keeps running, it has buffered exactly what was delivered, and its header facts hold. */
  lemma {:induction false} AdvanceDelivered(version: Version, timeout: real, polls: seq<Poll>, p: Progress)
    requires Consistent(version, p)
    ensures var t := Advance(version, timeout, polls, p);
            t.Continue? ==> t.progress.data == p.data + Delivered(polls) && Consistent(version, t.progress)
    decreases |polls|
  {
    if polls != [] {
      var chunk := if polls[0].got.Data? then polls[0].got.bytes else [];
      assert p.data + Delivered(polls) == p.data + chunk + Delivered(polls[1..]);
      StepSettles(version, timeout, p, polls[0]);
      match Step(version, timeout, p, polls[0])
      case Finish(r) =>
      case Continue(q) =>
        assert q.data == p.data + chunk;
        AdvanceDelivered(version, timeout, polls[1..], q);
    }
  }

  /** After the passes of `pre` the loop is still running (and, when `awaitingHeader`, has no frame length yet). */
  predicate Running(version: Version, timeout: real, pre: seq<Poll>, awaitingHeader: bool)
  {
    var t := Advance(version, timeout, pre, Start);
    t.Continue? && (awaitingHeader ==> t.progress.frameLen == 0)
  }

  /** The state the loop is in after the passes of `pre`, with what the passes so far delivered buffered. */
  lemma ResumeAfter(version: Version, timeout: real, pre: seq<Poll>, poll: Poll, rest: seq<Poll>)
    requires Running(version, timeout, pre, false)
    ensures var q := Advance(version, timeout, pre, Start).progress;
      && q.data == Delivered(pre) && Consistent(version, q)
      && Receive(version, timeout, pre + [poll] + rest) == Run(version, timeout, [poll] + rest, q)
  {
    AdvanceDelivered(version, timeout, pre, Start);
    assert pre + [poll] + rest == pre + ([poll] + rest);
    RunAppend(version, timeout, pre, [poll] + rest, Start);
  }

  /**
    Whenever the loop is still running, a chunk that arrives after the
    deadline ends it with TIMEOUT, whatever the chunk holds; the buffer is
    everything delivered, the late chunk included.
   */
  lemma LateChunkTimesOut(version: Version, timeout: real, pre: seq<Poll>, chunk: seq<byte>, before: real, t: real, rest: seq<Poll>)
    requires Running(version, timeout, pre, false) && t > timeout
    ensures var r := Receive(version, timeout, pre + [Poll(Data(chunk), before, t)] + rest);
      r.code == Timeout && r.data == Delivered(pre) + chunk
  {
    ResumeAfter(version, timeout, pre, Poll(Data(chunk), before, t), rest);
  }

  /** Whenever the loop is still running, a socket time-out ends it with TIMEOUT and any other socket error with FAILED. */
  lemma SocketErrorsEndLoop(version: Version, timeout: real, pre: seq<Poll>, before: real, after: real, rest: seq<Poll>)
    requires Running(version, timeout, pre, false)
    ensures var r := Receive(version, timeout, pre + [Poll(RecvTimedOut, before, after)] + rest);
      r.code == Timeout && r.data == Delivered(pre)
    ensures var r := Receive(version, timeout, pre + [Poll(RecvFailed, before, after)] + rest);
      r.code == Failed && r.data == Delivered(pre)
  {
    ResumeAfter(version, timeout, pre, Poll(RecvTimedOut, before, after), rest);
    ResumeAfter(version, timeout, pre, Poll(RecvFailed, before, after), rest);
  }

  /**
    On any pass that takes a version 2 or 3 buffer past 8 bytes but not to 17,
    the header unpack raises and the reception is FAILED.
   */
  lemma ShortHeaderFails(version: Version, timeout: real, pre: seq<Poll>, chunk: seq<byte>, before: real, t: real, rest: seq<Poll>)
    requires version == V2 || version == V3
    requires Running(version, timeout, pre, false) && t <= timeout
    requires 8 < |Delivered(pre) + chunk| < 17
    ensures var r := Receive(version, timeout, pre + [Poll(Data(chunk), before, t)] + rest);
      r.code == Failed && r.data == Delivered(pre) + chunk
  {
    ResumeAfter(version, timeout, pre, Poll(Data(chunk), before, t), rest);
  }

  /**
    On the pass that reads a version 2 or 3 header, a server code other than
    OK is handed back as it is, beside the nonce the header carries.
   */
  lemma ServerCodePassedOn(version: Version, timeout: real, pre: seq<Poll>, chunk: seq<byte>, before: real, t: real,
                           rest: seq<Poll>, c: ReturnCode)
    requires version == V2 || version == V3
    requires Running(version, timeout, pre, true) && t <= timeout
    requires var header := Delivered(pre) + chunk;
      |header| >= 17 && CodeOf(CodeByte(header)) == Some(c) && c != Ok
    ensures var header := Delivered(pre) + chunk;
      Receive(version, timeout, pre + [Poll(Data(chunk), before, t)] + rest)
      == Reception(c, DecodeUnsigned(header[8..16]), header)
  {
    ResumeAfter(version, timeout, pre, Poll(Data(chunk), before, t), rest);
  }

  /**
    On the pass that reads a version 2 or 3 header, a code byte of 128 or
    more (BUSY 200, NULL 201, NOT_FOUND 255) reads as -128..-1, which is no
    `ReturnCode` value: the reception is FAILED.
   */
  lemma HighCodeByteFails(version: Version, timeout: real, pre: seq<Poll>, chunk: seq<byte>, before: real, t: real, rest: seq<Poll>)
    requires version == V2 || version == V3
    requires Running(version, timeout, pre, true) && t <= timeout
    requires var header := Delivered(pre) + chunk; |header| >= 17 && header[16] >= 128
    ensures var header := Delivered(pre) + chunk;
      Receive(version, timeout, pre + [Poll(Data(chunk), before, t)] + rest)
      == Reception(Failed, DecodeUnsigned(header[8..16]), header)
  {
    ResumeAfter(version, timeout, pre, Poll(Data(chunk), before, t), rest);
  }

  /** Every pass of the trace returned bytes (possibly none) before the deadline. */
  predicate InTime(timeout: real, polls: seq<Poll>)
  {
    forall i :: 0 <= i < |polls| ==> polls[i].got.Data? && polls[i].after <= timeout
  }

  /**
    Starting with `buffered` bytes, no pass leaves 9 to 16 bytes buffered
    before 17 have arrived, so a `4siQb` header is never unpacked short.
   */
  predicate HeaderNeverShort(buffered: nat, polls: seq<Poll>)
    decreases |polls|
  {
    polls == [] ||
    var m := buffered + |if polls[0].got.Data? then polls[0].got.bytes else []|;
    !(8 < m < 17) && (m >= 17 || HeaderNeverShort(m, polls[1..]))
  }

  /** A reply frame of the given version with an OK code whose length field counts exactly the bytes after it. */
  predicate ReplyFrame(version: Version, frame: seq<byte>)
  {
    match version
    case V1 => |frame| > 8 && WellFramed(frame)
    case Unsupported(_) => false
    case _ => |frame| >= 17 && frame[16] == 1 && WellFramed(frame)
  }

  /** The nonce an OK reception of the frame reports: version 1 frames carry none. */
  function EchoedNonce(version: Version, frame: seq<byte>): int
    requires ReplyFrame(version, frame)
  {
    if version.V1? then 0 else DecodeUnsigned(frame[8..16])
  }

  /** The loop part-way through receiving `frame`: a proper prefix buffered, and the header read once past 8 bytes. */
  predicate PartWay(version: Version, frame: seq<byte>, p: Progress)
    requires ReplyFrame(version, frame)
  {
    && p.data <= frame && |p.data| < |frame|
    && if |p.data| <= 8 then p.frameLen == 0
       else p.frameLen == |frame| - 8 && p.code == Ok && p.nonce == EchoedNonce(version, frame)
            && (version.V1? || |p.data| >= 17)
  }

  /** One pass part-way through a reply frame: it either completes the frame or stays part-way. */
  lemma StepPartWay(version: Version, timeout: real, p: Progress, poll: Poll, frame: seq<byte>)
    requires ReplyFrame(version, frame) && PartWay(version, frame, p)
    requires poll.got.Data? && poll.after <= timeout && p.data + poll.got.bytes <= frame
    requires |p.data| <= 8 && !version.V1? ==> !(8 < |p.data + poll.got.bytes| < 17)
    ensures var t := Step(version, timeout, p, poll);
      if |p.data + poll.got.bytes| == |frame| then t == Finish(Reception(Ok, EchoedNonce(version, frame), frame))
      else t.Continue? && t.progress.data == p.data + poll.got.bytes && PartWay(version, frame, t.progress)
  {
    var q := p.data + poll.got.bytes;
    if |q| > 8 {
      assert q[4..8] == frame[4..8];
    }
    if |q| >= 17 {
      assert q[8..16] == frame[8..16] && q[16] == frame[16];
    }
    if |q| == |frame| {
      assert q == frame;
    }
  }

  lemma {:induction false} RunPartWay(version: Version, timeout: real, polls: seq<Poll>, p: Progress, frame: seq<byte>)
    requires ReplyFrame(version, frame) && PartWay(version, frame, p)
    requires InTime(timeout, polls) && p.data + Delivered(polls) == frame
    requires |p.data| <= 8 && !version.V1? ==> HeaderNeverShort(|p.data|, polls)
    ensures Run(version, timeout, polls, p) == Reception(Ok, EchoedNonce(version, frame), frame)
    decreases |polls|
  {
    var bytes := polls[0].got.bytes;
    assert Delivered(polls) == bytes + Delivered(polls[1..]);
    assert p.data + bytes + Delivered(polls[1..]) == frame;
    StepPartWay(version, timeout, p, polls[0], frame);
    if |p.data + bytes| < |frame| {
      RunPartWay(version, timeout, polls[1..], Step(version, timeout, p, polls[0]).progress, frame);
    }
  }

  /**
    Conversely, a version 2 or 3 reply frame with an OK code, delivered in any
    number of chunks before the deadline, is received as OK with its nonce,
    provided the header is not cut after 9 to 16 bytes (see `ShortHeaderFails`).
   */
  lemma WholeFrameReceived(version: Version, timeout: real, frame: seq<byte>, polls: seq<Poll>)
    requires version == V2 || version == V3
    requires ReplyFrame(version, frame)
    requires InTime(timeout, polls) && Delivered(polls) == frame && HeaderNeverShort(0, polls)
    ensures Receive(version, timeout, polls) == Reception(Ok, DecodeUnsigned(frame[8..16]), frame)
  {
    RunPartWay(version, timeout, polls, Start, frame);
  }

  /** The same for version 1, whose 8-byte header can be split anywhere: the reception is OK with nonce 0. */
  lemma WholeFrameReceivedV1(timeout: real, frame: seq<byte>, polls: seq<Poll>)
    requires ReplyFrame(V1, frame)
    requires InTime(timeout, polls) && Delivered(polls) == frame
    ensures Receive(V1, timeout, polls) == Reception(Ok, 0, frame)
  {
    RunPartWay(V1, timeout, polls, Start, frame);
  }
}
