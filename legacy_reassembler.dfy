/**
  The receive loop of the two legacy clients (`__recv_timeout` of
  `py_realdb_sdk2.py` and `py_realdb_sdk1.py`). The socket is non-blocking and
  every exception is swallowed; the loop gives up once `timeout` seconds pass
  without new bytes after something arrived, or twice that while nothing has
  arrived. The clients differ only in the header they unpack: `4siq` (16
  bytes) in the version 3 style client, `4si` (8 bytes) in the version 1 one.

  Each `Poll` is one pass: `before` is the clock read by the checks at the top
  of the loop and `after` the clock read when `begin` is reset; both count
  seconds from the loop's entry.
 */
module LegacyReassembler {
  import opened Bytes
  import opened Protocol
  import opened Codec

  /** `[b_time_out, total_data]`; the flag is 1 exactly when `timedOut` holds. */
  datatype Outcome = Outcome(timedOut: bool, data: seq<byte>)

  /** The loop's variables between passes: the bytes so far, the frame length, and when bytes last arrived. */
  datatype Idle = Idle(data: seq<byte>, frameLen: int, begin: real)

  datatype Turn = Again(idle: Idle) | Done(outcome: Outcome)

  const Start: Idle := Idle([], 0, 0.0)

  /** The deadline test at the top of a pass: idle too long with bytes buffered, or twice as long without. */
  predicate Expired(timeout: real, s: Idle, now: real)
  {
    (|s.data| > 0 && now - s.begin > timeout) || now - s.begin > timeout * 2.0
  }

  /**
    One pass. A header shorter than `headerSize` makes `struct.unpack` raise;
    the exception is swallowed and the frame length stays 0 until more bytes
    arrive. An empty read (`sleep`) and a raising `recv` change nothing.
   */
  function Step(headerSize: nat, timeout: real, s: Idle, poll: Poll): Turn
    requires headerSize >= 8
  {
    if Expired(timeout, s, poll.before) then Done(Outcome(true, s.data))
    else if !poll.got.Data? || poll.got.bytes == [] then Again(s)
    else
      var data := s.data + poll.got.bytes;
      var frameLen := if |data| > 8 && s.frameLen == 0 && |data| >= headerSize then LengthField(data) else s.frameLen;
      if frameLen != 0 && frameLen + 8 <= |data| then Done(Outcome(false, data))
      else Again(Idle(data, frameLen, poll.after))
  }

  /** The passes from state s on; running out of passes is the deadline passing. */
  function Run(headerSize: nat, timeout: real, polls: seq<Poll>, s: Idle): Outcome
    requires headerSize >= 8
    decreases |polls|
  {
    if polls == [] then Outcome(true, s.data)
    else
      match Step(headerSize, timeout, s, polls[0])
      case Done(o) => o
      case Again(s') => Run(headerSize, timeout, polls[1..], s')
  }

  function Receive(headerSize: nat, timeout: real, polls: seq<Poll>): Outcome
    requires headerSize >= 8
  {
    Run(headerSize, timeout, polls, Start)
  }

  /** `__recv_timeout` of the legacy clients, pass by pass. */
  method RecvTimeout(headerSize: nat, timeout: real, polls: seq<Poll>) returns (timedOut: bool, totalData: seq<byte>)
    requires headerSize >= 8
    ensures Outcome(timedOut, totalData) == Receive(headerSize, timeout, polls)
  {
    totalData := [];
    var begin := 0.0;
    var frameLen := 0;
    var totalSize := 0;
    var i := 0;
    while i < |polls|
      invariant 0 <= i <= |polls|
      invariant totalSize == |totalData|
      invariant Run(headerSize, timeout, polls[i..], Idle(totalData, frameLen, begin)) == Receive(headerSize, timeout, polls)
    {
      var poll := polls[i];
      assert polls[i..][1..] == polls[i + 1..];
      if |totalData| > 0 && poll.before - begin > timeout {
        return true, totalData;
      } else if poll.before - begin > timeout * 2.0 {
        return true, totalData;
      }
      if poll.got.Data? && poll.got.bytes != [] {
        totalSize := totalSize + |poll.got.bytes|;
        totalData := totalData + poll.got.bytes;
        begin := poll.after;
        if |totalData| > 8 && frameLen == 0 && |totalData| >= headerSize {
          frameLen := LengthField(totalData);
        }
        if frameLen != 0 && frameLen + 8 <= totalSize {
          return false, totalData;
        }
      }
      i := i + 1;
    }
    return true, totalData;
  }

  // ---------------------------------------------------------------- what an outcome means

  /** Between passes, a known frame length is the one in the buffer's header. */
  predicate Consistent(headerSize: nat, s: Idle)
  {
    s.frameLen != 0 ==> |s.data| > 8 && |s.data| >= headerSize && s.frameLen == LengthField(s.data)
  }

  /** A reply handed back without the time-out flag holds a whole frame behind a header of the client's size. */
  predicate FrameReceived(headerSize: nat, data: seq<byte>)
  {
    |data| > 8 && |data| >= headerSize && LengthField(data) != 0 && LengthField(data) + 8 <= |data|
  }

  lemma StepFramed(headerSize: nat, timeout: real, s: Idle, poll: Poll)
    requires headerSize >= 8 && Consistent(headerSize, s)
    ensures Step(headerSize, timeout, s, poll).Again? ==> Consistent(headerSize, Step(headerSize, timeout, s, poll).idle)
    ensures Step(headerSize, timeout, s, poll).Again? ==>
              Step(headerSize, timeout, s, poll).idle.data == s.data + (if poll.got.Data? then poll.got.bytes else [])
    ensures var t := Step(headerSize, timeout, s, poll);
            t.Done? ==> (!t.outcome.timedOut ==> FrameReceived(headerSize, t.outcome.data))
                        && s.data <= t.outcome.data <= s.data + (if poll.got.Data? then poll.got.bytes else [])
  {
    if poll.got.Data? && |s.data| > 8 {
      assert (s.data + poll.got.bytes)[4..8] == s.data[4..8];
    }
  }

  lemma {:induction false} RunFramed(headerSize: nat, timeout: real, polls: seq<Poll>, s: Idle)
    requires headerSize >= 8 && Consistent(headerSize, s)
    ensures var o := Run(headerSize, timeout, polls, s); !o.timedOut ==> FrameReceived(headerSize, o.data)
    ensures s.data <= Run(headerSize, timeout, polls, s).data <= s.data + Delivered(polls)
    decreases |polls|
  {
    if polls != [] {
      var poll := polls[0];
      var chunk := if poll.got.Data? then poll.got.bytes else [];
      assert s.data + Delivered(polls) == s.data + chunk + Delivered(polls[1..]);
      StepFramed(headerSize, timeout, s, poll);
      match Step(headerSize, timeout, s, poll)
      case Done(o) =>
      case Again(s') =>
        RunFramed(headerSize, timeout, polls[1..], s');
    }
  }

  /**
    Without the time-out flag the buffer holds a whole frame behind a full
    header, so the callers' `if data:` test always passes; in every case the
    buffer is a prefix of the bytes delivered.
   */
  lemma ReceiveFramed(headerSize: nat, timeout: real, polls: seq<Poll>)
    requires headerSize >= 8
    ensures var o := Receive(headerSize, timeout, polls); !o.timedOut ==> FrameReceived(headerSize, o.data)
    ensures Receive(headerSize, timeout, polls).data <= Delivered(polls)
  {
    RunFramed(headerSize, timeout, polls, Start);
  }

  /**
    Every pass of `polls` starts before the loop's deadline: within `timeout`
    of the last arrival once bytes are buffered, within twice that before the
    first byte. `begin` is when bytes last arrived.
   */
  predicate Prompt(timeout: real, buffered: bool, begin: real, polls: seq<Poll>)
    decreases |polls|
  {
    polls == [] ||
    var got := if polls[0].got.Data? then polls[0].got.bytes else [];
    && polls[0].before - begin <= (if buffered then timeout else timeout * 2.0)
    && Prompt(timeout, buffered || got != [], if got != [] then polls[0].after else begin, polls[1..])
  }

  lemma {:induction false} RunPartWay(headerSize: nat, timeout: real, polls: seq<Poll>, s: Idle, frame: seq<byte>)
    requires headerSize >= 8 && timeout >= 0.0
    requires FrameReceived(headerSize, frame) && WellFramed(frame)
    requires s.data + Delivered(polls) == frame && |s.data| < |frame|
    requires s.frameLen == (if |s.data| > 8 && |s.data| >= headerSize then |frame| - 8 else 0)
    requires Prompt(timeout, |s.data| > 0, s.begin, polls)
    ensures Run(headerSize, timeout, polls, s) == Outcome(false, frame)
    decreases |polls|
  {
    var poll := polls[0];
    var chunk := if poll.got.Data? then poll.got.bytes else [];
    assert !Expired(timeout, s, poll.before);
    assert Delivered(polls) == chunk + Delivered(polls[1..]);
    if chunk == [] {
      assert Step(headerSize, timeout, s, poll) == Again(s);
      RunPartWay(headerSize, timeout, polls[1..], s, frame);
    } else {
      var data := s.data + chunk;
      assert data + Delivered(polls[1..]) == frame;
      if |data| > 8 {
        assert data[4..8] == frame[4..8];
      }
      var frameLen := if |data| > 8 && |data| >= headerSize then |frame| - 8 else 0;
      if |data| == |frame| {
        assert data == frame;
        assert Step(headerSize, timeout, s, poll) == Done(Outcome(false, frame));
      } else {
        assert Step(headerSize, timeout, s, poll) == Again(Idle(data, frameLen, poll.after));
        RunPartWay(headerSize, timeout, polls[1..], Idle(data, frameLen, poll.after), frame);
      }
    }
  }

  /**
    Conversely, a whole frame delivered in any number of chunks, each pass
    before the idle deadline, is received without the time-out flag.
   */
  lemma WholeFrameReceived(headerSize: nat, timeout: real, frame: seq<byte>, polls: seq<Poll>)
    requires headerSize >= 8 && timeout >= 0.0
    requires FrameReceived(headerSize, frame) && WellFramed(frame)
    requires Delivered(polls) == frame && Prompt(timeout, false, 0.0, polls)
    ensures Receive(headerSize, timeout, polls) == Outcome(false, frame)
  {
    RunPartWay(headerSize, timeout, polls, Start, frame);
  }

  lemma {:induction false} RunSilent(headerSize: nat, timeout: real, polls: seq<Poll>, s: Idle)
    requires headerSize >= 8 && s.data == [] && Delivered(polls) == []
    ensures Run(headerSize, timeout, polls, s) == Outcome(true, [])
    decreases |polls|
  {
    if polls != [] {
      var poll := polls[0];
      assert (if poll.got.Data? then poll.got.bytes else []) == [] by {
        assert Delivered(polls) == (if poll.got.Data? then poll.got.bytes else []) + Delivered(polls[1..]);
      }
      match Step(headerSize, timeout, s, poll)
      case Done(o) =>
      case Again(s') => RunSilent(headerSize, timeout, polls[1..], s');
    }
  }

  /** A server that sends nothing leaves the flag set and the buffer empty. */
  lemma SilentServerTimesOut(headerSize: nat, timeout: real, polls: seq<Poll>)
    requires headerSize >= 8 && Delivered(polls) == []
    ensures Receive(headerSize, timeout, polls) == Outcome(true, [])
  {
    RunSilent(headerSize, timeout, polls, Start);
  }
}
