/**
  Wire layouts of the unified client (`py_realdb_sdk.py`) for server versions
  1, 2 and 3. Every request starts with a 4-byte command tag and a signed
  32-bit length field that counts the bytes after it. A `struct.pack` call
  that would raise (`struct.error`, a field out of range) is an encoder that
  returns None.

  The decoders of requests are the reference reading of each layout: the
  round-trip lemmas show that a packed request carries exactly its fields.
 */
module Codec {
  import opened Bytes
  import opened Optional
  import opened Protocol
  import AsciiText
  import opened Arith

  /** `i`: a signed 32-bit field. */
  function I32(x: int): (r: seq<byte>)
    requires FitsSigned(x, 4)
    ensures |r| == 4
  {
    EncodeSigned(x, 4)
  }

  /** `Q`: an unsigned 64-bit field. */
  function U64(x: Nonce): (r: seq<byte>)
    ensures |r| == 8
  {
    Pow256Widths();
    EncodeUnsigned(x, 8)
  }

  predicate AllUnsigned(xs: seq<int>, w: nat)
  {
    forall i :: 0 <= i < |xs| ==> FitsUnsigned(xs[i], w)
  }

  predicate AllSigned(xs: seq<int>, w: nat)
  {
    forall i :: 0 <= i < |xs| ==> FitsSigned(xs[i], w)
  }

  /** `str(n) + 'H'` applied to a list: the values one after another, w bytes each. */
  function PackUnsignedEach(xs: seq<int>, w: nat): (r: seq<byte>)
    requires AllUnsigned(xs, w)
    ensures |r| == w * |xs|
  {
    if xs == [] then [] else EncodeUnsigned(xs[0], w) + PackUnsignedEach(xs[1..], w)
  }

  /** Reads consecutive w-byte values; a trailing piece shorter than w is not read. */
  function UnpackUnsignedEach(s: seq<byte>, w: nat): (xs: seq<int>)
    requires w > 0
    decreases |s|
  {
    if |s| < w then [] else [DecodeUnsigned(s[..w])] + UnpackUnsignedEach(s[w..], w)
  }

  lemma {:induction false} UnpackPackUnsigned(xs: seq<int>, w: nat)
    requires w > 0 && AllUnsigned(xs, w)
    ensures UnpackUnsignedEach(PackUnsignedEach(xs, w), w) == xs
  {
    if xs != [] {
      var s := PackUnsignedEach(xs, w);
      assert s[..w] == EncodeUnsigned(xs[0], w);
      assert s[w..] == PackUnsignedEach(xs[1..], w);
      UnsignedRoundTrip(xs[0], w);
      UnpackPackUnsigned(xs[1..], w);
    }
  }

  /** `str(n) + 'h'` applied to a list: signed values one after another, w bytes each. */
  function PackSignedEach(xs: seq<int>, w: nat): (r: seq<byte>)
    requires AllSigned(xs, w)
    ensures |r| == w * |xs|
  {
    if xs == [] then [] else EncodeSigned(xs[0], w) + PackSignedEach(xs[1..], w)
  }

  function UnpackSignedEach(s: seq<byte>, w: nat): (xs: seq<int>)
    requires w > 0
    decreases |s|
  {
    if |s| < w then [] else [DecodeSigned(s[..w])] + UnpackSignedEach(s[w..], w)
  }

  lemma {:induction false} UnpackPackSigned(xs: seq<int>, w: nat)
    requires w > 0 && AllSigned(xs, w)
    ensures UnpackSignedEach(PackSignedEach(xs, w), w) == xs
  {
    if xs != [] {
      var s := PackSignedEach(xs, w);
      assert s[..w] == EncodeSigned(xs[0], w);
      assert s[w..] == PackSignedEach(xs[1..], w);
      SignedRoundTrip(xs[0], w);
      UnpackPackSigned(xs[1..], w);
    }
  }

  /** `'hf' * n` or `'if' * n` over interleaved (address, value) pairs, packed without padding. */
  function PackPairs(addresses: seq<int>, values: seq<Sample>, w: nat): (r: seq<byte>)
    requires |addresses| == |values| && AllSigned(addresses, w)
    ensures |r| == (w + 4) * |addresses|
  {
    if addresses == [] then []
    else EncodeSigned(addresses[0], w) + values[0] + PackPairs(addresses[1..], values[1..], w)
  }

  /** Reads consecutive (address, value) records; a trailing piece shorter than a record is not read. */
  function UnpackPairs(s: seq<byte>, w: nat): (r: (seq<int>, seq<Sample>))
    ensures |r.0| == |r.1|
    decreases |s|
  {
    if |s| < w + 4 then ([], [])
    else
      var rest := UnpackPairs(s[w + 4..], w);
      ([DecodeSigned(s[..w])] + rest.0, [s[w..w + 4]] + rest.1)
  }

  lemma {:induction false} UnpackPackPairs(addresses: seq<int>, values: seq<Sample>, w: nat)
    requires |addresses| == |values| && AllSigned(addresses, w)
    ensures UnpackPairs(PackPairs(addresses, values, w), w) == (addresses, values)
  {
    if addresses != [] {
      var s := PackPairs(addresses, values, w);
      assert s[..w] == EncodeSigned(addresses[0], w);
      assert s[w..w + 4] == values[0];
      assert s[w + 4..] == PackPairs(addresses[1..], values[1..], w);
      SignedRoundTrip(addresses[0], w);
      UnpackPackPairs(addresses[1..], values[1..], w);
      assert [addresses[0]] + addresses[1..] == addresses;
      assert [values[0]] + values[1..] == values;
    }
  }

  /** The value of the length field of a packed frame. */
  function LengthField(frame: seq<byte>): int
    requires |frame| >= 8
  {
    DecodeSigned(frame[4..8])
  }

  /** The length field of a frame counts exactly the bytes after it. */
  predicate WellFramed(frame: seq<byte>)
  {
    |frame| >= 8 && LengthField(frame) == |frame| - 8
  }

  // ---------------------------------------------------------------- ping, tcon

  /** `=4siQii`: a `ping` or `tcon` request for version 3, with nonce, version 0 and a zero word. */
  function EncodeCommand(cmd: seq<byte>, nonce: Nonce): (r: seq<byte>)
    requires |cmd| == 4
    ensures |r| == 24 && r[..4] == cmd
  {
    cmd + I32(16) + U64(nonce) + I32(0) + I32(0)
  }

  function DecodeCommand(r: seq<byte>): Option<(seq<byte>, int)>
  {
    if |r| == 24 && LengthField(r) == 16 && DecodeSigned(r[16..20]) == 0 && DecodeSigned(r[20..24]) == 0
    then Some((r[..4], DecodeUnsigned(r[8..16])))
    else None
  }

  /** A `ping`/`tcon` request is 24 bytes, declares 16, and carries its tag and nonce. */
  lemma CommandRoundTrip(cmd: seq<byte>, nonce: Nonce)
    requires |cmd| == 4
    ensures |EncodeCommand(cmd, nonce)| == 24 && WellFramed(EncodeCommand(cmd, nonce))
    ensures DecodeCommand(EncodeCommand(cmd, nonce)) == Some((cmd, nonce))
  {
    Pow256Widths();
    var r := EncodeCommand(cmd, nonce);
    Header5(cmd, 16, nonce, 0, 0, []);
    assert r + [] == r;
  }

  // ---------------------------------------------------------------- read

  datatype ReadRequest = ReadRequest(nonce: int, start: int, duration: int, addresses: seq<int>)

  /** What `__mk_a_read_req` packs for one sub-range; None where `struct.pack` raises. */
  function EncodeRead(version: Version, nonce: Nonce, start: int, duration: int, addresses: seq<int>): (r: Option<seq<byte>>)
    ensures version.Unsupported? ==> r.None?
    ensures r.Some? ==> |r.value| >= 8 && r.value[..4] == READ
    ensures r.Some? && version.V3? ==> |r.value| == 28 + 2 * |addresses|
    ensures r.Some? && version.V2? ==> |r.value| == 24 + 2 * |addresses|
    ensures r.Some? && version.V1? ==> r.value[8..] == AsciiText.ReadText(addresses, start, duration)
  {
    var n := |addresses|;
    match version
    case V3 =>
      if FitsSigned(20 + 2 * n, 4) && FitsSigned(start, 4) && FitsSigned(duration, 4) && AllUnsigned(addresses, 2)
      then Some(READ + I32(20 + 2 * n) + U64(nonce) + I32(0) + I32(start) + I32(duration) + PackUnsignedEach(addresses, 2))
      else None
    case V2 =>
      if FitsSigned(16 + 2 * n, 4) && FitsSigned(start, 4) && FitsSigned(duration, 4) && AllUnsigned(addresses, 2)
      then Some(READ + I32(16 + 2 * n) + U64(nonce) + I32(start) + I32(duration) + PackUnsignedEach(addresses, 2))
      else None
    case V1 =>
      var text := AsciiText.ReadText(addresses, start, duration);
      if FitsSigned(|text|, 4) then Some(READ + I32(|text|) + text) else None
    case Unsupported(_) => None
  }

  function DecodeRead(version: Version, r: seq<byte>): Option<ReadRequest>
  {
    match version
    case V3 =>
      if |r| >= 28 && (|r| - 28) % 2 == 0 && r[..4] == READ && LengthField(r) == |r| - 8 && DecodeSigned(r[16..20]) == 0
      then Some(ReadRequest(DecodeUnsigned(r[8..16]), DecodeSigned(r[20..24]), DecodeSigned(r[24..28]), UnpackUnsignedEach(r[28..], 2)))
      else None
    case V2 =>
      if |r| >= 24 && (|r| - 24) % 2 == 0 && r[..4] == READ && LengthField(r) == |r| - 8
      then Some(ReadRequest(DecodeUnsigned(r[8..16]), DecodeSigned(r[16..20]), DecodeSigned(r[20..24]), UnpackUnsignedEach(r[24..], 2)))
      else None
    case V1 =>
      if |r| >= 8 && r[..4] == READ && LengthField(r) == |r| - 8 then
        match AsciiText.ParseReadText(r[8..])
        case None => None
        case Some((addresses, start, duration)) => Some(ReadRequest(0, start, duration, addresses))
      else None
    case Unsupported(_) => None
  }

  /** `pack` raises exactly when a field does not fit its format, or the version is unknown. */
  lemma EncodeReadFails(version: Version, nonce: Nonce, start: int, duration: int, addresses: seq<int>)
    ensures (version.V2? || version.V3?) && !AllUnsigned(addresses, 2) ==> EncodeRead(version, nonce, start, duration, addresses) == None
    ensures (version.V2? || version.V3?) && !(FitsSigned(start, 4) && FitsSigned(duration, 4)) ==> EncodeRead(version, nonce, start, duration, addresses) == None
    ensures version.Unsupported? ==> EncodeRead(version, nonce, start, duration, addresses) == None
    ensures ((version.V2? || version.V3?) && |addresses| < 1000 && AllUnsigned(addresses, 2)
             && FitsSigned(start, 4) && FitsSigned(duration, 4)) ==> EncodeRead(version, nonce, start, duration, addresses).Some?
  {
    Pow256Widths();
  }

  /**
    A packed read request has the size of its layout (28+2n, 24+2n, 8+text),
    its length field counts the bytes after it, and it decodes to the fields
    it was packed from (version 1 carries no nonce).
   */
  lemma ReadRoundTrip(version: Version, nonce: Nonce, start: int, duration: int, addresses: seq<int>)
    requires EncodeRead(version, nonce, start, duration, addresses).Some?
    ensures var r := EncodeRead(version, nonce, start, duration, addresses).value;
      && WellFramed(r)
      && (version.V3? ==> |r| == 28 + 2 * |addresses|)
      && (version.V2? ==> |r| == 24 + 2 * |addresses|)
      && (version.V1? ==> r[8..] == AsciiText.ReadText(addresses, start, duration))
      && DecodeRead(version, r) == Some(ReadRequest(if version.V1? then 0 else nonce, start, duration, addresses))
  {
    match version {
      case V3 => ReadRoundTripV3(nonce, start, duration, addresses);
      case V2 => ReadRoundTripV2(nonce, start, duration, addresses);
      case V1 => ReadRoundTripV1(nonce, start, duration, addresses);
    }
  }

  lemma ReadRoundTripV3(nonce: Nonce, start: int, duration: int, addresses: seq<int>)
    requires EncodeRead(V3, nonce, start, duration, addresses).Some?
    ensures var r := EncodeRead(V3, nonce, start, duration, addresses).value;
      WellFramed(r) && |r| == 28 + 2 * |addresses| && DecodeRead(V3, r) == Some(ReadRequest(nonce, start, duration, addresses))
  {
    var n := |addresses|;
    Pow256Widths();
    var body := PackUnsignedEach(addresses, 2);
    var r := READ + I32(20 + 2 * n) + U64(nonce) + I32(0) + I32(start) + I32(duration) + body;
    assert EncodeRead(V3, nonce, start, duration, addresses) == Some(r);
    Header6(READ, 20 + 2 * n, nonce, 0, start, duration, body);
    DivUnique(2 * n, 2, n, 0);
    UnpackPackUnsigned(addresses, 2);
  }

  /** Where the six fixed fields of a version 3 header sit in the frame. */
  lemma Layout6(a: seq<byte>, b: seq<byte>, c: seq<byte>, d: seq<byte>, e: seq<byte>, f: seq<byte>, rest: seq<byte>)
    requires |a| == 4 && |b| == 4 && |c| == 8 && |d| == 4 && |e| == 4 && |f| == 4
    ensures var r := a + b + c + d + e + f + rest;
      && |r| == 28 + |rest|
      && r[..4] == a && r[4..8] == b && r[8..16] == c && r[16..20] == d
      && r[20..24] == e && r[24..28] == f && r[28..] == rest
  {
    var r := a + b + c + d + e + f + rest;
    assert r == a + (b + (c + (d + (e + (f + rest)))));
  }

  /** Where the five fixed fields of a tag, length, 64-bit word and two 32-bit words sit in the frame. */
  lemma Layout5(a: seq<byte>, b: seq<byte>, c: seq<byte>, d: seq<byte>, e: seq<byte>, rest: seq<byte>)
    requires |a| == 4 && |b| == 4 && |c| == 8 && |d| == 4 && |e| == 4
    ensures var r := a + b + c + d + e + rest;
      && |r| == 24 + |rest|
      && r[..4] == a && r[4..8] == b && r[8..16] == c && r[16..20] == d && r[20..24] == e && r[24..] == rest
  {
    var r := a + b + c + d + e + rest;
    assert r == a + (b + (c + (d + (e + rest))));
  }

  /** Where the four fixed fields of a tag, length, 64-bit word and one 32-bit word sit in the frame. */
  lemma Layout4(a: seq<byte>, b: seq<byte>, c: seq<byte>, d: seq<byte>, rest: seq<byte>)
    requires |a| == 4 && |b| == 4 && |c| == 8 && |d| == 4
    ensures var r := a + b + c + d + rest;
      && |r| == 20 + |rest|
      && r[..4] == a && r[4..8] == b && r[8..16] == c && r[16..20] == d && r[20..] == rest
  {
    var r := a + b + c + d + rest;
    assert r == a + (b + (c + (d + rest)));
  }

  /** A tag, the length, the nonce and three 32-bit words, then the rest: what each field decodes to. */
  lemma Header6(tag: seq<byte>, len: int, nonce: Nonce, x: int, y: int, z: int, rest: seq<byte>)
    requires |tag| == 4 && FitsSigned(len, 4) && FitsSigned(x, 4) && FitsSigned(y, 4) && FitsSigned(z, 4)
    ensures var r := tag + I32(len) + U64(nonce) + I32(x) + I32(y) + I32(z) + rest;
      && |r| == 28 + |rest| && r[..4] == tag && DecodeSigned(r[4..8]) == len
      && DecodeUnsigned(r[8..16]) == nonce && DecodeSigned(r[16..20]) == x
      && DecodeSigned(r[20..24]) == y && DecodeSigned(r[24..28]) == z && r[28..] == rest
  {
    Pow256Widths();
    Layout6(tag, I32(len), U64(nonce), I32(x), I32(y), I32(z), rest);
    SignedRoundTrip(len, 4);
    UnsignedRoundTrip(nonce, 8);
    SignedRoundTrip(x, 4);
    SignedRoundTrip(y, 4);
    SignedRoundTrip(z, 4);
  }

  /** A tag, the length, the nonce and two 32-bit words, then the rest: what each field decodes to. */
  lemma Header5(tag: seq<byte>, len: int, nonce: Nonce, x: int, y: int, rest: seq<byte>)
    requires |tag| == 4 && FitsSigned(len, 4) && FitsSigned(x, 4) && FitsSigned(y, 4)
    ensures var r := tag + I32(len) + U64(nonce) + I32(x) + I32(y) + rest;
      && |r| == 24 + |rest| && r[..4] == tag && DecodeSigned(r[4..8]) == len
      && DecodeUnsigned(r[8..16]) == nonce && DecodeSigned(r[16..20]) == x
      && DecodeSigned(r[20..24]) == y && r[24..] == rest
  {
    Pow256Widths();
    Layout5(tag, I32(len), U64(nonce), I32(x), I32(y), rest);
    SignedRoundTrip(len, 4);
    UnsignedRoundTrip(nonce, 8);
    SignedRoundTrip(x, 4);
    SignedRoundTrip(y, 4);
  }

  /** A tag, the length, the nonce and one 32-bit word, then the rest: what each field decodes to. */
  lemma Header4(tag: seq<byte>, len: int, nonce: Nonce, x: int, rest: seq<byte>)
    requires |tag| == 4 && FitsSigned(len, 4) && FitsSigned(x, 4)
    ensures var r := tag + I32(len) + U64(nonce) + I32(x) + rest;
      && |r| == 20 + |rest| && r[..4] == tag && DecodeSigned(r[4..8]) == len
      && DecodeUnsigned(r[8..16]) == nonce && DecodeSigned(r[16..20]) == x && r[20..] == rest
  {
    Pow256Widths();
    Layout4(tag, I32(len), U64(nonce), I32(x), rest);
    SignedRoundTrip(len, 4);
    UnsignedRoundTrip(nonce, 8);
    SignedRoundTrip(x, 4);
  }

  /** A tag and the length, then the rest: what the length decodes to. */
  lemma Header2(tag: seq<byte>, len: int, rest: seq<byte>)
    requires |tag| == 4 && FitsSigned(len, 4)
    ensures var r := tag + I32(len) + rest;
      && |r| == 8 + |rest| && r[..4] == tag && DecodeSigned(r[4..8]) == len && r[8..] == rest
  {
    var r := tag + I32(len) + rest;
    assert r == tag + (I32(len) + rest);
    SignedRoundTrip(len, 4);
  }

  lemma ReadRoundTripV2(nonce: Nonce, start: int, duration: int, addresses: seq<int>)
    requires EncodeRead(V2, nonce, start, duration, addresses).Some?
    ensures var r := EncodeRead(V2, nonce, start, duration, addresses).value;
      WellFramed(r) && |r| == 24 + 2 * |addresses| && DecodeRead(V2, r) == Some(ReadRequest(nonce, start, duration, addresses))
  {
    var n := |addresses|;
    Pow256Widths();
    var body := PackUnsignedEach(addresses, 2);
    var r := READ + I32(16 + 2 * n) + U64(nonce) + I32(start) + I32(duration) + body;
    assert EncodeRead(V2, nonce, start, duration, addresses) == Some(r);
    Header5(READ, 16 + 2 * n, nonce, start, duration, body);
    DivUnique(2 * n, 2, n, 0);
    UnpackPackUnsigned(addresses, 2);
  }

  lemma ReadRoundTripV1(nonce: Nonce, start: int, duration: int, addresses: seq<int>)
    requires EncodeRead(V1, nonce, start, duration, addresses).Some?
    ensures var r := EncodeRead(V1, nonce, start, duration, addresses).value;
      WellFramed(r) && r[8..] == AsciiText.ReadText(addresses, start, duration)
      && DecodeRead(V1, r) == Some(ReadRequest(0, start, duration, addresses))
  {
    var text := AsciiText.ReadText(addresses, start, duration);
    var r := READ + I32(|text|) + text;
    assert EncodeRead(V1, nonce, start, duration, addresses) == Some(r);
    Header2(READ, |text|, text);
    AsciiText.ReadTextRoundTrip(addresses, start, duration);
  }

  // ---------------------------------------------------------------- write

  datatype WriteRequest = WriteRequest(nonce: int, writeTime: int, addresses: seq<int>, values: seq<Sample>)

  /** What `WriteData` packs; None where `struct.pack` raises. */
  function EncodeWrite(version: Version, nonce: Nonce, writeTime: int, addresses: seq<int>, values: seq<Sample>): (r: Option<seq<byte>>)
    requires |addresses| == |values|
    ensures version.Unsupported? ==> r.None?
    ensures r.Some? ==> |r.value| >= 8 && r.value[..4] == WRIT
    ensures r.Some? && version.V3? ==> |r.value| == 24 + 6 * |addresses|
    ensures r.Some? && version.V2? ==> |r.value| == 20 + 6 * |addresses|
    ensures r.Some? && version.V1? ==> |r.value| == 8 + 8 * |addresses|
  {
    var n := |addresses|;
    match version
    case V3 =>
      if FitsSigned(16 + 6 * n, 4) && FitsSigned(writeTime, 4) && AllSigned(addresses, 2)
      then Some(WRIT + I32(16 + 6 * n) + U64(nonce) + I32(0) + I32(writeTime) + PackPairs(addresses, values, 2))
      else None
    case V2 =>
      if FitsSigned(12 + 6 * n, 4) && FitsSigned(writeTime, 4) && AllSigned(addresses, 2)
      then Some(WRIT + I32(12 + 6 * n) + U64(nonce) + I32(writeTime) + PackPairs(addresses, values, 2))
      else None
    case V1 =>
      if FitsSigned(8 * n, 4) && AllSigned(addresses, 4)
      then Some(WRIT + I32(8 * n) + PackPairs(addresses, values, 4))
      else None
    case Unsupported(_) => None
  }

  function DecodeWrite(version: Version, r: seq<byte>): Option<WriteRequest>
  {
    match version
    case V3 =>
      if |r| >= 24 && (|r| - 24) % 6 == 0 && r[..4] == WRIT && LengthField(r) == |r| - 8 && DecodeSigned(r[16..20]) == 0
      then var p := UnpackPairs(r[24..], 2); Some(WriteRequest(DecodeUnsigned(r[8..16]), DecodeSigned(r[20..24]), p.0, p.1))
      else None
    case V2 =>
      if |r| >= 20 && (|r| - 20) % 6 == 0 && r[..4] == WRIT && LengthField(r) == |r| - 8
      then var p := UnpackPairs(r[20..], 2); Some(WriteRequest(DecodeUnsigned(r[8..16]), DecodeSigned(r[16..20]), p.0, p.1))
      else None
    case V1 =>
      if |r| >= 8 && (|r| - 8) % 8 == 0 && r[..4] == WRIT && LengthField(r) == |r| - 8
      then var p := UnpackPairs(r[8..], 4); Some(WriteRequest(0, 0, p.0, p.1))
      else None
    case Unsupported(_) => None
  }

  /**
    `pack` raises when an address does not fit its format or the version is
    unknown; a V1 frame of fewer than 1000 in-range addresses always packs.
   */
  lemma EncodeWriteFails(version: Version, nonce: Nonce, writeTime: int, addresses: seq<int>, values: seq<Sample>)
    requires |addresses| == |values|
    ensures (version.V2? || version.V3?) && !AllSigned(addresses, 2) ==> EncodeWrite(version, nonce, writeTime, addresses, values) == None
    ensures version.V1? && !AllSigned(addresses, 4) ==> EncodeWrite(version, nonce, writeTime, addresses, values) == None
    ensures version.Unsupported? ==> EncodeWrite(version, nonce, writeTime, addresses, values) == None
    ensures version.V1? && |addresses| < 1000 && AllSigned(addresses, 4) ==> EncodeWrite(version, nonce, writeTime, addresses, values).Some?
  {
    Pow256Widths();
  }

  /**
    A packed write request has the size of its layout (24+6n, 20+6n, 8+8n),
    its length field counts the bytes after it, and it decodes to the pairs
    it was packed from (version 1 carries neither nonce nor write time).
   */
  lemma WriteRoundTrip(version: Version, nonce: Nonce, writeTime: int, addresses: seq<int>, values: seq<Sample>)
    requires |addresses| == |values|
    requires EncodeWrite(version, nonce, writeTime, addresses, values).Some?
    ensures var r := EncodeWrite(version, nonce, writeTime, addresses, values).value;
      && WellFramed(r)
      && (version.V3? ==> |r| == 24 + 6 * |addresses|)
      && (version.V2? ==> |r| == 20 + 6 * |addresses|)
      && (version.V1? ==> |r| == 8 + 8 * |addresses|)
      && DecodeWrite(version, r) == Some(
           if version.V1? then WriteRequest(0, 0, addresses, values)
           else WriteRequest(nonce, writeTime, addresses, values))
  {
    match version {
      case V3 => WriteRoundTripV3(nonce, writeTime, addresses, values);
      case V2 => WriteRoundTripV2(nonce, writeTime, addresses, values);
      case V1 => WriteRoundTripV1(addresses, values);
    }
  }

  lemma WriteRoundTripV3(nonce: Nonce, writeTime: int, addresses: seq<int>, values: seq<Sample>)
    requires |addresses| == |values|
    requires EncodeWrite(V3, nonce, writeTime, addresses, values).Some?
    ensures var r := EncodeWrite(V3, nonce, writeTime, addresses, values).value;
      WellFramed(r) && |r| == 24 + 6 * |addresses| && DecodeWrite(V3, r) == Some(WriteRequest(nonce, writeTime, addresses, values))
  {
    var n := |addresses|;
    Pow256Widths();
    var body := PackPairs(addresses, values, 2);
    var r := WRIT + I32(16 + 6 * n) + U64(nonce) + I32(0) + I32(writeTime) + body;
    assert EncodeWrite(V3, nonce, writeTime, addresses, values) == Some(r);
    Header5(WRIT, 16 + 6 * n, nonce, 0, writeTime, body);
    DivUnique(6 * n, 6, n, 0);
    UnpackPackPairs(addresses, values, 2);
  }

  lemma WriteRoundTripV2(nonce: Nonce, writeTime: int, addresses: seq<int>, values: seq<Sample>)
    requires |addresses| == |values|
    requires EncodeWrite(V2, nonce, writeTime, addresses, values).Some?
    ensures var r := EncodeWrite(V2, nonce, writeTime, addresses, values).value;
      WellFramed(r) && |r| == 20 + 6 * |addresses| && DecodeWrite(V2, r) == Some(WriteRequest(nonce, writeTime, addresses, values))
  {
    var n := |addresses|;
    Pow256Widths();
    var body := PackPairs(addresses, values, 2);
    var r := WRIT + I32(12 + 6 * n) + U64(nonce) + I32(writeTime) + body;
    assert EncodeWrite(V2, nonce, writeTime, addresses, values) == Some(r);
    Header4(WRIT, 12 + 6 * n, nonce, writeTime, body);
    DivUnique(6 * n, 6, n, 0);
    UnpackPackPairs(addresses, values, 2);
  }

  lemma WriteRoundTripV1(addresses: seq<int>, values: seq<Sample>)
    requires |addresses| == |values|
    requires EncodeWrite(V1, 0, 0, addresses, values).Some?
    ensures forall nonce: Nonce, writeTime: int :: EncodeWrite(V1, nonce, writeTime, addresses, values) == EncodeWrite(V1, 0, 0, addresses, values)
    ensures var r := EncodeWrite(V1, 0, 0, addresses, values).value;
      WellFramed(r) && |r| == 8 + 8 * |addresses| && DecodeWrite(V1, r) == Some(WriteRequest(0, 0, addresses, values))
  {
    var n := |addresses|;
    var body := PackPairs(addresses, values, 4);
    var r := WRIT + I32(8 * n) + body;
    assert EncodeWrite(V1, 0, 0, addresses, values) == Some(r);
    Header2(WRIT, 8 * n, body);
    DivUnique(8 * n, 8, n, 0);
    UnpackPackPairs(addresses, values, 4);
  }

  // ---------------------------------------------------------------- replies

  /** Fixed part of a read reply before the samples: `=4siQ3B`, `=4siQB`, `4si`. */
  function ReadReplyHeaderSize(version: Version): nat
    requires !version.Unsupported?
  {
    match version
    case V3 => 19
    case V2 => 17
    case V1 => 8
  }

  /**
    The samples of a read reply for n addresses over d seconds: the reply must
    be exactly the header and n*d four-byte words, or `struct.unpack` raises.
   */
  function DecodeReadReply(version: Version, n: nat, d: nat, data: seq<byte>): (r: Option<seq<Sample>>)
    requires !version.Unsupported?
    ensures r.Some? <==> |data| == ReadReplyHeaderSize(version) + 4 * (n * d)
    ensures r.Some? ==> |r.value| == n * d && Unwords(r.value) == data[ReadReplyHeaderSize(version)..]
  {
    var h := ReadReplyHeaderSize(version);
    if |data| == h + 4 * (n * d) then
      UnwordsOfWords(data[h..]);
      Some(Words(data[h..]))
    else None
  }

  /** `=4siQbq`: a version 3 ping reply is exactly 25 bytes; the last eight are the server's clock in milliseconds. */
  function DecodePingReply(data: seq<byte>): (r: Option<int>)
    ensures r.Some? <==> |data| == 25
    ensures r.Some? ==> FitsSigned(r.value, 8)
  {
    if |data| == 25 then Some(DecodeSigned(data[17..25])) else None
  }

  const BOM: seq<byte> := [0xEF, 0xBB, 0xBF]

  /** The CSV bytes of a `tcon` reply: what follows the 17-byte header, with a leading UTF-8 byte-order mark removed. */
  function TagConfigText(data: seq<byte>): (csv: seq<byte>)
    ensures |data| >= 17 && (|data| < 20 || data[17..20] != BOM) ==> csv == data[17..]
    ensures |data| >= 20 && data[17..20] == BOM ==> csv == data[20..]
    ensures |data| < 17 ==> csv == []
  {
    var body := if |data| >= 17 then data[17..] else [];
    if |body| >= 3 && body[..3] == BOM then body[3..] else body
  }

  /**
    The server sends the tag table as a 17-byte header, optionally a UTF-8
    byte-order mark, then the CSV text: the text comes back either way.
   */
  lemma TagConfigTextRoundTrip(header: seq<byte>, text: seq<byte>)
    requires |header| == 17 && (|text| < 3 || text[..3] != BOM)
    ensures TagConfigText(header + text) == text
    ensures TagConfigText(header + BOM + text) == text
  {
    assert (header + text)[17..] == text;
    assert (header + BOM + text)[17..] == BOM + text;
    assert (header + BOM + text)[17..20] == BOM;
    if |text| >= 3 {
      assert (header + text)[17..20] == text[..3];
    }
  }
}
