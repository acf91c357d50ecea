/**
  Frames of the legacy client that speaks the version 3 layout
  (`py_realdb_sdk2.py`). It always sends nonce 10 and version 10000, packs
  addresses as signed 16-bit `h`, and packs without the `=` prefix, so
  Python's native alignment applies.

  For read requests native alignment inserts nothing. For write requests it
  does: every `h` is followed by two padding bytes before the next `f`, so
  the frame is two bytes per pair longer than its length field says
  (`WriteAsWrittenMisframed`). The client sends that padded frame
  (`EncodeWriteAsWritten`, packed with `NATIVE_PAD`). `EncodeWrite` is the
  corrected frame, the unpadded layout the length field describes, and
  `WriteRoundTrip` is proved about it; `AsWrittenStripped` links the two.
 */
module LegacyV3Codec {
  import opened Bytes
  import opened Optional
  import opened Protocol
  import opened Codec
  import opened Arith
  import opened LegacyCommon

  /** The nonce (`rndcode`) and the version word the legacy client always sends. */
  const RNDCODE: int := 10
  const VERSION: int := 10000

  /** `q`: a signed 64-bit field. */
  function I64(x: int): (r: seq<byte>)
    requires FitsSigned(x, 8)
    ensures |r| == 8
  {
    EncodeSigned(x, 8)
  }

  datatype LegacyReadRequest = LegacyReadRequest(nonce: int, version: int, start: int, duration: int, addresses: seq<int>)

  /** `4siqiii` + n `h`: what `__mk_a_read_req` packs; None where `struct.pack` raises. */
  function EncodeRead(start: int, duration: int, addresses: seq<int>): (r: Option<seq<byte>>)
    ensures r.Some? ==> |r.value| == 28 + 2 * |addresses| && r.value[..4] == READ
  {
    var n := |addresses|;
    Pow256Widths();
    if FitsSigned(20 + 2 * n, 4) && FitsSigned(start, 4) && FitsSigned(duration, 4) && AllSigned(addresses, 2)
    then Some(READ + I32(20 + 2 * n) + I64(RNDCODE) + I32(VERSION) + I32(start) + I32(duration) + PackSignedEach(addresses, 2))
    else None
  }

  function DecodeRead(r: seq<byte>): Option<LegacyReadRequest>
  {
    if |r| >= 28 && (|r| - 28) % 2 == 0 && r[..4] == READ && LengthField(r) == |r| - 8
    then Some(LegacyReadRequest(DecodeSigned(r[8..16]), DecodeSigned(r[16..20]), DecodeSigned(r[20..24]),
                          DecodeSigned(r[24..28]), UnpackSignedEach(r[28..], 2)))
    else None
  }

  /** Packing raises exactly when an address is outside the signed 16-bit range or a time field outside 32 bits. */
  lemma EncodeReadFails(start: int, duration: int, addresses: seq<int>)
    ensures !AllSigned(addresses, 2) ==> EncodeRead(start, duration, addresses) == None
    ensures !(FitsSigned(start, 4) && FitsSigned(duration, 4)) ==> EncodeRead(start, duration, addresses) == None
    ensures |addresses| < 1000 && AllSigned(addresses, 2) && FitsSigned(start, 4) && FitsSigned(duration, 4)
            ==> EncodeRead(start, duration, addresses).Some?
  {
    Pow256Widths();
  }

  /**
    A packed read request is 28+2n bytes, its length field counts the bytes
    after it, and it decodes to nonce 10, version 10000 and its fields.
   */
  lemma ReadRoundTrip(start: int, duration: int, addresses: seq<int>)
    requires EncodeRead(start, duration, addresses).Some?
    ensures var r := EncodeRead(start, duration, addresses).value;
      && WellFramed(r) && |r| == 28 + 2 * |addresses|
      && DecodeRead(r) == Some(LegacyReadRequest(RNDCODE, VERSION, start, duration, addresses))
  {
    var n := |addresses|;
    Pow256Widths();
    var body := PackSignedEach(addresses, 2);
    var r := READ + I32(20 + 2 * n) + I64(RNDCODE) + I32(VERSION) + I32(start) + I32(duration) + body;
    assert EncodeRead(start, duration, addresses) == Some(r);
    ReadHeader(20 + 2 * n, start, duration, body);
    DivUnique(|r| - 28, 2, n, 0);
    UnpackPackSigned(addresses, 2);
  }

  /** Where the fields of a legacy read header sit, and what they decode to. */
  lemma ReadHeader(len: int, start: int, duration: int, rest: seq<byte>)
    requires FitsSigned(len, 4) && FitsSigned(start, 4) && FitsSigned(duration, 4)
    ensures var r := READ + I32(len) + I64(RNDCODE) + I32(VERSION) + I32(start) + I32(duration) + rest;
      && |r| == 28 + |rest| && r[..4] == READ && DecodeSigned(r[4..8]) == len
      && DecodeSigned(r[8..16]) == RNDCODE && DecodeSigned(r[16..20]) == VERSION
      && DecodeSigned(r[20..24]) == start && DecodeSigned(r[24..28]) == duration && r[28..] == rest
  {
    Pow256Widths();
    Layout6(READ, I32(len), I64(RNDCODE), I32(VERSION), I32(start), I32(duration), rest);
    SignedRoundTrip(len, 4);
    SignedRoundTrip(RNDCODE, 8);
    SignedRoundTrip(VERSION, 4);
    SignedRoundTrip(start, 4);
    SignedRoundTrip(duration, 4);
  }

  // ---------------------------------------------------------------- write

  datatype LegacyWriteRequest = LegacyWriteRequest(nonce: int, version: int, writeTime: int, addresses: seq<int>, values: seq<Sample>)

  /**
    `4siqii` + `hf` per pair over `addr_vals`, declaring 16+6n bytes after
    the length field, with `pad` zero bytes after each address. None where
    `struct.pack` raises.
   */
  function PackWrite(writeTime: int, n: nat, addrVals: seq<Field>, pad: nat): Option<seq<byte>>
  {
    Pow256Widths();
    if FitsSigned(16 + 6 * n, 4) && FitsSigned(writeTime, 4) && AddressesFit(addrVals, 2)
    then Some(WRIT + I32(16 + 6 * n) + I64(RNDCODE) + I32(VERSION) + I32(writeTime) + PackFields(addrVals, 2, pad))
    else None
  }

  /** The padding native alignment puts between an `h` and the `f` after it. */
  const NATIVE_PAD: nat := 2

  /** The write frame as `WriteData` packs it: native alignment, two padding bytes per pair. */
  function EncodeWriteAsWritten(writeTime: int, addresses: seq<int>, values: seq<Sample>): (r: Option<seq<byte>>)
    requires |addresses| == |values|
    ensures r.Some? ==> |r.value| == 24 + 8 * |addresses| && r.value[..4] == WRIT
  {
    var r := PackWrite(writeTime, |addresses|, Interleaved(addresses, values), NATIVE_PAD);
    if AddressesFit(Interleaved(addresses, values), 2)
    then InterleavedFitBack(addresses, values, 2); PackInterleaved(addresses, values, 2, NATIVE_PAD); r
    else r
  }

  /** The write frame its length field describes: the pairs packed without padding. */
  function EncodeWrite(writeTime: int, addresses: seq<int>, values: seq<Sample>): (r: Option<seq<byte>>)
    requires |addresses| == |values|
    ensures r.Some? ==> |r.value| == 24 + 6 * |addresses| && r.value[..4] == WRIT
  {
    var r := PackWrite(writeTime, |addresses|, Interleaved(addresses, values), 0);
    if AddressesFit(Interleaved(addresses, values), 2)
    then InterleavedFitBack(addresses, values, 2); PackInterleaved(addresses, values, 2, 0); r
    else r
  }

  function DecodeWrite(r: seq<byte>): Option<LegacyWriteRequest>
  {
    if |r| >= 24 && (|r| - 24) % 6 == 0 && r[..4] == WRIT && LengthField(r) == |r| - 8
    then
      var p := UnpackPairs(r[24..], 2);
      Some(LegacyWriteRequest(DecodeSigned(r[8..16]), DecodeSigned(r[16..20]), DecodeSigned(r[20..24]), p.0, p.1))
    else None
  }

  /** The fields of a packed write frame, for either padding. */
  lemma WriteFields(writeTime: int, addresses: seq<int>, values: seq<Sample>, pad: nat)
    requires |addresses| == |values| && PackWrite(writeTime, |addresses|, Interleaved(addresses, values), pad).Some?
    ensures var r := PackWrite(writeTime, |addresses|, Interleaved(addresses, values), pad).value;
      && AllSigned(addresses, 2)
      && |r| == 24 + (6 + pad) * |addresses| && r[..4] == WRIT && LengthField(r) == 16 + 6 * |addresses|
      && DecodeSigned(r[8..16]) == RNDCODE && DecodeSigned(r[16..20]) == VERSION && DecodeSigned(r[20..24]) == writeTime
      && r[24..] == PackFields(Interleaved(addresses, values), 2, pad)
  {
    var n := |addresses|;
    var fs := Interleaved(addresses, values);
    Pow256Widths();
    InterleavedFitBack(addresses, values, 2);
    PackInterleaved(addresses, values, 2, pad);
    var body := PackFields(fs, 2, pad);
    var r := WRIT + I32(16 + 6 * n) + I64(RNDCODE) + I32(VERSION) + I32(writeTime) + body;
    assert PackWrite(writeTime, n, fs, pad) == Some(r);
    WriteHeader(16 + 6 * n, writeTime, body);
  }

  /** Where the fields of a legacy write header sit, and what they decode to. */
  lemma WriteHeader(len: int, writeTime: int, rest: seq<byte>)
    requires FitsSigned(len, 4) && FitsSigned(writeTime, 4)
    ensures var r := WRIT + I32(len) + I64(RNDCODE) + I32(VERSION) + I32(writeTime) + rest;
      && |r| == 24 + |rest| && r[..4] == WRIT && DecodeSigned(r[4..8]) == len
      && DecodeSigned(r[8..16]) == RNDCODE && DecodeSigned(r[16..20]) == VERSION
      && DecodeSigned(r[20..24]) == writeTime && r[24..] == rest
  {
    Pow256Widths();
    Layout5(WRIT, I32(len), I64(RNDCODE), I32(VERSION), I32(writeTime), rest);
    SignedRoundTrip(len, 4);
    SignedRoundTrip(RNDCODE, 8);
    SignedRoundTrip(VERSION, 4);
    SignedRoundTrip(writeTime, 4);
  }

  /**
    The unpadded write frame is 24+6n bytes, matches its length field, and
    decodes to nonce 10, version 10000, the write time and exactly the pairs.
   */
  lemma WriteRoundTrip(writeTime: int, addresses: seq<int>, values: seq<Sample>)
    requires |addresses| == |values| && EncodeWrite(writeTime, addresses, values).Some?
    ensures var r := EncodeWrite(writeTime, addresses, values).value;
      && WellFramed(r) && |r| == 24 + 6 * |addresses|
      && DecodeWrite(r) == Some(LegacyWriteRequest(RNDCODE, VERSION, writeTime, addresses, values))
  {
    WriteFields(writeTime, addresses, values, 0);
    PackInterleaved(addresses, values, 2, 0);
    DivUnique(6 * |addresses|, 6, |addresses|, 0);
    UnpackPackPairs(addresses, values, 2);
  }

  /**
    As written, every pair takes eight bytes instead of six: for any
    non-empty write the frame is 24+8n bytes long while its length field
    says 16+6n, so it is not well framed.
   */
  lemma WriteAsWrittenMisframed(writeTime: int, addresses: seq<int>, values: seq<Sample>)
    requires |addresses| == |values| && EncodeWriteAsWritten(writeTime, addresses, values).Some?
    ensures var r := EncodeWriteAsWritten(writeTime, addresses, values).value;
      && |r| == 24 + 8 * |addresses| && LengthField(r) == 16 + 6 * |addresses|
      && (|addresses| > 0 ==> !WellFramed(r))
  {
    WriteFields(writeTime, addresses, values, NATIVE_PAD);
  }

  /** Drops the `pad` bytes after the address of each (6 + pad)-byte pair record. */
  function Unpad(body: seq<byte>, pad: nat): seq<byte>
    decreases |body|
  {
    if |body| < 6 + pad then body else body[..2] + body[2 + pad..6 + pad] + Unpad(body[6 + pad..], pad)
  }

  /** One record: a two-byte address, its padding, a four-byte value. */
  lemma UnpadRecord(address: seq<byte>, padding: seq<byte>, value: seq<byte>, rest: seq<byte>)
    requires |address| == 2 && |value| == 4
    ensures Unpad(address + padding + (value + rest), |padding|) == address + value + Unpad(rest, |padding|)
  {
    var x := address + padding + (value + rest);
    var pad := |padding|;
    assert x[..2] == address && x[2 + pad..6 + pad] == value && x[6 + pad..] == rest;
  }

  /** Without its padding, the packed pair list is the unpadded one. */
  lemma {:induction false} UnpadFields(addresses: seq<int>, values: seq<Sample>, pad: nat)
    requires |addresses| == |values| && AllSigned(addresses, 2)
    ensures AddressesFit(Interleaved(addresses, values), 2)
    ensures Unpad(PackFields(Interleaved(addresses, values), 2, pad), pad) == PackFields(Interleaved(addresses, values), 2, 0)
  {
    InterleavedFit(addresses, values, 2);
    if addresses != [] {
      var a, v := addresses[0], values[0];
      var e := EncodeSigned(a, 2);
      var rest := Interleaved(addresses[1..], values[1..]);
      var fs := Interleaved(addresses, values);
      assert fs == [Address(a), Value(v)] + rest;
      UnpadFields(addresses[1..], values[1..], pad);
      calc {
        Unpad(PackFields(fs, 2, pad), pad);
        == { PackFieldsPair(a, v, rest, 2, pad); }
        Unpad(e + Zeros(pad) + (v + PackFields(rest, 2, pad)), pad);
        == { UnpadRecord(e, Zeros(pad), v, PackFields(rest, 2, pad)); }
        e + v + Unpad(PackFields(rest, 2, pad), pad);
        e + v + PackFields(rest, 2, 0);
        == { assert Zeros(0) == []; }
        e + Zeros(0) + (v + PackFields(rest, 2, 0));
        == { PackFieldsPair(a, v, rest, 2, 0); }
        PackFields(fs, 2, 0);
      }
    }
  }

  /** The write frame with the alignment padding removed from its pair records. */
  function StripPadding(r: seq<byte>): seq<byte>
    requires |r| >= 24
  {
    r[..24] + Unpad(r[24..], NATIVE_PAD)
  }

  /**
    The padded frame packs exactly when the unpadded one does, and with its
    padding stripped it is the unpadded frame: the pairs are all there, but
    two bytes too far apart for the length field.
   */
  lemma AsWrittenStripped(writeTime: int, addresses: seq<int>, values: seq<Sample>)
    requires |addresses| == |values|
    ensures EncodeWriteAsWritten(writeTime, addresses, values).Some? <==> EncodeWrite(writeTime, addresses, values).Some?
    ensures EncodeWriteAsWritten(writeTime, addresses, values).Some? ==>
      && |EncodeWriteAsWritten(writeTime, addresses, values).value| >= 24
      && StripPadding(EncodeWriteAsWritten(writeTime, addresses, values).value) == EncodeWrite(writeTime, addresses, values).value
  {
    if EncodeWriteAsWritten(writeTime, addresses, values).Some? {
      var n := |addresses|;
      var fs := Interleaved(addresses, values);
      InterleavedFitBack(addresses, values, 2);
      UnpadFields(addresses, values, NATIVE_PAD);
      Pow256Widths();
      var h := WRIT + I32(16 + 6 * n) + I64(RNDCODE) + I32(VERSION) + I32(writeTime);
      WriteHeader(16 + 6 * n, writeTime, []);
      assert h + [] == h;
      var padded := h + PackFields(fs, 2, NATIVE_PAD);
      assert padded[..24] == h && padded[24..] == PackFields(fs, 2, NATIVE_PAD);
    }
  }

  /** Writing value bytes 0 0 128 63 (1.0f) to address 1 at time 0 packs 32 bytes that declare 22. */
  lemma OnePairWriteAsWritten()
    ensures var r := EncodeWriteAsWritten(0, [1], [[0, 0, 128, 63]]);
      r.Some? && |r.value| == 32 && LengthField(r.value) == 22 && !WellFramed(r.value)
  {
    Pow256Widths();
    assert AllSigned([1], 2);
    WriteAsWrittenMisframed(0, [1], [[0, 0, 128, 63]]);
  }
}
