/**
  Byte strings and the fixed-width integer layouts the client packs with
  Python's `struct` module. The client runs on a little-endian host, so both
  the `=` (standard, unaligned) and the native formats lay integers out
  little-endian; two's complement is used for the signed formats.
 */
module Bytes {

  newtype byte = x: int | 0 <= x < 256

  /** 256 to the power w: one more than the largest unsigned w-byte value. */
  function Pow256(w: nat): (p: nat)
    ensures p >= 1
  {
    if w == 0 then 1 else 256 * Pow256(w - 1)
  }

  lemma Pow256Widths()
    ensures Pow256(1) == 0x100
    ensures Pow256(2) == 0x1_0000
    ensures Pow256(4) == 0x1_0000_0000
    ensures Pow256(8) == 0x1_0000_0000_0000_0000
  {
  }

  /** x fits the unsigned w-byte formats (`B`, `H`, `I`, `Q`). */
  predicate FitsUnsigned(x: int, w: nat)
  {
    0 <= x < Pow256(w)
  }

  /** x fits the signed w-byte formats (`b`, `h`, `i`, `q`). */
  predicate FitsSigned(x: int, w: nat)
  {
    -(Pow256(w) as int) <= 2 * x < Pow256(w)
  }

  /** Little-endian layout of an unsigned value in w bytes. */
  function LE(x: nat, w: nat): (r: seq<byte>)
    requires x < Pow256(w)
    ensures |r| == w
  {
    if w == 0 then []
    else
      assert x / 256 < Pow256(w - 1) by { DivBound(x, Pow256(w - 1)); }
      [(x % 256) as byte] + LE(x / 256, w - 1)
  }

  /** The unsigned value a little-endian byte string stands for. */
  function FromLE(s: seq<byte>): (x: nat)
    ensures x < Pow256(|s|)
  {
    if s == [] then 0
    else
      var rest := FromLE(s[1..]);
      assert s[0] as nat + 256 * rest < Pow256(|s|) by { MulBound(s[0] as nat, rest, Pow256(|s| - 1)); }
      s[0] as nat + 256 * rest
  }

  lemma DivBound(x: nat, p: nat)
    requires x < 256 * p
    ensures x / 256 < p
  {
  }

  lemma MulBound(b: nat, y: nat, p: nat)
    requires b < 256 && y < p
    ensures b + 256 * y < 256 * p
  {
  }

  /** Decoding a little-endian layout gives the value back. */
  lemma {:induction false} FromLEOfLE(x: nat, w: nat)
    requires x < Pow256(w)
    ensures FromLE(LE(x, w)) == x
  {
    if w > 0 {
      var s := LE(x, w);
      assert s[1..] == LE(x / 256, w - 1);
      FromLEOfLE(x / 256, w - 1);
    }
  }

  /** Encoding the value of a byte string gives the byte string back. */
  lemma {:induction false} LEOfFromLE(s: seq<byte>)
    ensures LE(FromLE(s), |s|) == s
  {
    if s != [] {
      LEOfFromLE(s[1..]);
      var x := FromLE(s);
      assert x % 256 == s[0] as nat && x / 256 == FromLE(s[1..]);
    }
  }

  /** The two's complement reading of an unsigned w-byte value. */
  function Signed(u: nat, w: nat): (x: int)
    requires u < Pow256(w)
    ensures FitsSigned(x, w)
    ensures x >= 0 <==> 2 * u < Pow256(w)
  {
    if 2 * u >= Pow256(w) then u - Pow256(w) else u
  }

  function EncodeUnsigned(x: int, w: nat): (r: seq<byte>)
    requires FitsUnsigned(x, w)
    ensures |r| == w
  {
    LE(x, w)
  }

  function EncodeSigned(x: int, w: nat): (r: seq<byte>)
    requires FitsSigned(x, w)
    ensures |r| == w
  {
    LE(if x < 0 then x + Pow256(w) else x, w)
  }

  function DecodeUnsigned(s: seq<byte>): (x: int)
    ensures FitsUnsigned(x, |s|)
  {
    FromLE(s)
  }

  function DecodeSigned(s: seq<byte>): (x: int)
    ensures FitsSigned(x, |s|)
  {
    Signed(FromLE(s), |s|)
  }

  lemma UnsignedRoundTrip(x: int, w: nat)
    requires FitsUnsigned(x, w)
    ensures DecodeUnsigned(EncodeUnsigned(x, w)) == x
  {
    FromLEOfLE(x, w);
  }

  lemma SignedRoundTrip(x: int, w: nat)
    requires FitsSigned(x, w)
    ensures DecodeSigned(EncodeSigned(x, w)) == x
  {
    FromLEOfLE(if x < 0 then x + Pow256(w) else x, w);
  }

  /** An opaque 4-byte sample word (a float32 as it travels on the wire). */
  type Sample = s: seq<byte> | |s| == 4 witness [0, 0, 0, 0]

  /** Cuts a byte string into consecutive 4-byte words. */
  function Words(s: seq<byte>): (ws: seq<Sample>)
    requires |s| % 4 == 0
    ensures |ws| * 4 == |s|
  {
    if s == [] then [] else [s[..4]] + Words(s[4..])
  }

  /** Lays words out one after another. */
  function Unwords(ws: seq<Sample>): (s: seq<byte>)
    ensures |s| == 4 * |ws|
  {
    if ws == [] then [] else ws[0] + Unwords(ws[1..])
  }

  lemma {:induction false} UnwordsOfWords(s: seq<byte>)
    requires |s| % 4 == 0
    ensures Unwords(Words(s)) == s
  {
    if s != [] {
      UnwordsOfWords(s[4..]);
      assert Words(s)[1..] == Words(s[4..]);
    }
  }

  lemma {:induction false} WordsOfUnwords(ws: seq<Sample>)
    ensures Words(Unwords(ws)) == ws
  {
    if ws != [] {
      var s := Unwords(ws);
      assert s[..4] == ws[0];
      assert s[4..] == Unwords(ws[1..]);
      WordsOfUnwords(ws[1..]);
    }
  }
}
