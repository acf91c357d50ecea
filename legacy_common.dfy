/**
  What the two legacy clients (`py_realdb_sdk2.py`, `py_realdb_sdk1.py`)
  share: their status values, the way a call ends (they catch no exception,
  so a failed `connect`, a `struct` error or a division by zero escapes to
  the caller), and the loop that interleaves addresses and values before a
  write is packed.
 */
module LegacyCommon {
  import opened Bytes
  import opened Optional
  import opened Codec
  import opened Arith

  /** `PYREALDB_S_OK` and `PYREALDB_S_FAIL`. */
  datatype Status = SOk | SFail

  function StatusValue(s: Status): int
  {
    match s
    case SOk => 1
    case SFail => -1
  }

  /** How a legacy call ends: it returns a status, or an exception escapes it. */
  datatype Ending = Returned(status: Status) | Raised

  /** What one legacy `__mk_a_read_req` call ends with, and the frame it wrote (None when packing raised). */
  datatype Round = Round(ending: Ending, rows: seq<seq<Sample>>, sent: Option<seq<byte>>)

  /** What a legacy `ReadData` ends with, whether it connected, and the frames it wrote. */
  datatype ReadOutcome = ReadOutcome(ending: Ending, rows: seq<seq<Sample>>, connected: bool, sent: seq<seq<byte>>)

  /** What a legacy `WriteData` ends with, whether it connected, and the frame it wrote. */
  datatype WriteOutcome = WriteOutcome(ending: Ending, connected: bool, sent: Option<seq<byte>>)

  /** One element of `addr_vals`: an address or a value. */
  datatype Field = Address(address: int) | Value(value: Sample)

  /** `addr_vals`: address 0, value 0, address 1, value 1, and so on. */
  function Interleaved(addresses: seq<int>, values: seq<Sample>): (fs: seq<Field>)
    requires |addresses| == |values|
    ensures |fs| == 2 * |addresses|
  {
    if addresses == [] then []
    else [Address(addresses[0]), Value(values[0])] + Interleaved(addresses[1..], values[1..])
  }

  /** Position 2i holds address i and position 2i+1 value i. */
  lemma {:induction false} InterleavedAt(addresses: seq<int>, values: seq<Sample>, i: nat)
    requires |addresses| == |values| && i < |addresses|
    ensures Interleaved(addresses, values)[2 * i] == Address(addresses[i])
    ensures Interleaved(addresses, values)[2 * i + 1] == Value(values[i])
  {
    if i > 0 {
      InterleavedAt(addresses[1..], values[1..], i - 1);
    }
  }

  /** One more pair at the end of the lists adds one address and one value at the end of `addr_vals`. */
  lemma {:induction false} InterleavedSnoc(addresses: seq<int>, values: seq<Sample>, i: nat)
    requires |addresses| == |values| && i < |addresses|
    ensures Interleaved(addresses[..i + 1], values[..i + 1])
            == Interleaved(addresses[..i], values[..i]) + [Address(addresses[i]), Value(values[i])]
  {
    if i == 0 {
      assert Interleaved(addresses[..0], values[..0]) == [];
      assert addresses[..1][1..] == [] && values[..1][1..] == [];
    } else {
      assert addresses[..i + 1][1..] == addresses[1..][..i];
      assert values[..i + 1][1..] == values[1..][..i];
      assert addresses[..i][1..] == addresses[1..][..i - 1];
      assert values[..i][1..] == values[1..][..i - 1];
      InterleavedSnoc(addresses[1..], values[1..], i - 1);
    }
  }

  /** The `for i in range(len_vals)` loop that builds `addr_vals`. */
  method InterleaveLoop(addresses: seq<int>, values: seq<Sample>) returns (addrVals: seq<Field>)
    requires |addresses| == |values|
    ensures addrVals == Interleaved(addresses, values)
  {
    addrVals := [];
    var i := 0;
    while i < |values|
      invariant 0 <= i <= |values|
      invariant addrVals == Interleaved(addresses[..i], values[..i])
    {
      InterleavedSnoc(addresses, values, i);
      addrVals := addrVals + [Address(addresses[i])];
      addrVals := addrVals + [Value(values[i])];
      i := i + 1;
    }
    assert addresses[..i] == addresses && values[..i] == values;
  }

  predicate AddressesFit(fs: seq<Field>, w: nat)
  {
    forall i :: 0 <= i < |fs| && fs[i].Address? ==> FitsSigned(fs[i].address, w)
  }

  function Zeros(n: nat): (z: seq<byte>)
    ensures |z| == n && forall i :: 0 <= i < n ==> z[i] == 0
  {
    seq(n, _ => 0)
  }

  /**
    The fields packed one after another: an address as a signed w-byte
    integer followed by `pad` zero bytes (what native alignment inserts
    before the next `f`), a value as its four bytes.
   */
  function PackFields(fs: seq<Field>, w: nat, pad: nat): seq<byte>
    requires AddressesFit(fs, w)
  {
    if fs == [] then []
    else
      (match fs[0]
       case Address(a) => EncodeSigned(a, w) + Zeros(pad)
       case Value(v) => v)
      + PackFields(fs[1..], w, pad)
  }

  lemma {:induction false} InterleavedFit(addresses: seq<int>, values: seq<Sample>, w: nat)
    requires |addresses| == |values| && AllSigned(addresses, w)
    ensures AddressesFit(Interleaved(addresses, values), w)
  {
    if addresses != [] {
      InterleavedFit(addresses[1..], values[1..], w);
      var fs := Interleaved(addresses, values);
      var rest := Interleaved(addresses[1..], values[1..]);
      forall i | 0 <= i < |fs| && fs[i].Address? ensures FitsSigned(fs[i].address, w) {
        if i >= 2 {
          assert fs[i] == rest[i - 2];
        }
      }
    }
  }

  /** Conversely, if every address field of `addr_vals` fits, every address does. */
  lemma InterleavedFitBack(addresses: seq<int>, values: seq<Sample>, w: nat)
    requires |addresses| == |values| && AddressesFit(Interleaved(addresses, values), w)
    ensures AllSigned(addresses, w)
  {
    forall i | 0 <= i < |addresses| ensures FitsSigned(addresses[i], w) {
      InterleavedAt(addresses, values, i);
    }
  }

  /** An address followed by a value packs as the address field, its padding, then the value. */
  lemma PackFieldsPair(a: int, v: Sample, rest: seq<Field>, w: nat, pad: nat)
    requires FitsSigned(a, w) && AddressesFit(rest, w)
    ensures AddressesFit([Address(a), Value(v)] + rest, w)
    ensures PackFields([Address(a), Value(v)] + rest, w, pad) == EncodeSigned(a, w) + Zeros(pad) + (v + PackFields(rest, w, pad))
  {
    var fs := [Address(a), Value(v)] + rest;
    forall i | 0 <= i < |fs| && fs[i].Address? ensures FitsSigned(fs[i].address, w) {
      if i >= 2 {
        assert fs[i] == rest[i - 2];
      }
    }
    assert fs[1..][1..] == rest;
  }

  /**
    Interleaved pairs pack to `w + pad + 4` bytes each; without padding they
    are exactly the address/value records of `PackPairs`.
   */
  lemma PackInterleaved(addresses: seq<int>, values: seq<Sample>, w: nat, pad: nat)
    requires |addresses| == |values| && AllSigned(addresses, w)
    ensures AddressesFit(Interleaved(addresses, values), w)
    ensures |PackFields(Interleaved(addresses, values), w, pad)| == (w + pad + 4) * |addresses|
    ensures pad == 0 ==> PackFields(Interleaved(addresses, values), w, pad) == PackPairs(addresses, values, w)
  {
    InterleavedFit(addresses, values, w);
    PackInterleavedLength(addresses, values, w, pad);
    if pad == 0 {
      PackInterleavedPairs(addresses, values, w);
    }
  }

  lemma {:induction false} PackInterleavedLength(addresses: seq<int>, values: seq<Sample>, w: nat, pad: nat)
    requires |addresses| == |values| && AllSigned(addresses, w)
    ensures AddressesFit(Interleaved(addresses, values), w)
    ensures |PackFields(Interleaved(addresses, values), w, pad)| == (w + pad + 4) * |addresses|
  {
    InterleavedFit(addresses, values, w);
    if addresses != [] {
      var rest := Interleaved(addresses[1..], values[1..]);
      PackInterleavedLength(addresses[1..], values[1..], w, pad);
      assert Interleaved(addresses, values) == [Address(addresses[0]), Value(values[0])] + rest;
      PackFieldsPair(addresses[0], values[0], rest, w, pad);
      MulStep(|addresses| - 1, w + pad + 4);
    }
  }

  lemma {:induction false} PackInterleavedPairs(addresses: seq<int>, values: seq<Sample>, w: nat)
    requires |addresses| == |values| && AllSigned(addresses, w)
    ensures AddressesFit(Interleaved(addresses, values), w)
    ensures PackFields(Interleaved(addresses, values), w, 0) == PackPairs(addresses, values, w)
  {
    InterleavedFit(addresses, values, w);
    if addresses != [] {
      var rest := Interleaved(addresses[1..], values[1..]);
      PackInterleavedPairs(addresses[1..], values[1..], w);
      assert Interleaved(addresses, values) == [Address(addresses[0]), Value(values[0])] + rest;
      PackFieldsPair(addresses[0], values[0], rest, w, 0);
      assert Zeros(0) == [];
    }
  }
}
