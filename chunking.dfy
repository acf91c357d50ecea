/**
  How a read of `[start, start + duration)` is cut into sub-requests that
  each ask for at most a fixed number of seconds: `for i in range(start,
  start + duration, limit)` with `s_duration = min(limit, start + duration - i)`.
 */
module Chunking {
  import opened Arith

  /** Seconds per sub-request of the unified client. */
  const UNIFIED_LIMIT: nat := 7200
  /** Seconds per sub-request of the legacy client that speaks the version 3 layout. */
  const LEGACY_V3_LIMIT: nat := 7200
  /** Seconds per sub-request of the legacy version 1 client. */
  const LEGACY_V1_LIMIT: nat := 300

  datatype Chunk = Chunk(start: int, length: int)

  function Min(a: int, b: int): int
  {
    if a <= b then a else b
  }

  /** The sub-requests issued from `from` up to `end`, in the order they are sent. */
  function Chunks(from: int, end: int, limit: nat): seq<Chunk>
    requires limit > 0
    decreases end - from
  {
    if from >= end then []
    else [Chunk(from, Min(limit, end - from))] + Chunks(from + limit, end, limit)
  }

  /** One turn of the request loop: the first sub-range starts at `from`, the rest from `from + limit`. */
  lemma ChunksStep(from: int, end: int, limit: nat)
    requires limit > 0 && from < end
    ensures Chunks(from, end, limit)[0] == Chunk(from, Min(limit, end - from))
    ensures Chunks(from, end, limit)[1..] == Chunks(from + limit, end, limit)
  {
  }

  /** ceil(n / limit) */
  function CeilDiv(n: nat, limit: nat): nat
    requires limit > 0
  {
    (n + limit - 1) / limit
  }

  /** The chunks lie end to end and fill `[from, end)` exactly: no gap, no overlap. */
  predicate Tiles(cs: seq<Chunk>, from: int, end: int)
    decreases |cs|
  {
    if cs == [] then from == end
    else cs[0].start == from && cs[0].length > 0 && Tiles(cs[1..], from + cs[0].length, end)
  }

  function TotalLength(cs: seq<Chunk>): int
  {
    if cs == [] then 0 else cs[0].length + TotalLength(cs[1..])
  }

  /** Appending a chunk adds its length to the total. */
  lemma {:induction false} TotalLengthSnoc(cs: seq<Chunk>, k: nat)
    requires k < |cs|
    ensures TotalLength(cs[..k + 1]) == TotalLength(cs[..k]) + cs[k].length
    decreases k
  {
    if k > 0 {
      assert cs[..k + 1][1..] == cs[1..][..k];
      assert cs[..k][1..] == cs[1..][..k - 1];
      TotalLengthSnoc(cs[1..], k - 1);
    }
  }

  lemma DivStep(x: nat, l: nat)
    requires l > 0
    ensures (x + l) / l == x / l + 1
  {
    assert x == l * (x / l) + x % l;
    DivUnique(x + l, l, x / l + 1, x % l);
  }

  lemma DivSmall(x: nat, l: nat)
    requires l > 0 && x < l
    ensures x / l == 0
  {
    DivUnique(x, l, 0, x);
  }

  /** A read of `duration` seconds is sent as ceil(duration / limit) sub-requests. */
  lemma {:induction false} ChunkCount(from: int, duration: nat, limit: nat)
    requires limit > 0
    ensures |Chunks(from, from + duration, limit)| == CeilDiv(duration, limit)
    decreases duration
  {
    if duration == 0 {
      DivSmall(limit - 1, limit);
    } else if duration <= limit {
      assert Chunks(from + limit, from + duration, limit) == [];
      DivStep(duration - 1, limit);
      DivSmall(duration - 1, limit);
    } else {
      ChunkCount(from + limit, duration - limit, limit);
      assert from + limit + (duration - limit) == from + duration;
      DivStep(duration - 1, limit);
    }
  }

  /** The sub-ranges partition `[from, end)` in increasing order. */
  lemma {:induction false} ChunksTile(from: int, end: int, limit: nat)
    requires limit > 0 && from <= end
    ensures Tiles(Chunks(from, end, limit), from, end)
    decreases end - from
  {
    if from < end {
      var cs := Chunks(from, end, limit);
      if from + limit < end {
        ChunksTile(from + limit, end, limit);
      } else {
        assert Chunks(from + limit, end, limit) == [];
      }
      assert cs[1..] == Chunks(from + limit, end, limit);
    }
  }

  /** The sub-requests of a read tile it and add up to its duration. */
  lemma ChunksTotal(start: int, duration: nat, limit: nat)
    requires limit > 0
    ensures Tiles(Chunks(start, start + duration, limit), start, start + duration)
    ensures TotalLength(Chunks(start, start + duration, limit)) == duration
  {
    ChunksTile(start, start + duration, limit);
    TilesTotal(Chunks(start, start + duration, limit), start, start + duration);
  }

  /** Sub-range k starts k * limit seconds after `from`; all but the last are `limit` long, none is longer or empty. */
  lemma {:induction false} ChunkAt(from: int, end: int, limit: nat, k: nat)
    requires limit > 0 && k < |Chunks(from, end, limit)|
    ensures var c := Chunks(from, end, limit)[k];
      && c.start == from + k * limit
      && 0 < c.length <= limit
      && c.start + c.length <= end
      && (k < |Chunks(from, end, limit)| - 1 ==> c.length == limit)
      && (k == |Chunks(from, end, limit)| - 1 ==> c.start + c.length == end)
    decreases end - from
  {
    var cs := Chunks(from, end, limit);
    ChunksStep(from, end, limit);
    if k == 0 {
      if from + limit >= end {
        assert Chunks(from + limit, end, limit) == [];
      }
    } else {
      ChunkAt(from + limit, end, limit, k - 1);
      assert cs[k] == cs[1..][k - 1];
      MulStep(k - 1, limit);
    }
  }

  /** In a tiling, the chunks before the k-th add up to the k-th's distance from `from`. */
  lemma {:induction false} TilesOffset(cs: seq<Chunk>, from: int, end: int, k: nat)
    requires Tiles(cs, from, end) && k < |cs|
    ensures TotalLength(cs[..k]) == cs[k].start - from
    decreases k
  {
    if k == 0 {
      assert cs[..0] == [];
    } else {
      TilesOffset(cs[1..], from + cs[0].length, end, k - 1);
      assert cs[..k][0] == cs[0] && cs[..k][1..] == cs[1..][..k - 1];
      assert cs[1..][k - 1] == cs[k];
    }
  }

  /** Tiling chunks add up to the length of what they tile. */
  lemma {:induction false} TilesTotal(cs: seq<Chunk>, from: int, end: int)
    requires Tiles(cs, from, end)
    ensures TotalLength(cs) == end - from
    decreases |cs|
  {
    if cs != [] {
      TilesTotal(cs[1..], from + cs[0].length, end);
    }
  }

  /** Every second of a tiled range belongs to exactly one chunk. */
  lemma {:induction false} TilesCover(cs: seq<Chunk>, from: int, end: int, t: int)
    requires Tiles(cs, from, end) && from <= t < end
    ensures exists k :: 0 <= k < |cs| && cs[k].start <= t < cs[k].start + cs[k].length
    ensures forall k, j :: (0 <= k < |cs| && 0 <= j < |cs| && cs[k].start <= t < cs[k].start + cs[k].length
                            && cs[j].start <= t < cs[j].start + cs[j].length) ==> k == j
    decreases |cs|
  {
    TilesBounds(cs, from, end);
    if t < from + cs[0].length {
      assert cs[0].start <= t < cs[0].start + cs[0].length;
    } else {
      TilesCover(cs[1..], from + cs[0].length, end, t);
      var k :| 0 <= k < |cs[1..]| && cs[1..][k].start <= t < cs[1..][k].start + cs[1..][k].length;
      assert cs[k + 1] == cs[1..][k];
    }
  }

  /** In a tiling, each chunk starts where the one before it ended. */
  lemma {:induction false} TilesBounds(cs: seq<Chunk>, from: int, end: int)
    requires Tiles(cs, from, end)
    ensures from <= end
    ensures forall k :: 0 <= k < |cs| ==> from <= cs[k].start && cs[k].length > 0 && cs[k].start + cs[k].length <= end
    ensures forall k, j :: 0 <= k < j < |cs| ==> cs[k].start + cs[k].length <= cs[j].start
    decreases |cs|
  {
    if cs != [] {
      TilesBounds(cs[1..], from + cs[0].length, end);
      forall k, j | 0 <= k < j < |cs| ensures cs[k].start + cs[k].length <= cs[j].start {
        assert cs[j] == cs[1..][j - 1];
        if k > 0 {
          assert cs[k] == cs[1..][k - 1];
        }
      }
    }
  }

  /** A read of 15000 seconds with the 7200-second limit goes out as 7200, 7200 and 600 seconds. */
  lemma FifteenThousandSeconds(start: int)
    ensures Chunks(start, start + 15000, 7200) == [Chunk(start, 7200), Chunk(start + 7200, 7200), Chunk(start + 14400, 600)]
  {
    assert Chunks(start + 21600, start + 15000, 7200) == [];
    assert Chunks(start + 14400, start + 15000, 7200) == [Chunk(start + 14400, 600)];
    assert Chunks(start + 7200, start + 15000, 7200) == [Chunk(start + 7200, 7200), Chunk(start + 14400, 600)];
  }
}
