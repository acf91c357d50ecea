/**
  The channel-major result matrix: one row per requested address, samples in
  time order. `Flat2Matrix` and `Concat2Matrix` are the list comprehensions
  of the unified client; `Flat2MatrixLoop` and `ConcatInPlace` are the
  loop-based, in-place versions of the legacy clients.
 */
module Matrix {
  import opened Arith

  /** d rows of k consecutive elements of v, starting at the front. */
  function Rows<T>(v: seq<T>, k: nat, d: nat): (m: seq<seq<T>>)
    requires d * k <= |v|
    ensures |m| == d
    ensures forall i :: 0 <= i < d ==> |m[i]| == k
  {
    var m := seq(d, i requires 0 <= i < d => RowBound(i, k, d); v[i * k..(i + 1) * k]);
    assert forall i :: 0 <= i < d ==> |m[i]| == k by {
      forall i | 0 <= i < d ensures |m[i]| == k { RowBound(i, k, d); }
    }
    m
  }

  lemma RowBound(i: nat, k: nat, d: nat)
    requires i < d
    ensures i * k <= (i + 1) * k <= d * k
    ensures (i + 1) * k == i * k + k
  {
    MulStep(i, k);
    MulMono(i + 1, d, k);
  }

  /**
    `__flat_2_matrix`: `dimension` rows of `len(v) // dimension` elements each,
    taken as consecutive slices; a remainder of fewer than `dimension`
    elements is dropped.
   */
  function Flat2Matrix<T>(v: seq<T>, dimension: nat): (m: seq<seq<T>>)
    requires dimension > 0
    ensures |m| == dimension
    ensures forall i :: 0 <= i < dimension ==> |m[i]| == |v| / dimension
  {
    DivBound(|v|, dimension);
    Rows(v, |v| / dimension, dimension)
  }

  /** The rows laid end to end. */
  function Flatten<T>(m: seq<seq<T>>): seq<T>
  {
    if m == [] then [] else m[0] + Flatten(m[1..])
  }

  /** The first row is the first k elements; the other rows are the rows of what follows them. */
  lemma RowsTail<T>(v: seq<T>, k: nat, d: nat)
    requires 0 < d && d * k <= |v|
    ensures k <= |v| && (d - 1) * k <= |v[k..]|
    ensures Rows(v, k, d)[0] == v[..k]
    ensures Rows(v, k, d)[1..] == Rows(v[k..], k, d - 1)
  {
    var m := Rows(v, k, d);
    MulStep(d - 1, k);
    RowBound(0, k, d);
    var tail := Rows(v[k..], k, d - 1);
    forall i | 0 <= i < d - 1 ensures m[1..][i] == tail[i] {
      RowBound(i + 1, k, d);
      RowBound(i, k, d - 1);
    }
  }

  lemma {:induction false} FlattenRows<T>(v: seq<T>, k: nat, d: nat)
    requires d * k <= |v|
    ensures Flatten(Rows(v, k, d)) == v[..d * k]
  {
    if d > 0 {
      var m := Rows(v, k, d);
      RowsTail(v, k, d);
      FlattenRows(v[k..], k, d - 1);
      MulStep(d - 1, k);
      assert Flatten(m) == v[..k] + v[k..][..(d - 1) * k];
      assert v[..k] + v[k..][..(d - 1) * k] == v[..d * k];
    }
  }

  /** Reading the rows back in order gives the input, less the dropped remainder. */
  lemma FlattenFlat2Matrix<T>(v: seq<T>, dimension: nat)
    requires dimension > 0
    ensures Flatten(Flat2Matrix(v, dimension)) == v[..dimension * (|v| / dimension)]
    ensures |v| % dimension == 0 ==> Flatten(Flat2Matrix(v, dimension)) == v
  {
    DivBound(|v|, dimension);
    FlattenRows(v, |v| / dimension, dimension);
  }

  predicate Rectangular<T>(m: seq<seq<T>>, k: nat)
  {
    forall i :: 0 <= i < |m| ==> |m[i]| == k
  }

  lemma {:induction false} FlattenLength<T>(m: seq<seq<T>>, k: nat)
    requires Rectangular(m, k)
    ensures |Flatten(m)| == |m| * k
  {
    if m != [] {
      FlattenLength(m[1..], k);
    }
  }

  lemma {:induction false} RowsOfFlatten<T>(m: seq<seq<T>>, k: nat)
    requires Rectangular(m, k)
    ensures |Flatten(m)| == |m| * k
    ensures Rows(Flatten(m), k, |m|) == m
  {
    FlattenLength(m, k);
    if m != [] {
      var f := Flatten(m);
      RowsOfFlatten(m[1..], k);
      var r := Rows(f, k, |m|);
      forall i | 0 <= i < |m| ensures r[i] == m[i] {
        if i == 0 {
          assert f[..k] == m[0];
        } else {
          assert f[k..] == Flatten(m[1..]);
          var r' := Rows(Flatten(m[1..]), k, |m| - 1);
          assert r'[i - 1] == m[i];
          MulStep(i - 1, k);
          MulStep(i, k);
          RowBound(i, k, |m|);
          RowBound(i - 1, k, |m| - 1);
          assert r[i] == f[k..][(i - 1) * k..i * k];
        }
      }
    }
  }

  /** A matrix of `dimension` equal rows is recovered from its flattening. */
  lemma Flat2MatrixOfFlatten<T>(m: seq<seq<T>>, k: nat)
    requires |m| > 0 && Rectangular(m, k)
    ensures Flat2Matrix(Flatten(m), |m|) == m
  {
    RowsOfFlatten(m, k);
    DivOfMul(|m|, k);
  }

  /**
    `__concat_2_matrix` of the unified client: `m1` unchanged when the row
    counts differ, otherwise row i of `m2` appended to row i of `m1`.
   */
  function Concat2Matrix<T>(m1: seq<seq<T>>, m2: seq<seq<T>>): (r: seq<seq<T>>)
    ensures |r| == |m1|
  {
    if |m1| != |m2| then m1
    else seq(|m1|, i requires 0 <= i < |m1| => m1[i] + m2[i])
  }

  /** n empty rows: `[[] for _ in range(n)]`. */
  function EmptyRows<T>(n: nat): (m: seq<seq<T>>)
    ensures |m| == n && Rectangular(m, 0)
  {
    seq(n, _ => [])
  }

  /** Rows keep their order and each grows by the matching row of `m2`; mismatched counts change nothing. */
  lemma ConcatRows<T>(m1: seq<seq<T>>, m2: seq<seq<T>>, i: nat)
    requires i < |m1|
    ensures |m1| == |m2| ==> Concat2Matrix(m1, m2)[i] == m1[i] + m2[i]
    ensures |m1| != |m2| ==> Concat2Matrix(m1, m2)[i] == m1[i]
  {
  }

  /** Appending equal-width matrices to a rectangular one keeps it rectangular and adds the widths. */
  lemma ConcatRectangular<T>(m1: seq<seq<T>>, k1: nat, m2: seq<seq<T>>, k2: nat)
    requires |m1| == |m2| && Rectangular(m1, k1) && Rectangular(m2, k2)
    ensures Rectangular(Concat2Matrix(m1, m2), k1 + k2)
  {
  }

  /** `row` holds `part` starting at `offset`. */
  predicate HoldsAt<T(==)>(row: seq<T>, offset: int, part: seq<T>)
  {
    0 <= offset && offset + |part| <= |row| && row[offset..offset + |part|] == part
  }

  /** Appending to a row keeps what it held where it held it, and the appended part follows the old end. */
  lemma HoldsAtAppend<T>(row: seq<T>, more: seq<T>)
    ensures HoldsAt(row + more, |row|, more)
    ensures forall offset, part {:trigger HoldsAt(row, offset, part)} ::
              HoldsAt(row, offset, part) ==> HoldsAt(row + more, offset, part)
  {
    assert (row + more)[|row|..|row| + |more|] == more;
    forall offset, part | HoldsAt(row, offset, part) ensures HoldsAt(row + more, offset, part) {
      assert (row + more)[offset..offset + |part|] == row[offset..offset + |part|];
    }
  }

  /** Appending to empty rows gives the appended matrix itself. */
  lemma ConcatOntoEmpty<T>(m: seq<seq<T>>)
    ensures Concat2Matrix(EmptyRows(|m|), m) == m
  {
    assert forall i :: 0 <= i < |m| ==> [] + m[i] == m[i];
  }

  /** Appending chunk after chunk does not depend on how the appends are grouped. */
  lemma ConcatAssociative<T>(a: seq<seq<T>>, b: seq<seq<T>>, c: seq<seq<T>>)
    requires |a| == |b| == |c|
    ensures Concat2Matrix(Concat2Matrix(a, b), c) == Concat2Matrix(a, Concat2Matrix(b, c))
  {
    var l := Concat2Matrix(Concat2Matrix(a, b), c);
    var r := Concat2Matrix(a, Concat2Matrix(b, c));
    forall i | 0 <= i < |a| ensures l[i] == r[i] {
      assert l[i] == (a[i] + b[i]) + c[i];
      assert r[i] == a[i] + (b[i] + c[i]);
    }
  }

  /**
    `__flat_2_matrix` of the version 1 legacy client: builds the matrix with
    two nested append loops, `mat[i][j] = v1[j + len1 * i]`. It yields the
    same matrix as the slice version.
   */
  method Flat2MatrixLoop<T>(v1: seq<T>, dimension: nat) returns (mat: seq<seq<T>>)
    requires dimension > 0
    ensures mat == Flat2Matrix(v1, dimension)
  {
    var len1 := |v1| / dimension;
    DivBound(|v1|, dimension);
    ghost var target := Flat2Matrix(v1, dimension);
    mat := [];
    var i := 0;
    while i < dimension
      invariant 0 <= i <= dimension
      invariant mat == target[..i]
    {
      RowBound(i, len1, dimension);
      mat := mat + [[]];
      var j := 0;
      while j < len1
        invariant 0 <= j <= len1
        invariant |mat| == i + 1 && mat[..i] == target[..i]
        invariant mat[i] == v1[len1 * i..len1 * i + j]
      {
        assert j + len1 * i < len1 * i + len1 <= |v1|;
        mat := mat[i := mat[i] + [v1[j + len1 * i]]];
        j := j + 1;
      }
      assert mat[i] == target[i];
      assert mat == target[..i + 1];
      i := i + 1;
    }
  }

  /**
    `__concat_2_matrix` of the legacy clients: appends each element of row i
    of `m2` to row i of `m1`, in place and in order; leaves `m1` alone when
    the row counts differ.
   */
  method ConcatInPlace<T>(m1: array<seq<T>>, m2: seq<seq<T>>)
    modifies m1
    ensures m1[..] == Concat2Matrix(old(m1[..]), m2)
  {
    if m1.Length != |m2| {
      return;
    }
    ghost var before := m1[..];
    var i := 0;
    while i < m1.Length
      invariant 0 <= i <= m1.Length
      invariant forall r :: 0 <= r < i ==> m1[r] == before[r] + m2[r]
      invariant forall r :: i <= r < m1.Length ==> m1[r] == before[r]
    {
      var j := 0;
      while j < |m2[i]|
        invariant 0 <= j <= |m2[i]|
        invariant m1[i] == before[i] + m2[i][..j]
        invariant forall r :: 0 <= r < m1.Length && r != i ==> m1[r] == (if r < i then before[r] + m2[r] else before[r])
      {
        m1[i] := m1[i] + [m2[i][j]];
        j := j + 1;
      }
      assert m2[i][..j] == m2[i];
      i := i + 1;
    }
  }
}
