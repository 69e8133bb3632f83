/** Row-major layout of an N-dimensional array: the element count of a shape,
    its stride table, and the flat buffer offset of a multi-index. */
module RowMajor {

  /** Number of elements of an array of shape s (the empty product is 1). */
  function Product(s: seq<nat>): nat
  {
    if |s| == 0 then 1 else s[0] * Product(s[1..])
  }

  /** The stride table of shape dims: one entry per dimension but the last, each the
      number of elements that one step along that dimension spans. */
  ghost function RowMajorStrides(dims: seq<nat>): (r: seq<nat>)
    requires |dims| >= 1
    ensures |r| == |dims| - 1
    ensures forall k :: 0 <= k < |r| ==> r[k] == Product(dims[k + 1..])
    decreases |dims|
  {
    if |dims| == 1 then []
    else
      [Product(dims[1..])] + RowMajorStrides(dims[1..])
  }

  /** Each stride is the next extent times the next stride, and the last stride is the
      last extent: the running product the constructor folds from the inside out. This
      lemma stands alone; the constructor's loop is proved against the closed form of
      RowMajorStrides directly. */
  lemma StridesRecurrence(dims: seq<nat>, k: nat)
    requires |dims| >= 2 && k < |dims| - 1
    ensures k < |dims| - 2 ==>
      RowMajorStrides(dims)[k] == dims[k + 1] * RowMajorStrides(dims)[k + 1]
    ensures k == |dims| - 2 ==> RowMajorStrides(dims)[k] == dims[k + 1]
  {
    assert dims[k + 1..][1..] == dims[k + 2..];
    if k == |dims| - 2 {
      assert dims[k + 2..] == [];
      assert Product(dims[k + 2..]) == 1;
    }
  }

  /** Multi-index idx is inside shape dims. */
  ghost predicate InRange(dims: seq<nat>, idx: seq<nat>)
  {
    |idx| == |dims| && forall k :: 0 <= k < |dims| ==> idx[k] < dims[k]
  }

  /** idx[0]*strides[0] + ... + idx[n-2]*strides[n-2] + idx[n-1]: the last dimension has the
      implicit stride 1. */
  ghost function FlatOffset(strides: seq<nat>, idx: seq<nat>): nat
    requires |idx| == |strides| + 1
    decreases |strides|
  {
    if |strides| == 0 then idx[0]
    else idx[0] * strides[0] + FlatOffset(strides[1..], idx[1..])
  }

  lemma MulLeq(a: nat, b: nat, p: nat)
    requires a <= b
    ensures a * p <= b * p
  {
  }

  /** Splitting off the first index of a row-major offset. */
  lemma OffsetSplit(dims: seq<nat>, idx: seq<nat>)
    requires |dims| >= 2 && |idx| == |dims|
    ensures RowMajorStrides(dims)[1..] == RowMajorStrides(dims[1..])
    ensures FlatOffset(RowMajorStrides(dims), idx)
         == idx[0] * Product(dims[1..]) + FlatOffset(RowMajorStrides(dims[1..]), idx[1..])
  {
    var st := RowMajorStrides(dims);
    var tail := RowMajorStrides(dims[1..]);
    assert |st[1..]| == |tail|;
    forall k | 0 <= k < |tail| ensures st[1..][k] == tail[k] {
      assert dims[1..][k + 1..] == dims[k + 2..];
    }
  }

  /** An in-range multi-index lands inside the buffer of Product(dims) elements. */
  lemma {:induction false} OffsetBound(dims: seq<nat>, idx: seq<nat>)
    requires |dims| >= 1 && InRange(dims, idx)
    ensures FlatOffset(RowMajorStrides(dims), idx) < Product(dims)
    decreases |dims|
  {
    if |dims| == 1 {
      assert dims[1..] == [];
    } else {
      var p := Product(dims[1..]);
      OffsetSplit(dims, idx);
      assert InRange(dims[1..], idx[1..]);
      OffsetBound(dims[1..], idx[1..]);
      MulLeq(idx[0] + 1, dims[0], p);
    }
  }

  /** A value below p on top of a multiple of p determines the multiple and the remainder. */
  lemma QuotientUnique(a: nat, r: nat, b: nat, s: nat, p: nat)
    requires r < p && s < p && a * p + r == b * p + s
    ensures a == b && r == s
  {
    if a < b {
      MulLeq(a + 1, b, p);
      assert false;
    } else if b < a {
      MulLeq(b + 1, a, p);
      assert false;
    }
  }

  /** Distinct in-range multi-indices have distinct offsets. */
  lemma {:induction false} OffsetInjective(dims: seq<nat>, idx: seq<nat>, jdx: seq<nat>)
    requires |dims| >= 1 && InRange(dims, idx) && InRange(dims, jdx)
    requires FlatOffset(RowMajorStrides(dims), idx) == FlatOffset(RowMajorStrides(dims), jdx)
    ensures idx == jdx
    decreases |dims|
  {
    if |dims| == 1 {
      assert idx == [idx[0]] && jdx == [jdx[0]];
    } else {
      OffsetSplit(dims, idx);
      OffsetSplit(dims, jdx);
      assert InRange(dims[1..], idx[1..]) && InRange(dims[1..], jdx[1..]);
      OffsetBound(dims[1..], idx[1..]);
      OffsetBound(dims[1..], jdx[1..]);
      QuotientUnique(idx[0], FlatOffset(RowMajorStrides(dims[1..]), idx[1..]),
                     jdx[0], FlatOffset(RowMajorStrides(dims[1..]), jdx[1..]),
                     Product(dims[1..]));
      OffsetInjective(dims[1..], idx[1..], jdx[1..]);
      assert idx == [idx[0]] + idx[1..];
      assert jdx == [jdx[0]] + jdx[1..];
    }
  }

  /** The multi-index of the cell at offset off in a buffer of shape dims: the inverse of
      FlatOffset, so every cell of the buffer is reached by exactly one in-range index. */
  ghost function Unflatten(dims: seq<nat>, off: nat): (idx: seq<nat>)
    requires |dims| >= 1 && off < Product(dims)
    ensures InRange(dims, idx)
    ensures FlatOffset(RowMajorStrides(dims), idx) == off
    decreases |dims|
  {
    if |dims| == 1 then
      assert dims[1..] == [] && Product(dims[1..]) == 1;
      [off]
    else
      var p := Product(dims[1..]);
      assert p > 0;
      var q, r := off / p, off % p;
      assert q < dims[0] by {
        if q >= dims[0] {
          MulLeq(dims[0], q, p);
          assert false;
        }
      }
      var idx := [q] + Unflatten(dims[1..], r);
      assert idx[1..] == Unflatten(dims[1..], r);
      OffsetSplit(dims, idx);
      idx
  }

  /** Unflatten recovers the multi-index of an in-range offset. */
  lemma UnflattenFlatOffset(dims: seq<nat>, idx: seq<nat>)
    requires |dims| >= 1 && InRange(dims, idx)
    ensures FlatOffset(RowMajorStrides(dims), idx) < Product(dims)
    ensures Unflatten(dims, FlatOffset(RowMajorStrides(dims), idx)) == idx
  {
    OffsetBound(dims, idx);
    var off := FlatOffset(RowMajorStrides(dims), idx);
    OffsetInjective(dims, Unflatten(dims, off), idx);
  }

  /** A rank-1 array has an empty stride table and as many elements as its one extent. */
  lemma RankOne(d: nat)
    ensures RowMajorStrides([d]) == [] && Product([d]) == d
  {
  }

  /** The (2, 3, 4) array: strides 12 and 4, and [1][2][3] sits at offset 23. */
  lemma AddressLaw()
    ensures RowMajorStrides([2, 3, 4]) == [12, 4] && Product([2, 3, 4]) == 24
    ensures FlatOffset(RowMajorStrides([2, 3, 4]), [1, 2, 3]) == 23
  {
  }
}
