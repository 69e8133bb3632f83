/** The indexing machinery shared by the owning array and its proxies: one indexing step
    at rank > 1 yields a view of rank one less, and at rank 1 yields the element. */
module ArrayBase {
  import opened RowMajor

  /** An ArrayProxy or ConstArrayProxy, as a value. It borrows everything from its owner:
      `head` is where its head pointer points into the owner's buffer, `strideOff` is where
      its stride pointer points into the owner's stride table, and `rank` is its
      dimensionality. The owner itself is the view View(0, 0, N). Building a View copies
      the two positions as given and allocates nothing. */
  datatype View = View(head: nat, strideOff: nat, rank: nat)

  /** The stride entries view v still has to consume: one per dimension but its last. */
  ghost predicate HasStrides(v: View, strides: seq<nat>)
  {
    1 <= v.rank && v.strideOff + v.rank - 1 <= |strides|
  }

  /** The buffer offset reached from view v by applying the indices idx, one per
      remaining dimension. */
  ghost function Resolve(v: View, strides: seq<nat>, idx: seq<nat>): nat
    requires HasStrides(v, strides) && |idx| == v.rank
  {
    v.head + FlatOffset(strides[v.strideOff..v.strideOff + v.rank - 1], idx)
  }

  /** The view a proxy has over shape dims when every index applied so far was in range:
      its remaining dimensions are the last `rank` of dims, and the block of elements it
      spans lies inside the owner's buffer. */
  ghost predicate ValidView(v: View, dims: seq<nat>)
  {
    1 <= v.rank && v.strideOff + v.rank == |dims| &&
    v.head + Product(dims[v.strideOff..]) <= Product(dims)
  }

  lemma ResolveStep(v: View, strides: seq<nat>, index: nat, r: View, tail: seq<nat>)
    requires HasStrides(v, strides) && 1 < v.rank && |tail| == v.rank - 1
    requires r == View(v.head + strides[v.strideOff] * index, v.strideOff + 1, v.rank - 1)
    ensures HasStrides(r, strides)
    ensures Resolve(r, strides, tail) == Resolve(v, strides, [index] + tail)
  {
  }

  /** One indexing step at rank > 1 (Accessor<T,N>::access, used by the owner's and every
      proxy's operator[]): a proxy of rank one less whose head has moved by one stride per
      unit of `index`, whose stride pointer has moved past exactly one entry, and which resolves any remaining indices to the same cell as
      the parent resolves `index` followed by them. */
  function Access(v: View, strides: seq<nat>, index: nat): (r: View)
    requires HasStrides(v, strides) && 1 < v.rank
    ensures r.rank == v.rank - 1 && r.strideOff == v.strideOff + 1
    ensures r.head == v.head + strides[v.strideOff] * index
    ensures HasStrides(r, strides)
    ensures forall tail :: |tail| == r.rank ==>
      Resolve(r, strides, tail) == Resolve(v, strides, [index] + tail)
  {
    var r := View(v.head + strides[v.strideOff] * index, v.strideOff + 1, v.rank - 1);
    assert forall tail :: |tail| == r.rank ==>
      Resolve(r, strides, tail) == Resolve(v, strides, [index] + tail) by {
      forall tail | |tail| == r.rank
        ensures Resolve(r, strides, tail) == Resolve(v, strides, [index] + tail)
      {
        ResolveStep(v, strides, index, r, tail);
      }
    }
    r
  }

  /** An in-range step keeps the view inside the owner's buffer. */
  lemma AccessValid(v: View, dims: seq<nat>, index: nat)
    requires ValidView(v, dims) && 1 < v.rank && index < dims[v.strideOff]
    ensures HasStrides(v, RowMajorStrides(dims))
    ensures ValidView(Access(v, RowMajorStrides(dims), index), dims)
  {
    var strides := RowMajorStrides(dims);
    var p := Product(dims[v.strideOff + 1..]);
    assert strides[v.strideOff] == p;
    assert dims[v.strideOff..][1..] == dims[v.strideOff + 1..];
    assert Product(dims[v.strideOff..]) == dims[v.strideOff] * p;
    MulLeq(index + 1, dims[v.strideOff], p);
  }

  /** The rank-1 step (Accessor<T,1>::access): the element at head[index] itself, which is
      the cell that `index` resolves to. The stride table is passed but not consulted. */
  function Element<T>(buf: seq<T>, v: View, strides: seq<nat>, index: nat): (x: T)
    requires v.rank == 1 && v.strideOff <= |strides| && v.head + index < |buf|
    ensures x == buf[Resolve(v, strides, [index])]
  {
    buf[v.head + index]
  }

  /** A rank-1 view over an in-range index stays inside the owner's buffer. */
  lemma ElementInBounds(v: View, dims: seq<nat>, index: nat)
    requires ValidView(v, dims) && v.rank == 1 && index < dims[|dims| - 1]
    ensures v.head + index < Product(dims)
  {
  }

  /** The chain of indexing steps view[idx[0]][idx[1]]... down to a rank-1 view: it
      consumes one stride per index, and the element it then gives for `last` is the cell
      the whole index sequence resolves to from v. */
  function Descend(v: View, strides: seq<nat>, idx: seq<nat>): (r: View)
    requires HasStrides(v, strides) && |idx| == v.rank - 1
    ensures r.rank == 1 && r.strideOff == v.strideOff + |idx| && HasStrides(r, strides)
    ensures forall last :: Resolve(r, strides, [last]) == Resolve(v, strides, idx + [last])
    decreases |idx|
  {
    if |idx| == 0 then
      assert forall last :: idx + [last] == [last];
      v
    else
      var r := Descend(Access(v, strides, idx[0]), strides, idx[1..]);
      assert forall last :: [idx[0]] + (idx[1..] + [last]) == idx + [last];
      r
  }

  /** In-range chains stay inside the owner's buffer. */
  lemma {:induction false} DescendValid(v: View, dims: seq<nat>, idx: seq<nat>)
    requires ValidView(v, dims) && |idx| == v.rank - 1
    requires forall k :: 0 <= k < |idx| ==> idx[k] < dims[v.strideOff + k]
    ensures HasStrides(v, RowMajorStrides(dims))
    ensures ValidView(Descend(v, RowMajorStrides(dims), idx), dims)
    decreases |idx|
  {
    if |idx| > 0 {
      AccessValid(v, dims, idx[0]);
      DescendValid(Access(v, RowMajorStrides(dims), idx[0]), dims, idx[1..]);
    }
  }

  /** The owner, seen as a view, has the whole stride table and spans the whole buffer. */
  lemma WholeValid(dims: seq<nat>)
    requires |dims| >= 1
    ensures HasStrides(View(0, 0, |dims|), RowMajorStrides(dims))
    ensures ValidView(View(0, 0, |dims|), dims)
  {
    assert dims[0..] == dims;
  }

  /** From the owner, the indices resolve to the row-major offset of the multi-index. */
  lemma ResolveWhole(dims: seq<nat>, idx: seq<nat>)
    requires |dims| >= 1 && |idx| == |dims|
    ensures HasStrides(View(0, 0, |dims|), RowMajorStrides(dims))
    ensures ValidView(View(0, 0, |dims|), dims)
    ensures Resolve(View(0, 0, |dims|), RowMajorStrides(dims), idx)
         == FlatOffset(RowMajorStrides(dims), idx)
  {
    var strides := RowMajorStrides(dims);
    WholeValid(dims);
    assert strides[0..|dims| - 1] == strides;
  }

  /** The full chain arr[i0]...[iN-1] from the owner: it ends at a rank-1 view inside the
      buffer whose element for the last index is the cell at the row-major offset. */
  lemma ChainFromWhole(dims: seq<nat>, idx: seq<nat>)
    requires |dims| >= 1 && InRange(dims, idx)
    ensures HasStrides(View(0, 0, |dims|), RowMajorStrides(dims))
    ensures ValidView(Descend(View(0, 0, |dims|), RowMajorStrides(dims), idx[..|dims| - 1]), dims)
    ensures Resolve(Descend(View(0, 0, |dims|), RowMajorStrides(dims), idx[..|dims| - 1]),
                    RowMajorStrides(dims), [idx[|dims| - 1]])
         == FlatOffset(RowMajorStrides(dims), idx)
    ensures FlatOffset(RowMajorStrides(dims), idx) < Product(dims)
  {
    var n := |dims|;
    ResolveWhole(dims, idx);
    DescendValid(View(0, 0, n), dims, idx[..n - 1]);
    OffsetBound(dims, idx);
    assert idx[..n - 1] + [idx[n - 1]] == idx;
  }

  /** In the (2, 3, 4) array, arr[1] is the proxy with head 12 and arr[1][2] the one with
      head 20, whose element 3 is cell 23. */
  lemma AddressLawDescent()
    ensures Access(View(0, 0, 3), [12, 4], 1) == View(12, 1, 2)
    ensures Descend(View(0, 0, 3), [12, 4], [1, 2]) == View(20, 2, 1)
    ensures Resolve(View(0, 0, 3), [12, 4], [1, 2, 3]) == 23
  {
  }
}
