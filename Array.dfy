/** The owning N-dimensional array: one flat buffer, a copy of the shape, and the
    row-major stride table computed at construction. */
module Arrays {
  import opened RowMajor
  import opened ArrayBase

  class Array<T(0)> {
    /** The rank N, fixed for the lifetime of the array. */
    const N: nat
    /** The shape descriptor the array was built from. */
    ghost const shape: seq<nat>

    /** The buffer (_head), the shape table (_dimensions), the total element count (_size)
        and the stride table (_strides). */
    const head: array<T>
    const dimensions: array<nat>
    const size: nat
    const strides: array<nat>

    ghost predicate Valid()
      reads this, dimensions, strides
    {
      N >= 1 && |shape| == N &&
      dimensions.Length == N && dimensions[..] == shape &&
      strides.Length == N - 1 && strides[..] == RowMajorStrides(shape) &&
      size == Product(shape) && head.Length == size &&
      head as object != dimensions && head as object != strides
    }

    /** Copies the descriptor into the shape table, builds the stride table from the last
        dimension inward with a running product, and allocates Product(descriptor)
        default-initialised elements. */
    constructor (n: nat, descriptor: seq<nat>)
      requires n >= 1 && |descriptor| == n
      ensures Valid() && N == n && shape == descriptor
      ensures fresh(head) && fresh(dimensions) && fresh(strides)
    {
      var total: nat := 1;
      var st := new nat[n - 1];
      var dim := new nat[n];
      var i := n - 1;
      while i > 0
        invariant 0 <= i <= n - 1
        invariant total == Product(descriptor[i + 1..])
        invariant forall k :: i <= k < n - 1 ==> st[k] == Product(descriptor[k + 1..])
        invariant forall k :: i < k < n ==> dim[k] == descriptor[k]
      {
        dim[i] := descriptor[i];
        assert descriptor[i..][1..] == descriptor[i + 1..];
        total := total * descriptor[i];
        st[i - 1] := total;
        i := i - 1;
      }
      dim[0] := descriptor[0];
      assert descriptor[1..] == descriptor[0 + 1..];
      total := total * descriptor[0];
      var buf := new T[total];
      head := buf;
      dimensions := dim;
      size := total;
      strides := st;
      N := n;
      shape := descriptor;
      new;
      assert dim[..] == descriptor;
      assert st[..] == RowMajorStrides(descriptor);
    }

    /** data(): the buffer that every proxy reads and writes, which holds exactly one cell
        per element of the shape. */
    function Data(): (b: array<T>)
      requires Valid()
      reads this, dimensions, strides
      ensures b == head && b.Length == Product(shape)
    {
      head
    }

    /** size(): the total number of elements, the product of all extents. */
    function Size(): (r: nat)
      requires Valid()
      reads this, dimensions, strides
      ensures r == Product(shape)
    {
      size
    }

    /** size(d): the extent of dimension d, as the descriptor gave it. */
    function SizeOf(d: nat): (r: nat)
      requires Valid() && d < N
      reads this, dimensions, strides
      ensures r == shape[d]
    {
      dimensions[d]
    }

    /** The array seen as a rank-N view from which indexing starts. */
    function Whole(): (v: View)
      requires Valid()
      reads this, dimensions, strides
      ensures ValidView(v, shape) && HasStrides(v, strides[..]) && v.rank == N
    {
      WholeValid(shape);
      View(0, 0, N)
    }

    /** operator[] at rank N > 1: the proxy of rank N-1 for sub-array i, whose head is i
        sub-array sizes into the buffer and whose stride pointer is the table's second entry. */
    function Subarray(i: nat): (v: View)
      requires Valid() && 1 < N && i < shape[0]
      reads this, dimensions, strides
      ensures v.rank == N - 1 && v.strideOff == 1 && v.head == i * Product(shape[1..])
      ensures ValidView(v, shape) && HasStrides(v, strides[..])
    {
      AccessValid(Whole(), shape, i);
      Access(Whole(), strides[..], i)
    }

    /** Reading through the reference a rank-1 view gives for `index` (also operator[] of
        the array itself when N == 1): the buffer cell that `index` resolves to. */
    function Get(v: View, index: nat): (x: T)
      requires Valid() && ValidView(v, shape) && v.rank == 1 && index < shape[N - 1]
      reads this, dimensions, strides, head
      ensures HasStrides(v, strides[..]) && Resolve(v, strides[..], [index]) < head.Length
      ensures x == head[Resolve(v, strides[..], [index])]
    {
      ElementInBounds(v, shape, index);
      Element(head[..], v, strides[..], index)
    }

    /** Assigning x through the reference a rank-1 view gives for `index`: the proxy only
        borrows the buffer, so this writes exactly that cell of the owner's buffer. */
    method Write(v: View, index: nat, x: T)
      requires Valid() && ValidView(v, shape) && v.rank == 1 && index < shape[N - 1]
      modifies head
      ensures Valid() && HasStrides(v, strides[..])
      ensures Resolve(v, strides[..], [index]) < head.Length
      ensures head[..] == old(head[..])[Resolve(v, strides[..], [index]) := x]
    {
      ElementInBounds(v, shape, index);
      head[v.head + index] := x;
    }

    /** arr[i0][i1]...[iN-1] read: the element at the row-major offset of the multi-index. */
    function Lookup(idx: seq<nat>): (x: T)
      requires Valid() && InRange(shape, idx)
      reads this, dimensions, strides, head
      ensures FlatOffset(RowMajorStrides(shape), idx) < head.Length
      ensures x == head[FlatOffset(RowMajorStrides(shape), idx)]
    {
      ChainFromWhole(shape, idx);
      var last := Descend(Whole(), strides[..], idx[..N - 1]);
      Get(last, idx[N - 1])
    }

    /** arr[i0][i1]...[iN-1] = x: writes exactly the cell at the row-major offset of the
        multi-index and leaves every other cell as it was. */
    method Store(idx: seq<nat>, x: T)
      requires Valid() && InRange(shape, idx)
      modifies head
      ensures Valid() && FlatOffset(RowMajorStrides(shape), idx) < head.Length
      ensures head[..] == old(head[..])[FlatOffset(RowMajorStrides(shape), idx) := x]
    {
      ChainFromWhole(shape, idx);
      var last := Descend(Whole(), strides[..], idx[..N - 1]);
      Write(last, idx[N - 1], x);
    }
  }

  /** Reading a multi-index back after a store through another one gives the stored value
      when the two agree and the old contents otherwise: stores never disturb other cells. */
  lemma {:induction false} StoreThenLookup<T>(buf: seq<T>, dims: seq<nat>,
                                              idx: seq<nat>, jdx: seq<nat>, x: T)
    requires |dims| >= 1 && |buf| == Product(dims) && InRange(dims, idx) && InRange(dims, jdx)
    ensures FlatOffset(RowMajorStrides(dims), idx) < |buf|
    ensures FlatOffset(RowMajorStrides(dims), jdx) < |buf|
    ensures buf[FlatOffset(RowMajorStrides(dims), idx) := x][FlatOffset(RowMajorStrides(dims), jdx)]
         == if idx == jdx then x else buf[FlatOffset(RowMajorStrides(dims), jdx)]
  {
    OffsetBound(dims, idx);
    OffsetBound(dims, jdx);
    if FlatOffset(RowMajorStrides(dims), idx) == FlatOffset(RowMajorStrides(dims), jdx) {
      OffsetInjective(dims, idx, jdx);
    }
  }

  /** A client of the (2, 3, 4) array: a store through the chain [1][2][3] lands on
      cell 23 and reads back. */
  method ClientAddressLaw()
  {
    var a := new Array<int>(3, [2, 3, 4]);
    AddressLaw();
    assert InRange([2, 3, 4], [1, 2, 3]);
    a.Store([1, 2, 3], 99);
    assert a.head[23] == 99;
    assert a.Lookup([1, 2, 3]) == 99;
  }

  /** A client of a rank-1 array of shape (5): indexing reaches the element directly. */
  method ClientRankOne()
  {
    var v := new Array<int>(1, [5]);
    RankOne(5);
    assert InRange([5], [4]) && FlatOffset([], [4]) == 4;
    v.Store([4], 7);
    assert v.head[4] == 7 && v.Lookup([4]) == 7;
  }
}
