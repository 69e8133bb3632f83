# N-dimensional row-major array (LAS), modelled in Dafny

The LAS library's core is `Array<T,N>`, an N-dimensional array that owns one flat
buffer. It is built from a shape descriptor of N extents. The constructor copies the
shape into a dimension table. It builds an (N-1)-entry stride table by folding a running
product from the last dimension inward. It allocates a buffer of Π(shape) elements.
Indexing `arr[i]` at rank N > 1 gives a non-owning proxy (`ArrayProxy` /
`ConstArrayProxy`) of rank N-1. That proxy's head pointer is advanced by
`strides[0]*i` and its stride pointer by one entry. At rank 1 indexing gives the
element itself. Proxies borrow the owner's buffer and stride table, so a write
through a proxy is a write into the owner's buffer.

The model has three modules:

- `RowMajor` (RowMajor.dfy) is the layout arithmetic. It defines `Product` of a shape,
  the specification `RowMajorStrides` of the stride table, and `FlatOffset`, the
  row-major offset Σ idx[k]*strides[k] + idx[N-1]. It proves that an in-range
  multi-index lands in the buffer (`OffsetBound`) and that distinct ones land on
  distinct cells (`OffsetInjective`). `Unflatten` is the inverse, so every cell is
  reached by exactly one multi-index.
- `ArrayBase` (ArrayBase.dfy) models the accessors and proxies as values. A proxy is a
  `View(head, strideOff, rank)`: the position of its head pointer in the owner's buffer,
  the position of its stride pointer in the owner's stride table, and its rank.
  Constructing a `View` stores the two positions as given and allocates nothing, which
  is all the proxy constructors do. The C++ compile-time rank recursion becomes a
  run-time `rank`. `Access` is the rank > 1 step and needs `rank > 1`; `Element` is the
  rank-1 step and needs `rank == 1`. `Descend` is a chain of `operator[]` steps.
  `Resolve` says which buffer cell a view sends its remaining indices to.
- `Arrays` (Array.dfy) is the owning class `Array<T>`. Its fields are the buffer `head`,
  the shape table `dimensions`, `size` and the stride table `strides`, with the rank `N`
  and the ghost `shape`. The constructor has the source's count-down loop and its
  invariants. The getters are `Data`, `Size` and `SizeOf`. `Subarray` is the owner's
  `operator[]` at rank > 1. `Get` and `Write` read and assign through the reference a
  rank-1 view gives. `Lookup` and `Store` are a full chain `arr[i0]...[iN-1]`. `ClientAddressLaw`
  and `ClientRankOne` exercise the (2, 3, 4) address law and a rank-1 array.

The const `operator[]` overloads only read, so they are functions (`Subarray`, `Access`,
`Get`) that change nothing. Assigning through the returned `T&` is the method `Write`.
It modifies only the owner's buffer.

The code does not check that the extents are positive, and neither does the model. A
zero extent gives an empty buffer.

## Model

| member | source | states |
|---|---|---|
| `RowMajor.RowMajorStrides` | LAS/src/Array.h:50-60 | the stride table has N-1 entries and entry k is the product of the extents after k |
| `RowMajor.StridesRecurrence` | LAS/src/Array.h:56-60 | each stride is the next extent times the next stride, and the last stride is the last extent (the running product of the loop) |
| `RowMajor.OffsetBound` | LAS/src/Array.h:56-63 | a multi-index with every index below its extent has a row-major offset below size() |
| `RowMajor.OffsetInjective` | LAS/src/Array.h:50-52 | two in-range multi-indices with the same offset are equal |
| `RowMajor.Unflatten` | LAS/src/Array.h:63 | every offset below size() is the row-major offset of some in-range multi-index |
| `RowMajor.UnflattenFlatOffset` | LAS/src/Array.h:63 | unflattening the offset of an in-range multi-index gives that multi-index back |
| `RowMajor.RankOne` | LAS/src/Array.h:53-62 | for N = 1 the stride table is empty and size() is the single extent |
| `RowMajor.AddressLaw` | LAS/src/Array.h:49-62 | shape (2, 3, 4) has strides [12, 4], size 24, and [1][2][3] at offset 23 |
| `ArrayBase.Access` | LAS/src/ArrayBase.h:69-74 | a rank-r step gives a view of rank r-1 whose stride pointer has moved by exactly one entry and which sends any remaining indices to the cell the parent sends `index` followed by them |
| `ArrayBase.ResolveStep` | LAS/src/ArrayBase.h:72-73 | moving the head by strides[0]*index and the stride pointer by one turns resolving index::tail from the parent into resolving tail from the child |
| `ArrayBase.AccessValid` | LAS/src/ArrayBase.h:72-73 | an in-range step from a view inside the buffer gives a view whose block still lies inside the buffer |
| `ArrayBase.Element` | LAS/src/ArrayBase.h:104-108 | the rank-1 step gives the buffer element at the cell `index` resolves to, not a further view |
| `ArrayBase.ElementInBounds` | LAS/src/ArrayBase.h:107 | a rank-1 view inside the buffer with an in-range index reads a cell below size() |
| `ArrayBase.Descend` | LAS/src/ArrayBase.h:202-203 | N-1 chained operator[] steps give a rank-1 view that sends the last index to the cell the whole multi-index resolves to |
| `ArrayBase.DescendValid` | LAS/src/ArrayBase.h:171-172 | a chain of in-range steps keeps every view inside the buffer |
| `ArrayBase.ChainFromWhole` | LAS/src/ArrayBase.h:202 | the full chain arr[i0]...[iN-1] from the owner ends at a rank-1 view inside the buffer whose element is the cell at offset Σ i_k*strides[k] + i_(N-1), below size() |
| `ArrayBase.WholeValid` | LAS/src/Array.h:82 | the owner, as the view with head at the buffer start and the whole stride table, has every stride it consumes and lies inside the buffer |
| `ArrayBase.ResolveWhole` | LAS/src/Array.h:82 | indexing from the owner resolves a multi-index to its row-major offset |
| `ArrayBase.AddressLawDescent` | LAS/src/ArrayBase.h:72-73 | in shape (2, 3, 4), arr[1] has head 12, arr[1][2] has head 20 and rank 1, and [1][2][3] is cell 23 |
| `Arrays.Array.constructor` | LAS/src/Array.h:46-68 | the shape table is an exact copy of the descriptor, the stride table is the row-major one, size is the product of the extents, and the fresh buffer has size elements |
| `Arrays.Array.Data` | LAS/src/Array.h:76 | data() is the owner's buffer and holds Π(shape) elements |
| `Arrays.Array.Size` | LAS/src/Array.h:78 | size() is the product of the descriptor's extents |
| `Arrays.Array.SizeOf` | LAS/src/Array.h:80 | size(d) is the descriptor's extent d, for every d < N |
| `Arrays.Array.Whole` | LAS/src/Array.h:82 | the owner as a rank-N view with head at the buffer start, inside the buffer |
| `Arrays.Array.Subarray` | LAS/src/Array.h:82-83 | for N > 1, arr[i] is a rank N-1 view with head offset i*strides[0] and stride offset 1, inside the buffer |
| `Arrays.Array.Get` | LAS/src/Array.h:83 | reading through a rank-1 view gives the buffer cell the index resolves to |
| `Arrays.Array.Write` | LAS/src/Array.h:18-23 | assigning through a rank-1 view sets exactly the resolved cell of the owner's buffer and nothing else |
| `Arrays.Array.Lookup` | LAS/src/Array.h:82 | reading arr[i0]...[iN-1] gives the buffer cell at offset Σ i_k*strides[k] + i_(N-1) |
| `Arrays.Array.Store` | LAS/src/Array.h:18-23 | writing x through arr[i0]...[iN-1] sets exactly the cell at that offset and leaves every other cell unchanged |
| `Arrays.StoreThenLookup` | LAS/src/Array.h:18-23 | after a store at one multi-index, reading any in-range multi-index gives x if it is the same one and the old contents otherwise |

## Left out

- The destructor and the `new` / `delete[]` pairs (LAS/src/Array.h:53-54, 63, 70-73). Dafny is garbage-collected, so neither the release of the buffer and stride table nor the never-released shape table is modelled.
- Allocation failure at construction is not modelled. Dafny's `new` cannot fail.
- The `typeid` debug assertions (LAS/src/ArrayBase.h:71, 106) check C++ types, not values. Dafny has a separate operation for each legal return type instead.
- The type-level helpers (LAS/src/Types.h) have no run-time behaviour, and the element type is a type parameter. `Vector`, `Matrix` and `Subroutines` (LAS/src/LinearAlgebra.h) are renamings or stubs.
- Const-correctness quirks are type-system issues and are not modelled. `ConstArrayProxy` keeps a const pointer but passes it as mutable, and the const overloads ask for the mutable `Reference` type. In the model, reads are functions and writes are the separate method `Array.Write`.
- Arrays.Array.Size: returns the value, while the source returns a mutable `Size&` through which a caller could overwrite `_size`. `SizeOf` is the same for `_dimensions[d]`.
- The unchecked descriptor length (the check at LAS/src/Array.h:48 is commented out) becomes the precondition `|descriptor| == n && n >= 1`. Out-of-range indices are undefined behaviour in the source and are preconditions here (`InRange`, `index < shape[k]`).
- Machine arithmetic is not modelled. `size_t` overflow of the size product and of `strides[0]*index`, and the `unsigned int` loop counter, are unbounded `nat` here.
- Dangling proxies (use after the owner is destroyed) cannot arise in a garbage-collected model. A `View` is a plain value and does not hold a reference to its owner; the owner's methods take it as an argument.
