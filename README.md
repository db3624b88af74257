# OCCA element restriction of libCEED, modelled in Dafny

An element restriction maps between an L-vector (one entry per global node) and an
E-vector (one entry per local id `lid = elemsize*e + i`: node `i` of element `e`).  The
OCCA backend's `backends/occa/ceed-occa-restrict.c` implements it with three parts, each a
module here:

- `CsrTranspose` (`csr_transpose.dfy`): `CeedElemRestrictionOffset_Occa`.  It is a two-pass
  counting sort that turns the element-to-node array `indices` into a CSR pair.
  `toffsets` has `nnodes + 1` run boundaries and `tindices` lists the local ids grouped by
  node.  The model is an imperative method over arrays, one method per pass (zero and
  count, prefix sum, fill with the running cursor `toffsets[gid]++`, shift down).  Each
  method is proved against specification functions on sequences (`TOffsets`, `TIndices`).
  Lemmas about those functions prove:
  - the CSR boundaries: `0`, then `nelem*elemsize` at the end, never decreasing;
  - per-node counts;
  - that each run holds exactly the local ids of its node, in increasing order (stability);
  - that `tindices` is a permutation of `0 .. nelem*elemsize-1`.
- `RestrictApply` (`restrict_apply.dfy`): `CeedElemRestrictionApply_Occa` and the blocked
  apply.  Apply is a decision table from direction, strided layout and `ncomp == 1` to one
  of six kernel slots and its argument list.  It also clears the caller's request.  The
  kernels themselves are not visible.  For the single-component indexed kernels the model
  gives reference semantics on `real` vectors:
  - forward is a gather;
  - transpose is an accumulating scatter-add;
  - the CSR kernel adds each node's run `tindices[toffsets[g] .. toffsets[g+1]]`.

  It proves that the CSR kernel over the transposer's output computes the naive
  scatter-add, that transpose accumulates, and that transpose is the adjoint of the gather.
- `RestrictCreate` (`restrict_create.dfy`): `CeedElemRestrictionCreate_Occa`, Destroy and
  the blocked create.  The handle is the class `ElemRestrictionOcca`.  Its fields are:
  - the strided flag;
  - the three device buffers, as abstract values that record their size and what was
    copied into them;
  - the compile-time defines;
  - the six-slot kernel table, whose kernels are tokens naming their entry point and
    defines;
  - what create records on the restriction itself (backend functions, E-layout).

  Create refuses non-host memory.  A restriction is strided exactly when no indices are
  given.  The caller's strides are used only when strided without backend strides.  The
  tile size is `min(nelem, TILE_SIZE)`, forced to 1 under OpenCL.  `OWN_POINTER` frees the
  caller's array.

Two behaviours of the code worth knowing:

- Destroy frees the kernels and the backend data but **not** the three device buffers.
  `ElemRestrictionOcca.Destroy` states that they are left as they were.
- Apply sets `*request = NULL` only for a caller's request variable.  It leaves the
  `CEED_REQUEST_IMMEDIATE` and `CEED_REQUEST_ORDERED` sentinels alone.

## Model

| member | source | states |
|---|---|---|
| CsrTranspose.ComputeTranspose | backends/occa/ceed-occa-restrict.c:125-152 | the two arrays end up equal to the specification `TOffsets` / `TIndices` of the input indices, for every input whose indices lie in `[0, nnodes)` |
| CsrTranspose.CountNodes | backends/occa/ceed-occa-restrict.c:135-138 | after zeroing and the counting pass, `toffsets[g+1]` is the number of local ids referencing node `g` and `toffsets[0]` is 0 |
| CsrTranspose.PrefixSum | backends/occa/ceed-occa-restrict.c:139-140 | after the prefix sum, `toffsets[g]` is the number of local ids referencing a node below `g` |
| CsrTranspose.FillRuns | backends/occa/ceed-occa-restrict.c:141-147 | the cursor pass writes exactly the grouped, stable order `TIndices`, leaves each cursor `toffsets[g]` at the start of node `g+1`, and never touches the last slot `toffsets[nnodes]`, which stays `nelem*elemsize` |
| CsrTranspose.ShiftDown | backends/occa/ceed-occa-restrict.c:148-151 | shifting the cursors down and zeroing slot 0 yields exactly the run boundaries `TOffsets` |
| CsrTranspose.OffsetsBoundaries | backends/occa/ceed-occa-restrict.c:135-151 | the offsets have `nnodes+1` entries, start at 0, end at `nelem*elemsize`, and never decrease, including when there are no elements or no nodes |
| CsrTranspose.OffsetsCount | backends/occa/ceed-occa-restrict.c:135-151 | `toffsets[g+1] - toffsets[g]` is the number of local ids whose index is `g` |
| CsrTranspose.NodeRun | backends/occa/ceed-occa-restrict.c:141-151 | the slice `tindices[toffsets[g] .. toffsets[g+1]]` lies inside `tindices` and holds exactly the local ids of node `g`, strictly increasing |
| CsrTranspose.RunIsStableSelection | backends/occa/ceed-occa-restrict.c:141-147 | a node's run, as the cursor pass builds it, contains precisely the local ids of that node, in increasing order |
| CsrTranspose.TIndicesIsPermutation | backends/occa/ceed-occa-restrict.c:141-147 | every local id `0 .. nelem*elemsize-1` occurs exactly once in `tindices` and nothing else occurs, so it is a permutation of the local ids |
| CsrTranspose.CountIsCardinality | backends/occa/ceed-occa-restrict.c:136-138 | the count kept for a node is the size of the set of local ids referencing it |
| RestrictApply.Dispatch | backends/occa/ceed-occa-restrict.c:55-90 | the slot is one of six; it is 2, 3 or 5 exactly in transpose mode, 4 or 5 exactly when strided, 1 or 3 exactly when indexed with `ncomp != 1`; the vectors `u`, `v` are always the last two arguments |
| RestrictApply.DispatchArguments | backends/occa/ceed-occa-restrict.c:55-90 | the forward index buffer is passed exactly to forward indexed launches, the CSR pair exactly to transposed indexed launches, and `ncomp` with the restriction's component stride only, and first, to the multi-component variants |
| RestrictApply.EffectiveCompStride | backends/occa/ceed-occa-restrict.c:55-59 | the component stride stays 1 for a strided restriction and is the restriction's own otherwise |
| RestrictApply.DispatchIsOneToOne | backends/occa/ceed-occa-restrict.c:62-90 | two configurations that select the same kernel agree on direction and layout, and, when indexed, on whether there is one component |
| RestrictApply.RequestAfterApply | backends/occa/ceed-occa-restrict.c:91-92 | the immediate and ordered sentinels are unchanged; a caller's request variable is cleared |
| RestrictApply.ApplyBlock | backends/occa/ceed-occa-restrict.c:97-104 | blocked apply always fails with code 1 and "Backend does not implement blocked restrictions" |
| RestrictApply.ScatterAddAt | backends/occa/ceed-occa-restrict.c:76-77 | entry `g` of the naive transpose is the initial entry plus the sum of the `u` entries of the local ids referencing `g` |
| RestrictApply.TransposeAccumulates | backends/occa/ceed-occa-restrict.c:76-77 | transpose mode adds to `v` (`v += r^t u`): the result is `v` plus the transpose applied to a zero vector |
| RestrictApply.RunSum | backends/occa/ceed-occa-restrict.c:141-147 | summing `u` over a node's run gives exactly what the scatter-add adds to that node |
| RestrictApply.TransposerIsCsr | backends/occa/ceed-occa-restrict.c:125-152 | the transposer's output is a well-formed CSR pair (offsets from 0 to the end, non-decreasing; local ids in range) |
| RestrictApply.NodeSum | backends/occa/ceed-occa-restrict.c:83 | for every node, the transposer's output is a CSR pair and the CSR kernel's run sum over it equals the naive scatter-add |
| RestrictApply.CsrTransposeIsScatterAdd | backends/occa/ceed-occa-restrict.c:76-83 | the single-component CSR transpose kernel over `tid`, `od` computes exactly the naive scatter-add through `indices`, for every vector pair |
| RestrictApply.Adjoint | backends/occa/ceed-occa-restrict.c:62-83 | the transpose is the adjoint of the forward gather: `<r u, w> == <u, r^t w>` |
| RestrictApply.ExampleGather | backends/occa/ceed-occa-restrict.c:63 | two elements of size 3 sharing node 1: forward reads node 1 twice and nothing accumulates |
| RestrictApply.ExampleScatterAdd | backends/occa/ceed-occa-restrict.c:77 | in the same example the naive transpose of `1..6` into zeros gives `[1, 6, 3, 5, 6]` |
| RestrictApply.ExampleTranspose | backends/occa/ceed-occa-restrict.c:76-83 | the CSR kernel over the transposer's output gives the same `[1, 6, 3, 5, 6]`, with node 1 summing both elements' contributions |
| RestrictCreate.IndexBytes | backends/occa/ceed-occa-restrict.c:22-28 | the byte size holds exactly one 4-byte CeedInt per local id |
| RestrictCreate.KernelName | backends/occa/ceed-occa-restrict.c:248-253 | slot `i` is built from the entry point "kRestrict" followed by the digit `i` |
| RestrictCreate.KernelNamesDistinct | backends/occa/ceed-occa-restrict.c:248-253 | the six slots hold six different entry points |
| RestrictCreate.KernelStrides | backends/occa/ceed-occa-restrict.c:226-234 | the caller's strides are used exactly when strided without backend strides; otherwise the default `{1, elemsize, elemsize*ncomp}` |
| RestrictCreate.DefaultLayoutRoundTrip | backends/occa/ceed-occa-restrict.c:214-215 | the default E-layout places every (node, component, element) inside `nelem*elemsize*ncomp` entries, and the offset gives the triple back, so no two share an entry |
| RestrictCreate.TileSize | backends/occa/ceed-occa-restrict.c:239-241 | the tile size is 1 under OpenCL, otherwise the minimum of `nelem` and `TILE_SIZE` |
| RestrictCreate.KernelDefines | backends/occa/ceed-occa-restrict.c:218-237 | the product defines are consistent: `nelem_x_elemsize` is `nelem*elemsize` and `nelem_x_elemsize_x_ncomp` is that times `ncomp` |
| RestrictCreate.CreateBlocked | backends/occa/ceed-occa-restrict.c:268-276 | blocked create always fails with code 1 and "Backend does not implement blocked restrictions" |
| RestrictCreate.BuildKernels | backends/occa/ceed-occa-restrict.c:248-253 | every slot `i` gets the kernel of entry point `i`, all built with the same defines |
| RestrictCreate.Upload | backends/occa/ceed-occa-restrict.c:189-202 | an indexed restriction's device buffers have their byte sizes and receive the indices and the CSR transpose computed by the transposer |
| RestrictCreate.ElemRestrictionOcca.constructor | backends/occa/ceed-occa-restrict.c:176-263 | the handle is valid and its kernels built; the three backend functions are registered; strided exactly when no indices; indices copied to the device; E-layout default; defines from the chosen strides and tile size |
| RestrictCreate.Create | backends/occa/ceed-occa-restrict.c:155-265 | non-host memory fails with code 1 "Only MemType = HOST supported" and allocates nothing; otherwise success with a valid, ready handle whose sizes, component count and stride are the arguments, with `Apply`, `ApplyBlock` and `Destroy` registered and the caller's indices on the device; the caller's array is freed exactly for `OWN_POINTER` with indices |
| RestrictCreate.ElemRestrictionOcca.Apply | backends/occa/ceed-occa-restrict.c:33-94 | apply launches the dispatched slot's kernel (the built kernel of that entry point) with the dispatched arguments, updates the request, and returns 0 |
| RestrictCreate.ElemRestrictionOcca.Destroy | backends/occa/ceed-occa-restrict.c:107-120 | every kernel slot becomes undefined and the backend data is released, while the device buffers are left as they were |
| RestrictCreate.ForwardKernelIsGather | backends/occa/ceed-occa-restrict.c:62-70 | on a valid indexed single-component handle, the forward launch apply makes passes the device copy of the indices, which are in range for the L-vector, so the gather is well defined |
| RestrictCreate.TransposeKernelIsScatterAdd | backends/occa/ceed-occa-restrict.c:76-85 | on a valid indexed single-component handle, the transpose launch apply makes over the device CSR buffers computes the naive scatter-add through the device indices |

## Left out

- The OCCA calls are not modelled, and neither are the OKL kernel bodies, which are not
  visible.  These calls are `occaDeviceMalloc`, `occaCopyPtrToMem`, `occaDeviceBuildKernel`,
  `occaKernelRun` and `occaFree`.  Device buffers and kernels are abstract values.
- The multi-component and strided kernels are left out.  Their index arithmetic with
  `compstride` and the strides lives in the unseen kernels.  Only the single-component
  indexed kernels get reference semantics.
- `CeedDebug` logging, `CeedOklPath_Occa` and the `occaProperties` plumbing are left out.
  The define values are kept as a record.
- Scalars are `real`, not floating point.  The order of additions in the kernels is not
  modelled.
- Integers are unbounded.  The 32-bit `CeedInt` overflow of `nelem*elemsize` or of the
  byte sizes is not modelled.
- The header `backends/occa/ceed-occa.h` is not part of this model.  `TILE_SIZE` is a
  parameter (`tileMax`).  `CEED_OCCA_NUM_RESTRICTION_KERNELS` is taken to be 6, the number
  of slots the code builds and Destroy frees.
- Errors from the libCEED getters and allocators (`CeedChk` paths) are not modelled.
  Neither is releasing memory when create fails part-way, which the code does not do.
- The caller's index range is not checked by the code.  The transposer and create
  therefore require every index to lie in `[0, nnodes)`; out of range, the code writes out
  of bounds.
- The calling frontend and the vectors' device arrays are outside the model.  So are the
  trivial `CeedRequest` handles beyond being cleared.
- RestrictCreate.ElemRestrictionOcca.constructor: the strided branch still allocates the
  device buffers but copies nothing into them.  The model records their sizes only.  It
  does not model the host temporaries `toffsets`/`tindices` being allocated and freed.
- RestrictCreate.ForwardKernelIsGather: states only which buffer the forward kernel reads
  and that the gather through it is well defined.  The kernel's actual output cannot be
  stated, because its body is not visible.
- Other files of the repository are out of scope: `rust/src/basis.rs`,
  `examples/petsc/bp4.h` and `tests/t532-operator-f.h`.
