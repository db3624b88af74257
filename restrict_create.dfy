/** Creation and destruction of the OCCA element restriction.
 *
 *  CeedElemRestrictionCreate_Occa accepts host indices only, registers the three backend
 *  entry points, allocates the three device buffers, and fills them either with the
 *  caller's indices and their transpose or not at all (a strided restriction).  It then
 *  fixes the E-layout, the compile-time defines (sizes, strides, tile size) and builds the
 *  six kernels.  The handle is `ElemRestrictionOcca`; device buffers and kernels are
 *  abstract values recording what was copied into them and what they were built from.
 */
module RestrictCreate {
  import opened CsrTranspose
  import opened RestrictApply

  datatype MemType = MemHost | MemDevice

  datatype CopyMode = CopyValues | UsePointer | OwnPointer

  /** Strides of an E-vector: between nodes, components and elements. */
  datatype Strides = Strides(node: int, comp: int, elem: int)

  /** The values the kernels are compiled with. */
  datatype Defines = Defines(
    nnodes: int, numComp: int, nelem: int, elemSize: int,
    nelemXElemSize: int, nelemXElemSizeXNumComp: int,
    strideNode: int, strideComp: int, strideElem: int,
    tileSize: int)

  /** A slot of the kernel table: not built, or built from entry point `name` with `defines`. */
  datatype Kernel = KernelUndefined | Built(name: string, defines: Defines)

  /** A device allocation of `bytes` bytes; `contents` is what was copied into it, if anything. */
  datatype DeviceBuffer = DeviceBuffer(bytes: nat, contents: Option<seq<int>>)

  const KernelCount: nat := 6

  /** sizeof(CeedInt): a CeedInt is a 32-bit integer. */
  const IntBytes: nat := 4

  /** `bytes`: the size of an array holding one CeedInt per local id. */
  function IndexBytes(nelem: nat, elemSize: nat): (b: nat)
    ensures b % IntBytes == 0 && b / IntBytes == nelem * elemSize
  {
    nelem * elemSize * IntBytes
  }

  /** The OKL entry point built into slot `i`: "kRestrict0" to "kRestrict5". */
  function KernelName(i: nat): (name: string)
    requires i < KernelCount
    ensures |name| == 10 && name[..9] == "kRestrict" && name[9] as int - '0' as int == i
  {
    "kRestrict" + [('0' as int + i) as char]
  }

  lemma KernelNamesDistinct(i: nat, j: nat)
    requires i < KernelCount && j < KernelCount && i != j
    ensures KernelName(i) != KernelName(j)
  {
    assert KernelName(i)[9] != KernelName(j)[9];
  }

  // ---------------------------------------------------------------------------
  // Layout, strides and tile size

  /** The E-layout of every restriction this backend creates, and the default kernel
   *  strides: node fastest, then component, then element. */
  function DefaultStrides(elemSize: nat, ncomp: nat): (s: Strides)
  {
    Strides(1, elemSize, elemSize * ncomp)
  }

  /** Strides the kernels are compiled with: the caller's only for a strided restriction
   *  that does not use backend strides. */
  function KernelStrides(strided: bool, backendStrides: bool, userStrides: Strides,
                         elemSize: nat, ncomp: nat): (s: Strides)
    ensures strided && !backendStrides ==> s == userStrides
    ensures !strided || backendStrides ==> s == DefaultStrides(elemSize, ncomp)
  {
    if strided && !backendStrides then userStrides else DefaultStrides(elemSize, ncomp)
  }

  /** Offset in an E-vector of node `i`, component `c` of element `e`. */
  function EOffset(s: Strides, i: int, c: int, e: int): (off: int)
  {
    i * s.node + c * s.comp + e * s.elem
  }

  lemma DivMod(x: int, d: int, q: int, r: int)
    requires d > 0 && 0 <= r < d && x == q * d + r
    ensures x / d == q && x % d == r
  {
    var q', r' := x / d, x % d;
    assert (q - q') * d == r' - r;
    if q' < q {
      MulMonotone(d, 1, q - q');
    } else if q < q' {
      MulMonotone(d, 1, q' - q);
    }
  }

  /** The default layout packs the E-vector: every (node, component, element) lands inside
   *  `nelem*elemsize*ncomp` entries, and its offset gives the triple back. */
  lemma DefaultLayoutRoundTrip(nelem: nat, elemSize: nat, ncomp: nat, i: int, c: int, e: int)
    requires 0 <= i < elemSize && 0 <= c < ncomp && 0 <= e < nelem
    ensures var off := EOffset(DefaultStrides(elemSize, ncomp), i, c, e);
      && 0 <= off < nelem * elemSize * ncomp
      && off % elemSize == i
      && (off / elemSize) % ncomp == c
      && off / (elemSize * ncomp) == e
  {
    var d := elemSize * ncomp;
    var off := EOffset(DefaultStrides(elemSize, ncomp), i, c, e);
    var inner, q := i + c * elemSize, c + ncomp * e;
    assert split: off == q * elemSize + i && off == e * d + inner by {
      assert q * elemSize == c * elemSize + e * d;
    }
    assert 0 <= inner < d by {
      MulMonotone(elemSize, c + 1, ncomp);
      assert c * elemSize + elemSize == elemSize * (c + 1);
    }
    assert off % elemSize == i && off / elemSize == q by {
      DivMod(off, elemSize, q, i);
    }
    assert q % ncomp == c by {
      DivMod(q, ncomp, e, c);
    }
    assert off / d == e by {
      DivMod(off, d, e, inner);
    }
    assert off < nelem * elemSize * ncomp by {
      LocalIdBound(nelem, d, e, inner);
      assert nelem * d == nelem * elemSize * ncomp;
    }
  }

  /** Elements per tile: `nelem` capped at the header's tile size, and 1 under OpenCL. */
  function TileSize(nelem: int, tileMax: int, ocl: bool): (t: int)
    ensures ocl ==> t == 1
    ensures !ocl ==> t <= nelem && t <= tileMax && (t == nelem || t == tileMax)
  {
    var capped := if nelem > tileMax then tileMax else nelem;
    if ocl then 1 else capped
  }

  function KernelDefines(nnodes: nat, ncomp: nat, nelem: nat, elemSize: nat,
                         strides: Strides, tileSize: int): (d: Defines)
    ensures d.nelemXElemSize == d.nelem * d.elemSize
    ensures d.nelemXElemSizeXNumComp == d.nelemXElemSize * d.numComp
  {
    Defines(nnodes, ncomp, nelem, elemSize, nelem * elemSize, nelem * elemSize * ncomp,
            strides.node, strides.comp, strides.elem, tileSize)
  }

  /** CeedElemRestrictionCreateBlocked_Occa: always the "not implemented" error. */
  function CreateBlocked(mtype: MemType, cmode: CopyMode): (st: Status)
    ensures st.Failure? && st.code == 1
    ensures st.message == "Backend does not implement blocked restrictions"
  {
    Failure(1, "Backend does not implement blocked restrictions")
  }

  // ---------------------------------------------------------------------------
  // The handle

  class ElemRestrictionOcca {
    // Attributes of the restriction, as its getters return them.
    const nelem: nat
    const elemSize: nat
    const nnodes: nat
    const ncomp: nat
    const compStride: int

    // What create records on the restriction itself.
    var backendFunctions: set<string>
    var eLayout: Strides

    // The backend data.
    var strided: bool
    var dIndices: DeviceBuffer
    var dTOffsets: DeviceBuffer
    var dTIndices: DeviceBuffer
    var defines: Defines
    const kRestrict: array<Kernel>
    var released: bool

    /** The device buffers have their sizes, and an indexed restriction holds its indices
     *  and their CSR transpose on the device; a strided one copied nothing. */
    ghost predicate Valid()
      reads this
    {
      kRestrict.Length == KernelCount &&
      dIndices.bytes == IndexBytes(nelem, elemSize) &&
      dTIndices.bytes == IndexBytes(nelem, elemSize) &&
      dTOffsets.bytes == (1 + nnodes) * IntBytes &&
      (strided <==> dIndices.contents.None?) &&
      (strided ==> dTOffsets.contents.None? && dTIndices.contents.None?) &&
      (!strided ==>
        var ind := dIndices.contents.value;
        |ind| == nelem * elemSize && InRange(ind, nnodes) &&
        dTOffsets.contents == Some(TOffsets(ind, nnodes)) &&
        dTIndices.contents == Some(TIndices(ind, nnodes)))
    }

    /** Every slot holds its own kernel, compiled with the restriction's defines. */
    ghost predicate Ready()
      reads this, kRestrict
    {
      kRestrict.Length == KernelCount && !released &&
      forall i :: 0 <= i < KernelCount ==> kRestrict[i] == Built(KernelName(i), defines)
    }

    /** The body of CeedElemRestrictionCreate_Occa past the memory-type check. */
    constructor (indices: Option<seq<int>>, nelem: nat, elemSize: nat, nnodes: nat,
                 ncomp: nat, compStride: int, userStrides: Strides, backendStrides: bool,
                 ocl: bool, tileMax: int)
      requires indices.Some? ==> |indices.value| == nelem * elemSize && InRange(indices.value, nnodes)
      ensures Valid() && Ready() && fresh(kRestrict)
      ensures this.nelem == nelem && this.elemSize == elemSize && this.nnodes == nnodes
      ensures this.ncomp == ncomp && this.compStride == compStride
      ensures backendFunctions == {"Apply", "ApplyBlock", "Destroy"}
      ensures strided <==> indices.None?
      ensures indices.Some? ==> dIndices.contents == indices
      ensures eLayout == DefaultStrides(elemSize, ncomp)
      ensures defines == KernelDefines(nnodes, ncomp, nelem, elemSize,
                                       KernelStrides(strided, backendStrides, userStrides, elemSize, ncomp),
                                       TileSize(nelem, tileMax, ocl))
    {
      this.nelem, this.elemSize, this.nnodes := nelem, elemSize, nnodes;
      this.ncomp, this.compStride := ncomp, compStride;
      backendFunctions := {"Apply", "ApplyBlock", "Destroy"};
      var isStrided := indices.None?;
      if indices.Some? {
        var di, dto, dti := Upload(indices.value, nelem, elemSize, nnodes);
        dIndices, dTOffsets, dTIndices := di, dto, dti;
      } else {
        var ib, ob := IndexBytes(nelem, elemSize), (1 + nnodes) * IntBytes;
        dIndices, dTOffsets, dTIndices := DeviceBuffer(ib, None), DeviceBuffer(ob, None), DeviceBuffer(ib, None);
      }
      strided := isStrided;
      eLayout := DefaultStrides(elemSize, ncomp);
      var strides := KernelStrides(isStrided, backendStrides, userStrides, elemSize, ncomp);
      var tile := TileSize(nelem, tileMax, ocl);
      var defs := KernelDefines(nnodes, ncomp, nelem, elemSize, strides, tile);
      defines := defs;
      var table := new Kernel[KernelCount](_ => KernelUndefined);
      BuildKernels(table, defs);
      kRestrict := table;
      released := false;
    }

    /** CeedElemRestrictionApply_Occa: the kernel of the dispatched slot, its arguments, and
     *  the request after the call. */
    method Apply(tmode: TransposeMode, request: Request)
      returns (st: Status, kernel: Kernel, launch: Launch, after: Request)
      requires Valid() && !released
      ensures st == Success
      ensures launch == Dispatch(tmode, strided, ncomp, compStride)
      ensures kernel == kRestrict[launch.slot]
      ensures Ready() ==> kernel == Built(KernelName(launch.slot), defines)
      ensures after == RequestAfterApply(request)
    {
      launch := Dispatch(tmode, strided, ncomp, compStride);
      kernel := kRestrict[launch.slot];
      after := RequestAfterApply(request);
      st := Success;
    }

    /** CeedElemRestrictionDestroy_Occa: every kernel slot is freed and reset, and the
     *  backend data is released.  The three device buffers are left as they were. */
    method Destroy()
      requires Valid() && !released
      modifies this, kRestrict
      ensures Valid() && released
      ensures forall i :: 0 <= i < kRestrict.Length ==> kRestrict[i] == KernelUndefined
      ensures dIndices == old(dIndices) && dTOffsets == old(dTOffsets) && dTIndices == old(dTIndices)
      ensures strided == old(strided) && defines == old(defines)
      ensures backendFunctions == old(backendFunctions) && eLayout == old(eLayout)
    {
      for i := 0 to KernelCount
        invariant unchanged(this)
        invariant forall j :: 0 <= j < i ==> kRestrict[j] == KernelUndefined
      {
        kRestrict[i] := KernelUndefined;
      }
      released := true;
    }
  }

  /** Builds every slot of `table` from its own entry point, all with the same defines. */
  method BuildKernels(table: array<Kernel>, defines: Defines)
    requires table.Length == KernelCount
    modifies table
    ensures forall i :: 0 <= i < KernelCount ==> table[i] == Built(KernelName(i), defines)
  {
    table[0] := Built(KernelName(0), defines);
    table[1] := Built(KernelName(1), defines);
    table[2] := Built(KernelName(2), defines);
    table[3] := Built(KernelName(3), defines);
    table[4] := Built(KernelName(4), defines);
    table[5] := Built(KernelName(5), defines);
  }

  /** The indexed branch of create: the three device buffers get their sizes, and receive
   *  the indices and the transpose the host computes into temporary arrays. */
  method Upload(indices: seq<int>, nelem: nat, elemSize: nat, nnodes: nat)
    returns (dIndices: DeviceBuffer, dTOffsets: DeviceBuffer, dTIndices: DeviceBuffer)
    requires |indices| == nelem * elemSize && InRange(indices, nnodes)
    ensures dIndices == DeviceBuffer(IndexBytes(nelem, elemSize), Some(indices))
    ensures dTOffsets == DeviceBuffer((1 + nnodes) * IntBytes, Some(TOffsets(indices, nnodes)))
    ensures dTIndices == DeviceBuffer(IndexBytes(nelem, elemSize), Some(TIndices(indices, nnodes)))
  {
    var n := nelem * elemSize;
    var host := new int[n](lid requires 0 <= lid < n => indices[lid]);
    assert host[..] == indices;
    var toffsets := new int[nnodes + 1];
    var tindices := new int[n];
    ComputeTranspose(host, nelem, elemSize, nnodes, toffsets, tindices);
    dIndices := DeviceBuffer(IndexBytes(nelem, elemSize), Some(host[..]));
    dTOffsets := DeviceBuffer((1 + nnodes) * IntBytes, Some(toffsets[..]));
    dTIndices := DeviceBuffer(IndexBytes(nelem, elemSize), Some(tindices[..]));
  }

  /** CeedElemRestrictionCreate_Occa.  Non-host indices are refused before anything is
   *  allocated; otherwise the handle is built, and with OWN_POINTER the caller's index
   *  array is freed.  The transposed host arrays are temporaries and do not survive. */
  method Create(mtype: MemType, cmode: CopyMode, indices: Option<seq<int>>,
                nelem: nat, elemSize: nat, nnodes: nat, ncomp: nat, compStride: int,
                userStrides: Strides, backendStrides: bool, ocl: bool, tileMax: int)
    returns (st: Status, data: ElemRestrictionOcca?, freesIndices: bool)
    requires mtype == MemHost && indices.Some? ==>
      |indices.value| == nelem * elemSize && InRange(indices.value, nnodes)
    ensures mtype != MemHost ==>
      st == Failure(1, "Only MemType = HOST supported") && data == null && !freesIndices
    ensures mtype == MemHost ==> st == Success && data != null && fresh(data) && fresh(data.kRestrict)
    ensures mtype == MemHost ==> data.Valid() && data.Ready()
    ensures mtype == MemHost ==>
      data.nelem == nelem && data.elemSize == elemSize && data.nnodes == nnodes &&
      data.ncomp == ncomp && data.compStride == compStride
    ensures mtype == MemHost ==> data.backendFunctions == {"Apply", "ApplyBlock", "Destroy"}
    ensures mtype == MemHost ==> (data.strided <==> indices.None?)
    ensures mtype == MemHost && indices.Some? ==> data.dIndices.contents == indices
    ensures mtype == MemHost ==>
      data.eLayout == DefaultStrides(elemSize, ncomp) &&
      data.defines == KernelDefines(nnodes, ncomp, nelem, elemSize,
                                    KernelStrides(data.strided, backendStrides, userStrides, elemSize, ncomp),
                                    TileSize(nelem, tileMax, ocl))
    ensures freesIndices <==> mtype == MemHost && cmode == OwnPointer && indices.Some?
  {
    if mtype != MemHost {
      return Failure(1, "Only MemType = HOST supported"), null, false;
    }
    data := new ElemRestrictionOcca(indices, nelem, elemSize, nnodes, ncomp, compStride,
                                    userStrides, backendStrides, ocl, tileMax);
    freesIndices := cmode == OwnPointer && indices.Some?;
    st := Success;
  }

  // ---------------------------------------------------------------------------
  // What the launched kernels compute on a valid handle

  /** The forward single-component kernel reads the caller's indices from the device:
   *  it is the gather through them. */
  lemma ForwardKernelIsGather(r: ElemRestrictionOcca, u: seq<real>)
    requires r.Valid() && !r.strided && r.ncomp == 1 && |u| == r.nnodes
    ensures Dispatch(NoTranspose, r.strided, r.ncomp, r.compStride).args == [IndicesBuf, Input, Output]
    ensures InRange(r.dIndices.contents.value, |u|)
    ensures |Gather(r.dIndices.contents.value, u)| == r.nelem * r.elemSize
  {
  }

  /** The transpose single-component kernel over the handle's CSR buffers adds to `v` the
   *  naive scatter-add of `u` through the caller's indices. */
  lemma TransposeKernelIsScatterAdd(r: ElemRestrictionOcca, u: seq<real>, v: seq<real>)
    requires r.Valid() && !r.strided && r.ncomp == 1 && |u| == r.nelem * r.elemSize && |v| == r.nnodes
    ensures Dispatch(Transpose, r.strided, r.ncomp, r.compStride).args == [TIndicesBuf, TOffsetsBuf, Input, Output]
    ensures CsrShape(r.dTOffsets.contents.value, r.dTIndices.contents.value, |u|, |v|)
    ensures CsrAccumulate(r.dTOffsets.contents.value, r.dTIndices.contents.value, u, v)
         == ScatterAdd(r.dIndices.contents.value, u, v, |u|)
  {
    CsrTransposeIsScatterAdd(r.dIndices.contents.value, r.nnodes, u, v);
  }
}
