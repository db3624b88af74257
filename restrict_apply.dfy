/** The apply entry points of the OCCA element restriction.
 *
 *  CeedElemRestrictionApply_Occa does not compute anything itself: it picks one of six
 *  kernels and the buffers to launch it with.  `Dispatch` models that decision table.  The
 *  kernels are outside this model, so what a launch computes is given, for the
 *  single-component indexed variants, by reference definitions on values: the forward
 *  restriction is a gather, the transpose an accumulating scatter-add, and the CSR kernel
 *  sums each node's run of the transposer's output.
 */
module RestrictApply {
  import opened CsrTranspose

  datatype Option<T> = None | Some(value: T)

  /** What a backend entry point returns: 0, or the code and message given to CeedError. */
  datatype Status = Success | Failure(code: int, message: string)

  datatype TransposeMode = NoTranspose | Transpose

  /** A kernel argument: an integer, or one of the device buffers of the restriction
   *  (`id`, `tid`, `od`) and of the two vectors (`ud`, `vd`). */
  datatype KernelArg =
    | NumComp(ncomp: int)
    | CompStride(stride: int)
    | IndicesBuf
    | TIndicesBuf
    | TOffsetsBuf
    | Input
    | Output

  /** A launch of kernel `kRestrict[slot]` with `args`, in order. */
  datatype Launch = Launch(slot: nat, args: seq<KernelArg>)

  // ---------------------------------------------------------------------------
  // The decision table

  /** The component stride handed to the kernels: read from the restriction only when it is
   *  indexed, 1 otherwise. */
  function EffectiveCompStride(strided: bool, compStride: int): (cs: int)
    ensures strided ==> cs == 1
    ensures !strided ==> cs == compStride
  {
    if strided then 1 else compStride
  }

  /** The kernel and arguments launched by apply.  The strided variants (4, 5) see only the
   *  vectors; the indexed ones see the forward index (0, 1) or the CSR pair (2, 3); only the
   *  multi-component variants (1, 3) receive `ncomp` and the component stride. */
  function Dispatch(tmode: TransposeMode, strided: bool, ncomp: int, compStride: int): (l: Launch)
    ensures l.slot < 6
    ensures l.slot in {2, 3, 5} <==> tmode == Transpose
    ensures l.slot in {4, 5} <==> strided
    ensures l.slot in {1, 3} <==> !strided && ncomp != 1
    ensures |l.args| >= 2 && l.args[|l.args| - 2..] == [Input, Output]
  {
    var cs := EffectiveCompStride(strided, compStride);
    match tmode
    case NoTranspose =>
      if strided then Launch(4, [Input, Output])
      else if ncomp == 1 then Launch(0, [IndicesBuf, Input, Output])
      else Launch(1, [NumComp(ncomp), CompStride(cs), IndicesBuf, Input, Output])
    case Transpose =>
      if strided then Launch(5, [Input, Output])
      else if ncomp == 1 then Launch(2, [TIndicesBuf, TOffsetsBuf, Input, Output])
      else Launch(3, [NumComp(ncomp), CompStride(cs), TIndicesBuf, TOffsetsBuf, Input, Output])
  }

  /** The buffers a launch reads: the forward index only forward and indexed, the CSR pair
   *  only transposed and indexed; `ncomp` and the restriction's component stride go first,
   *  and only to the multi-component variants. */
  lemma DispatchArguments(tmode: TransposeMode, strided: bool, ncomp: int, compStride: int)
    ensures var l := Dispatch(tmode, strided, ncomp, compStride);
      && (IndicesBuf in l.args <==> !strided && tmode == NoTranspose)
      && (TIndicesBuf in l.args <==> !strided && tmode == Transpose)
      && (TOffsetsBuf in l.args <==> !strided && tmode == Transpose)
      && (l.slot in {1, 3} ==> l.args[..2] == [NumComp(ncomp), CompStride(compStride)])
      && (l.slot !in {1, 3} ==> forall a :: a in l.args ==> !a.NumComp? && !a.CompStride?)
  {
    var l := Dispatch(tmode, strided, ncomp, compStride);
    if strided {
      assert l.args == [Input, Output];
    } else if ncomp == 1 {
      assert l.args == if tmode == NoTranspose then [IndicesBuf, Input, Output]
                       else [TIndicesBuf, TOffsetsBuf, Input, Output];
    } else {
      assert l.args[..2] == [NumComp(ncomp), CompStride(compStride)];
    }
  }

  /** Different configurations (direction, layout and, when indexed, single or multiple
   *  components) select different kernels. */
  lemma DispatchIsOneToOne(t1: TransposeMode, s1: bool, n1: int, c1: int,
                           t2: TransposeMode, s2: bool, n2: int, c2: int)
    requires Dispatch(t1, s1, n1, c1).slot == Dispatch(t2, s2, n2, c2).slot
    ensures t1 == t2 && s1 == s2
    ensures !s1 ==> (n1 == 1 <==> n2 == 1)
  {
  }

  /** The request argument: one of the two sentinels, or a caller's request variable. */
  datatype Request = RequestImmediate | RequestOrdered | Caller(pending: Option<nat>)

  /** After apply the caller's request variable holds no outstanding work; the sentinels are
   *  left alone. */
  function RequestAfterApply(r: Request): (r': Request)
    ensures r.RequestImmediate? || r.RequestOrdered? ==> r' == r
    ensures r.Caller? ==> r' == Caller(None)
  {
    if r.Caller? then Caller(None) else r
  }

  /** CeedElemRestrictionApplyBlock_Occa: always the "not implemented" error. */
  function ApplyBlock(block: int, tmode: TransposeMode): (st: Status)
    ensures st.Failure? && st.code == 1
    ensures st.message == "Backend does not implement blocked restrictions"
  {
    Failure(1, "Backend does not implement blocked restrictions")
  }

  // ---------------------------------------------------------------------------
  // Reference semantics of the single-component indexed kernels

  /** `v = r*u`: E-vector entry `lid` is the L-vector entry of node `ind[lid]`. */
  function Gather(ind: seq<int>, u: seq<real>): (v: seq<real>)
    requires InRange(ind, |u|)
    ensures |v| == |ind|
  {
    seq(|ind|, lid requires 0 <= lid < |ind| => u[ind[lid]])
  }

  /** `v += r^t*u` done naively: the first `k` local ids, in increasing order, each add their
   *  entry of `u` to the entry of their node. */
  function ScatterAdd(ind: seq<int>, u: seq<real>, v: seq<real>, k: nat): (w: seq<real>)
    requires k <= |ind| == |u| && InRange(ind, |v|)
    ensures |w| == |v|
  {
    if k == 0 then v
    else
      var w := ScatterAdd(ind, u, v, k - 1);
      w[ind[k - 1] := w[ind[k - 1]] + u[k - 1]]
  }

  /** Sum of the entries of `u` carried by the first `k` local ids that reference node `g`. */
  function Contribution(ind: seq<int>, u: seq<real>, k: nat, g: int): (c: real)
    requires k <= |ind| == |u|
  {
    if k == 0 then 0.0
    else Contribution(ind, u, k - 1, g) + (if ind[k - 1] == g then u[k - 1] else 0.0)
  }

  /** Sum of `u` over the local ids listed in `t`. */
  function SumOver(t: seq<int>, u: seq<real>): (sum: real)
    requires InRange(t, |u|)
  {
    if |t| == 0 then 0.0 else SumOver(t[..|t| - 1], u) + u[t[|t| - 1]]
  }

  /** A CSR pair over `n` local ids and `m` nodes: offsets from 0 to the end of `t`, never
   *  decreasing, and local ids in range. */
  ghost predicate CsrShape(off: seq<int>, t: seq<int>, n: nat, m: nat)
  {
    |off| == m + 1 && off[0] == 0 && off[m] == |t| &&
    (forall g1, g2 :: 0 <= g1 <= g2 <= m ==> off[g1] <= off[g2]) &&
    InRange(t, n)
  }

  /** What the CSR transpose kernel computes: every node adds the sum of its own run. */
  function CsrAccumulate(off: seq<int>, t: seq<int>, u: seq<real>, v: seq<real>): (w: seq<real>)
    requires CsrShape(off, t, |u|, |v|)
    ensures |w| == |v|
  {
    seq(|v|, g requires 0 <= g < |v| => v[g] + SumOver(t[off[g] .. off[g + 1]], u))
  }

  function Zeros(n: nat): (z: seq<real>)
    ensures |z| == n && forall g :: 0 <= g < n ==> z[g] == 0.0
  {
    seq(n, _ => 0.0)
  }

  // ---------------------------------------------------------------------------
  // Properties of the reference semantics

  /** Entry `g` of the scatter-add is the initial entry plus everything node `g` receives. */
  lemma {:induction false} ScatterAddAt(ind: seq<int>, u: seq<real>, v: seq<real>, k: nat, g: int)
    requires k <= |ind| == |u| && InRange(ind, |v|) && 0 <= g < |v|
    ensures ScatterAdd(ind, u, v, k)[g] == v[g] + Contribution(ind, u, k, g)
  {
    if k > 0 {
      ScatterAddAt(ind, u, v, k - 1, g);
    }
  }

  /** The transpose accumulates: it adds to `v` what it would write into a zeroed vector. */
  lemma TransposeAccumulates(ind: seq<int>, u: seq<real>, v: seq<real>)
    requires |ind| == |u| && InRange(ind, |v|)
    ensures forall g :: 0 <= g < |v| ==>
      ScatterAdd(ind, u, v, |ind|)[g] == v[g] + ScatterAdd(ind, u, Zeros(|v|), |ind|)[g]
  {
    forall g | 0 <= g < |v|
      ensures ScatterAdd(ind, u, v, |ind|)[g] == v[g] + ScatterAdd(ind, u, Zeros(|v|), |ind|)[g]
    {
      ScatterAddAt(ind, u, v, |ind|, g);
      ScatterAddAt(ind, u, Zeros(|v|), |ind|, g);
    }
  }

  lemma SumOverAppend(t: seq<int>, x: int, u: seq<real>)
    requires InRange(t, |u|) && 0 <= x < |u|
    ensures InRange(t + [x], |u|)
    ensures SumOver(t + [x], u) == SumOver(t, u) + u[x]
  {
    assert (t + [x])[..|t|] == t;
  }

  /** Summing a node's run gives what the node receives. */
  lemma {:induction false} RunSum(ind: seq<int>, u: seq<real>, k: nat, g: int)
    requires k <= |ind| == |u|
    ensures InRange(Run(ind, k, g), |u|)
    ensures SumOver(Run(ind, k, g), u) == Contribution(ind, u, k, g)
  {
    if k > 0 {
      var r := Run(ind, k - 1, g);
      RunSum(ind, u, k - 1, g);
      if ind[k - 1] == g {
        assert Run(ind, k, g) == r + [k - 1];
        SumOverAppend(r, k - 1, u);
      } else {
        assert Run(ind, k, g) == r;
      }
    }
  }

  /** The transposer's output is a CSR pair over the local ids and the nodes. */
  lemma TransposerIsCsr(ind: seq<int>, nnodes: nat)
    requires InRange(ind, nnodes)
    ensures CsrShape(TOffsets(ind, nnodes), TIndices(ind, nnodes), |ind|, nnodes)
  {
    var t := TIndices(ind, nnodes);
    OffsetsBoundaries(ind, nnodes);
    CountBelowZero(ind, |ind|);
    CountBelowEnds(ind, |ind|, nnodes);
    PackedLength(ind, |ind|, nnodes);
    forall j | 0 <= j < |t| ensures 0 <= t[j] < |ind| {
      TIndicesIsPermutation(ind, nnodes);
      assert t[j] in multiset(t);
    }
  }

  /** One node of the CSR kernel: the transposer's output is a CSR pair, and the sum over
   *  the node's run is what the scatter-add gives it. */
  lemma NodeSum(ind: seq<int>, nnodes: nat, u: seq<real>, v: seq<real>, g: int)
    requires InRange(ind, nnodes) && |u| == |ind| && |v| == nnodes && 0 <= g < nnodes
    ensures CsrShape(TOffsets(ind, nnodes), TIndices(ind, nnodes), |u|, |v|)
    ensures CsrAccumulate(TOffsets(ind, nnodes), TIndices(ind, nnodes), u, v)[g]
         == ScatterAdd(ind, u, v, |ind|)[g]
  {
    TransposerIsCsr(ind, nnodes);
    RunOfNodeSum(ind, nnodes, u, v, g);
  }

  /** The run-sum step of `NodeSum`, given the CSR shape. */
  lemma RunOfNodeSum(ind: seq<int>, nnodes: nat, u: seq<real>, v: seq<real>, g: int)
    requires InRange(ind, nnodes) && |u| == |ind| && |v| == nnodes && 0 <= g < nnodes
    requires CsrShape(TOffsets(ind, nnodes), TIndices(ind, nnodes), |u|, |v|)
    ensures CsrAccumulate(TOffsets(ind, nnodes), TIndices(ind, nnodes), u, v)[g]
         == ScatterAdd(ind, u, v, |ind|)[g]
  {
    var off, t := TOffsets(ind, nnodes), TIndices(ind, nnodes);
    assert t[off[g] .. off[g + 1]] == Run(ind, |ind|, g) by {
      PackedRunsUpTo(ind, nnodes, g);
    }
    RunSum(ind, u, |ind|, g);
    ScatterAddAt(ind, u, v, |ind|, g);
  }

  /** The CSR kernel over the transposer's output computes exactly the naive scatter-add:
   *  this is what the transposed index exists for. */
  lemma CsrTransposeIsScatterAdd(ind: seq<int>, nnodes: nat, u: seq<real>, v: seq<real>)
    requires InRange(ind, nnodes) && |u| == |ind| && |v| == nnodes
    ensures CsrShape(TOffsets(ind, nnodes), TIndices(ind, nnodes), |u|, |v|)
    ensures CsrAccumulate(TOffsets(ind, nnodes), TIndices(ind, nnodes), u, v)
         == ScatterAdd(ind, u, v, |ind|)
  {
    TransposerIsCsr(ind, nnodes);
    var w := CsrAccumulate(TOffsets(ind, nnodes), TIndices(ind, nnodes), u, v);
    forall g | 0 <= g < |v| ensures w[g] == ScatterAdd(ind, u, v, |ind|)[g] {
      NodeSum(ind, nnodes, u, v, g);
    }
  }

  // ---------------------------------------------------------------------------
  // The transpose is the adjoint of the gather

  function DotPrefix(a: seq<real>, b: seq<real>, k: nat): (d: real)
    requires k <= |a| == |b|
  {
    if k == 0 then 0.0 else DotPrefix(a, b, k - 1) + a[k - 1] * b[k - 1]
  }

  function Dot(a: seq<real>, b: seq<real>): (d: real)
    requires |a| == |b|
  {
    DotPrefix(a, b, |a|)
  }

  lemma {:induction false} DotUpdate(u: seq<real>, x: seq<real>, g: int, c: real, k: nat)
    requires |u| == |x| && 0 <= g < |x| && k <= |x|
    ensures DotPrefix(u, x[g := x[g] + c], k) == DotPrefix(u, x, k) + (if g < k then u[g] * c else 0.0)
  {
    if k > 0 {
      DotUpdate(u, x, g, c, k - 1);
      if g == k - 1 {
        assert u[g] * (x[g] + c) == u[g] * x[g] + u[g] * c;
      }
    }
  }

  lemma {:induction false} DotZeros(u: seq<real>, k: nat)
    requires k <= |u|
    ensures DotPrefix(u, Zeros(|u|), k) == 0.0
  {
    if k > 0 { DotZeros(u, k - 1); }
  }

  lemma {:induction false} AdjointPrefix(ind: seq<int>, u: seq<real>, w: seq<real>, k: nat)
    requires InRange(ind, |u|) && |w| == |ind| && k <= |ind|
    ensures DotPrefix(Gather(ind, u), w, k) == Dot(u, ScatterAdd(ind, w, Zeros(|u|), k))
  {
    if k == 0 {
      DotZeros(u, |u|);
    } else {
      AdjointPrefix(ind, u, w, k - 1);
      var x, g := ScatterAdd(ind, w, Zeros(|u|), k - 1), ind[k - 1];
      DotUpdate(u, x, g, w[k - 1], |u|);
    }
  }

  /** `<r u, w> == <u, r^t w>`: the transpose kernel is the adjoint of the forward kernel. */
  lemma Adjoint(ind: seq<int>, u: seq<real>, w: seq<real>)
    requires InRange(ind, |u|) && |w| == |ind|
    ensures Dot(Gather(ind, u), w) == Dot(u, ScatterAdd(ind, w, Zeros(|u|), |ind|))
  {
    AdjointPrefix(ind, u, w, |ind|);
  }

  // ---------------------------------------------------------------------------
  // Two elements of size 3 sharing node 1

  const ExampleIndices: seq<int> := [0, 1, 2, 1, 3, 4]

  /** Forward: node 1 is read once per element and nothing accumulates. */
  lemma ExampleGather()
    ensures InRange(ExampleIndices, 5)
    ensures Gather(ExampleIndices, [10.0, 20.0, 30.0, 40.0, 50.0]) == [10.0, 20.0, 30.0, 20.0, 40.0, 50.0]
  {
  }

  /** Naive scatter-add of the example into a zeroed vector, local id by local id. */
  lemma ExampleScatterAdd()
    ensures InRange(ExampleIndices, 5)
    ensures ScatterAdd(ExampleIndices, [1.0, 2.0, 3.0, 4.0, 5.0, 6.0], Zeros(5), 6) == [1.0, 6.0, 3.0, 5.0, 6.0]
  {
    var u := [1.0, 2.0, 3.0, 4.0, 5.0, 6.0];
    assert ScatterAdd(ExampleIndices, u, Zeros(5), 0) == [0.0, 0.0, 0.0, 0.0, 0.0];
    assert ScatterAdd(ExampleIndices, u, Zeros(5), 1) == [1.0, 0.0, 0.0, 0.0, 0.0];
    assert ScatterAdd(ExampleIndices, u, Zeros(5), 2) == [1.0, 2.0, 0.0, 0.0, 0.0];
    assert ScatterAdd(ExampleIndices, u, Zeros(5), 3) == [1.0, 2.0, 3.0, 0.0, 0.0];
    assert ScatterAdd(ExampleIndices, u, Zeros(5), 4) == [1.0, 6.0, 3.0, 0.0, 0.0];
    assert ScatterAdd(ExampleIndices, u, Zeros(5), 5) == [1.0, 6.0, 3.0, 5.0, 0.0];
  }

  /** Transpose into a zeroed vector: node 1 sums the contributions of both elements. */
  lemma ExampleTranspose()
    ensures InRange(ExampleIndices, 5)
    ensures CsrShape(TOffsets(ExampleIndices, 5), TIndices(ExampleIndices, 5), 6, 5)
    ensures CsrAccumulate(TOffsets(ExampleIndices, 5), TIndices(ExampleIndices, 5),
                          [1.0, 2.0, 3.0, 4.0, 5.0, 6.0], Zeros(5))
         == [1.0, 6.0, 3.0, 5.0, 6.0]
  {
    ExampleScatterAdd();
    CsrTransposeIsScatterAdd(ExampleIndices, 5, [1.0, 2.0, 3.0, 4.0, 5.0, 6.0], Zeros(5));
  }
}
