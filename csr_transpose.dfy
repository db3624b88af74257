/** The index transposer of the OCCA element restriction.
 *
 *  `indices` maps every local id `lid = elemsize*e + i` (position `i` of element `e`)
 *  to a global node.  The transposer turns it into a CSR pair: `toffsets` (one entry per
 *  node plus one) and `tindices` (the local ids grouped by node).  The specification
 *  functions below take a prefix length `k`: they describe the first `k` local ids, so that
 *  the loop invariants can speak of "the local ids visited so far" without slicing.
 */
module CsrTranspose {

  /** Every local id of `s` references a node in [0, nnodes). */
  ghost predicate InRange(s: seq<int>, nnodes: int)
  {
    forall lid :: 0 <= lid < |s| ==> 0 <= s[lid] < nnodes
  }

  /** Number of the first `k` local ids that reference node `g`. */
  ghost function Count(s: seq<int>, k: nat, g: int): (n: nat)
    requires k <= |s|
  {
    if k == 0 then 0 else Count(s, k - 1, g) + (if s[k - 1] == g then 1 else 0)
  }

  /** Number of the first `k` local ids whose node is below `g`. */
  ghost function CountBelow(s: seq<int>, k: nat, g: int): (n: nat)
    requires k <= |s|
  {
    if k == 0 then 0 else CountBelow(s, k - 1, g) + (if s[k - 1] < g then 1 else 0)
  }

  /** The local ids among the first `k` that reference node `g`, in increasing order. */
  ghost function Run(s: seq<int>, k: nat, g: int): (r: seq<int>)
    requires k <= |s|
    ensures |r| == Count(s, k, g)
  {
    if k == 0 then [] else Run(s, k - 1, g) + (if s[k - 1] == g then [k - 1] else [])
  }

  /** The runs of nodes 0 .. m-1 over the first `k` local ids, laid end to end. */
  ghost function Packed(s: seq<int>, k: nat, m: nat): (p: seq<int>)
    requires k <= |s|
  {
    if m == 0 then [] else Packed(s, k, m - 1) + Run(s, k, m - 1)
  }

  /** The intended content of `toffsets`: entry `g` is the first slot of node `g`. */
  ghost function TOffsets(s: seq<int>, nnodes: nat): (off: seq<int>)
  {
    seq(nnodes + 1, g => CountBelow(s, |s|, g))
  }

  /** The intended content of `tindices`. */
  ghost function TIndices(s: seq<int>, nnodes: nat): (t: seq<int>)
  {
    Packed(s, |s|, nnodes)
  }

  /** The local ids 0 .. n-1 in order. */
  ghost function LocalIds(n: nat): (ids: seq<int>)
  {
    if n == 0 then [] else LocalIds(n - 1) + [n - 1]
  }

  // ---------------------------------------------------------------------------
  // Counting facts

  lemma {:induction false} CountBelowStep(s: seq<int>, k: nat, g: int)
    requires k <= |s|
    ensures CountBelow(s, k, g + 1) == CountBelow(s, k, g) + Count(s, k, g)
  {
    if k > 0 { CountBelowStep(s, k - 1, g); }
  }

  lemma {:induction false} CountBelowEnds(s: seq<int>, k: nat, nnodes: int)
    requires k <= |s| && InRange(s, nnodes)
    ensures CountBelow(s, k, 0) == 0
    ensures CountBelow(s, k, nnodes) == k
  {
    if k > 0 { CountBelowEnds(s, k - 1, nnodes); }
  }

  lemma {:induction false} CountBelowMonotone(s: seq<int>, k: nat, g1: int, g2: int)
    requires k <= |s| && g1 <= g2
    ensures CountBelow(s, k, g1) <= CountBelow(s, k, g2)
  {
    if k > 0 { CountBelowMonotone(s, k - 1, g1, g2); }
  }

  lemma {:induction false} CountMonotone(s: seq<int>, j: nat, k: nat, g: int)
    requires j <= k <= |s|
    ensures Count(s, j, g) <= Count(s, k, g)
  {
    if j < k { CountMonotone(s, j, k - 1, g); }
  }

  /** Count agrees with the cardinality of the set of local ids referencing `g`. */
  lemma {:induction false} CountIsCardinality(s: seq<int>, k: nat, g: int)
    requires k <= |s|
    ensures Count(s, k, g) == |set lid | 0 <= lid < k && s[lid] == g|
  {
    if k > 0 {
      CountIsCardinality(s, k - 1, g);
      var before := set lid | 0 <= lid < k - 1 && s[lid] == g;
      var now := set lid | 0 <= lid < k && s[lid] == g;
      if s[k - 1] == g {
        assert now == before + {k - 1};
      } else {
        assert now == before;
      }
    }
  }

  /** A run is the increasing enumeration of exactly the local ids referencing `g` (stability). */
  lemma {:induction false} RunIsStableSelection(s: seq<int>, k: nat, g: int)
    requires k <= |s|
    ensures forall lid :: lid in Run(s, k, g) <==> 0 <= lid < k && s[lid] == g
    ensures forall a, b :: 0 <= a < b < |Run(s, k, g)| ==> Run(s, k, g)[a] < Run(s, k, g)[b]
  {
    if k > 0 {
      var r, tail := Run(s, k - 1, g), if s[k - 1] == g then [k - 1] else [];
      RunIsStableSelection(s, k - 1, g);
      assert Run(s, k, g) == r + tail;
      forall j | 0 <= j < |r| ensures r[j] < k - 1 {
        assert r[j] in r;
      }
    }
  }

  // ---------------------------------------------------------------------------
  // The CSR structure

  lemma {:induction false} PackedLength(s: seq<int>, k: nat, m: nat)
    requires k <= |s|
    ensures |Packed(s, k, m)| == CountBelow(s, k, m) - CountBelow(s, k, 0)
  {
    if m > 0 {
      PackedLength(s, k, m - 1);
      CountBelowStep(s, k, m - 1);
    }
  }

  /** Entry `j` of the run of node `g` sits at slot `CountBelow(g) + j`. */
  lemma PackedAt(s: seq<int>, m: nat, g: int, j: int)
    requires InRange(s, m) && 0 <= g < m && 0 <= j < Count(s, |s|, g)
    ensures CountBelow(s, |s|, g) + j < |Packed(s, |s|, m)|
    ensures Packed(s, |s|, m)[CountBelow(s, |s|, g) + j] == Run(s, |s|, g)[j]
  {
    var n := |s|;
    PackedRunsUpTo(s, m, g);
    CountBelowStep(s, n, g);
    var lo, hi := CountBelow(s, n, g), CountBelow(s, n, g + 1);
    var p := Packed(s, n, m);
    assert p[lo .. hi] == Run(s, n, g);
    assert p[lo .. hi][j] == p[lo + j];
  }

  lemma {:induction false} PackedRunsUpTo(s: seq<int>, m: nat, g: int)
    requires 0 <= g < m && forall lid :: 0 <= lid < |s| ==> 0 <= s[lid]
    ensures CountBelow(s, |s|, g) <= CountBelow(s, |s|, g + 1) <= |Packed(s, |s|, m)|
    ensures Packed(s, |s|, m)[CountBelow(s, |s|, g) .. CountBelow(s, |s|, g + 1)] == Run(s, |s|, g)
  {
    var n := |s|;
    var front, last := Packed(s, n, m - 1), Run(s, n, m - 1);
    var lo, hi := CountBelow(s, n, g), CountBelow(s, n, g + 1);
    assert Packed(s, n, m) == front + last;
    assert |front| == CountBelow(s, n, m - 1) by {
      CountBelowZero(s, n);
      PackedLength(s, n, m - 1);
    }
    assert hi == lo + Count(s, n, g) by {
      CountBelowStep(s, n, g);
    }
    assert CountBelow(s, n, m) == |front| + |last| by {
      CountBelowStep(s, n, m - 1);
    }
    if g == m - 1 {
      assert lo == |front| && hi == |front| + |last|;
      assert (front + last)[lo .. hi] == last;
    } else {
      assert hi <= |front| && front[lo .. hi] == Run(s, n, g) by {
        PackedRunsUpTo(s, m - 1, g);
        CountBelowMonotone(s, n, g + 1, m - 1);
      }
      assert (front + last)[lo .. hi] == front[lo .. hi];
    }
  }

  lemma {:induction false} CountBelowZero(s: seq<int>, k: nat)
    requires k <= |s| && forall lid :: 0 <= lid < |s| ==> 0 <= s[lid]
    ensures CountBelow(s, k, 0) == 0
  {
    if k > 0 { CountBelowZero(s, k - 1); }
  }

  /** Boundaries of the CSR offsets: they start at 0, end at the number of local ids and
   *  never decrease; this includes the cases without elements or without nodes. */
  lemma OffsetsBoundaries(s: seq<int>, nnodes: nat)
    requires InRange(s, nnodes)
    ensures |TOffsets(s, nnodes)| == nnodes + 1
    ensures TOffsets(s, nnodes)[0] == 0
    ensures TOffsets(s, nnodes)[nnodes] == |s|
    ensures forall g1, g2 :: 0 <= g1 <= g2 <= nnodes ==> TOffsets(s, nnodes)[g1] <= TOffsets(s, nnodes)[g2]
  {
    CountBelowEnds(s, |s|, nnodes);
    forall g1, g2 | 0 <= g1 <= g2 <= nnodes
      ensures TOffsets(s, nnodes)[g1] <= TOffsets(s, nnodes)[g2]
    {
      CountBelowMonotone(s, |s|, g1, g2);
    }
  }

  /** The width of node `g`'s run is the number of local ids that reference `g`. */
  lemma OffsetsCount(s: seq<int>, nnodes: nat, g: int)
    requires 0 <= g < nnodes
    ensures TOffsets(s, nnodes)[g + 1] - TOffsets(s, nnodes)[g]
         == |set lid | 0 <= lid < |s| && s[lid] == g|
  {
    CountBelowStep(s, |s|, g);
    CountIsCardinality(s, |s|, g);
  }

  /** Node grouping and stability: the slice of `tindices` delimited by node `g`'s offsets
   *  holds exactly the local ids that reference `g`, in increasing order. */
  lemma NodeRun(s: seq<int>, nnodes: nat, g: int)
    requires InRange(s, nnodes) && 0 <= g < nnodes
    ensures |TIndices(s, nnodes)| == |s|
    ensures 0 <= TOffsets(s, nnodes)[g] <= TOffsets(s, nnodes)[g + 1] <= |s|
    ensures var run := TIndices(s, nnodes)[TOffsets(s, nnodes)[g] .. TOffsets(s, nnodes)[g + 1]];
      (forall lid :: lid in run <==> 0 <= lid < |s| && s[lid] == g) &&
      (forall a, b :: 0 <= a < b < |run| ==> run[a] < run[b])
  {
    OffsetsBoundaries(s, nnodes);
    CountBelowZero(s, |s|);
    PackedLength(s, |s|, nnodes);
    PackedRunsUpTo(s, nnodes, g);
    RunIsStableSelection(s, |s|, g);
  }

  // ---------------------------------------------------------------------------
  // Permutation

  /** Number of occurrences of `x` in `t`; a multiset count that unfolds one entry at a time. */
  ghost function Occ(t: seq<int>, x: int): (n: nat)
  {
    if |t| == 0 then 0 else (if t[0] == x then 1 else 0) + Occ(t[1..], x)
  }

  lemma {:induction false} OccAppend(a: seq<int>, b: seq<int>, x: int)
    ensures Occ(a + b, x) == Occ(a, x) + Occ(b, x)
  {
    if |a| > 0 {
      assert (a + b)[1..] == a[1..] + b;
      OccAppend(a[1..], b, x);
    } else {
      assert a + b == b;
    }
  }

  lemma {:induction false} OccIsMultiplicity(t: seq<int>, x: int)
    ensures Occ(t, x) == multiset(t)[x]
  {
    if |t| > 0 {
      OccIsMultiplicity(t[1..], x);
      assert t == [t[0]] + t[1..];
      assert multiset(t) == multiset([t[0]]) + multiset(t[1..]);
    }
  }

  lemma {:induction false} RunOcc(s: seq<int>, k: nat, g: int, lid: int)
    requires k <= |s|
    ensures Occ(Run(s, k, g), lid) == if 0 <= lid < k && s[lid] == g then 1 else 0
  {
    if k > 0 {
      var tail: seq<int> := if s[k - 1] == g then [k - 1] else [];
      RunOcc(s, k - 1, g, lid);
      OccAppend(Run(s, k - 1, g), tail, lid);
      assert Occ(tail, lid) == if s[k - 1] == g && lid == k - 1 then 1 else 0 by {
        if s[k - 1] == g { assert tail[1..] == []; }
      }
    }
  }

  lemma {:induction false} PackedOcc(s: seq<int>, k: nat, m: nat, lid: int)
    requires k <= |s|
    ensures Occ(Packed(s, k, m), lid) == if 0 <= lid < k && 0 <= s[lid] < m then 1 else 0
  {
    if m > 0 {
      PackedOcc(s, k, m - 1, lid);
      RunOcc(s, k, m - 1, lid);
      OccAppend(Packed(s, k, m - 1), Run(s, k, m - 1), lid);
    }
  }

  lemma {:induction false} LocalIdsOcc(n: nat, lid: int)
    ensures Occ(LocalIds(n), lid) == if 0 <= lid < n then 1 else 0
  {
    if n > 0 {
      LocalIdsOcc(n - 1, lid);
      OccAppend(LocalIds(n - 1), [n - 1], lid);
      assert Occ([n - 1], lid) == if lid == n - 1 then 1 else 0 by {
        assert [n - 1][1..] == [];
      }
    }
  }

  /** `tindices` is a permutation of the local ids: each one is placed exactly once and
   *  nothing else is placed. */
  lemma TIndicesIsPermutation(s: seq<int>, nnodes: nat)
    requires InRange(s, nnodes)
    ensures forall lid :: multiset(TIndices(s, nnodes))[lid] == if 0 <= lid < |s| then 1 else 0
    ensures multiset(TIndices(s, nnodes)) == multiset(LocalIds(|s|))
  {
    var ti, ids := TIndices(s, nnodes), LocalIds(|s|);
    forall lid ensures multiset(ti)[lid] == if 0 <= lid < |s| then 1 else 0 {
      assert Occ(ti, lid) == if 0 <= lid < |s| then 1 else 0 by {
        PackedOcc(s, |s|, nnodes, lid);
      }
      OccIsMultiplicity(ti, lid);
    }
    forall lid ensures multiset(ti)[lid] == multiset(ids)[lid] {
      assert Occ(ids, lid) == if 0 <= lid < |s| then 1 else 0 by {
        LocalIdsOcc(|s|, lid);
      }
      OccIsMultiplicity(ids, lid);
    }
  }

  // ---------------------------------------------------------------------------
  // Loop states of the transposer

  lemma LocalIdBound(nelem: nat, elemsize: nat, e: nat, i: nat)
    requires e < nelem && i < elemsize
    ensures elemsize * e + i < nelem * elemsize
  {
    ElementBound(nelem, elemsize, e);
  }

  lemma ElementBound(nelem: nat, elemsize: nat, e: nat)
    requires e < nelem
    ensures elemsize * (e + 1) == elemsize * e + elemsize <= nelem * elemsize
  {
    MulMonotone(elemsize, e + 1, nelem);
  }

  lemma {:induction false} MulMonotone(a: nat, b: nat, c: nat)
    requires b <= c
    ensures a * b <= a * c
  {
    if b < c {
      MulMonotone(a, b, c - 1);
      assert a * c == a * (c - 1) + a;
    }
  }

  /** After the counting pass has seen `k` local ids: `counts[g + 1]` counts node `g`. */
  ghost predicate Counted(s: seq<int>, nnodes: nat, k: nat, counts: seq<int>)
    requires k <= |s|
  {
    |counts| == nnodes + 1 && counts[0] == 0 &&
    forall g :: 0 <= g < nnodes ==> counts[g + 1] == Count(s, k, g)
  }

  lemma CountStep(s: seq<int>, nnodes: nat, k: nat, counts: seq<int>)
    requires k < |s| && InRange(s, nnodes) && Counted(s, nnodes, k, counts)
    ensures Counted(s, nnodes, k + 1, counts[s[k] + 1 := counts[s[k] + 1] + 1])
  {
    var counts', k' := counts[s[k] + 1 := counts[s[k] + 1] + 1], k + 1;
    forall g | 0 <= g < nnodes ensures counts'[g + 1] == Count(s, k', g) {
      assert Count(s, k', g) == Count(s, k, g) + (if s[k] == g then 1 else 0);
    }
  }

  /** Entry `j` of the run of node `g` over the first `k` local ids. */
  ghost function RunAt(s: seq<int>, k: nat, g: int, j: int): (lid: int)
    requires k <= |s| && 0 <= j < Count(s, k, g)
  {
    Run(s, k, g)[j]
  }

  /** After the placing pass has seen `k` local ids: the cursor of node `g` has advanced by
   *  the number of its local ids seen, and these sit in order at the start of its run. */
  ghost predicate Placed(s: seq<int>, nnodes: nat, k: nat, cursor: seq<int>, t: seq<int>)
    requires k <= |s|
  {
    |cursor| == nnodes + 1 && |t| == |s| && cursor[nnodes] == |s| &&
    (forall g {:trigger cursor[g]} :: 0 <= g < nnodes ==> cursor[g] == CountBelow(s, |s|, g) + Count(s, k, g)) &&
    forall g, j :: 0 <= g < nnodes && 0 <= j < Count(s, k, g) && CountBelow(s, |s|, g) + j < |s| ==>
      t[CountBelow(s, |s|, g) + j] == RunAt(s, k, g, j)
  }

  /** Before the placing pass every cursor stands at the first slot of its node. */
  lemma PlacedInit(s: seq<int>, nnodes: nat, cursor: seq<int>, t: seq<int>)
    requires InRange(s, nnodes) && |cursor| == nnodes + 1 && |t| == |s|
    requires forall g :: 0 <= g <= nnodes ==> cursor[g] == CountBelow(s, |s|, g)
    ensures Placed(s, nnodes, 0, cursor, t)
  {
    CountBelowEnds(s, |s|, nnodes);
  }

  /** The cursor of node `s[k]` has not reached the end of that node's run. */
  lemma CursorInRun(s: seq<int>, nnodes: nat, k: nat)
    requires k < |s| && InRange(s, nnodes)
    ensures Count(s, k, s[k]) < Count(s, |s|, s[k])
  {
    CountMonotone(s, k + 1, |s|, s[k]);
  }

  /** The window [CountBelow(g), CountBelow(g) + Count(g)) of node `g` lies inside [0, |s|). */
  lemma WindowInside(s: seq<int>, nnodes: nat, k: nat, g: int)
    requires k <= |s| && InRange(s, nnodes) && 0 <= g < nnodes
    ensures Count(s, k, g) <= Count(s, |s|, g)
    ensures CountBelow(s, |s|, g) + Count(s, |s|, g) <= |s|
  {
    var n := |s|;
    CountBelowEnds(s, n, nnodes);
    CountMonotone(s, k, n, g);
    CountBelowStep(s, n, g);
    CountBelowMonotone(s, n, g + 1, nnodes);
  }

  /** The windows of two different nodes do not overlap. */
  lemma WindowsApart(s: seq<int>, g: int, h: int)
    requires g != h
    ensures CountBelow(s, |s|, g) + Count(s, |s|, g) <= CountBelow(s, |s|, h) ||
            CountBelow(s, |s|, h) + Count(s, |s|, h) <= CountBelow(s, |s|, g)
  {
    var n := |s|;
    CountBelowStep(s, n, g);
    CountBelowStep(s, n, h);
    if g < h {
      CountBelowMonotone(s, n, g + 1, h);
    } else {
      CountBelowMonotone(s, n, h + 1, g);
    }
  }

  lemma PlaceStep(s: seq<int>, nnodes: nat, k: nat, cursor: seq<int>, t: seq<int>)
    requires k < |s| && InRange(s, nnodes) && Placed(s, nnodes, k, cursor, t)
    ensures 0 <= cursor[s[k]] < |t|
    ensures Placed(s, nnodes, k + 1, cursor[s[k] := cursor[s[k]] + 1], t[cursor[s[k]] := k])
  {
    var gid, k' := s[k], k + 1;
    CursorInRun(s, nnodes, k);
    WindowInside(s, nnodes, k, gid);
    var cursor', t' := cursor[gid := cursor[gid] + 1], t[cursor[gid] := k];
    forall g | 0 <= g < nnodes ensures cursor'[g] == CountBelow(s, |s|, g) + Count(s, k', g) {
      assert Count(s, k', g) == Count(s, k, g) + (if gid == g then 1 else 0);
    }
    forall g, j | 0 <= g < nnodes && 0 <= j < Count(s, k', g) && CountBelow(s, |s|, g) + j < |s|
      ensures t'[CountBelow(s, |s|, g) + j] == RunAt(s, k', g, j)
    {
      PlaceSlot(s, nnodes, k, cursor, t, g, j);
    }
  }

  /** One slot of node `g`'s window after local id `k` has been placed. */
  lemma PlaceSlot(s: seq<int>, nnodes: nat, k: nat, cursor: seq<int>, t: seq<int>, g: int, j: int)
    requires k < |s| && InRange(s, nnodes) && Placed(s, nnodes, k, cursor, t)
    requires 0 <= g < nnodes && 0 <= j < Count(s, k + 1, g)
    ensures 0 <= cursor[s[k]] < |t|
    ensures CountBelow(s, |s|, g) + j < |s|
    ensures t[cursor[s[k]] := k][CountBelow(s, |s|, g) + j] == Run(s, k + 1, g)[j]
  {
    var n, gid := |s|, s[k];
    CursorInRun(s, nnodes, k);
    WindowInside(s, nnodes, k, gid);
    WindowInside(s, nnodes, k + 1, g);
    assert Run(s, k + 1, g) == Run(s, k, g) + (if gid == g then [k] else []);
    if g != gid || j < Count(s, k, g) {
      var r := Run(s, k, g)[j];
      assert t[CountBelow(s, n, g) + j] == RunAt(s, k, g, j) == r;
      if g != gid {
        WindowsApart(s, g, gid);
      }
    }
  }

  /** Every slot in [0, |s|) belongs to the run of some node. */
  lemma {:induction false} NodeOfSlot(s: seq<int>, m: nat, p: int) returns (g: int)
    requires CountBelow(s, |s|, 0) <= p < CountBelow(s, |s|, m)
    ensures 0 <= g < m
    ensures CountBelow(s, |s|, g) <= p < CountBelow(s, |s|, g + 1)
  {
    if CountBelow(s, |s|, m - 1) <= p {
      g := m - 1;
    } else {
      g := NodeOfSlot(s, m - 1, p);
    }
  }

  /** Once every local id is placed, each cursor has reached the end of its run. */
  lemma PlacedCursors(s: seq<int>, nnodes: nat, cursor: seq<int>, t: seq<int>)
    requires InRange(s, nnodes) && Placed(s, nnodes, |s|, cursor, t)
    ensures forall g :: 0 <= g < nnodes ==> cursor[g] == CountBelow(s, |s|, g + 1)
  {
    forall g | 0 <= g < nnodes ensures cursor[g] == CountBelow(s, |s|, g + 1) {
      CountBelowStep(s, |s|, g);
    }
  }

  /** Once every local id is placed, the array holds exactly the packed runs. */
  lemma PlacedIsTIndices(s: seq<int>, nnodes: nat, cursor: seq<int>, t: seq<int>)
    requires InRange(s, nnodes) && Placed(s, nnodes, |s|, cursor, t)
    ensures t == TIndices(s, nnodes)
  {
    var n := |s|;
    forall p | 0 <= p < n ensures p < |TIndices(s, nnodes)| && t[p] == TIndices(s, nnodes)[p] {
      var g, j := TIndicesSlot(s, nnodes, p);
      PlacedAt(s, nnodes, cursor, t, g, j);
    }
    assert |TIndices(s, nnodes)| == n by {
      CountBelowEnds(s, n, nnodes);
      PackedLength(s, n, nnodes);
    }
  }

  /** Slot `p` of `tindices` is entry `j` of the run of some node `g`. */
  lemma TIndicesSlot(s: seq<int>, nnodes: nat, p: int) returns (g: int, j: int)
    requires InRange(s, nnodes) && 0 <= p < |s|
    ensures 0 <= g < nnodes && 0 <= j < Count(s, |s|, g) && CountBelow(s, |s|, g) + j == p
    ensures p < |TIndices(s, nnodes)| && TIndices(s, nnodes)[p] == Run(s, |s|, g)[j]
  {
    var n := |s|;
    g := NodeOfSlot(s, nnodes, p) by {
      CountBelowEnds(s, n, nnodes);
    }
    j := p - CountBelow(s, n, g);
    assert j < Count(s, n, g) by {
      CountBelowStep(s, n, g);
    }
    PackedAt(s, nnodes, g, j);
  }

  lemma PlacedAt(s: seq<int>, nnodes: nat, cursor: seq<int>, t: seq<int>, g: int, j: int)
    requires Placed(s, nnodes, |s|, cursor, t)
    requires 0 <= g < nnodes && 0 <= j < Count(s, |s|, g) && CountBelow(s, |s|, g) + j < |s|
    ensures t[CountBelow(s, |s|, g) + j] == Run(s, |s|, g)[j]
  {
    assert t[CountBelow(s, |s|, g) + j] == RunAt(s, |s|, g, j);
  }

  // ---------------------------------------------------------------------------
  // The transposer (CeedElemRestrictionOffset_Occa), pass by pass

  /** Zero `toffsets`, then count in `toffsets[g + 1]` the local ids referencing `g`. */
  method CountNodes(indices: array<int>, nelem: nat, elemsize: nat, nnodes: nat, toffsets: array<int>)
    requires indices.Length == nelem * elemsize && toffsets.Length == nnodes + 1
    requires indices != toffsets && InRange(indices[..], nnodes)
    modifies toffsets
    ensures Counted(indices[..], nnodes, indices.Length, toffsets[..])
  {
    var i := 0;
    while i <= nnodes
      invariant 0 <= i <= nnodes + 1
      invariant forall j :: 0 <= j < i ==> toffsets[j] == 0
    {
      toffsets[i] := 0;
      i := i + 1;
    }
    ghost var s := indices[..];
    assert Counted(s, nnodes, 0, toffsets[..]);
    ghost var k := 0;
    var e := 0;
    while e < nelem
      invariant 0 <= e <= nelem && k == elemsize * e && k <= |s|
      invariant Counted(s, nnodes, k, toffsets[..])
    {
      i := 0;
      while i < elemsize
        invariant 0 <= i <= elemsize && k == elemsize * e + i && k <= |s|
        invariant Counted(s, nnodes, k, toffsets[..])
      {
        LocalIdBound(nelem, elemsize, e, i);
        var gid := indices[elemsize * e + i];
        ghost var counts := toffsets[..];
        CountStep(s, nnodes, k, counts);
        toffsets[gid + 1] := toffsets[gid + 1] + 1;
        assert toffsets[..] == counts[gid + 1 := counts[gid + 1] + 1];
        k := k + 1;
        i := i + 1;
      }
      ElementBound(nelem, elemsize, e);
      e := e + 1;
    }
  }

  /** Prefix-sum the counts: `toffsets[g]` becomes the first slot of node `g`. */
  method PrefixSum(ghost s: seq<int>, nnodes: nat, toffsets: array<int>)
    requires InRange(s, nnodes) && Counted(s, nnodes, |s|, toffsets[..])
    modifies toffsets
    ensures forall g :: 0 <= g <= nnodes ==> toffsets[g] == CountBelow(s, |s|, g)
  {
    CountBelowEnds(s, |s|, nnodes);
    var i := 1;
    while i <= nnodes
      invariant 1 <= i <= nnodes + 1
      invariant forall g :: 0 <= g < i ==> toffsets[g] == CountBelow(s, |s|, g)
      invariant forall g :: i <= g <= nnodes ==> toffsets[g] == Count(s, |s|, g - 1)
    {
      CountBelowStep(s, |s|, i - 1);
      toffsets[i] := toffsets[i] + toffsets[i - 1];
      i := i + 1;
    }
  }

  /** Second pass: place every local id at its node's running cursor `toffsets[gid]++`. */
  method FillRuns(indices: array<int>, nelem: nat, elemsize: nat, nnodes: nat,
                  toffsets: array<int>, tindices: array<int>)
    requires indices.Length == nelem * elemsize && tindices.Length == nelem * elemsize
    requires toffsets.Length == nnodes + 1
    requires indices != toffsets && indices != tindices && toffsets != tindices
    requires InRange(indices[..], nnodes)
    requires forall g :: 0 <= g <= nnodes ==> toffsets[g] == CountBelow(indices[..], indices.Length, g)
    modifies toffsets, tindices
    ensures forall g :: 0 <= g < nnodes ==> toffsets[g] == CountBelow(indices[..], indices.Length, g + 1)
    ensures toffsets[nnodes] == old(toffsets[nnodes]) == indices.Length
    ensures tindices[..] == TIndices(indices[..], nnodes)
  {
    ghost var s := indices[..];
    ghost var n := |s|;
    PlacedInit(s, nnodes, toffsets[..], tindices[..]);
    ghost var k := 0;
    var e := 0;
    while e < nelem
      invariant 0 <= e <= nelem && k == elemsize * e && k <= n
      invariant Placed(s, nnodes, k, toffsets[..], tindices[..])
    {
      var i := 0;
      while i < elemsize
        invariant 0 <= i <= elemsize && k == elemsize * e + i && k <= n
        invariant Placed(s, nnodes, k, toffsets[..], tindices[..])
      {
        LocalIdBound(nelem, elemsize, e, i);
        var lid := elemsize * e + i;
        var gid := indices[lid];
        ghost var cursor, placed := toffsets[..], tindices[..];
        PlaceStep(s, nnodes, k, cursor, placed);
        tindices[toffsets[gid]] := lid;
        toffsets[gid] := toffsets[gid] + 1;
        assert toffsets[..] == cursor[gid := cursor[gid] + 1];
        assert tindices[..] == placed[cursor[gid] := k];
        k := k + 1;
        i := i + 1;
      }
      ElementBound(nelem, elemsize, e);
      e := e + 1;
    }
    assert k == n by {
      assert elemsize * nelem == nelem * elemsize;
    }
    assert forall g :: 0 <= g < nnodes ==> toffsets[g] == CountBelow(s, n, g + 1) by {
      PlacedCursors(s, nnodes, toffsets[..], tindices[..]);
    }
    assert tindices[..] == TIndices(s, nnodes) by {
      PlacedIsTIndices(s, nnodes, toffsets[..], tindices[..]);
    }
  }

  /** Shift the cursors down one slot to recover the run boundaries. */
  method ShiftDown(ghost s: seq<int>, nnodes: nat, toffsets: array<int>)
    requires toffsets.Length == nnodes + 1 && InRange(s, nnodes)
    requires forall g :: 0 <= g < nnodes ==> toffsets[g] == CountBelow(s, |s|, g + 1)
    modifies toffsets
    ensures toffsets[..] == TOffsets(s, nnodes)
  {
    CountBelowEnds(s, |s|, nnodes);
    var i := nnodes;
    while i > 0
      invariant 0 <= i <= nnodes
      invariant forall g :: 0 <= g < i ==> toffsets[g] == CountBelow(s, |s|, g + 1)
      invariant forall g :: i < g <= nnodes ==> toffsets[g] == CountBelow(s, |s|, g)
    {
      toffsets[i] := toffsets[i - 1];
      i := i - 1;
    }
    toffsets[0] := 0;
    assert forall g :: 0 <= g <= nnodes ==> toffsets[..][g] == TOffsets(s, nnodes)[g];
  }

  /** CeedElemRestrictionOffset_Occa: builds the CSR transpose of `indices` in place in
   *  `toffsets` and `tindices`.  The range of `indices` is the caller's obligation: the
   *  source does not check it. */
  method ComputeTranspose(indices: array<int>, nelem: nat, elemsize: nat, nnodes: nat,
                          toffsets: array<int>, tindices: array<int>)
    requires indices.Length == nelem * elemsize && tindices.Length == nelem * elemsize
    requires toffsets.Length == nnodes + 1
    requires indices != toffsets && indices != tindices && toffsets != tindices
    requires InRange(indices[..], nnodes)
    modifies toffsets, tindices
    ensures toffsets[..] == TOffsets(indices[..], nnodes)
    ensures tindices[..] == TIndices(indices[..], nnodes)
  {
    CountNodes(indices, nelem, elemsize, nnodes, toffsets);
    PrefixSum(indices[..], nnodes, toffsets);
    FillRuns(indices, nelem, elemsize, nnodes, toffsets, tindices);
    ShiftDown(indices[..], nnodes, toffsets);
  }
}
