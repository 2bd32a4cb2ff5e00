/** `klusolve_metis`: builds the compressed adjacency graph (`xadj`,
    `adjacency`, `adj_weights`) of a list of directed edge pairs sorted by
    source vertex, then hands it to the graph partitioner, which is an
    oracle here. */
module Metis {
  import opened Word

  /** Source and target of pair i in the flat `sorted_edge_pairs` array. */
  function Src(ep: seq<int>, i: int): int
    requires 0 <= i && 2 * i + 1 < |ep|
  {
    ep[2 * i]
  }

  function Dst(ep: seq<int>, i: int): int
    requires 0 <= i && 2 * i + 1 < |ep|
  {
    ep[2 * i + 1]
  }

  /** What the caller promises: the first e pairs are sorted by source, and
      every source is a vertex. */
  predicate SortedPairs(ep: seq<int>, e: nat, nv: nat)
    requires 2 * e <= |ep|
  {
    && (forall i, j :: 0 <= i <= j < e ==> Src(ep, i) <= Src(ep, j))
    && (forall i :: 0 <= i < e ==> 0 <= Src(ep, i) < nv)
  }

  /** Pair i is copied into the graph: it is not a self edge. */
  predicate Copied(ep: seq<int>, i: int)
    requires 0 <= i && 2 * i + 1 < |ep|
  {
    Dst(ep, i) != Src(ep, i)
  }

  /** Pair i aborts the build: a copied pair whose target is not a vertex. */
  predicate Bad(ep: seq<int>, nv: int, i: int)
    requires 0 <= i && 2 * i + 1 < |ep|
  {
    Copied(ep, i) && !(0 <= Dst(ep, i) < nv)
  }

  /** The targets of the copied pairs among the first e, in order. */
  function Targets(ep: seq<int>, e: nat): seq<int>
    requires 2 * e <= |ep|
  {
    if e == 0 then []
    else Targets(ep, e - 1) + (if Copied(ep, e - 1) then [Dst(ep, e - 1)] else [])
  }

  /** The weights of the copied pairs among the first e, in order. */
  function WeightsOf(ep: seq<int>, w: seq<int>, e: nat): seq<int>
    requires 2 * e <= |ep| && e <= |w|
  {
    if e == 0 then []
    else WeightsOf(ep, w, e - 1) + (if Copied(ep, e - 1) then [w[e - 1]] else [])
  }

  /** The number of copied pairs among the first e whose source is below v:
      where the adjacency list of vertex v starts. */
  function Below(ep: seq<int>, e: nat, v: int): nat
    requires 2 * e <= |ep|
  {
    if e == 0 then 0
    else Below(ep, e - 1, v) + (if Copied(ep, e - 1) && Src(ep, e - 1) < v then 1 else 0)
  }

  lemma {:induction false} TargetsLength(ep: seq<int>, w: seq<int>, e: nat)
    requires 2 * e <= |ep| && e <= |w|
    ensures |WeightsOf(ep, w, e)| == |Targets(ep, e)|
  {
    if e > 0 {
      TargetsLength(ep, w, e - 1);
    }
  }

  /** When every source among the first e pairs lies below v, every copied
      pair counts. */
  lemma {:induction false} BelowAll(ep: seq<int>, e: nat, v: int)
    requires 2 * e <= |ep|
    requires forall j :: 0 <= j < e ==> Src(ep, j) < v
    ensures Below(ep, e, v) == |Targets(ep, e)|
  {
    if e > 0 {
      BelowAll(ep, e - 1, v);
    }
  }

  /** The graph's row offsets never decrease. */
  lemma {:induction false} BelowMonotone(ep: seq<int>, e: nat, v: int, v': int)
    requires 2 * e <= |ep| && v <= v'
    ensures Below(ep, e, v) <= Below(ep, e, v')
  {
    if e > 0 {
      BelowMonotone(ep, e - 1, v, v');
    }
  }

  /** Every copied target of a build that did not abort is a vertex. */
  lemma {:induction false} TargetsAreVertices(ep: seq<int>, e: nat, nv: int)
    requires 2 * e <= |ep|
    requires forall i :: 0 <= i < e ==> !Bad(ep, nv, i)
    ensures forall k :: 0 <= k < |Targets(ep, e)| ==> 0 <= Targets(ep, e)[k] < nv
  {
    if e > 0 {
      TargetsAreVertices(ep, e - 1, nv);
      var t := Targets(ep, e - 1);
      assert !Bad(ep, nv, e - 1);
      forall k | 0 <= k < |Targets(ep, e)| ensures 0 <= Targets(ep, e)[k] < nv {
        if k < |t| {
          assert Targets(ep, e)[k] == t[k];
        }
      }
    }
  }

  /** Pair i does not move the start of any vertex up to its source. */
  lemma BelowStep(ep: seq<int>, i: nat, v: int)
    requires 2 * (i + 1) <= |ep| && v <= Src(ep, i)
    ensures Below(ep, i + 1, v) == Below(ep, i, v)
  {
  }

  /** Moves the current vertex up to `to`, recording at each vertex passed
      that its adjacency list starts at `idx`. */
  method Advance(xa: array<int>, cur: int, to: int, idx: int, ghost ep: seq<int>, ghost i: nat) returns (c: int)
    requires 0 <= cur <= to < xa.Length && 2 * i <= |ep|
    requires forall j :: 0 <= j < i ==> Src(ep, j) <= cur
    requires idx == |Targets(ep, i)|
    requires forall v :: 0 <= v <= cur ==> xa[v] == Below(ep, i, v)
    modifies xa
    ensures c == to
    ensures forall v :: 0 <= v <= to ==> xa[v] == Below(ep, i, v)
  {
    c := cur;
    while c < to
      invariant cur <= c <= to
      invariant forall v :: 0 <= v <= c ==> xa[v] == Below(ep, i, v)
    {
      c := c + 1;
      BelowAll(ep, i, c);
      xa[c] := idx;
    }
  }

  /** Copies pair i, whose source is the current vertex: a self edge is
      dropped, a target outside the graph aborts, and any other target and
      its weight are appended. */
  method CopyPair(adj: array<int>, wts: array<int>, idx: int, cur: int, nv: nat, ep: seq<int>, w: seq<int>, i: nat)
    returns (bad: bool, idx': int)
    requires 2 * (i + 1) <= |ep| && i < |w| && cur == Src(ep, i)
    requires adj != wts && i < adj.Length && i < wts.Length
    requires idx == |Targets(ep, i)| && idx <= i
    requires adj[..idx] == Targets(ep, i) && wts[..idx] == WeightsOf(ep, w, i)
    modifies adj, wts
    ensures bad <==> Bad(ep, nv, i)
    ensures !bad ==> idx' == |Targets(ep, i + 1)| && idx' <= i + 1
    ensures !bad ==> adj[..idx'] == Targets(ep, i + 1) && wts[..idx'] == WeightsOf(ep, w, i + 1)
  {
    var vto := ep[2 * i + 1];
    idx' := idx;
    bad := false;
    if vto != cur {
      if vto < 0 || vto >= nv {
        bad := true;
        return;
      }
      ghost var before, beforeW := adj[..idx], wts[..idx];
      adj[idx] := vto;
      wts[idx] := w[i];
      idx' := idx + 1;
      assert adj[..idx'] == before + [vto];
      assert wts[..idx'] == beforeW + [w[i]];
    } else {
      assert Targets(ep, i + 1) == Targets(ep, i) + [];
      assert WeightsOf(ep, w, i + 1) == WeightsOf(ep, w, i) + [];
    }
  }

  /** The adjacency-building loop, with the current vertex advanced to the
      pair's source (recording the row start of every vertex passed), and
      the vertices after the last source closed at the end. Returns false
      at the first copied pair whose target is not a vertex. */
  method BuildAdjacency(ep: seq<int>, w: seq<int>, e: nat, nv: nat)
    returns (ok: bool, xadj: seq<int>, adjacency: seq<int>, weights: seq<int>)
    requires 2 * e <= |ep| && e <= |w| && SortedPairs(ep, e, nv)
    ensures ok <==> forall i :: 0 <= i < e ==> !Bad(ep, nv, i)
    ensures ok ==> |xadj| == nv + 1 && forall v :: 0 <= v <= nv ==> xadj[v] == Below(ep, e, v)
    ensures ok ==> adjacency == Targets(ep, e) && weights == WeightsOf(ep, w, e)
  {
    var xa := new int[nv + 1](_ => 0);
    var adj := new int[e](_ => 0);
    var wts := new int[e](_ => 0);
    var cur := 0;
    var idx := 0;
    var i := 0;
    while i < e
      invariant 0 <= i <= e && 0 <= cur <= nv
      invariant i > 0 ==> cur == Src(ep, i - 1)
      invariant i == 0 ==> cur == 0
      invariant forall j :: 0 <= j < i ==> !Bad(ep, nv, j)
      invariant idx == |Targets(ep, i)| && idx <= i
      invariant |WeightsOf(ep, w, i)| == idx
      invariant adj[..idx] == Targets(ep, i) && wts[..idx] == WeightsOf(ep, w, i)
      invariant forall v :: 0 <= v <= cur ==> xa[v] == Below(ep, i, v)
    {
      TargetsLength(ep, w, i + 1);
      var vfrom := ep[2 * i];
      cur := Advance(xa, cur, vfrom, idx, ep, i);
      forall v | 0 <= v <= cur ensures xa[v] == Below(ep, i + 1, v) {
        BelowStep(ep, i, v);
      }
      var bad;
      bad, idx := CopyPair(adj, wts, idx, cur, nv, ep, w, i);
      if bad {
        return false, [], [], [];
      }
      i := i + 1;
    }
    cur := Advance(xa, cur, nv, idx, ep, e);
    return true, xa[..], adj[..idx], wts[..idx];
  }

  /** The targets of vertex v's copied pairs among the first e, in order:
      an independent description of row v of the graph. */
  function NeighboursOf(ep: seq<int>, e: nat, v: int): seq<int>
    requires 2 * e <= |ep|
  {
    if e == 0 then []
    else NeighboursOf(ep, e - 1, v) + (if Copied(ep, e - 1) && Src(ep, e - 1) == v then [Dst(ep, e - 1)] else [])
  }

  lemma {:induction false} BelowBounded(ep: seq<int>, e: nat, v: int)
    requires 2 * e <= |ep|
    ensures Below(ep, e, v) <= |Targets(ep, e)|
  {
    if e > 0 {
      BelowBounded(ep, e - 1, v);
    }
  }

  lemma {:induction false} NoNeighbours(ep: seq<int>, e: nat, v: int)
    requires 2 * e <= |ep|
    requires forall j :: 0 <= j < e ==> Src(ep, j) < v
    ensures NeighboursOf(ep, e, v) == []
  {
    if e > 0 {
      NoNeighbours(ep, e - 1, v);
    }
  }

  /** Row v of the graph, `adjacency[xadj[v]..xadj[v+1]]`, holds exactly the
      targets of v's non-self pairs, in input order. */
  lemma {:induction false} RowOfVertex(ep: seq<int>, e: nat, nv: nat, v: int)
    requires 2 * e <= |ep| && SortedPairs(ep, e, nv)
    ensures Below(ep, e, v) <= Below(ep, e, v + 1) <= |Targets(ep, e)|
    ensures Targets(ep, e)[Below(ep, e, v)..Below(ep, e, v + 1)] == NeighboursOf(ep, e, v)
  {
    if e == 0 {
      BelowBounded(ep, e, v + 1);
    } else {
      RowOfVertex(ep, e - 1, nv, v);
      var s := Src(ep, e - 1);
      if v < s {
        RowBeforeSource(ep, e, v);
      } else if v == s {
        RowAtSource(ep, e, nv, v);
      } else {
        RowAfterSources(ep, e, nv, v);
      }
    }
  }

  /** Row v as the first e - 1 pairs leave it. */
  predicate RowHolds(ep: seq<int>, e: nat, v: int)
    requires 2 * e <= |ep|
  {
    Below(ep, e, v) <= Below(ep, e, v + 1) <= |Targets(ep, e)| &&
    Targets(ep, e)[Below(ep, e, v)..Below(ep, e, v + 1)] == NeighboursOf(ep, e, v)
  }

  /** A pair whose source lies beyond v leaves row v as it was. */
  lemma RowBeforeSource(ep: seq<int>, e: nat, v: int)
    requires 0 < e && 2 * e <= |ep| && v < Src(ep, e - 1) && RowHolds(ep, e - 1, v)
    ensures RowHolds(ep, e, v)
  {
    var t := Targets(ep, e - 1);
    var last := if Copied(ep, e - 1) then [Dst(ep, e - 1)] else [];
    assert Targets(ep, e) == t + last;
    assert Below(ep, e, v) == Below(ep, e - 1, v) && Below(ep, e, v + 1) == Below(ep, e - 1, v + 1);
    assert (t + last)[Below(ep, e - 1, v)..Below(ep, e - 1, v + 1)] == t[Below(ep, e - 1, v)..Below(ep, e - 1, v + 1)];
  }

  /** A pair out of v extends row v by its target when it is copied. */
  lemma RowAtSource(ep: seq<int>, e: nat, nv: nat, v: int)
    requires 0 < e && 2 * e <= |ep| && SortedPairs(ep, e, nv) && v == Src(ep, e - 1)
    requires RowHolds(ep, e - 1, v)
    ensures RowHolds(ep, e, v)
  {
    var t := Targets(ep, e - 1);
    var last := if Copied(ep, e - 1) then [Dst(ep, e - 1)] else [];
    assert Targets(ep, e) == t + last;
    assert forall j :: 0 <= j < e - 1 ==> Src(ep, j) < v + 1 by {
      forall j | 0 <= j < e - 1 ensures Src(ep, j) < v + 1 { assert Src(ep, j) <= Src(ep, e - 1); }
    }
    BelowAll(ep, e - 1, v + 1);
    BelowAll(ep, e, v + 1);
    var b := Below(ep, e - 1, v);
    assert Below(ep, e, v) == b;
    assert b <= |t| && t[b..|t|] == NeighboursOf(ep, e - 1, v);
    assert NeighboursOf(ep, e, v) == NeighboursOf(ep, e - 1, v) + last;
    assert (t + last)[b..|t| + |last|] == t[b..|t|] + last;
  }

  /** Beyond the last source every row is empty. */
  lemma RowAfterSources(ep: seq<int>, e: nat, nv: nat, v: int)
    requires 0 < e && 2 * e <= |ep| && SortedPairs(ep, e, nv) && Src(ep, e - 1) < v
    ensures RowHolds(ep, e, v)
  {
    assert forall j :: 0 <= j < e ==> Src(ep, j) < v by {
      forall j | 0 <= j < e ensures Src(ep, j) < v { assert Src(ep, j) <= Src(ep, e - 1); }
    }
    BelowAll(ep, e, v);
    BelowAll(ep, e, v + 1);
    NoNeighbours(ep, e, v);
  }

  /** The row offsets the loop records as written, from pair i on: a change
      of source moves the current vertex up by exactly one, whatever the
      new source is, and records the row start there; a copied target
      outside the graph stops the scan. Offsets of vertices the scan never
      reaches keep their initial zero. */
  function XadjScan(ep: seq<int>, e: nat, nv: nat, i: nat, cur: int, idx: int, xadj: seq<int>): (r: seq<int>)
    requires 2 * e <= |ep| && i <= e && |xadj| == nv + 1
    decreases e - i
    ensures |r| == nv + 1
    // the current vertex only moves up, so from a non-negative one slot 0 is never rewritten
    ensures 0 <= cur && nv > 0 ==> r[0] == xadj[0]
  {
    if i == e then xadj[nv := idx]
    else
      var moved := Src(ep, i) != cur;
      var c := if moved then cur + 1 else cur;
      var x := if moved && 0 <= c <= nv then xadj[c := idx] else xadj;
      if Dst(ep, i) == c then XadjScan(ep, e, nv, i + 1, c, idx, x)
      else if Dst(ep, i) < 0 || Dst(ep, i) >= nv then x
      else XadjScan(ep, e, nv, i + 1, c, idx + 1, x)
  }

  /** Every offset the loop as written records lies between the number of
      targets copied so far and that number plus the pairs still to scan. */
  lemma {:induction false} ScanBounds(ep: seq<int>, e: nat, nv: nat, i: nat, cur: int, idx: int, xadj: seq<int>)
    requires 2 * e <= |ep| && i <= e && |xadj| == nv + 1
    ensures var r := XadjScan(ep, e, nv, i, cur, idx, xadj);
      forall v :: 0 <= v <= nv ==> r[v] == xadj[v] || idx <= r[v] <= idx + (e - i)
    decreases e - i
  {
    if i < e {
      var moved := Src(ep, i) != cur;
      var c := if moved then cur + 1 else cur;
      var x := if moved && 0 <= c <= nv then xadj[c := idx] else xadj;
      if Dst(ep, i) == c {
        ScanBounds(ep, e, nv, i + 1, c, idx, x);
      } else if 0 <= Dst(ep, i) < nv {
        ScanBounds(ep, e, nv, i + 1, c, idx + 1, x);
      }
    }
  }

  /** `xadj` as `klusolve_metis` fills it from zeroed memory. */
  function XadjAsWritten(ep: seq<int>, e: nat, nv: nat): (r: seq<int>)
    requires 2 * e <= |ep|
    ensures |r| == nv + 1
    ensures nv > 0 ==> r[0] == 0
    // offsets stay inside the adjacency buffer, even where they are wrong
    ensures forall v :: 0 <= v <= nv ==> 0 <= r[v] <= e
  {
    ScanBounds(ep, e, nv, 0, 0, 0, seq(nv + 1, _ => 0));
    XadjScan(ep, e, nv, 0, 0, 0, seq(nv + 1, _ => 0))
  }

  /** Three vertices and the pairs (0, 2), (2, 0): vertex 1 has no pair, so
      the loop as written records vertex 2's row start at vertex 1 and leaves
      vertex 2 at zero, and the offsets decrease. The row starts of the
      build that advances to each pair's source are monotone. */
  lemma SkippedVertexBreaksOffsets()
    ensures SortedPairs([0, 2, 2, 0], 2, 3)
    ensures XadjAsWritten([0, 2, 2, 0], 2, 3) == [0, 1, 0, 2]
    ensures forall v :: 0 <= v <= 3 ==> Below([0, 2, 2, 0], 2, v) == [0, 1, 1, 2][v]
  {
    var ep := [0, 2, 2, 0];
    assert Src(ep, 0) == 0 && Dst(ep, 0) == 2 && Src(ep, 1) == 2 && Dst(ep, 1) == 0;
    var z := seq(4, _ => 0);
    assert XadjScan(ep, 2, 3, 0, 0, 0, z) == XadjScan(ep, 2, 3, 1, 0, 1, z);
    assert XadjScan(ep, 2, 3, 1, 0, 1, z) == XadjScan(ep, 2, 3, 2, 1, 2, z[1 := 1]);
    assert z[1 := 1][3 := 2] == [0, 1, 0, 2];
  }

  /** Every vertex is the source of some pair: the sources start at 0,
      grow by at most one from pair to pair and end at the last vertex. */
  predicate EveryVertexListed(ep: seq<int>, e: nat, nv: nat)
    requires 2 * e <= |ep|
  {
    e > 0 ==>
      && Src(ep, 0) == 0 && Src(ep, e - 1) == nv - 1
      && forall i :: 0 < i < e ==> Src(ep, i) <= Src(ep, i - 1) + 1
  }

  /** Pairs from i on whose sources are at least v do not move vertex v's row start. */
  lemma {:induction false} BelowFrom(ep: seq<int>, i: nat, e: nat, v: int)
    requires i <= e && 2 * e <= |ep|
    requires forall j :: i <= j < e ==> v <= Src(ep, j)
    ensures Below(ep, e, v) == Below(ep, i, v)
    decreases e
  {
    if e > i {
      BelowFrom(ep, i, e - 1, v);
    }
  }

  lemma {:induction false} ScanAgrees(ep: seq<int>, e: nat, nv: nat, i: nat, cur: int, idx: int, xadj: seq<int>)
    requires 2 * e <= |ep| && 0 < e && SortedPairs(ep, e, nv) && EveryVertexListed(ep, e, nv)
    requires forall j :: 0 <= j < e ==> !Bad(ep, nv, j)
    requires i <= e && |xadj| == nv + 1
    requires i > 0 ==> cur == Src(ep, i - 1)
    requires i == 0 ==> cur == 0
    requires idx == |Targets(ep, i)|
    requires forall v :: 0 <= v <= cur ==> xadj[v] == Below(ep, e, v)
    ensures XadjScan(ep, e, nv, i, cur, idx, xadj) == seq(nv + 1, v => Below(ep, e, v))
    decreases e - i
  {
    if i == e {
      BelowAll(ep, e, nv);
      var r := xadj[nv := idx];
      forall v | 0 <= v <= nv ensures r[v] == Below(ep, e, v) {
      }
      assert r == seq(nv + 1, v => Below(ep, e, v));
    } else {
      var moved := Src(ep, i) != cur;
      var c := Src(ep, i);
      assert i > 0 ==> Src(ep, i) <= Src(ep, i - 1) + 1;
      assert moved ==> c == cur + 1;
      var x := if moved then xadj[c := idx] else xadj;
      if moved {
        BelowAll(ep, i, c);
        BelowFrom(ep, i, e, c);
      }
      assert !Bad(ep, nv, i);
      if Dst(ep, i) == c {
        ScanAgrees(ep, e, nv, i + 1, c, idx, x);
      } else {
        ScanAgrees(ep, e, nv, i + 1, c, idx + 1, x);
      }
    }
  }

  /** When every vertex is the source of some pair, the offsets as written
      are the row starts of `BuildAdjacency`: the two differ only on inputs
      with a vertex that has no pair. */
  lemma AsWrittenAgrees(ep: seq<int>, e: nat, nv: nat)
    requires 2 * e <= |ep| && SortedPairs(ep, e, nv) && EveryVertexListed(ep, e, nv)
    requires forall j :: 0 <= j < e ==> !Bad(ep, nv, j)
    ensures XadjAsWritten(ep, e, nv) == seq(nv + 1, v => Below(ep, e, v))
  {
    var z := seq(nv + 1, _ => 0);
    if e == 0 {
      assert XadjAsWritten(ep, e, nv) == z[nv := 0];
    } else {
      BelowFrom(ep, 0, e, 0);
      ScanAgrees(ep, e, nv, 0, 0, 0, z);
    }
  }

  /** METIS's `METIS_OK`. */
  const MetisOk: int := 1

  /** The partitioner's answer: its status, the partition of each vertex and
      the edge cut. It is an oracle: the graph it is given is described by
      `BuildAdjacency`'s contract. */
  datatype Partition = Partition(status: int, parts: seq<int>, cut: int)

  /** `klusolve_metis`: doubles the edge count, builds the graph, and copies
      the partition out when the partitioner succeeds. Returns 1 for a bad
      target (nothing written), 2 when the partitioner fails, 0 otherwise. */
  method KlusolveMetis(ep: seq<int>, w: seq<int>, numEdges: int, nv: int, zones: array<int>, edgeCut: int, part: Partition)
    returns (rc: int, cut: int)
    requires 0 <= numEdges && 2 * numEdges <= Int32Max && 0 <= nv <= Int32Max
    requires 4 * numEdges <= |ep| && 2 * numEdges <= |w| && SortedPairs(ep, 2 * numEdges, nv)
    requires nv <= zones.Length && nv <= |part.parts|
    modifies zones
    ensures rc == 1 <==> exists i :: 0 <= i < 2 * numEdges && Bad(ep, nv, i)
    ensures rc == 0 <==> (forall i :: 0 <= i < 2 * numEdges ==> !Bad(ep, nv, i)) && part.status == MetisOk
    ensures rc in {0, 1, 2}
    ensures rc == 0 ==> zones[..nv] == part.parts[..nv] && zones[nv..] == old(zones[nv..]) && cut == part.cut
    ensures rc != 0 ==> zones[..] == old(zones[..]) && cut == edgeCut
  {
    var e := 2 * numEdges;
    var ok, xadj, adjacency, weights := BuildAdjacency(ep, w, e, nv);
    if !ok {
      return 1, edgeCut;
    }
    if part.status != MetisOk {
      return 2, edgeCut;
    }
    var i := 0;
    while i < nv
      invariant 0 <= i <= nv
      invariant zones[..i] == part.parts[..i] && zones[nv..] == old(zones[nv..])
    {
      zones[i] := part.parts[i];
      i := i + 1;
    }
    return 0, part.cut;
  }
}
