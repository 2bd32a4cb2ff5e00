/** The `KLUSystem` object: the admittance matrix of n nodes, kept as a list
    of pending triplets or in compressed-column form, together with the
    factorization state, the reuse options and the metrics it reports. */
module KluSystem {
  import opened Word
  import opened ComplexArith
  import opened Sparse
  import opened Factorization
  import Islands

  // ---------------------------------------------------------------------
  // Stamping a primitive matrix

  /** Node numbers the size check of `AddPrimitiveMatrix` accepts:
      `pNodes[i] > m_nBus` compares unsigned, so negative numbers fail too. */
  predicate NodesFit(nodes: seq<int>, order: int, nBus: nat)
    requires order <= |nodes|
  {
    forall i :: 0 <= i < order ==> 0 <= nodes[i] <= nBus
  }

  lemma SlotBound(order: int, i: int, j: int)
    requires 0 <= i < order && 0 <= j < order
    ensures 0 <= i + j * order < order * order
  {
    assert j * order <= (order - 1) * order by {
      assert (order - 1 - j) * order >= 0;
    }
  }

  /** Triplets of row i from columns 0..j-1 of the column-major primitive
      matrix: column j' contributes when its node is not ground and the value
      is non-zero. */
  function StampRow(nodes: seq<int>, mat: seq<Complex>, order: int, i: int, j: int): seq<Triplet>
    requires 0 <= i < order <= |nodes| && 0 <= j <= order && order * order <= |mat|
    decreases j
  {
    if j == 0 then []
    else
      SlotBound(order, i, j - 1);
      var v := mat[i + (j - 1) * order];
      StampRow(nodes, mat, order, i, j - 1) +
      (if nodes[j - 1] != 0 && !IsZero(v) then [Triplet(nodes[i] - 1, nodes[j - 1] - 1, v)] else [])
  }

  /** Triplets of rows 0..i-1; rows of ground (node < 1) contribute none. */
  function StampRows(nodes: seq<int>, mat: seq<Complex>, order: int, i: int): seq<Triplet>
    requires 0 <= i <= order <= |nodes| && order * order <= |mat|
    decreases i
  {
    if i == 0 then []
    else
      StampRows(nodes, mat, order, i - 1) +
      (if nodes[i - 1] < 1 then [] else StampRow(nodes, mat, order, i - 1, order))
  }

  /** Everything `AddPrimitiveMatrix` appends for a primitive matrix of order `order`. */
  function Stamp(nodes: seq<int>, mat: seq<Complex>, order: int): seq<Triplet>
    requires order <= |nodes| && (order > 0 ==> order * order <= |mat|)
  {
    if order <= 0 then [] else StampRows(nodes, mat, order, order)
  }

  /** The entry (i, j) of the primitive matrix is stamped at (nodes[i]-1, nodes[j]-1). */
  ghost predicate Stamps(nodes: seq<int>, mat: seq<Complex>, order: int, t: Triplet, i: int, j: int)
    requires 0 <= i < order <= |nodes| && 0 <= j < order && order * order <= |mat|
  {
    SlotBound(order, i, j);
    nodes[i] >= 1 && nodes[j] != 0 && !IsZero(mat[i + j * order]) &&
    t == Triplet(nodes[i] - 1, nodes[j] - 1, mat[i + j * order])
  }

  lemma {:induction false} StampRowMembers(nodes: seq<int>, mat: seq<Complex>, order: int, i: int, j: int, t: Triplet)
    requires 0 <= i < order <= |nodes| && 0 <= j <= order && order * order <= |mat| && nodes[i] >= 1
    decreases j
    ensures t in StampRow(nodes, mat, order, i, j) <==> exists j' :: 0 <= j' < j && Stamps(nodes, mat, order, t, i, j')
  {
    if j > 0 {
      StampRowMembers(nodes, mat, order, i, j - 1, t);
      SlotBound(order, i, j - 1);
      var v := mat[i + (j - 1) * order];
      var last := if nodes[j - 1] != 0 && !IsZero(v) then [Triplet(nodes[i] - 1, nodes[j - 1] - 1, v)] else [];
      assert StampRow(nodes, mat, order, i, j) == StampRow(nodes, mat, order, i, j - 1) + last;
      assert t in last <==> Stamps(nodes, mat, order, t, i, j - 1);
    }
  }

  lemma {:induction false} StampRowsMembers(nodes: seq<int>, mat: seq<Complex>, order: int, i: int, t: Triplet)
    requires 0 <= i <= order <= |nodes| && order * order <= |mat|
    decreases i
    ensures t in StampRows(nodes, mat, order, i) <==>
      exists i', j' :: 0 <= i' < i && 0 <= j' < order && Stamps(nodes, mat, order, t, i', j')
  {
    if i > 0 {
      StampRowsMembers(nodes, mat, order, i - 1, t);
      var last := if nodes[i - 1] < 1 then [] else StampRow(nodes, mat, order, i - 1, order);
      assert StampRows(nodes, mat, order, i) == StampRows(nodes, mat, order, i - 1) + last;
      if nodes[i - 1] >= 1 {
        StampRowMembers(nodes, mat, order, i - 1, order, t);
      }
      var r := i - 1;
      assert t in last <==> exists j' :: 0 <= j' < order && Stamps(nodes, mat, order, t, r, j');
    }
  }

  /** A stamped triplet comes from exactly a non-ground row node, a
      non-ground column node and a non-zero value of the primitive matrix. */
  lemma StampMembers(nodes: seq<int>, mat: seq<Complex>, order: int, t: Triplet)
    requires 0 < order <= |nodes| && order * order <= |mat|
    ensures t in Stamp(nodes, mat, order) <==>
      exists i, j :: 0 <= i < order && 0 <= j < order && Stamps(nodes, mat, order, t, i, j)
  {
    StampRowsMembers(nodes, mat, order, order, t);
  }

  /** Every triplet at row or column of a valid system lies inside it. */
  predicate TripletsIn(ts: seq<Triplet>, n: nat)
  {
    forall k :: 0 <= k < |ts| ==> 0 <= ts[k].row < n && 0 <= ts[k].col < n
  }

  /** The matrix and the pending triplets of a system. */
  datatype Pair = Pair(m: Csc, ts: seq<Triplet>)

  /** The effect of `AddElement`: values outside the matrix (the bounds check
      compares unsigned, so negative indices fail it too), index 0 and exact
      zeros are ignored; an empty matrix collects a 0-based triplet, a matrix
      holding entries is updated through `coeffRef`. */
  function Added(m: Csc, ts: seq<Triplet>, n: nat, iRow: int, iCol: int, v: Complex): (r: Pair)
    requires WellFormed(m, n) && TripletsIn(ts, n) && n <= Int32Max && IsInt32(iRow) && IsInt32(iCol)
    ensures WellFormed(r.m, n) && TripletsIn(r.ts, n)
    ensures !(1 <= iRow <= n && 1 <= iCol <= n && !IsZero(v)) ==> r == Pair(m, ts)
    ensures 1 <= iRow <= n && 1 <= iCol <= n && !IsZero(v) ==>
      if |m.ai| > 0 then r == Pair(AddCoeff(m, n, iRow - 1, iCol - 1, v), ts)
      else r == Pair(m, ts + [Triplet(iRow - 1, iCol - 1, v)])
  {
    AboveUnsignedMeans(iRow, n);
    AboveUnsignedMeans(iCol, n);
    if AboveUnsigned(iRow, n) || AboveUnsigned(iCol, n) then Pair(m, ts)
    else if iRow <= 0 || iCol <= 0 then Pair(m, ts)
    else if IsZero(v) then Pair(m, ts)
    else if |m.ai| > 0 then Pair(AddCoeff(m, n, iRow - 1, iCol - 1, v), ts)
    else Pair(m, ts + [Triplet(iRow - 1, iCol - 1, v)])
  }

  /** Accepted node numbers stamp only inside the matrix. */
  lemma StampInRange(nodes: seq<int>, mat: seq<Complex>, order: int, nBus: nat)
    requires order <= |nodes| && (order > 0 ==> order * order <= |mat|) && NodesFit(nodes, order, nBus)
    ensures TripletsIn(Stamp(nodes, mat, order), nBus)
  {
    if order > 0 {
      var ts := Stamp(nodes, mat, order);
      forall k | 0 <= k < |ts| ensures 0 <= ts[k].row < nBus && 0 <= ts[k].col < nBus {
        StampMembers(nodes, mat, order, ts[k]);
      }
    }
  }

  /** The size check of `AddPrimitiveMatrix`: every node number at most
      `nBus`, compared unsigned. */
  method CheckNodes(nodes: seq<int>, order: int, nBus: nat) returns (ok: bool)
    requires order <= |nodes| && nBus <= Int32Max
    requires forall i :: 0 <= i < |nodes| ==> IsInt32(nodes[i])
    ensures ok == NodesFit(nodes, order, nBus)
  {
    var i := 0;
    while i < order
      invariant 0 <= i && (i == 0 || i <= order)
      invariant forall i' :: 0 <= i' < i ==> 0 <= nodes[i'] <= nBus
    {
      AboveUnsignedMeans(nodes[i], nBus);
      if AboveUnsigned(nodes[i], nBus) {
        return false;
      }
      i := i + 1;
    }
    return true;
  }

  /** The stamping loops of `AddPrimitiveMatrix`: row by row, column by
      column, the triplets it appends. */
  method StampTriplets(nodes: seq<int>, mat: seq<Complex>, order: int) returns (ts: seq<Triplet>)
    requires order <= |nodes| && (order > 0 ==> order * order <= |mat|)
    ensures ts == Stamp(nodes, mat, order)
  {
    ts := [];
    if order <= 0 {
      return;
    }
    var i := 0;
    while i < order
      invariant 0 <= i <= order
      invariant ts == StampRows(nodes, mat, order, i)
    {
      if nodes[i] >= 1 {
        var idRow := nodes[i] - 1;
        var j := 0;
        while j < order
          invariant 0 <= j <= order
          invariant ts == StampRows(nodes, mat, order, i) + StampRow(nodes, mat, order, i, j)
        {
          SlotBound(order, i, j);
          var idVal := i + j * order;
          if nodes[j] != 0 {
            if !IsZero(mat[idVal]) {
              ts := ts + [Triplet(idRow, nodes[j] - 1, mat[idVal])];
            }
          }
          j := j + 1;
        }
      }
      i := i + 1;
    }
  }

  /** Only the value of entry (r, c) differs between `m` and `m'`, and it is
      `x`; the stored pattern is the same. */
  ghost predicate ChangedAt(m: Csc, m': Csc, n: nat, r: int, c: int, x: Complex)
    requires Shape(m, n) && Shape(m', n) && 0 <= r < n && 0 <= c < n
  {
    && m'.ap == m.ap && m'.ai == m.ai
    && Coeff(m', n, r, c) == x
    && forall r', c' :: 0 <= r' < n && 0 <= c' < n && (r', c') != (r, c) ==>
         Coeff(m', n, r', c') == Coeff(m, n, r', c')
  }

  /** The refusal test of `GetCompressedMatrix` as written: `nColP <= m_nBus`
      compares an `int` with a `uint32_t`, so a negative `nColP` is taken as
      a large buffer. */
  predicate CompressedRefusedAsWritten(nNZ: int, nColP: int, nnz: nat, nBus: nat)
    // a negative buffer length is never refused by the column test
    ensures IsInt32(nColP) && nBus < Int32Max ==>
      (CompressedRefusedAsWritten(nNZ, nColP, nnz, nBus) <==> nNZ < nnz || nnz == 0 || 0 <= nColP <= nBus)
  {
    nNZ < nnz || !AtLeastUnsigned(nColP, nBus + 1) || nnz == 0
  }

  /** The refusal test with a signed buffer check: the buffers must hold
      `nnz` entries and `nBus + 1` column pointers, and there must be entries. */
  predicate CompressedRefused(nNZ: int, nColP: int, nnz: nat, nBus: nat)
  {
    nNZ < nnz || !AtLeast(nColP, nBus + 1) || nnz == 0
  }

  /** A column-pointer buffer declared with -1 entries is accepted by the
      test as written for a 1-node matrix holding one entry, and refused by
      the signed test. */
  lemma NegativeColumnBufferAccepted()
    ensures !CompressedRefusedAsWritten(1, -1, 1, 1) && CompressedRefused(1, -1, 1, 1)
  {
    assert ToUInt32(-1) == UInt32 - 1;
  }

  /** The signed test accepts only buffers that hold what is copied, and
      otherwise agrees with the test as written. */
  lemma CompressedRefusedMeans(nNZ: int, nColP: int, nnz: nat, nBus: nat)
    requires IsInt32(nColP) && nBus < Int32Max
    ensures !CompressedRefused(nNZ, nColP, nnz, nBus) <==>
      0 < nnz <= nNZ && nBus + 1 <= nColP
    ensures CompressedRefused(nNZ, nColP, nnz, nBus) <==>
      CompressedRefusedAsWritten(nNZ, nColP, nnz, nBus) || nColP < 0
  {
    AtLeastRefusesNegative(nColP, nBus + 1);
  }

  /** Every field of a system, for stating what an operation leaves alone. */
  datatype Snapshot = Snapshot(spmat: Csc, triplets: seq<Triplet>, state: FactorState, nBus: nat, nX: nat,
                               nzPre: nat, options: nat, factored: bool, reuseSymbolic: bool)

  /** `matrix_complex`: a dense block of `nRow` by `nCol` values. */
  datatype MatrixComplex = MatrixComplex(acx: seq<Complex>, nRow: nat, nCol: nat)

  /** `get_acx`: entry (i, j) of the block, stored row by row. */
  function GetAcx(mc: MatrixComplex, i: int, j: int): (v: Complex)
    requires 0 <= i < mc.nRow && 0 <= j < mc.nCol && mc.nRow * mc.nCol <= |mc.acx|
    ensures v == Row(mc, i)[j]
  {
    RowMajor(mc.nRow, mc.nCol, i, j);
    mc.acx[i * mc.nCol + j]
  }

  /** Row i of the block: `nCol` consecutive values, rows stored one after another. */
  function Row(mc: MatrixComplex, i: int): (r: seq<Complex>)
    requires 0 <= i < mc.nRow && mc.nRow * mc.nCol <= |mc.acx|
    ensures |r| == mc.nCol
  {
    if mc.nCol == 0 then []
    else
      RowMajor(mc.nRow, mc.nCol, i, mc.nCol - 1);
      mc.acx[i * mc.nCol .. (i + 1) * mc.nCol]
  }

  /** Row-major positions of distinct entries are distinct and inside the block. */
  lemma RowMajor(nRow: nat, nCol: nat, i: int, j: int)
    requires 0 <= i < nRow && 0 <= j < nCol
    ensures 0 <= i * nCol + j < nRow * nCol
    ensures forall i', j' :: 0 <= i' < nRow && 0 <= j' < nCol && (i', j') != (i, j) ==>
      i' * nCol + j' != i * nCol + j
  {
    RowBefore(nCol, i, j, nRow, 0);
    forall i', j' | 0 <= i' < nRow && 0 <= j' < nCol && (i', j') != (i, j)
      ensures i' * nCol + j' != i * nCol + j
    {
      if i' < i {
        RowBefore(nCol, i', j', i, j);
      } else if i < i' {
        RowBefore(nCol, i, j, i', j');
      }
    }
  }

  /** Every position of an earlier row precedes every position of a later one. */
  lemma RowBefore(nCol: nat, i: int, j: int, i': int, j': int)
    requires 0 <= i < i' && 0 <= j < nCol && 0 <= j'
    ensures 0 <= i * nCol + j < i' * nCol + j'
  {
    assert (i' - i - 1) * nCol >= 0;
    assert i' * nCol == i * nCol + nCol + (i' - i - 1) * nCol;
  }

  // ---------------------------------------------------------------------
  // The system object

  class KLUSystem {
    /** `spmat`: the compressed-column matrix, `triplets`: entries not yet compacted. */
    var spmat: Csc
    var triplets: seq<Triplet>
    /** Whether the `Symbolic` and `Numeric` handles are non-null. */
    var symbolic: bool
    var numeric: bool
    var nBus: nat
    var nX: nat
    var nzPre: nat
    var nzPost: nat
    var fltBus: nat
    var options: nat
    var factored: bool
    var reuseSymbolic: bool

    ghost predicate Valid()
      reads this
    {
      && nX == nBus && nBus <= Int32Max
      && WellFormed(spmat, nBus) && TripletsIn(triplets, nBus)
      && nzPre < UInt32 && nzPost < UInt32 && fltBus < UInt32
    }

    ghost function State(): FactorState
      reads this
    {
      FactorState(symbolic, numeric, fltBus, nzPost)
    }

    ghost function Snap(): Snapshot
      reads this
    {
      Snapshot(spmat, triplets, State(), nBus, nX, nzPre, options, factored, reuseSymbolic)
    }

    /** `KLUSystem()`: `InitDefaults`, an empty system of size 0. */
    constructor ()
      ensures Valid()
      ensures nBus == 0 && spmat == Empty(0) && triplets == []
      ensures !symbolic && !numeric && nzPre == 0 && nzPost == 0 && fltBus == 0
      ensures options == 0 && !factored && !reuseSymbolic
    {
      spmat := Empty(0);
      triplets := [];
      symbolic, numeric := false, false;
      nBus, nX := 0, 0;
      nzPre, nzPost, fltBus := 0, 0, 0;
      options := 0;
      factored, reuseSymbolic := false, false;
    }

    /** `Clear`: drops the matrix, the triplets and both handles, and zeroes
        sizes and metrics; options and flags are kept. */
    method Clear()
      modifies this
      ensures Valid()
      ensures nBus == 0 && spmat == Empty(0) && triplets == []
      ensures !symbolic && !numeric && nzPre == 0 && nzPost == 0 && fltBus == 0
      ensures options == old(options) && factored == old(factored) && reuseSymbolic == old(reuseSymbolic)
    {
      spmat := Empty(0);
      triplets := [];
      symbolic, numeric := false, false;
      nBus, nX := 0, 0;
      nzPre, nzPost, fltBus := 0, 0, 0;
    }

    /** `Initialize`: a cleared system of `n` nodes with an empty n x n matrix. */
    method Initialize(n: int) returns (rc: int)
      requires 0 <= n <= Int32Max
      modifies this
      ensures Valid() && rc == 0
      ensures nBus == n && spmat == Empty(n) && triplets == []
      ensures !symbolic && !numeric && nzPre == 0 && nzPost == 0 && fltBus == 0
      ensures options == old(options) && factored == old(factored) && reuseSymbolic == old(reuseSymbolic)
    {
      Clear();
      nBus, nX := n, n;
      spmat := Empty(n);
      rc := 0;
    }

    /** `zero`: re-initializes the system with its current size. */
    method Zero()
      requires Valid()
      modifies this
      ensures Valid()
      ensures nBus == old(nBus) && spmat == Empty(nBus) && triplets == []
      ensures !symbolic && !numeric && nzPre == 0 && nzPost == 0 && fltBus == 0
      ensures options == old(options) && factored == old(factored) && reuseSymbolic == old(reuseSymbolic)
    {
      var _ := Initialize(nBus);
    }

    /** `AddElement`: adds `v` at the 1-based position (iRow, iCol), as `Added` says. */
    method AddElement(iRow: int, iCol: int, v: Complex)
      requires Valid() && IsInt32(iRow) && IsInt32(iCol)
      modifies this`spmat, this`triplets
      ensures Valid()
      ensures Pair(spmat, triplets) == Added(old(spmat), old(triplets), nBus, iRow, iCol, v)
    {
      if AboveUnsigned(iRow, nBus) || AboveUnsigned(iCol, nBus) {
        return;
      }
      if iRow <= 0 || iCol <= 0 {
        return;
      }
      if IsZero(v) {
        return;
      }
      if |spmat.ai| > 0 {
        spmat := AddCoeff(spmat, nBus, iRow - 1, iCol - 1, v);
      } else {
        triplets := triplets + [Triplet(iRow - 1, iCol - 1, v)];
      }
    }

    /** `GetElement`: the compressed value at the 1-based position (iRow, iCol),
        zero outside the matrix. Pending triplets are not consulted. */
    function GetElement(iRow: int, iCol: int): (v: Complex)
      requires Valid() && IsInt32(iRow) && IsInt32(iCol)
      reads this
      ensures 1 <= iRow <= nBus && 1 <= iCol <= nBus ==> v == Coeff(spmat, nBus, iRow - 1, iCol - 1)
      ensures !(1 <= iRow <= nBus && 1 <= iCol <= nBus) ==> v == ComplexArith.Zero
    {
      AboveUnsignedMeans(iRow, nBus);
      AboveUnsignedMeans(iCol, nBus);
      if AboveUnsigned(iRow, nBus) || AboveUnsigned(iCol, nBus) then ComplexArith.Zero
      else if iRow == 0 || iCol == 0 then ComplexArith.Zero
      else Coeff(spmat, nBus, iRow - 1, iCol - 1)
    }

    /** `AddPrimitiveMatrix`: checks every node number, then appends the
        triplets of the primitive matrix's non-ground, non-zero entries. */
    method AddPrimitiveMatrix(nOrder: int, pNodes: seq<int>, pMat: seq<Complex>) returns (rc: int)
      requires Valid() && nOrder <= |pNodes| && (nOrder > 0 ==> nOrder * nOrder <= |pMat|)
      requires forall i :: 0 <= i < |pNodes| ==> IsInt32(pNodes[i])
      modifies this`triplets
      ensures Valid()
      ensures rc == (if NodesFit(pNodes, nOrder, nBus) then 1 else 0)
      ensures triplets == if rc == 1 then old(triplets) + Stamp(pNodes, pMat, nOrder) else old(triplets)
    {
      var ok := CheckNodes(pNodes, nOrder, nBus);
      if !ok {
        return 0;
      }
      StampInRange(pNodes, pMat, nOrder, nBus);
      var ts := StampTriplets(pNodes, pMat, nOrder);
      triplets := triplets + ts;
      rc := 1;
    }

    /** `ProcessTriplets`: replaces the matrix by the compaction of the
        pending triplets (earlier matrix contents are discarded) and records
        its number of stored entries. */
    method ProcessTriplets()
      requires Valid()
      modifies this`spmat, this`triplets, this`nzPre
      ensures Valid()
      ensures spmat == FromTriplets(old(triplets), nBus) && triplets == []
      ensures nzPre == ToUInt32(|spmat.ai|)
    {
      spmat := FromTriplets(triplets, nBus);
      nzPre := ToUInt32(|spmat.ai|);
      triplets := [];
    }

    /** What `Factor` leaves behind, as decided by the reuse policy. */
    twostate predicate FactoredFrom(k: Kernel, rc: int, calls: seq<Call>)
      reads this
    {
      var r := Factorization.Factor(old(|triplets|) > 0, old(options), old(reuseSymbolic), old(State()), old(nBus), k);
      && rc == r.rc && calls == r.calls && State() == r.state
      && (if old(|triplets|) > 0 then
            spmat == FromTriplets(old(triplets), old(nBus)) && triplets == [] && nzPre == ToUInt32(|spmat.ai|)
          else spmat == old(spmat) && triplets == old(triplets) && nzPre == old(nzPre))
      && nBus == old(nBus) && nX == old(nX) && options == old(options)
    }

    /** Pending triplets, if any, have been compacted into the matrix and
        counted in `nzPre`; nothing else has changed. */
    twostate predicate Compacted()
      reads this
    {
      if old(|triplets|) > 0 then
        Snap() == old(Snap()).(spmat := FromTriplets(old(triplets), old(nBus)), triplets := [],
                               nzPre := ToUInt32(|FromTriplets(old(triplets), old(nBus)).ai|))
      else Snap() == old(Snap())
    }

    /** `Factor`: compacts pending triplets, then reuses or recomputes the
        factorization as the options allow; `k` supplies the kernel's
        outcomes and `calls` the kernel calls made. */
    method Factor(k: Kernel) returns (rc: int, ghost calls: seq<Call>)
      requires Valid() && HandlesCoherent(k)
      modifies this`spmat, this`triplets, this`nzPre, this`symbolic, this`numeric, this`fltBus, this`nzPost
      ensures Valid() && FactoredFrom(k, rc, calls)
    {
      var pending := |triplets| > 0;
      if pending {
        ProcessTriplets();
      }
      rc, calls := FactorCompressed(pending, k);
    }

    /** The part of `Factor` after the compaction: the cached answer, or the
        kernel calls followed by the mapping of the last status. */
    method FactorCompressed(pending: bool, k: Kernel) returns (rc: int, ghost calls: seq<Call>)
      requires fltBus < UInt32 && nzPost < UInt32
      modifies this`symbolic, this`numeric, this`fltBus, this`nzPost
      ensures fltBus < UInt32 && nzPost < UInt32
      ensures var r := Factorization.Factor(pending, options, reuseSymbolic, old(State()), nBus, k);
        rc == r.rc && calls == r.calls && State() == r.state
    {
      if !pending && options != ReuseCompressedMatrix && !(reuseSymbolic && options >= ReuseSymbolicFactorization) {
        if fltBus != 0 {
          return -1, [];
        }
        return 1, [];
      }
      ghost var st0 := State();
      var out;
      out, calls := RunKernel(k);
      ghost var a := Run(SymbolicReuse(reuseSymbolic, options), st0, options, k);
      assert State() == st0.(symbolic := a.symbolic, numeric := a.numeric) && out == a.out && calls == a.calls;
      rc := ReportStatus(out, calls);
    }

    /** The end of `Factor`: maps the deciding status to the return code, the
        singular bus and the fill-in count. */
    method ReportStatus(out: Outcome, ghost calls: seq<Call>) returns (rc: int)
      requires fltBus < UInt32 && nzPost < UInt32
      modifies this`fltBus, this`nzPost
      ensures fltBus < UInt32 && nzPost < UInt32
      ensures FactorResult(rc, State(), calls) == Conclude(old(State()), out, nBus, calls)
    {
      fltBus := SingularBus(out.singularCol, nBus);
      if out.status == Ok {
        nzPost := (nzPost + out.fill) % UInt32;
        rc := 1;
      } else if out.status == Singular {
        rc := -1;
      } else {
        if fltBus == 0 {
          fltBus := 1;
        }
        rc := 0;
      }
    }

    /** Frees the handles the options do not let `Factor` reuse, then makes
        the kernel calls; `out` is the outcome whose status `Factor` reports. */
    method RunKernel(k: Kernel) returns (out: Outcome, ghost calls: seq<Call>)
      modifies this`symbolic, this`numeric
      ensures Attempt(out, calls, symbolic, numeric) ==
        Run(SymbolicReuse(reuseSymbolic, options), old(State()), options, k)
    {
      calls := [];
      var symReuse := reuseSymbolic && options >= ReuseSymbolicFactorization;
      if !symReuse {
        symbolic := false;
      }
      if !symReuse || !(numeric && options >= ReuseNumericFactorization) {
        numeric := false;
      }
      var reuseFailed := true;
      out := k.full;
      if symReuse && symbolic {
        if numeric && options >= ReuseNumericFactorization {
          calls := [Refactor];
          out := k.refactor;
          reuseFailed := !k.refactorOk;
        } else {
          calls := [NumericFactor];
          out := k.factor;
          numeric := k.factor.handle;
          reuseFailed := k.factor.status != Ok;
        }
      }
      if reuseFailed {
        calls := calls + [Analyze, FullFactor];
        symbolic := k.analyze;
        out := k.full;
        numeric := k.full.handle;
      }
    }

    /** `FactorSystem`: 0 and the `bFactored` flag when `Factor` succeeds,
        1 otherwise; success also ends symbolic reuse. */
    method FactorSystem(k: Kernel) returns (code: int, ghost rc: int, ghost calls: seq<Call>)
      requires Valid() && HandlesCoherent(k)
      modifies this
      ensures Valid() && FactoredFrom(k, rc, calls)
      ensures code == (if rc == 1 then 0 else 1)
      ensures factored == (rc == 1)
      ensures reuseSymbolic == (old(reuseSymbolic) && rc != 1)
    {
      factored := false;
      var r;
      r, calls := Factor(k);
      rc := r;
      if r == 1 {
        factored := true;
        reuseSymbolic := false;
        return 0, rc, calls;
      }
      return 1, rc, calls;
    }

    /** `SolveSystem`: copies the right-hand side into `x` and solves in
        place; `solution` is what the kernel's solve writes. */
    method SolveSystem(x: array<Complex>, b: seq<Complex>, solution: seq<Complex>)
      requires Valid() && x.Length >= nBus && |b| >= nBus && |solution| == nBus
      modifies x
      ensures x[..nBus] == (if nX < 1 then b[..nBus] else solution)
      ensures x[nBus..] == old(x[nBus..])
    {
      forall i | 0 <= i < nBus {
        x[i] := b[i];
      }
      if nX < 1 {
        return;
      }
      forall i | 0 <= i < nBus {
        x[i] := solution[i];
      }
    }

    /** `FindDisconnectedSubnetwork`: factors and reports the 1-based
        singular row, 0 when there is none; the `uint32_t` field is returned
        as an `int`. */
    method FindDisconnectedSubnetwork(k: Kernel) returns (bus: int, ghost rc: int, ghost calls: seq<Call>)
      requires Valid() && HandlesCoherent(k)
      modifies this`spmat, this`triplets, this`nzPre, this`symbolic, this`numeric, this`fltBus, this`nzPost
      ensures Valid() && FactoredFrom(k, rc, calls)
      ensures IsInt32(bus) && ToUInt32(bus) == fltBus && (bus < 0 <==> fltBus > Int32Max)
      ensures rc == 1 ==> bus == 0 || calls != []
    {
      rc, calls := Factor(k);
      bus := ToInt32(fltBus);
    }

    /** `FindIslands`: factors, then labels the nodes of the compressed
        pattern with island numbers 1..cnt in `idClique`. */
    method FindIslands(k: Kernel, idClique: array<int>) returns (cnt: int, ghost rc: int, ghost calls: seq<Call>)
      requires Valid() && HandlesCoherent(k) && idClique.Length >= nBus
      modifies this`spmat, this`triplets, this`nzPre, this`symbolic, this`numeric, this`fltBus, this`nzPost, idClique
      ensures Valid() && FactoredFrom(k, rc, calls)
      ensures 0 <= cnt <= nBus
      ensures forall x :: 0 <= x < nBus ==> 1 <= idClique[x] <= cnt
      ensures forall c :: 1 <= c <= cnt ==> Islands.HasRoot(idClique[..nBus], c)
      ensures forall x, p :: Islands.Edge(spmat, nBus, x, p) ==> idClique[spmat.ai[p]] <= idClique[x]
      ensures forall x :: 0 <= x < nBus ==> Islands.ReachedFromRoot(spmat, nBus, idClique[..nBus], x)
      ensures idClique[nBus..] == old(idClique[nBus..])
    {
      rc, calls := Factor(k);
      var labels;
      labels, cnt := Islands.Label(spmat, nBus);
      forall j | 0 <= j < nBus {
        idClique[j] := labels[j];
      }
      assert idClique[..nBus] == labels;
    }

    /** `IncrementElement`: adds re + i*im to an entry the compressed pattern
        already stores, found by binary search in its column. Needs a reuse
        tier of at least `ReuseCompressedMatrix`; never changes the pattern. */
    method IncrementElement(iRow: int, iCol: int, re: real, im: real) returns (rc: int)
      requires Valid() && IsInt32(iRow) && IsInt32(iCol)
      modifies this`spmat
      ensures Valid()
      ensures rc == 1 <==> options >= ReuseCompressedMatrix && 1 <= iRow <= nBus && 1 <= iCol <= nBus &&
                           Stored(old(spmat), nBus, iRow - 1, iCol - 1)
      ensures rc == 0 || rc == 1
      ensures rc == 0 ==> spmat == old(spmat)
      ensures rc == 1 ==>
        ChangedAt(old(spmat), spmat, nBus, iRow - 1, iCol - 1, Add(Coeff(old(spmat), nBus, iRow - 1, iCol - 1), Complex(re, im)))
    {
      var p := FindSlot(iRow, iCol);
      if p < 0 {
        return 0;
      }
      UpdateSlot(spmat, nBus, iCol - 1, p, Add(spmat.ax[p], Complex(re, im)));
      LookupAt(ColRows(spmat, nBus, iCol - 1), ColVals(spmat, nBus, iCol - 1), p - spmat.ap[iCol - 1]);
      spmat := spmat.(ax := spmat.ax[p := Add(spmat.ax[p], Complex(re, im))]);
      return 1;
    }

    /** `ZeroiseElement`: sets to zero an entry the compressed pattern
        already stores, keeping it in the pattern. */
    method ZeroiseElement(iRow: int, iCol: int) returns (rc: int)
      requires Valid() && IsInt32(iRow) && IsInt32(iCol)
      modifies this`spmat
      ensures Valid()
      ensures rc == 1 <==> options >= ReuseCompressedMatrix && 1 <= iRow <= nBus && 1 <= iCol <= nBus &&
                           Stored(old(spmat), nBus, iRow - 1, iCol - 1)
      ensures rc == 0 || rc == 1
      ensures rc == 0 ==> spmat == old(spmat)
      ensures rc == 1 ==> ChangedAt(old(spmat), spmat, nBus, iRow - 1, iCol - 1, ComplexArith.Zero)
    {
      var p := FindSlot(iRow, iCol);
      if p < 0 {
        return 0;
      }
      UpdateSlot(spmat, nBus, iCol - 1, p, ComplexArith.Zero);
      spmat := spmat.(ax := spmat.ax[p := ComplexArith.Zero]);
      return 1;
    }

    /** The guard and the `std::lower_bound` search shared by
        `IncrementElement` and `ZeroiseElement`: the slot of the 1-based
        entry (iRow, iCol), or -1 when it is refused or not stored. */
    method FindSlot(iRow: int, iCol: int) returns (p: int)
      requires Valid() && IsInt32(iRow) && IsInt32(iCol)
      ensures p >= 0 <==> options >= ReuseCompressedMatrix && 1 <= iRow <= nBus && 1 <= iCol <= nBus &&
                          Stored(spmat, nBus, iRow - 1, iCol - 1)
      ensures p >= 0 ==> spmat.ap[iCol - 1] <= p < spmat.ap[iCol] && spmat.ai[p] == iRow - 1
    {
      AboveUnsignedMeans(iRow, nBus);
      AboveUnsignedMeans(iCol, nBus);
      if options < ReuseCompressedMatrix || AboveUnsigned(iRow, nBus) || AboveUnsigned(iCol, nBus) || iRow == 0 || iCol == 0 {
        return -1;
      }
      var r, c := iRow - 1, iCol - 1;
      var lo, hi := spmat.ap[c], spmat.ap[c + 1];
      ColumnSorted(spmat, nBus, c);
      p := LowerBound(spmat.ai, lo, hi, r);
      SlotOfRow(spmat, nBus, r, c);
      assert (p < hi && spmat.ai[p] == r) <==> Stored(spmat, nBus, r, c);
      if p == hi || spmat.ai[p] != r {
        return -1;
      }
    }

    /** `GetCompressedMatrix`: compacts pending triplets, then copies the
        column pointers, row indices and values out when the buffers are
        large enough and the matrix holds entries; returns the number of
        entries copied, 0 otherwise. */
    method GetCompressedMatrix(nColP: int, nNZ: int, pColP: array<int>, pRowIdx: array<int>, pMat: array<Complex>)
      returns (rc: int)
      requires Valid() && IsInt32(nColP) && IsInt32(nNZ) && pColP != pRowIdx
      requires nNZ <= pRowIdx.Length && nNZ <= pMat.Length && nColP <= pColP.Length
      modifies this`spmat, this`triplets, this`nzPre, pColP, pRowIdx, pMat
      ensures Valid() && nBus == old(nBus)
      ensures Compacted()
      ensures rc == (if CompressedRefused(nNZ, nColP, |spmat.ai|, nBus) then 0 else |spmat.ai|)
      ensures rc == 0 ==> pColP[..] == old(pColP[..]) && pRowIdx[..] == old(pRowIdx[..]) && pMat[..] == old(pMat[..])
      ensures rc != 0 ==> pColP[..nBus + 1] == spmat.ap && pRowIdx[..rc] == spmat.ai && pMat[..rc] == spmat.ax
      ensures rc != 0 ==>
        pColP[nBus + 1..] == old(pColP[nBus + 1..]) && pRowIdx[rc..] == old(pRowIdx[rc..]) && pMat[rc..] == old(pMat[rc..])
    {
      if |triplets| > 0 {
        ProcessTriplets();
      }
      if CompressedRefused(nNZ, nColP, |spmat.ai|, nBus) {
        return 0;
      }
      rc := |spmat.ai|;
      CopyPrefix(spmat.ax, pMat);
      CopyPrefix(spmat.ap, pColP);
      CopyPrefix(spmat.ai, pRowIdx);
    }

    /** `GetTripletMatrix`: compacts pending triplets, then writes every
        stored entry as (row, column, value), column by column. */
    method GetTripletMatrix(nNZ: int, pRows: array<int>, pCols: array<int>, pMat: array<Complex>) returns (rc: int)
      requires Valid() && IsInt32(nNZ) && pRows != pCols
      requires nNZ <= pRows.Length && nNZ <= pCols.Length && nNZ <= pMat.Length
      modifies this`spmat, this`triplets, this`nzPre, pRows, pCols, pMat
      ensures Valid() && nBus == old(nBus)
      ensures Compacted()
      ensures rc == (if nNZ < |spmat.ai| || |spmat.ai| == 0 then 0 else |spmat.ai|)
      ensures rc == 0 ==> pRows[..] == old(pRows[..]) && pCols[..] == old(pCols[..]) && pMat[..] == old(pMat[..])
      ensures forall q :: 0 <= q < rc ==> Triplet(pRows[q], pCols[q], pMat[q]) == ToTriplets(spmat, nBus)[q]
      ensures rc != 0 ==> pRows[rc..] == old(pRows[rc..]) && pCols[rc..] == old(pCols[rc..]) && pMat[rc..] == old(pMat[rc..])
    {
      if |triplets| > 0 {
        ProcessTriplets();
      }
      if nNZ < |spmat.ai| || |spmat.ai| == 0 {
        return 0;
      }
      rc := |spmat.ai|;
      WriteTriplets(spmat, nBus, pRows, pCols, pMat);
    }

    /** `GetSize`: the number of nodes, which fits the `int` it is reported as. */
    function GetSize(): (r: nat)
      requires Valid()
      reads this
      ensures r == nBus && IsInt32(r)
    {
      nBus
    }

    /** `GetNNZ`: entries stored before factoring, a `uint32_t`. */
    function GetNNZ(): (r: nat)
      requires Valid()
      reads this
      ensures r == nzPre && r < UInt32
    {
      nzPre
    }

    /** `GetSparseNNZ`: the accumulated size of the factors, a `uint32_t`. */
    function GetSparseNNZ(): (r: nat)
      requires Valid()
      reads this
      ensures r == nzPost && r < UInt32
    {
      nzPost
    }

    /** `GetSingularCol`: the 1-based singular row of the last factoring, a `uint32_t`. */
    function GetSingularCol(): (r: nat)
      requires Valid()
      reads this
      ensures r == fltBus && r < UInt32
    {
      fltBus
    }
  }

  /** `memcpy` of a sequence into the front of a buffer: the first |src|
      slots become src, the rest keep their values. */
  method CopyPrefix<T>(src: seq<T>, dst: array<T>)
    requires |src| <= dst.Length
    modifies dst
    ensures dst[..|src|] == src && dst[|src|..] == old(dst[|src|..])
  {
    forall i | 0 <= i < |src| {
      dst[i] := src[i];
    }
    assert forall i :: |src| <= i < dst.Length ==> dst[i] == old(dst[i]);
  }

  /** Positions lo..hi-1 of the output hold the row, the column and the
      value of the stored entry at the same position. */
  ghost predicate Written(m: Csc, n: nat, rows: seq<int>, cols: seq<int>, vals: seq<Complex>, lo: int, hi: int)
    requires Shape(m, n) && 0 <= lo && hi <= |m.ai| && hi <= |rows| && hi <= |cols| && hi <= |vals|
  {
    forall q :: lo <= q < hi ==>
      && rows[q] == m.ai[q] && vals[q] == m.ax[q]
      && 0 <= cols[q] < n && m.ap[cols[q]] <= q < m.ap[cols[q] + 1]
  }

  /** Output written at every stored position is the triplet export. */
  lemma WrittenIsExport(m: Csc, n: nat, rows: seq<int>, cols: seq<int>, vals: seq<Complex>)
    requires Shape(m, n) && |m.ai| <= |rows| && |m.ai| <= |cols| && |m.ai| <= |vals|
    requires Written(m, n, rows, cols, vals, 0, |m.ai|)
    ensures forall q :: 0 <= q < |m.ai| ==> Triplet(rows[q], cols[q], vals[q]) == ToTriplets(m, n)[q]
  {
    forall q | 0 <= q < |m.ai| ensures Triplet(rows[q], cols[q], vals[q]) == ToTriplets(m, n)[q] {
      TripletsUpToAt(m, n, n, cols[q], q);
    }
  }

  /** The nested loop of `GetTripletMatrix`: for each column k and each
      stored entry of it, writes value, row and column at the next position. */
  method WriteTriplets(m: Csc, n: nat, pRows: array<int>, pCols: array<int>, pMat: array<Complex>)
    requires Shape(m, n) && |m.ai| <= pRows.Length && |m.ai| <= pCols.Length && |m.ai| <= pMat.Length
    requires pRows != pCols
    modifies pRows, pCols, pMat
    ensures forall q :: 0 <= q < |m.ai| ==> Triplet(pRows[q], pCols[q], pMat[q]) == ToTriplets(m, n)[q]
    ensures pRows[|m.ai|..] == old(pRows[|m.ai|..]) && pCols[|m.ai|..] == old(pCols[|m.ai|..])
    ensures pMat[|m.ai|..] == old(pMat[|m.ai|..])
  {
    var k := 0;
    while k < n
      invariant 0 <= k <= n
      invariant Written(m, n, pRows[..], pCols[..], pMat[..], 0, m.ap[k])
      invariant forall q :: m.ap[k] <= q < pRows.Length ==> pRows[q] == old(pRows[q])
      invariant forall q :: m.ap[k] <= q < pCols.Length ==> pCols[q] == old(pCols[q])
      invariant forall q :: m.ap[k] <= q < pMat.Length ==> pMat[q] == old(pMat[q])
    {
      assert m.ap[k] <= m.ap[k + 1] <= m.ap[n];
      WriteColumn(m, n, k, pRows, pCols, pMat);
      k := k + 1;
    }
    WrittenIsExport(m, n, pRows[..], pCols[..], pMat[..]);
  }

  /** The inner loop of `GetTripletMatrix`: the entries of column k, written
      at their own positions; every other position is left as it was. */
  method WriteColumn(m: Csc, n: nat, k: int, pRows: array<int>, pCols: array<int>, pMat: array<Complex>)
    requires Shape(m, n) && 0 <= k < n
    requires |m.ai| <= pRows.Length && |m.ai| <= pCols.Length && |m.ai| <= pMat.Length
    requires pRows != pCols
    modifies pRows, pCols, pMat
    ensures forall q :: m.ap[k] <= q < m.ap[k + 1] ==>
      pRows[q] == m.ai[q] && pCols[q] == k && pMat[q] == m.ax[q]
    ensures forall q :: 0 <= q < pRows.Length && !(m.ap[k] <= q < m.ap[k + 1]) ==> pRows[q] == old(pRows[q])
    ensures forall q :: 0 <= q < pCols.Length && !(m.ap[k] <= q < m.ap[k + 1]) ==> pCols[q] == old(pCols[q])
    ensures forall q :: 0 <= q < pMat.Length && !(m.ap[k] <= q < m.ap[k + 1]) ==> pMat[q] == old(pMat[q])
  {
    assert m.ap[k] <= m.ap[k + 1] <= m.ap[n];
    var w := m.ap[k];
    while w < m.ap[k + 1]
      invariant m.ap[k] <= w <= m.ap[k + 1]
      invariant forall q :: m.ap[k] <= q < w ==>
        pRows[q] == m.ai[q] && pCols[q] == k && pMat[q] == m.ax[q]
      invariant forall q :: 0 <= q < pRows.Length && !(m.ap[k] <= q < w) ==> pRows[q] == old(pRows[q])
      invariant forall q :: 0 <= q < pCols.Length && !(m.ap[k] <= q < w) ==> pCols[q] == old(pCols[q])
      invariant forall q :: 0 <= q < pMat.Length && !(m.ap[k] <= q < w) ==> pMat[q] == old(pMat[q])
    {
      pMat[w] := m.ax[w];
      pRows[w] := m.ai[w];
      pCols[w] := k;
      w := w + 1;
    }
  }
}
