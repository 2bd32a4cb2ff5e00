/** The C entry points over a `KLUSystem` handle: each one returns 0 (or does
    nothing) for a null handle, and otherwise forwards to the system while
    maintaining the `bFactored` and `reuseSymbolic` flags. */
module KluSolve {
  import opened Word
  import opened ComplexArith
  import opened Sparse
  import opened Factorization
  import opened KluSystem
  import Islands

  const UInt64: nat := 0x1_0000_0000_0000_0000

  /** `SetOptions`: stores the options word unchanged. */
  method SetOptions(sys: KLUSystem?, opts: nat)
    requires opts < UInt64
    modifies sys
    ensures sys != null ==> sys.Snap() == old(sys.Snap()).(options := opts)
  {
    if sys == null {
      return;
    }
    sys.options := opts;
  }

  /** `NewSparseSet`: a fresh system of `nBus` nodes with default options. */
  method NewSparseSet(nBus: int) returns (sys: KLUSystem)
    requires 0 <= nBus <= Int32Max
    ensures fresh(sys) && sys.Valid()
    ensures sys.Snap() == Snapshot(Empty(nBus), [], FactorState(false, false, 0, 0), nBus, nBus, 0, 0, false, false)
  {
    sys := new KLUSystem();
    var _ := sys.Initialize(nBus);
  }

  /** `ZeroSparseSet`: empties the matrix, keeps the size and the options,
      and marks the system as not factored. */
  method ZeroSparseSet(sys: KLUSystem?) returns (rc: int)
    requires sys != null ==> sys.Valid()
    modifies sys
    ensures sys == null ==> rc == 0
    ensures sys != null ==>
      && rc == 1 && sys.Valid()
      && sys.Snap() == old(sys.Snap()).(spmat := Empty(sys.nBus), triplets := [], state := FactorState(false, false, 0, 0),
                                        nzPre := 0, factored := false)
  {
    if sys == null {
      return 0;
    }
    sys.Zero();
    sys.factored := false;
    return 1;
  }

  /** `FactorSparseMatrix`: 1 when the factoring succeeds and 2 otherwise,
      whether the kernel reported a singular matrix or a hard error. */
  method FactorSparseMatrix(sys: KLUSystem?, k: Kernel) returns (rc: int, ghost frc: int, ghost calls: seq<Call>)
    requires sys != null ==> sys.Valid() && HandlesCoherent(k)
    modifies sys
    ensures sys == null ==> rc == 0
    ensures sys != null ==>
      && sys.Valid() && sys.FactoredFrom(k, frc, calls)
      && rc == (if frc == 1 then 1 else 2)
      && sys.factored == (frc == 1)
      && sys.reuseSymbolic == (old(sys.reuseSymbolic) && frc != 1)
  {
    if sys == null {
      return 0, 0, [];
    }
    var code;
    code, frc, calls := sys.FactorSystem(k);
    if code == 0 {
      return 1, frc, calls;
    }
    return 2, frc, calls;
  }

  /** When `SolveSparseSet` factors first: the system is not factored, or a
      value edit asked for symbolic reuse and the options allow it. */
  predicate RefactorBeforeSolve(factored: bool, reuseSymbolic: bool, options: nat)
  {
    !factored || (reuseSymbolic && options >= ReuseSymbolicFactorization)
  }

  /** `SolveSparseSet`: factors when `RefactorBeforeSolve` holds, then solves
      into `x` when the system is factored (1) and leaves `x` alone
      otherwise (2). `solution` is what the kernel's solve writes. */
  method SolveSparseSet(sys: KLUSystem?, k: Kernel, x: array<Complex>, b: seq<Complex>, solution: seq<Complex>)
    returns (rc: int, ghost refactored: bool, ghost frc: int, ghost calls: seq<Call>)
    requires sys != null ==> sys.Valid() && HandlesCoherent(k) && x.Length >= sys.nBus && |b| >= sys.nBus && |solution| == sys.nBus
    modifies sys, x
    ensures sys == null ==> rc == 0 && x[..] == old(x[..])
    ensures sys != null ==>
      && sys.Valid()
      && refactored == RefactorBeforeSolve(old(sys.factored), old(sys.reuseSymbolic), old(sys.options))
      && (refactored ==> sys.FactoredFrom(k, frc, calls) && sys.factored == (frc == 1) &&
                         sys.reuseSymbolic == (old(sys.reuseSymbolic) && frc != 1))
      && (!refactored ==> sys.Snap() == old(sys.Snap()))
      && rc == (if sys.factored then 1 else 2)
      && (rc == 1 ==> x[..sys.nBus] == (if sys.nBus < 1 then b[..sys.nBus] else solution) &&
                      x[sys.nBus..] == old(x[sys.nBus..]))
      && (rc == 2 ==> x[..] == old(x[..]))
  {
    if sys == null {
      return 0, false, 0, [];
    }
    var factor := !sys.factored || (sys.reuseSymbolic && sys.options >= ReuseSymbolicFactorization);
    refactored := factor;
    frc, calls := 0, [];
    if factor {
      var code;
      code, frc, calls := sys.FactorSystem(k);
    }
    if sys.factored {
      sys.SolveSystem(x, b, solution);
      return 1, refactored, frc, calls;
    }
    return 2, refactored, frc, calls;
  }

  /** What `AddMatrixElement` does to the matrix and the triplets: `v` added
      at (i, j) and, off the diagonal, at (j, i) too. */
  function AddedSymmetric(m: Csc, ts: seq<Triplet>, n: nat, i: int, j: int, v: Complex): (r: Pair)
    requires WellFormed(m, n) && TripletsIn(ts, n) && n <= Int32Max && IsInt32(i) && IsInt32(j)
    ensures WellFormed(r.m, n) && TripletsIn(r.ts, n)
  {
    var p := Added(m, ts, n, i, j, v);
    if i != j then Added(p.m, p.ts, n, j, i, v) else p
  }

  /** The symmetric add: a compressed matrix gains `v` at (i-1, j-1) and at
      (j-1, i-1), once on the diagonal, and nowhere else; an empty matrix
      collects one or two triplets; anything refused changes nothing. */
  lemma AddedSymmetricMeans(m: Csc, ts: seq<Triplet>, n: nat, i: int, j: int, v: Complex)
    requires WellFormed(m, n) && TripletsIn(ts, n) && n <= Int32Max && IsInt32(i) && IsInt32(j)
    ensures var r := AddedSymmetric(m, ts, n, i, j, v);
      && (!(1 <= i <= n && 1 <= j <= n && !IsZero(v)) ==> r == Pair(m, ts))
      && (1 <= i <= n && 1 <= j <= n && !IsZero(v) && |m.ai| == 0 ==>
            r == Pair(m, ts + [Triplet(i - 1, j - 1, v)] + (if i != j then [Triplet(j - 1, i - 1, v)] else [])))
      && (1 <= i <= n && 1 <= j <= n && !IsZero(v) && |m.ai| > 0 ==>
            r.ts == ts &&
            forall r', c' :: 0 <= r' < n && 0 <= c' < n ==>
              Coeff(r.m, n, r', c') ==
                if (r', c') == (i - 1, j - 1) || (r', c') == (j - 1, i - 1) then Add(Coeff(m, n, r', c'), v)
                else Coeff(m, n, r', c'))
  {
    if !(1 <= i <= n && 1 <= j <= n && !IsZero(v)) {
      SymmetricRefused(m, ts, n, i, j, v);
    } else if |m.ai| == 0 {
      SymmetricPending(m, ts, n, i, j, v);
    } else {
      SymmetricCompressed(m, ts, n, i, j, v);
    }
  }

  lemma SymmetricRefused(m: Csc, ts: seq<Triplet>, n: nat, i: int, j: int, v: Complex)
    requires WellFormed(m, n) && TripletsIn(ts, n) && n <= Int32Max && IsInt32(i) && IsInt32(j)
    requires !(1 <= i <= n && 1 <= j <= n && !IsZero(v))
    ensures AddedSymmetric(m, ts, n, i, j, v) == Pair(m, ts)
  {
    assert Added(m, ts, n, i, j, v) == Pair(m, ts);
  }

  lemma SymmetricPending(m: Csc, ts: seq<Triplet>, n: nat, i: int, j: int, v: Complex)
    requires WellFormed(m, n) && TripletsIn(ts, n) && n <= Int32Max && IsInt32(i) && IsInt32(j)
    requires 1 <= i <= n && 1 <= j <= n && !IsZero(v) && |m.ai| == 0
    ensures AddedSymmetric(m, ts, n, i, j, v) ==
      Pair(m, ts + [Triplet(i - 1, j - 1, v)] + (if i != j then [Triplet(j - 1, i - 1, v)] else []))
  {
    var p := Added(m, ts, n, i, j, v);
    assert p == Pair(m, ts + [Triplet(i - 1, j - 1, v)]);
  }

  lemma SymmetricCompressed(m: Csc, ts: seq<Triplet>, n: nat, i: int, j: int, v: Complex)
    requires WellFormed(m, n) && TripletsIn(ts, n) && n <= Int32Max && IsInt32(i) && IsInt32(j)
    requires 1 <= i <= n && 1 <= j <= n && !IsZero(v) && |m.ai| > 0
    ensures var r := AddedSymmetric(m, ts, n, i, j, v);
      r.ts == ts &&
      forall r', c' :: 0 <= r' < n && 0 <= c' < n ==>
        Coeff(r.m, n, r', c') ==
          if (r', c') == (i - 1, j - 1) || (r', c') == (j - 1, i - 1) then Add(Coeff(m, n, r', c'), v)
          else Coeff(m, n, r', c')
  {
    var p := Added(m, ts, n, i, j, v);
    assert p == Pair(AddCoeff(m, n, i - 1, j - 1, v), ts);
    if i != j {
      assert Stored(p.m, n, i - 1, j - 1);
      assert |p.m.ai| > 0 by {
        assert |ColRows(p.m, n, j - 1)| > 0;
      }
      assert AddedSymmetric(m, ts, n, i, j, v) == Pair(AddCoeff(p.m, n, j - 1, i - 1, v), ts);
      AddCoeffTwice(m, n, i - 1, j - 1, v);
    }
  }

  /** Adding `v` at (r, c) and then at (c, r), off the diagonal, changes
      exactly those two coefficients. */
  lemma AddCoeffTwice(m: Csc, n: nat, r: int, c: int, v: Complex)
    requires WellFormed(m, n) && 0 <= r < n && 0 <= c < n && r != c
    ensures var m2 := AddCoeff(AddCoeff(m, n, r, c, v), n, c, r, v);
      forall r', c' :: 0 <= r' < n && 0 <= c' < n ==>
        Coeff(m2, n, r', c') ==
          if (r', c') == (r, c) || (r', c') == (c, r) then Add(Coeff(m, n, r', c'), v) else Coeff(m, n, r', c')
  {
    var m1 := AddCoeff(m, n, r, c, v);
    var m2 := AddCoeff(m1, n, c, r, v);
    forall r', c' | 0 <= r' < n && 0 <= c' < n
      ensures Coeff(m2, n, r', c') ==
        if (r', c') == (r, c) || (r', c') == (c, r) then Add(Coeff(m, n, r', c'), v) else Coeff(m, n, r', c')
    {
      assert Coeff(m2, n, r', c') == if r' == c && c' == r then Add(Coeff(m1, n, c, r), v) else Coeff(m1, n, r', c');
      assert Coeff(m1, n, r', c') == if r' == r && c' == c then Add(Coeff(m, n, r, c), v) else Coeff(m, n, r', c');
    }
  }

  /** `AddMatrixElement`: the symmetric add, after which the system is no
      longer factored. */
  method AddMatrixElement(sys: KLUSystem?, i: int, j: int, v: Complex) returns (rc: int)
    requires IsInt32(i) && IsInt32(j)
    requires sys != null ==> sys.Valid()
    modifies sys
    ensures sys == null ==> rc == 0
    ensures sys != null ==>
      && rc == 1 && sys.Valid()
      && var p := AddedSymmetric(old(sys.spmat), old(sys.triplets), old(sys.nBus), i, j, v);
         sys.Snap() == old(sys.Snap()).(spmat := p.m, triplets := p.ts, factored := false)
  {
    if sys == null {
      return 0;
    }
    ghost var before := sys.Snap();
    sys.AddElement(i, j, v);
    ghost var once := Pair(sys.spmat, sys.triplets);
    assert once == Added(before.spmat, before.triplets, before.nBus, i, j, v);
    if i != j {
      sys.AddElement(j, i, v);
      assert Pair(sys.spmat, sys.triplets) == Added(once.m, once.ts, before.nBus, j, i, v);
    }
    assert Pair(sys.spmat, sys.triplets) == AddedSymmetric(before.spmat, before.triplets, before.nBus, i, j, v);
    sys.factored := false;
    assert sys.Snap() == before.(spmat := sys.spmat, triplets := sys.triplets, factored := false);
    return 1;
  }

  /** `GetMatrixElement`: the compressed value at the 1-based (i, j), zero
      outside the matrix; `cur` is left as it was for a null handle. */
  method GetMatrixElement(sys: KLUSystem?, i: int, j: int, cur: Complex) returns (rc: int, v: Complex)
    requires IsInt32(i) && IsInt32(j)
    requires sys != null ==> sys.Valid()
    ensures sys == null ==> rc == 0 && v == cur
    ensures sys != null ==>
      && rc == 1
      && v == if 1 <= i <= sys.nBus && 1 <= j <= sys.nBus then Coeff(sys.spmat, sys.nBus, i - 1, j - 1) else ComplexArith.Zero
  {
    if sys == null {
      return 0, cur;
    }
    return 1, sys.GetElement(i, j);
  }

  /** Whether the 1-based entry (i, j) can be edited in place. */
  ghost predicate Editable(sys: KLUSystem, i: int, j: int)
    requires sys.Valid()
    reads sys
  {
    sys.options >= ReuseCompressedMatrix && 1 <= i <= sys.nBus && 1 <= j <= sys.nBus &&
    Stored(sys.spmat, sys.nBus, i - 1, j - 1)
  }

  /** `IncrementMatrixElement`: a successful in-place add marks the system
      as not factored and asks for symbolic reuse; a refused one cancels
      symbolic reuse and leaves everything else alone. */
  method IncrementMatrixElement(sys: KLUSystem?, i: int, j: int, re: real, im: real) returns (rc: int)
    requires IsInt32(i) && IsInt32(j)
    requires sys != null ==> sys.Valid()
    modifies sys
    ensures sys == null ==> rc == 0
    ensures sys != null ==> sys.Valid() && (rc == 1 <==> old(Editable(sys, i, j))) && (rc == 0 || rc == 1)
    ensures sys != null && rc == 1 ==>
      && sys.Snap() == old(sys.Snap()).(spmat := sys.spmat, factored := false, reuseSymbolic := true)
      && ChangedAt(old(sys.spmat), sys.spmat, sys.nBus, i - 1, j - 1,
                   Add(Coeff(old(sys.spmat), sys.nBus, i - 1, j - 1), Complex(re, im)))
    ensures sys != null && rc == 0 ==> sys.Snap() == old(sys.Snap()).(reuseSymbolic := false)
  {
    if sys == null {
      return 0;
    }
    rc := sys.IncrementElement(i, j, re, im);
    if rc != 0 {
      sys.factored := false;
      sys.reuseSymbolic := true;
    } else {
      sys.reuseSymbolic := false;
    }
  }

  /** `ZeroiseMatrixElement`: as `IncrementMatrixElement`, with the entry
      set to zero instead. */
  method ZeroiseMatrixElement(sys: KLUSystem?, i: int, j: int) returns (rc: int)
    requires IsInt32(i) && IsInt32(j)
    requires sys != null ==> sys.Valid()
    modifies sys
    ensures sys == null ==> rc == 0
    ensures sys != null ==> sys.Valid() && (rc == 1 <==> old(Editable(sys, i, j))) && (rc == 0 || rc == 1)
    ensures sys != null && rc == 1 ==>
      && sys.Snap() == old(sys.Snap()).(spmat := sys.spmat, factored := false, reuseSymbolic := true)
      && ChangedAt(old(sys.spmat), sys.spmat, sys.nBus, i - 1, j - 1, ComplexArith.Zero)
    ensures sys != null && rc == 0 ==> sys.Snap() == old(sys.Snap()).(reuseSymbolic := false)
  {
    if sys == null {
      return 0;
    }
    rc := sys.ZeroiseElement(i, j);
    if rc != 0 {
      sys.factored := false;
      sys.reuseSymbolic := true;
    } else {
      sys.reuseSymbolic := false;
    }
  }

  /** `GetSize`: the node count, which always fits the `int` result. */
  method GetSize(sys: KLUSystem?) returns (rc: int, result: int)
    requires sys != null ==> sys.Valid()
    ensures sys == null ==> rc == 0 && result == 0
    ensures sys != null ==> rc == 1 && result == sys.nBus
  {
    if sys == null {
      return 0, 0;
    }
    return 1, ToInt32(sys.GetSize());
  }

  /** `GetNNZ`: the stored-entry count, converted to `int`, so a count above
      `Int32Max` is reported negative. */
  method GetNNZ(sys: KLUSystem?) returns (rc: int, result: int)
    requires sys != null ==> sys.Valid()
    ensures sys == null ==> rc == 0 && result == 0
    ensures sys != null ==>
      && rc == 1 && IsInt32(result) && ToUInt32(result) == sys.nzPre
      && (result < 0 <==> sys.nzPre > Int32Max)
  {
    if sys == null {
      return 0, 0;
    }
    return 1, ToInt32(sys.GetNNZ());
  }

  /** `GetSparseNNZ`: the accumulated factor size, converted to `int`. */
  method GetSparseNNZ(sys: KLUSystem?) returns (rc: int, result: int)
    requires sys != null ==> sys.Valid()
    ensures sys == null ==> rc == 0 && result == 0
    ensures sys != null ==>
      && rc == 1 && IsInt32(result) && ToUInt32(result) == sys.nzPost
      && (result < 0 <==> sys.nzPost > Int32Max)
  {
    if sys == null {
      return 0, 0;
    }
    return 1, ToInt32(sys.GetSparseNNZ());
  }

  /** `GetSingularCol`: the singular row of the last factoring, converted to `int`. */
  method GetSingularCol(sys: KLUSystem?) returns (rc: int, result: int)
    requires sys != null ==> sys.Valid()
    ensures sys == null ==> rc == 0 && result == 0
    ensures sys != null ==>
      && rc == 1 && IsInt32(result) && ToUInt32(result) == sys.fltBus
      && (result < 0 <==> sys.fltBus > Int32Max)
  {
    if sys == null {
      return 0, 0;
    }
    return 1, ToInt32(sys.GetSingularCol());
  }

  /** `AddPrimitiveMatrix`: the stamp, after which the system is neither
      factored nor up for symbolic reuse, even when the stamp was refused. */
  method AddPrimitiveMatrix(sys: KLUSystem?, nOrder: int, pNodes: seq<int>, pMat: seq<Complex>) returns (rc: int)
    requires nOrder <= |pNodes| && (nOrder > 0 ==> nOrder * nOrder <= |pMat|)
    requires forall i :: 0 <= i < |pNodes| ==> IsInt32(pNodes[i])
    requires sys != null ==> sys.Valid()
    modifies sys
    ensures sys == null ==> rc == 0
    ensures sys != null ==>
      && sys.Valid() && rc == (if NodesFit(pNodes, nOrder, sys.nBus) then 1 else 0)
      && sys.Snap() == old(sys.Snap()).(triplets := if rc == 1 then old(sys.triplets) + Stamp(pNodes, pMat, nOrder) else old(sys.triplets),
                                        factored := false, reuseSymbolic := false)
  {
    if sys == null {
      return 0;
    }
    rc := sys.AddPrimitiveMatrix(nOrder, pNodes, pMat);
    sys.factored := false;
    sys.reuseSymbolic := false;
  }

  /** `GetCompressedMatrix`: 1 when the matrix was copied out, 2 when the
      buffers are too small or the matrix is empty. */
  method GetCompressedMatrix(sys: KLUSystem?, nColP: int, nNZ: int, pColP: array<int>, pRowIdx: array<int>, pMat: array<Complex>)
    returns (rc: int)
    requires IsInt32(nColP) && IsInt32(nNZ) && pColP != pRowIdx
    requires nNZ <= pRowIdx.Length && nNZ <= pMat.Length && nColP <= pColP.Length
    requires sys != null ==> sys.Valid()
    modifies sys, pColP, pRowIdx, pMat
    ensures sys == null ==> rc == 0 && pColP[..] == old(pColP[..]) && pRowIdx[..] == old(pRowIdx[..]) && pMat[..] == old(pMat[..])
    ensures sys != null ==>
      && sys.Valid()
      && sys.Compacted()
      && rc == (if CompressedRefused(nNZ, nColP, |sys.spmat.ai|, sys.nBus) then 2 else 1)
      && (rc == 2 ==> pColP[..] == old(pColP[..]) && pRowIdx[..] == old(pRowIdx[..]) && pMat[..] == old(pMat[..]))
      && (rc == 1 ==> pColP[..sys.nBus + 1] == sys.spmat.ap && pRowIdx[..|sys.spmat.ai|] == sys.spmat.ai &&
                      pMat[..|sys.spmat.ai|] == sys.spmat.ax)
      && (rc == 1 ==> pColP[sys.nBus + 1..] == old(pColP[..])[sys.nBus + 1..] &&
                      pRowIdx[|sys.spmat.ai|..] == old(pRowIdx[..])[|sys.spmat.ai|..] &&
                      pMat[|sys.spmat.ai|..] == old(pMat[..])[|sys.spmat.ai|..])
  {
    if sys == null {
      return 0;
    }
    var n := sys.GetCompressedMatrix(nColP, nNZ, pColP, pRowIdx, pMat);
    if n != 0 {
      return 1;
    }
    return 2;
  }

  /** `GetTripletMatrix`: 1 when every stored entry was written out as a
      triplet, 2 when the buffers are too small or the matrix is empty. */
  method GetTripletMatrix(sys: KLUSystem?, nNZ: int, pRows: array<int>, pCols: array<int>, pMat: array<Complex>) returns (rc: int)
    requires IsInt32(nNZ) && pRows != pCols
    requires nNZ <= pRows.Length && nNZ <= pCols.Length && nNZ <= pMat.Length
    requires sys != null ==> sys.Valid()
    modifies sys, pRows, pCols, pMat
    ensures sys == null ==> rc == 0 && pRows[..] == old(pRows[..]) && pCols[..] == old(pCols[..]) && pMat[..] == old(pMat[..])
    ensures sys != null ==>
      && sys.Valid()
      && sys.Compacted()
      && rc == (if nNZ < |sys.spmat.ai| || |sys.spmat.ai| == 0 then 2 else 1)
      && (rc == 2 ==> pRows[..] == old(pRows[..]) && pCols[..] == old(pCols[..]) && pMat[..] == old(pMat[..]))
      && (rc == 1 ==> forall q :: 0 <= q < |sys.spmat.ai| ==>
                        Triplet(pRows[q], pCols[q], pMat[q]) == ToTriplets(sys.spmat, sys.nBus)[q])
      && (rc == 1 ==> pRows[|sys.spmat.ai|..] == old(pRows[..])[|sys.spmat.ai|..] &&
                      pCols[|sys.spmat.ai|..] == old(pCols[..])[|sys.spmat.ai|..] &&
                      pMat[|sys.spmat.ai|..] == old(pMat[..])[|sys.spmat.ai|..])
  {
    if sys == null {
      return 0;
    }
    var n := sys.GetTripletMatrix(nNZ, pRows, pCols, pMat);
    if n != 0 {
      return 1;
    }
    return 2;
  }

  /** The size check of the `FindIslands` entry point as written:
      `nOrder >= GetSize()` compares an `int` with a `uint32_t`. */
  predicate IslandsAcceptedAsWritten(nOrder: int, size: nat)
    // every negative buffer length passes
    ensures IsInt32(nOrder) && size <= Int32Max ==>
      (IslandsAcceptedAsWritten(nOrder, size) <==> nOrder < 0 || nOrder >= size)
  {
    AtLeastUnsigned(nOrder, size)
  }

  /** A buffer declared with -1 entries passes the check as written for a
      one-node system, which then writes one island number into it; the
      signed check refuses it. */
  lemma NegativeIslandBufferAccepted()
    ensures IslandsAcceptedAsWritten(-1, 1) && !AtLeast(-1, 1)
  {
    assert ToUInt32(-1) == UInt32 - 1;
  }

  /** `FindIslands`: with a buffer of at least `GetSize()` entries (checked
      signed), factors and labels every node with its island number and
      returns the island count; 0 and no change otherwise. */
  method FindIslands(sys: KLUSystem?, nOrder: int, pNodes: array<int>, k: Kernel)
    returns (rc: int, ghost frc: int, ghost calls: seq<Call>)
    requires IsInt32(nOrder) && (0 <= nOrder ==> nOrder <= pNodes.Length)
    requires sys != null ==> sys.Valid() && HandlesCoherent(k)
    modifies sys, pNodes
    ensures sys == null || !AtLeast(nOrder, old(sys.nBus)) ==>
      rc == 0 && pNodes[..] == old(pNodes[..]) && (sys != null ==> sys.Snap() == old(sys.Snap()))
    ensures sys != null && AtLeast(nOrder, old(sys.nBus)) ==>
      && sys.Valid() && sys.FactoredFrom(k, frc, calls)
      && sys.factored == old(sys.factored) && sys.reuseSymbolic == old(sys.reuseSymbolic)
      && 0 <= rc <= sys.nBus
      && (forall x :: 0 <= x < sys.nBus ==> 1 <= pNodes[x] <= rc)
      && (forall c :: 1 <= c <= rc ==> Islands.HasRoot(pNodes[..sys.nBus], c))
      && (forall x, p :: Islands.Edge(sys.spmat, sys.nBus, x, p) ==> pNodes[sys.spmat.ai[p]] <= pNodes[x])
      && (forall x :: 0 <= x < sys.nBus ==> Islands.ReachedFromRoot(sys.spmat, sys.nBus, pNodes[..sys.nBus], x))
      && pNodes[sys.nBus..] == old(pNodes[sys.nBus..])
  {
    if sys == null {
      return 0, 0, [];
    }
    if !AtLeast(nOrder, sys.GetSize()) {
      return 0, 0, [];
    }
    rc, frc, calls := sys.FindIslands(k, pNodes);
  }
}
