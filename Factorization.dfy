/** The factorization-reuse policy of `KLUSystem::Factor`, with the KLU kernel
    as an oracle: a `Kernel` value says what each kernel call would report in
    this invocation, so every property below holds for every kernel behaviour. */
module Factorization {
  import opened Word

  /** The reuse tiers of the `options` field, in their numeric order
      (the enum is defined outside the modelled files; the default is 0). */
  const ReuseCompressedMatrix: nat := 1
  const ReuseSymbolicFactorization: nat := 2
  const ReuseNumericFactorization: nat := 3

  /** `Common.status` after a kernel call. */
  datatype Status = Ok | Singular | OutOfMemory | Invalid | TooLarge

  /** What one kernel call reports: status, `Common.singular_col` (KLU's EMPTY
      is -1), the fill-in `lnz + unz - n + Offp[n]` of the numeric object, and
      whether the call left a non-null handle. */
  datatype Outcome = Outcome(status: Status, singularCol: int, fill: nat, handle: bool)

  /** The oracle: outcomes of `klu_z_refactor` (its `Common.status` and,
      separately, whether it returned TRUE: with `halt_if_singular` off a
      refactor that meets a zero pivot returns TRUE with status SINGULAR),
      of `klu_z_factor` on the kept symbolic analysis, of `klu_analyze`
      (whether it returned a handle) and of the `klu_z_factor` that follows it. */
  datatype Kernel = Kernel(refactor: Outcome, refactorOk: bool, factor: Outcome, analyze: bool, full: Outcome)

  datatype Call = Refactor | NumericFactor | Analyze | FullFactor

  /** A kernel that reports success never leaves the numeric handle null
      (the source dereferences `Numeric` on success). */
  predicate HandlesCoherent(k: Kernel)
  {
    && (k.refactor.status == Ok ==> k.refactor.handle)
    && (k.factor.status == Ok ==> k.factor.handle)
    && (k.full.status == Ok ==> k.full.handle)
  }

  /** The part of `KLUSystem` that `Factor` reads and writes besides the matrix. */
  datatype FactorState = FactorState(symbolic: bool, numeric: bool, fltBus: nat, nzPost: nat)

  datatype FactorResult = FactorResult(rc: int, state: FactorState, calls: seq<Call>)

  /** `reuseSymbolic && options >= ReuseSymbolicFactorization`. */
  predicate SymbolicReuse(reuse: bool, options: nat)
  {
    reuse && options >= ReuseSymbolicFactorization
  }

  /** No triplets pending, tier not `ReuseCompressedMatrix`, no symbolic reuse:
      compression and factoring are taken as already done. */
  predicate CachedPath(pending: bool, options: nat, reuse: bool)
  {
    !pending && options != ReuseCompressedMatrix && !SymbolicReuse(reuse, options)
  }

  /** `m_fltBus` from the reported singular column: 1-based when inside the
      matrix, 0 otherwise (uint32 arithmetic). */
  function SingularBus(singularCol: int, rows: nat): nat
  {
    if singularCol < rows then (singularCol + 1) % UInt32 else 0
  }

  /** The status mapping at the end of `Factor`. */
  function Conclude(st: FactorState, out: Outcome, rows: nat, calls: seq<Call>): (r: FactorResult)
    ensures r.calls == calls && r.state.symbolic == st.symbolic && r.state.numeric == st.numeric
    ensures r.rc == 1 <==> out.status == Ok
    ensures r.rc == -1 <==> out.status == Singular
    ensures r.rc == 0 <==> out.status !in {Ok, Singular}
    ensures r.rc != 0 ==> r.state.fltBus == SingularBus(out.singularCol, rows)
    ensures r.rc == 0 ==>
              r.state.fltBus >= 1 &&
              (SingularBus(out.singularCol, rows) != 0 ==> r.state.fltBus == SingularBus(out.singularCol, rows))
    ensures r.state.nzPost == if r.rc == 1 then (st.nzPost + out.fill) % UInt32 else st.nzPost
  {
    var flt := SingularBus(out.singularCol, rows);
    match out.status
    case Ok => FactorResult(1, st.(fltBus := flt, nzPost := (st.nzPost + out.fill) % UInt32), calls)
    case Singular => FactorResult(-1, st.(fltBus := flt), calls)
    case _ => FactorResult(0, st.(fltBus := if flt == 0 then 1 else flt), calls)
  }

  /** The outcome that sets `Common.status` last in a call sequence. */
  function LastOutcome(k: Kernel, calls: seq<Call>): Outcome
    requires calls != []
  {
    match calls[|calls| - 1]
    case Refactor => k.refactor
    case NumericFactor => k.factor
    case _ => k.full
  }

  /** `KLUSystem::Factor` after the triplets have been compacted: decides
      between the cached outcome, a refactor, a numeric factor on the kept
      symbolic analysis, and a full analyze plus factor. */
  function Factor(pending: bool, options: nat, reuse: bool, st: FactorState, rows: nat, k: Kernel): (r: FactorResult)
    // the cached path: no kernel call, nothing changes, never 0
    ensures CachedPath(pending, options, reuse) ==>
      r.calls == [] && r.state == st && r.rc == (if st.fltBus != 0 then -1 else 1)
    // the four paths and when each is taken
    ensures !CachedPath(pending, options, reuse) ==>
              r.calls in {[Refactor], [NumericFactor], [Analyze, FullFactor],
                          [Refactor, Analyze, FullFactor], [NumericFactor, Analyze, FullFactor]}
    ensures (r.calls != [] && r.calls[0] == Refactor) <==>
      !CachedPath(pending, options, reuse) && SymbolicReuse(reuse, options) && st.symbolic &&
      st.numeric && options >= ReuseNumericFactorization
    ensures (r.calls != [] && r.calls[0] == NumericFactor) <==>
      !CachedPath(pending, options, reuse) && SymbolicReuse(reuse, options) && st.symbolic &&
      !(st.numeric && options >= ReuseNumericFactorization)
    // a refactor falls through to the full path exactly when it returns FALSE,
    // a numeric factor exactly when its status is not OK
    ensures r.calls != [] && r.calls[0] == Refactor ==> (r.calls == [Refactor] <==> k.refactorOk)
    ensures r.calls != [] && r.calls[0] == NumericFactor ==> (r.calls == [NumericFactor] <==> k.factor.status == Ok)
    // return code, singular bus and fill-in from the last kernel call
    ensures r.rc in {-1, 0, 1}
    ensures r.calls != [] ==>
      (r.rc == 1 <==> LastOutcome(k, r.calls).status == Ok) &&
      (r.rc == -1 <==> LastOutcome(k, r.calls).status == Singular) &&
      (r.rc == 0 ==> r.state.fltBus >= 1) &&
      (r.rc != 0 ==> r.state.fltBus == SingularBus(LastOutcome(k, r.calls).singularCol, rows)) &&
      r.state.nzPost == (if r.rc == 1 then (st.nzPost + LastOutcome(k, r.calls).fill) % UInt32 else st.nzPost)
    // handles kept, replaced or reported by the kernel
    ensures r.calls == [Refactor] ==> r.state.symbolic && r.state.numeric
    ensures r.calls == [NumericFactor] ==> r.state.symbolic && r.state.numeric == k.factor.handle
    ensures r.calls != [] && r.calls[|r.calls| - 1] == FullFactor ==>
      r.state.symbolic == k.analyze && r.state.numeric == k.full.handle
  {
    if CachedPath(pending, options, reuse) then
      FactorResult(if st.fltBus != 0 then -1 else 1, st, [])
    else
      var a := Run(SymbolicReuse(reuse, options), st, options, k);
      Conclude(st.(symbolic := a.symbolic, numeric := a.numeric), a.out, rows, a.calls)
  }

  /** With `halt_if_singular` off, a refactor can meet a zero pivot and still
      return TRUE: `Factor` then keeps it, makes no further call, keeps both
      handles and reports the singular bus through -1. */
  lemma SingularRefactorKept(pending: bool, options: nat, st: FactorState, rows: nat, k: Kernel)
    requires options >= ReuseNumericFactorization && st.symbolic && st.numeric
    requires k.refactorOk && k.refactor.status == Singular && k.refactor.singularCol < rows
    ensures var r := Factor(pending, options, true, st, rows, k);
      && r.calls == [Refactor] && r.rc == -1
      && r.state.symbolic && r.state.numeric
      && r.state.fltBus == (k.refactor.singularCol + 1) % UInt32
  {
  }

  /** The kernel calls of one factoring: the outcome that decides the
      result, the calls made and the handles left. */
  datatype Attempt = Attempt(out: Outcome, calls: seq<Call>, symbolic: bool, numeric: bool)

  /** The kernel calls after the freeing step: a refactor when both handles
      survive, a numeric factor on the kept analysis when only the symbolic
      one does, and the full analyze plus factor otherwise or after a failure. */
  function Run(symReuse: bool, st: FactorState, options: nat, k: Kernel): (a: Attempt)
    ensures a.calls in {[Refactor], [NumericFactor], [Analyze, FullFactor],
                        [Refactor, Analyze, FullFactor], [NumericFactor, Analyze, FullFactor]}
    // the reuse attempt made, if any
    ensures a.calls[0] == Refactor <==> symReuse && st.symbolic && st.numeric && options >= ReuseNumericFactorization
    ensures a.calls[0] == NumericFactor <==>
      symReuse && st.symbolic && !(st.numeric && options >= ReuseNumericFactorization)
    // when it is kept, and what it leaves
    ensures a.calls == [Refactor] <==> a.calls[0] == Refactor && k.refactorOk
    ensures a.calls == [NumericFactor] <==> a.calls[0] == NumericFactor && k.factor.status == Ok
    ensures a.calls == [Refactor] ==> a.out == k.refactor && a.symbolic && a.numeric
    ensures a.calls == [NumericFactor] ==> a.out == k.factor && a.symbolic && a.numeric == k.factor.handle
    // otherwise the full analyze plus factor decides
    ensures a.calls[|a.calls| - 1] == FullFactor ==>
      a.out == k.full && a.symbolic == k.analyze && a.numeric == k.full.handle
  {
    if symReuse && st.symbolic then
      if st.numeric && options >= ReuseNumericFactorization then
        if k.refactorOk then Attempt(k.refactor, [Refactor], true, true)
        else Attempt(k.full, [Refactor, Analyze, FullFactor], k.analyze, k.full.handle)
      else if k.factor.status == Ok then Attempt(k.factor, [NumericFactor], true, k.factor.handle)
      else Attempt(k.full, [NumericFactor, Analyze, FullFactor], k.analyze, k.full.handle)
    else Attempt(k.full, [Analyze, FullFactor], k.analyze, k.full.handle)
  }
}
