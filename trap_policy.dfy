/** The trap history kept in a MethodData, query_update_method_data, and the
    recompilation policy of uncommon_trap_inner.

    The MethodData keeps a trap count per reason (the upper half of the
    history for traps of OSR compilations by JVMCI), the number of
    decompilations, a trap state per bytecode index, and the counts of
    recompilations past the per-bytecode limit and of tenure traps. */
module TrapPolicy {
  import opened MachineWords
  import opened DeoptEnums
  import opened TrapState

  datatype Option<T> = None | Some(value: T)

  /** The outputs of query_update_method_data. */
  datatype QueryResult = QueryResult(thisTrapCount: nat, maybePriorTrap: bool, maybePriorRecompile: bool)

  /** The index into the trap history: the upper half holds OSR traps. */
  function HistoryIndex(reason: nat, isOsr: bool, historyLength: nat): (idx: nat)
    ensures idx == reason || idx == reason + historyLength
    ensures reason < historyLength ==> (idx < historyLength <==> !isOsr)
  {
    if isOsr then reason + historyLength else reason
  }

  /** The per-bytecode datum that allocate_bci_to_data yields for a
      per-bytecode reason: the existing trap state of the bci, a fresh empty
      one when a spare slot is left, or none. */
  function PerBciState(states: map<int, u32>, spares: nat, bci: int, perBcReason: int): (d: Option<u32>)
    ensures perBcReason == ReasonNone ==> d.None?
    ensures bci in states && perBcReason != ReasonNone ==> d == Some(states[bci])
    ensures d.Some? && bci !in states ==> d.value == 0 && spares > 0
  {
    if perBcReason == ReasonNone then None
    else if bci in states then Some(states[bci])
    else if spares > 0 then Some(0)
    else None
  }

  /** The flags query_update_method_data reports. Counting sets them from the
      method-wide history; a per-bytecode datum can only clear them. */
  function QueryFlags(update: bool, priorCount: nat, decompileCount: nat, pdata: Option<u32>, perBcReason: int): (q: QueryResult)
    requires perBcReason == ReasonNone || ReasonIsRecordedPerBytecode(perBcReason)
    ensures q.thisTrapCount == if update then priorCount + 1 else 0
    ensures q.maybePriorTrap <==>
              update && priorCount != 0
              && (pdata.Some? && perBcReason != ReasonNone ==> TrapStateHasReason(pdata.value, perBcReason) != 0)
    ensures q.maybePriorRecompile <==>
              update && decompileCount != 0
              && (pdata.Some? && perBcReason != ReasonNone ==> TrapStateIsRecompiled(pdata.value))
  {
    var counted := if update then priorCount + 1 else 0;
    var trap := update && priorCount != 0;
    var recompile := update && decompileCount != 0;
    match pdata
    case None => QueryResult(counted, trap, recompile)
    case Some(s) =>
      if perBcReason == ReasonNone then QueryResult(counted, trap, recompile)
      else QueryResult(counted, trap && TrapStateHasReason(s, perBcReason) != 0,
                       recompile && TrapStateIsRecompiled(s))
  }

  /** A trap at a bci that was counted and recorded is seen as a prior trap
      by the next counted query at that bci for the same reason. */
  lemma RepeatedTrapIsSeen(s: u32, priorCount: nat, decompileCount: nat, perBcReason: int)
    requires ReasonIsRecordedPerBytecode(perBcReason)
    ensures var s1 := TrapStateAddReason(s, perBcReason);
            QueryFlags(true, priorCount + 1, decompileCount, Some(s1), perBcReason).maybePriorTrap
  {
    AddReasonMeet(s, perBcReason);
    var s1 := TrapStateAddReason(s, perBcReason);
    HasReasonAgreesWithReason(s1, perBcReason);
  }

  class MethodData {
    /** Reason_TRAP_HISTORY_LENGTH. */
    const historyLength: nat
    const jvmci: bool
    var trapHist: seq<nat>
    var decompileCount: nat
    /** The trap state of each bci that has profile data. */
    var trapStates: map<int, u32>
    /** Free slots of the extra data section. */
    var spareSlots: nat
    var overflowRecompileCount: nat
    var tenureTraps: nat

    ghost predicate Valid()
      reads this
    {
      |trapHist| == (if jvmci then 2 * historyLength else historyLength)
      && forall bci | bci in trapStates :: WellFormed(trapStates[bci])
    }

    /** A new MethodData: no traps, no per-bci data yet. */
    constructor (historyLength: nat, jvmci: bool, spareSlots: nat)
      ensures Valid() && this.historyLength == historyLength && this.jvmci == jvmci
      ensures forall i | 0 <= i < |trapHist| :: trapHist[i] == 0
      ensures decompileCount == 0 && trapStates == map[] && this.spareSlots == spareSlots
      ensures overflowRecompileCount == 0 && tenureTraps == 0
    {
      this.historyLength := historyLength;
      this.jvmci := jvmci;
      trapHist := seq(if jvmci then 2 * historyLength else historyLength, i => 0);
      decompileCount := 0;
      trapStates := map[];
      this.spareSlots := spareSlots;
      overflowRecompileCount := 0;
      tenureTraps := 0;
    }

    /** query_update_method_data. */
    method QueryUpdate(trapBci: int, reason: nat, perBcReason: int, updateTotalTrapCount: bool, isOsr: bool)
      returns (q: QueryResult, hasData: bool)
      requires Valid() && reason < historyLength && (isOsr ==> jvmci)
      requires perBcReason == ReasonNone || ReasonIsRecordedPerBytecode(perBcReason)
      requires perBcReason != ReasonNone || updateTotalTrapCount
      modifies this
      ensures Valid()
      ensures var idx := HistoryIndex(reason, isOsr, historyLength);
              idx < |old(trapHist)|
              && trapHist == (if updateTotalTrapCount then old(trapHist)[idx := old(trapHist)[idx] + 1] else old(trapHist))
              && var pdata := PerBciState(old(trapStates), old(spareSlots), trapBci, perBcReason);
                 hasData == pdata.Some?
                 && q == QueryFlags(updateTotalTrapCount, old(trapHist)[idx], decompileCount, pdata, perBcReason)
                 && trapStates == (if pdata.Some? then old(trapStates)[trapBci := TrapStateAddReason(pdata.value, perBcReason)]
                                   else old(trapStates))
      ensures spareSlots == if perBcReason != ReasonNone && trapBci !in old(trapStates) && old(spareSlots) > 0
                            then old(spareSlots) - 1 else old(spareSlots)
      ensures decompileCount == old(decompileCount) && overflowRecompileCount == old(overflowRecompileCount)
      ensures tenureTraps == old(tenureTraps)
    {
      var maybePriorTrap := false;
      var maybePriorRecompile := false;
      var thisTrapCount := 0;
      if updateTotalTrapCount {
        var priorTrapCount := CountTrap(reason, isOsr);
        thisTrapCount := priorTrapCount + 1;
        maybePriorTrap := priorTrapCount != 0;
        maybePriorRecompile := decompileCount != 0;
      }
      hasData := false;
      if perBcReason != ReasonNone {
        var hadReason, wasRecompiled;
        hasData, hadReason, wasRecompiled := RecordPerBci(trapBci, perBcReason);
        if hasData {
          if !hadReason {
            maybePriorTrap := false;
          }
          if !wasRecompiled {
            maybePriorRecompile := false;
          }
        }
      }
      q := QueryResult(thisTrapCount, maybePriorTrap, maybePriorRecompile);
    }

    /** Count a trap of `reason` in the history; the count before it is returned. */
    method CountTrap(reason: nat, isOsr: bool) returns (prior: nat)
      requires Valid() && reason < historyLength && (isOsr ==> jvmci)
      modifies this
      ensures Valid()
      ensures var idx := HistoryIndex(reason, isOsr, historyLength);
              idx < |old(trapHist)| && prior == old(trapHist)[idx]
              && trapHist == old(trapHist)[idx := prior + 1]
      ensures trapStates == old(trapStates) && spareSlots == old(spareSlots) && decompileCount == old(decompileCount)
      ensures overflowRecompileCount == old(overflowRecompileCount) && tenureTraps == old(tenureTraps)
    {
      var idx := reason;
      if isOsr {
        idx := idx + historyLength;
      }
      prior := trapHist[idx];
      trapHist := trapHist[idx := trapHist[idx] + 1];
    }

    /** The per-bytecode part of the query: find or allocate the bci's datum,
        report whether it already had the reason and the recompiled bit, and
        add the reason to it. */
    method RecordPerBci(trapBci: int, perBcReason: int) returns (found: bool, hadReason: bool, wasRecompiled: bool)
      requires Valid() && ReasonIsRecordedPerBytecode(perBcReason)
      modifies this
      ensures Valid()
      ensures var pdata := PerBciState(old(trapStates), old(spareSlots), trapBci, perBcReason);
              found == pdata.Some?
              && (found ==> hadReason == (TrapStateHasReason(pdata.value, perBcReason) != 0)
                            && wasRecompiled == TrapStateIsRecompiled(pdata.value))
              && trapStates == (if pdata.Some? then old(trapStates)[trapBci := TrapStateAddReason(pdata.value, perBcReason)]
                                else old(trapStates))
      ensures spareSlots == if trapBci !in old(trapStates) && old(spareSlots) > 0
                            then old(spareSlots) - 1 else old(spareSlots)
      ensures trapHist == old(trapHist) && decompileCount == old(decompileCount)
      ensures overflowRecompileCount == old(overflowRecompileCount) && tenureTraps == old(tenureTraps)
    {
      hadReason, wasRecompiled := false, false;
      found := AllocateBciToData(trapBci);
      if found {
        var tstate0 := trapStates[trapBci];
        hadReason := TrapStateHasReason(tstate0, perBcReason) != 0;
        wasRecompiled := TrapStateIsRecompiled(tstate0);
        var tstate1 := TrapStateAddReason(tstate0, perBcReason);
        if tstate1 != tstate0 {
          trapStates := trapStates[trapBci := tstate1];
        }
        AddReasonWellFormed(tstate0, perBcReason);
      }
    }

    /** allocate_bci_to_data: the bci's profile data, or a fresh datum with
        an empty trap state from a spare slot, or none when no slot is left. */
    method AllocateBciToData(trapBci: int) returns (found: bool)
      requires Valid()
      modifies this
      ensures Valid()
      ensures found <==> trapBci in old(trapStates) || old(spareSlots) > 0
      ensures found <==> trapBci in trapStates
      ensures trapStates == if trapBci !in old(trapStates) && old(spareSlots) > 0
                            then old(trapStates)[trapBci := 0] else old(trapStates)
      ensures spareSlots == if trapBci !in old(trapStates) && old(spareSlots) > 0
                            then old(spareSlots) - 1 else old(spareSlots)
      ensures trapHist == old(trapHist) && decompileCount == old(decompileCount)
      ensures overflowRecompileCount == old(overflowRecompileCount) && tenureTraps == old(tenureTraps)
    {
      found := trapBci in trapStates;
      if !found && spareSlots > 0 {
        trapStates := trapStates[trapBci := 0];
        spareSlots := spareSlots - 1;
        found := true;
      }
    }

    /** Record the recompilation in the bci's trap state, as the policy does
        after a successful make_not_entrant. */
    method SetRecompiled(trapBci: int)
      requires Valid() && trapBci in trapStates
      modifies this
      ensures Valid()
      ensures trapStates == old(trapStates)[trapBci := TrapStateSetRecompiled(old(trapStates)[trapBci], true)]
      ensures trapHist == old(trapHist) && decompileCount == old(decompileCount) && spareSlots == old(spareSlots)
      ensures overflowRecompileCount == old(overflowRecompileCount) && tenureTraps == old(tenureTraps)
    {
      var tstate0 := trapStates[trapBci];
      var tstate1 := TrapStateSetRecompiled(tstate0, true);
      SetRecompiledWellFormed(tstate0, true);
      if tstate1 != tstate0 {
        trapStates := trapStates[trapBci := tstate1];
      }
    }
  }

  // ---------------------------------------------------------------------------
  // The policy block of uncommon_trap_inner.

  /** What uncommon_trap_inner knows about the trap and reads from flags and
      the compiled method. Limits are `intx` flags compared as `uint`. */
  datatype TrapContext = TrapContext(
    reason: int,
    action: int,
    jvmci: bool,
    /** trap_method->has_injected_profile() */
    hasInjectedProfile: bool,
    /** ProfileTraps && CompilerConfig::is_c2_or_jvmci_compiler_enabled() */
    profiling: bool,
    /** nm->jvmci_skip_profile_deopt() */
    skipProfileDeopt: bool,
    /** nm->is_compiled_by_jvmci() && nm->is_osr_method() */
    osrByJvmci: bool,
    trapBci: int,
    /** reason_recorded_per_bytecode_if_any(reason) */
    perBcReason: int,
    /** per_method_trap_limit(reason) */
    perMethodTrapLimit: u32,
    /** PerBytecodeTrapLimit */
    perBytecodeTrapLimit: int,
    /** PerBytecodeRecompilationCutoff */
    perBytecodeRecompilationCutoff: int,
    /** trap_method() == nm->method() */
    trapMethodIsCompiledMethod: bool)

  predicate ValidContext(ctx: TrapContext)
  {
    0 <= ctx.reason < ReasonLimit(ctx.jvmci) && 0 <= ctx.action < ActionLimit
    && (ctx.perBcReason == ReasonNone || ReasonIsRecordedPerBytecode(ctx.perBcReason))
    && (ReasonIsRecordedPerBytecode(ctx.reason) ==> ctx.perBcReason == ctx.reason)
    && (ctx.osrByJvmci ==> ctx.jvmci)
    && (ctx.skipProfileDeopt ==> ctx.jvmci)
  }

  /** The local flags of the policy when it finishes, and whether it returned
      early because make_not_entrant did not change the nmethod. */
  datatype PolicyOutcome = PolicyOutcome(
    updateTrapState: bool,
    makeNotEntrant: bool,
    makeNotCompilable: bool,
    reprofile: bool,
    incRecompileCount: bool,
    returnedEarly: bool,
    /** set_not_compilable on the inlined trap method, sparing the compiled one. */
    trapMethodNotCompilable: bool)

  /** The trap state is updated unless the action is Action_none, the reason
      is Reason_tenured, the trap comes from an injected profile, or JVMCI
      asks to skip profiling. */
  function UpdatesTrapState(ctx: TrapContext): (u: bool)
    requires ValidContext(ctx)
    ensures u ==> ctx.action != ActionNone && ctx.reason != ReasonTenured(ctx.jvmci)
    ensures u ==> !(ctx.hasInjectedProfile && (ctx.reason == ReasonIntrinsic || ctx.reason == ReasonUnreached))
    ensures u ==> !ctx.skipProfileDeopt
  {
    var injected := ctx.hasInjectedProfile && (ctx.reason == ReasonIntrinsic || ctx.reason == ReasonUnreached);
    ctx.action != ActionNone && ctx.reason != ReasonTenured(ctx.jvmci) && !injected && !ctx.skipProfileDeopt
  }

  /** Whether the MethodData is queried and updated at all. */
  predicate Queries(ctx: TrapContext, hasMdo: bool)
    requires ValidContext(ctx)
  {
    ctx.profiling && UpdatesTrapState(ctx) && hasMdo
  }

  /** The flags the policy has settled on before it calls make_not_entrant. */
  datatype TrapFlags = TrapFlags(
    updateTrapState: bool,
    makeNotEntrant: bool,
    makeNotCompilable: bool,
    reprofile: bool,
    incRecompileCount: bool)

  /** The flags in closed form: the action's own, then those the trap history
      forces when it was queried. */
  function DecisionFlags(ctx: TrapContext, queried: bool, q: QueryResult): (f: TrapFlags)
    requires ValidContext(ctx)
    ensures f.updateTrapState == UpdatesTrapState(ctx)
    ensures f.makeNotCompilable <==> ctx.action == ActionMakeNotCompilable
    ensures f.makeNotCompilable ==> f.makeNotEntrant
    ensures !queried ==> (f.makeNotEntrant <==> ctx.action >= ActionReinterpret) && !f.incRecompileCount
  {
    var byAction := ctx.action >= ActionReinterpret;
    var perBc := ctx.perBcReason != ReasonNone;
    var bciForced := perBc && q.maybePriorTrap && q.thisTrapCount >= Wrap32(ctx.perBytecodeTrapLimit);
    var methodForced := q.thisTrapCount >= ctx.perMethodTrapLimit;
    var mne := byAction || (queried && (!perBc || bciForced || methodForced));
    TrapFlags(
      updateTrapState := UpdatesTrapState(ctx),
      makeNotEntrant := mne,
      makeNotCompilable := ctx.action == ActionMakeNotCompilable,
      reprofile := ctx.action == ActionReinterpret || (queried && mne && q.maybePriorRecompile && q.maybePriorTrap),
      incRecompileCount := queried && perBc && (byAction || bciForced) && q.maybePriorRecompile && q.maybePriorTrap)
  }

  /** What happens once the flags are settled: a failed make_not_entrant ends
      the policy, and a recompilation past the cutoff gives up on the method. */
  function FinishDecision(ctx: TrapContext, f: TrapFlags, succeeds: bool, overflowBefore: nat): (out: PolicyOutcome)
    ensures out.returnedEarly <==> f.makeNotEntrant && !succeeds
    ensures out.makeNotEntrant == f.makeNotEntrant && out.reprofile == f.reprofile
    ensures out.incRecompileCount == f.incRecompileCount && out.updateTrapState == f.updateTrapState
    ensures f.makeNotCompilable ==> out.makeNotCompilable
  {
    var early := f.makeNotEntrant && !succeeds;
    var overCutoff := f.incRecompileCount && !early && overflowBefore + 1 > Wrap32(ctx.perBytecodeRecompilationCutoff);
    PolicyOutcome(
      updateTrapState := f.updateTrapState,
      makeNotEntrant := f.makeNotEntrant,
      makeNotCompilable := f.makeNotCompilable || (overCutoff && ctx.trapMethodIsCompiledMethod),
      reprofile := f.reprofile,
      incRecompileCount := f.incRecompileCount,
      returnedEarly := early,
      trapMethodNotCompilable := overCutoff && !ctx.trapMethodIsCompiledMethod)
  }

  /** The policy in closed form, from the query's results, the success of
      make_not_entrant and the overflow recompile count before the trap. */
  function PolicyDecision(ctx: TrapContext, queried: bool, q: QueryResult, succeeds: bool, overflowBefore: nat): (out: PolicyOutcome)
    requires ValidContext(ctx)
    // Action_make_not_compilable gives up on the code as well.
    ensures out.makeNotCompilable ==> out.makeNotEntrant
    // Every forcing condition of the history invalidates the code.
    ensures (queried && ctx.perBcReason != ReasonNone && q.maybePriorTrap
             && q.thisTrapCount >= Wrap32(ctx.perBytecodeTrapLimit)) ==> out.makeNotEntrant
    ensures queried && ctx.perBcReason == ReasonNone ==> out.makeNotEntrant
    ensures queried && q.thisTrapCount >= ctx.perMethodTrapLimit ==> out.makeNotEntrant
    // Without the history, only the action invalidates the code.
    ensures !queried ==> (out.makeNotEntrant <==> ctx.action >= ActionReinterpret)
    ensures queried && out.makeNotEntrant && q.maybePriorRecompile && q.maybePriorTrap ==> out.reprofile
    ensures out.incRecompileCount ==> queried && q.maybePriorRecompile && q.maybePriorTrap && out.makeNotEntrant
    // A failed make_not_entrant ends the policy at once.
    ensures out.returnedEarly <==> out.makeNotEntrant && !succeeds
    ensures out.trapMethodNotCompilable ==> !out.returnedEarly && out.incRecompileCount && !ctx.trapMethodIsCompiledMethod
    ensures !out.returnedEarly && out.incRecompileCount && overflowBefore + 1 > Wrap32(ctx.perBytecodeRecompilationCutoff) ==>
              (if ctx.trapMethodIsCompiledMethod then out.makeNotCompilable else out.trapMethodNotCompilable)
  {
    FinishDecision(ctx, DecisionFlags(ctx, queried, q), succeeds, overflowBefore)
  }

  /** The part of the policy that reads and updates the trap history: query
      the MethodData, then force invalidation on a hot bci, a reason not
      recorded per bytecode or too many traps in the method. */
  method ConsultHistory(ctx: TrapContext, mdo: MethodData, makeNotEntrant: bool, reprofile: bool)
    returns (q: QueryResult, hasData: bool, makeNotEntrant': bool, incRecompileCount: bool, reprofile': bool)
    requires ValidContext(ctx) && mdo.Valid() && mdo.jvmci == ctx.jvmci && ctx.reason < mdo.historyLength
    modifies mdo
    ensures mdo.Valid()
    ensures var idx := HistoryIndex(ctx.reason, ctx.osrByJvmci, mdo.historyLength);
            idx < |old(mdo.trapHist)|
            && mdo.trapHist == old(mdo.trapHist)[idx := old(mdo.trapHist)[idx] + 1]
            && var pdata := PerBciState(old(mdo.trapStates), old(mdo.spareSlots), ctx.trapBci, ctx.perBcReason);
               hasData == pdata.Some?
               && q == QueryFlags(true, old(mdo.trapHist)[idx], old(mdo.decompileCount), pdata, ctx.perBcReason)
               && mdo.trapStates == (if pdata.Some? then old(mdo.trapStates)[ctx.trapBci := TrapStateAddReason(pdata.value, ctx.perBcReason)]
                                     else old(mdo.trapStates))
    ensures mdo.decompileCount == old(mdo.decompileCount) && mdo.overflowRecompileCount == old(mdo.overflowRecompileCount)
    ensures mdo.tenureTraps == old(mdo.tenureTraps)
    ensures var perBc := ctx.perBcReason != ReasonNone;
            var bciForced := perBc && q.maybePriorTrap && q.thisTrapCount >= Wrap32(ctx.perBytecodeTrapLimit);
            makeNotEntrant' == (makeNotEntrant || !perBc || bciForced || q.thisTrapCount >= ctx.perMethodTrapLimit)
            && incRecompileCount == (perBc && (makeNotEntrant || bciForced) && q.maybePriorRecompile && q.maybePriorTrap)
            && reprofile' == (reprofile || (makeNotEntrant' && q.maybePriorRecompile && q.maybePriorTrap))
  {
    q, hasData := mdo.QueryUpdate(ctx.trapBci, ctx.reason, ctx.perBcReason, true, ctx.osrByJvmci);
    makeNotEntrant', incRecompileCount, reprofile' := makeNotEntrant, false, reprofile;
    if ctx.perBcReason != ReasonNone {
      if q.maybePriorTrap && q.thisTrapCount >= Wrap32(ctx.perBytecodeTrapLimit) {
        makeNotEntrant' := true;
      }
      if makeNotEntrant' && q.maybePriorRecompile {
        incRecompileCount := q.maybePriorTrap;
      }
    } else {
      makeNotEntrant' := true;
    }
    if q.thisTrapCount >= ctx.perMethodTrapLimit {
      makeNotEntrant' := true;
    }
    if makeNotEntrant' && q.maybePriorRecompile && q.maybePriorTrap {
      reprofile' := true;
    }
  }

  /** After a successful make_not_entrant: mark the bci's datum recompiled
      and count a tenure trap. */
  method RecordRecompilation(ctx: TrapContext, mdo: MethodData, hasData: bool)
    requires ValidContext(ctx) && mdo.Valid()
    requires hasData ==> ctx.trapBci in mdo.trapStates
    modifies mdo
    ensures mdo.Valid()
    ensures mdo.trapStates == if hasData then old(mdo.trapStates)[ctx.trapBci := TrapStateSetRecompiled(old(mdo.trapStates)[ctx.trapBci], true)]
                              else old(mdo.trapStates)
    ensures mdo.tenureTraps == old(mdo.tenureTraps) + (if ctx.reason == ReasonTenured(ctx.jvmci) then 1 else 0)
    ensures mdo.trapHist == old(mdo.trapHist) && mdo.decompileCount == old(mdo.decompileCount)
    ensures mdo.overflowRecompileCount == old(mdo.overflowRecompileCount)
  {
    if hasData {
      mdo.SetRecompiled(ctx.trapBci);
    }
    if ctx.reason == ReasonTenured(ctx.jvmci) {
      mdo.tenureTraps := mdo.tenureTraps + 1;
    }
  }

  /** Count a recompilation past the per-bytecode limit, and report whether
      the count now exceeds PerBytecodeRecompilationCutoff. */
  method CountOverflowRecompile(ctx: TrapContext, mdo: MethodData) returns (overCutoff: bool)
    modifies mdo
    ensures mdo.overflowRecompileCount == old(mdo.overflowRecompileCount) + 1
    ensures overCutoff <==> old(mdo.overflowRecompileCount) + 1 > Wrap32(ctx.perBytecodeRecompilationCutoff)
    ensures mdo.trapHist == old(mdo.trapHist) && mdo.trapStates == old(mdo.trapStates)
    ensures mdo.decompileCount == old(mdo.decompileCount) && mdo.tenureTraps == old(mdo.tenureTraps)
  {
    mdo.overflowRecompileCount := mdo.overflowRecompileCount + 1;
    overCutoff := mdo.overflowRecompileCount > Wrap32(ctx.perBytecodeRecompilationCutoff);
  }

  /** The decision block of uncommon_trap_inner, with make_not_entrant an
      abstract call whose success is `makeNotEntrantSucceeds`. */
  method UncommonTrapPolicy(ctx: TrapContext, mdo: MethodData?, makeNotEntrantSucceeds: bool)
    returns (out: PolicyOutcome)
    requires ValidContext(ctx)
    requires mdo != null ==> mdo.Valid() && mdo.jvmci == ctx.jvmci && (Queries(ctx, true) ==> ctx.reason < mdo.historyLength)
    modifies mdo
    ensures mdo != null ==> mdo.Valid()
    ensures mdo == null || !Queries(ctx, true) ==>
              out == PolicyDecision(ctx, false, QueryResult(0, false, false), makeNotEntrantSucceeds, 0)
    ensures mdo != null && !Queries(ctx, true) ==>
              mdo.trapHist == old(mdo.trapHist) && mdo.trapStates == old(mdo.trapStates)
              && mdo.overflowRecompileCount == old(mdo.overflowRecompileCount)
              && mdo.tenureTraps == old(mdo.tenureTraps)
                                   + (if ctx.reason == ReasonTenured(ctx.jvmci) && out.makeNotEntrant && !out.returnedEarly then 1 else 0)
    ensures mdo != null && Queries(ctx, true) ==>
              var idx := HistoryIndex(ctx.reason, ctx.osrByJvmci, mdo.historyLength);
              idx < |old(mdo.trapHist)|
              && var pdata := PerBciState(old(mdo.trapStates), old(mdo.spareSlots), ctx.trapBci, ctx.perBcReason);
                 var q := QueryFlags(true, old(mdo.trapHist)[idx], old(mdo.decompileCount), pdata, ctx.perBcReason);
                 out == PolicyDecision(ctx, true, q, makeNotEntrantSucceeds, old(mdo.overflowRecompileCount))
                 && mdo.trapHist == old(mdo.trapHist)[idx := old(mdo.trapHist)[idx] + 1]
                 && mdo.trapStates ==
                      (if pdata.None? then old(mdo.trapStates)
                       else var s1 := TrapStateAddReason(pdata.value, ctx.perBcReason);
                            old(mdo.trapStates)[ctx.trapBci :=
                              if out.makeNotEntrant && !out.returnedEarly then TrapStateSetRecompiled(s1, true) else s1])
                 && mdo.overflowRecompileCount == old(mdo.overflowRecompileCount)
                                                  + (if out.incRecompileCount && !out.returnedEarly then 1 else 0)
                 && mdo.tenureTraps == old(mdo.tenureTraps)
    ensures mdo != null ==> mdo.decompileCount == old(mdo.decompileCount)
  {
    var f, q, hasData := SettleFlags(ctx, mdo);
    out := CarryOut(ctx, mdo, f, hasData, makeNotEntrantSucceeds);
  }

  /** The action switch and the history query: the flags as they stand when
      make_not_entrant is called. */
  method SettleFlags(ctx: TrapContext, mdo: MethodData?) returns (f: TrapFlags, q: QueryResult, hasData: bool)
    requires ValidContext(ctx)
    requires mdo != null ==> mdo.Valid() && mdo.jvmci == ctx.jvmci && (Queries(ctx, true) ==> ctx.reason < mdo.historyLength)
    modifies mdo
    ensures mdo != null ==> mdo.Valid()
    ensures mdo == null || !Queries(ctx, true) ==>
              f == DecisionFlags(ctx, false, QueryResult(0, false, false)) && !hasData
    ensures mdo != null && !Queries(ctx, true) ==>
              mdo.trapHist == old(mdo.trapHist) && mdo.trapStates == old(mdo.trapStates)
    ensures mdo != null && Queries(ctx, true) ==>
              var idx := HistoryIndex(ctx.reason, ctx.osrByJvmci, mdo.historyLength);
              idx < |old(mdo.trapHist)|
              && var pdata := PerBciState(old(mdo.trapStates), old(mdo.spareSlots), ctx.trapBci, ctx.perBcReason);
                 q == QueryFlags(true, old(mdo.trapHist)[idx], old(mdo.decompileCount), pdata, ctx.perBcReason)
                 && f == DecisionFlags(ctx, true, q)
                 && hasData == pdata.Some?
                 && mdo.trapHist == old(mdo.trapHist)[idx := old(mdo.trapHist)[idx] + 1]
                 && mdo.trapStates == (if pdata.Some? then old(mdo.trapStates)[ctx.trapBci := TrapStateAddReason(pdata.value, ctx.perBcReason)]
                                       else old(mdo.trapStates))
    ensures f.incRecompileCount ==> mdo != null
    ensures hasData ==> mdo != null && ctx.trapBci in mdo.trapStates
    ensures mdo != null ==>
              mdo.decompileCount == old(mdo.decompileCount)
              && mdo.overflowRecompileCount == old(mdo.overflowRecompileCount) && mdo.tenureTraps == old(mdo.tenureTraps)
  {
    var injectedProfileTrap := ctx.hasInjectedProfile && (ctx.reason == ReasonIntrinsic || ctx.reason == ReasonUnreached);
    var updateTrapState := ctx.reason != ReasonTenured(ctx.jvmci) && !injectedProfileTrap;
    var makeNotEntrant := false;
    var makeNotCompilable := false;
    var reprofile := false;
    if ctx.action == ActionNone {
      updateTrapState := false;
    } else if ctx.action == ActionMaybeRecompile {
    } else if ctx.action == ActionReinterpret {
      makeNotEntrant := true;
      reprofile := true;
    } else if ctx.action == ActionMakeNotEntrant {
      makeNotEntrant := true;
    } else {
      makeNotEntrant := true;
      makeNotCompilable := true;
    }
    if ctx.skipProfileDeopt {
      updateTrapState := false;
    }
    var incRecompileCount := false;
    hasData := false;
    q := QueryResult(0, false, false);
    if ctx.profiling && updateTrapState && mdo != null {
      q, hasData, makeNotEntrant, incRecompileCount, reprofile := ConsultHistory(ctx, mdo, makeNotEntrant, reprofile);
    }
    f := TrapFlags(updateTrapState, makeNotEntrant, makeNotCompilable, reprofile, incRecompileCount);
  }

  /** make_not_entrant and what follows it: the trap state records the
      recompilation, tenure traps and overflow recompilations are counted,
      and the cutoff gives up on the method. */
  method CarryOut(ctx: TrapContext, mdo: MethodData?, f: TrapFlags, hasData: bool, makeNotEntrantSucceeds: bool)
    returns (out: PolicyOutcome)
    requires ValidContext(ctx)
    requires mdo != null ==> mdo.Valid()
    requires f.incRecompileCount ==> mdo != null
    requires hasData ==> mdo != null && ctx.trapBci in mdo.trapStates
    modifies mdo
    ensures mdo != null ==> mdo.Valid()
    ensures out == FinishDecision(ctx, f, makeNotEntrantSucceeds, if mdo == null then 0 else old(mdo.overflowRecompileCount))
    ensures mdo != null ==>
              var recompiled := f.makeNotEntrant && makeNotEntrantSucceeds;
              mdo.trapHist == old(mdo.trapHist) && mdo.decompileCount == old(mdo.decompileCount)
              && mdo.trapStates == (if recompiled && hasData
                                    then old(mdo.trapStates)[ctx.trapBci := TrapStateSetRecompiled(old(mdo.trapStates)[ctx.trapBci], true)]
                                    else old(mdo.trapStates))
              && mdo.tenureTraps == old(mdo.tenureTraps) + (if recompiled && ctx.reason == ReasonTenured(ctx.jvmci) then 1 else 0)
              && mdo.overflowRecompileCount == old(mdo.overflowRecompileCount)
                                               + (if f.incRecompileCount && !out.returnedEarly then 1 else 0)
  {
    var makeNotCompilable := f.makeNotCompilable;
    var trapMethodNotCompilable := false;
    if f.makeNotEntrant {
      if !makeNotEntrantSucceeds {
        out := PolicyOutcome(f.updateTrapState, f.makeNotEntrant, makeNotCompilable, f.reprofile,
                             f.incRecompileCount, true, trapMethodNotCompilable);
        return;
      }
      if mdo != null {
        RecordRecompilation(ctx, mdo, hasData);
      }
    }
    if f.incRecompileCount {
      var overCutoff := CountOverflowRecompile(ctx, mdo);
      if overCutoff {
        if ctx.trapMethodIsCompiledMethod {
          makeNotCompilable := true;
        } else {
          trapMethodNotCompilable := true;
        }
      }
    }
    out := PolicyOutcome(f.updateTrapState, f.makeNotEntrant, makeNotCompilable, f.reprofile,
                         f.incRecompileCount, false, trapMethodNotCompilable);
  }
}
