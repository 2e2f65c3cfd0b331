/** DeoptimizationScope: the generation counters that order requests to
    deoptimize compiled methods. A scope marks methods with the active
    generation, remembers the highest generation it depends on, and on commit
    makes sure that generation has been deoptimized, by running a round itself
    or by waiting for another thread's round.

    The mutex, the handshake with all Java threads and the yield loop are not
    modelled as concurrency: the handshake is one step that may include
    commits made at safepoints by other threads, and waiting for a round in
    flight is one step in which that round completes. */
module DeoptScope {

  /** nmethod::DeoptimizationStatus. DeoptimizeDone mirrors the enum: the
      nmethod sets it once it has been made not entrant, which is not part of
      this model, so no member here produces or examines it. */
  datatype DeoptStatus = NotMarked | Deoptimize | DeoptimizeNoUpdate | DeoptimizeDone

  /** The process-wide static state of DeoptimizationScope, plus the
      generation held by the thread whose round is in flight (its local
      `comitting`). */
  class DeoptGenerations {
    var committed: nat
    var active: nat
    var committingInProgress: bool
    var roundInFlight: nat

    ghost predicate Valid()
      reads this
    {
      committed < active && (committingInProgress ==> roundInFlight < active)
    }

    /** The static initialisers: nothing committed, generation 1 active. */
    constructor ()
      ensures Valid()
      ensures committed == 0 && active == 1 && !committingInProgress
    {
      committed, active, committingInProgress, roundInFlight := 0, 1, false, 0;
    }

    /** The handshake of Deoptimization::deoptimize_all_marked, during which
        other threads may commit `safepointCommits` generations at safepoints. */
    method HandshakeAllMarked(safepointCommits: nat)
      requires Valid()
      modifies this
      ensures Valid()
      ensures active == old(active) + safepointCommits
      ensures committed == if safepointCommits == 0 then old(committed) else old(active) + safepointCommits - 1
      ensures committingInProgress == old(committingInProgress) && roundInFlight == old(roundInFlight)
    {
      if safepointCommits > 0 {
        committed := active + safepointCommits - 1;
        active := active + safepointCommits;
      }
    }

    /** The environment step taken while this thread yields: the round in
        flight finishes, raising committed to its generation if it is higher. */
    method AwaitRoundInFlight()
      requires Valid() && committingInProgress
      modifies this
      ensures Valid()
      ensures committed == if old(committed) < old(roundInFlight) then old(roundInFlight) else old(committed)
      ensures active == old(active) && !committingInProgress
    {
      if committed < roundInFlight {
        committed := roundInFlight;
      }
      committingInProgress := false;
    }
  }

  /** The part of an nmethod that scopes read and write. */
  class NMethod {
    const canBeDeoptimized: bool
    var status: DeoptStatus
    var generation: nat

    /** A fresh, unmarked nmethod. */
    constructor (deoptimizable: bool)
      ensures canBeDeoptimized == deoptimizable && status == NotMarked && generation == 0
    {
      canBeDeoptimized := deoptimizable;
      status := NotMarked;
      generation := 0;
    }

    /** A region is marked exactly when it has a generation, and that
        generation was active at some point. */
    ghost predicate Valid(g: DeoptGenerations)
      reads this, g
    {
      (status == NotMarked <==> generation == 0) && generation <= g.active
    }
  }

  class DeoptimizationScope {
    const gens: DeoptGenerations
    var requiredGen: nat
    ghost var deopted: bool
    /** The nmethods this scope has marked or depends on. */
    ghost var covered: set<NMethod>

    ghost predicate Valid()
      reads this, gens, covered
    {
      gens.Valid() && requiredGen <= gens.active
      && forall nm | nm in covered :: 1 <= nm.generation <= requiredGen
    }

    /** A new scope requires only what is already committed. */
    constructor (g: DeoptGenerations)
      requires g.Valid()
      ensures Valid() && gens == g && !deopted && covered == {}
      ensures requiredGen == g.committed
    {
      gens := g;
      requiredGen := g.committed;
      deopted := false;
      covered := {};
    }

    /** The destructor's check that the scope was committed. */
    method Close()
      requires deopted
    {
    }

    /** dependent: raise the required generation to the region's, never lower it. */
    method Dependent(nm: NMethod)
      requires Valid() && nm.Valid(gens) && nm.status != NotMarked
      modifies this
      ensures Valid() && deopted == old(deopted)
      ensures requiredGen == if old(requiredGen) < nm.generation then nm.generation else old(requiredGen)
      ensures covered == old(covered) + {nm}
    {
      if requiredGen < nm.generation {
        requiredGen := nm.generation;
      }
      covered := covered + {nm};
    }

    /** mark: stamp an unmarked region with the active generation, or depend
        on the generation of a region that is already marked. */
    method Mark(nm: NMethod, incRecompileCounts: bool)
      requires Valid() && nm.Valid(gens)
      modifies this, nm
      ensures Valid() && nm.Valid(gens) && deopted == old(deopted)
      ensures !nm.canBeDeoptimized ==>
                requiredGen == old(requiredGen) && covered == old(covered)
                && nm.status == old(nm.status) && nm.generation == old(nm.generation)
      ensures nm.canBeDeoptimized && old(nm.status) != NotMarked ==>
                nm.status == old(nm.status) && nm.generation == old(nm.generation)
                && requiredGen == (if old(requiredGen) < nm.generation then nm.generation else old(requiredGen))
      ensures nm.canBeDeoptimized && old(nm.status) == NotMarked ==>
                nm.status == (if incRecompileCounts then Deoptimize else DeoptimizeNoUpdate)
                && nm.generation == gens.active && requiredGen == gens.active
      ensures nm.canBeDeoptimized ==> covered == old(covered) + {nm}
      ensures requiredGen >= old(requiredGen)
    {
      if !nm.canBeDeoptimized {
        return;
      }
      if nm.status != NotMarked {
        Dependent(nm);
        return;
      }
      nm.status := if incRecompileCounts then Deoptimize else DeoptimizeNoUpdate;
      assert gens.committed < gens.active;
      assert nm.generation == 0;
      nm.generation := gens.active;
      requiredGen := gens.active;
      covered := covered + {nm};
    }

    /** deoptimize_marked: make sure the required generation is committed. */
    method DeoptimizeMarked(fullyInitialized: bool, atSafepoint: bool, safepointCommits: nat)
      requires Valid() && !deopted
      modifies this, gens
      ensures Valid() && deopted
      ensures requiredGen == old(requiredGen) && covered == old(covered)
      ensures gens.committed >= old(gens.committed) && gens.active >= old(gens.active)
      ensures !fullyInitialized ==> unchanged(gens)
      ensures fullyInitialized ==> gens.committed >= requiredGen
      ensures fullyInitialized ==> forall nm | nm in covered :: nm.generation <= gens.committed
      ensures fullyInitialized && atSafepoint ==>
                gens.committed == old(gens.active) && gens.active == old(gens.active) + 1
      ensures fullyInitialized && !atSafepoint && old(gens.committed) >= requiredGen ==> unchanged(gens)
      ensures fullyInitialized && !atSafepoint && old(gens.committed) < requiredGen ==> !gens.committingInProgress
      ensures fullyInitialized && !atSafepoint && old(gens.committed) < requiredGen && !old(gens.committingInProgress) ==>
                gens.active == old(gens.active) + 1 + safepointCommits && gens.committed >= old(gens.active)
    {
      if !fullyInitialized {
        deopted := true;
        return;
      }
      if atSafepoint {
        gens.committed := gens.active;
        gens.active := gens.active + 1;
        // Deoptimization::deoptimize_all_marked at a safepoint changes no counters.
        deopted := true;
        return;
      }
      var comitting: nat := 0;
      var wait := false;
      while true
        invariant Valid() && !deopted
        invariant requiredGen == old(requiredGen) && covered == old(covered)
        invariant gens.committed >= old(gens.committed) && gens.active >= old(gens.active)
        invariant old(gens.committed) >= requiredGen ==> unchanged(gens)
        invariant gens.committed >= requiredGen ==> old(gens.committed) >= requiredGen || !gens.committingInProgress
        invariant !old(gens.committingInProgress) ==> unchanged(gens)
        decreases if gens.committingInProgress then 1 else 0
      {
        if gens.committed >= requiredGen {
          deopted := true;
          return;
        }
        if !gens.committingInProgress {
          comitting := gens.active;
          gens.active := gens.active + 1;
          gens.committingInProgress := true;
          gens.roundInFlight := comitting;
          wait := false;
        } else {
          wait := true;
        }
        if wait {
          gens.AwaitRoundInFlight();
        } else {
          gens.HandshakeAllMarked(safepointCommits);
          deopted := true;
          if gens.committed < comitting {
            gens.committed := comitting;
          }
          gens.committingInProgress := false;
          assert gens.committed >= requiredGen;
          return;
        }
      }
    }
  }

  /** A request to deoptimize one nmethod, from a new scope to its commit:
      once it returns, the region is marked and its generation is committed. */
  method DeoptimizeOne(g: DeoptGenerations, nm: NMethod, fullyInitialized: bool, atSafepoint: bool,
                       safepointCommits: nat)
    returns (scope: DeoptimizationScope)
    requires g.Valid() && nm.Valid(g) && nm.canBeDeoptimized
    modifies g, nm
    ensures fresh(scope) && scope.deopted && g.Valid()
    ensures nm.status != NotMarked && nm.Valid(g)
    ensures fullyInitialized ==> nm.generation <= g.committed
  {
    scope := new DeoptimizationScope(g);
    scope.Mark(nm, true);
    scope.DeoptimizeMarked(fullyInitialized, atSafepoint, safepointCommits);
    scope.Close();
  }
}
