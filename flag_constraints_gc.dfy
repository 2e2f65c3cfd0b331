/** The constraint functions of the shared GC flags: each one checks a new
    value of one flag against other flags and ergonomic limits and either
    accepts it or reports a violation.

    The globals a constraint reads are fields of `GCFlags`. The constraint
    functions of the G1 and Parallel collectors that some of these delegate
    to are not part of this model: their verdict for the value at hand is a
    field too. The printed message is not modelled, but a violation records
    which check failed and the values its message shows. */
module FlagConstraintsGC {
  import opened MachineWords

  /** HeapWordSize on a 64-bit platform. */
  const HeapWordSize: int := 8
  /** The unit M of globalDefinitions.hpp. */
  const M: int := 1024 * 1024

  /** The check that failed. */
  datatype Check =
    | BelowPlabMin | AbovePlabMax
    | MinHeapFreeRatioAboveMax | MaxHeapFreeRatioBelowMin
    | SoftRefLifetimeTooLarge
    | MarkStackSizeAboveMax
    | MinMetaspaceFreeRatioAboveMax | MaxMetaspaceFreeRatioBelowMin
    | ZeroTenuringThreshold
    | AboveAlignedMax
    | SoftMaxAboveMaxHeap
    | HeapBaseTooLarge
    | BelowTlabReserve | AboveTlabMax | BelowMinTlabSize
    | TlabWasteIncrementTooLarge
    | SurvivorRatioTooLarge
    | MetaspaceSizeAboveMax | MaxMetaspaceSizeBelowMin
    | CardSizeNotPowerOf2
    | Delegated

  /** JVMFlag::Error, as far as these functions return it: SUCCESS or
      VIOLATES_CONSTRAINT, the latter with the failed check and the numbers
      its message prints. */
  datatype Status = Success | Violation(check: Check, shown: seq<int>)

  /** The globals the constraints read. */
  datatype GCFlags = GCFlags(
    /** GCConfig::is_gc_selected(CollectedHeap::G1) and (...::Parallel) */
    g1Selected: bool,
    parallelSelected: bool,
    /** PLAB::min_size() and PLAB::max_size() */
    plabMinSize: u64,
    plabMaxSize: u64,
    minHeapFreeRatio: u64,
    maxHeapFreeRatio: u64,
    maxHeapSize: u64,
    softRefLRUPolicyMSPerMB: i64,
    markStackSizeMax: u64,
    minMetaspaceFreeRatio: u32,
    maxMetaspaceFreeRatio: u32,
    neverTenure: bool,
    alwaysTenure: bool,
    useG1GC: bool,
    /** MaxSizeForHeapAlignmentG1() and GCArguments::compute_heap_alignment() */
    g1HeapAlignment: u64,
    computedHeapAlignment: u64,
    useCompressedOops: bool,
    /** FLAG_IS_ERGO(MaxHeapSize) */
    maxHeapSizeIsErgo: bool,
    /** ThreadLocalAllocBuffer::alignment_reserve_in_bytes() and max_size() (in words) */
    tlabAlignmentReserveInBytes: u64,
    tlabMaxSize: u64,
    minTLABSize: u64,
    /** FLAG_IS_CMDLINE(TLABSize) */
    tlabSizeIsCmdline: bool,
    useTLAB: bool,
    /** The current thread's TLAB refill_waste_limit() */
    refillWasteLimit: u64,
    /** FLAG_IS_CMDLINE(SurvivorRatio) */
    survivorRatioIsCmdline: bool,
    spaceAlignment: u64,
    metaspaceSize: u64,
    maxMetaspaceSize: u64,
    /** The verdicts of the Parallel and G1 constraint functions for the value. */
    parallelInitialTenuring: Status,
    parallelMaxTenuring: Status,
    g1MaxGCPauseMillis: Status,
    g1GCPauseIntervalMillis: Status,
    g1NewSize: Status)

  /** The PLAB bounds apply only when a collector with PLABs is selected. */
  predicate PlabCollector(env: GCFlags)
  {
    env.g1Selected || env.parallelSelected
  }

  // ---------------------------------------------------------------------------
  // PLAB sizes

  function MinPLABSizeBounds(value: u64, env: GCFlags): (s: Status)
    ensures s.Success? <==> !PlabCollector(env) || env.plabMinSize <= value
    ensures s.Violation? ==> s == Violation(BelowPlabMin, [value, env.plabMinSize])
  {
    if PlabCollector(env) && value < env.plabMinSize then Violation(BelowPlabMin, [value, env.plabMinSize])
    else Success
  }

  function MaxPLABSizeBounds(value: u64, env: GCFlags): (s: Status)
    ensures s.Success? <==> !PlabCollector(env) || value <= env.plabMaxSize
    ensures s.Violation? ==> s == Violation(AbovePlabMax, [value, env.plabMaxSize])
  {
    if PlabCollector(env) && value > env.plabMaxSize then Violation(AbovePlabMax, [value, env.plabMaxSize])
    else Success
  }

  /** The minimum is checked first; the maximum only when the minimum holds. */
  function MinMaxPLABSizeBounds(value: u64, env: GCFlags): (s: Status)
  {
    var status := MinPLABSizeBounds(value, env);
    if status.Success? then MaxPLABSizeBounds(value, env) else status
  }

  /** A PLAB size is accepted exactly when it lies within the PLAB bounds, or
      when no collector with PLABs is selected; a value below the minimum is
      reported as such even when it is also above the maximum. */
  lemma PLABSizeBoundsMeaning(value: u64, env: GCFlags)
    ensures MinMaxPLABSizeBounds(value, env).Success? <==>
              !PlabCollector(env) || env.plabMinSize <= value <= env.plabMaxSize
    ensures PlabCollector(env) && value < env.plabMinSize ==>
              MinMaxPLABSizeBounds(value, env).check == BelowPlabMin
    ensures PlabCollector(env) && env.plabMinSize <= value && value > env.plabMaxSize ==>
              MinMaxPLABSizeBounds(value, env).check == AbovePlabMax
  {
  }

  function YoungPLABSizeConstraintFunc(value: u64, env: GCFlags): (s: Status)
    ensures s.Success? <==> !PlabCollector(env) || env.plabMinSize <= value <= env.plabMaxSize
    ensures s.Violation? ==> s.shown == [value, if value < env.plabMinSize then env.plabMinSize else env.plabMaxSize]
  {
    MinMaxPLABSizeBounds(value, env)
  }

  function OldPLABSizeConstraintFunc(value: u64, env: GCFlags): (s: Status)
    ensures s.Success? <==> !PlabCollector(env) || env.plabMinSize <= value <= env.plabMaxSize
    ensures s.Violation? ==> s.shown == [value, if value < env.plabMinSize then env.plabMinSize else env.plabMaxSize]
  {
    MinMaxPLABSizeBounds(value, env)
  }

  // ---------------------------------------------------------------------------
  // Paired minimum/maximum flags

  function MinHeapFreeRatioConstraintFunc(value: u64, env: GCFlags): (s: Status)
    ensures s.Violation? ==> s.shown == [value, env.maxHeapFreeRatio]
  {
    if value > env.maxHeapFreeRatio then Violation(MinHeapFreeRatioAboveMax, [value, env.maxHeapFreeRatio])
    else Success
  }

  function MaxHeapFreeRatioConstraintFunc(value: u64, env: GCFlags): (s: Status)
    ensures s.Violation? ==> s.shown == [value, env.minHeapFreeRatio]
  {
    if value < env.minHeapFreeRatio then Violation(MaxHeapFreeRatioBelowMin, [value, env.minHeapFreeRatio])
    else Success
  }

  /** Both heap free ratio constraints accept exactly the pairs with min <= max,
      whichever of the two flags is being set. */
  lemma HeapFreeRatioPair(minRatio: u64, maxRatio: u64, env: GCFlags)
    ensures MinHeapFreeRatioConstraintFunc(minRatio, env.(maxHeapFreeRatio := maxRatio)).Success? <==> minRatio <= maxRatio
    ensures MaxHeapFreeRatioConstraintFunc(maxRatio, env.(minHeapFreeRatio := minRatio)).Success? <==> minRatio <= maxRatio
  {
  }

  function MinMetaspaceFreeRatioConstraintFunc(value: u32, env: GCFlags): (s: Status)
    ensures s.Violation? ==> s.shown == [value, env.maxMetaspaceFreeRatio]
  {
    if value > env.maxMetaspaceFreeRatio then Violation(MinMetaspaceFreeRatioAboveMax, [value, env.maxMetaspaceFreeRatio])
    else Success
  }

  function MaxMetaspaceFreeRatioConstraintFunc(value: u32, env: GCFlags): (s: Status)
    ensures s.Violation? ==> s.shown == [value, env.minMetaspaceFreeRatio]
  {
    if value < env.minMetaspaceFreeRatio then Violation(MaxMetaspaceFreeRatioBelowMin, [value, env.minMetaspaceFreeRatio])
    else Success
  }

  lemma MetaspaceFreeRatioPair(minRatio: u32, maxRatio: u32, env: GCFlags)
    ensures MinMetaspaceFreeRatioConstraintFunc(minRatio, env.(maxMetaspaceFreeRatio := maxRatio)).Success? <==> minRatio <= maxRatio
    ensures MaxMetaspaceFreeRatioConstraintFunc(maxRatio, env.(minMetaspaceFreeRatio := minRatio)).Success? <==> minRatio <= maxRatio
  {
  }

  function MetaspaceSizeConstraintFunc(value: u64, env: GCFlags): (s: Status)
    ensures s.Violation? ==> s.shown == [value, env.maxMetaspaceSize]
  {
    if value > env.maxMetaspaceSize then Violation(MetaspaceSizeAboveMax, [value, env.maxMetaspaceSize])
    else Success
  }

  /** MaxMetaspaceSizeConstraintFunc as written: the message says the value
      must be at least MetaspaceSize, but prints MaxMetaspaceSize. */
  function MaxMetaspaceSizeAsWritten(value: u64, env: GCFlags): (s: Status)
    ensures s.Success? <==> env.metaspaceSize <= value
  {
    if value < env.metaspaceSize then Violation(MaxMetaspaceSizeBelowMin, [value, env.maxMetaspaceSize])
    else Success
  }

  /** A MaxMetaspaceSize of 64 against a MetaspaceSize of 128, checked after
      ergonomics with 64 already stored in MaxMetaspaceSize: the message shows
      64 as the bound, not the MetaspaceSize 128 that was violated. */
  lemma MaxMetaspaceMessageShowsWrongBound(env: GCFlags)
    requires env.metaspaceSize == 128 && env.maxMetaspaceSize == 64
    ensures MaxMetaspaceSizeAsWritten(64, env) == Violation(MaxMetaspaceSizeBelowMin, [64, 64])
    ensures MaxMetaspaceSizeAsWritten(64, env).shown[1] != env.metaspaceSize
  {
  }

  /** MaxMetaspaceSizeConstraintFunc with the message showing the bound it
      checks, MetaspaceSize. */
  function MaxMetaspaceSizeConstraintFunc(value: u64, env: GCFlags): (s: Status)
    ensures s.Violation? ==> s.shown == [value, env.metaspaceSize]
  {
    if value < env.metaspaceSize then Violation(MaxMetaspaceSizeBelowMin, [value, env.metaspaceSize])
    else Success
  }

  /** Both metaspace size constraints accept exactly MetaspaceSize <=
      MaxMetaspaceSize, and the corrected message shows the violated bound;
      the verdict is that of the code as written. */
  lemma MetaspaceSizePair(size: u64, maxSize: u64, env: GCFlags)
    ensures MetaspaceSizeConstraintFunc(size, env.(maxMetaspaceSize := maxSize)).Success? <==> size <= maxSize
    ensures MaxMetaspaceSizeConstraintFunc(maxSize, env.(metaspaceSize := size)).Success? <==> size <= maxSize
    ensures MaxMetaspaceSizeConstraintFunc(maxSize, env).Success? == MaxMetaspaceSizeAsWritten(maxSize, env).Success?
  {
  }

  function SoftMaxHeapSizeConstraintFunc(value: u64, env: GCFlags): (s: Status)
    ensures s.Success? <==> value <= env.maxHeapSize
    ensures s.Violation? ==> s.shown == []
  {
    if value > env.maxHeapSize then Violation(SoftMaxAboveMaxHeap, [])
    else Success
  }

  function MarkStackSizeConstraintFunc(value: u64, env: GCFlags): (s: Status)
    ensures s.Success? <==> value <= env.markStackSizeMax
  {
    if value > env.markStackSizeMax then Violation(MarkStackSizeAboveMax, [value, env.markStackSizeMax])
    else Success
  }

  // ---------------------------------------------------------------------------
  // SoftReference lifetime

  /** The lifetime of a SoftReference is MaxHeapSize in megabytes times
      SoftRefLRUPolicyMSPerMB milliseconds; it must fit in a uintx. */
  function CheckMaxHeapSizeAndSoftRefLRUPolicyMSPerMB(maxHeap: u64, softRef: i64): (s: Status)
  {
    if softRef > 0 && maxHeap / M > MaxUintx / softRef then Violation(SoftRefLifetimeTooLarge, [maxHeap, softRef])
    else Success
  }

  lemma DivBound(a: nat, u: nat, s: nat)
    requires s > 0
    ensures a <= u / s <==> a * s <= u
  {
    var q := u / s;
    assert u == s * q + u % s;
    if a <= q {
      assert a * s <= q * s;
    } else {
      assert a >= q + 1;
      assert a * s >= (q + 1) * s;
    }
  }

  /** The check fails exactly when the lifetime product would overflow. */
  lemma SoftRefLifetimeMeaning(maxHeap: u64, softRef: i64)
    ensures CheckMaxHeapSizeAndSoftRefLRUPolicyMSPerMB(maxHeap, softRef).Success? <==>
              softRef <= 0 || (maxHeap / M) * softRef <= MaxUintx
  {
    if softRef > 0 {
      DivBound(maxHeap / M, MaxUintx, softRef);
    }
  }

  function SoftRefLRUPolicyMSPerMBConstraintFunc(value: i64, env: GCFlags): (s: Status)
    ensures s.Success? <==> value <= 0 || (env.maxHeapSize / M) * value <= MaxUintx
  {
    SoftRefLifetimeMeaning(env.maxHeapSize, value);
    CheckMaxHeapSizeAndSoftRefLRUPolicyMSPerMB(env.maxHeapSize, value)
  }

  // ---------------------------------------------------------------------------
  // Tenuring thresholds and pauses

  function InitialTenuringThresholdConstraintFunc(value: u32, env: GCFlags): (s: Status)
    ensures s.Success? <==> env.parallelInitialTenuring.Success?
  {
    if env.parallelInitialTenuring.Violation? then env.parallelInitialTenuring else Success
  }

  /** The Parallel check comes first; then a threshold of 0 is accepted only
      together with AlwaysTenure and without NeverTenure. */
  function MaxTenuringThresholdConstraintFunc(value: u32, env: GCFlags): (s: Status)
  {
    if env.parallelMaxTenuring.Violation? then env.parallelMaxTenuring
    else if value == 0 && (env.neverTenure || !env.alwaysTenure) then Violation(ZeroTenuringThreshold, [])
    else Success
  }

  lemma MaxTenuringThresholdMeaning(value: u32, env: GCFlags)
    ensures MaxTenuringThresholdConstraintFunc(value, env).Success? <==>
              env.parallelMaxTenuring.Success? && (value == 0 ==> !env.neverTenure && env.alwaysTenure)
    ensures env.parallelMaxTenuring.Violation? ==> MaxTenuringThresholdConstraintFunc(value, env) == env.parallelMaxTenuring
    ensures value != 0 ==> MaxTenuringThresholdConstraintFunc(value, env) == env.parallelMaxTenuring
  {
  }

  function MaxGCPauseMillisConstraintFunc(value: u64, env: GCFlags): (s: Status)
    ensures s.Success? <==> env.g1MaxGCPauseMillis.Success?
  {
    if env.g1MaxGCPauseMillis.Violation? then env.g1MaxGCPauseMillis else Success
  }

  function GCPauseIntervalMillisConstraintFunc(value: u64, env: GCFlags): (s: Status)
    ensures s.Success? <==> env.g1GCPauseIntervalMillis.Success?
  {
    if env.g1GCPauseIntervalMillis.Violation? then env.g1GCPauseIntervalMillis else Success
  }

  function NewSizeConstraintFunc(value: u64, env: GCFlags): (s: Status)
    ensures s.Success? <==> env.g1NewSize.Success?
  {
    if env.g1NewSize.Violation? then env.g1NewSize else Success
  }

  // ---------------------------------------------------------------------------
  // Sizes that are aligned up later

  /** `~x` on size_t. */
  function Not64(x: u64): u64
  {
    MaxUintx - x
  }

  /** `(max_uintx - alignment) & ~(alignment - 1)`. */
  function AlignedMax(alignment: u64): u64
  {
    // alignment - 1 in size_t wraps to max_uintx for a zero alignment
    var lowBits := if alignment == 0 then MaxUintx else alignment - 1;
    var r := BitAnd(MaxUintx - alignment, Not64(lowBits));
    BitAndBelow(MaxUintx - alignment, Not64(lowBits));
    r
  }

  lemma {:induction false} BitAndBelow(x: nat, y: nat)
    ensures BitAnd(x, y) <= x
  {
    if x != 0 && y != 0 {
      BitAndBelow(x / 2, y / 2);
    }
  }

  function MaxSizeForAlignment(value: u64, alignment: u64): (s: Status)
    ensures s.Violation? ==> s.shown == [value, AlignedMax(alignment)]
  {
    if value > AlignedMax(alignment) then Violation(AboveAlignedMax, [value, AlignedMax(alignment)])
    else Success
  }

  lemma Pow2Above(k: nat, n: nat)
    requires k <= n
    ensures Pow2(k) <= Pow2(n)
    decreases n
  {
    if k < n {
      Pow2Above(k, n - 1);
    }
  }

  /** Below bit n, AND with the all-ones mask 2^n - 1 keeps the value. */
  lemma {:induction false} AllOnesMask(x: nat, n: nat, m: nat)
    requires x < Pow2(n) && m == Pow2(n) - 1
    ensures BitAnd(x, m) == x
  {
    if n > 0 && x != 0 {
      var p := Pow2(n - 1);
      assert Pow2(n) == 2 * p;
      AllOnesMask(x / 2, n - 1, p - 1);
      assert m / 2 == p - 1 && m % 2 == 1;
    }
  }

  /** `(2^n - 1 - 2^k) & ~(2^k - 1)` within n bits is 2^n - 2^(k+1): the
      operand has bit k clear and every bit below it set, and the mask clears
      those low bits. */
  lemma {:induction false} AlignedMaxBits(n: nat, k: nat, x: nat, m: nat)
    requires k < n
    requires x == Pow2(n) - 1 - Pow2(k) && m == Pow2(n) - Pow2(k)
    ensures Pow2(k + 1) <= Pow2(n)
    ensures BitAnd(x, m) == Pow2(n) - Pow2(k + 1)
  {
    Pow2Above(k + 1, n);
    var p := Pow2(n - 1);
    assert Pow2(n) == 2 * p;
    if k == 0 {
      assert Pow2(0) == 1 && Pow2(1) == 2;
      AllOnesMask(x, n, m);
    } else {
      var q := Pow2(k - 1);
      assert Pow2(k) == 2 * q && Pow2(k + 1) == 4 * q;
      var u, v := p - 1 - q, p - q;
      AlignedMaxBits(n - 1, k - 1, u, v);
      OddEvenBitAnd(x, m, u, v);
    }
  }

  /** AND of an odd and a nonzero even number, one bit down. */
  lemma OddEvenBitAnd(x: nat, m: nat, u: nat, v: nat)
    requires x == 2 * u + 1 && m == 2 * v && v > 0
    ensures BitAnd(x, m) == 2 * BitAnd(u, v)
  {
    assert x / 2 == u && x % 2 == 1 && m / 2 == v && m % 2 == 0;
  }

  /** For a power-of-two alignment the aligned maximum is 2^64 - 2 * alignment. */
  lemma AlignedMaxOfPow2(k: nat)
    requires k < 64
    ensures Pow2(k) < TwoTo64
    ensures AlignedMax(Pow2(k)) == TwoTo64 - 2 * Pow2(k)
  {
    Pow2Of64();
    var a := Pow2(k);
    Pow2Above(k + 1, 64);
    assert Pow2(k + 1) == 2 * a;
    AlignedMaxBits(64, k, MaxUintx - a, Not64(a - 1));
  }

  lemma Pow2Of64()
    ensures Pow2(64) == TwoTo64
  {
    Pow2Small();
    Pow2Add(8, 8);
    assert Pow2(16) == 0x1_0000;
    Pow2Add(16, 16);
    assert Pow2(32) == TwoTo32;
    Pow2Add(32, 32);
  }

  lemma Pow2Small()
    ensures Pow2(8) == 256
  {
    assert Pow2(1) == 2 && Pow2(2) == 4 && Pow2(3) == 8 && Pow2(4) == 16;
    assert Pow2(5) == 32 && Pow2(6) == 64 && Pow2(7) == 128;
  }

  lemma {:induction false} Pow2Add(a: nat, b: nat)
    ensures Pow2(a + b) == Pow2(a) * Pow2(b)
    decreases b
  {
    if b > 0 {
      Pow2Add(a, b - 1);
      assert Pow2(a + b) == 2 * Pow2(a + b - 1);
    }
  }

  /** An accepted value aligns up to a power-of-two alignment without
      wrapping around, and at least one more alignment unit is left above
      the result. */
  lemma AcceptedSizeAlignsUp(value: u64, a: u64, k: nat)
    requires k < 64 && a == Pow2(k)
    requires MaxSizeForAlignment(value, a).Success?
    ensures value + a - 1 < TwoTo64
    ensures value <= AlignUp64(value, a) < value + a
    ensures AlignUp64(value, a) + a < TwoTo64
  {
    AlignedMaxOfPow2(k);
    AlignUpExact(value, a);
  }

  /** For a power-of-two alignment the check accepts exactly the values up
      to 2^64 - 2 * alignment: one unit below the largest multiple of the
      alignment, so also some values that would align up without wrapping
      are rejected. */
  lemma MaxSizeForPow2Alignment(value: u64, a: u64, k: nat)
    requires k < 64 && a == Pow2(k)
    ensures MaxSizeForAlignment(value, a).Success? <==> value <= TwoTo64 - 2 * a
  {
    AlignedMaxOfPow2(k);
  }

  /** The heap alignment: G1's own, or the one GCArguments computes. */
  function HeapAlignment(env: GCFlags): u64
  {
    if env.useG1GC then env.g1HeapAlignment else env.computedHeapAlignment
  }

  function MaxSizeForHeapAlignment(value: u64, env: GCFlags): (s: Status)
    ensures s.Success? <==> value <= AlignedMax(HeapAlignment(env))
    ensures s.Violation? ==> s == Violation(AboveAlignedMax, [value, AlignedMax(HeapAlignment(env))])
  {
    MaxSizeForAlignment(value, HeapAlignment(env))
  }

  function MinHeapSizeConstraintFunc(value: u64, env: GCFlags): (s: Status)
    ensures s.Success? <==> value <= AlignedMax(HeapAlignment(env))
    ensures s.Violation? ==> s.check == AboveAlignedMax
  {
    MaxSizeForHeapAlignment(value, env)
  }

  function InitialHeapSizeConstraintFunc(value: u64, env: GCFlags): (s: Status)
    ensures s.Success? <==> value <= AlignedMax(HeapAlignment(env))
    ensures s.Violation? ==> s.check == AboveAlignedMax
  {
    MaxSizeForHeapAlignment(value, env)
  }

  /** The alignment check first; the SoftReference check only when it passes. */
  function MaxHeapSizeConstraintFunc(value: u64, env: GCFlags): (s: Status)
  {
    var status := MaxSizeForHeapAlignment(value, env);
    if status.Success? then CheckMaxHeapSizeAndSoftRefLRUPolicyMSPerMB(value, env.softRefLRUPolicyMSPerMB)
    else status
  }

  lemma MaxHeapSizeMeaning(value: u64, env: GCFlags)
    ensures MaxHeapSizeConstraintFunc(value, env).Success? <==>
              MaxSizeForHeapAlignment(value, env).Success?
              && (env.softRefLRUPolicyMSPerMB <= 0 || (value / M) * env.softRefLRUPolicyMSPerMB <= MaxUintx)
    ensures MaxSizeForHeapAlignment(value, env).Violation? ==>
              MaxHeapSizeConstraintFunc(value, env).check == AboveAlignedMax
  {
    SoftRefLifetimeMeaning(value, env.softRefLRUPolicyMSPerMB);
  }

  /** With compressed oops and an ergonomic MaxHeapSize, the base plus the
      heap size must not wrap; after that the base must pass the heap
      alignment check. */
  function HeapBaseMinAddressConstraintFunc(value: u64, env: GCFlags): (s: Status)
  {
    if env.useCompressedOops && env.maxHeapSizeIsErgo && value > MaxUintx - env.maxHeapSize then
      Violation(HeapBaseTooLarge, [value, env.maxHeapSize, MaxUintx])
    else MaxSizeForHeapAlignment(value, env)
  }

  lemma HeapBaseMinAddressMeaning(value: u64, env: GCFlags)
    ensures var s := HeapBaseMinAddressConstraintFunc(value, env);
            (s.Success? && env.useCompressedOops && env.maxHeapSizeIsErgo ==> value + env.maxHeapSize <= MaxUintx)
            && (s.Success? ==> MaxSizeForHeapAlignment(value, env).Success?)
            && (!(env.useCompressedOops && env.maxHeapSizeIsErgo) ==> s == MaxSizeForHeapAlignment(value, env))
            && (env.useCompressedOops && env.maxHeapSizeIsErgo && value + env.maxHeapSize > MaxUintx ==> s.check == HeapBaseTooLarge)
  {
  }

  // ---------------------------------------------------------------------------
  // TLAB sizes

  /** The ergonomic TLAB maximum in bytes, computed in size_t. */
  function TlabMaxBytes(env: GCFlags): u64
  {
    Wrap64(env.tlabMaxSize * HeapWordSize)
  }

  function MinTLABSizeConstraintFunc(value: u64, env: GCFlags): (s: Status)
  {
    if value < env.tlabAlignmentReserveInBytes then
      Violation(BelowTlabReserve, [value, env.tlabAlignmentReserveInBytes])
    else if value > TlabMaxBytes(env) then Violation(AboveTlabMax, [value, TlabMaxBytes(env)])
    else Success
  }

  /** TLABSize is checked only when it was set on the command line. */
  function TLABSizeConstraintFunc(value: u64, env: GCFlags): (s: Status)
  {
    if !env.tlabSizeIsCmdline then Success
    else if value < env.minTLABSize then Violation(BelowMinTlabSize, [value, env.minTLABSize])
    else if value > TlabMaxBytes(env) then Violation(AboveTlabMax, [value, TlabMaxBytes(env)])
    else Success
  }

  lemma TLABSizesMeaning(value: u64, env: GCFlags)
    ensures MinTLABSizeConstraintFunc(value, env).Success? <==>
              env.tlabAlignmentReserveInBytes <= value <= TlabMaxBytes(env)
    ensures TLABSizeConstraintFunc(value, env).Success? <==>
              !env.tlabSizeIsCmdline || env.minTLABSize <= value <= TlabMaxBytes(env)
    // A TLABSize that passes lies in the range a MinTLABSize that passes may take.
    ensures env.tlabSizeIsCmdline && TLABSizeConstraintFunc(value, env).Success?
            && MinTLABSizeConstraintFunc(env.minTLABSize, env).Success? ==>
              MinTLABSizeConstraintFunc(value, env).Success?
  {
  }

  function TLABWasteIncrementConstraintFunc(value: u64, env: GCFlags): (s: Status)
  {
    if env.useTLAB && env.refillWasteLimit > MaxUintx - value then
      Violation(TlabWasteIncrementTooLarge, [value, MaxUintx - env.refillWasteLimit])
    else Success
  }

  /** The refill waste limit grows by the increment; the check accepts
      exactly the increments for which that sum does not wrap. */
  lemma TLABWasteIncrementMeaning(value: u64, env: GCFlags)
    ensures TLABWasteIncrementConstraintFunc(value, env).Success? <==>
              !env.useTLAB || env.refillWasteLimit + value <= MaxUintx
  {
  }

  function SurvivorRatioConstraintFunc(value: u64, env: GCFlags): (s: Status)
    requires env.spaceAlignment > 0
    ensures s.Success? <==> !env.survivorRatioIsCmdline || value * env.spaceAlignment <= env.maxHeapSize
  {
    DivBound(value, env.maxHeapSize, env.spaceAlignment);
    if env.survivorRatioIsCmdline && value > env.maxHeapSize / env.spaceAlignment then
      Violation(SurvivorRatioTooLarge, [value, env.maxHeapSize / env.spaceAlignment])
    else Success
  }

  // ---------------------------------------------------------------------------
  // Card size

  function GCCardSizeInBytesConstraintFunc(value: u32): (s: Status)
  {
    if !IsPowerOf2Bits(value) then Violation(CardSizeNotPowerOf2, [value]) else Success
  }

  lemma CardSizeMeaning(value: u32)
    ensures GCCardSizeInBytesConstraintFunc(value).Success? <==> exists k: nat :: Pow2(k) == value
  {
    PowerOf2BitsExactly(value);
  }
}
