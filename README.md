# Deoptimization, GC flag constraints and the Z address-space limit, in Dafny

This project models three parts of the HotSpot virtual machine and proves
properties of them.

- **Deoptimization** (`src/hotspot/share/runtime/deoptimization.cpp`).
  This is what happens when compiled code hits an uncommon trap or loses its
  dependencies:
  - the generation protocol of `DeoptimizationScope`, which marks nmethods
    and commits their deoptimization;
  - the `UnrollBlock` that describes the skeletal interpreter frames;
  - rematerialisation of scalar-replaced objects: box caches, reallocation,
    the superclass-first field order, and which objects have their fields
    reassigned;
  - relocking of eliminated monitors, and unlocking when reallocation fails;
  - the per-bytecode trap state, a small lattice packed into an int with a
    recompile bit;
  - the MethodData trap history query, `query_update_method_data`;
  - the recompilation policy of `uncommon_trap_inner`;
  - the deoptimization histogram kept by `gather_statistics`, and the queries
    that read it;
  - the reason and action names.
- **Shared GC flag constraints** (`src/hotspot/share/gc/shared/jvmFlagConstraintsGC.cpp`).
  These functions accept or reject a new value for a GC flag, given the
  values of other flags and what the selected collector reports.
- **The Z address-space limit** (`src/hotspot/share/gc/z/zAddressSpaceLimit.cpp`).
  This is the share of the reservable address space the Z heap may claim,
  and the line it logs.

The model follows the source's structure.
- State the source updates in place is a class with `modifies` clauses:
  - the deoptimization generations, a scope and an nmethod;
  - the `UnrollBlock`;
  - the `MethodData`;
  - the histogram array;
  - the deoptee thread's lock events and counters.
- Loops in the source are `while` loops with invariants. Each such method is
  proved equal to a specification function of its inputs. The lemmas about
  those functions state what the source promises.
- Pure computations are functions with named results. Examples are the trap-state
  lattice, the flag constraints, the box-cache lookups and the names.

Machine integers are modelled explicitly (module `MachineWords`).
- `uint` trap states, `juint` histogram cells and `size_t` arithmetic are
  unbounded integers, wrapped with `Wrap32` or `Wrap64` at the points where
  the histogram, trap-state and size_t arithmetic can overflow.
- `checked_cast<int>` is `CheckedCastInt`: the low 32 bits read as a signed
  int, which is the value itself whenever it fits.
- The `intptr_t` accumulator of `size_of_frames` is an unbounded integer,
  since it could pass 64 bits only through undefined behaviour (see "## Left out").
- Bit operations are defined by recursion on the bits, with lemmas.
- Reason and action values follow the order of the `_trap_reason_name` and
  `_trap_action_name` tables, which the source keeps in sync with the enums:
  - the JVMCI build has 32 reasons and the others 28;
  - `Reason_many` is -1;
  - the reasons recorded per bytecode are 1..8.
- `DataLayout::trap_bits` is 32, so `trap_mask` is all ones,
  `DS_REASON_MASK` is 2^31 - 1 and `DS_RECOMPILE_BIT` is 2^31.

These header values are assumptions of the model. The headers
(`deoptimization.hpp`, `methodData.hpp`, `gc_globals.hpp`, `zGlobals.hpp`)
are not part of this model.

## Model

| member | source | states |
|---|---|---|
| DeoptScope.DeoptGenerations.constructor | src/hotspot/share/runtime/deoptimization.cpp:109-111 | The global generations start with nothing committed, generation 1 active and no commit in progress. |
| DeoptScope.DeoptGenerations.HandshakeAllMarked | src/hotspot/share/runtime/deoptimization.cpp:1061-1073 | Deoptimizing all marked nmethods lets safepoints commit other rounds meanwhile. The active generation advances by those commits, and the committed generation reaches the last one; the counters keep `committed < active`. |
| DeoptScope.DeoptGenerations.AwaitRoundInFlight | src/hotspot/share/runtime/deoptimization.cpp:201-204 | Waiting for another thread's commit ends with that round committed (the committed generation never goes back) and no commit in progress. |
| DeoptScope.DeoptimizationScope.constructor | src/hotspot/share/runtime/deoptimization.cpp:113-119 | A new scope requires only the generation already committed, so a scope that marks nothing needs no commit. |
| DeoptScope.DeoptimizationScope.Close | src/hotspot/share/runtime/deoptimization.cpp:121-123 | The destructor asserts that the scope was deoptimized. That assertion is the method's precondition, and the method has no other effect. |
| DeoptScope.DeoptimizationScope.Dependent | src/hotspot/share/runtime/deoptimization.cpp:150-158 | A dependent nmethod raises the required generation to the maximum of the old one and the nmethod's mark generation, and is covered by the scope. |
| DeoptScope.DeoptimizationScope.Mark | src/hotspot/share/runtime/deoptimization.cpp:125-148 | An nmethod that cannot be deoptimized is left alone. An already marked one only becomes a dependency. An unmarked one is marked in the active generation, with or without recompile-count increments, and becomes a dependency. The required generation never decreases. |
| DeoptScope.DeoptimizationScope.DeoptimizeMarked | src/hotspot/share/runtime/deoptimization.cpp:160-225 | Before the universe is fully initialized nothing happens. Otherwise, afterwards the committed generation covers the required one and every nmethod the scope covers. At a safepoint, the active generation is committed directly and a new one opened. Away from a safepoint, a scope whose generation is already committed changes nothing. Otherwise the thread either commits a round itself (opening a new generation) or waits for the round in flight, ending with no commit in progress. |
| DeoptScope.DeoptimizeOne | src/hotspot/share/runtime/deoptimization.cpp:113-225 | The scope protocol end to end: once an nmethod is marked and the scope has deoptimized, the nmethod's generation is committed. |
| UnrollPlan.UnrollBlock.constructor | src/hotspot/share/runtime/deoptimization.cpp:227-251 | The block records its arguments and allocates the register block (two words per register). The cached total of frame sizes is `size_of_frames()`: the caller adjustment plus the sum of the frame sizes, passed through `checked_cast<int>`. |
| UnrollPlan.UnrollBlock.SizeOfFrames | src/hotspot/share/runtime/deoptimization.cpp:259-266 | The loop accumulates the caller adjustment plus the first `number_of_frames` frame sizes. It returns that sum through `checked_cast<int>`: the sum itself when it fits an int, otherwise its low 32 bits read as signed. |
| MachineWords.CheckedCastInt | src/hotspot/share/runtime/deoptimization.cpp:265 | `checked_cast<int>`: the result is a 32-bit int with the same low 32 bits as its argument, and it is the argument itself whenever that fits. The debug build asserts that it fits. |
| UnrollPlan.PlanFrames | src/hotspot/share/runtime/deoptimization.cpp:615-691 | Frame sizes are stored outermost first (`frame_sizes[n-1-i]` is the size of vframe i). Every inner pc is the deopt entry minus the return offset, and the final slot is the deopt entry. Only the youngest frame gets the PopFrame arguments. The callee's parameter and local counts are those of the last vframe. |
| UnrollPlan.FrameSize | src/hotspot/share/runtime/deoptimization.cpp:674-690 | Specification of one planned frame size: `BytesPerWord` times `on_stack_size` of element i, given its callee's (element i-1's) parameter and local counts, the youngest-frame flag and the PopFrame arguments for the youngest frame only. `PlanFrames` is proved to store exactly these sizes. |
| UnrollPlan.CallerAdjustment | src/hotspot/share/runtime/deoptimization.cpp:702-723 | A compiled or method-handle caller gets the adjustment for all callee locals. An interpreted caller that already supplies enough parameters needs none. |
| UnrollPlan.CallerAdjustmentCoversMissingLocals | src/hotspot/share/runtime/deoptimization.cpp:702-723 | With a linear `last_frame_adjust`, the adjustment equals the callee locals the caller does not already provide, times the stack element size. |
| UnrollPlan.CallerActualParameters | src/hotspot/share/runtime/deoptimization.cpp:756-759 | The value is -1 unless the sender is interpreted. Then it is the callee parameters, plus one for a method-handle call. Its partner is `ActualParametersAndAdjustment`. |
| UnrollPlan.ActualParametersAndAdjustment | src/hotspot/share/runtime/deoptimization.cpp:715-723 | Ties the caller's actual parameters to the caller adjustment for an interpreted caller. Without a method-handle call, the adjustment covers exactly the callee locals beyond the parameters the caller actually pushed. With one, the caller pushed one more parameter (the member name), but the adjustment counts all of the callee's locals. |
| UnrollPlan.UnpackMode | src/hotspot/share/runtime/deoptimization.cpp:736-748 | The exec mode becomes Unpack_exception when JVMCI left an exception object, or when frames remain to pop after a failed reallocation and the mode is not Unpack_uncommon_trap. Otherwise it is kept. |
| UnrollPlan.PendingExceptionReturnsOop | src/hotspot/share/runtime/deoptimization.cpp:736-748 | Composes the unpack mode with the return type `unpack_frames` reports (lines 908-914). If a JVMCI exception object is left, or frames remain to pop after a failed reallocation outside an uncommon trap, the mode is Unpack_exception and the reported type is T_OBJECT, so the exception oop is not overwritten. With no exception pending the block's own return type is reported. |
| UnrollPlan.PlanUnrollBlock | src/hotspot/share/runtime/deoptimization.cpp:615-781 | The block that `fetch_unroll_info_helper` builds: the frame count, the reversed frame sizes, the pcs, the caller adjustment and actual parameters in bytes, the deoptimized frame size, the return type (T_ILLEGAL without a valid root invoke), the exec mode, and the total of the frame sizes through `checked_cast<int>`. |
| UnrollPlan.FirstFramePc | src/hotspot/share/runtime/deoptimization.cpp:729 | Specification of `frame_pcs[0]`: the continuation return barrier when the deoptee is a continuation barrier frame, otherwise the sender's raw pc. `PlanUnrollBlock` is proved to store it. |
| TrapState.EnoughBits | src/hotspot/share/runtime/deoptimization.cpp:2652-2662 | The reason mask leaves room for every reason recorded per bytecode. The recompile bit is the top bit and the reason mask the 31 bits below it. |
| TrapState.SplitState | src/hotspot/share/runtime/deoptimization.cpp:2663-2664 | A trap state is its reason field plus its recompile bit, and these two determine it. |
| TrapState.TrapStateReason | src/hotspot/share/runtime/deoptimization.cpp:2656-2671 | The decoded reason is `Reason_many` exactly when the reason field is all ones, and otherwise the field itself. |
| TrapState.TrapStateHasReason | src/hotspot/share/runtime/deoptimization.cpp:2672-2687 | Specification of `trap_state_has_reason`: -1 for the bottom state, 1 for the stored reason, 0 otherwise. `HasReasonAgreesWithReason` proves it agrees with the decoded reason. |
| TrapState.HasReasonAgreesWithReason | src/hotspot/share/runtime/deoptimization.cpp:2672-2687 | `trap_state_has_reason` is -1 for the lattice bottom, 1 when the state holds exactly that reason, and 0 otherwise. The recompile bit plays no part. |
| TrapState.TrapStateAddReason | src/hotspot/share/runtime/deoptimization.cpp:2688-2702 | Specification of `trap_state_add_reason`, keeping the recompile bit. Its lattice laws are the lemmas `AddReasonMeet` to `AddReasonWellFormed` below. |
| TrapState.AddReasonMeet | src/hotspot/share/runtime/deoptimization.cpp:2688-2702 | Adding a reason is a lattice meet: an empty state takes the reason, the same reason or the bottom is unchanged, and a different reason falls to the bottom. The recompile bit is kept. |
| TrapState.AddReasonIdempotent | src/hotspot/share/runtime/deoptimization.cpp:2688-2702 | Adding the same reason twice is the same as adding it once. |
| TrapState.AddReasonFromNone | src/hotspot/share/runtime/deoptimization.cpp:2697-2698 | Adding a reason to an empty state gives a state whose reason is that reason, definitely present. |
| TrapState.AddReasonCollapses | src/hotspot/share/runtime/deoptimization.cpp:2699-2700 | Adding a second, different reason yields `Reason_many`, a state that adding any further per-bytecode reason leaves unchanged. |
| TrapState.AddReasonCommutes | src/hotspot/share/runtime/deoptimization.cpp:2688-2702 | The order in which two reasons are added does not matter. |
| TrapState.AddReasonWellFormed | src/hotspot/share/runtime/deoptimization.cpp:2688-2702 | Adding a reason keeps the reason field empty, a recorded reason, or the bottom. |
| TrapState.TrapStateIsRecompiled | src/hotspot/share/runtime/deoptimization.cpp:2703-2706 | Specification of `trap_state_is_recompiled`: the state's top bit. `SplitState` proves a state is its reason field plus this bit. |
| TrapState.TrapStateSetRecompiled | src/hotspot/share/runtime/deoptimization.cpp:2707-2711 | Specification of `trap_state_set_recompiled`: the reason field with the top bit set or cleared. `SetRecompiledOnlyTheBit` and `SetRecompiledWellFormed` state what it changes and keeps. |
| TrapState.SetRecompiledOnlyTheBit | src/hotspot/share/runtime/deoptimization.cpp:2703-2711 | Setting or clearing the recompile bit changes only that bit, and the recompiled test then reads what was set. |
| TrapState.SetRecompiledWellFormed | src/hotspot/share/runtime/deoptimization.cpp:2707-2711 | Setting the recompile bit keeps a state well formed. |
| TrapState.ReencodeTrapState | src/hotspot/share/runtime/deoptimization.cpp:2717-2724 | Specification of the re-encoding in `format_trap_state` as written. `ReencodeAsWritten` and `PlainManyIsNotFormattedSymbolically` state its results. |
| TrapState.FormatTrapState | src/hotspot/share/runtime/deoptimization.cpp:2713-2738 | Specification of `format_trap_state` as written: `#` and the signed value when the state does not re-encode to itself, the reason name and an optional " recompiled" otherwise. `PlainManyIsNotFormattedSymbolically` exhibits the plain-many case. |
| TrapState.ReencodeAsWritten | src/hotspot/share/runtime/deoptimization.cpp:2717-2724 | The re-encoding in `format_trap_state` gives back every well-formed state except a plain `many` without the recompile bit. |
| TrapState.CollapseGivesPlainMany | src/hotspot/share/runtime/deoptimization.cpp:2699-2700 | Recording NullCheck and then RangeCheck at one bci produces exactly that plain `many` state. |
| TrapState.PlainManyIsNotFormattedSymbolically | src/hotspot/share/runtime/deoptimization.cpp:2729-2731 | As written, a plain `many` state is printed as `#<number>` and not as `many`. |
| TrapState.ReencodeTrapStateCorrected | src/hotspot/share/runtime/deoptimization.cpp:2717-2724 | The re-encoding with `Reason_many` restored as `DS_REASON_MASK`. `ReencodeCorrected` proves it gives back every well-formed state. |
| TrapState.ReencodeCorrected | src/hotspot/share/runtime/deoptimization.cpp:2717-2724 | With `Reason_many` re-encoded as the reason mask, every well-formed state re-encodes to itself. |
| TrapState.FormatTrapStateCorrected | src/hotspot/share/runtime/deoptimization.cpp:2713-2738 | With that correction, every well-formed state is formatted as its reason name, followed by ` recompiled` when the bit is set. |
| TrapState.BuiltStatesFormatSymbolically | src/hotspot/share/runtime/deoptimization.cpp:2713-2738 | Any state built by adding reasons and setting the bit is formatted symbolically by the corrected routine. |
| DeoptEnums.ReasonNames | src/hotspot/share/runtime/deoptimization.cpp:2742-2778 | There is one name per reason: 32 with JVMCI and 28 without. |
| DeoptEnums.ActionNames | src/hotspot/share/runtime/deoptimization.cpp:2779-2786 | There is one name per action: five. |
| DeoptEnums.TrapReasonName | src/hotspot/share/runtime/deoptimization.cpp:2788-2798 | `Reason_many` is named `many`, a reason below `Reason_LIMIT` its table entry, and any other value `reason` followed by its signed decimal, which parses back to the value. |
| DeoptEnums.TrapActionName | src/hotspot/share/runtime/deoptimization.cpp:2799-2808 | An action below `Action_LIMIT` is named by its table entry, and any other value `action` followed by its decimal, which parses back to the value. |
| DeoptEnums.ReasonNamesAreNotFallbacks | src/hotspot/share/runtime/deoptimization.cpp:2742-2778 | No table name is `many` or begins with `reason`, so a table name cannot be mistaken for a fallback name. |
| DeoptEnums.ReasonNamesDistinct | src/hotspot/share/runtime/deoptimization.cpp:2742-2778 | The reason names are pairwise distinct, with and without JVMCI. |
| DeoptEnums.TrapReasonNameInjective | src/hotspot/share/runtime/deoptimization.cpp:2788-2798 | Two reasons with the same name are the same reason. |
| DeoptEnums.TrapActionNameInjective | src/hotspot/share/runtime/deoptimization.cpp:2799-2808 | Two actions with the same name are the same action. |
| Decimal.NatToDecimal | src/hotspot/share/runtime/deoptimization.cpp:2796 | The `%d` text of a natural: at least one character, all digits. `NatToDecimalRoundTrip` proves `ParseNat` reads it back. |
| Decimal.IntToDecimal | src/hotspot/share/runtime/deoptimization.cpp:2796 | The `%d` text of an int, with a leading minus exactly for negatives. `IntToDecimalRoundTrip` proves `ParseInt` reads it back. |
| Decimal.ParseInt | src/hotspot/share/runtime/deoptimization.cpp:2796 | The reference reading of a `%d` text, the inverse against which `IntToDecimal` is proved (`IntToDecimalRoundTrip`, `IntToDecimalInjective`). |
| Decimal.NatToDecimalRoundTrip | src/hotspot/share/runtime/deoptimization.cpp:2796 | The decimal digits of a natural number parse back to it. |
| Decimal.IntToDecimalRoundTrip | src/hotspot/share/runtime/deoptimization.cpp:2796 | `%d` of an int, with its minus sign, parses back to the int. |
| Decimal.IntToDecimalInjective | src/hotspot/share/runtime/deoptimization.cpp:2796 | Different ints print differently. |
| TrapHistogram.CellIndexInRange | src/hotspot/share/runtime/deoptimization.cpp:2838-2842 | Every cell `[reason][1 + action][case]` is inside the flat histogram. |
| TrapHistogram.CellIndexInjective | src/hotspot/share/runtime/deoptimization.cpp:2838-2842 | Different cells of the three-dimensional table occupy different slots. |
| TrapHistogram.RowCells | src/hotspot/share/runtime/deoptimization.cpp:2855 | The cases of a row are the BC_CASE_LIMIT consecutive cells of `[reason][row]`. |
| TrapHistogram.Scan | src/hotspot/share/runtime/deoptimization.cpp:2859-2870 | Specification of the case scan: the last of the first n cells carrying the bytecode's tag, or else the first free cell. `ScanChoice` states it, and `Histogram.ScanCases` is proved equal to it. |
| TrapHistogram.ScanChoice | src/hotspot/share/runtime/deoptimization.cpp:2859-2870 | The scan picks the last case tagged with the bytecode; otherwise the first empty case; otherwise none. |
| TrapHistogram.ChosenCase | src/hotspot/share/runtime/deoptimization.cpp:2859-2875 | The case incremented is the scanned one, or the last case on overflow or without a bytecode. |
| TrapHistogram.BumpedCell | src/hotspot/share/runtime/deoptimization.cpp:2859-2876 | Specification of the value stored into the chosen case cell. `BumpedCellCounts` and `BumpArithmetic` prove it carries the bytecode's tag and one more count. |
| TrapHistogram.BumpedCellCounts | src/hotspot/share/runtime/deoptimization.cpp:2859-2876 | The chosen case gets the bytecode as its tag (or a cleared tag when no case matched) and, below saturation, one more count. |
| TrapHistogram.BumpArithmetic | src/hotspot/share/runtime/deoptimization.cpp:2844-2847 | Adding `1 << LSB_BITS` in 32 bits keeps the tag in the low byte and adds one to the count above it. |
| TrapHistogram.CountedTotals | src/hotspot/share/runtime/deoptimization.cpp:2853-2854 | Counting the totals keeps the histogram's shape. |
| TrapHistogram.CountedCase | src/hotspot/share/runtime/deoptimization.cpp:2855-2876 | Counting the case keeps the histogram's shape. |
| TrapHistogram.Gathered | src/hotspot/share/runtime/deoptimization.cpp:2849-2877 | A whole `gather_statistics` update keeps the histogram's shape. |
| TrapHistogram.GatheredCells | src/hotspot/share/runtime/deoptimization.cpp:2849-2877 | A trap changes exactly three cells. The total grows by one (by two for `Reason_none`, whose per-reason total is the same cell), the per-reason total grows by one, and the chosen case is bumped. All other cells are unchanged. |
| TrapHistogram.ReasonCountsStep | src/hotspot/share/runtime/deoptimization.cpp:2887-2905 | Summing the selected counts one reason at a time in 32 bits equals the wrapped unbounded sum. |
| TrapHistogram.CaseCountsBump | src/hotspot/share/runtime/deoptimization.cpp:2893-2901 | If one case gains a count and the others keep theirs, the row's sum of counts grows by one. |
| TrapHistogram.ActionCountsBump | src/hotspot/share/runtime/deoptimization.cpp:2893-2901 | The same holds one level up: across the actions of a reason, the selected sum grows by one exactly when the bumped action is selected. |
| TrapHistogram.ReasonCountsBump | src/hotspot/share/runtime/deoptimization.cpp:2887-2905 | The same holds across reasons: the selected sum grows by one exactly when the bumped reason and action are both selected. |
| TrapHistogram.GatherBumpsOneCount | src/hotspot/share/runtime/deoptimization.cpp:2849-2877 | Below saturation, a trap adds one count to its own case and leaves the count of every other case cell unchanged. |
| TrapHistogram.CountAfterGather | src/hotspot/share/runtime/deoptimization.cpp:2849-2905 | After a trap, `deoptimization_count` for any reason/action filter grows by one exactly when the trap's reason and action pass the filter. |
| TrapHistogram.CountByNamesAfterGather | src/hotspot/share/runtime/deoptimization.cpp:2887-2905 | Querying by the names of a reason and an action counts exactly that pair: a trap of that pair adds one, any other trap adds nothing. |
| TrapHistogram.Histogram.constructor | src/hotspot/share/runtime/deoptimization.cpp:2838-2842 | The histogram starts as all zeros. |
| TrapHistogram.Histogram.ScanCases | src/hotspot/share/runtime/deoptimization.cpp:2859-2870 | The scanning loop finds what the `Scan` specification finds, with the counter or-ed with the bytecode. |
| TrapHistogram.Histogram.GatherStatistics | src/hotspot/share/runtime/deoptimization.cpp:2849-2877 | The array after the update is `Gathered` of the array before. |
| TrapHistogram.Histogram.CountCase | src/hotspot/share/runtime/deoptimization.cpp:2855-2876 | The case update writes `CountedCase` of the old array. |
| TrapHistogram.Histogram.TotalDeoptimizationCount | src/hotspot/share/runtime/deoptimization.cpp:2879-2881 | The total is read as a jint. |
| TrapHistogram.Histogram.DeoptimizationCount | src/hotspot/share/runtime/deoptimization.cpp:2887-2905 | Without filters the result is the total. Otherwise it is the wrapped sum of the counts of every selected reason, action and case, as a jint. |
| TrapHistogram.Histogram.SumSelected | src/hotspot/share/runtime/deoptimization.cpp:2891-2903 | The nested loops compute the 32-bit sum of the selected counts. |
| TrapHistogram.Histogram.AddReasonCounts | src/hotspot/share/runtime/deoptimization.cpp:2893-2902 | One reason adds its selected actions' counts if it is selected, and nothing otherwise. |
| TrapHistogram.Histogram.AddActionCounts | src/hotspot/share/runtime/deoptimization.cpp:2894-2901 | The actions of a reason add the case counts of the selected actions. |
| TrapHistogram.Histogram.AddCaseCounts | src/hotspot/share/runtime/deoptimization.cpp:2896-2899 | The cases of a row add their counts, with the tag shifted out. |
| TrapPolicy.HistoryIndex | src/hotspot/share/runtime/deoptimization.cpp:2544-2550 | JVMCI OSR traps are counted in the upper half of the trap history, and all others in the lower half. |
| TrapPolicy.PerBciState | src/hotspot/share/runtime/deoptimization.cpp:2566-2574 | Per-bytecode data exists only for a per-bytecode reason. It is the bci's own data, or a fresh empty state when a spare slot is left, or none. |
| TrapPolicy.QueryFlags | src/hotspot/share/runtime/deoptimization.cpp:2540-2603 | The trap count is the prior count plus one when counted. A prior trap is reported exactly when the trap is counted, the method-wide history is nonzero and, where a per-bytecode datum exists, that datum holds the reason (or many). A prior recompile is reported likewise, from the decompile count and the datum's recompile bit. |
| TrapPolicy.RepeatedTrapIsSeen | src/hotspot/share/runtime/deoptimization.cpp:2583-2598 | A trap recorded at a bci is reported as a prior trap by the next counted query at that bci for the same reason. |
| TrapPolicy.MethodData.QueryUpdate | src/hotspot/share/runtime/deoptimization.cpp:2525-2610 | `query_update_method_data` counts the trap in the history slot (when asked to) and allocates or finds the bci's datum. It returns exactly `QueryFlags` of the old state, adds the reason to the datum, uses a spare slot only for a new bci, and changes nothing else. |
| TrapPolicy.MethodData.CountTrap | src/hotspot/share/runtime/deoptimization.cpp:2543-2561 | The trap history slot grows by one and its previous count is returned. |
| TrapPolicy.MethodData.RecordPerBci | src/hotspot/share/runtime/deoptimization.cpp:2566-2603 | The datum of the bci is found or allocated. The method reports whether it held the reason and the recompile bit before, and its state becomes `add_reason` of the old one. |
| TrapPolicy.MethodData.AllocateBciToData | src/hotspot/share/runtime/deoptimization.cpp:2572 | A datum is found iff the bci had one or a spare slot was left. A new one starts with an empty trap state and uses up one spare slot. |
| TrapPolicy.MethodData.SetRecompiled | src/hotspot/share/runtime/deoptimization.cpp:2470-2476 | Only the bci's recompile bit is set. |
| TrapPolicy.UpdatesTrapState | src/hotspot/share/runtime/deoptimization.cpp:2313-2325 | The trap state is updated only for an action other than Action_none, a reason other than `Reason_tenured`, a trap not caused by an injected profile, and profile deoptimization not skipped (lines 2370-2371). |
| TrapPolicy.DecisionFlags | src/hotspot/share/runtime/deoptimization.cpp:2317-2460 | These are the flags at the call of `make_not_entrant`. Make-not-compilable comes exactly from its action and implies make-not-entrant. Without the history, make-not-entrant follows the action alone and no recompile count is taken. |
| TrapPolicy.FinishDecision | src/hotspot/share/runtime/deoptimization.cpp:2465-2507 | The policy returns early exactly when make-not-entrant was asked for and failed. The flags are kept. Exceeding `PerBytecodeRecompilationCutoff` gives up on the method. |
| TrapPolicy.PolicyDecision | src/hotspot/share/runtime/deoptimization.cpp:2313-2507 | In closed form, the compiled code is made not entrant after a repeated per-bytecode trap, an untracked reason, or too many traps in the method. A repeated recompile reprofiles and counts, and the cutoff makes the method not compilable. |
| TrapPolicy.ConsultHistory | src/hotspot/share/runtime/deoptimization.cpp:2388-2460 | The history branch queries the MethodData as `QueryUpdate` specifies and settles the flags that `DecisionFlags` gives. |
| TrapPolicy.RecordRecompilation | src/hotspot/share/runtime/deoptimization.cpp:2465-2482 | After a successful `make_not_entrant`, the bci's datum is marked recompiled and `Reason_tenured` counts a tenure trap. |
| TrapPolicy.CountOverflowRecompile | src/hotspot/share/runtime/deoptimization.cpp:2484-2496 | The overflow recompile count grows by one, and the method reports whether it now exceeds the cutoff, compared as `uint`. |
| TrapPolicy.UncommonTrapPolicy | src/hotspot/share/runtime/deoptimization.cpp:2313-2507 | The whole decision block produces exactly `PolicyDecision` of the query's results, and its effect on the MethodData is the query's plus the recompilation's. The history index must lie inside the history only when the MethodData is queried. A `Reason_tenured` trap, whose reason equals the history length, skips the query and counts one tenure trap once the code is made not entrant. |
| TrapPolicy.SettleFlags | src/hotspot/share/runtime/deoptimization.cpp:2317-2460 | The action switch and the history query give `DecisionFlags`. |
| TrapPolicy.CarryOut | src/hotspot/share/runtime/deoptimization.cpp:2465-2507 | From the settled flags on, the outcome is `FinishDecision`. |
| ObjectReversal.NewBoxCache | src/hotspot/share/runtime/deoptimization.cpp:1101-1114 | A cache class in error state gives a cache without boxes and an empty range. Otherwise the range starts at the first box's value and spans the cache. |
| ObjectReversal.Lookup | src/hotspot/share/runtime/deoptimization.cpp:1128-1134 | A box is found exactly for values inside `[low, high]`. |
| ObjectReversal.LookupFindsCachedBoxes | src/hotspot/share/runtime/deoptimization.cpp:1108-1134 | The value at offset i of a cache finds the i-th cached box. |
| ObjectReversal.ErrorCacheFindsNothing | src/hotspot/share/runtime/deoptimization.cpp:1103-1106 | A cache built in error state finds no box. |
| ObjectReversal.PrimitiveValue | src/hotspot/share/runtime/deoptimization.cpp:1140-1145 | The raw stack slot is read as a jlong, or through its low jint cast to the primitive type. The result lies in the type's range and is the value itself when that is in range. |
| ObjectReversal.LookupRaw | src/hotspot/share/runtime/deoptimization.cpp:1135-1147 | An uninitialised cache reports the error and no box; otherwise the result is the lookup of the primitive value. |
| ObjectReversal.LookupRawOfStoredValue | src/hotspot/share/runtime/deoptimization.cpp:1135-1147 | A value in the cache's range stored in a stack slot finds its cached box, without error. |
| ObjectReversal.BooleanLookupRaw | src/hotspot/share/runtime/deoptimization.cpp:1191-1205 | An uninitialised Boolean cache reports the error and no box. Otherwise only the low byte of the stack word decides: TRUE when the byte is nonzero, FALSE when it is zero. So a word of 2 gives TRUE and a word of 256 gives FALSE. |
| MachineWords.JintLowByte | src/hotspot/share/runtime/deoptimization.cpp:1197 | Reading the low 32 bits of a word as a jint keeps the word's low byte, which is the jboolean the Boolean cache looks up. |
| ObjectReversal.BoxKindOf | src/hotspot/share/runtime/deoptimization.cpp:1215-1222 | The numeric box types are int, long, char, short and byte. |
| ObjectReversal.GetCachedBox | src/hotspot/share/runtime/deoptimization.cpp:1210-1226 | Each box type is looked up in its own cache and booleans in the boolean cache. Any other type gives no box and no error. |
| ObjectReversal.CachedBoxOfValue | src/hotspot/share/runtime/deoptimization.cpp:1210-1226 | A boxed value in range is found in its type's cache. |
| ObjectReversal.DeclaredReassignedAppend | src/hotspot/share/runtime/deoptimization.cpp:1481-1488 | Filtering fields distributes over concatenation. |
| ObjectReversal.DeclaredReassignedMembers | src/hotspot/share/runtime/deoptimization.cpp:1481-1488 | A reassigned field comes from a declared field that is not static and, outside JVMCI, not injected. |
| ObjectReversal.ReassignedFieldsOf | src/hotspot/share/runtime/deoptimization.cpp:1476-1490 | Specification of the fields `get_reassigned_fields` collects for a class: its superclass's fields first, then its own counting fields. `ReassignedFieldsAreChainFilter`, `SuperclassFieldsFirst` and `ReassignedFieldsMembers` state what it contains. |
| ObjectReversal.ReassignedFieldsAreChainFilter | src/hotspot/share/runtime/deoptimization.cpp:1476-1490 | `get_reassigned_fields` keeps the instance fields of the whole superclass chain, outermost superclass first, in declaration order. |
| ObjectReversal.SuperclassFieldsFirst | src/hotspot/share/runtime/deoptimization.cpp:1477-1480 | The superclass's fields come before the class's own. |
| ObjectReversal.ReassignedFieldsMembers | src/hotspot/share/runtime/deoptimization.cpp:1476-1490 | A field is reassigned exactly when some class of the chain declares it as a non-static field that counts for this compiler. |
| ObjectReversal.GetReassignedFields | src/hotspot/share/runtime/deoptimization.cpp:1475-1490 | The recursive call and the field loop append exactly the reassigned fields of the chain to the given list. |
| ObjectReversal.ReallocOne | src/hotspot/share/runtime/deoptimization.cpp:1238-1290 | Only the object's value and cached flag change. A failure is exactly a missing value. A cached box is used only for a JVMCI-compiled instance of an auto box. |
| ObjectReversal.ReallocOneOutcomes | src/hotspot/share/runtime/deoptimization.cpp:1238-1290 | Except for a JVMCI-compiled auto box, the object gets the fresh allocation and keeps its cached flag. For such a box, a cache error is a failure, and a box found in the cache becomes the object's value and marks it cached. |
| ObjectReversal.ReallocObjects | src/hotspot/share/runtime/deoptimization.cpp:1230-1301 | Every object is reallocated as `ReallocOne` says. Failure is reported exactly when some object is left without a value. The pending exception becomes the out-of-memory error on failure and is restored otherwise. |
| ObjectReversal.ReassignmentOf | src/hotspot/share/runtime/deoptimization.cpp:1618-1626 | Instances get their reassigned fields, type arrays their elements of the element type, and object arrays their elements. |
| ObjectReversal.ReassignFields | src/hotspot/share/runtime/deoptimization.cpp:1576-1632 | The loop reassigns, in order, exactly the objects that were reallocated, are not cached boxes and are not vectors whose payload is in a vector register, and each in the way `ReassignmentOf` states. |
| ObjectReversal.UnskippedIndicesMembers | src/hotspot/share/runtime/deoptimization.cpp:1589-1617 | An object is reassigned exactly when it is not skipped. |
| ObjectReversal.UnskippedIndicesIncrease | src/hotspot/share/runtime/deoptimization.cpp:1577 | Objects are reassigned in increasing index order, each at most once. |
| ObjectReversal.NothingSkippedReassignsAll | src/hotspot/share/runtime/deoptimization.cpp:1577-1626 | When no object is skipped, every object is reassigned, in order. |
| ObjectReversal.CountNumberOfBytesForEntry | src/hotspot/share/runtime/deoptimization.cpp:1322-1327 | An entry spans itself and the markers that follow it, up to the next non-marker or the end. |
| LockReversal.DeopteeThread.constructor | src/hotspot/share/runtime/deoptimization.cpp:1636-1704 | A thread starts with no lock events, no deferred relocks and no frames to pop. |
| LockReversal.DeopteeThread.RelockObjects | src/hotspot/share/runtime/deoptimization.cpp:1636-1704 | The result is true exactly when some monitor was eliminated. The eliminated monitors are relocked in order, except the one the thread waits on in Unpack_none mode, which is counted as relocked after the wait. |
| LockReversal.DeopteeThread.RestoreEliminatedLocks | src/hotspot/share/runtime/deoptimization.cpp:394-446 | The frames of a chunk are relocked from the outermost to the innermost. The deoptimized flag is set exactly when some frame had eliminated locks. |
| LockReversal.DeopteeThread.PopFramesFailedReallocs | src/hotspot/share/runtime/deoptimization.cpp:1758-1783 | After a failed reallocation every frame is popped. Its held monitors are exited from the most nested down, its monitor chunk is freed, and the number of frames to pop is recorded. |
| LockReversal.DeopteeThread.UnlockChunk | src/hotspot/share/runtime/deoptimization.cpp:1769-1774 | The monitors of one frame that have an owner are exited from the most nested to the outermost. |
| LockReversal.RelockEvents | src/hotspot/share/runtime/deoptimization.cpp:1642-1700 | Specification of the enter events `relock_objects` performs for the first n monitors of a frame. `RelockEventsMembers`, `RelockedOrDeferred` and `NoDeferralWhenUnpacking` state which monitors they cover. |
| LockReversal.ExitsDown | src/hotspot/share/runtime/deoptimization.cpp:1769-1774 | Specification of the exit events of the unlock loop, from the last monitor down to monitor j. `ExitsDownMembers`, `MostNestedUnlockedFirst` and `ExitsDownCount` state their members, order and number. |
| LockReversal.RelockEventsMembers | src/hotspot/share/runtime/deoptimization.cpp:1642-1700 | An object is entered exactly when some eliminated monitor owns it and its relock is not deferred. |
| LockReversal.RelockedOrDeferred | src/hotspot/share/runtime/deoptimization.cpp:1642-1700 | Every eliminated monitor with an owner is either relocked or deferred, and not both. |
| LockReversal.NoDeferralWhenUnpacking | src/hotspot/share/runtime/deoptimization.cpp:1660-1666 | Outside Unpack_none no relock is deferred. |
| LockReversal.OutermostFrameRelocksFirst | src/hotspot/share/runtime/deoptimization.cpp:405-410 | The outermost frame's relocks come first among the chunk's events. |
| LockReversal.ExitsDownMembers | src/hotspot/share/runtime/deoptimization.cpp:1769-1774 | Exactly the owned monitors of the frame are exited. |
| LockReversal.MostNestedUnlockedFirst | src/hotspot/share/runtime/deoptimization.cpp:1769-1774 | The first exit is that of the most nested monitor. |
| LockReversal.ExitsDownCount | src/hotspot/share/runtime/deoptimization.cpp:1769-1774 | There is one exit per owned monitor. |
| FlagConstraintsGC.MinPLABSizeBounds | src/hotspot/share/gc/shared/jvmFlagConstraintsGC.cpp:55-66 | With G1 or Parallel selected, a PLAB size below `PLAB::min_size()` is rejected, and the message shows both values. |
| FlagConstraintsGC.MaxPLABSizeBounds | src/hotspot/share/gc/shared/jvmFlagConstraintsGC.cpp:68-79 | With G1 or Parallel selected, a PLAB size above `PLAB::max_size()` is rejected. |
| FlagConstraintsGC.MinMaxPLABSizeBounds | src/hotspot/share/gc/shared/jvmFlagConstraintsGC.cpp:81-88 | Specification of the two PLAB bounds in sequence, the minimum checked first. `PLABSizeBoundsMeaning` proves it accepts exactly the values within both bounds. |
| FlagConstraintsGC.PLABSizeBoundsMeaning | src/hotspot/share/gc/shared/jvmFlagConstraintsGC.cpp:81-88 | A PLAB size passes exactly when it lies within both bounds or no PLAB collector is selected. The minimum is reported first. |
| FlagConstraintsGC.YoungPLABSizeConstraintFunc | src/hotspot/share/gc/shared/jvmFlagConstraintsGC.cpp:90-92 | YoungPLABSize passes exactly within the PLAB bounds. |
| FlagConstraintsGC.OldPLABSizeConstraintFunc | src/hotspot/share/gc/shared/jvmFlagConstraintsGC.cpp:94-96 | OldPLABSize passes exactly within the PLAB bounds. |
| FlagConstraintsGC.MinHeapFreeRatioConstraintFunc | src/hotspot/share/gc/shared/jvmFlagConstraintsGC.cpp:98-108 | Its message shows the value and MaxHeapFreeRatio. |
| FlagConstraintsGC.MaxHeapFreeRatioConstraintFunc | src/hotspot/share/gc/shared/jvmFlagConstraintsGC.cpp:110-120 | Its message shows the value and MinHeapFreeRatio. |
| FlagConstraintsGC.HeapFreeRatioPair | src/hotspot/share/gc/shared/jvmFlagConstraintsGC.cpp:98-120 | Both constraints accept exactly the pairs with `MinHeapFreeRatio <= MaxHeapFreeRatio`. |
| FlagConstraintsGC.CheckMaxHeapSizeAndSoftRefLRUPolicyMSPerMB | src/hotspot/share/gc/shared/jvmFlagConstraintsGC.cpp:122-133 | Specification of the soft-reference lifetime check, written with the source's division. `SoftRefLifetimeMeaning` proves it accepts exactly the pairs whose product fits max_uintx. |
| FlagConstraintsGC.SoftRefLifetimeMeaning | src/hotspot/share/gc/shared/jvmFlagConstraintsGC.cpp:122-133 | The check fails exactly when MaxHeapSize in megabytes times SoftRefLRUPolicyMSPerMB would not fit in uintx. |
| FlagConstraintsGC.SoftRefLRUPolicyMSPerMBConstraintFunc | src/hotspot/share/gc/shared/jvmFlagConstraintsGC.cpp:135-137 | A value passes exactly when it is not positive, or when the lifetime product with the current MaxHeapSize fits. |
| FlagConstraintsGC.MarkStackSizeConstraintFunc | src/hotspot/share/gc/shared/jvmFlagConstraintsGC.cpp:139-150 | MarkStackSize passes exactly when it is at most MarkStackSizeMax. |
| FlagConstraintsGC.MinMetaspaceFreeRatioConstraintFunc | src/hotspot/share/gc/shared/jvmFlagConstraintsGC.cpp:152-162 | Its message shows the value and MaxMetaspaceFreeRatio. |
| FlagConstraintsGC.MaxMetaspaceFreeRatioConstraintFunc | src/hotspot/share/gc/shared/jvmFlagConstraintsGC.cpp:164-174 | Its message shows the value and MinMetaspaceFreeRatio. |
| FlagConstraintsGC.MetaspaceFreeRatioPair | src/hotspot/share/gc/shared/jvmFlagConstraintsGC.cpp:152-174 | Both constraints accept exactly the pairs with min <= max. |
| FlagConstraintsGC.InitialTenuringThresholdConstraintFunc | src/hotspot/share/gc/shared/jvmFlagConstraintsGC.cpp:176-185 | The verdict is the Parallel collector's. |
| FlagConstraintsGC.MaxTenuringThresholdConstraintFunc | src/hotspot/share/gc/shared/jvmFlagConstraintsGC.cpp:187-206 | Specification of the MaxTenuringThreshold constraint: the Parallel verdict first, then rejection of 0 unless tenuring is forced. `MaxTenuringThresholdMeaning` states when it succeeds. |
| FlagConstraintsGC.MaxTenuringThresholdMeaning | src/hotspot/share/gc/shared/jvmFlagConstraintsGC.cpp:187-206 | A threshold passes exactly when Parallel accepts it and, for 0, AlwaysTenure is set and NeverTenure is not. Parallel's rejection is passed through. |
| FlagConstraintsGC.MaxGCPauseMillisConstraintFunc | src/hotspot/share/gc/shared/jvmFlagConstraintsGC.cpp:208-217 | The verdict is G1's. |
| FlagConstraintsGC.GCPauseIntervalMillisConstraintFunc | src/hotspot/share/gc/shared/jvmFlagConstraintsGC.cpp:219-228 | The verdict is G1's. |
| FlagConstraintsGC.MaxSizeForAlignment | src/hotspot/share/gc/shared/jvmFlagConstraintsGC.cpp:231-241 | The message shows the value and the aligned maximum `(max_uintx - alignment) & ~(alignment - 1)`. |
| FlagConstraintsGC.AlignedMaxOfPow2 | src/hotspot/share/gc/shared/jvmFlagConstraintsGC.cpp:232 | For an alignment 2^k the aligned maximum is 2^64 - 2^(k+1). |
| FlagConstraintsGC.MaxSizeForPow2Alignment | src/hotspot/share/gc/shared/jvmFlagConstraintsGC.cpp:231-241 | For a power-of-two alignment a size passes exactly when it is at most 2^64 - 2 * alignment. |
| FlagConstraintsGC.AcceptedSizeAlignsUp | src/hotspot/share/gc/shared/jvmFlagConstraintsGC.cpp:231-241 | An accepted size aligns up to the alignment without wrapping, with room for one more alignment unit above it. |
| FlagConstraintsGC.MaxSizeForHeapAlignment | src/hotspot/share/gc/shared/jvmFlagConstraintsGC.cpp:243-257 | A size passes exactly up to the aligned maximum of the heap alignment, which is G1's under UseG1GC and the computed one otherwise. |
| FlagConstraintsGC.MinHeapSizeConstraintFunc | src/hotspot/share/gc/shared/jvmFlagConstraintsGC.cpp:259-261 | MinHeapSize passes exactly up to the aligned maximum of the heap alignment. |
| FlagConstraintsGC.InitialHeapSizeConstraintFunc | src/hotspot/share/gc/shared/jvmFlagConstraintsGC.cpp:263-265 | InitialHeapSize passes exactly up to the aligned maximum of the heap alignment. |
| FlagConstraintsGC.MaxHeapSizeConstraintFunc | src/hotspot/share/gc/shared/jvmFlagConstraintsGC.cpp:267-274 | Specification of the MaxHeapSize constraint: the alignment bound, then the soft-reference lifetime check. `MaxHeapSizeMeaning` states when it succeeds. |
| FlagConstraintsGC.MaxHeapSizeMeaning | src/hotspot/share/gc/shared/jvmFlagConstraintsGC.cpp:267-274 | MaxHeapSize passes exactly when it is within the heap alignment maximum and its SoftReference lifetime fits. The alignment violation is reported first. |
| FlagConstraintsGC.SoftMaxHeapSizeConstraintFunc | src/hotspot/share/gc/shared/jvmFlagConstraintsGC.cpp:276-283 | SoftMaxHeapSize passes exactly when it is at most MaxHeapSize. |
| FlagConstraintsGC.HeapBaseMinAddressConstraintFunc | src/hotspot/share/gc/shared/jvmFlagConstraintsGC.cpp:285-297 | Specification of the HeapBaseMinAddress constraint: with compressed oops and an ergonomic MaxHeapSize the sum must not overflow, then the alignment bound. `HeapBaseMinAddressMeaning` states when it succeeds. |
| FlagConstraintsGC.HeapBaseMinAddressMeaning | src/hotspot/share/gc/shared/jvmFlagConstraintsGC.cpp:285-297 | With compressed oops and an ergonomic MaxHeapSize, an accepted base plus the heap size does not pass max_uintx. An accepted base always passes the heap alignment check. |
| FlagConstraintsGC.NewSizeConstraintFunc | src/hotspot/share/gc/shared/jvmFlagConstraintsGC.cpp:299-308 | The verdict is G1's. |
| FlagConstraintsGC.MinTLABSizeConstraintFunc | src/hotspot/share/gc/shared/jvmFlagConstraintsGC.cpp:310-327 | Specification of the MinTLABSize constraint: at least the alignment reserve and at most the TLAB maximum. `TLABSizesMeaning` states its range. |
| FlagConstraintsGC.TLABSizeConstraintFunc | src/hotspot/share/gc/shared/jvmFlagConstraintsGC.cpp:329-348 | Specification of the TLABSize constraint, checked only when TLABSize is set on the command line. `TLABSizesMeaning` states its range. |
| FlagConstraintsGC.TLABSizesMeaning | src/hotspot/share/gc/shared/jvmFlagConstraintsGC.cpp:310-348 | MinTLABSize passes exactly between the alignment reserve and the TLAB maximum in bytes. A command-line TLABSize passes exactly between MinTLABSize and that maximum, and then is an acceptable MinTLABSize too. |
| FlagConstraintsGC.TLABWasteIncrementConstraintFunc | src/hotspot/share/gc/shared/jvmFlagConstraintsGC.cpp:352-366 | Specification of the TLABWasteIncrement constraint, which rejects a sum with the refill waste limit that overflows. `TLABWasteIncrementMeaning` states when it succeeds. |
| FlagConstraintsGC.TLABWasteIncrementMeaning | src/hotspot/share/gc/shared/jvmFlagConstraintsGC.cpp:352-366 | With TLABs in use, an increment passes exactly when adding it to the refill waste limit does not wrap. |
| FlagConstraintsGC.SurvivorRatioConstraintFunc | src/hotspot/share/gc/shared/jvmFlagConstraintsGC.cpp:368-380 | A command-line SurvivorRatio passes exactly when the ratio times the space alignment fits in MaxHeapSize. |
| FlagConstraintsGC.MetaspaceSizeConstraintFunc | src/hotspot/share/gc/shared/jvmFlagConstraintsGC.cpp:382-392 | Its message shows the value and MaxMetaspaceSize. |
| FlagConstraintsGC.MaxMetaspaceSizeAsWritten | src/hotspot/share/gc/shared/jvmFlagConstraintsGC.cpp:394-404 | As written, a MaxMetaspaceSize passes exactly when it is at least MetaspaceSize. |
| FlagConstraintsGC.MaxMetaspaceMessageShowsWrongBound | src/hotspot/share/gc/shared/jvmFlagConstraintsGC.cpp:399 | With MetaspaceSize = 128 and the rejected value 64 already stored in MaxMetaspaceSize, the message shows 64 as the bound, not the MetaspaceSize it was compared with. |
| FlagConstraintsGC.MaxMetaspaceSizeConstraintFunc | src/hotspot/share/gc/shared/jvmFlagConstraintsGC.cpp:394-404 | The corrected message shows the value and the MetaspaceSize it was compared with. |
| FlagConstraintsGC.MetaspaceSizePair | src/hotspot/share/gc/shared/jvmFlagConstraintsGC.cpp:382-404 | Both metaspace size constraints accept exactly `MetaspaceSize <= MaxMetaspaceSize`, and the correction keeps the verdict. |
| FlagConstraintsGC.GCCardSizeInBytesConstraintFunc | src/hotspot/share/gc/shared/jvmFlagConstraintsGC.cpp:406-416 | Specification of the GCCardSizeInBytes constraint, which rejects a value that is not a power of two. `CardSizeMeaning` states when it succeeds. |
| FlagConstraintsGC.CardSizeMeaning | src/hotspot/share/gc/shared/jvmFlagConstraintsGC.cpp:406-416 | GCCardSizeInBytes passes exactly when it is a power of two. |
| ZAddressSpaceLimit.Heap | src/hotspot/share/gc/z/zAddressSpaceLimit.cpp:33-37 | The heap limit is a whole number of granules. |
| ZAddressSpaceLimit.HeapCoversFraction | src/hotspot/share/gc/z/zAddressSpaceLimit.cpp:33-37 | Unless the rounding wraps, the heap limit covers the MaxVirtMemFraction share, exceeds it by less than a granule, and equals it when the share is already aligned. |
| ZAddressSpaceLimit.HalfAddressSpaceDoesNotWrap | src/hotspot/share/gc/z/zAddressSpaceLimit.cpp:33-37 | With a fraction of 2, the rounding never wraps for any granule up to 2^63. |
| ZAddressSpaceLimit.WholeUnlimitedSpaceWraps | src/hotspot/share/gc/z/zAddressSpaceLimit.cpp:33-37 | With a fraction of 1 and an unlimited address space, the rounding wraps to zero. |
| ZAddressSpaceLimit.PrintLimits | src/hotspot/share/gc/z/zAddressSpaceLimit.cpp:39-47 | The limit is logged as unlimited exactly for SIZE_MAX, and otherwise as its number. |

## Left out

**Runtime environment**
- Locks, atomics and thread interaction are not modelled: `NMethodState_lock`, the handshake, the `os::naked_yield` loop and the `Atomic::replace_if_null` publication of the box caches. The scope's wait loop is one step in which the round in flight completes.
- Logging, `tty` printing, JFR events, `VerifyStack`, `print_statistics`, `print_objects` and `JVMFlag::printError` are not modelled. The flag constraints return the values their message would show instead of printing it.
- The physical stack is not modelled: frames, vframes, register maps, real pcs and stack banging. The `UnrollBlock` inputs, including `last_frame_adjust` and the sizes from `on_stack_size`, are parameters.
- Object allocation, `StackValue` decoding, field and array element stores, and the 32/64-bit splicing of `reassign_type_array_elements` are not modelled. `ReassignmentOf` says which elements are written, not their values.
- `VectorSupport` allocation and JNI handles are not modelled. The box caches' JNI handles are plain oops.
- Mark words, `LockingMode`, displaced headers, `inflate_and_enter` and the store-store barrier are not modelled; relocking is a sequence of enter and exit events.
- Class loading, MethodData creation, `CompilationPolicy::reprofile`, `make_not_entrant`, `set_not_compilable` and the speculative trap allocation are abstract inputs or outcomes of the policy.
- `ProfileExceptionHandlers` (deoptimization.cpp:2509 onwards), `deoptimize_single_frame`, `unpack_frames` and the rest of the unpacking path are not part of this model.

**Values and representation**
- Trap counts saturate in the real MethodData; here the counts in the MethodData are unbounded naturals.
- BC_CASE_LIMIT is fixed at 4, its value in builds that are not product builds. Product builds keep one case per row, which this model does not cover.
- `PrimitiveValue` reads the low jint of a raw slot as a little-endian machine would.
- The enumeration values and `DataLayout::trap_bits` come from headers that are not part of this model. The table order fixes the values as described above.
- Reading a type array's elements in physical slots (`count_number_of_bytes_for_entry` aside) is not modelled.
- The G1 and Parallel constraint functions and `GCArguments::compute_heap_alignment` are inputs, their verdicts taken as given.

**Weaker contracts**
- `HeapCoversFraction`: the bounds are proved only where the rounding does not pass the top of size_t. `WholeUnlimitedSpaceWraps` shows the case where it does.
- `AcceptedSizeAlignsUp`: this is stated for power-of-two alignments only, the only ones the flags take.
- `UnrollPlan.UnrollBlock.SizeOfFrames`: the `intptr_t` accumulator is an unbounded integer. A sum beyond 64 bits would be undefined behaviour in C++ and is not modelled. The final `checked_cast<int>` is modelled.
- `DeoptScope.DeoptimizationScope.Close`: the destructor's assertion that the scope was deoptimized is a precondition, with no other effect.

## Findings

| source | as written | input that shows it | evidently intended | confidence | as-written member | corrected member |
|---|---|---|---|---|---|---|
| src/hotspot/share/runtime/deoptimization.cpp:2720-2722 | `format_trap_state` re-encodes `Reason_many` as `trap_state_add_reason(0, Reason_many)`. That is -1 (all bits set), not `DS_REASON_MASK`, so a plain `many` state does not re-encode to itself. | The state left after NullCheck and then RangeCheck are recorded at one bci (`DS_REASON_MASK`, not recompiled) prints as `#2147483647` instead of `many`. | Every well-formed state, including plain `many`, is printed symbolically. | not executed | TrapState.PlainManyIsNotFormattedSymbolically | TrapState.FormatTrapStateCorrected |
| src/hotspot/share/gc/shared/jvmFlagConstraintsGC.cpp:399 | The MaxMetaspaceSize constraint compares the value with MetaspaceSize, but its message prints MaxMetaspaceSize as the bound. | On the usual path the constraint runs after ergonomics, with the new value already stored in MaxMetaspaceSize. With MetaspaceSize = 128 and MaxMetaspaceSize = 64, the message shows 64 and 64 instead of 64 and 128. | The message shows the MetaspaceSize it compared with (128). | not executed | FlagConstraintsGC.MaxMetaspaceMessageShowsWrongBound | FlagConstraintsGC.MaxMetaspaceSizeConstraintFunc |
