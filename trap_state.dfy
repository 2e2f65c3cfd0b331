/** The per-bytecode trap state kept in a MethodData profile entry: a reason
    field (no reason, one recorded reason, or the "many" bottom of the lattice)
    and, above it, a recompile bit.

    DataLayout::trap_bits is 1 + 31, so DataLayout::trap_mask has all 32 bits
    set (methodData.hpp is not part of this model). A state is modelled as the
    unsigned reading of its 32-bit pattern; `&`, `|` and `& ~` with the top bit
    are written as arithmetic on that bit. */
module TrapState {
  import opened MachineWords
  import opened DeoptEnums
  import opened Decimal

  /** DataLayout::trap_mask, read as unsigned (it is -1 as an int). */
  const TrapMask: int := TwoTo32 - 1

  /** DS_REASON_MASK: the trap mask shifted right by one, i.e. the low 31 bits. */
  const ReasonMask: int := TrapMask / 2

  /** DS_RECOMPILE_BIT: what the trap mask has beyond the reason mask, the top bit. */
  const RecompileBit: int := TrapMask - ReasonMask

  /** The static condition that the reason field can hold every recorded reason. */
  lemma EnoughBits()
    ensures ReasonMask >= ReasonRecordedLimit
    ensures RecompileBit == TwoTo31 && ReasonMask == TwoTo31 - 1
  {
  }

  /** `trap_state & DS_RECOMPILE_BIT`. */
  function RecompileBitOf(s: u32): (b: int)
    ensures b == 0 || b == RecompileBit
    ensures 0 <= s - b <= ReasonMask
  {
    if s >= RecompileBit then RecompileBit else 0
  }

  /** The reason field: the state with its recompile bit subtracted. */
  function ReasonField(s: u32): (f: int)
    ensures 0 <= f <= ReasonMask
  {
    s - RecompileBitOf(s)
  }

  /** A state is the sum of its two parts, and the parts determine it. */
  lemma SplitState(s: u32, t: u32)
    ensures s == ReasonField(s) + RecompileBitOf(s)
    ensures ReasonField(s) == ReasonField(t) && RecompileBitOf(s) == RecompileBitOf(t) ==> s == t
  {
  }

  /** trap_state_reason: the recorded reason, Reason_many at the lattice bottom. */
  function TrapStateReason(s: u32): (r: int)
    ensures r == ReasonMany <==> ReasonField(s) == ReasonMask
    ensures r != ReasonMany ==> r == ReasonField(s)
  {
    if ReasonField(s) == ReasonMask then ReasonMany else ReasonField(s)
  }

  /** trap_state_has_reason: -1 "yes, unspecifically" at `many`, 1 for the
      reason itself, 0 ("definitely not") otherwise. */
  function TrapStateHasReason(s: u32, reason: int): (r: int)
    requires ReasonIsRecordedPerBytecode(reason)
  {
    var f := ReasonField(s);
    if f == ReasonMask then -1
    else if f == reason then 1
    else if f == 0 then 0
    else 0
  }

  /** trap_state_add_reason: meet of the reason field with one more reason,
      keeping the recompile bit. `reason + recompile_bit` is 32-bit
      arithmetic; it wraps when the reason is Reason_many. */
  function TrapStateAddReason(s: u32, reason: int): (r: u32)
    requires ReasonIsRecordedPerBytecode(reason) || reason == ReasonMany
  {
    var rb := RecompileBitOf(s);
    var f := ReasonField(s);
    if f == ReasonMask then f + rb
    else if f == reason then f + rb
    else if f == 0 then Wrap32(reason + rb)
    else ReasonMask + rb
  }

  /** trap_state_is_recompiled. */
  function TrapStateIsRecompiled(s: u32): bool
  {
    RecompileBitOf(s) != 0
  }

  /** trap_state_set_recompiled: `s | DS_RECOMPILE_BIT` or `s & ~DS_RECOMPILE_BIT`. */
  function TrapStateSetRecompiled(s: u32, z: bool): (r: u32)
  {
    if z then ReasonField(s) + RecompileBit else ReasonField(s)
  }

  /** The states the profile can hold: an empty field, a recorded reason, or `many`. */
  predicate WellFormed(s: u32)
  {
    var f := ReasonField(s);
    f == 0 || f == ReasonMask || ReasonIsRecordedPerBytecode(f)
  }

  // ---------------------------------------------------------------------------
  // Lattice laws of trap_state_add_reason.

  /** The new reason field is the flat-lattice meet of the old field and the
      reason, and the recompile bit is carried through unchanged. */
  lemma AddReasonMeet(s: u32, reason: int)
    requires ReasonIsRecordedPerBytecode(reason)
    ensures var f := ReasonField(s);
            ReasonField(TrapStateAddReason(s, reason)) ==
              (if f == 0 || f == reason then reason else ReasonMask)
    ensures TrapStateIsRecompiled(TrapStateAddReason(s, reason)) == TrapStateIsRecompiled(s)
  {
  }

  /** Adding the same reason twice is adding it once. */
  lemma AddReasonIdempotent(s: u32, reason: int)
    requires ReasonIsRecordedPerBytecode(reason)
    ensures TrapStateAddReason(TrapStateAddReason(s, reason), reason) == TrapStateAddReason(s, reason)
  {
  }

  /** From an empty field the state records exactly the reason. */
  lemma AddReasonFromNone(s: u32, reason: int)
    requires ReasonIsRecordedPerBytecode(reason) && ReasonField(s) == 0
    ensures TrapStateReason(TrapStateAddReason(s, reason)) == reason
    ensures TrapStateHasReason(TrapStateAddReason(s, reason), reason) == 1
  {
  }

  /** A second, different reason drops the field to `many`, and `many` absorbs every reason. */
  lemma AddReasonCollapses(s: u32, reason: int, other: int)
    requires ReasonIsRecordedPerBytecode(reason) && ReasonIsRecordedPerBytecode(other)
    requires reason != other && TrapStateReason(s) == reason
    ensures TrapStateReason(TrapStateAddReason(s, other)) == ReasonMany
    ensures forall r | ReasonIsRecordedPerBytecode(r) ::
              TrapStateAddReason(TrapStateAddReason(s, other), r) == TrapStateAddReason(s, other)
  {
  }

  /** The order in which two reasons are added does not matter. */
  lemma AddReasonCommutes(s: u32, r1: int, r2: int)
    requires ReasonIsRecordedPerBytecode(r1) && ReasonIsRecordedPerBytecode(r2)
    ensures TrapStateAddReason(TrapStateAddReason(s, r1), r2) ==
            TrapStateAddReason(TrapStateAddReason(s, r2), r1)
  {
    AddReasonMeet(s, r1);
    AddReasonMeet(s, r2);
    var s1, s2 := TrapStateAddReason(s, r1), TrapStateAddReason(s, r2);
    AddReasonMeet(s1, r2);
    AddReasonMeet(s2, r1);
    SplitState(TrapStateAddReason(s1, r2), TrapStateAddReason(s2, r1));
  }

  /** Adding a reason keeps a state well formed. */
  lemma AddReasonWellFormed(s: u32, reason: int)
    requires WellFormed(s) && ReasonIsRecordedPerBytecode(reason)
    ensures WellFormed(TrapStateAddReason(s, reason))
  {
    AddReasonMeet(s, reason);
  }

  // ---------------------------------------------------------------------------
  // Queries and the recompile bit.

  /** trap_state_has_reason agrees with trap_state_reason. */
  lemma HasReasonAgreesWithReason(s: u32, reason: int)
    requires ReasonIsRecordedPerBytecode(reason)
    ensures TrapStateHasReason(s, reason) ==
            (if TrapStateReason(s) == ReasonMany then -1
             else if TrapStateReason(s) == reason then 1
             else 0)
  {
  }

  /** set_recompiled touches only the recompile bit; is_recompiled then reports z. */
  lemma SetRecompiledOnlyTheBit(s: u32, z: bool)
    ensures TrapStateIsRecompiled(TrapStateSetRecompiled(s, z)) == z
    ensures ReasonField(TrapStateSetRecompiled(s, z)) == ReasonField(s)
    ensures TrapStateReason(TrapStateSetRecompiled(s, z)) == TrapStateReason(s)
    ensures TrapStateIsRecompiled(s) == z ==> TrapStateSetRecompiled(s, z) == s
  {
  }

  lemma SetRecompiledWellFormed(s: u32, z: bool)
    requires WellFormed(s)
    ensures WellFormed(TrapStateSetRecompiled(s, z))
  {
    SetRecompiledOnlyTheBit(s, z);
  }

  // ---------------------------------------------------------------------------
  // format_trap_state and its re-encoding check.

  /** The re-encoding format_trap_state performs: decode the reason and the
      recompile flag, then rebuild a state from zero with add_reason and
      set_recompiled. */
  function ReencodeTrapState(s: u32): u32
  {
    var reason := TrapStateReason(s);
    var recomp := TrapStateIsRecompiled(s);
    var d := if ReasonIsRecordedPerBytecode(reason) || reason == ReasonMany
             then TrapStateAddReason(0, reason) else 0;
    if recomp then TrapStateSetRecompiled(d, recomp) else d
  }

  /** format_trap_state as written: the symbolic form when the state
      re-encodes to itself, "#" and the signed decimal value otherwise. */
  function FormatTrapState(s: u32, jvmci: bool): string
  {
    if ReencodeTrapState(s) != s then "#" + IntToDecimal(ToJint(s))
    else TrapReasonName(TrapStateReason(s), jvmci)
         + (if TrapStateIsRecompiled(s) then " recompiled" else "")
  }

  /** What the re-encoding does to every well-formed state: it reproduces the
      state except when the field is `many` without the recompile bit, because
      add_reason(0, Reason_many) wraps to all ones rather than DS_REASON_MASK. */
  lemma ReencodeAsWritten(s: u32)
    requires WellFormed(s)
    ensures ReencodeTrapState(s) == s <==> !(ReasonField(s) == ReasonMask && !TrapStateIsRecompiled(s))
  {
  }

  /** Two different reasons collapse the field to `many` without the recompile bit. */
  lemma CollapseGivesPlainMany()
    ensures var t := TrapStateAddReason(TrapStateAddReason(0, ReasonNullCheck), ReasonRangeCheck);
            TrapStateReason(t) == ReasonMany && !TrapStateIsRecompiled(t)
  {
  }

  /** Such a plain `many` state is printed as a number, not as "many". */
  lemma PlainManyIsNotFormattedSymbolically(s: u32, jvmci: bool)
    requires TrapStateReason(s) == ReasonMany && !TrapStateIsRecompiled(s)
    ensures FormatTrapState(s, jvmci)[0] == '#'
    ensures FormatTrapState(s, jvmci) != TrapReasonName(ReasonMany, jvmci)
  {
    assert ReencodeTrapState(s) == TrapMask != s;
  }

  /** The re-encoding with Reason_many mapped to the reason mask, which is
      what add_reason yields for `many` when it is reached by collapse. */
  function ReencodeTrapStateCorrected(s: u32): u32
  {
    var reason := TrapStateReason(s);
    var recomp := TrapStateIsRecompiled(s);
    var d := if reason == ReasonMany then ReasonMask
             else if ReasonIsRecordedPerBytecode(reason) then TrapStateAddReason(0, reason)
             else 0;
    if recomp then TrapStateSetRecompiled(d, recomp) else d
  }

  /** Every well-formed state re-encodes to itself under the corrected check. */
  lemma ReencodeCorrected(s: u32)
    requires WellFormed(s)
    ensures ReencodeTrapStateCorrected(s) == s
  {
  }

  /** format_trap_state with the corrected re-encoding. */
  function FormatTrapStateCorrected(s: u32, jvmci: bool): (text: string)
    ensures WellFormed(s) ==>
              text == TrapReasonName(TrapStateReason(s), jvmci)
                      + (if TrapStateIsRecompiled(s) then " recompiled" else "")
  {
    if ReencodeTrapStateCorrected(s) != s then "#" + IntToDecimal(ToJint(s))
    else TrapReasonName(TrapStateReason(s), jvmci)
         + (if TrapStateIsRecompiled(s) then " recompiled" else "")
  }

  /** Every state add_reason and set_recompiled build from the empty state is
      well formed, so the corrected format prints it symbolically. */
  lemma BuiltStatesFormatSymbolically(s: u32, reason: int, z: bool, jvmci: bool)
    requires WellFormed(s) && ReasonIsRecordedPerBytecode(reason)
    ensures var t := TrapStateSetRecompiled(TrapStateAddReason(s, reason), z);
            WellFormed(t) && ReencodeTrapStateCorrected(t) == t
  {
    AddReasonWellFormed(s, reason);
    SetRecompiledWellFormed(TrapStateAddReason(s, reason), z);
  }
}
