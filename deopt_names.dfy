/** Decimal rendering of integers, as `%d` in a printf-style format produces it. */
module Decimal {

  function DigitChar(d: nat): char
    requires d < 10
  {
    "0123456789"[d]
  }

  function DigitValue(c: char): nat
  {
    if '0' <= c <= '9' then (c as int - '0' as int) else 0
  }

  predicate IsDigit(c: char)
  {
    '0' <= c <= '9'
  }

  /** `%d` of a natural number: most significant digit first, no leading zeros. */
  function NatToDecimal(n: nat): (s: string)
    ensures |s| >= 1
    ensures forall i :: 0 <= i < |s| ==> IsDigit(s[i])
    decreases n
  {
    if n < 10 then [DigitChar(n)] else NatToDecimal(n / 10) + [DigitChar(n % 10)]
  }

  /** `%d` of an int: a minus sign before the digits of a negative value. */
  function IntToDecimal(n: int): (s: string)
    ensures |s| >= 1
    ensures (s[0] == '-') == (n < 0)
  {
    if n < 0 then "-" + NatToDecimal(-n) else NatToDecimal(n)
  }

  /** Reads a string of digits back as a number. */
  function ParseNat(s: string): nat
  {
    if |s| == 0 then 0 else 10 * ParseNat(s[..|s| - 1]) + DigitValue(s[|s| - 1])
  }

  /** Reads an optionally signed string of digits back as a number. */
  function ParseInt(s: string): int
  {
    if |s| > 0 && s[0] == '-' then 0 - ParseNat(s[1..]) else ParseNat(s)
  }

  lemma {:induction false} NatToDecimalRoundTrip(n: nat)
    ensures ParseNat(NatToDecimal(n)) == n
    decreases n
  {
    var s := NatToDecimal(n);
    if n < 10 {
      assert s[..0] == [];
    } else {
      NatToDecimalRoundTrip(n / 10);
      assert s[..|s| - 1] == NatToDecimal(n / 10);
      assert DigitValue(s[|s| - 1]) == n % 10;
    }
  }

  /** `%d` loses nothing: the decimal text determines the number. */
  lemma IntToDecimalRoundTrip(n: int)
    ensures ParseInt(IntToDecimal(n)) == n
  {
    if n < 0 {
      NatToDecimalRoundTrip(-n);
      assert IntToDecimal(n)[1..] == NatToDecimal(-n);
    } else {
      NatToDecimalRoundTrip(n);
    }
  }

  lemma IntToDecimalInjective(m: int, n: int)
    requires IntToDecimal(m) == IntToDecimal(n)
    ensures m == n
  {
    IntToDecimalRoundTrip(m);
    IntToDecimalRoundTrip(n);
  }
}

/** The numeric enumerations of Deoptimization (deoptimization.hpp is not part
    of this model): their values follow the positions of the name tables in
    deoptimization.cpp, which are kept in step with the enums. The JVMCI build
    has four extra reasons before `tenured`. */
module DeoptEnums {
  import opened Decimal

  /** Reason_many: the sentinel for "more than one reason". */
  const ReasonMany: int := -1
  const ReasonNone: int := 0
  const ReasonNullCheck: int := 1
  const ReasonNullAssert: int := 2
  const ReasonRangeCheck: int := 3
  const ReasonClassCheck: int := 4
  const ReasonArrayCheck: int := 5
  const ReasonIntrinsic: int := 6
  const ReasonBimorphic: int := 7
  const ReasonProfilePredicate: int := 8
  const ReasonUnloaded: int := 10
  const ReasonUnreached: int := 13
  const ReasonUnstableIf: int := 23

  /** Reason_RECORDED_LIMIT: reasons up to here are remembered per bytecode. */
  const ReasonRecordedLimit: int := ReasonProfilePredicate

  /** Reason_LIMIT in the build with (true) or without JVMCI. */
  function ReasonLimit(jvmci: bool): int
  {
    if jvmci then 32 else 28
  }

  /** Reason_tenured, the last reason. */
  function ReasonTenured(jvmci: bool): int
  {
    ReasonLimit(jvmci) - 1
  }

  /** reason_is_recorded_per_bytecode. */
  predicate ReasonIsRecordedPerBytecode(reason: int)
  {
    ReasonNone < reason <= ReasonRecordedLimit
  }

  const ActionNone: int := 0
  const ActionMaybeRecompile: int := 1
  const ActionReinterpret: int := 2
  const ActionMakeNotEntrant: int := 3
  const ActionMakeNotCompilable: int := 4
  const ActionLimit: int := 5

  /** Deoptimization::UnpackType. */
  const UnpackDeopt: int := 0
  const UnpackException: int := 1
  const UnpackUncommonTrap: int := 2
  const UnpackReexecute: int := 3
  const UnpackNone: int := 4
  const UnpackLimit: int := 5

  /** BasicType (globalDefinitions.hpp is not part of this model); only the
      constructors the modelled code distinguishes carry meaning here. */
  datatype BasicType =
    | TBoolean | TChar | TFloat | TDouble | TByte | TShort | TInt | TLong
    | TObject | TArray | TVoid | TIllegal

  /** _trap_reason_name, one entry per reason value. */
  function ReasonNames(jvmci: bool): (names: seq<string>)
    ensures |names| == ReasonLimit(jvmci)
  {
    ["none",
     "null_check",
     if jvmci then "null_assert_or_unreached0" else "null_assert",
     "range_check",
     "class_check",
     "array_check",
     if jvmci then "intrinsic_or_type_checked_inlining" else "intrinsic",
     if jvmci then "bimorphic_or_optimized_type_check" else "bimorphic",
     "profile_predicate",
     "auto_vectorization_check",
     "unloaded",
     "uninitialized",
     "initialized",
     "unreached",
     "unhandled",
     "constraint",
     "div0_check",
     "age",
     "predicate",
     "loop_limit_check",
     "speculate_class_check",
     "speculate_null_check",
     "speculate_null_assert",
     "unstable_if",
     "unstable_fused_if",
     "receiver_constraint",
     if jvmci then "short_running_loop_or_aliasing" else "short_running_loop"]
    + (if jvmci
       then ["transfer_to_interpreter", "not_compiled_exception_handler", "unresolved", "jsr_mismatch"]
       else [])
    + ["tenured"]
  }

  /** _trap_action_name, one entry per action value. */
  function ActionNames(): (names: seq<string>)
    ensures |names| == ActionLimit
  {
    ["none", "maybe_recompile", "reinterpret", "make_not_entrant", "make_not_compilable"]
  }

  predicate HasReasonPrefix(s: string)
  {
    |s| >= 6 && s[..6] == "reason"
  }

  predicate HasActionPrefix(s: string)
  {
    |s| >= 6 && s[..6] == "action"
  }

  /** trap_reason_name: "many" for the sentinel, the table entry for a
      reason in range (the unsigned comparison also sends negative values to
      the fallback), and "reason<n>" otherwise. */
  function TrapReasonName(reason: int, jvmci: bool): (name: string)
    ensures reason == ReasonMany ==> name == "many"
    ensures 0 <= reason < ReasonLimit(jvmci) ==> name == ReasonNames(jvmci)[reason]
    ensures reason != ReasonMany && !(0 <= reason < ReasonLimit(jvmci)) ==>
              HasReasonPrefix(name) && ParseInt(name[6..]) == reason
  {
    if reason == ReasonMany then "many"
    else if 0 <= reason < ReasonLimit(jvmci) then ReasonNames(jvmci)[reason]
    else
      IntToDecimalRoundTrip(reason);
      var name := "reason" + IntToDecimal(reason);
      assert name[6..] == IntToDecimal(reason);
      name
  }

  /** trap_action_name: the table entry for an action in range, "action<n>" otherwise. */
  function TrapActionName(action: int): (name: string)
    ensures 0 <= action < ActionLimit ==> name == ActionNames()[action]
    ensures !(0 <= action < ActionLimit) ==> HasActionPrefix(name) && ParseInt(name[6..]) == action
  {
    if 0 <= action < ActionLimit then ActionNames()[action]
    else
      IntToDecimalRoundTrip(action);
      var name := "action" + IntToDecimal(action);
      assert name[6..] == IntToDecimal(action);
      name
  }

  /** No entry of `names` carries the fallback prefix or reads "many". */
  predicate NoFallbackLookalike(names: seq<string>)
  {
    forall i :: 0 <= i < |names| ==> !HasReasonPrefix(names[i]) && names[i] != "many"
  }

  /** The entries of `names` are pairwise different. */
  predicate Distinct(names: seq<string>)
  {
    forall i, j :: 0 <= i < j < |names| ==> names[i] != names[j]
  }

  /** Tells two different names apart by their length and three of their characters. */
  predicate Differ(a: string, b: string)
  {
    |a| != |b| || (|a| >= 3 && |b| >= 3 && (a[0] != b[0] || a[2] != b[2] || a[|a| - 1] != b[|b| - 1]))
  }

  /** No table entry can be mistaken for a fallback name or for "many". */
  lemma ReasonNamesAreNotFallbacks(jvmci: bool)
    ensures NoFallbackLookalike(ReasonNames(jvmci))
  {
    var names := ReasonNames(jvmci);
    forall i | 0 <= i < |names|
      ensures !HasReasonPrefix(names[i]) && names[i] != "many"
    {
      assert |names[i]| < 6 || names[i][0] != 'r' || names[i][2] != 'a';
      assert |names[i]| != 4 || names[i][0] != 'm';
    }
  }

  /** Distinctness of the table without JVMCI, for the first twelve rows (split to keep each proof small). */
  lemma PlainNamesDistinctHead()
    ensures forall i, j :: 0 <= i < 12 && i < j < ReasonLimit(false) ==> ReasonNames(false)[i] != ReasonNames(false)[j]
  {
    var names := ReasonNames(false);
    forall i, j | 0 <= i < 12 && i < j < |names|
      ensures names[i] != names[j]
    {
      assert Differ(names[i], names[j]);
    }
  }

  /** Distinctness of the table without JVMCI, for the remaining rows. */
  lemma PlainNamesDistinctTail()
    ensures forall i, j :: 12 <= i < 28 && i < j < ReasonLimit(false) ==> ReasonNames(false)[i] != ReasonNames(false)[j]
  {
    var names := ReasonNames(false);
    forall i, j | 12 <= i < 28 && i < j < |names|
      ensures names[i] != names[j]
    {
      assert Differ(names[i], names[j]);
    }
  }

  /** Distinctness of the JVMCI table, first eight rows. */
  lemma JvmciNamesDistinctHead()
    ensures forall i, j :: 0 <= i < 8 && i < j < ReasonLimit(true) ==> ReasonNames(true)[i] != ReasonNames(true)[j]
  {
    var names := ReasonNames(true);
    forall i, j | 0 <= i < 8 && i < j < |names|
      ensures names[i] != names[j]
    {
      assert Differ(names[i], names[j]);
    }
  }

  /** Distinctness of the JVMCI table, next eight rows. */
  lemma JvmciNamesDistinctMiddle()
    ensures forall i, j :: 8 <= i < 16 && i < j < ReasonLimit(true) ==> ReasonNames(true)[i] != ReasonNames(true)[j]
  {
    var names := ReasonNames(true);
    forall i, j | 8 <= i < 16 && i < j < |names|
      ensures names[i] != names[j]
    {
      assert Differ(names[i], names[j]);
    }
  }

  /** Distinctness of the JVMCI table, remaining rows. */
  lemma JvmciNamesDistinctTail()
    ensures forall i, j :: 16 <= i < 32 && i < j < ReasonLimit(true) ==> ReasonNames(true)[i] != ReasonNames(true)[j]
  {
    var names := ReasonNames(true);
    forall i, j | 16 <= i < 32 && i < j < |names|
      ensures names[i] != names[j]
    {
      assert Differ(names[i], names[j]);
    }
  }

  /** Different reasons have different table entries. */
  lemma ReasonNamesDistinct(jvmci: bool)
    ensures Distinct(ReasonNames(jvmci))
  {
    if jvmci {
      JvmciNamesDistinctHead();
      JvmciNamesDistinctMiddle();
      JvmciNamesDistinctTail();
    } else {
      PlainNamesDistinctHead();
      PlainNamesDistinctTail();
    }
  }

  /** Different reasons get different names. */
  lemma TrapReasonNameInjective(r1: int, r2: int, jvmci: bool)
    requires TrapReasonName(r1, jvmci) == TrapReasonName(r2, jvmci)
    ensures r1 == r2
  {
    var names := ReasonNames(jvmci);
    ReasonNamesAreNotFallbacks(jvmci);
    ReasonNamesDistinct(jvmci);
    var inTable1, inTable2 := 0 <= r1 < ReasonLimit(jvmci), 0 <= r2 < ReasonLimit(jvmci);
    assert !HasReasonPrefix("many");
  }

  /** Different actions get different names. */
  lemma TrapActionNameInjective(a1: int, a2: int)
    requires TrapActionName(a1) == TrapActionName(a2)
    ensures a1 == a2
  {
    var names := ActionNames();
    forall i, j | 0 <= i < j < |names|
      ensures names[i] != names[j]
    {
      assert Differ(names[i], names[j]);
    }
    forall i | 0 <= i < |names|
      ensures !HasActionPrefix(names[i])
    {
      assert names[i][0] != 'a';
    }
  }
}
