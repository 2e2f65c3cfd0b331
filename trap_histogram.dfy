/** Deoptimization::_deoptimization_hist, the statistics of traps by reason,
    action and bytecode, with gather_statistics, total_deoptimization_count
    and deoptimization_count.

    The three-dimensional `juint` array [Reason_LIMIT][1 + Action_LIMIT]
    [BC_CASE_LIMIT] is one flat array in row-major order. Row 0 of each reason
    holds totals in its case 0; row 1 + action holds one cell per bytecode
    case, whose low 8 bits name the bytecode and whose high 24 bits count. */
module TrapHistogram {
  import opened MachineWords
  import opened DeoptEnums

  /** LSB_BITS: the width of the bytecode tag in a cell. */
  const LsbBits: nat := 8

  /** 1 << LSB_BITS: one count in a cell. */
  const CountUnit: int := 256

  /** Bytecodes::_illegal: no bytecode is known. */
  const BytecodeIllegal: int := -1

  /** BC_CASE_LIMIT, the bytecode cases kept per reason and action; 4 in
      builds that are not product builds (the header that fixes it is not
      part of this model). */
  const BcCaseLimit: nat := 4

  /** 1 + Action_LIMIT rows per reason. */
  const Rows: nat := 1 + ActionLimit

  datatype Option<T> = None | Some(value: T)

  /** A bytecode argument: _illegal or one of the 8-bit codes. */
  predicate ValidBytecode(bc: int)
  {
    bc == BytecodeIllegal || 0 <= bc < CountUnit
  }

  /** The cell's bytecode tag, `counter & LSB_MASK`. */
  function Tag(cell: int): int
  {
    cell % CountUnit
  }

  /** The cell's count, `counter >> LSB_BITS`. */
  function Count(cell: int): int
  {
    cell / CountUnit
  }

  // ---------------------------------------------------------------------------
  // Array layout.

  /** The flat index of [reason][row][bcCase]. */
  function CellIndex(reason: nat, row: nat, bcCase: nat): nat
  {
    (reason * Rows + row) * BcCaseLimit + bcCase
  }

  /** The number of cells of a histogram with `reasons` reasons. */
  function CellCount(reasons: nat): nat
  {
    (reasons * Rows) * BcCaseLimit
  }

  lemma CellIndexInRange(reason: nat, row: nat, bcCase: nat, reasons: nat)
    requires reason < reasons && row < Rows && bcCase < BcCaseLimit
    ensures CellIndex(reason, row, bcCase) < CellCount(reasons)
  {
    var q := reason * Rows + row;
    assert q + 1 <= reasons * Rows;
    assert (q + 1) * BcCaseLimit <= (reasons * Rows) * BcCaseLimit;
    assert q * BcCaseLimit + BcCaseLimit == (q + 1) * BcCaseLimit;
  }

  lemma CellIndexInjective(r1: nat, row1: nat, k1: nat, r2: nat, row2: nat, k2: nat)
    requires row1 < Rows && row2 < Rows && k1 < BcCaseLimit && k2 < BcCaseLimit
    requires CellIndex(r1, row1, k1) == CellIndex(r2, row2, k2)
    ensures r1 == r2 && row1 == row2 && k1 == k2
  {
    var x := CellIndex(r1, row1, k1);
    DivModUnique(x, BcCaseLimit, r1 * Rows + row1, k1);
    DivModUnique(x, BcCaseLimit, r2 * Rows + row2, k2);
    DivModUnique(r1 * Rows + row1, Rows, r1, row1);
    DivModUnique(r2 * Rows + row2, Rows, r2, row2);
  }

  /** A histogram's cells: the right number of 32-bit values. */
  predicate WellShaped(h: seq<int>, reasons: nat)
  {
    |h| == CellCount(reasons)
    && forall i :: 0 <= i < |h| ==> 0 <= h[i] < TwoTo32
  }

  /** The cells of row `row` of `reason`. */
  function RowCells(h: seq<int>, reason: nat, row: nat, reasons: nat): (cells: seq<int>)
    requires WellShaped(h, reasons) && reason < reasons && row < Rows
    ensures |cells| == BcCaseLimit
    ensures forall k :: 0 <= k < BcCaseLimit ==> cells[k] == h[CellIndex(reason, row, k)]
  {
    seq(BcCaseLimit, k requires 0 <= k < BcCaseLimit =>
      CellIndexInRange(reason, row, k, reasons);
      h[CellIndex(reason, row, k)])
  }

  // ---------------------------------------------------------------------------
  // The bytecode-case scan of gather_statistics.

  /** The scan over the first n cases: the case it settles on so far. A case
      is taken when it is free and none was taken yet, or when its tag is the
      bytecode; later takes override earlier ones. */
  function Scan(cases: seq<int>, bc: int, n: nat): Option<nat>
    requires n <= |cases|
  {
    if n == 0 then None
    else
      var prev := Scan(cases, bc, n - 1);
      if (cases[n - 1] == 0 && prev == None) || Tag(cases[n - 1]) == bc then Some(n - 1) else prev
  }

  /** The scan's choice in declarative terms: the last case tagged with the
      bytecode if there is one; otherwise the first free case; otherwise none. */
  lemma {:induction false} ScanChoice(cases: seq<int>, bc: int, n: nat)
    requires n <= |cases|
    ensures match Scan(cases, bc, n)
            case Some(k) =>
              k < n &&
              ((Tag(cases[k]) == bc && forall j :: k < j < n ==> Tag(cases[j]) != bc)
               || (cases[k] == 0 && (forall j :: 0 <= j < k ==> cases[j] != 0)
                   && forall j :: 0 <= j < n ==> Tag(cases[j]) != bc))
            case None =>
              forall j :: 0 <= j < n ==> cases[j] != 0 && Tag(cases[j]) != bc
  {
    if n > 0 {
      ScanChoice(cases, bc, n - 1);
    }
  }

  /** The case actually incremented and the value written there. */
  function ChosenCase(cases: seq<int>, bc: int): (k: nat)
    requires |cases| >= 1
    ensures k < |cases|
  {
    var found := if bc != BytecodeIllegal then Scan(cases, bc, |cases|) else None;
    if found.Some? then (ScanChoice(cases, bc, |cases|); found.value) else |cases| - 1
  }

  /** The new value of the chosen case: `(counter | bc) + (1 << LSB_BITS)`
      for a scanned case, the case with its tag cleared plus one count on overflow. */
  function BumpedCell(cases: seq<int>, bc: int): int
    requires |cases| >= 1 && ValidBytecode(bc)
    requires forall k :: 0 <= k < |cases| ==> 0 <= cases[k]
  {
    var found := if bc != BytecodeIllegal then Scan(cases, bc, |cases|) else None;
    var k := ChosenCase(cases, bc);
    var bcCounter := if found.Some? then BitOr(cases[k], bc) else cases[k] - Tag(cases[k]);
    Wrap32(bcCounter + CountUnit)
  }

  /** The chosen case gets one more count and the bytecode as its tag (or the
      cleared tag on overflow or without a bytecode). */
  lemma BumpedCellCounts(cases: seq<int>, bc: int)
    requires |cases| >= 1 && ValidBytecode(bc)
    requires forall k :: 0 <= k < |cases| ==> 0 <= cases[k] < TwoTo32
    ensures var k := ChosenCase(cases, bc);
            var scanned := bc != BytecodeIllegal && Scan(cases, bc, |cases|).Some?;
            Tag(BumpedCell(cases, bc)) == (if scanned then bc else 0)
            && (Count(cases[k]) < TwoTo32 / CountUnit - 1 ==>
                 Count(BumpedCell(cases, bc)) == Count(cases[k]) + 1)
  {
    var k := ChosenCase(cases, bc);
    var c := cases[k];
    var scanned := bc != BytecodeIllegal && Scan(cases, bc, |cases|).Some?;
    var v := if scanned then BitOr(c, bc) else c - Tag(c);
    if scanned {
      ScanChoice(cases, bc, |cases|);
      if Tag(c) == bc {
        BitOrLowBits(c, bc, 8);
        assert v == c;
      } else {
        assert c == 0;
        assert v == bc;
      }
    }
    // v = 256 * Count(c) + tag, with tag the new bytecode tag.
    var t := if scanned then bc else 0;
    assert v == CountUnit * Count(c) + t;
    BumpArithmetic(Count(c), t);
  }

  /** One count added to a cell of the given count and tag, in 32 bits. */
  lemma BumpArithmetic(count: nat, tag: int)
    requires count < TwoTo32 / CountUnit && 0 <= tag < CountUnit
    ensures var bumped := Wrap32(CountUnit * count + tag + CountUnit);
            Tag(bumped) == tag && (count < TwoTo32 / CountUnit - 1 ==> Count(bumped) == count + 1)
  {
    var v := CountUnit * count + tag + CountUnit;
    if count < TwoTo32 / CountUnit - 1 {
      DivModUnique(v, CountUnit, count + 1, tag);
    } else {
      assert v == TwoTo32 + tag;
    }
  }

  // ---------------------------------------------------------------------------
  // gather_statistics on the cells.

  /** The total cell is [Reason_none][0][0]; the per-reason total is [reason][0][0]. */
  function TotalIndex(): nat
  {
    CellIndex(ReasonNone, 0, 0)
  }

  /** The cells after the two totals of gather_statistics are counted. */
  function CountedTotals(h: seq<int>, reasons: nat, reason: nat): (h': seq<int>)
    requires WellShaped(h, reasons) && reason < reasons
    ensures WellShaped(h', reasons)
  {
    CellIndexInRange(ReasonNone, 0, 0, reasons);
    CellIndexInRange(reason, 0, 0, reasons);
    var t := TotalIndex();
    var h1 := h[t := Wrap32(h[t] + 1)];
    var p := CellIndex(reason, 0, 0);
    h1[p := Wrap32(h1[p] + 1)]
  }

  /** The cells after the chosen case of [reason][1 + action] is counted. */
  function CountedCase(h: seq<int>, reasons: nat, reason: nat, action: nat, bc: int): (h': seq<int>)
    requires WellShaped(h, reasons) && reason < reasons && action < ActionLimit && ValidBytecode(bc)
    ensures WellShaped(h', reasons)
  {
    var cases := RowCells(h, reason, 1 + action, reasons);
    var k := ChosenCase(cases, bc);
    CellIndexInRange(reason, 1 + action, k, reasons);
    h[CellIndex(reason, 1 + action, k) := BumpedCell(cases, bc)]
  }

  /** The cells after gather_statistics(reason, action, bc). */
  function Gathered(h: seq<int>, reasons: nat, reason: nat, action: nat, bc: int): (h': seq<int>)
    requires WellShaped(h, reasons) && reason < reasons && action < ActionLimit && ValidBytecode(bc)
    ensures WellShaped(h', reasons)
  {
    CountedCase(CountedTotals(h, reasons, reason), reasons, reason, action, bc)
  }

  /** gather_statistics touches three cells: the total, the per-reason total
      (the same cell for Reason_none, which is then counted twice) and the
      chosen case of [reason][1 + action]; every other cell is unchanged. */
  lemma GatheredCells(h: seq<int>, reasons: nat, reason: nat, action: nat, bc: int)
    requires WellShaped(h, reasons) && reason < reasons && action < ActionLimit && ValidBytecode(bc)
    ensures var h' := Gathered(h, reasons, reason, action, bc);
            var t := TotalIndex();
            var p := CellIndex(reason, 0, 0);
            var cases := RowCells(h, reason, 1 + action, reasons);
            var c := CellIndex(reason, 1 + action, ChosenCase(cases, bc));
            h'[t] == Wrap32(h[t] + (if reason == ReasonNone then 2 else 1))
            && h'[p] == (if reason == ReasonNone then h'[t] else Wrap32(h[p] + 1))
            && h'[c] == BumpedCell(cases, bc)
            && forall i :: 0 <= i < |h| && i != t && i != p && i != c ==> h'[i] == h[i]
  {
    CellIndexInRange(ReasonNone, 0, 0, reasons);
    CellIndexInRange(reason, 0, 0, reasons);
    var t := TotalIndex();
    var p := CellIndex(reason, 0, 0);
    var h1 := h[t := Wrap32(h[t] + 1)];
    var h2 := h1[p := Wrap32(h1[p] + 1)];
    if reason == ReasonNone {
      Wrap32Add(h[t] + 1, 1);
    }
    // The two totals lie in row 0, so the action row is the same in h2 and h.
    assert RowCells(h2, reason, 1 + action, reasons) == RowCells(h, reason, 1 + action, reasons);
  }

  // ---------------------------------------------------------------------------
  // deoptimization_count on the cells.

  /** A name filter over a table of names: null selects every entry, a name
      selects the entries that carry it. */
  predicate Selected(filter: Option<string>, index: nat, names: seq<string>)
  {
    filter.None? || (index < |names| && filter.value == names[index])
  }

  /** The counts of the first n cases of [reason][1 + action]. */
  function CaseCounts(h: seq<int>, reasons: nat, reason: nat, action: nat, n: nat): int
    requires WellShaped(h, reasons) && reason < reasons && action < ActionLimit && n <= BcCaseLimit
  {
    if n == 0 then 0
    else
      CellIndexInRange(reason, 1 + action, n - 1, reasons);
      CaseCounts(h, reasons, reason, action, n - 1) + Count(h[CellIndex(reason, 1 + action, n - 1)])
  }

  /** The counts of the selected actions among the first n of `reason`. */
  function ActionCounts(h: seq<int>, reasons: nat, reason: nat, actionStr: Option<string>, n: nat): int
    requires WellShaped(h, reasons) && reason < reasons && n <= ActionLimit
  {
    if n == 0 then 0
    else
      ActionCounts(h, reasons, reason, actionStr, n - 1)
      + (if Selected(actionStr, n - 1, ActionNames()) then CaseCounts(h, reasons, reason, n - 1, BcCaseLimit) else 0)
  }

  /** The counts of the selected reasons among the first n, for the selected
      actions; `reasonNames` is the table of reason names. */
  function ReasonCounts(h: seq<int>, reasons: nat, reasonNames: seq<string>,
                        reasonStr: Option<string>, actionStr: Option<string>, n: nat): int
    requires WellShaped(h, reasons) && n <= reasons
  {
    if n == 0 then 0
    else
      ReasonCounts(h, reasons, reasonNames, reasonStr, actionStr, n - 1)
      + (if Selected(reasonStr, n - 1, reasonNames)
         then ActionCounts(h, reasons, n - 1, actionStr, ActionLimit) else 0)
  }

  /** One more reason in a 32-bit running sum of ReasonCounts. */
  lemma ReasonCountsStep(h: seq<int>, reasons: nat, reasonNames: seq<string>,
                         reasonStr: Option<string>, actionStr: Option<string>, n: nat)
    requires WellShaped(h, reasons) && n < reasons
    ensures Wrap32(Wrap32(ReasonCounts(h, reasons, reasonNames, reasonStr, actionStr, n))
                   + if Selected(reasonStr, n, reasonNames) then ActionCounts(h, reasons, n, actionStr, ActionLimit) else 0)
            == Wrap32(ReasonCounts(h, reasons, reasonNames, reasonStr, actionStr, n + 1))
  {
    Wrap32Add(ReasonCounts(h, reasons, reasonNames, reasonStr, actionStr, n),
              if Selected(reasonStr, n, reasonNames) then ActionCounts(h, reasons, n, actionStr, ActionLimit) else 0);
  }

  /** Two histograms whose counts in one action row agree, except maybe one
      case where the second has one more, differ by that one in the row's total. */
  lemma {:induction false} CaseCountsBump(h: seq<int>, h': seq<int>, reasons: nat,
                                          reason: nat, action: nat, bumped: Option<nat>, n: nat)
    requires WellShaped(h, reasons) && WellShaped(h', reasons)
    requires reason < reasons && action < ActionLimit && n <= BcCaseLimit
    requires forall k :: 0 <= k < BcCaseLimit ==>
               Count(h'[CellIndex(reason, 1 + action, k)])
               == Count(h[CellIndex(reason, 1 + action, k)]) + (if bumped == Some(k) then 1 else 0)
    ensures CaseCounts(h', reasons, reason, action, n)
            == CaseCounts(h, reasons, reason, action, n) + (if bumped.Some? && bumped.value < n then 1 else 0)
  {
    if n > 0 {
      CaseCountsBump(h, h', reasons, reason, action, bumped, n - 1);
      var i := CellIndex(reason, 1 + action, n - 1);
      assert Count(h'[i]) == Count(h[i]) + (if bumped == Some(n - 1) then 1 else 0);
    }
  }

  lemma {:induction false} ActionCountsBump(h: seq<int>, h': seq<int>, reasons: nat,
                                            reason: nat, actionStr: Option<string>, bumpedAction: Option<nat>, k0: nat, n: nat)
    requires WellShaped(h, reasons) && WellShaped(h', reasons)
    requires reason < reasons && n <= ActionLimit && k0 < BcCaseLimit
    requires forall row, k :: 1 <= row < Rows && 0 <= k < BcCaseLimit ==>
               Count(h'[CellIndex(reason, row, k)])
               == Count(h[CellIndex(reason, row, k)]) + (if bumpedAction == Some(row - 1) && k == k0 then 1 else 0)
    ensures ActionCounts(h', reasons, reason, actionStr, n)
            == ActionCounts(h, reasons, reason, actionStr, n)
               + (if bumpedAction.Some? && bumpedAction.value < n && Selected(actionStr, bumpedAction.value, ActionNames())
                  then 1 else 0)
  {
    if n > 0 {
      ActionCountsBump(h, h', reasons, reason, actionStr, bumpedAction, k0, n - 1);
      var a := n - 1;
      var bumped: Option<nat> := if bumpedAction == Some(a) then Some(k0) else None;
      CaseCountsBump(h, h', reasons, reason, a, bumped, BcCaseLimit);
    }
  }

  lemma {:induction false} ReasonCountsBump(h: seq<int>, h': seq<int>, reasons: nat, reasonNames: seq<string>,
                                            reasonStr: Option<string>, actionStr: Option<string>,
                                            reason0: nat, action0: nat, k0: nat, n: nat)
    requires WellShaped(h, reasons) && WellShaped(h', reasons)
    requires reason0 < reasons && action0 < ActionLimit && k0 < BcCaseLimit && n <= reasons
    requires forall r, row, k :: 0 <= r < reasons && 1 <= row < Rows && 0 <= k < BcCaseLimit ==>
               Count(h'[CellIndex(r, row, k)])
               == Count(h[CellIndex(r, row, k)]) + (if r == reason0 && row == 1 + action0 && k == k0 then 1 else 0)
    ensures ReasonCounts(h', reasons, reasonNames, reasonStr, actionStr, n)
            == ReasonCounts(h, reasons, reasonNames, reasonStr, actionStr, n)
               + (if reason0 < n && Selected(reasonStr, reason0, reasonNames) && Selected(actionStr, action0, ActionNames())
                  then 1 else 0)
  {
    if n > 0 {
      ReasonCountsBump(h, h', reasons, reasonNames, reasonStr, actionStr, reason0, action0, k0, n - 1);
      var r := n - 1;
      var bumpedAction: Option<nat> := if r == reason0 then Some(action0) else None;
      forall row, k | 1 <= row < Rows && 0 <= k < BcCaseLimit
        ensures Count(h'[CellIndex(r, row, k)])
                == Count(h[CellIndex(r, row, k)]) + (if bumpedAction == Some(row - 1) && k == k0 then 1 else 0)
      {
        assert Count(h'[CellIndex(r, row, k)])
               == Count(h[CellIndex(r, row, k)]) + (if r == reason0 && row == 1 + action0 && k == k0 then 1 else 0);
      }
      ActionCountsBump(h, h', reasons, r, actionStr, bumpedAction, k0, ActionLimit);
    }
  }

  /** gather_statistics changes the count of exactly one cell of the action
      rows, the chosen case of its reason and action, by one. */
  lemma GatherBumpsOneCount(h: seq<int>, reasons: nat, reason0: nat, action0: nat, bc: int)
    requires WellShaped(h, reasons) && reason0 < reasons && action0 < ActionLimit && ValidBytecode(bc)
    requires var cases := RowCells(h, reason0, 1 + action0, reasons);
             Count(cases[ChosenCase(cases, bc)]) < TwoTo32 / CountUnit - 1
    ensures var h' := Gathered(h, reasons, reason0, action0, bc);
            var k0 := ChosenCase(RowCells(h, reason0, 1 + action0, reasons), bc);
            |h'| == |h|
            && forall r, row, k | 0 <= r < reasons && 1 <= row < Rows && 0 <= k < BcCaseLimit ::
                 Count(h'[CellIndex(r, row, k)])
                 == Count(h[CellIndex(r, row, k)]) + (if r == reason0 && row == 1 + action0 && k == k0 then 1 else 0)
  {
    var h' := Gathered(h, reasons, reason0, action0, bc);
    var cases := RowCells(h, reason0, 1 + action0, reasons);
    var k0 := ChosenCase(cases, bc);
    GatheredCells(h, reasons, reason0, action0, bc);
    BumpedCellCounts(cases, bc);
    var c := CellIndex(reason0, 1 + action0, k0);
    forall r, row, k | 0 <= r < reasons && 1 <= row < Rows && 0 <= k < BcCaseLimit
      ensures Count(h'[CellIndex(r, row, k)])
              == Count(h[CellIndex(r, row, k)]) + (if r == reason0 && row == 1 + action0 && k == k0 then 1 else 0)
    {
      CellIndexInRange(r, row, k, reasons);
      if CellIndex(r, row, k) == c {
        CellIndexInjective(reason0, 1 + action0, k0, r, row, k);
      }
    }
  }

  /** After gather_statistics(reason0, action0, bc), a query counts one more
      exactly when its filters select reason0 and action0, provided the
      chosen case's count does not wrap. */
  lemma CountAfterGather(h: seq<int>, reasons: nat, reasonNames: seq<string>,
                         reason0: nat, action0: nat, bc: int,
                         reasonStr: Option<string>, actionStr: Option<string>)
    requires WellShaped(h, reasons) && reason0 < reasons && action0 < ActionLimit && ValidBytecode(bc)
    requires var cases := RowCells(h, reason0, 1 + action0, reasons);
             Count(cases[ChosenCase(cases, bc)]) < TwoTo32 / CountUnit - 1
    ensures var h' := Gathered(h, reasons, reason0, action0, bc);
            ReasonCounts(h', reasons, reasonNames, reasonStr, actionStr, reasons)
            == ReasonCounts(h, reasons, reasonNames, reasonStr, actionStr, reasons)
               + (if Selected(reasonStr, reason0, reasonNames) && Selected(actionStr, action0, ActionNames()) then 1 else 0)
  {
    var h' := Gathered(h, reasons, reason0, action0, bc);
    var k0 := ChosenCase(RowCells(h, reason0, 1 + action0, reasons), bc);
    GatherBumpsOneCount(h, reasons, reason0, action0, bc);
    ReasonCountsBump(h, h', reasons, reasonNames, reasonStr, actionStr, reason0, action0, k0, reasons);
  }

  /** Querying by the exact names of a reason and an action counts exactly
      that pair's cases: a trap of that pair adds one, a trap of any other
      pair adds nothing. */
  lemma CountByNamesAfterGather(h: seq<int>, jvmci: bool,
                                reason0: nat, action0: nat, bc: int, reason: nat, action: nat)
    requires WellShaped(h, ReasonLimit(jvmci))
    requires reason0 < ReasonLimit(jvmci) && action0 < ActionLimit && ValidBytecode(bc)
    requires reason < ReasonLimit(jvmci) && action < ActionLimit
    requires var cases := RowCells(h, reason0, 1 + action0, ReasonLimit(jvmci));
             Count(cases[ChosenCase(cases, bc)]) < TwoTo32 / CountUnit - 1
    ensures var reasons := ReasonLimit(jvmci);
            var h' := Gathered(h, reasons, reason0, action0, bc);
            var rs, acts := Some(TrapReasonName(reason, jvmci)), Some(TrapActionName(action));
            ReasonCounts(h', reasons, ReasonNames(jvmci), rs, acts, reasons)
            == ReasonCounts(h, reasons, ReasonNames(jvmci), rs, acts, reasons)
               + (if reason == reason0 && action == action0 then 1 else 0)
  {
    var rs, acts := Some(TrapReasonName(reason, jvmci)), Some(TrapActionName(action));
    CountAfterGather(h, ReasonLimit(jvmci), ReasonNames(jvmci), reason0, action0, bc, rs, acts);
    if Selected(rs, reason0, ReasonNames(jvmci)) {
      TrapReasonNameInjective(reason, reason0, jvmci);
    }
    if Selected(acts, action0, ActionNames()) {
      TrapActionNameInjective(action, action0);
    }
  }

  // ---------------------------------------------------------------------------
  // The histogram object.

  class Histogram {
    const jvmci: bool
    const hist: array<int>

    ghost predicate Valid()
      reads this, hist
    {
      WellShaped(hist[..], ReasonLimit(jvmci))
    }

    /** The zero-initialised static array. */
    constructor (jvmci: bool)
      ensures Valid() && this.jvmci == jvmci && fresh(hist)
      ensures forall i :: 0 <= i < hist.Length ==> hist[i] == 0
    {
      this.jvmci := jvmci;
      hist := new int[CellCount(ReasonLimit(jvmci))] (i => 0);
    }

    /** The scan of gather_statistics over the cases of [reason][1 + action]:
        the case settled on and `counter | bc` for it. */
    method ScanCases(reason: nat, action: nat, bc: int) returns (found: Option<nat>, bcCounter: int)
      requires Valid()
      requires reason < ReasonLimit(jvmci) && action < ActionLimit && 0 <= bc < CountUnit
      ensures var cases := RowCells(hist[..], reason, 1 + action, ReasonLimit(jvmci));
              found == Scan(cases, bc, BcCaseLimit)
              && (found.Some? ==> found.value < BcCaseLimit && bcCounter == BitOr(cases[found.value], bc))
    {
      ghost var cases := RowCells(hist[..], reason, 1 + action, ReasonLimit(jvmci));
      found, bcCounter := None, 0;
      var bcCase := 0;
      while bcCase < BcCaseLimit
        invariant 0 <= bcCase <= BcCaseLimit
        invariant found == Scan(cases, bc, bcCase)
        invariant found.Some? ==> found.value < bcCase && bcCounter == BitOr(cases[found.value], bc)
      {
        CellIndexInRange(reason, 1 + action, bcCase, ReasonLimit(jvmci));
        var counter := hist[CellIndex(reason, 1 + action, bcCase)];
        assert counter == cases[bcCase];
        if (counter == 0 && found == None) || counter % CountUnit == bc {
          found := Some(bcCase);
          bcCounter := BitOr(counter, bc);
        }
        bcCase := bcCase + 1;
      }
    }

    /** gather_statistics. */
    method GatherStatistics(reason: nat, action: nat, bc: int)
      requires Valid()
      requires reason < ReasonLimit(jvmci) && action < ActionLimit && ValidBytecode(bc)
      modifies hist
      ensures Valid()
      ensures hist[..] == Gathered(old(hist[..]), ReasonLimit(jvmci), reason, action, bc)
    {
      ghost var h0 := hist[..];
      var reasons := ReasonLimit(jvmci);
      CellIndexInRange(ReasonNone, 0, 0, reasons);
      CellIndexInRange(reason, 0, 0, reasons);
      var t := CellIndex(ReasonNone, 0, 0);
      hist[t] := Wrap32(hist[t] + 1);
      ghost var h1 := hist[..];
      assert h1 == h0[t := Wrap32(h0[t] + 1)];
      var p := CellIndex(reason, 0, 0);
      hist[p] := Wrap32(hist[p] + 1);
      assert hist[..] == h1[p := Wrap32(h1[p] + 1)];
      CountCase(reason, action, bc);
    }

    /** The second half of gather_statistics: scan the cases of
        [reason][1 + action] and count the one settled on. */
    method CountCase(reason: nat, action: nat, bc: int)
      requires Valid()
      requires reason < ReasonLimit(jvmci) && action < ActionLimit && ValidBytecode(bc)
      modifies hist
      ensures Valid()
      ensures hist[..] == CountedCase(old(hist[..]), ReasonLimit(jvmci), reason, action, bc)
    {
      var reasons := ReasonLimit(jvmci);
      ghost var h2 := hist[..];
      ghost var cases := RowCells(h2, reason, 1 + action, reasons);
      var found: Option<nat> := None;
      var bcCounter := 0;
      if bc != BytecodeIllegal {
        found, bcCounter := ScanCases(reason, action, bc);
      }
      var chosen: nat;
      if found == None {
        chosen := BcCaseLimit - 1;
        CellIndexInRange(reason, 1 + action, chosen, reasons);
        var last := hist[CellIndex(reason, 1 + action, chosen)];
        bcCounter := last - last % CountUnit;
      } else {
        chosen := found.value;
      }
      assert chosen == ChosenCase(cases, bc);
      assert bcCounter + 0 == (if found.Some? then BitOr(cases[chosen], bc) else cases[chosen] - Tag(cases[chosen]));
      CellIndexInRange(reason, 1 + action, chosen, reasons);
      var c := CellIndex(reason, 1 + action, chosen);
      hist[c] := Wrap32(bcCounter + CountUnit);
      assert hist[..] == h2[c := BumpedCell(cases, bc)];
    }

    /** total_deoptimization_count: the total cell read as a jint. */
    method TotalDeoptimizationCount() returns (total: int)
      requires Valid()
      ensures total == ToJint(hist[TotalIndex()])
    {
      CellIndexInRange(ReasonNone, 0, 0, ReasonLimit(jvmci));
      total := ToJint(hist[CellIndex(ReasonNone, 0, 0)]);
    }

    /** deoptimization_count: the total when both names are null, otherwise
        the 32-bit sum of the counts of every selected reason and action. */
    method DeoptimizationCount(reasonStr: Option<string>, actionStr: Option<string>) returns (count: int)
      requires Valid()
      ensures reasonStr.None? && actionStr.None? ==> count == ToJint(hist[TotalIndex()])
      ensures !(reasonStr.None? && actionStr.None?) ==>
                count == ToJint(Wrap32(ReasonCounts(hist[..], ReasonLimit(jvmci), ReasonNames(jvmci),
                                                    reasonStr, actionStr, ReasonLimit(jvmci))))
    {
      if reasonStr.None? && actionStr.None? {
        count := TotalDeoptimizationCount();
        return;
      }
      var counter := SumSelected(reasonStr, actionStr);
      count := ToJint(counter);
    }
    /** The reason loop of deoptimization_count: the 32-bit sum of the
        counts of the selected reasons and actions. */
    method SumSelected(reasonStr: Option<string>, actionStr: Option<string>) returns (counter: u32)
      requires Valid()
      ensures counter == Wrap32(ReasonCounts(hist[..], ReasonLimit(jvmci), ReasonNames(jvmci),
                                             reasonStr, actionStr, ReasonLimit(jvmci)))
    {
      ghost var h := hist[..];
      var reasons := ReasonLimit(jvmci);
      ghost var names := ReasonNames(jvmci);
      counter := 0;
      var reason := 0;
      while reason < reasons
        invariant 0 <= reason <= reasons
        invariant counter == Wrap32(ReasonCounts(h, reasons, names, reasonStr, actionStr, reason))
      {
        counter := AddReasonCounts(reason, reasonStr, actionStr, counter);
        ReasonCountsStep(h, reasons, names, reasonStr, actionStr, reason);
        reason := reason + 1;
      }
    }

    /** One step of the reason loop of deoptimization_count: the counts of
        `reason` are added when its name is selected. */
    method AddReasonCounts(reason: nat, reasonStr: Option<string>, actionStr: Option<string>, counter: u32)
      returns (counter': u32)
      requires Valid() && reason < ReasonLimit(jvmci)
      ensures counter' == Wrap32(counter + if Selected(reasonStr, reason, ReasonNames(jvmci))
                                           then ActionCounts(hist[..], ReasonLimit(jvmci), reason, actionStr, ActionLimit)
                                           else 0)
    {
      counter' := counter;
      if reasonStr.None? || reasonStr.value == TrapReasonName(reason, jvmci) {
        counter' := AddActionCounts(reason, actionStr, counter);
      }
    }

    /** The action loop of deoptimization_count for one selected reason. */
    method AddActionCounts(reason: nat, actionStr: Option<string>, counter: u32) returns (counter': u32)
      requires Valid() && reason < ReasonLimit(jvmci)
      ensures counter' == Wrap32(counter + ActionCounts(hist[..], ReasonLimit(jvmci), reason, actionStr, ActionLimit))
    {
      ghost var h := hist[..];
      counter' := counter;
      var action := 0;
      while action < ActionLimit
        invariant 0 <= action <= ActionLimit
        invariant counter' == Wrap32(counter + ActionCounts(h, ReasonLimit(jvmci), reason, actionStr, action))
      {
        if actionStr.None? || actionStr.value == TrapActionName(action) {
          ghost var before := ActionCounts(h, ReasonLimit(jvmci), reason, actionStr, action);
          counter' := AddCaseCounts(reason, action, counter');
          Wrap32Add(counter + before, CaseCounts(h, ReasonLimit(jvmci), reason, action, BcCaseLimit));
        }
        action := action + 1;
      }
    }

    /** The bytecode-case loop of deoptimization_count for one selected
        reason and action: the counts are added in 32 bits. */
    method AddCaseCounts(reason: nat, action: nat, counter: u32) returns (counter': u32)
      requires Valid() && reason < ReasonLimit(jvmci) && action < ActionLimit
      ensures counter' == Wrap32(counter + CaseCounts(hist[..], ReasonLimit(jvmci), reason, action, BcCaseLimit))
    {
      ghost var h := hist[..];
      counter' := counter;
      var bcCase := 0;
      while bcCase < BcCaseLimit
        invariant 0 <= bcCase <= BcCaseLimit
        invariant counter' == Wrap32(counter + CaseCounts(h, ReasonLimit(jvmci), reason, action, bcCase))
      {
        CellIndexInRange(reason, 1 + action, bcCase, ReasonLimit(jvmci));
        ghost var n := Count(h[CellIndex(reason, 1 + action, bcCase)]);
        Wrap32Add(counter + CaseCounts(h, ReasonLimit(jvmci), reason, action, bcCase), n);
        counter' := Wrap32(counter' + hist[CellIndex(reason, 1 + action, bcCase)] / CountUnit);
        bcCase := bcCase + 1;
      }
    }
  }
}
