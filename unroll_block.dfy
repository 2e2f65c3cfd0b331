/** Deoptimization::UnrollBlock and the arithmetic of fetch_unroll_info_helper
    that fills it: the sizes and return addresses of the skeletal interpreter
    frames, the caller's adjustment, and the unpack mode.

    The stack itself, the vframe array and the real code addresses are not
    modelled; each logical frame is given by its method's parameter and local
    counts, and the platform routines on_stack_size and last_frame_adjust are
    parameters. */
module UnrollPlan {
  import opened DeoptEnums
  import opened MachineWords

  /** BytesPerWord on a 64-bit platform. */
  const BytesPerWord: int := 8

  /** What the planning loop reads of one vframeArrayElement: its method's
      size_of_parameters() and max_locals(), and an identity. */
  datatype LogicalFrame = LogicalFrame(id: nat, sizeOfParameters: int, maxLocals: int)

  /** The element's on_stack_size(callee_parameters, callee_locals, is_top_frame, popframe_extra_args). */
  type OnStackSize = (LogicalFrame, int, int, bool, int) -> int

  /** AbstractInterpreter::last_frame_adjust(callee_parameters, callee_locals). */
  type LastFrameAdjust = (int, int) -> int

  /** The sum of a sequence, accumulated from the front. */
  function Sum(s: seq<int>): int
  {
    if s == [] then 0 else Sum(s[..|s| - 1]) + s[|s| - 1]
  }

  class UnrollBlock {
    const sizeOfDeoptimizedFrame: int
    const callerAdjustment: int
    const callerActualParameters: int
    const numberOfFrames: nat
    const frameSizes: array<int>
    const framePcs: array<int>
    const registerBlock: array<int>
    const returnType: BasicType
    var initialInfo: int
    var counterTemp: int
    const unpackKind: int
    var senderSpTemp: int
    var totalFrameSizes: int

    ghost predicate Valid()
      reads this
    {
      numberOfFrames <= frameSizes.Length && 0 <= unpackKind < UnpackLimit
    }

    /** The constructor: records its arguments, allocates a register block of
        two words per register, and stores size_of_frames as the total. */
    constructor (sizeOfDeoptimizedFrame: int, callerAdjustment: int, callerActualParameters: int,
                 numberOfFrames: nat, frameSizes: array<int>, framePcs: array<int>,
                 returnType: BasicType, execMode: int, regCount: nat)
      requires numberOfFrames <= frameSizes.Length
      requires 0 <= execMode < UnpackLimit
      ensures Valid()
      ensures this.sizeOfDeoptimizedFrame == sizeOfDeoptimizedFrame
      ensures this.callerAdjustment == callerAdjustment
      ensures this.callerActualParameters == callerActualParameters
      ensures this.numberOfFrames == numberOfFrames
      ensures this.frameSizes == frameSizes && this.framePcs == framePcs
      ensures this.returnType == returnType && unpackKind == execMode
      ensures fresh(registerBlock) && registerBlock.Length == 2 * regCount
      ensures initialInfo == 0 && counterTemp == 0 && senderSpTemp == 0
      ensures totalFrameSizes == CheckedCastInt(callerAdjustment + Sum(frameSizes[..numberOfFrames]))
    {
      this.sizeOfDeoptimizedFrame := sizeOfDeoptimizedFrame;
      this.callerAdjustment := callerAdjustment;
      this.callerActualParameters := callerActualParameters;
      this.numberOfFrames := numberOfFrames;
      this.frameSizes := frameSizes;
      this.framePcs := framePcs;
      registerBlock := new int[2 * regCount];
      this.returnType := returnType;
      initialInfo := 0;
      counterTemp := 0;
      unpackKind := execMode;
      senderSpTemp := 0;
      new;
      totalFrameSizes := SizeOfFrames();
    }

    /** size_of_frames: the caller's adjustment plus every frame's size,
        accumulated in an intptr_t and returned through checked_cast<int>. */
    method SizeOfFrames() returns (total: int)
      requires Valid()
      ensures total == CheckedCastInt(callerAdjustment + Sum(frameSizes[..numberOfFrames]))
    {
      var result := callerAdjustment;
      var index := 0;
      while index < numberOfFrames
        invariant 0 <= index <= numberOfFrames
        invariant result == callerAdjustment + Sum(frameSizes[..index])
      {
        assert frameSizes[..index + 1][..index] == frameSizes[..index];
        result := result + frameSizes[index];
        index := index + 1;
      }
      total := CheckedCastInt(result);
    }
  }

  /** The callee parameter count handed to element i: its callee's (element
      i-1's) size_of_parameters, and 0 for the youngest frame. */
  function CalleeParameters(frames: seq<LogicalFrame>, i: nat): int
    requires i <= |frames|
  {
    if i == 0 then 0 else frames[i - 1].sizeOfParameters
  }

  /** The callee local count handed to element i. */
  function CalleeLocals(frames: seq<LogicalFrame>, i: nat): int
    requires i <= |frames|
  {
    if i == 0 then 0 else frames[i - 1].maxLocals
  }

  /** The size in bytes of the skeletal frame for element i; only the youngest
      frame carries the PopFrame arguments. */
  function FrameSize(frames: seq<LogicalFrame>, i: nat, popframeExtraArgs: int, onStackSize: OnStackSize): int
    requires i < |frames|
  {
    BytesPerWord * onStackSize(frames[i], CalleeParameters(frames, i), CalleeLocals(frames, i), i == 0,
                               if i == 0 then popframeExtraArgs else 0)
  }

  /** The planning loop: element i (0 is the youngest) gets slot n-1-i, so
      slot 0 is the outermost frame; every pc is the interpreter's deopt entry
      less the return offset, and the extra last pc slot holds the deopt entry. */
  method PlanFrames(frames: seq<LogicalFrame>, popframeExtraArgs: int, deoptEntry: int, pcReturnOffset: int,
                    onStackSize: OnStackSize)
    returns (frameSizes: array<int>, framePcs: array<int>, calleeParameters: int, calleeLocals: int)
    ensures fresh(frameSizes) && fresh(framePcs)
    ensures frameSizes.Length == |frames| && framePcs.Length == |frames| + 1
    ensures forall i :: 0 <= i < |frames| ==>
              frameSizes[|frames| - 1 - i] == FrameSize(frames, i, popframeExtraArgs, onStackSize)
    ensures forall k :: 0 <= k < |frames| ==> framePcs[k] == deoptEntry - pcReturnOffset
    ensures framePcs[|frames|] == deoptEntry
    ensures calleeParameters == CalleeParameters(frames, |frames|)
    ensures calleeLocals == CalleeLocals(frames, |frames|)
  {
    var n := |frames|;
    frameSizes := new int[n];
    framePcs := new int[n + 1];
    framePcs[n] := deoptEntry;
    var popframeArgs := popframeExtraArgs;
    calleeParameters, calleeLocals := 0, 0;
    var index := 0;
    while index < n
      invariant 0 <= index <= n
      invariant calleeParameters == CalleeParameters(frames, index)
      invariant calleeLocals == CalleeLocals(frames, index)
      invariant popframeArgs == if index == 0 then popframeExtraArgs else 0
      invariant framePcs[n] == deoptEntry
      invariant forall i :: 0 <= i < index ==>
                  frameSizes[n - 1 - i] == FrameSize(frames, i, popframeExtraArgs, onStackSize)
      invariant forall k :: n - index <= k < n ==> framePcs[k] == deoptEntry - pcReturnOffset
    {
      frameSizes[n - 1 - index] :=
        BytesPerWord * onStackSize(frames[index], calleeParameters, calleeLocals, index == 0, popframeArgs);
      framePcs[n - 1 - index] := deoptEntry - pcReturnOffset;
      calleeParameters := frames[index].sizeOfParameters;
      calleeLocals := frames[index].maxLocals;
      popframeArgs := 0;
      index := index + 1;
    }
  }

  /** The adjustment, in words, the oldest interpreter frame makes to its
      caller's frame: a compiled caller (or a method-handle call) provides no
      parameter area the interpreter can use, so all locals count; an
      interpreted caller provides the parameters, so only the further locals count. */
  function CallerAdjustment(senderIsInterpreted: bool, callerWasMethodHandle: bool,
                            calleeParameters: int, calleeLocals: int, lastFrameAdjust: LastFrameAdjust): (r: int)
    ensures !senderIsInterpreted || callerWasMethodHandle ==> r == lastFrameAdjust(0, calleeLocals)
    ensures senderIsInterpreted && !callerWasMethodHandle && calleeLocals <= calleeParameters ==> r == 0
  {
    if !senderIsInterpreted || callerWasMethodHandle then lastFrameAdjust(0, calleeLocals)
    else if calleeLocals > calleeParameters then lastFrameAdjust(calleeParameters, calleeLocals)
    else 0
  }

  /** With last_frame_adjust defined as the local words a frame adds beyond
      its parameters, the caller is extended by exactly the callee locals it
      does not already hold, and never shrunk. */
  lemma CallerAdjustmentCoversMissingLocals(senderIsInterpreted: bool, callerWasMethodHandle: bool,
                                            calleeParameters: int, calleeLocals: int,
                                            lastFrameAdjust: LastFrameAdjust, stackElementWords: nat)
    requires calleeLocals >= 0
    requires forall p, l :: lastFrameAdjust(p, l) == (l - p) * stackElementWords
    ensures var provided := if senderIsInterpreted && !callerWasMethodHandle then calleeParameters else 0;
            var missing := if calleeLocals > provided then calleeLocals - provided else 0;
            CallerAdjustment(senderIsInterpreted, callerWasMethodHandle, calleeParameters, calleeLocals, lastFrameAdjust)
              == missing * stackElementWords
  {
  }

  /** caller_actual_parameters: only meaningful for an interpreted caller,
      which passed the callee's parameters plus the member argument of a
      method-handle call. */
  function CallerActualParameters(senderIsInterpreted: bool, callerWasMethodHandle: bool,
                                  calleeParameters: int): (r: int)
    ensures !senderIsInterpreted ==> r == -1
    ensures senderIsInterpreted ==> r - calleeParameters == (if callerWasMethodHandle then 1 else 0)
  {
    if senderIsInterpreted then calleeParameters + (if callerWasMethodHandle then 1 else 0) else -1
  }

  /** For an interpreted caller, the parameters it actually pushed and the
      parameter area the caller adjustment counts as already provided agree
      without a method-handle call. A method-handle call pushed one more
      argument (the member name), but the adjustment treats the caller as
      providing none and extends it by all the callee's locals. */
  lemma ActualParametersAndAdjustment(callerWasMethodHandle: bool, calleeParameters: int, calleeLocals: int,
                                      lastFrameAdjust: LastFrameAdjust, stackElementWords: nat)
    requires calleeLocals >= 0
    requires forall p, l :: lastFrameAdjust(p, l) == (l - p) * stackElementWords
    ensures var actual := CallerActualParameters(true, callerWasMethodHandle, calleeParameters);
            var adjustment := CallerAdjustment(true, callerWasMethodHandle, calleeParameters, calleeLocals, lastFrameAdjust);
            !callerWasMethodHandle ==>
              adjustment == (if calleeLocals > actual then calleeLocals - actual else 0) * stackElementWords
    ensures var actual := CallerActualParameters(true, callerWasMethodHandle, calleeParameters);
            var adjustment := CallerAdjustment(true, callerWasMethodHandle, calleeParameters, calleeLocals, lastFrameAdjust);
            callerWasMethodHandle ==> actual == calleeParameters + 1 && adjustment == calleeLocals * stackElementWords
  {
    CallerAdjustmentCoversMissingLocals(true, callerWasMethodHandle, calleeParameters, calleeLocals,
                                        lastFrameAdjust, stackElementWords);
  }

  /** The unpack mode after the exception checks: a JVMCI exception object, or
      frames left to pop after failed reallocation (unless the trap is an
      uncommon trap), switch it to Unpack_exception. */
  function UnpackMode(execMode: int, jvmci: bool, hasExceptionObject: bool, framesToPopFailedRealloc: int): (r: int)
    ensures r == execMode || r == UnpackException
    ensures r == UnpackException <==>
              execMode == UnpackException || (jvmci && hasExceptionObject)
              || (framesToPopFailedRealloc > 0 && execMode != UnpackUncommonTrap)
  {
    var m := if jvmci && hasExceptionObject then UnpackException else execMode;
    if framesToPopFailedRealloc > 0 && m != UnpackUncommonTrap then UnpackException else m
  }

  /** The return type unpack_frames reports for the mode it unpacks in. */
  function UnpackReturnType(execMode: int, returnType: BasicType): BasicType
  {
    if execMode == UnpackException then TObject else returnType
  }

  /** Whenever fetch_unroll_info_helper leaves an exception oop to deliver (a
      JVMCI exception object, or the OutOfMemoryError of a failed
      reallocation outside an uncommon trap), unpack_frames claims an oop
      return, so the deopt blob does not overwrite the exception oop; with no
      exception the block's own return type is reported. */
  lemma PendingExceptionReturnsOop(execMode: int, jvmci: bool, hasExceptionObject: bool,
                                   framesToPopFailedRealloc: int, returnType: BasicType)
    ensures var mode := UnpackMode(execMode, jvmci, hasExceptionObject, framesToPopFailedRealloc);
            (jvmci && hasExceptionObject) || (framesToPopFailedRealloc > 0 && execMode != UnpackUncommonTrap)
            ==> UnpackReturnType(mode, returnType) == TObject
    ensures var mode := UnpackMode(execMode, jvmci, hasExceptionObject, framesToPopFailedRealloc);
            execMode != UnpackException && !(jvmci && hasExceptionObject)
            && !(framesToPopFailedRealloc > 0 && execMode != UnpackUncommonTrap)
            ==> UnpackReturnType(mode, returnType) == returnType
  {
  }

  /** The first return address: the continuation return barrier when the
      deoptee is a continuation barrier frame, the sender's pc otherwise. */
  function FirstFramePc(isContBarrierFrame: bool, contReturnBarrier: int, senderRawPc: int): int
  {
    if isContBarrierFrame then contReturnBarrier else senderRawPc
  }

  /** What fetch_unroll_info_helper learns about its surroundings. */
  datatype UnrollContext = UnrollContext(
    frames: seq<LogicalFrame>,
    canPopFrame: bool,
    popframeForcingReexecution: bool,
    popframePreservedArgsWords: int,
    senderIsInterpreted: bool,
    senderInvokeHasMemberArg: bool,
    isContBarrierFrame: bool,
    contReturnBarrier: int,
    senderRawPc: int,
    deoptEntry: int,
    pcReturnOffset: int,
    rootInvokeResultType: BasicType,
    rootInvokeIsValid: bool,
    jvmci: bool,
    hasExceptionObject: bool,
    framesToPopFailedRealloc: int,
    arrayFrameSizeWords: int,
    regCount: nat)

  /** The frame planning of fetch_unroll_info_helper, from the vframe array
      to the finished UnrollBlock. */
  method PlanUnrollBlock(ctx: UnrollContext, execMode: int, onStackSize: OnStackSize,
                         lastFrameAdjust: LastFrameAdjust)
    returns (info: UnrollBlock, finalExecMode: int)
    requires |ctx.frames| >= 1
    requires 0 <= execMode < UnpackLimit
    ensures fresh(info) && fresh(info.frameSizes) && fresh(info.framePcs) && info.Valid()
    ensures finalExecMode == UnpackMode(execMode, ctx.jvmci, ctx.hasExceptionObject, ctx.framesToPopFailedRealloc)
    ensures info.unpackKind == finalExecMode
    ensures var n := |ctx.frames|;
            var popframe := if ctx.canPopFrame && ctx.popframeForcingReexecution then ctx.popframePreservedArgsWords else 0;
            var mh := ctx.senderIsInterpreted && ctx.senderInvokeHasMemberArg;
            info.numberOfFrames == n && info.frameSizes.Length == n && info.framePcs.Length == n + 1
            && (forall i :: 0 <= i < n ==>
                  info.frameSizes[n - 1 - i] == FrameSize(ctx.frames, i, popframe, onStackSize))
            && info.framePcs[0] == FirstFramePc(ctx.isContBarrierFrame, ctx.contReturnBarrier, ctx.senderRawPc)
            && (forall k :: 1 <= k < n ==> info.framePcs[k] == ctx.deoptEntry - ctx.pcReturnOffset)
            && info.framePcs[n] == ctx.deoptEntry
            && info.callerAdjustment == BytesPerWord * CallerAdjustment(ctx.senderIsInterpreted, mh,
                 CalleeParameters(ctx.frames, n), CalleeLocals(ctx.frames, n), lastFrameAdjust)
            && info.callerActualParameters == CallerActualParameters(ctx.senderIsInterpreted, mh,
                 CalleeParameters(ctx.frames, n))
            && info.sizeOfDeoptimizedFrame == ctx.arrayFrameSizeWords * BytesPerWord
    ensures info.returnType == if ctx.rootInvokeIsValid then ctx.rootInvokeResultType else TIllegal
    ensures info.totalFrameSizes == CheckedCastInt(info.callerAdjustment + Sum(info.frameSizes[..info.numberOfFrames]))
  {
    var n := |ctx.frames|;
    var popframeExtraArgs := 0;
    if ctx.canPopFrame && ctx.popframeForcingReexecution {
      popframeExtraArgs := ctx.popframePreservedArgsWords;
    }
    var callerWasMethodHandle := false;
    if ctx.senderIsInterpreted && ctx.senderInvokeHasMemberArg {
      callerWasMethodHandle := true;
    }
    var frameSizes, framePcs, calleeParameters, calleeLocals :=
      PlanFrames(ctx.frames, popframeExtraArgs, ctx.deoptEntry, ctx.pcReturnOffset, onStackSize);
    var returnType := if ctx.rootInvokeIsValid then ctx.rootInvokeResultType else TIllegal;
    var callerAdjustment := CallerAdjustment(ctx.senderIsInterpreted, callerWasMethodHandle,
                                             calleeParameters, calleeLocals, lastFrameAdjust);
    framePcs[0] := FirstFramePc(ctx.isContBarrierFrame, ctx.contReturnBarrier, ctx.senderRawPc);
    finalExecMode := UnpackMode(execMode, ctx.jvmci, ctx.hasExceptionObject, ctx.framesToPopFailedRealloc);
    var callerActualParameters := CallerActualParameters(ctx.senderIsInterpreted, callerWasMethodHandle,
                                                         calleeParameters);
    info := new UnrollBlock(ctx.arrayFrameSizeWords * BytesPerWord, callerAdjustment * BytesPerWord,
                            callerActualParameters, n, frameSizes, framePcs, returnType, finalExecMode,
                            ctx.regCount);
  }
}
