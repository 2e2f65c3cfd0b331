/** Relocking the objects whose synchronization a compiled frame eliminated,
    and unlocking every monitor when reallocation failed and the
    deoptimized frames are popped.

    The deoptee thread is a class whose lock operations are a log of enter
    and exit events; the mark word and the locking modes are not modelled,
    so a monitor's owner is entered or left as one step. */
module LockReversal {
  import opened DeoptEnums

  datatype Option<T> = None | Some(value: T)

  /** An object reference. */
  type Oop = nat

  /** MonitorInfo: whether the compiler eliminated the lock, whether the
      owner is a scalar-replaced object (whose reallocation then failed), the
      owner, and whether the owner's mark word points to an inflated
      monitor. */
  datatype MonitorInfo = MonitorInfo(eliminated: bool, ownerIsScalarReplaced: bool, owner: Oop, hasMonitor: bool)

  /** A lock operation on behalf of the deoptee thread. */
  datatype LockEvent = Enter(obj: Oop) | Exit(obj: Oop)

  /** Relocking is deferred when the frame is deoptimized without unpacking
      and the deoptee thread is waiting on the owner's monitor. */
  predicate DefersRelock(m: MonitorInfo, execMode: int, waitingOn: Option<Oop>)
  {
    m.eliminated && !m.ownerIsScalarReplaced
    && execMode == UnpackNone && m.hasMonitor && waitingOn == Some(m.owner)
  }

  /** The monitors whose owner relock_objects enters now. */
  predicate Relocks(m: MonitorInfo, execMode: int, waitingOn: Option<Oop>)
  {
    m.eliminated && !m.ownerIsScalarReplaced && !DefersRelock(m, execMode, waitingOn)
  }

  /** The owners relock_objects enters for the first `n` monitors, in order. */
  function RelockEvents(ms: seq<MonitorInfo>, execMode: int, waitingOn: Option<Oop>, n: nat): seq<LockEvent>
    requires n <= |ms|
  {
    if n == 0 then []
    else RelockEvents(ms, execMode, waitingOn, n - 1)
         + (if Relocks(ms[n - 1], execMode, waitingOn) then [Enter(ms[n - 1].owner)] else [])
  }

  /** How many of the first `n` monitors have their relocking deferred. */
  function DeferredCount(ms: seq<MonitorInfo>, execMode: int, waitingOn: Option<Oop>, n: nat): nat
    requires n <= |ms|
  {
    if n == 0 then 0
    else DeferredCount(ms, execMode, waitingOn, n - 1) + (if DefersRelock(ms[n - 1], execMode, waitingOn) then 1 else 0)
  }

  /** How many of the first `n` monitors were eliminated with an owner that
      exists. */
  function EliminatedOwnedCount(ms: seq<MonitorInfo>, n: nat): nat
    requires n <= |ms|
  {
    if n == 0 then 0
    else EliminatedOwnedCount(ms, n - 1) + (if ms[n - 1].eliminated && !ms[n - 1].ownerIsScalarReplaced then 1 else 0)
  }

  /** A frame's monitors in a vframeArray element: the object of each
      BasicObjectLock (nullptr when none), innermost last; None once freed. */
  type MonitorChunk = Option<seq<Option<Oop>>>

  /** The exits for the locks `ms[j..]`, most nested first. */
  function ExitsDown(ms: seq<Option<Oop>>, j: nat): seq<LockEvent>
    decreases |ms| - j
  {
    if j >= |ms| then []
    else ExitsDown(ms, j + 1) + (if ms[j].Some? then [Exit(ms[j].value)] else [])
  }

  /** The exits pop_frames_failed_reallocs makes for the first `n` frames. */
  function FramesExits(chunks: seq<MonitorChunk>, n: nat): seq<LockEvent>
    requires n <= |chunks|
  {
    if n == 0 then []
    else FramesExits(chunks, n - 1) + (match chunks[n - 1] case None => [] case Some(ms) => ExitsDown(ms, 0))
  }

  /** The relocks of frames `i` up to the end of a chunk of compiled
      vframes, the outermost (last) frame first. */
  function OutermostFirst(chunk: seq<seq<MonitorInfo>>, execMode: int, waitingOn: Option<Oop>, i: nat): seq<LockEvent>
    decreases |chunk| - i
  {
    if i >= |chunk| then []
    else OutermostFirst(chunk, execMode, waitingOn, i + 1)
         + RelockEvents(chunk[i], execMode, waitingOn, |chunk[i]|)
  }

  /** The deferred relocks of the frames of a chunk from `i` on. */
  function FramesDeferredCount(chunk: seq<seq<MonitorInfo>>, execMode: int, waitingOn: Option<Oop>, i: nat): nat
    decreases |chunk| - i
  {
    if i >= |chunk| then 0
    else FramesDeferredCount(chunk, execMode, waitingOn, i + 1) + DeferredCount(chunk[i], execMode, waitingOn, |chunk[i]|)
  }

  /** Whether any monitor of a frame is eliminated. */
  predicate AnyEliminated(ms: seq<MonitorInfo>)
  {
    exists i :: 0 <= i < |ms| && ms[i].eliminated
  }

  /** The deoptee thread's locking state as deoptimization sees it. */
  class DeopteeThread {
    /** The lock operations made on its behalf, in order. */
    var lockEvents: seq<LockEvent>
    /** JvmtiDeferredUpdates' count of relocks deferred until after a wait. */
    var relockCountAfterWait: nat
    /** The interpreter frames to pop after failed reallocations. */
    var framesToPopFailedRealloc: nat

    constructor ()
      ensures lockEvents == [] && relockCountAfterWait == 0 && framesToPopFailedRealloc == 0
    {
      lockEvents := [];
      relockCountAfterWait := 0;
      framesToPopFailedRealloc := 0;
    }

    /** Deoptimization::relock_objects: enters the owner of every eliminated
        monitor in order, except scalar-replaced owners and deferred relocks,
        which are counted instead; answers whether any monitor was
        eliminated. `waitingOn` is the object of the monitor the deoptee
        thread is waiting on. */
    method RelockObjects(monitors: seq<MonitorInfo>, execMode: int, waitingOn: Option<Oop>, reallocFailures: bool)
      returns (relockedObjects: bool)
      requires forall i :: 0 <= i < |monitors| && monitors[i].eliminated && monitors[i].ownerIsScalarReplaced ==> reallocFailures
      modifies this
      ensures relockedObjects <==> AnyEliminated(monitors)
      ensures lockEvents == old(lockEvents) + RelockEvents(monitors, execMode, waitingOn, |monitors|)
      ensures relockCountAfterWait == old(relockCountAfterWait) + DeferredCount(monitors, execMode, waitingOn, |monitors|)
      ensures framesToPopFailedRealloc == old(framesToPopFailedRealloc)
    {
      relockedObjects := false;
      var i := 0;
      while i < |monitors|
        invariant 0 <= i <= |monitors|
        invariant relockedObjects <==> exists k :: 0 <= k < i && monitors[k].eliminated
        invariant lockEvents == old(lockEvents) + RelockEvents(monitors, execMode, waitingOn, i)
        invariant relockCountAfterWait == old(relockCountAfterWait) + DeferredCount(monitors, execMode, waitingOn, i)
        invariant framesToPopFailedRealloc == old(framesToPopFailedRealloc)
      {
        var m := monitors[i];
        if m.eliminated {
          relockedObjects := true;
          if !m.ownerIsScalarReplaced {
            if execMode == UnpackNone && m.hasMonitor && waitingOn == Some(m.owner) {
              relockCountAfterWait := relockCountAfterWait + 1;
            } else {
              lockEvents := lockEvents + [Enter(m.owner)];
            }
          }
        }
        i := i + 1;
      }
    }

    /** restore_eliminated_locks: relocks the monitors of every frame of a
        chunk, from the outermost (last) frame to the innermost; the flag
        `deoptimizedObjects` is set when any frame had an eliminated lock. */
    method RestoreEliminatedLocks(chunk: seq<seq<MonitorInfo>>, reallocFailures: bool, execMode: int,
                                  waitingOn: Option<Oop>, deoptimizedObjects: bool)
      returns (deoptimizedObjectsAfter: bool)
      requires forall f, i :: 0 <= f < |chunk| && 0 <= i < |chunk[f]| && chunk[f][i].eliminated && chunk[f][i].ownerIsScalarReplaced ==> reallocFailures
      modifies this
      ensures deoptimizedObjectsAfter <==> deoptimizedObjects || exists f :: 0 <= f < |chunk| && AnyEliminated(chunk[f])
      ensures lockEvents == old(lockEvents) + OutermostFirst(chunk, execMode, waitingOn, 0)
      ensures relockCountAfterWait == old(relockCountAfterWait) + FramesDeferredCount(chunk, execMode, waitingOn, 0)
      ensures framesToPopFailedRealloc == old(framesToPopFailedRealloc)
    {
      deoptimizedObjectsAfter := deoptimizedObjects;
      var i := |chunk|;
      while i > 0
        invariant 0 <= i <= |chunk|
        invariant deoptimizedObjectsAfter <==> deoptimizedObjects || exists f :: i <= f < |chunk| && AnyEliminated(chunk[f])
        invariant lockEvents == old(lockEvents) + OutermostFirst(chunk, execMode, waitingOn, i)
        invariant relockCountAfterWait == old(relockCountAfterWait) + FramesDeferredCount(chunk, execMode, waitingOn, i)
        invariant framesToPopFailedRealloc == old(framesToPopFailedRealloc)
      {
        i := i - 1;
        var monitors := chunk[i];
        if |monitors| > 0 {
          var relocked := RelockObjects(monitors, execMode, waitingOn, reallocFailures);
          deoptimizedObjectsAfter := deoptimizedObjectsAfter || relocked;
        }
      }
    }

    /** Deoptimization::pop_frames_failed_reallocs: records that all the
        frames of the array are to be popped, leaves every monitor of every
        frame, the most nested of a frame first, skipping empty locks, and
        frees every frame's monitors. */
    method PopFramesFailedReallocs(frames: array<MonitorChunk>)
      requires framesToPopFailedRealloc == 0
      modifies this, frames
      ensures framesToPopFailedRealloc == frames.Length
      ensures lockEvents == old(lockEvents) + FramesExits(old(frames[..]), frames.Length)
      ensures forall i :: 0 <= i < frames.Length ==> frames[i].None?
      ensures relockCountAfterWait == old(relockCountAfterWait)
    {
      framesToPopFailedRealloc := frames.Length;
      var i := 0;
      while i < frames.Length
        invariant 0 <= i <= frames.Length
        invariant forall k :: 0 <= k < i ==> frames[k].None?
        invariant forall k :: i <= k < frames.Length ==> frames[k] == old(frames[k])
        invariant lockEvents == old(lockEvents) + FramesExits(old(frames[..]), i)
        invariant framesToPopFailedRealloc == frames.Length
        invariant relockCountAfterWait == old(relockCountAfterWait)
      {
        var monitors := frames[i];
        if monitors.Some? {
          UnlockChunk(monitors.value);
          frames[i] := None;
        }
        i := i + 1;
      }
    }

    /** The inner loop of pop_frames_failed_reallocs: leaves the locks of one
        frame, the most nested first. */
    method UnlockChunk(ms: seq<Option<Oop>>)
      modifies this
      ensures lockEvents == old(lockEvents) + ExitsDown(ms, 0)
      ensures relockCountAfterWait == old(relockCountAfterWait)
      ensures framesToPopFailedRealloc == old(framesToPopFailedRealloc)
    {
      var j := |ms|;
      while j > 0
        invariant 0 <= j <= |ms|
        invariant lockEvents == old(lockEvents) + ExitsDown(ms, j)
        invariant relockCountAfterWait == old(relockCountAfterWait)
        invariant framesToPopFailedRealloc == old(framesToPopFailedRealloc)
      {
        j := j - 1;
        if ms[j].Some? {
          lockEvents := lockEvents + [Exit(ms[j].value)];
        }
      }
    }
  }

  // ---------------------------------------------------------------------------
  // Properties of the relock and unlock orders

  /** An owner is entered iff some monitor relocks it: an eliminated monitor
      whose owner exists and whose relocking is not deferred. */
  lemma {:induction false} RelockEventsMembers(ms: seq<MonitorInfo>, execMode: int, waitingOn: Option<Oop>, n: nat, e: LockEvent)
    requires n <= |ms|
    ensures e in RelockEvents(ms, execMode, waitingOn, n) <==>
            e.Enter? && exists i :: 0 <= i < n && Relocks(ms[i], execMode, waitingOn) && ms[i].owner == e.obj
  {
    if n > 0 {
      RelockEventsMembers(ms, execMode, waitingOn, n - 1, e);
    }
  }

  /** Every eliminated monitor with an existing owner is either relocked now
      or deferred, never both and never neither. */
  lemma {:induction false} RelockedOrDeferred(ms: seq<MonitorInfo>, execMode: int, waitingOn: Option<Oop>, n: nat)
    requires n <= |ms|
    ensures |RelockEvents(ms, execMode, waitingOn, n)| + DeferredCount(ms, execMode, waitingOn, n) == EliminatedOwnedCount(ms, n)
  {
    if n > 0 {
      RelockedOrDeferred(ms, execMode, waitingOn, n - 1);
    }
  }

  /** Outside Unpack_none nothing is deferred: every eliminated monitor with
      an existing owner is relocked. */
  lemma {:induction false} NoDeferralWhenUnpacking(ms: seq<MonitorInfo>, execMode: int, waitingOn: Option<Oop>, n: nat)
    requires n <= |ms| && execMode != UnpackNone
    ensures DeferredCount(ms, execMode, waitingOn, n) == 0
    ensures |RelockEvents(ms, execMode, waitingOn, n)| == EliminatedOwnedCount(ms, n)
  {
    if n > 0 {
      NoDeferralWhenUnpacking(ms, execMode, waitingOn, n - 1);
    }
  }

  /** The relocks of the outermost frame are the first ones made. */
  lemma {:induction false} OutermostFrameRelocksFirst(chunk: seq<seq<MonitorInfo>>, execMode: int, waitingOn: Option<Oop>, i: nat)
    requires i < |chunk|
    ensures var outer := RelockEvents(chunk[|chunk| - 1], execMode, waitingOn, |chunk[|chunk| - 1]|);
            var all := OutermostFirst(chunk, execMode, waitingOn, i);
            |outer| <= |all| && all[..|outer|] == outer
    decreases |chunk| - i
  {
    if i < |chunk| - 1 {
      OutermostFrameRelocksFirst(chunk, execMode, waitingOn, i + 1);
    } else {
      assert OutermostFirst(chunk, execMode, waitingOn, i + 1) == [];
    }
  }

  /** The unlocks of a frame leave exactly its non-null lock objects. */
  lemma {:induction false} ExitsDownMembers(ms: seq<Option<Oop>>, j: nat, e: LockEvent)
    ensures e in ExitsDown(ms, j) <==> e.Exit? && exists k :: j <= k < |ms| && ms[k] == Some(e.obj)
    decreases |ms| - j
  {
    if j < |ms| {
      ExitsDownMembers(ms, j + 1, e);
    }
  }

  /** The first lock left is the most nested one, when it holds an object. */
  lemma {:induction false} MostNestedUnlockedFirst(ms: seq<Option<Oop>>, j: nat)
    requires j < |ms| && ms[|ms| - 1].Some?
    ensures |ExitsDown(ms, j)| > 0 && ExitsDown(ms, j)[0] == Exit(ms[|ms| - 1].value)
    decreases |ms| - j
  {
    if j < |ms| - 1 {
      MostNestedUnlockedFirst(ms, j + 1);
    }
  }

  /** Exactly one exit per non-null lock of a frame. */
  lemma {:induction false} ExitsDownCount(ms: seq<Option<Oop>>, j: nat)
    ensures |ExitsDown(ms, j)| == |set k | j <= k < |ms| && ms[k].Some?|
    decreases |ms| - j
  {
    if j < |ms| {
      ExitsDownCount(ms, j + 1);
      var later := set k | j + 1 <= k < |ms| && ms[k].Some?;
      var here := set k | j <= k < |ms| && ms[k].Some?;
      if ms[j].Some? {
        assert here == later + {j};
      } else {
        assert here == later;
      }
    }
  }
}
