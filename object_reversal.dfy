/** The bookkeeping around reallocating the objects that escape analysis
    eliminated, when a compiled frame is deoptimized: the box caches that
    JVMCI auto boxes come from, realloc_objects, the field order of
    get_reassigned_fields, reassign_fields, and the length of a byte-array
    entry in count_number_of_bytes_for_entry.

    Objects are opaque references. Allocation, decoding of stack values and
    the stores into the new objects are not modelled: the outcome of each
    allocation and the raw stack word of each box are inputs. */
module ObjectReversal {
  import opened MachineWords
  import opened DeoptEnums

  datatype Option<T> = None | Some(value: T)

  /** An object reference; None plays nullptr. */
  type Oop = nat

  // ---------------------------------------------------------------------------
  // Box caches

  /** The primitive types whose box class keeps a cache of boxes. */
  datatype BoxKind = IntBox | LongBox | CharBox | ShortBox | ByteBox

  /** BoxCache: the range [low, high] of cached values and the cache array,
      or, when the cache class is in an error state, the empty range 1..0 and
      no array. */
  datatype BoxCache = BoxCache(low: int, high: int, cache: Option<seq<Oop>>)

  predicate ValidBoxCache(c: BoxCache)
  {
    match c.cache
    case None => c.low == 1 && c.high == 0
    case Some(a) => |a| > 0 && c.high == c.low + |a| - 1
  }

  /** The BoxCache constructor: `cache` is the cache class's array and
      `firstValue` the value boxed by its first element. */
  function NewBoxCache(inErrorState: bool, firstValue: int, cache: seq<Oop>): (c: BoxCache)
    requires !inErrorState ==> |cache| > 0
    ensures ValidBoxCache(c)
    ensures c.cache.Some? <==> !inErrorState
    ensures !inErrorState ==> c.low == firstValue && c.cache.value == cache
  {
    if inErrorState then BoxCache(1, 0, None)
    else BoxCache(firstValue, firstValue + |cache| - 1, Some(cache))
  }

  /** BoxCache::lookup: the cached box of a value in range, else nullptr. */
  function Lookup(c: BoxCache, value: int): (r: Option<Oop>)
    requires ValidBoxCache(c)
    ensures r.Some? <==> c.low <= value <= c.high
  {
    if c.low <= value <= c.high then Some(c.cache.value[value - c.low]) else None
  }

  /** Every element of a cache is what lookup returns for its value, and
      nothing outside the cached values is found. */
  lemma LookupFindsCachedBoxes(firstValue: int, cache: seq<Oop>, value: int)
    requires |cache| > 0
    ensures var c := NewBoxCache(false, firstValue, cache);
            (0 <= value - firstValue < |cache| ==> Lookup(c, value) == Some(cache[value - firstValue]))
            && (value < firstValue || value >= firstValue + |cache| ==> Lookup(c, value) == None)
  {
  }

  /** A cache in the error state finds nothing. */
  lemma ErrorCacheFindsNothing(firstValue: int, cache: seq<Oop>, value: int)
    ensures Lookup(NewBoxCache(true, firstValue, cache), value) == None
  {
  }

  /** The conversion of a jint to jshort: its low 16 bits, signed. */
  function ToJshort(x: int): (v: int)
    ensures -0x8000 <= v < 0x8000
    ensures -0x8000 <= x < 0x8000 ==> v == x
  {
    var m := x % 0x1_0000;
    if m >= 0x8000 then m - 0x1_0000 else m
  }

  /** The conversion of a jint to jbyte: its low 8 bits, signed. */
  function ToJbyte(x: int): (v: int)
    ensures -0x80 <= v < 0x80
    ensures -0x80 <= x < 0x80 ==> v == x
  {
    var m := x % 0x100;
    if m >= 0x80 then m - 0x100 else m
  }

  /** The value a box kind's lookup_raw reads from a raw stack word: all 64
      bits for a long; otherwise the low 32 bits as a jint (a little-endian
      platform), converted to the primitive type. */
  function PrimitiveValue(kind: BoxKind, raw: i64): (v: int)
    ensures InPrimitiveRange(kind, v)
    ensures InPrimitiveRange(kind, raw) ==> v == raw
  {
    var asJint := ToJint(Wrap32(raw));
    match kind
    case LongBox => raw
    case IntBox => asJint
    case CharBox => asJint % 0x1_0000
    case ShortBox => ToJshort(asJint)
    case ByteBox => ToJbyte(asJint)
  }

  /** The values of jint, jlong, jchar, jshort and jbyte. */
  predicate InPrimitiveRange(kind: BoxKind, v: int)
  {
    match kind
    case LongBox => -TwoTo63 <= v < TwoTo63
    case IntBox => -TwoTo31 <= v < TwoTo31
    case CharBox => 0 <= v < 0x1_0000
    case ShortBox => -0x8000 <= v < 0x8000
    case ByteBox => -0x80 <= v < 0x80
  }

  /** BoxCache::lookup_raw: nullptr and the error flag set for a cache in the
      error state, else the lookup of the primitive value. */
  function LookupRaw(c: BoxCache, kind: BoxKind, raw: i64): (r: (Option<Oop>, bool))
    requires ValidBoxCache(c)
    ensures r.1 <==> c.cache.None?
    ensures r.1 ==> r.0.None?
    ensures !r.1 ==> r.0 == Lookup(c, PrimitiveValue(kind, raw))
  {
    if c.cache.None? then (None, true) else (Lookup(c, PrimitiveValue(kind, raw)), false)
  }

  /** A value of the box's own type that the cache holds is found from the
      raw word that stores it. */
  lemma LookupRawOfStoredValue(c: BoxCache, kind: BoxKind, value: i64)
    requires ValidBoxCache(c) && c.cache.Some? && InPrimitiveRange(kind, value)
    requires c.low <= value <= c.high
    ensures LookupRaw(c, kind, value) == (Some(c.cache.value[value - c.low]), false)
  {
  }

  /** BooleanBoxCache: the TRUE and FALSE boxes, or neither when the Boolean
      class is in an error state. */
  datatype BooleanBoxCache = BooleanBoxCache(trueCache: Option<Oop>, falseCache: Option<Oop>)

  predicate ValidBooleanBoxCache(c: BooleanBoxCache)
  {
    c.trueCache.Some? == c.falseCache.Some?
  }

  /** BooleanBoxCache::lookup: TRUE for any nonzero value. */
  function BooleanLookup(c: BooleanBoxCache, value: int): Oop
    requires ValidBooleanBoxCache(c) && c.trueCache.Some?
  {
    if value != 0 then c.trueCache.value else c.falseCache.value
  }

  /** BooleanBoxCache::lookup_raw: the jboolean is the low byte of the jint
      read from the stack word, so only that byte of the word decides between
      TRUE and FALSE (a word of 2 gives TRUE, a word of 256 gives FALSE). */
  function BooleanLookupRaw(c: BooleanBoxCache, raw: i64): (r: (Option<Oop>, bool))
    requires ValidBooleanBoxCache(c)
    ensures r.1 <==> c.trueCache.None?
    ensures r.1 ==> r.0.None?
    ensures !r.1 ==> r.0 == Some(if raw % TwoTo8 != 0 then c.trueCache.value else c.falseCache.value)
    ensures raw == 0 && !r.1 ==> r.0 == c.falseCache
    ensures raw == 1 && !r.1 ==> r.0 == c.trueCache
  {
    JintLowByte(raw);
    if c.trueCache.None? then (None, true)
    else (Some(BooleanLookup(c, ToJint(Wrap32(raw)) % 0x100)), false)
  }

  /** The box caches of Integer, Long, Character, Short, Byte and Boolean. */
  datatype BoxCaches = BoxCaches(intCache: BoxCache, longCache: BoxCache, charCache: BoxCache,
                                 shortCache: BoxCache, byteCache: BoxCache, booleanCache: BooleanBoxCache)

  predicate ValidBoxCaches(cs: BoxCaches)
  {
    ValidBoxCache(cs.intCache) && ValidBoxCache(cs.longCache) && ValidBoxCache(cs.charCache)
    && ValidBoxCache(cs.shortCache) && ValidBoxCache(cs.byteCache) && ValidBooleanBoxCache(cs.booleanCache)
  }

  /** The box kind with a range cache for a primitive basic type. */
  function BoxKindOf(t: BasicType): (k: Option<BoxKind>)
    ensures k.Some? <==> t in {TInt, TLong, TChar, TShort, TByte}
  {
    match t
    case TInt => Some(IntBox)
    case TLong => Some(LongBox)
    case TChar => Some(CharBox)
    case TShort => Some(ShortBox)
    case TByte => Some(ByteBox)
    case _ => None
  }

  function CacheOf(cs: BoxCaches, k: BoxKind): BoxCache
  {
    match k
    case IntBox => cs.intCache
    case LongBox => cs.longCache
    case CharBox => cs.charCache
    case ShortBox => cs.shortCache
    case ByteBox => cs.byteCache
  }

  /** Deoptimization::get_cached_box: `boxType` is vmClasses::box_klass_type
      of the box's class (T_OBJECT for a class that is no box) and `raw` the
      stack word of its value field. Only the six cached box types can yield
      a box or report a cache initialisation error. */
  function GetCachedBox(boxType: BasicType, raw: i64, cs: BoxCaches): (r: (Option<Oop>, bool))
    requires ValidBoxCaches(cs)
    ensures r.1 ==> r.0.None?
    ensures boxType !in {TInt, TLong, TChar, TShort, TByte, TBoolean} ==> r == (None, false)
    ensures BoxKindOf(boxType).Some? ==> r == LookupRaw(CacheOf(cs, BoxKindOf(boxType).value), BoxKindOf(boxType).value, raw)
    ensures boxType == TBoolean ==> r == BooleanLookupRaw(cs.booleanCache, raw)
  {
    match boxType
    case TInt => LookupRaw(cs.intCache, IntBox, raw)
    case TChar => LookupRaw(cs.charCache, CharBox, raw)
    case TShort => LookupRaw(cs.shortCache, ShortBox, raw)
    case TByte => LookupRaw(cs.byteCache, ByteBox, raw)
    case TBoolean => BooleanLookupRaw(cs.booleanCache, raw)
    case TLong => LookupRaw(cs.longCache, LongBox, raw)
    case _ => (None, false)
  }

  /** A value of a cached range comes back as the cached box, and a cache
      initialisation error is reported exactly when that cache is in the error
      state. */
  lemma CachedBoxOfValue(cs: BoxCaches, boxType: BasicType, value: i64)
    requires ValidBoxCaches(cs) && BoxKindOf(boxType).Some?
    requires InPrimitiveRange(BoxKindOf(boxType).value, value)
    ensures var c := CacheOf(cs, BoxKindOf(boxType).value);
            var r := GetCachedBox(boxType, value, cs);
            (r.1 <==> c.cache.None?)
            && (c.cache.Some? && c.low <= value <= c.high ==> r == (Some(c.cache.value[value - c.low]), false))
            && (c.low <= value <= c.high || r.0 == None)
  {
  }

  // ---------------------------------------------------------------------------
  // Fields of an instance class, superclass first

  /** A field as AllFieldStream yields it. */
  datatype FieldInfo = FieldInfo(offset: int, signature: BasicType, isStatic: bool, isInjected: bool)

  /** An instance class: its superclass and its own fields in stream order. */
  datatype InstanceKlassInfo = InstanceKlassInfo(superKlass: Option<InstanceKlassInfo>, fields: seq<FieldInfo>)

  /** ReassignedField: where and of which type a field is stored. */
  datatype ReassignedField = ReassignedField(offset: int, fieldType: BasicType)

  /** The fields escape analysis eliminates: instance fields, and injected
      ones only for JVMCI. */
  predicate IsReassigned(f: FieldInfo, isJvmci: bool)
  {
    !f.isStatic && (isJvmci || !f.isInjected)
  }

  function AsReassigned(f: FieldInfo): ReassignedField
  {
    ReassignedField(f.offset, f.signature)
  }

  /** The reassigned fields among `fs`, in order. */
  function DeclaredReassigned(fs: seq<FieldInfo>, isJvmci: bool): seq<ReassignedField>
  {
    if |fs| == 0 then []
    else DeclaredReassigned(fs[..|fs| - 1], isJvmci)
         + (if IsReassigned(fs[|fs| - 1], isJvmci) then [AsReassigned(fs[|fs| - 1])] else [])
  }

  /** The reassigned fields of a class: those of its superclass first, then
      its own. */
  function ReassignedFieldsOf(klass: InstanceKlassInfo, isJvmci: bool): seq<ReassignedField>
    decreases klass
  {
    (match klass.superKlass
     case None => []
     case Some(s) => ReassignedFieldsOf(s, isJvmci))
    + DeclaredReassigned(klass.fields, isJvmci)
  }

  /** Every field of the class chain, the root class's first. */
  function ChainFields(klass: InstanceKlassInfo): seq<FieldInfo>
    decreases klass
  {
    (match klass.superKlass
     case None => []
     case Some(s) => ChainFields(s))
    + klass.fields
  }

  lemma {:induction false} DeclaredReassignedAppend(a: seq<FieldInfo>, b: seq<FieldInfo>, isJvmci: bool)
    ensures DeclaredReassigned(a + b, isJvmci) == DeclaredReassigned(a, isJvmci) + DeclaredReassigned(b, isJvmci)
    decreases |b|
  {
    if |b| == 0 {
      assert a + b == a;
    } else {
      var b' := b[..|b| - 1];
      assert (a + b)[..|a + b| - 1] == a + b';
      assert (a + b)[|a + b| - 1] == b[|b| - 1];
      DeclaredReassignedAppend(a, b', isJvmci);
    }
  }

  lemma DeclaredReassignedStep(fs: seq<FieldInfo>, i: nat, isJvmci: bool)
    requires i < |fs|
    ensures DeclaredReassigned(fs[..i + 1], isJvmci)
            == DeclaredReassigned(fs[..i], isJvmci) + (if IsReassigned(fs[i], isJvmci) then [AsReassigned(fs[i])] else [])
  {
    assert fs[..i + 1][..i] == fs[..i];
  }

  /** A field is reassigned exactly when some field of `fs` passes the filter
      and is stored there. */
  lemma {:induction false} DeclaredReassignedMembers(fs: seq<FieldInfo>, isJvmci: bool, r: ReassignedField)
    ensures r in DeclaredReassigned(fs, isJvmci) <==> exists f :: f in fs && IsReassigned(f, isJvmci) && AsReassigned(f) == r
  {
    if |fs| > 0 {
      var fs' := fs[..|fs| - 1];
      DeclaredReassignedMembers(fs', isJvmci, r);
      assert fs == fs' + [fs[|fs| - 1]];
      if exists f :: f in fs && IsReassigned(f, isJvmci) && AsReassigned(f) == r {
        var f :| f in fs && IsReassigned(f, isJvmci) && AsReassigned(f) == r;
        if f != fs[|fs| - 1] {
          assert f in fs';
        }
      }
    }
  }

  /** The recursive construction is the filter over the whole class chain. */
  lemma {:induction false} ReassignedFieldsAreChainFilter(klass: InstanceKlassInfo, isJvmci: bool)
    ensures ReassignedFieldsOf(klass, isJvmci) == DeclaredReassigned(ChainFields(klass), isJvmci)
    decreases klass
  {
    match klass.superKlass
    case None =>
      assert ChainFields(klass) == klass.fields;
    case Some(s) =>
      ReassignedFieldsAreChainFilter(s, isJvmci);
      DeclaredReassignedAppend(ChainFields(s), klass.fields, isJvmci);
  }

  /** The superclass's reassigned fields are a prefix of the subclass's. */
  lemma SuperclassFieldsFirst(klass: InstanceKlassInfo, isJvmci: bool)
    requires klass.superKlass.Some?
    ensures var sup := ReassignedFieldsOf(klass.superKlass.value, isJvmci);
            ReassignedFieldsOf(klass, isJvmci)[..|sup|] == sup
  {
  }

  /** A field is reassigned iff it is a non-static field of the chain, and
      injected fields count only for JVMCI. */
  lemma ReassignedFieldsMembers(klass: InstanceKlassInfo, isJvmci: bool, r: ReassignedField)
    ensures r in ReassignedFieldsOf(klass, isJvmci) <==>
            exists f :: f in ChainFields(klass) && !f.isStatic && (isJvmci || !f.isInjected) && AsReassigned(f) == r
  {
    ReassignedFieldsAreChainFilter(klass, isJvmci);
    DeclaredReassignedMembers(ChainFields(klass), isJvmci, r);
  }

  /** get_reassigned_fields: appends the reassigned fields of `klass`, those
      of its superclasses first, to `fields`. */
  method GetReassignedFields(klass: InstanceKlassInfo, fields: seq<ReassignedField>, isJvmci: bool)
    returns (r: seq<ReassignedField>)
    ensures r == fields + ReassignedFieldsOf(klass, isJvmci)
    decreases klass
  {
    r := fields;
    if klass.superKlass.Some? {
      r := GetReassignedFields(klass.superKlass.value, r, isJvmci);
    }
    ghost var inherited := r;
    var i := 0;
    while i < |klass.fields|
      invariant 0 <= i <= |klass.fields|
      invariant r == inherited + DeclaredReassigned(klass.fields[..i], isJvmci)
    {
      var f := klass.fields[i];
      DeclaredReassignedStep(klass.fields, i, isJvmci);
      if !f.isStatic && (isJvmci || !f.isInjected) {
        r := r + [ReassignedField(f.offset, f.signature)];
      }
      i := i + 1;
    }
    assert klass.fields[..i] == klass.fields;
  }

  // ---------------------------------------------------------------------------
  // Reallocation of eliminated objects

  /** The class of an eliminated object. */
  datatype KlassKind =
    | InstanceKlass(ik: InstanceKlassInfo, isVector: bool)
    | TypeArrayKlass(elementType: BasicType)
    | ObjArrayKlass

  /** ObjectValue: the debug description of an eliminated object. An auto box
      records its box type and the raw stack word of its value; a vector the
      shape of its payload. `value` is the reallocated object. */
  datatype ObjectValue = ObjectValue(
    klass: KlassKind,
    isAutoBox: bool,
    boxType: BasicType,
    rawBoxValue: i64,
    payloadInVectorRegister: bool,
    cached: bool,
    value: Option<Oop>)

  /** The thread's pending exception. */
  datatype PendingException = NoException | Pending(exception: Oop) | ReallocOutOfMemory

  /** One iteration of realloc_objects: a JVMCI auto box that a cache holds
      is taken from the cache and marked cached; a cache initialisation error
      fails without allocating; every other object gets the outcome of its
      allocation, `allocation`. The result is the updated descriptor and
      whether this object failed. */
  function ReallocOne(sv: ObjectValue, allocation: Option<Oop>, jvmciCompiled: bool, cs: BoxCaches): (r: (ObjectValue, bool))
    requires ValidBoxCaches(cs)
    ensures r.0 == sv.(value := r.0.value, cached := r.0.cached)
    ensures r.1 <==> r.0.value.None?
    ensures r.0.cached != sv.cached ==> r.0.cached && r.0.value.Some?
    ensures r.0.cached != sv.cached ==> sv.klass.InstanceKlass? && jvmciCompiled && sv.isAutoBox
  {
    match sv.klass
    case InstanceKlass(_, _) =>
      var (box, cacheInitError) :=
        if jvmciCompiled && sv.isAutoBox then GetCachedBox(sv.boxType, sv.rawBoxValue, cs) else (None, false);
      var obj := if box.None? && !cacheInitError then allocation else box;
      (sv.(value := obj, cached := sv.cached || box.Some?), obj.None?)
    case _ =>
      (sv.(value := allocation), allocation.None?)
  }

  /** Only a JVMCI auto box can bypass allocation, and a failed cache
      initialisation always fails the object. */
  lemma ReallocOneOutcomes(sv: ObjectValue, allocation: Option<Oop>, jvmciCompiled: bool, cs: BoxCaches)
    requires ValidBoxCaches(cs)
    ensures var r := ReallocOne(sv, allocation, jvmciCompiled, cs);
            (!(jvmciCompiled && sv.isAutoBox && sv.klass.InstanceKlass?) ==> r.0.value == allocation && r.0.cached == sv.cached)
            && (sv.klass.InstanceKlass? && jvmciCompiled && sv.isAutoBox && GetCachedBox(sv.boxType, sv.rawBoxValue, cs).1 ==> r.1)
            && (sv.klass.InstanceKlass? && jvmciCompiled && sv.isAutoBox && GetCachedBox(sv.boxType, sv.rawBoxValue, cs).0.Some? ==>
                  r.0.value == GetCachedBox(sv.boxType, sv.rawBoxValue, cs).0 && r.0.cached)
  {
  }

  /** Deoptimization::realloc_objects: every descriptor gets its object (or
      nullptr), failures accumulate over the whole list, and the OOM is
      raised only afterwards; without failures the saved pending exception is
      restored. `allocation[i]` is the outcome of allocating object `i`. */
  method ReallocObjects(objects: array<ObjectValue>, allocation: seq<Option<Oop>>, jvmciCompiled: bool,
                        cs: BoxCaches, pending: Option<Oop>)
    returns (failures: bool, pendingAfter: PendingException)
    requires ValidBoxCaches(cs)
    requires |allocation| == objects.Length
    requires forall i :: 0 <= i < objects.Length ==> objects[i].value.None?
    modifies objects
    ensures forall i :: 0 <= i < objects.Length ==>
              objects[i] == ReallocOne(old(objects[i]), allocation[i], jvmciCompiled, cs).0
    ensures failures <==> exists i :: 0 <= i < objects.Length && objects[i].value.None?
    ensures pendingAfter == if failures then ReallocOutOfMemory
                            else if pending.Some? then Pending(pending.value) else NoException
  {
    failures := false;
    var i := 0;
    while i < objects.Length
      invariant 0 <= i <= objects.Length
      invariant forall j :: 0 <= j < i ==> objects[j] == ReallocOne(old(objects[j]), allocation[j], jvmciCompiled, cs).0
      invariant forall j :: i <= j < objects.Length ==> objects[j] == old(objects[j])
      invariant failures <==> exists j :: 0 <= j < i && objects[j].value.None?
    {
      var r := ReallocOne(objects[i], allocation[i], jvmciCompiled, cs);
      if r.1 {
        failures := true;
      }
      objects[i] := r.0;
      i := i + 1;
    }
    if failures {
      pendingAfter := ReallocOutOfMemory;
    } else if pending.Some? {
      pendingAfter := Pending(pending.value);
    } else {
      pendingAfter := NoException;
    }
  }

  // ---------------------------------------------------------------------------
  // Reassignment of fields

  /** What reassign_fields stores into object `index`. */
  datatype Reassignment =
    | InstanceFields(index: nat, fields: seq<ReassignedField>)
    | TypeArrayElements(index: nat, elementType: BasicType)
    | ObjArrayElements(index: nat)

  /** The objects reassign_fields leaves alone: those that were not
      reallocated, boxes taken from a cache, and vectors whose payload
      allocate_vector already restored. */
  predicate SkipsReassignment(sv: ObjectValue, enableVectorSupport: bool)
  {
    sv.value.None?
    || (sv.isAutoBox && sv.cached)
    || (enableVectorSupport && sv.klass.InstanceKlass? && sv.klass.isVector && sv.payloadInVectorRegister)
  }

  /** The stores for an object that is reassigned, by the kind of its class. */
  function ReassignmentOf(index: nat, sv: ObjectValue, isJvmci: bool): (r: Reassignment)
    ensures r.index == index
    ensures r.InstanceFields? <==> sv.klass.InstanceKlass?
    ensures r.InstanceFields? ==> r.fields == ReassignedFieldsOf(sv.klass.ik, isJvmci)
    ensures r.TypeArrayElements? <==> sv.klass.TypeArrayKlass?
    ensures r.TypeArrayElements? ==> r.elementType == sv.klass.elementType
  {
    match sv.klass
    case InstanceKlass(ik, _) => InstanceFields(index, ReassignedFieldsOf(ik, isJvmci))
    case TypeArrayKlass(t) => TypeArrayElements(index, t)
    case ObjArrayKlass => ObjArrayElements(index)
  }

  /** The indices of the objects among the first `n` that are reassigned, in
      list order. */
  function UnskippedIndices(objects: seq<ObjectValue>, enableVectorSupport: bool, n: nat): seq<nat>
    requires n <= |objects|
  {
    if n == 0 then []
    else UnskippedIndices(objects, enableVectorSupport, n - 1)
         + (if SkipsReassignment(objects[n - 1], enableVectorSupport) then [] else [n - 1])
  }

  /** The objects a list of stores is about, in order. */
  function IndicesOf(done: seq<Reassignment>): seq<nat>
  {
    if |done| == 0 then [] else IndicesOf(done[..|done| - 1]) + [done[|done| - 1].index]
  }

  lemma IndicesOfLength(done: seq<Reassignment>)
    ensures |IndicesOf(done)| == |done|
    ensures forall j :: 0 <= j < |done| ==> IndicesOf(done)[j] == done[j].index
  {
    if |done| > 0 {
      IndicesOfLength(done[..|done| - 1]);
    }
  }

  /** Deoptimization::reassign_fields: the stores it makes, in order. The
      objects reassigned are exactly those not skipped, in list order, each
      by the kind of its class. */
  method ReassignFields(objects: seq<ObjectValue>, reallocFailures: bool, isJvmci: bool, enableVectorSupport: bool)
    returns (done: seq<Reassignment>)
    requires forall i :: 0 <= i < |objects| ==> objects[i].value.Some? || reallocFailures
    ensures forall j :: 0 <= j < |done| ==>
              done[j].index < |objects| && done[j] == ReassignmentOf(done[j].index, objects[done[j].index], isJvmci)
    ensures IndicesOf(done) == UnskippedIndices(objects, enableVectorSupport, |objects|)
  {
    done := [];
    var i := 0;
    while i < |objects|
      invariant 0 <= i <= |objects|
      invariant forall j :: 0 <= j < |done| ==>
                  done[j].index < i && done[j] == ReassignmentOf(done[j].index, objects[done[j].index], isJvmci)
      invariant IndicesOf(done) == UnskippedIndices(objects, enableVectorSupport, i)
    {
      var sv := objects[i];
      if sv.value.None? {
      } else if sv.isAutoBox && sv.cached {
      } else if enableVectorSupport && sv.klass.InstanceKlass? && sv.klass.isVector && sv.payloadInVectorRegister {
      } else {
        var r: Reassignment;
        match sv.klass {
          case InstanceKlass(ik, _) =>
            var fields := GetReassignedFields(ik, [], isJvmci);
            r := InstanceFields(i, fields);
          case TypeArrayKlass(t) =>
            r := TypeArrayElements(i, t);
          case ObjArrayKlass =>
            r := ObjArrayElements(i);
        }
        assert (done + [r])[..|done|] == done;
        done := done + [r];
      }
      i := i + 1;
    }
  }

  /** An object is reassigned iff it is not skipped. */
  lemma {:induction false} UnskippedIndicesMembers(objects: seq<ObjectValue>, enableVectorSupport: bool, n: nat, i: int)
    requires n <= |objects|
    ensures i in UnskippedIndices(objects, enableVectorSupport, n) <==>
            0 <= i < n && !SkipsReassignment(objects[i], enableVectorSupport)
  {
    if n > 0 {
      UnskippedIndicesMembers(objects, enableVectorSupport, n - 1, i);
    }
  }

  predicate Increasing(s: seq<nat>)
  {
    forall j, k :: 0 <= j < k < |s| ==> s[j] < s[k]
  }

  /** Objects are reassigned in list order, each at most once. */
  lemma {:induction false} UnskippedIndicesIncrease(objects: seq<ObjectValue>, enableVectorSupport: bool, n: nat)
    requires n <= |objects|
    ensures Increasing(UnskippedIndices(objects, enableVectorSupport, n))
  {
    if n > 0 {
      UnskippedIndicesIncrease(objects, enableVectorSupport, n - 1);
      var s' := UnskippedIndices(objects, enableVectorSupport, n - 1);
      forall j | 0 <= j < |s'|
        ensures s'[j] < n - 1
      {
        UnskippedIndicesMembers(objects, enableVectorSupport, n - 1, s'[j]);
      }
      var s := UnskippedIndices(objects, enableVectorSupport, n);
      assert s == s' + (if SkipsReassignment(objects[n - 1], enableVectorSupport) then [] else [n - 1]);
      forall j, k | 0 <= j < k < |s|
        ensures s[j] < s[k]
      {
        if k < |s'| {
          assert s[j] == s'[j] && s[k] == s'[k];
          assert s'[j] < s'[k];
        } else {
          assert s[j] == s'[j] && s[k] == n - 1;
        }
      }
    }
  }

  /** When no object is skipped, every object is reassigned, in order. */
  lemma {:induction false} NothingSkippedReassignsAll(objects: seq<ObjectValue>, enableVectorSupport: bool, n: nat)
    requires n <= |objects|
    requires forall i :: 0 <= i < |objects| ==> !SkipsReassignment(objects[i], enableVectorSupport)
    ensures UnskippedIndices(objects, enableVectorSupport, n) == seq(n, i => i)
  {
    if n > 0 {
      NothingSkippedReassignsAll(objects, enableVectorSupport, n - 1);
      assert !SkipsReassignment(objects[n - 1], enableVectorSupport);
      assert seq(n, i => i) == seq(n - 1, i => i) + [n - 1];
    }
  }

  // ---------------------------------------------------------------------------
  // Byte-array entries that span several bytes

  /** The entry at `i` spans `n` bytes: the `n - 1` entries after it are
      markers, and the one after those is not a marker or is past the end. */
  predicate IsEntrySpan(isMarker: seq<bool>, i: nat, n: int)
  {
    n >= 1
    && (forall k :: i < k < i + n ==> k < |isMarker| && isMarker[k])
    && (i + n >= |isMarker| || !isMarker[i + n])
    && (n == 1 || i + n <= |isMarker|)
  }

  /** count_number_of_bytes_for_entry: the number of bytes the entry at `i`
      of a virtual byte array spans; `isMarker[k]` says whether field `k` is a
      marker. */
  method CountNumberOfBytesForEntry(isMarker: seq<bool>, i: nat) returns (n: int)
    ensures IsEntrySpan(isMarker, i, n)
  {
    var index := i + 1;
    while index < |isMarker| && isMarker[index]
      invariant i + 1 <= index
      invariant index <= |isMarker| || index == i + 1
      invariant forall k :: i < k < index ==> k < |isMarker| && isMarker[k]
      decreases |isMarker| - index
    {
      index := index + 1;
    }
    n := index - i;
  }
}
