/** The indirection and canonical-default layer of go-amino (reflect.go):
    pointer resolution on encode, allocation on decode, the "is this field
    default" test, the canonical default of a type (the 1970 instant for
    time.Time and pointers to it), concrete-type construction for interface
    decoding, and the floating-point safety gate.

    A Go panic is a `Panic(reason)` result; the panics that reflect itself
    raises (a Set on an unaddressable value) are results too. */
module Amino {
  import opened Reflection

  /** Why a call panics. */
  datatype PanicReason =
    | NilInterface          // reflect.TypeOf(nil) has no type to ask the kind of
    | ExpectedPointer       // getTypeFromPointer on a non-pointer
    | UnsafeFloat           // checkUnsafe: the field's type is a float
    | UnsafeFloatRepr       // checkUnsafe: the field's repr type is a float
    | StructNotSupported    // isNonstructDefaultValue on a struct
    | UnaddressableSet      // reflect.Value.Set on a value that is not settable
    | PointerPointer        // maybeDerefAndConstruct reached a pointer to a pointer

  datatype Result<+T> = Ok(value: T) | Panic(reason: PanicReason)

  /** The part of go-amino's TypeInfo read here. `reprType` is the type of
      ReprType, which is the type itself when no MarshalAmino hook exists. */
  datatype TypeInfo = TypeInfo(typ: Type, pointerPreferred: bool, reprType: Type)
  {
    function PtrToType(): Type { PtrTo(typ) }
  }

  /** The part of go-amino's FieldInfo read here. */
  datatype FieldInfo = FieldInfo(name: string, typeInfo: TypeInfo, unsafe: bool)

  //----------------------------------------
  // Misc.

  /** getTypeFromPointer. `ptrType` is reflect.TypeOf(ptr): the dynamic type
      of the interface argument, `None` for the nil interface. */
  function GetTypeFromPointer(ptrType: Option<Type>): (r: Result<Type>)
    ensures r.Ok? <==> ptrType.Some? && KindOf(ptrType.value) == Ptr
    ensures r.Ok? ==> ptrType == Some(PtrTo(r.value))
    ensures r == Panic(NilInterface) <==> ptrType.None?
    ensures r.Panic? ==> r.reason in {NilInterface, ExpectedPointer}
  {
    match ptrType
    case None => Panic(NilInterface)
    case Some(rt) => if KindOf(rt) != Ptr then Panic(ExpectedPointer) else Ok(rt.elem)
  }

  predicate IsFloatKind(k: Kind)
  {
    k == Float32 || k == Float64
  }

  /** checkUnsafe: a field whose type, or whose repr type, is a float is
      refused unless the field is whitelisted as unsafe. */
  function CheckUnsafe(field: FieldInfo): (r: Result<()>)
    ensures field.unsafe ==> r == Ok(())
    ensures !field.unsafe ==>
      (r.Ok? <==> !IsFloatKind(KindOf(field.typeInfo.typ)) && !IsFloatKind(KindOf(field.typeInfo.reprType)))
    ensures r == Panic(UnsafeFloat) <==> !field.unsafe && IsFloatKind(KindOf(field.typeInfo.typ))
    ensures r.Panic? ==> r.reason in {UnsafeFloat, UnsafeFloatRepr}
  {
    if field.unsafe then Ok(())
    else if KindOf(field.typeInfo.typ) in {Float32, Float64} then Panic(UnsafeFloat)
    else if KindOf(field.typeInfo.reprType) in {Float32, Float64} then Panic(UnsafeFloatRepr)
    else Ok(())
  }

  /** The unsafe flag is exactly the whitelist: setting it always passes,
      and a float-typed field without it never does. */
  lemma UnsafeFlagWhitelistsFloats(field: FieldInfo)
    requires IsFloatKind(KindOf(field.typeInfo.typ))
    ensures CheckUnsafe(field.(unsafe := true)) == Ok(())
    ensures CheckUnsafe(field.(unsafe := false)) == Panic(UnsafeFloat)
  {
  }

  //----------------------------------------
  // Slide

  newtype byte = b: int | 0 <= b < 256

  const MinInt: int := -0x8000_0000_0000_0000
  const MaxInt: int := 0x7fff_ffff_ffff_ffff

  /** The number of distinct values of Go's `int`. */
  const IntRange: int := 0x1_0000_0000_0000_0000

  /** Go's `int`, taken as 64 bits wide. */
  predicate IsGoInt(x: int)
  {
    MinInt <= x <= MaxInt
  }

  /** Two's-complement wrap-around of a mathematical integer into Go's `int`. */
  function WrapInt(x: int): (r: int)
    ensures IsGoInt(r)
    ensures (r - x) % IntRange == 0
    ensures IsGoInt(x) ==> r == x
  {
    (x - MinInt) % IntRange + MinInt
  }

  /** Wrapping an intermediate sum changes nothing: adding `k` to a wrapped
      counter wraps to the same `int` as adding it to the exact sum. */
  lemma WrapIntAbsorbs(x: int, k: int)
    ensures WrapInt(WrapInt(x) + k) == WrapInt(x + k)
  {
  }

  /** A `*[]byte` target: the slice variable being consumed. */
  class BytesVar {
    var bytes: seq<byte>

    constructor (bytes: seq<byte>)
      ensures this.bytes == bytes
    {
      this.bytes := bytes;
    }
  }

  /** An `*int` target: the running count of consumed bytes. */
  class IntVar {
    var value: int

    constructor (value: int)
      requires IsGoInt(value)
      ensures this.value == value
    {
      this.value := value;
    }
  }

  /** slide: drop the first `k` bytes of `*bz` and add `k` to `*n`; either
      pointer may be nil. Its documented contract is that `k` is within the
      slice; it panics otherwise. */
  method Slide(bz: BytesVar?, n: IntVar?, k: int) returns (ok: bool)
    requires bz != null ==> 0 <= k <= |bz.bytes|
    requires IsGoInt(k) && (n != null ==> IsGoInt(n.value))
    modifies bz, n
    ensures ok
    ensures bz != null ==> bz.bytes == old(bz.bytes)[k..]
    ensures n != null ==> n.value == WrapInt(old(n.value) + k)
  {
    if bz != null {
      bz.bytes := bz.bytes[k..];
    }
    if n != null {
      n.value := WrapInt(n.value + k);
    }
    return true;
  }

  /** Two slides compose into one: consuming `k1` and then `k2` bytes
      leaves the slice and the counter (wrap-around included) as consuming
      `k1 + k2` at once would. */
  method SlideTwice(bz: BytesVar?, n: IntVar?, k1: int, k2: int)
    requires bz != null ==> 0 <= k1 && 0 <= k2 && k1 + k2 <= |bz.bytes|
    requires IsGoInt(k1) && IsGoInt(k2) && (n != null ==> IsGoInt(n.value))
    modifies bz, n
    ensures bz != null ==> bz.bytes == old(bz.bytes)[k1 + k2..]
    ensures n != null ==> n.value == WrapInt(old(n.value) + (k1 + k2))
  {
    var _ := Slide(bz, n, k1);
    var _ := Slide(bz, n, k2);
    if n != null {
      WrapIntAbsorbs(old(n.value) + k1, k2);
    }
  }

  //----------------------------------------
  // Default and nil tests

  /** The kinds isNonstructDefaultValue can answer "true" for. */
  const DefaultableKinds: set<Kind> := {Ptr, Bool, Int, Uint, String, Chan, Map, Slice, Func, Interface}

  /** The kinds isNil asks reflect's IsNil about. */
  const NilableKinds: set<Kind> := {Interface, Chan, Func, Map, Ptr, Slice}

  /** isNonstructDefaultValue: a value is default when it is the zero value
      of a supported kind, or an empty chan, map or slice. Float, complex,
      array and uintptr values are never default; a struct panics. */
  function IsNonstructDefaultValue(t: Type, v: Value): (r: Result<bool>)
    requires Conforms(t, v)
    ensures r.Panic? <==> KindOf(t) == Struct
    ensures r.Panic? ==> r.reason == StructNotSupported
    ensures r.Ok? ==>
      (r.value <==> KindOf(t) in DefaultableKinds
                    && (v == Zero(t) || (KindOf(t) in {Chan, Map, Slice} && Len(v) == 0)))
  {
    match KindOf(t)
    case Ptr => Ok(IsNilRef(v))
    case Bool => Ok(v.b == false)
    case Int => Ok(v.i == 0)
    case Uint => Ok(v.u == 0)
    case String => Ok(Len(v) == 0)
    case Chan | Map | Slice => Ok(IsNilRef(v) || Len(v) == 0)
    case Func | Interface => Ok(IsNilRef(v))
    case Struct => Panic(StructNotSupported)
    case _ => Ok(false)
  }

  /** isNil: true exactly for the nil value of a nilable kind; a zero
      scalar is never nil. */
  function IsNil(t: Type, v: Value): (r: bool)
    requires Conforms(t, v)
    ensures r <==> KindOf(t) in NilableKinds && v == Zero(t)
  {
    match KindOf(t)
    case Interface | Chan | Func | Map | Ptr | Slice => IsNilRef(v)
    case _ => false
  }

  /** The zero value of every non-struct type is default exactly when its
      kind is supported: a zero float, complex, uintptr or array is not. */
  lemma ZeroIsDefault(t: Type)
    requires KindOf(t) != Struct
    ensures IsNonstructDefaultValue(t, Zero(t)) == Ok(KindOf(t) in DefaultableKinds)
  {
  }

  /** Every nil value is default, but a default value need not be nil: an
      empty string, a false bool, a zero integer or an empty non-nil slice. */
  lemma NilIsDefault(t: Type, v: Value)
    requires Conforms(t, v) && IsNil(t, v)
    ensures IsNonstructDefaultValue(t, v) == Ok(true)
  {
  }

  lemma DefaultNeedNotBeNil(t: Type)
    requires KindOf(t) in {Bool, Int, Uint, String}
    ensures IsNonstructDefaultValue(t, Zero(t)) == Ok(true)
    ensures !IsNil(t, Zero(t))
  {
  }

  lemma EmptySliceIsDefaultNotNil(e: Type)
    ensures IsNonstructDefaultValue(SliceOf(e), SliceV(Some([]))) == Ok(true)
    ensures !IsNil(SliceOf(e), SliceV(Some([])))
  {
  }

  //----------------------------------------
  // Pointer resolution on encode

  datatype Deref = Deref(drv: Handle, rvIsPtr: bool, rvIsNilPtr: bool)

  /** maybeDerefValue: strip one pointer level. A nil pointer reports
      rvIsNilPtr and yields the invalid Value; a non-pointer is returned as
      it is. The pointee may itself be a pointer: one level only. */
  function MaybeDerefValue(cells: seq<Cell>, rv: Handle): (r: Deref)
    requires WellFormed(cells) && HandleIn(cells, rv)
    ensures HandleIn(cells, r.drv)
    ensures r.rvIsPtr <==> HandleKind(cells, rv) == Ptr
    ensures !r.rvIsPtr ==> r == Deref(rv, false, false)
    ensures r.rvIsNilPtr <==> r.rvIsPtr && IsNil(TypeOf(cells, rv), ValueOf(cells, rv))
    ensures r.rvIsNilPtr ==> r.drv == InvalidValue
    ensures r.rvIsPtr && !r.rvIsNilPtr ==>
      && r.drv.Ref?
      && ValueOf(cells, rv).target == Some(r.drv.addr)
      && TypeOf(cells, r.drv) == TypeOf(cells, rv).elem
  {
    if HandleKind(cells, rv) == Ptr then
      if IsNilRef(ValueOf(cells, rv)) then Deref(InvalidValue, true, true)
      else Deref(Elem(cells, rv), true, false)
    else Deref(rv, false, false)
  }

  /** A nil pointer one level down is not reported: a non-nil pointer to a
      nil pointer has rvIsNilPtr false and yields that nil pointer. */
  lemma NilBelowFirstLevelNotReported(cells: seq<Cell>, rv: Handle)
    requires WellFormed(cells) && HandleIn(cells, rv) && HandleKind(cells, rv) == Ptr
    requires !IsNilRef(ValueOf(cells, rv))
    requires cells[ValueOf(cells, rv).target.value].val == PtrV(None)
    ensures !MaybeDerefValue(cells, rv).rvIsNilPtr
    ensures HandleKind(cells, MaybeDerefValue(cells, rv).drv) == Ptr
    ensures IsNilRef(ValueOf(cells, MaybeDerefValue(cells, rv).drv))
  {
  }

  //----------------------------------------
  // Allocation on decode

  /** maybeDerefAndConstruct: for a pointer, allocate a zero pointee when it
      is nil and store it, then step to the pointee; a pointer to a pointer
      panics. */
  method MaybeDerefAndConstruct(heap: Heap, rv0: Handle) returns (r: Result<Handle>)
    requires heap.Valid() && HandleIn(heap.cells, rv0)
    modifies heap
    ensures heap.Valid() && HandleIn(heap.cells, rv0)
    ensures r.Ok? ==> HandleIn(heap.cells, r.value) && HandleKind(heap.cells, r.value) != Ptr
    // not a pointer: returned as it is
    ensures HandleKind(old(heap.cells), rv0) != Ptr ==> heap.cells == old(heap.cells) && r == Ok(rv0)
    // a non-nil pointer: its pointee, with nothing allocated
    ensures HandleKind(old(heap.cells), rv0) == Ptr && !IsNilRef(ValueOf(old(heap.cells), rv0)) ==>
      var a := ValueOf(old(heap.cells), rv0).target.value;
      && heap.cells == old(heap.cells)
      && r == if KindOf(old(heap.cells)[a].typ) == Ptr then Panic(PointerPointer) else Ok(Ref(a))
    // a nil pointer: exactly one fresh zero pointee, stored through rv0
    ensures HandleKind(old(heap.cells), rv0) == Ptr && IsNilRef(ValueOf(old(heap.cells), rv0)) ==>
      var t := TypeOf(old(heap.cells), rv0).elem;
      var a := |old(heap.cells)|;
      if rv0.Ref? then
        && heap.cells == old(heap.cells)[rv0.addr := Cell(PtrTo(t), PtrV(Some(a)))] + [Cell(t, Zero(t))]
        && r == if KindOf(t) == Ptr then Panic(PointerPointer) else Ok(Ref(a))
      else
        heap.cells == old(heap.cells) + [Cell(t, Zero(t))] && r == Panic(UnaddressableSet)
    // afterwards the pointer dereferences to the result
    ensures r.Ok? && HandleKind(old(heap.cells), rv0) == Ptr ==>
      MaybeDerefValue(heap.cells, rv0) == Deref(r.value, true, false)
  {
    var rv := rv0;
    if HandleKind(heap.cells, rv) == Ptr {
      if IsNilRef(ValueOf(heap.cells, rv)) {
        var newPtr := heap.New(TypeOf(heap.cells, rv).elem);
        if !rv.Ref? {
          return Panic(UnaddressableSet);
        }
        heap.Set(rv, newPtr);
      }
      rv := Elem(heap.cells, rv);
    }
    if HandleKind(heap.cells, rv) == Ptr {
      return Panic(PointerPointer);
    }
    return Ok(rv);
  }

  /** Decoding into the same pointer twice: the second call finds the
      pointee the first one allocated, and allocates nothing. */
  method DerefAndConstructTwice(heap: Heap, a: Addr) returns (r1: Result<Handle>, r2: Result<Handle>)
    requires heap.Valid() && a < |heap.cells| && heap.cells[a].val == PtrV(None)
    requires heap.cells[a].typ.PtrTo? && KindOf(heap.cells[a].typ.elem) != Ptr
    modifies heap
    ensures r1 == r2 == Ok(Ref(|old(heap.cells)|))
    ensures |heap.cells| == |old(heap.cells)| + 1
  {
    r1 := MaybeDerefAndConstruct(heap, Ref(a));
    ghost var between := heap.cells;
    r2 := MaybeDerefAndConstruct(heap, Ref(a));
    assert heap.cells == between;
  }

  //----------------------------------------
  // Canonical default

  /** go-amino's zeroTime: the Unix epoch, January 1 1970 UTC. */
  const ZeroTime := Instant(0, 0)

  /** `t` with every pointer level stripped. */
  function Base(t: Type): Type
  {
    if t.PtrTo? then Base(t.elem) else t
  }

  /** The number of pointer levels above Base(t). */
  function PtrDepth(t: Type): nat
  {
    if t.PtrTo? then 1 + PtrDepth(t.elem) else 0
  }

  /** A value with every pointer level followed. */
  datatype View = NilPtr | PtrToView(pointee: View) | Plain(v: Value)

  /** What the value `v` of type `t` denotes in `cells`, pointer chain
      included. */
  function Follow(cells: seq<Cell>, t: Type, v: Value): View
    decreases t
  {
    if t.PtrTo? && v.PtrV? then
      match v.target
      case None => NilPtr
      case Some(a) => if a < |cells| then PtrToView(Follow(cells, t.elem, cells[a].val)) else Plain(v)
    else Plain(v)
  }

  /** `depth` non-nil pointer levels above the 1970 instant. */
  function TimeChain(depth: nat): View
  {
    if depth == 0 then Plain(TimeV(ZeroTime)) else PtrToView(TimeChain(depth - 1))
  }

  /** The canonical default of a type: for time.Time and any pointer chain to
      it, a chain of non-nil pointers to the 1970 instant; for every other
      type, Go's zero value (so a pointer is nil). */
  function CanonicalDefault(t: Type): View
  {
    if Base(t) == TimeType then TimeChain(PtrDepth(t))
    else if t.PtrTo? then NilPtr
    else Plain(Zero(t))
  }

  function NonNilLevels(w: View): nat
  {
    if w.PtrToView? then 1 + NonNilLevels(w.pointee) else 0
  }

  function Innermost(w: View): View
  {
    if w.PtrToView? then Innermost(w.pointee) else w
  }

  lemma {:induction false} TimeChainShape(depth: nat)
    ensures NonNilLevels(TimeChain(depth)) == depth
    ensures Innermost(TimeChain(depth)) == Plain(TimeV(ZeroTime))
  {
    if depth > 0 {
      TimeChainShape(depth - 1);
    }
  }

  /** For time.Time behind any number of pointers, every pointer level of
      the canonical default is non-nil and the innermost value is 1970. */
  lemma {:induction false} CanonicalDefaultOfTime(t: Type)
    requires Base(t) == TimeType
    ensures NonNilLevels(CanonicalDefault(t)) == PtrDepth(t)
    ensures Innermost(CanonicalDefault(t)) == Plain(TimeV(ZeroTime))
  {
    TimeChainShape(PtrDepth(t));
  }

  /** The canonical default of a time chain is never Go's zero value: not a
      nil pointer and not the zero instant. For every other type it is. */
  lemma CanonicalDefaultVersusZero(cells: seq<Cell>, t: Type)
    ensures Base(t) == TimeType <==> CanonicalDefault(t) != Follow(cells, t, Zero(t))
  {
  }

  /** Omission against the canonical default: a field holding the canonical
      default of its non-struct type is default, unless the type is a
      pointer chain to time.Time or of an unsupported kind. */
  lemma CanonicalDefaultIsDefault(cells: seq<Cell>, t: Type, v: Value)
    requires KindOf(t) != Struct && Conforms(t, v)
    requires Follow(cells, t, v) == CanonicalDefault(t)
    ensures IsNonstructDefaultValue(t, v) == Ok(KindOf(t) in DefaultableKinds && Base(t) != TimeType)
  {
  }

  /** Cells s, s+1, … hold the pointer levels `types`, each pointing at the
      next cell, up to the last level. */
  predicate Linked(cells: seq<Cell>, s: nat, types: seq<Type>)
  {
    && 1 <= |types| && s + |types| <= |cells|
    && (forall j | 0 <= j < |types| - 1 :: types[j].PtrTo? && types[j + 1] == types[j].elem)
    && (forall j | 0 <= j < |types| - 1 :: cells[s + j] == Cell(types[j], PtrV(Some(s + j + 1))))
  }

  /** One LinkLevel step extends the chain by one level and touches no cell
      below it. */
  lemma LinkedStep(cells: seq<Cell>, cells': seq<Cell>, s: nat, types: seq<Type>)
    requires Linked(cells, s, types) && |cells| == s + |types| && types[|types| - 1].PtrTo?
    requires var t := types[|types| - 1];
      cells' == cells[|cells| - 1 := Cell(t, PtrV(Some(|cells|)))] + [Cell(t.elem, Zero(t.elem))]
    ensures Linked(cells', s, types + [types[|types| - 1].elem])
    ensures cells'[..s] == cells[..s]
  {
  }

  /** A linked chain whose last cell holds 1970 is the canonical time chain. */
  lemma {:induction false} FollowTimeChain(cells: seq<Cell>, s: nat, types: seq<Type>, i: nat)
    requires Linked(cells, s, types) && i < |types|
    requires types[|types| - 1] == TimeType
    requires cells[s + |types| - 1] == Cell(TimeType, TimeV(ZeroTime))
    ensures PtrDepth(types[i]) == |types| - 1 - i
    ensures Follow(cells, types[i], cells[s + i].val) == TimeChain(|types| - 1 - i)
    decreases |types| - i
  {
    if i < |types| - 1 {
      FollowTimeChain(cells, s, types, i + 1);
    }
  }

  /** One step of the chain: allocate the pointee of `refType`, store the
      new pointer in `refValue`, and step to the pointee. */
  method LinkLevel(heap: Heap, refValue: Handle, refType: Type) returns (next: Handle)
    requires heap.Valid() && refValue.Ref? && refValue.addr < |heap.cells|
    requires refType.PtrTo? && heap.cells[refValue.addr].typ == refType
    modifies heap
    ensures heap.Valid()
    ensures next == Ref(|old(heap.cells)|)
    ensures heap.cells == old(heap.cells)[refValue.addr := Cell(refType, PtrV(Some(|old(heap.cells)|)))]
                          + [Cell(refType.elem, Zero(refType.elem))]
  {
    var newPtr := heap.New(refType.elem);
    heap.Set(refValue, newPtr);
    next := Elem(heap.cells, refValue);
  }

  /** The pointer branch of defaultValue for a chain to time.Time: starting
      from the top, allocate each pointer level, store it in the level above,
      and set the innermost time.Time to 1970. */
  method ConstructTimeChain(heap: Heap, rt: Type) returns (rv: Handle)
    requires heap.Valid() && Base(rt) == TimeType
    modifies heap
    ensures heap.Valid()
    ensures HandleIn(heap.cells, rv) && rv == Ref(|old(heap.cells)|) && TypeOf(heap.cells, rv) == rt
    ensures Follow(heap.cells, rt, ValueOf(heap.cells, rv)) == TimeChain(PtrDepth(rt))
    ensures |heap.cells| == |old(heap.cells)| + PtrDepth(rt) + 1
    ensures heap.cells[..|old(heap.cells)|] == old(heap.cells)
  {
    var s := |heap.cells|;
    var p := heap.New(rt);
    rv := Elem(heap.cells, p);
    var refType, refValue := rt, rv;
    ghost var types := [rt];
    while KindOf(refType) == Ptr
      invariant heap.Valid() && Linked(heap.cells, s, types) && |heap.cells| == s + |types|
      invariant heap.cells[..s] == old(heap.cells)
      invariant types[0] == rt && types[|types| - 1] == refType && Base(refType) == TimeType
      invariant heap.cells[s + |types| - 1] == Cell(refType, Zero(refType))
      invariant refValue == Ref(s + |types| - 1) && rv == Ref(s)
      decreases refType
    {
      ghost var before := heap.cells;
      refValue := LinkLevel(heap, refValue, refType);
      LinkedStep(before, heap.cells, s, types);
      refType := refType.elem;
      types := types + [refType];
    }
    // Set to 1970.
    heap.Set(refValue, Val(TimeType, TimeV(ZeroTime)));
    FollowTimeChain(heap.cells, s, types, 0);
  }

  /** defaultValue: Go's zero value of `rt`, except that time.Time and any
      pointer chain to it get a freshly allocated chain of non-nil pointers
      ending at the 1970 instant. */
  method DefaultValue(heap: Heap, rt: Type) returns (rv: Handle)
    requires heap.Valid()
    modifies heap
    ensures heap.Valid()
    ensures HandleIn(heap.cells, rv) && !rv.InvalidValue? && TypeOf(heap.cells, rv) == rt
    ensures Follow(heap.cells, rt, ValueOf(heap.cells, rv)) == CanonicalDefault(rt)
    ensures |old(heap.cells)| <= |heap.cells| && heap.cells[..|old(heap.cells)|] == old(heap.cells)
    ensures Base(rt) == TimeType ==>
      |heap.cells| == |old(heap.cells)| + PtrDepth(rt) + 1 && rv == Ref(|old(heap.cells)|)
    ensures Base(rt) != TimeType ==> heap.cells == old(heap.cells) && rv == Val(rt, Zero(rt))
  {
    if KindOf(rt) == Ptr {
      // Dereference all the way and see if it is time.Time.
      var refType := rt.elem;
      while KindOf(refType) == Ptr
        invariant Base(refType) == Base(rt)
        decreases refType
      {
        refType := refType.elem;
      }
      if refType == TimeType {
        rv := ConstructTimeChain(heap, rt);
        return;
      }
    } else if KindOf(rt) == Struct {
      if rt == TimeType {
        var p := heap.New(rt);
        rv := Elem(heap.cells, p);
        heap.Set(rv, Val(TimeType, TimeV(ZeroTime)));
        return;
      }
    }
    // Go's zero value of rt.
    rv := Val(rt, Zero(rt));
  }

  //----------------------------------------
  // Concrete construction for interface decoding

  /** constructConcreteType: a fresh zero instance of cinfo's type, and the
      value to store in the interface: for a pointer-preferred type a pointer
      to that very instance, otherwise the instance itself. */
  method ConstructConcreteType(heap: Heap, cinfo: TypeInfo) returns (crv: Handle, irvSet: Handle)
    requires heap.Valid()
    modifies heap
    ensures heap.Valid()
    ensures heap.cells == old(heap.cells) + [Cell(cinfo.typ, Zero(cinfo.typ))]
    ensures crv == Ref(|old(heap.cells)|)
    ensures HandleIn(heap.cells, irvSet)
    ensures cinfo.pointerPreferred ==>
      && irvSet == Val(cinfo.PtrToType(), PtrV(Some(crv.addr)))
      && MaybeDerefValue(heap.cells, irvSet) == Deref(crv, true, false)
    ensures !cinfo.pointerPreferred ==> irvSet == crv
  {
    if cinfo.pointerPreferred {
      var cPtrRv := heap.New(cinfo.typ);
      crv := Elem(heap.cells, cPtrRv);
      irvSet := cPtrRv;
    } else {
      var p := heap.New(cinfo.typ);
      crv := Elem(heap.cells, p);
      irvSet := crv;
    }
  }

  /** For a pointer-preferred type, what the decoder writes into the
      concrete instance is what the interface's pointer points to. */
  method DecodeIntoPointerPreferred(heap: Heap, cinfo: TypeInfo, decoded: Value) returns (irvSet: Handle)
    requires heap.Valid() && cinfo.pointerPreferred && ValueIn(heap.cells, cinfo.typ, decoded)
    modifies heap
    ensures heap.Valid() && HandleIn(heap.cells, irvSet)
    ensures HandleKind(heap.cells, irvSet) == Ptr
    ensures var d := MaybeDerefValue(heap.cells, irvSet);
      !d.rvIsNilPtr && ValueOf(heap.cells, d.drv) == decoded
  {
    var crv;
    crv, irvSet := ConstructConcreteType(heap, cinfo);
    heap.Set(crv, Val(cinfo.typ, decoded));
  }

  /** constructConcreteTypeNilPreferred: like constructConcreteType, but a
      pointer-preferred type gets a nil pointer and nothing is allocated. */
  method ConstructConcreteTypeNilPreferred(heap: Heap, cinfo: TypeInfo) returns (crv: Handle)
    requires heap.Valid()
    modifies heap
    ensures heap.Valid() && HandleIn(heap.cells, crv) && !crv.InvalidValue?
    ensures cinfo.pointerPreferred ==>
      && heap.cells == old(heap.cells)
      && TypeOf(heap.cells, crv) == cinfo.PtrToType()
      && IsNil(TypeOf(heap.cells, crv), ValueOf(heap.cells, crv))
    ensures !cinfo.pointerPreferred ==>
      && heap.cells == old(heap.cells) + [Cell(cinfo.typ, Zero(cinfo.typ))]
      && crv == Ref(|old(heap.cells)|)
  {
    if cinfo.pointerPreferred {
      crv := Val(cinfo.PtrToType(), Zero(cinfo.PtrToType()));
    } else {
      var p := heap.New(cinfo.typ);
      crv := Elem(heap.cells, p);
    }
  }

  //----------------------------------------
  // Representation hook

  /** What a MarshalAmino hook returns: the repr value and an error. */
  datatype HookOutput = HookOutput(repr: Handle, err: Option<string>)

  datatype ReprResult = Repr(rrv: Handle) | HookFailed(err: string)

  /** The receiver MarshalAmino is called on: rv's address when rv is
      addressable, rv itself otherwise. */
  function HookReceiver(cells: seq<Cell>, rv: Handle): (recv: Handle)
    requires WellFormed(cells) && HandleIn(cells, rv)
    ensures HandleIn(cells, recv)
    ensures rv.Ref? ==> HandleKind(cells, recv) == Ptr && MaybeDerefValue(cells, recv) == Deref(rv, true, false)
    ensures !rv.Ref? ==> recv == rv
  {
    if rv.Ref? then Val(PtrTo(TypeOf(cells, rv)), PtrV(Some(rv.addr))) else rv
  }

  /** toReprObject: call the type's MarshalAmino hook on the receiver and
      pass on its error, if any, or its repr value. */
  function ToReprObject(cells: seq<Cell>, rv: Handle, marshalAmino: Handle -> HookOutput): (r: ReprResult)
    requires WellFormed(cells) && HandleIn(cells, rv)
    ensures var out := marshalAmino(HookReceiver(cells, rv));
      && (r.HookFailed? <==> out.err.Some?)
      && (r.HookFailed? ==> r.err == out.err.value)
      && (r.Repr? ==> r.rrv == out.repr)
  {
    var out := marshalAmino(HookReceiver(cells, rv));
    if out.err.Some? then HookFailed(out.err.value) else Repr(out.repr)
  }
}
