/** A closed stand-in for the part of Go's `reflect` package that go-amino's
    indirection layer relies on: kinds, types, values, zero values, and a heap
    of addressable cells that `reflect.New` allocates and `Value.Set` writes.

    Every signed integer width (int, int8 … int64) is the one kind `Int` and
    every unsigned width (uint, uint8 … uint64) the one kind `Uint`, because
    every branch of the modelled code treats the widths alike. Floating-point
    and complex values carry an uninterpreted bit pattern: only their kinds
    matter here. */
module Reflection {

  datatype Option<+T> = None | Some(value: T)

  /** reflect.Kind, restricted to the kinds listed above. */
  datatype Kind =
    | Invalid | Bool | Int | Uint | Uintptr | Float32 | Float64 | Complex128
    | Array | Chan | Func | Interface | Map | Ptr | Slice | String | Struct

  /** A static Go type. `TimeType` is time.Time: a struct type, so its kind
      is `Struct`, but a type of its own, distinct from every `StructType`. */
  datatype Type =
    | BoolType | IntType | UintType | UintptrType
    | Float32Type | Float64Type | ComplexType
    | StringType
    | ArrayOf(elem: Type, len: nat)
    | SliceOf(elem: Type)
    | MapOf(key: Type, elem: Type)
    | ChanOf(elem: Type)
    | FuncType
    | InterfaceType
    | StructType(name: string, fields: seq<Type>)
    | TimeType
    | PtrTo(elem: Type)

  function KindOf(t: Type): Kind
  {
    match t
    case BoolType => Bool
    case IntType => Int
    case UintType => Uint
    case UintptrType => Uintptr
    case Float32Type => Float32
    case Float64Type => Float64
    case ComplexType => Complex128
    case StringType => String
    case ArrayOf(_, _) => Array
    case SliceOf(_) => Slice
    case MapOf(_, _) => Map
    case ChanOf(_) => Chan
    case FuncType => Func
    case InterfaceType => Interface
    case StructType(_, _) => Struct
    case TimeType => Struct
    case PtrTo(_) => Ptr
  }

  /** An instant of time.Time: seconds and nanoseconds from the Unix epoch. */
  datatype Instant = Instant(sec: int, nsec: nat)

  /** The zero value of time.Time: January 1 of year 1, UTC. */
  const GoZeroInstant := Instant(-62135596800, 0)

  /** Heap addresses: indices into `Heap.cells`. */
  type Addr = nat

  /** A Go value. A nilable value (slice, map, chan, func, interface, pointer)
      holds `None` when nil. A chan holds the elements queued in its buffer. */
  datatype Value =
    | BoolV(b: bool)
    | IntV(i: int)
    | UintV(u: nat)
    | FloatV(bits: nat)
    | ComplexV(re: nat, im: nat)
    | StringV(s: string)
    | ArrayV(elems: seq<Value>)
    | SliceV(items: Option<seq<Value>>)
    | MapV(entries: Option<seq<(Value, Value)>>)
    | ChanV(queued: Option<seq<Value>>)
    | FuncV(code: Option<nat>)
    | InterfaceV(dynamic: Option<(Type, Value)>)
    | StructV(fields: seq<Value>)
    | TimeV(at: Instant)
    | PtrV(target: Option<Addr>)

  /** `v` has the shape of a value of type `t` (pointer targets are checked
      against a heap by `ValueIn`). */
  predicate Conforms(t: Type, v: Value)
  {
    match t
    case BoolType => v.BoolV?
    case IntType => v.IntV?
    case UintType => v.UintV?
    case UintptrType => v.UintV?
    case Float32Type => v.FloatV?
    case Float64Type => v.FloatV?
    case ComplexType => v.ComplexV?
    case StringType => v.StringV?
    case ArrayOf(_, n) => v.ArrayV? && |v.elems| == n
    case SliceOf(_) => v.SliceV?
    case MapOf(_, _) => v.MapV?
    case ChanOf(_) => v.ChanV?
    case FuncType => v.FuncV?
    case InterfaceType => v.InterfaceV?
    case StructType(_, fs) => v.StructV? && |v.fields| == |fs|
    case TimeType => v.TimeV?
    case PtrTo(_) => v.PtrV?
  }

  /** reflect.Zero(t): Go's zero value of `t`. Every nilable kind is nil. */
  function Zero(t: Type): (r: Value)
    ensures Conforms(t, r)
    ensures KindOf(t) in {Chan, Func, Interface, Map, Ptr, Slice} ==> IsNilRef(r)
  {
    match t
    case BoolType => BoolV(false)
    case IntType => IntV(0)
    case UintType => UintV(0)
    case UintptrType => UintV(0)
    case Float32Type => FloatV(0)
    case Float64Type => FloatV(0)
    case ComplexType => ComplexV(0, 0)
    case StringType => StringV("")
    case ArrayOf(e, n) => ArrayV(seq(n, _ => Zero(e)))
    case SliceOf(_) => SliceV(None)
    case MapOf(_, _) => MapV(None)
    case ChanOf(_) => ChanV(None)
    case FuncType => FuncV(None)
    case InterfaceType => InterfaceV(None)
    case StructType(_, fs) => StructV(seq(|fs|, i requires 0 <= i < |fs| => Zero(fs[i])))
    case TimeType => TimeV(GoZeroInstant)
    case PtrTo(_) => PtrV(None)
  }

  /** Value.IsNil, for the values that have a nil. */
  predicate IsNilRef(v: Value)
  {
    match v
    case SliceV(items) => items.None?
    case MapV(entries) => entries.None?
    case ChanV(queued) => queued.None?
    case FuncV(code) => code.None?
    case InterfaceV(dynamic) => dynamic.None?
    case PtrV(target) => target.None?
    case _ => false
  }

  /** Value.Len for strings, arrays, slices, maps and chans (a nil one has
      length 0); other values report 0. */
  function Len(v: Value): nat
  {
    match v
    case StringV(s) => |s|
    case ArrayV(elems) => |elems|
    case SliceV(items) => if items.Some? then |items.value| else 0
    case MapV(entries) => if entries.Some? then |entries.value| else 0
    case ChanV(queued) => if queued.Some? then |queued.value| else 0
    case _ => 0
  }

  /** One heap cell: an addressable variable of a fixed type. */
  datatype Cell = Cell(typ: Type, val: Value)

  /** `v` is a value of type `t` whose pointer, if any, targets a cell of the
      pointee type. */
  predicate ValueIn(cells: seq<Cell>, t: Type, v: Value)
  {
    && Conforms(t, v)
    && (t.PtrTo? && v.target.Some? ==>
          v.target.value < |cells| && cells[v.target.value].typ == t.elem)
  }

  predicate WellFormed(cells: seq<Cell>)
  {
    forall a | 0 <= a < |cells| :: ValueIn(cells, cells[a].typ, cells[a].val)
  }

  /** A reflect.Value: the invalid zero Value, a value held directly (not
      addressable), or the addressable variable stored in a heap cell. */
  datatype Handle = InvalidValue | Val(typ: Type, val: Value) | Ref(addr: Addr)

  predicate HandleIn(cells: seq<Cell>, h: Handle)
  {
    match h
    case InvalidValue => true
    case Val(t, v) => ValueIn(cells, t, v)
    case Ref(a) => a < |cells|
  }

  function TypeOf(cells: seq<Cell>, h: Handle): Type
    requires HandleIn(cells, h) && !h.InvalidValue?
  {
    if h.Ref? then cells[h.addr].typ else h.typ
  }

  function ValueOf(cells: seq<Cell>, h: Handle): Value
    requires HandleIn(cells, h) && !h.InvalidValue?
  {
    if h.Ref? then cells[h.addr].val else h.val
  }

  /** Value.Kind: `Invalid` for the invalid Value. */
  function HandleKind(cells: seq<Cell>, h: Handle): Kind
    requires HandleIn(cells, h)
  {
    if h.InvalidValue? then Invalid else KindOf(TypeOf(cells, h))
  }

  lemma HandleInValue(cells: seq<Cell>, h: Handle)
    requires WellFormed(cells) && HandleIn(cells, h) && !h.InvalidValue?
    ensures ValueIn(cells, TypeOf(cells, h), ValueOf(cells, h))
  {
  }

  /** Value.Elem on a non-nil pointer: the addressable variable it points to. */
  function Elem(cells: seq<Cell>, h: Handle): (r: Handle)
    requires WellFormed(cells) && HandleIn(cells, h) && HandleKind(cells, h) == Ptr
    requires ValueOf(cells, h).target.Some?
    ensures r.Ref? && HandleIn(cells, r) && TypeOf(cells, r) == TypeOf(cells, h).elem
  {
    HandleInValue(cells, h);
    Ref(ValueOf(cells, h).target.value)
  }

  /** The process memory that reflect.New allocates in and Value.Set writes. */
  class Heap {
    var cells: seq<Cell>

    ghost predicate Valid()
      reads this
    {
      WellFormed(cells)
    }

    constructor ()
      ensures Valid() && cells == []
    {
      cells := [];
    }

    /** reflect.New(t): a pointer to a freshly allocated zero `t`. */
    method New(t: Type) returns (p: Handle)
      requires Valid()
      modifies this
      ensures Valid()
      ensures cells == old(cells) + [Cell(t, Zero(t))]
      ensures p == Val(PtrTo(t), PtrV(Some(|old(cells)|)))
      ensures HandleIn(cells, p)
    {
      var a := |cells|;
      cells := cells + [Cell(t, Zero(t))];
      p := Val(PtrTo(t), PtrV(Some(a)));
      forall b | 0 <= b < |cells|
        ensures ValueIn(cells, cells[b].typ, cells[b].val)
      {
        if b < a {
          assert ValueIn(old(cells), cells[b].typ, cells[b].val);
        }
      }
    }

    /** Value.Set on the settable `h`, with a value `v` of the same type. */
    method Set(h: Handle, v: Handle)
      requires Valid() && h.Ref? && h.addr < |cells|
      requires HandleIn(cells, v) && !v.InvalidValue? && TypeOf(cells, v) == cells[h.addr].typ
      modifies this
      ensures Valid()
      ensures cells == old(cells)[h.addr := Cell(old(cells)[h.addr].typ, ValueOf(old(cells), v))]
    {
      HandleInValue(cells, v);
      var c := Cell(cells[h.addr].typ, ValueOf(cells, v));
      ghost var before := cells;
      cells := cells[h.addr := c];
      forall b | 0 <= b < |cells|
        ensures ValueIn(cells, cells[b].typ, cells[b].val)
      {
        if b != h.addr {
          assert ValueIn(before, cells[b].typ, cells[b].val);
        }
      }
    }
  }
}
