# go-amino indirection and canonical-default layer, in Dafny

This project models `reflect.go` of the go-amino codec. go-amino is a deterministic binary and JSON codec whose encoders and decoders walk a Go value with reflection. The file holds the small rules those walkers use at every field and every pointer or interface boundary:

- **Buffer advance.** `slide` drops consumed bytes from the input slice and adds them to a byte counter.
- **Pointer resolution on encode.** `maybeDerefValue` strips one pointer level and reports a nil pointer.
- **Allocation on decode.** `maybeDerefAndConstruct` allocates a zero pointee behind a nil pointer and refuses a pointer to a pointer.
- **Omission tests.** `isNonstructDefaultValue` and `isNil` decide whether a value is default or nil.
- **Canonical default.** `defaultValue` returns Go's zero value. The exception is `time.Time` and any pointer chain to it: these default to a fully allocated, non-nil chain ending at the 1970 instant.
- **Interface decoding.** `constructConcreteType` and `constructConcreteTypeNilPreferred` build the concrete value stored in an interface field. Whether that value is a pointer depends on the type's `PointerPreferred` flag.
- **Representation hook.** `toReprObject` calls a type's `MarshalAmino` hook.
- **Safety gate.** `checkUnsafe` refuses float-typed fields unless they are whitelisted.

The model has two modules:

- `Reflection` (`reflection.dfy`) is a closed stand-in for Go's `reflect` package. It defines:
  - kinds, and types including `time.Time` and pointer types;
  - values, and `Zero` for Go's zero value of each type;
  - a heap of typed cells, which `Heap.New` (`reflect.New`) allocates and `Heap.Set` (`Value.Set`) writes;
  - `Handle`, the model of a `reflect.Value`. A handle is the invalid Value, a value held directly, or the addressable variable in a heap cell.
- `Amino` (`amino.dfy`) holds one member per function of `reflect.go`, plus the lemmas that relate them.

A Go panic becomes a `Panic(reason)` result, so every contract states when the call panics as well as what it returns. The one exception is `Slide`: its panic is the precondition that its callers must meet (see below). Operations that allocate or write memory are methods. The heap operations work over the `Heap` class. `Slide` writes through the two variables its pointers denote, `BytesVar` for `*[]byte` and `IntVar` for `*int`. The case splits that change nothing are functions.

The canonical default is specified by the function `CanonicalDefault`. It gives a `View` of a value with every pointer level followed. `DefaultValue` is proved to build exactly that view. The lemmas about `CanonicalDefault` prove three things. A pointer chain to `time.Time` defaults to a nil-free chain ending at the 1970 instant. Every other type defaults to Go's zero value. A canonical default is reported as default exactly when its kind is supported and it is not such a time chain.

Two places where the code is followed rather than its description:

- The doc comment of `maybeDerefValue` says it reports "a nil pointer at any level" and returns "the final non-pointer value". The code strips one level only. `MaybeDerefValue` follows the code, and `NilBelowFirstLevelNotReported` shows the gap.
- The doc comment at reflect.go:94 says the result is true exactly when the value is zero. In the code, float, complex, uintptr and array kinds fall into the `default` branch, so even their zero values are never default. `IsNonstructDefaultValue` and `ZeroIsDefault` follow the code.

## Model

| member | source | states |
|---|---|---|
| `Amino.GetTypeFromPointer` | reflect.go:25-31 | Returns the element type exactly when the argument's dynamic type is a pointer, and `PtrTo` of the result is that type. The nil interface panics, and so does any non-pointer type. |
| `Amino.CheckUnsafe` | reflect.go:33-45 | An unsafe-whitelisted field always passes. Any other field fails exactly when its type kind or its repr type kind is Float32 or Float64. The type is checked first. No other kind fails. |
| `Amino.UnsafeFlagWhitelistsFloats` | reflect.go:33-39 | A float-typed field passes with the unsafe flag set and panics without it. |
| `Amino.Slide` | reflect.go:47-60 | Within the documented bound, `*bz` becomes the old slice without its first `k` bytes and `*n` grows by exactly `k` (with Go `int` wrap-around). A nil `bz` or nil `n` is left alone, and the result is always true. |
| `Amino.WrapIntAbsorbs` | reflect.go:57-59 | Adding to a counter that has already wrapped gives the same Go `int` as adding to the exact sum, for all integers. So no sequence of `*n += k` updates depends on where the wrap-around happened. |
| `Amino.SlideTwice` | reflect.go:49-60 | Two real `slide` calls of `k1` and then `k2` bytes leave the slice without its first `k1 + k2` bytes and the counter at the wrapped sum of `k1 + k2`, exactly as one slide of `k1 + k2` would. This holds with no bound on the counter. |
| `Amino.MaybeDerefValue` | reflect.go:62-77 | `rvIsPtr` holds iff the kind is Ptr. `rvIsNilPtr` holds iff the value is a nil pointer, and then `drv` is the invalid Value. A non-nil pointer yields exactly its pointee, one level, with the element type. A non-pointer comes back unchanged with both flags false. |
| `Amino.NilBelowFirstLevelNotReported` | reflect.go:65-77 | A non-nil pointer to a nil pointer has `rvIsNilPtr` false and yields the inner nil pointer. Only the first level is checked. |
| `Amino.MaybeDerefAndConstruct` | reflect.go:79-92 | A nil settable pointer gets exactly one fresh zero pointee, stored in it. A non-nil pointer returns its existing pointee without allocating. A non-pointer is returned unchanged. A pointer to a pointer panics, and so does a Set on an unaddressable nil pointer. A successful result is never a pointer, and the pointer afterwards dereferences to it. |
| `Amino.DerefAndConstructTwice` | reflect.go:80-92 | Two calls on the same nil pointer return the same instance and allocate only once. |
| `Amino.IsNonstructDefaultValue` | reflect.go:94-119 | Panics exactly for struct kinds. Otherwise true iff the kind is Ptr, Bool, Int, Uint, String, Chan, Map, Slice, Func or Interface and the value is that type's zero value, or is an empty chan, map or slice. |
| `Amino.ZeroIsDefault` | reflect.go:98-119 | The zero value of a non-struct type is default exactly when its kind is supported. Zero floats, complexes, uintptrs and arrays are not default. |
| `Amino.DefaultNeedNotBeNil` | reflect.go:102-109 | A zero bool, integer or string is default but not nil. |
| `Amino.EmptySliceIsDefaultNotNil` | reflect.go:110-111 | An empty non-nil slice is default but not nil. |
| `Amino.IsNil` | reflect.go:160-169 | True iff the kind is Interface, Chan, Func, Map, Ptr or Slice and the value is that type's nil zero value. It is false for every other kind, zero scalars included. |
| `Amino.NilIsDefault` | reflect.go:162-169 | Every value `isNil` accepts is default. |
| `Amino.CanonicalDefaultOfTime` | reflect.go:121-145 | For `time.Time` behind any number of pointers, the canonical default has exactly one non-nil pointer level per pointer in the type, and its innermost value is the 1970 instant. |
| `Amino.CanonicalDefaultVersusZero` | reflect.go:121-158 | The canonical default differs from Go's zero value exactly when the type is a pointer chain to `time.Time`. |
| `Amino.CanonicalDefaultIsDefault` | reflect.go:124-158 | A non-struct value at its type's canonical default is default iff its kind is supported and it is not a pointer chain to `time.Time`. |
| `Amino.FollowTimeChain` | reflect.go:133-144 | Cells that link each pointer level to the next, with the last holding 1970, denote the canonical time chain, and the type's pointer depth is the chain's length. |
| `Amino.LinkLevel` | reflect.go:136-141 | One loop step allocates the zero pointee, stores the new pointer in the current level and moves to the pointee. Nothing else changes. |
| `Amino.ConstructTimeChain` | reflect.go:132-145 | Allocates one cell per pointer level plus the innermost `time.Time`. The result, of the requested type, denotes the canonical time chain. Existing cells are untouched. |
| `Amino.DefaultValue` | reflect.go:121-158 | The result has the requested type and denotes `CanonicalDefault`. A time chain allocates `depth + 1` fresh cells. Every other type allocates nothing and returns its Go zero value. Existing cells are never changed. |
| `Amino.ConstructConcreteType` | reflect.go:171-185 | Allocates exactly one zero instance. With `PointerPreferred`, `irvSet` is a pointer that dereferences to that same instance. Otherwise `irvSet` is the instance itself. |
| `Amino.DecodeIntoPointerPreferred` | reflect.go:174-185 | For a pointer-preferred type, a value written through `crv` is what dereferencing `irvSet` yields. |
| `Amino.ConstructConcreteTypeNilPreferred` | reflect.go:187-197 | With `PointerPreferred`, returns a nil pointer of `PtrToType` and allocates nothing. Otherwise allocates one zero instance of the type and returns it. |
| `Amino.HookReceiver` | reflect.go:200-205 | An addressable value is replaced by its address, which dereferences back to it. Any other value is used as it is. |
| `Amino.ToReprObject` | reflect.go:199-216 | Fails exactly when the hook reports an error, and passes that error on. Otherwise returns the hook's repr value. |

## Left out

- The lookup of `MarshalAmino` by name through reflection is not modelled. `ToReprObject` receives the hook as a function argument, because the hook is user code with nothing to inspect.
- The package-level `reflect.TypeOf` constants (reflect.go:12-16) are not modelled. They are type handles with no logic.
- `isNonstructDefaultValue` and `isNil` take a type and a value, not a `reflect.Value`. So the invalid Value, whose kind falls into the `default` branch and gives false, is not one of their inputs.
- Integer widths: all signed widths are one kind and all unsigned widths another, because the code treats the widths alike. `uintptr`, complex and array kinds are kept, since they reach the `default` branch.
- Float and complex values carry an opaque bit pattern. No floating-point arithmetic is modelled, because only their kinds are read.
- `timeType` and `zeroTime` are defined outside reflect.go. They are modelled as the constants `TimeType`, a type of its own, and `ZeroTime`, the Unix epoch instant.
- Memory is a sequence of typed cells. Values held directly are copies, and unreachable cells are never reclaimed.
- The type-info builder, the concrete-type registry, the binary and JSON walkers, and the process-wide descriptor cache (with its locking) are outside this file.
- Amino.Slide: the "impossible slide" panic is modelled as the precondition that reflect.go:47 documents for callers, not as a result. A nil `bz` is never bounds-checked, as in the code.
- Amino.Slide: Go's `int` is taken as 64 bits wide (`MinInt` and `MaxInt`). On a 32-bit platform the counter would wrap at 2^32 instead.
- A `Handle` denotes a value held directly or a whole heap cell. It cannot denote an addressable struct field or slice element, such as `rv.Field(i)` or `rv.Index(i)`, which the walkers pass to `maybeDerefAndConstruct` and `toReprObject`. Writing to such a location as a cell of its own would not show in the parent `StructV`.
- Every `Ref` handle is treated as settable. Go's `Value.Set` also panics on an addressable value reached through an unexported struct field, which this model does not distinguish.
