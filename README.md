# Deep copy of Fortran runtime arrays

This project models the deep copy that the Fortran runtime performs on arrays
described by descriptors (flang/runtime/copy.cpp), and proves properties of it
in Dafny.

- `CopyArray` checks that both descriptors describe the same number of
  elements. It then starts a subscript vector at each side's lower bounds,
  copies element after element, and steps both vectors in lock-step.
- `CopyElement` checks that the element sizes agree and copies the element
  bytewise. When the destination's derived type needs more than a bytewise
  copy, it also checks that the source has the same derived type and walks
  that type's component table:
  - an allocated allocatable or automatic component gets its base address
    reset, fresh storage, and a recursive copy of the source component's
    elements;
  - a data component (scalar or array) of a derived type that needs deep
    copying gets extents computed from its bounds (none for a scalar), a
    descriptor of that type established over both sides' inline storage,
    and a recursive copy;
  - every other component keeps what the bytewise copy gave it.

Files:

- `wrappers.dfy` holds `Option`.
- `type_info.dfy` holds the type descriptions the copy consults: component
  genres, bounds, and the evaluation of a bound.
- `descriptor.dfy` holds descriptors and the `Descriptor` API the copy calls:
  `Elements`, `GetLowerBounds`, `IncrementSubscripts`, `Element`,
  `Establish` and `Allocate`.
- `copy.dfy` holds the copy itself, with its specification and lemmas.

How the runtime's behaviour is represented:

- **Memory.** An element is a value: its bytes plus one slot per structured
  component. A slot is either a descriptor stored in the element, or the
  inline elements of a derived-type array component. Heap storage is a Dafny
  `array<Element>`, so `Allocate` returns a fresh object.
- **Storage passed as a value.** The copy methods receive the destination
  storage as a sequence and return it as it is after the copy.
- **Crashes.** A failed `RUNTIME_CHECK` is the `Crash` outcome, carrying the
  check that failed. `ElementCheck` and `ArrayCheck` say which check fails,
  if any.
- **Column-major order.** The subscript order of `IncrementSubscripts` is
  column-major, and element addressing is contiguous column-major storage.
- **Deep copy relation.** The ghost predicate `Copied` says what a deep copy
  is. The ghost predicate `Conforms` says what well-formed source data is.
  `Conforms` ties each slot to the component table and requires every
  allocated block to lie in the footprint `fp`.
- **Ghost arguments.** The ghost argument `depth` bounds how deeply storage
  nests; it makes the recursion between the two copy routines terminate.
  The ghost results `owner` (of `CopyElement`) and `owners` (of `CopyArray`)
  record which fresh heap block each allocated component of the copy got,
  nested as the copy nests. `Separate` and `AllSeparate` say that no two of
  those blocks are the same.

## Model

| member | source | states |
|---|---|---|
| Copy.CopyArray | flang/runtime/copy.cpp:74-86 | Crashes with `ElementCountMismatch`, before any element call, exactly when the element counts differ. Otherwise crashes on the first element call exactly when `CopyElement`'s checks fail. Otherwise makes `Elements(to)` element calls whose subscripts are the lock-step `Trace`. On success, every destination element below the count is a deep copy of the source element at the same position, and later storage is untouched. The blocks the copies own are fresh, and no two elements share a block. |
| Copy.CopyNext | flang/runtime/copy.cpp:81-84 | One turn of the element loop. It fails exactly when `CopyElement`'s checks fail. Otherwise it extends the copied prefix by the element at the walk's current position, with new blocks that are fresh, and leaves the later elements alone. Both subscript vectors take one step of their walk. |
| Copy.ArrayCheck | flang/runtime/copy.cpp:76-77 | The copy fails with `ElementCountMismatch` exactly when the element counts differ. Two empty arrays never fail. Otherwise the outcome is that of the element checks. |
| Copy.ElementCheck | flang/runtime/copy.cpp:24-31 | `ElementBytesMismatch` exactly when the element sizes differ. `DerivedTypeMismatch` exactly when the sizes agree, the destination has a derived type that needs deep copying, and the source has no addendum or names another type. No other failure. |
| Copy.DeepType | flang/runtime/copy.cpp:27-29 | A derived type is found exactly when the addendum exists, names a derived type, and that type needs destruction. The type found is the one the addendum names. |
| Descriptors.EmptyShape | flang/runtime/copy.cpp:76 | An array has no elements exactly when one of its extents is 0. |
| Descriptors.GetLowerBounds | flang/runtime/copy.cpp:79-80 | One subscript per dimension, each that dimension's lower bound. |
| Descriptors.IncrementStaysInBounds | flang/runtime/copy.cpp:83-84 | Stepping in-bounds subscripts yields in-bounds subscripts. |
| Copy.TraceInLockStep | flang/runtime/copy.cpp:78-85 | Call `k` of the copy loop passes both sides' subscripts after `k` increments from the lower bounds. These subscripts are in bounds and address element `k` on each side, whatever the two shapes are. |
| Descriptors.LowerBoundsFirst | flang/runtime/copy.cpp:79-80 | For a non-empty array the lower bounds are in bounds and address element 0. |
| Descriptors.IncrementAdvances | flang/runtime/copy.cpp:83-84 | Stepping the subscripts of any element but the last yields in-bounds subscripts of the next element in column-major order. |
| Descriptors.IncrementWraps | flang/runtime/copy.cpp:83-84 | Stepping from the last element sets every subscript back to its lower bound. |
| Descriptors.WalkAddresses | flang/runtime/copy.cpp:79-84 | After `k` steps from the lower bounds, for `k` below the element count, the subscripts are in bounds and address element `k`. |
| Descriptors.WalkReturns | flang/runtime/copy.cpp:81-84 | After one step per element the subscript vector is back at the lower bounds. |
| Descriptors.ElementOffset | flang/runtime/copy.cpp:22-23 | In-bounds subscripts address a position below the element count, namely their column-major linear index. |
| Descriptors.LinearInRange | flang/runtime/copy.cpp:22-23 | The column-major index of in-bounds subscripts lies between 0 and the element count. |
| Copy.CopyElement | flang/runtime/copy.cpp:19-72 | Crashes with `ElementBytesMismatch` exactly when the element sizes differ. Otherwise crashes with `DerivedTypeMismatch` exactly when the destination's derived type needs deep copying and the source lacks an addendum or has another type. Otherwise only the addressed destination element changes, and it becomes a deep copy of the addressed source element. The blocks it owns are fresh, and no two of them are the same. |
| Copy.CopyComponent | flang/runtime/copy.cpp:36-68 | One step of the component loop. An allocated allocatable or automatic component is deep-copied into fresh storage. A deep derived-type data component has its inline elements deep-copied. Any other component, including one whose base address is null and any pointer, is left as the bytewise copy made it. |
| Copy.CopyAllocatedComponent | flang/runtime/copy.cpp:37-47 | The new descriptor differs from the source's only in its base address. That address is a fresh block of exactly the source's element count. Each element of the block is a deep copy of the source block's element. |
| Descriptors.Allocate | flang/runtime/copy.cpp:42-43 | Gives the descriptor a fresh heap block sized for its element count and changes nothing else. |
| Copy.CopyOwnsItsStorage | flang/runtime/copy.cpp:37-47 | A deep copy of well-formed data is well-formed, with every allocated block among the blocks the copy owns. Since those are fresh, the copy shares no allocatable storage with the source or anything older. |
| Copy.ComponentsGetSeparateBlocks | flang/runtime/copy.cpp:37-47 | Two different allocated components of one copied element point at different heap blocks. |
| Copy.CopyDataComponent | flang/runtime/copy.cpp:48-67 | The component's inline elements become deep copies of the source's inline elements, below the element count of the descriptor established from the component's extents. Elements past that count are untouched. |
| Copy.ComputeExtents | flang/runtime/copy.cpp:51-57 | Returns one extent per dimension of the component. Each extent is the number of subscripts between the evaluated lower and upper bound, which is 0 when the upper bound is below the lower one. |
| Copy.ExtentCountsSubscripts | flang/runtime/copy.cpp:56 | `ub >= lb ? ub - lb + 1 : 0` is the number of integers from `lb` to `ub`. |
| Copy.SubscriptsBetween | flang/runtime/copy.cpp:56 | The subscripts of `lb..ub` are exactly the integers `i` with `lb <= i <= ub`. |
| Copy.BoundValue | flang/runtime/copy.cpp:54-55 | A bound that evaluates gives its value; one that cannot be evaluated gives 0. |
| TypeInfo.GetValue | flang/runtime/copy.cpp:54-55 | A constant bound is always known. A length-parameter bound is known exactly when the addendum holds that parameter, and then it is that parameter's value. Anything else is unknown. |
| Descriptors.Establish | flang/runtime/copy.cpp:58-66 | The established descriptor has the given extents, lower bounds 1 and element count equal to the product of the extents. It takes its element size from the type and has an addendum naming the type. |

## Left out

- The rest of the repository is a TypeScript Parquet viewer for an editor: src/parquet_content_provider.ts and its test harnesses. It only spawns an external tool and forwards its output, so it has no logic to model. The model follows flang/runtime/copy.cpp.
- Byte offsets, `reinterpret_cast` of descriptors stored inside elements, and `std::memcpy` at the machine level are replaced by element values with typed slots. The bytewise copy is the copy of the whole element value.
- Byte strides and non-contiguous descriptors are left out: element addressing is contiguous column-major storage.
- The fixed `maxRank` buffers for subscripts and extents are sequences of the descriptor's rank. `StaticDescriptor` sizing is not modelled.
- Descriptors.Allocate: never fails. The `RUNTIME_CHECK` that `Allocate()` returns `CFI_SUCCESS` (line 43) is not modelled, and out-of-memory is not a `Crash` outcome.
- Copy.CopyElement and Copy.CopyArray: the destination storage is passed in and returned as a sequence value instead of being written in place. The copy reads the source element before writing the destination element, so a destination that overlaps the source storage is not modelled.
- Copy.CopyArray: a crash yields only the failed check; what the destination holds when the program stops is not stated.
- Copy.CopyElement and Copy.CopyArray require the source data to be well-formed (`Conforms`): each component slot matches its genre, and allocated storage lies in a finite footprint of nesting depth `depth`. The runtime relies on this implicitly.
- TypeInfo.GetValue: the evaluation of bounds and the internals of `Descriptor` and the `typeInfo` tables (type-info.cpp, descriptor.cpp) are not part of this model. `GetValue`, column-major `IncrementSubscripts` and `Establish` are given the behaviour their callers rely on.
- Copy.Extent and Copy.ComputeExtents: `SubscriptValue` is a 64-bit signed integer, so `ub - lb + 1` can overflow (line 56). Integers here are unbounded, and that overflow is not modelled.
- Descriptors.Elements: the element count is a product of extents held in a `std::size_t`, and the loop counter `elements` is one as well (lines 76-81). Integers here are unbounded, and wrap-around of either is not modelled.
- Derived-type description identity is compared by a numeric identity instead of by address.
- The `RT_API_ATTRS` and `RT_OFFLOAD_API_GROUP_*` device-offload annotations carry no behaviour and are not modelled.
