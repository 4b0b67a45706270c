# A verified model of `ArcUnsafeRefCellWrapper` and the VM value formatters

This project models the shared-ownership cell of xlang-py,
`ArcUnsafeRefCellWrapper<T>` in `src/arc_unsafe_refcell.rs`. A handle points
at one heap `Inner<T>`. The `Inner` holds the payload and three counters:

- `ref_count` counts the owners;
- `borrow_count` counts the live read guards (`UnsafeRef`);
- `borrow_mut_count` counts the live tracked write guards (`UnsafeRefMut` with `drop_mut = true`).

The heap is a `map` from non-null addresses to `Inner` records, and freeing
an allocation removes its address. Every operation is a pure transition on
that heap:

- construct, `clone`, drop;
- `borrow`, `borrow_mut`, `borrow_mut_unsafe`, and the guard drops;
- `clone_ref`, `drop_ref`;
- `get_inner`, `from_inner`;
- `ref_count`, `is_unique`;
- the unsafe `get`/`get_mut`.

An operation either succeeds, returns an `ArcUnsafeRefCellError`, or (for
`from_inner`) panics. The atomic counters become sequential `usize` updates
that wrap around at `usize::MAX`, as `fetch_add` and `fetch_sub` do.

Modules:

- `Usize`: 64-bit counters with wrapping increment and decrement.
- `ArcUnsafeRefCell`: the data model and every operation, each with its success and error behaviour.
- `CellLaws`: laws that relate operations, including:
  - each acquisition undone by its release;
  - the exclusion between guards;
  - the detach/reattach protocol restoring the heap.
- `BorrowTracking`: on every sequential run of `borrow`, `borrow_mut` and guard drops:
  - readers and a tracked writer never coexist;
  - there is at most one tracked writer;
  - the counters equal the number of live guards.
- `Ownership`:
  - N clones plus the original free the `Inner` exactly once, on the last drop;
  - on every run that mixes both ownership protocols, no handle and no detached share is ever left dangling.
- `BytesRepr`, `TupleRepr`, `KeyValRepr`: the string formatting of `VMBytes.__repr__`, `VMTuple.__repr__`/`__str__` and `VMKeyVal.__repr__` in `src/lib.rs`, one module per type. The items' own reprs are input strings.

`Clone for ArcUnsafeRefCellWrapper` increments `ref_count` without looking at
`borrow_mut_count`, while `clone_ref` is refused when a write guard is out.
The model follows the code: `Clone` never fails (`src/arc_unsafe_refcell.rs:271-281`).

## Model

| member | source | states |
|---|---|---|
| Usize.WrappingInc | src/arc_unsafe_refcell.rs:138-140 | `fetch_add(1)` stores the successor, and 0 after `usize::MAX` |
| Usize.WrappingDec | src/arc_unsafe_refcell.rs:70-72 | `fetch_sub(1)` stores the predecessor, and `usize::MAX` after 0 |
| ArcUnsafeRefCell.ErrorMessage | src/arc_unsafe_refcell.rs:43-51 | each error displays as its own variant name |
| ArcUnsafeRefCell.ErrorMessageInjective | src/arc_unsafe_refcell.rs:43-51 | distinct errors display as distinct strings |
| ArcUnsafeRefCell.NewInner | src/arc_unsafe_refcell.rs:16-24 | a new `Inner` holds the payload with one owner and no guards |
| ArcUnsafeRefCell.New | src/arc_unsafe_refcell.rs:120-124 | construction allocates one new address, and only that one, holding the payload with counts 1/0/0; it returns the only handle to it |
| ArcUnsafeRefCell.Borrow | src/arc_unsafe_refcell.rs:126-147 | fails with `BorrowError` exactly when `borrow_mut_count > 0`; otherwise it increments `borrow_count` and returns a guard on the same `Inner`; nothing else changes |
| ArcUnsafeRefCell.BorrowMut | src/arc_unsafe_refcell.rs:180-203 | fails with `BorrowMutError` exactly when `borrow_count > 0` or `borrow_mut_count > 0`; otherwise `borrow_mut_count` becomes 1 and it returns a guard with `drop_mut = true` |
| ArcUnsafeRefCell.BorrowMutUnsafe | src/arc_unsafe_refcell.rs:219-238 | fails exactly when `borrow_mut` would, with the same error; on success no counter moves and the guard has `drop_mut = false` |
| ArcUnsafeRefCell.Deref | src/arc_unsafe_refcell.rs:58-64 | a read guard views the payload of the cell it was taken from, the same value `get` returns |
| ArcUnsafeRefCell.DerefMutRead | src/arc_unsafe_refcell.rs:83-89 | a write guard, tracked or not, views the same payload as a read guard on its `Inner` |
| ArcUnsafeRefCell.DerefMutWrite | src/arc_unsafe_refcell.rs:91-95 | a write through a write guard replaces the payload and moves no counter |
| ArcUnsafeRefCell.DropReadGuard | src/arc_unsafe_refcell.rs:66-75 | dropping a read guard decrements `borrow_count` (wrapping) and nothing else |
| ArcUnsafeRefCell.DropWriteGuard | src/arc_unsafe_refcell.rs:97-108 | dropping a write guard decrements `borrow_mut_count` when `drop_mut` is set, and is a no-op otherwise |
| ArcUnsafeRefCell.CloneRef | src/arc_unsafe_refcell.rs:149-164 | fails with `BorrowError` exactly when `borrow_mut_count > 0`; otherwise it increments `ref_count` and touches nothing else |
| ArcUnsafeRefCell.DropRef | src/arc_unsafe_refcell.rs:166-178 | `drop_ref` fails with `UnableToDrop` exactly when `ref_count <= 1`; otherwise it decrements by exactly one, leaves at least 1 and never frees |
| ArcUnsafeRefCell.Get | src/arc_unsafe_refcell.rs:212-217 | `get` returns the payload, which is the value the last owner's drop releases |
| ArcUnsafeRefCell.GetMutWrite | src/arc_unsafe_refcell.rs:205-210 | a write through `get_mut` replaces the payload and moves no counter |
| ArcUnsafeRefCell.GetInner | src/arc_unsafe_refcell.rs:240-242 | the handle's address is a non-null integer, and no counter moves |
| ArcUnsafeRefCell.FromInner | src/arc_unsafe_refcell.rs:244-256 | panics exactly on a null address (unwrap) or an observed count of 0 ("Invalid reference count"); otherwise it increments `ref_count` and returns a handle to that same `Inner` |
| ArcUnsafeRefCell.RefCount | src/arc_unsafe_refcell.rs:259-263 | the reported count is at most 1 exactly when `drop_ref` is refused, and 0 exactly when reattaching the cell's address panics |
| ArcUnsafeRefCell.IsUnique | src/arc_unsafe_refcell.rs:259-268 | on a live cell, sole ownership holds exactly when `drop_ref` would be refused |
| ArcUnsafeRefCell.Clone | src/arc_unsafe_refcell.rs:271-281 | never fails; it increments `ref_count` and returns a handle to the same `Inner` |
| ArcUnsafeRefCell.Drop | src/arc_unsafe_refcell.rs:283-300 | frees the `Inner` and hands back its payload exactly when the count before the decrement was 1; only that address goes; otherwise the count decrements and nothing else changes |
| CellLaws.NewThenBorrowReadsPayload | src/arc_unsafe_refcell.rs:120-147 | a new cell is unique, and a read guard on it shows the constructed payload |
| CellLaws.BorrowThenDropRestores | src/arc_unsafe_refcell.rs:126-147 | `borrow` followed by dropping its guard gives back the original heap |
| CellLaws.BorrowMutThenDropRestores | src/arc_unsafe_refcell.rs:180-203 | `borrow_mut` followed by dropping its guard gives back the original heap |
| CellLaws.BorrowMutUnsafeThenDropRestores | src/arc_unsafe_refcell.rs:220-238 | neither taking nor dropping the unregistered guard changes the heap |
| CellLaws.WriteGuardExcludesReaders | src/arc_unsafe_refcell.rs:130-164 | while a tracked write guard is out, `borrow`, `clone_ref` and `borrow_mut` are refused; after its drop `borrow` succeeds |
| CellLaws.ReadGuardExcludesWriters | src/arc_unsafe_refcell.rs:184-191 | while a read guard is out, `borrow_mut` and `borrow_mut_unsafe` are refused; after its drop `borrow_mut` succeeds |
| CellLaws.ReadersShare | src/arc_unsafe_refcell.rs:126-147 | with no write guard out, two successive `borrow`s both succeed |
| CellLaws.UnsafeGuardIsInvisible | src/arc_unsafe_refcell.rs:219-238 | while the unregistered write guard is out, `borrow` still succeeds |
| CellLaws.GetBypassesGuards | src/arc_unsafe_refcell.rs:205-217 | `get` reads while `borrow` is refused, and a `get_mut` write is seen through a read guard that is already out |
| CellLaws.GuardCanOutliveHandle | src/arc_unsafe_refcell.rs:53-75 | a read guard holds no share of `ref_count`: dropping the only handle while the guard is out frees the `Inner` the guard still names |
| CellLaws.CloneThenDropRestores | src/arc_unsafe_refcell.rs:271-300 | `clone` adds an owner of the same `Inner`; dropping the clone frees nothing and restores the heap |
| CellLaws.CloneRefThenDropRefRestores | src/arc_unsafe_refcell.rs:149-178 | `clone_ref` succeeds exactly when no write guard is out, and `drop_ref` then restores the heap |
| CellLaws.GetInnerFromInnerRoundTrip | src/arc_unsafe_refcell.rs:240-256 | `from_inner(get_inner())` on a live cell does not panic; it adds one owner, aliases the same payload, and dropping it restores the heap |
| CellLaws.FromInnerStaleAddressPanics | src/arc_unsafe_refcell.rs:244-248 | reattaching an address that is not allocated panics with "Invalid reference count" |
| CellLaws.DetachProtocolRestores | src/arc_unsafe_refcell.rs:149-256 | `clone_ref`, then `from_inner(get_inner())`, a drop of the reattached handle and `drop_ref` together give back the original heap |
| CellLaws.Scenario | src/arc_unsafe_refcell.rs:120-300 | construct 0, clone (2 owners), drop the clone (1 owner), write 42 through `borrow_mut`, and read 42 through `borrow` |
| BorrowTracking.BorrowKeepsInv | src/arc_unsafe_refcell.rs:126-147 | a `borrow` step keeps the counters equal to the live guards and keeps them exclusive |
| BorrowTracking.BorrowMutKeepsInv | src/arc_unsafe_refcell.rs:180-203 | a `borrow_mut` step keeps the counters equal to the live guards and keeps them exclusive |
| BorrowTracking.ReleaseKeepsInv | src/arc_unsafe_refcell.rs:66-108 | dropping a live guard keeps the counters equal to the live guards and keeps them exclusive |
| BorrowTracking.ApplyKeepsInv | src/arc_unsafe_refcell.rs:126-203 | every step of a run keeps the counters equal to the live guards and keeps them exclusive |
| BorrowTracking.RunKeepsInv | src/arc_unsafe_refcell.rs:126-203 | a run of fewer than `usize::MAX` steps keeps that invariant |
| BorrowTracking.ExclusionHoldsOnEveryRun | src/arc_unsafe_refcell.rs:130-191 | from a cell with no guards out, no run of at most `usize::MAX` steps has `borrow_count > 0` and `borrow_mut_count > 0` at once, and `borrow_mut_count <= 1` always holds |
| BorrowTracking.UnsafeGuardBreaksExclusion | src/arc_unsafe_refcell.rs:219-238 | with the unregistered write guard out, a reader is admitted and `borrow_mut_count` stays 0 |
| Ownership.CloneTimes | src/arc_unsafe_refcell.rs:271-281 | n clones add exactly n owners and change nothing else |
| Ownership.DropTimes | src/arc_unsafe_refcell.rs:283-300 | dropping k of the owners frees once if k is the whole count and not at all otherwise, leaving k fewer owners |
| Ownership.CloneDropFreesOnce | src/arc_unsafe_refcell.rs:271-300 | the original plus n clones: at most n drops free nothing; all n+1 drops free exactly once and give back the heap from before construction |
| Ownership.ProtocolStepsSucceed | src/arc_unsafe_refcell.rs:166-256 | under the ownership invariant, reattaching the address of a live handle or of a detached share never panics, and `drop_ref` of a share is never refused |
| Ownership.NewKeepsInv | src/arc_unsafe_refcell.rs:120-124 | construction keeps every count equal to its handles plus its detached shares |
| Ownership.CloneKeepsInv | src/arc_unsafe_refcell.rs:271-281 | `clone` keeps the ownership invariant |
| Ownership.DropKeepsInv | src/arc_unsafe_refcell.rs:283-300 | a handle drop keeps the ownership invariant, including the drop that frees |
| Ownership.CloneRefKeepsInv | src/arc_unsafe_refcell.rs:149-164 | `clone_ref` keeps the ownership invariant by adding a detached share |
| Ownership.ReattachKeepsInv | src/arc_unsafe_refcell.rs:244-256 | `from_inner` on the address of a live handle or of a detached share keeps the ownership invariant, adding one handle |
| Ownership.DropRefKeepsInv | src/arc_unsafe_refcell.rs:166-178 | `drop_ref` releasing a detached share keeps the ownership invariant |
| Ownership.OwnStepKeepsInv | src/arc_unsafe_refcell.rs:149-300 | every protocol step keeps the ownership invariant |
| Ownership.OwnRun | src/arc_unsafe_refcell.rs:120-300 | a protocol run of fewer than `usize::MAX` steps ends in a state that satisfies the ownership invariant |
| Ownership.NoDanglingOnEveryRun | src/arc_unsafe_refcell.rs:120-300 | from an empty heap, no run of at most `usize::MAX` steps leaves a handle or a detached share pointing at a freed `Inner`, and every live `Inner` has an owner |
| Ownership.LiveHandleReattachFreesOnce | src/xlang.rs:464-502 | reattaching a live handle's address without `clone_ref`, then dropping the reattached handle and the original, frees the `Inner` only on the second drop |
| Ownership.FreeOnlyWhenUnowned | src/arc_unsafe_refcell.rs:289-297 | after a drop that frees, no handle and no detached share refers to the freed address |
| Ownership.DropRefWithoutShareDangles | src/arc_unsafe_refcell.rs:166-178 | `drop_ref` without a matching `clone_ref` lets a later drop free the `Inner` while a handle to it is still live |
| BytesRepr.HexValue | src/lib.rs:457-458 | reading back a lower-case hex digit gives its value |
| BytesRepr.HexValueOfDigit | src/lib.rs:457-458 | each two-digit `{:02x}` digit reads back as its value |
| BytesRepr.EscapeByte | src/lib.rs:455-458 | a printable byte (32..126) is its own character; any other byte is `\x` plus two lower-case hex digits that read back as its high and low nibble |
| BytesRepr.Body | src/lib.rs:452-461 | the escaped text has 1 character per printable byte and 4 per other byte |
| BytesRepr.BodyAppend | src/lib.rs:452-461 | the escaped text is the in-order concatenation of the bytes' pieces |
| BytesRepr.Repr | src/lib.rs:448-462 | the repr is the escaped text between `VMBytes(b"` and `")`, and its length is 12 plus 1 per printable byte plus 4 per other byte |
| BytesRepr.UnescapeBody | src/lib.rs:452-461 | a byte string without a backslash reads back from its escaped text |
| BytesRepr.ReprRoundTrip | src/lib.rs:448-462 | a byte string without a backslash can be parsed back from its repr |
| BytesRepr.ReprAmbiguous | src/lib.rs:455-456 | the bytes `[0]` and `\x00` render identically, because the backslash is not escaped |
| BytesRepr.EscapeByteEscaped | src/lib.rs:455-458 | the corrected piece writes a backslash as `\\`, and every other byte as before |
| BytesRepr.BodyEscaped | src/lib.rs:452-461 | the corrected escaped text equals the original on bytes without a backslash |
| BytesRepr.ReprEscaped | src/lib.rs:448-462 | the corrected repr equals the original on bytes without a backslash |
| BytesRepr.UnescapeBodyEscaped | src/lib.rs:452-461 | every byte string reads back from its corrected escaped text |
| BytesRepr.ReprEscapedRoundTrip | src/lib.rs:448-462 | every byte string can be parsed back from its corrected repr |
| BytesRepr.ReprEscapedInjective | src/lib.rs:448-462 | distinct byte strings have distinct corrected reprs |
| TupleRepr.Join | src/lib.rs:1270-1272 | `join(", ")` of no items is empty; otherwise it is as long as the items plus two characters per separator |
| TupleRepr.JoinSnoc | src/lib.rs:1270-1272 | joining one more item appends `", "` and the item |
| TupleRepr.Str | src/lib.rs:1261-1274 | the length of `__str__` is the items, the separators, the parentheses, and a trailing comma exactly for one item |
| TupleRepr.Repr | src/lib.rs:1247-1259 | `__repr__` is the `__str__` rule applied to the item reprs, wrapped in `VMTuple(...)` |
| TupleRepr.StrShape | src/lib.rs:1269-1273 | `__str__` is `()` for no items, `(s,)` for one item, and the items joined by `", "` in parentheses otherwise |
| TupleRepr.SingletonIsMarked | src/lib.rs:1269-1273 | a one-item tuple is told apart from the bare parenthesised item and from the empty tuple |
| KeyValRepr.Repr | src/lib.rs:885-893 | the key and the value sit at fixed positions of the pair repr, between `VMKeyVal(` and `, ` and between `, ` and `)` |
| KeyValRepr.ReprShape | src/lib.rs:893 | the pair repr is the key and value joined by `", "`, inside `VMKeyVal(...)` |
| KeyValRepr.ReprInjective | src/lib.rs:885-893 | with keys of equal length, the pair repr determines both key and value |
| KeyValRepr.Example | src_py/test_xlang.py:57 | the pair of `VMInt(10)` and `VMString("hello")` renders as the test expects |
| KeyValRepr.Nested | src_py/test_xlang.py:68-70 | a pair whose value is a pair contains the inner rendering whole |
| KeyValRepr.TupleInKeyVal | src_py/test_xlang.py:86-88 | a pair whose value is a two-item tuple renders as `VMKeyVal(k, VMTuple((a, b)))` |

## Left out

- Memory orderings, fences and atomicity are not modelled: every atomic becomes a plain sequential update.
- The check-then-increment race in `borrow`, `borrow_mut` and `clone_ref` is not modelled. Two threads can both pass the check and both take a guard; this cannot be expressed in a sequential model.
- The `Send`/`Sync` impls are not modelled; they are concurrency properties.
- Raw pointers, `Box::into_raw`/`from_raw` and `NonNull` are not modelled; they become the heap map and its addresses.
- `get_mut` is modelled only as a write of a new payload (`GetMutWrite`). The lifetime of the `&mut T` it returns is not modelled, and neither is that of the `&T` from `get`.
- Guards are plain values carrying an address. A guard's reliance on its handle outliving it shows up as a `requires` that its address is allocated.
- The model fixes a 64-bit target: `usize::MAX` is 2^64 - 1.
- `from_inner` on a freed address is undefined behaviour in the source. The model treats it as observing a count of 0, which panics.
- Handle operations require their `Inner` to be allocated: the source dereferences the pointer unchecked. `Ownership.NoDanglingOnEveryRun` shows that protocol runs never break this.
- Guard operations (`Deref`, `DerefMutRead`, `DerefMutWrite`, `DropReadGuard`, `DropWriteGuard`) require their `Inner` to be allocated. This is an obligation on the caller that the model does not discharge: a guard holds no share of `ref_count`, so nothing in the source stops it outliving the last handle. `CellLaws.GuardCanOutliveHandle` exhibits this.
- BorrowTracking.RunKeepsInv: proved only for runs of fewer than `usize::MAX` steps, because longer runs can wrap `borrow_count`.
- Ownership.OwnRun: proved only for runs of fewer than `usize::MAX` steps, because longer runs can wrap `ref_count`.
- Ownership.OwnStepKeepsInv: a call outside the protocol leaves the state unchanged, instead of modelling the misuse. Examples are a drop through a handle that does not exist, `from_inner` on an address that neither a live handle nor a detached share keeps allocated, and `drop_ref` with no detached share to release. `DropRefWithoutShareDangles` shows the last misuse separately.
- The rest of `src/lib.rs` is not part of this model: PyO3 class plumbing, value conversion, and calls into the external GC (`new_object`, `drop_ref`, `as_type`).
- `src/xlang.rs` is not part of this model: the compiler front end, coroutine execution, callbacks and `bincode` serialisation. Only its reattach pattern is reflected: `get_inner` of a live handle (`src/xlang.rs:466`) and `from_inner` without `clone_ref` (`src/xlang.rs:501-502`). `GetInnerFromInnerRoundTrip` states it for one call, and the run model's reattach step and `LiveHandleReattachFreesOnce` state it over runs.
- `VMFloat` formatting is not modelled, because it is floating point.
- `VMBytes::__str__` is not modelled, because it is a call to the library's `from_utf8_lossy`.
- The items' own `repr()`/`str()` come from Python and enter the tuple and pair formatters as input strings.

## Findings

| source | as written | input that shows it | evidently intended | confidence | as-written member | corrected member |
|---|---|---|---|---|---|---|
| src/lib.rs:455-458 | the backslash (byte 92) is printable and is emitted bare, so a literal `\x00` in the data reads like an escaped byte | the byte string `[0]` and the four bytes `\`, `x`, `0`, `0` both render as `VMBytes(b"\x00")` | escape the backslash as `\\`, as Python's `bytes.__repr__` does, so that the rendering determines the bytes | medium; not executed | BytesRepr.ReprAmbiguous | BytesRepr.ReprEscapedRoundTrip |
