/**
  The shared-ownership cell `ArcUnsafeRefCellWrapper<T>`.

  Every handle points at one heap allocation, an `Inner<T>`, that holds the
  payload and three counters: `ref_count` (owning handles), `borrow_count`
  (outstanding read guards) and `borrow_mut_count` (outstanding tracked write
  guards).  The heap is a map from non-null addresses to `Inner` records;
  freeing an allocation removes its address.  Each operation is a pure
  transition on that heap; the atomic counter updates become plain
  sequential updates with `usize` wrap-around.

  An operation that reads through a handle or a guard requires the handle's
  or guard's `Inner` to be allocated: the handle holds a `NonNull` pointer
  that it keeps valid, and a guard relies on its handle outliving it.
  `from_inner` is the one entry point that takes a raw address, and it checks.
 */
module ArcUnsafeRefCell {
  import opened Usize
  import opened Wrappers

  /** A non-null address of an `Inner` allocation; addresses fit in a `usize`. */
  type Addr = a: usize | 0 < a witness 1

  /** `Inner<T>`: the payload and its three counters. */
  datatype Inner<T> = Inner(data: T, refCount: usize, borrowCount: usize, borrowMutCount: usize)

  /** Every live `Inner` allocation, by address. */
  type Heap<T> = map<Addr, Inner<T>>

  /** `ArcUnsafeRefCellError`: the three recoverable failures. */
  datatype CellError = BorrowError | BorrowMutError | UnableToDrop

  datatype Result<R> = Ok(value: R) | Err(error: CellError)

  /** `ArcUnsafeRefCellWrapper<T>`: an owning pointer to an `Inner`. */
  datatype Handle = Handle(addr: Addr)

  /** `UnsafeRef<T>`: a read guard, a non-owning back-reference to its `Inner`. */
  datatype UnsafeRef = UnsafeRef(inner: Addr)

  /** `UnsafeRefMut<T>`: a write guard; `dropMut` says whether its drop releases `borrow_mut_count`. */
  datatype UnsafeRefMut = UnsafeRefMut(inner: Addr, dropMut: bool)

  /** A new heap together with the value an operation hands back. */
  datatype Step<T, R> = Step(heap: Heap<T>, out: R)

  /** The outcome of dropping a handle: the new heap, and the payload if it was freed. */
  datatype Dropped<T> = Dropped(heap: Heap<T>, freed: Option<T>)

  /** Why `from_inner` panics instead of returning. */
  datatype Panic = NullPointer | InvalidRefCount

  /** The outcome of `from_inner`: a reattached handle, or a panic. */
  datatype Attach<T> = Attached(heap: Heap<T>, handle: Handle) | Panicked(reason: Panic)

  /** `heap'` agrees with `heap` on every address but `a`, and has the same addresses. */
  ghost predicate OnlyAt<T>(heap: Heap<T>, heap': Heap<T>, a: Addr)
  {
    && heap'.Keys == heap.Keys
    && forall b :: b in heap && b != a ==> heap'[b] == heap[b]
  }

  /** `Display for ArcUnsafeRefCellError`. */
  function ErrorMessage(e: CellError): (s: string)
    ensures e == BorrowError ==> s == "BorrowError"
    ensures e == BorrowMutError ==> s == "BorrowMutError"
    ensures e == UnableToDrop ==> s == "UnableToDrop"
  {
    match e
    case BorrowError => "BorrowError"
    case BorrowMutError => "BorrowMutError"
    case UnableToDrop => "UnableToDrop"
  }

  /** Distinct errors print distinctly, so the message identifies the error. */
  lemma ErrorMessageInjective(e1: CellError, e2: CellError)
    ensures ErrorMessage(e1) == ErrorMessage(e2) ==> e1 == e2
  {
  }

  /** `Inner::new`: one owner, no guards. */
  function NewInner<T>(data: T): (r: Inner<T>)
    ensures r.data == data
    ensures r.refCount == 1 && r.borrowCount == 0 && r.borrowMutCount == 0
  {
    Inner(data, 1, 0, 0)
  }

  /**
    `ArcUnsafeRefCellWrapper::new`: allocates an `Inner` at an address the
    allocator chooses (`free`, not currently allocated) and returns the only
    handle to it.
   */
  function New<T>(heap: Heap<T>, free: Addr, data: T): (r: Step<T, Handle>)
    requires free !in heap
    ensures r.out == Handle(free)
    ensures r.heap.Keys == heap.Keys + {free}
    ensures forall b :: b in heap ==> r.heap[b] == heap[b]
    ensures r.heap[free].data == data
    ensures r.heap[free].refCount == 1
    ensures r.heap[free].borrowCount == 0 && r.heap[free].borrowMutCount == 0
  {
    Step(heap[free := NewInner(data)], Handle(free))
  }

  /**
    `borrow`: refused while a tracked write guard is out; otherwise one more
    read guard is registered.
   */
  function Borrow<T>(heap: Heap<T>, handle: Handle): (r: Result<Step<T, UnsafeRef>>)
    requires handle.addr in heap
    ensures r.Err? <==> heap[handle.addr].borrowMutCount > 0
    ensures r.Err? ==> r.error == BorrowError
    ensures r.Ok? ==> OnlyAt(heap, r.value.heap, handle.addr)
    ensures r.Ok? ==>
      var before, after := heap[handle.addr], r.value.heap[handle.addr];
      && r.value.out.inner == handle.addr
      && after.data == before.data
      && after.refCount == before.refCount
      && after.borrowMutCount == before.borrowMutCount
      && after.borrowCount == WrappingInc(before.borrowCount)
  {
    var inner := heap[handle.addr];
    if inner.borrowMutCount > 0 then
      Err(BorrowError)
    else
      Ok(Step(heap[handle.addr := inner.(borrowCount := WrappingInc(inner.borrowCount))], UnsafeRef(handle.addr)))
  }

  /** The conflict check shared by `borrow_mut` and `borrow_mut_unsafe`. */
  predicate WriteConflict<T>(inner: Inner<T>)
  {
    inner.borrowCount > 0 || inner.borrowMutCount > 0
  }

  /**
    `borrow_mut`: refused while any read or tracked write guard is out;
    otherwise one more tracked write guard is registered.
   */
  function BorrowMut<T>(heap: Heap<T>, handle: Handle): (r: Result<Step<T, UnsafeRefMut>>)
    requires handle.addr in heap
    ensures r.Err? <==> heap[handle.addr].borrowCount > 0 || heap[handle.addr].borrowMutCount > 0
    ensures r.Err? ==> r.error == BorrowMutError
    ensures r.Ok? ==> OnlyAt(heap, r.value.heap, handle.addr)
    ensures r.Ok? ==>
      var before, after := heap[handle.addr], r.value.heap[handle.addr];
      && r.value.out == UnsafeRefMut(handle.addr, true)
      && after.data == before.data
      && after.refCount == before.refCount
      && after.borrowCount == before.borrowCount
      && after.borrowMutCount == 1
  {
    var inner := heap[handle.addr];
    if WriteConflict(inner) then
      Err(BorrowMutError)
    else
      Ok(Step(heap[handle.addr := inner.(borrowMutCount := WrappingInc(inner.borrowMutCount))], UnsafeRefMut(handle.addr, true)))
  }

  /**
    `borrow_mut_unsafe`: the same conflict check as `borrow_mut`, but the
    guard it grants is not registered and its drop releases nothing.
   */
  function BorrowMutUnsafe<T>(heap: Heap<T>, handle: Handle): (r: Result<Step<T, UnsafeRefMut>>)
    requires handle.addr in heap
    ensures r.Err? <==> BorrowMut(heap, handle).Err?
    ensures r.Err? ==> r.error == BorrowMutError
    ensures r.Ok? ==> r.value.heap == heap && r.value.out == UnsafeRefMut(handle.addr, false)
  {
    if WriteConflict(heap[handle.addr]) then
      Err(BorrowMutError)
    else
      Ok(Step(heap, UnsafeRefMut(handle.addr, false)))
  }

  /** `Deref for UnsafeRef`: a read guard views the payload of the cell it was taken from. */
  function Deref<T>(heap: Heap<T>, g: UnsafeRef): (v: T)
    requires g.inner in heap
    ensures v == Get(heap, Handle(g.inner))
  {
    heap[g.inner].data
  }

  /** `Deref for UnsafeRefMut`: a write guard, tracked or not, views what a read guard on its `Inner` views. */
  function DerefMutRead<T>(heap: Heap<T>, g: UnsafeRefMut): (v: T)
    requires g.inner in heap
    ensures v == Deref(heap, UnsafeRef(g.inner))
  {
    heap[g.inner].data
  }

  /** `DerefMut for UnsafeRefMut`, used as `*guard = v`: replaces the payload, no counter moves. */
  function DerefMutWrite<T>(heap: Heap<T>, g: UnsafeRefMut, v: T): (heap': Heap<T>)
    requires g.inner in heap
    ensures OnlyAt(heap, heap', g.inner)
    ensures heap'[g.inner].data == v
    ensures heap'[g.inner].refCount == heap[g.inner].refCount
    ensures heap'[g.inner].borrowCount == heap[g.inner].borrowCount
    ensures heap'[g.inner].borrowMutCount == heap[g.inner].borrowMutCount
  {
    heap[g.inner := heap[g.inner].(data := v)]
  }

  /** `Drop for UnsafeRef`: releases one read registration. */
  function DropReadGuard<T>(heap: Heap<T>, g: UnsafeRef): (heap': Heap<T>)
    requires g.inner in heap
    ensures OnlyAt(heap, heap', g.inner)
    ensures heap'[g.inner].data == heap[g.inner].data
    ensures heap'[g.inner].refCount == heap[g.inner].refCount
    ensures heap'[g.inner].borrowMutCount == heap[g.inner].borrowMutCount
    ensures heap'[g.inner].borrowCount == WrappingDec(heap[g.inner].borrowCount)
  {
    var inner := heap[g.inner];
    heap[g.inner := inner.(borrowCount := WrappingDec(inner.borrowCount))]
  }

  /** `Drop for UnsafeRefMut`: releases the write registration only if the guard holds one. */
  function DropWriteGuard<T>(heap: Heap<T>, g: UnsafeRefMut): (heap': Heap<T>)
    requires g.inner in heap
    ensures !g.dropMut ==> heap' == heap
    ensures g.dropMut ==>
      && OnlyAt(heap, heap', g.inner)
      && heap'[g.inner].data == heap[g.inner].data
      && heap'[g.inner].refCount == heap[g.inner].refCount
      && heap'[g.inner].borrowCount == heap[g.inner].borrowCount
      && heap'[g.inner].borrowMutCount == WrappingDec(heap[g.inner].borrowMutCount)
  {
    if g.dropMut then
      var inner := heap[g.inner];
      heap[g.inner := inner.(borrowMutCount := WrappingDec(inner.borrowMutCount))]
    else
      heap
  }

  /**
    `clone_ref`: one more owner without a new handle value; refused while a
    tracked write guard is out.
   */
  function CloneRef<T>(heap: Heap<T>, handle: Handle): (r: Result<Heap<T>>)
    requires handle.addr in heap
    ensures r.Err? <==> heap[handle.addr].borrowMutCount > 0
    ensures r.Err? ==> r.error == BorrowError
    ensures r.Ok? ==> OnlyAt(heap, r.value, handle.addr)
    ensures r.Ok? ==>
      var before, after := heap[handle.addr], r.value[handle.addr];
      && after.data == before.data
      && after.borrowCount == before.borrowCount
      && after.borrowMutCount == before.borrowMutCount
      && after.refCount == WrappingInc(before.refCount)
  {
    var inner := heap[handle.addr];
    if inner.borrowMutCount > 0 then
      Err(BorrowError)
    else
      Ok(heap[handle.addr := inner.(refCount := WrappingInc(inner.refCount))])
  }

  /**
    `drop_ref`: one owner fewer without destroying a handle value; refused on
    the last owner, so it never frees and never reaches zero.
   */
  function DropRef<T>(heap: Heap<T>, handle: Handle): (r: Result<Heap<T>>)
    requires handle.addr in heap
    ensures r.Err? <==> heap[handle.addr].refCount <= 1
    ensures r.Err? ==> r.error == UnableToDrop
    ensures r.Ok? ==> OnlyAt(heap, r.value, handle.addr)
    ensures r.Ok? ==>
      var before, after := heap[handle.addr], r.value[handle.addr];
      && after.data == before.data
      && after.borrowCount == before.borrowCount
      && after.borrowMutCount == before.borrowMutCount
      && after.refCount == before.refCount - 1
      && after.refCount >= 1
  {
    var inner := heap[handle.addr];
    if inner.refCount <= 1 then
      Err(UnableToDrop)
    else
      Ok(heap[handle.addr := inner.(refCount := WrappingDec(inner.refCount))])
  }

  /**
    `get`: the payload, read without consulting or moving any counter; it
    is the value the last owner's drop releases.
   */
  function Get<T>(heap: Heap<T>, handle: Handle): (v: T)
    requires handle.addr in heap
    ensures heap[handle.addr].refCount == 1 ==> Drop(heap, handle).freed == Some(v)
  {
    heap[handle.addr].data
  }

  /** `get_mut`, used as `*cell.get_mut() = v`: replaces the payload without consulting or moving any counter. */
  function GetMutWrite<T>(heap: Heap<T>, handle: Handle, v: T): (heap': Heap<T>)
    requires handle.addr in heap
    ensures OnlyAt(heap, heap', handle.addr)
    ensures heap'[handle.addr].data == v
    ensures heap'[handle.addr].refCount == heap[handle.addr].refCount
    ensures heap'[handle.addr].borrowCount == heap[handle.addr].borrowCount
    ensures heap'[handle.addr].borrowMutCount == heap[handle.addr].borrowMutCount
  {
    heap[handle.addr := heap[handle.addr].(data := v)]
  }

  /** `get_inner`: the allocation's address, as the integer the caller stores; no counter moves. */
  function GetInner(handle: Handle): (ptr: usize)
    ensures ptr != 0
  {
    handle.addr
  }

  /**
    `from_inner`: rebuilds an owning handle from a raw address.  A null
    address panics in `NonNull::new(..).unwrap()`; an observed count of zero
    panics with "Invalid reference count".  An address that is no longer
    allocated is modelled as observing a count of zero.
   */
  function FromInner<T>(heap: Heap<T>, ptr: usize): (r: Attach<T>)
    ensures r.Panicked? <==> ptr == 0 || ptr !in heap || heap[ptr].refCount == 0
    ensures r.Panicked? ==> (r.reason == NullPointer <==> ptr == 0)
    ensures r.Attached? ==> OnlyAt(heap, r.heap, ptr)
    ensures r.Attached? ==>
      var before, after := heap[ptr], r.heap[ptr];
      && r.handle == Handle(ptr)
      && after.data == before.data
      && after.borrowCount == before.borrowCount
      && after.borrowMutCount == before.borrowMutCount
      && after.refCount == WrappingInc(before.refCount)
  {
    if ptr == 0 then
      Panicked(NullPointer)
    else if ptr !in heap || heap[ptr].refCount == 0 then
      Panicked(InvalidRefCount)
    else
      var inner := heap[ptr];
      Attached(heap[ptr := inner.(refCount := WrappingInc(inner.refCount))], Handle(ptr))
  }

  /**
    `ref_count`: the current number of owners.  It is the count the other
    operations test: `drop_ref` is refused exactly when it is at most 1, and
    reattaching the cell's address panics exactly when it is 0.
   */
  function RefCount<T>(heap: Heap<T>, handle: Handle): (n: usize)
    requires handle.addr in heap
    ensures n <= 1 <==> DropRef(heap, handle).Err?
    ensures n == 0 <==> FromInner(heap, GetInner(handle)).Panicked?
  {
    heap[handle.addr].refCount
  }

  /**
    `is_unique`: whether this is the sole owner.  On a live cell (at least
    one owner) that is exactly when `drop_ref` would be refused.
   */
  function IsUnique<T>(heap: Heap<T>, handle: Handle): (b: bool)
    requires handle.addr in heap
    ensures b ==> DropRef(heap, handle) == Err(UnableToDrop)
    ensures RefCount(heap, handle) >= 1 ==> (b <==> DropRef(heap, handle).Err?)
  {
    RefCount(heap, handle) == 1
  }

  /** `Clone for ArcUnsafeRefCellWrapper`: a second handle to the same `Inner`; never refused. */
  function Clone<T>(heap: Heap<T>, handle: Handle): (r: Step<T, Handle>)
    requires handle.addr in heap
    ensures r.out == handle
    ensures OnlyAt(heap, r.heap, handle.addr)
    ensures r.heap[handle.addr].data == heap[handle.addr].data
    ensures r.heap[handle.addr].borrowCount == heap[handle.addr].borrowCount
    ensures r.heap[handle.addr].borrowMutCount == heap[handle.addr].borrowMutCount
    ensures r.heap[handle.addr].refCount == WrappingInc(heap[handle.addr].refCount)
  {
    var inner := heap[handle.addr];
    Step(heap[handle.addr := inner.(refCount := WrappingInc(inner.refCount))], handle)
  }

  /**
    `Drop for ArcUnsafeRefCellWrapper`: one owner fewer; the `Inner` and its
    payload are freed exactly when the count before the decrement was 1.
   */
  function Drop<T>(heap: Heap<T>, handle: Handle): (r: Dropped<T>)
    requires handle.addr in heap
    ensures r.freed.Some? <==> heap[handle.addr].refCount == 1
    ensures r.freed.Some? ==>
      && r.freed.value == heap[handle.addr].data
      && r.heap.Keys == heap.Keys - {handle.addr}
      && forall b :: b in r.heap ==> r.heap[b] == heap[b]
    ensures r.freed.None? ==> OnlyAt(heap, r.heap, handle.addr)
    ensures r.freed.None? ==>
      var before, after := heap[handle.addr], r.heap[handle.addr];
      && after.data == before.data
      && after.borrowCount == before.borrowCount
      && after.borrowMutCount == before.borrowMutCount
      && after.refCount == WrappingDec(before.refCount)
  {
    var inner := heap[handle.addr];
    if inner.refCount == 1 then
      Dropped(heap - {handle.addr}, Some(inner.data))
    else
      Dropped(heap[handle.addr := inner.(refCount := WrappingDec(inner.refCount))], None)
  }
}
