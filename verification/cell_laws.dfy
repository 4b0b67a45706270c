/**
  Laws relating the cell's operations to one another: each acquisition is
  undone by its release, the guards exclude each other, and the
  detach/reattach protocol returns the heap to where it started.
 */
module CellLaws {
  import opened Usize
  import opened Wrappers
  import opened ArcUnsafeRefCell

  /** A freshly constructed cell lends out its payload: `construct(v).borrow()` dereferences to `v`. */
  lemma NewThenBorrowReadsPayload<T>(heap: Heap<T>, addr: Addr, v: T)
    requires addr !in heap
    ensures var s := New(heap, addr, v);
      && IsUnique(s.heap, s.out)
      && Borrow(s.heap, s.out).Ok?
      && Deref(Borrow(s.heap, s.out).value.heap, Borrow(s.heap, s.out).value.out) == v
  {
  }

  /** Dropping the read guard `borrow` hands out restores the heap exactly. */
  lemma BorrowThenDropRestores<T>(heap: Heap<T>, handle: Handle)
    requires handle.addr in heap
    ensures Borrow(heap, handle).Ok? ==>
      var s := Borrow(heap, handle).value;
      DropReadGuard(s.heap, s.out) == heap
  {
    if Borrow(heap, handle).Ok? {
      var s := Borrow(heap, handle).value;
      var h' := DropReadGuard(s.heap, s.out);
      assert h'[handle.addr] == heap[handle.addr];
    }
  }

  /** Dropping the write guard `borrow_mut` hands out restores the heap exactly. */
  lemma BorrowMutThenDropRestores<T>(heap: Heap<T>, handle: Handle)
    requires handle.addr in heap
    ensures BorrowMut(heap, handle).Ok? ==>
      var s := BorrowMut(heap, handle).value;
      DropWriteGuard(s.heap, s.out) == heap
  {
    if BorrowMut(heap, handle).Ok? {
      var s := BorrowMut(heap, handle).value;
      var h' := DropWriteGuard(s.heap, s.out);
      assert h'[handle.addr] == heap[handle.addr];
    }
  }

  /** The guard of `borrow_mut_unsafe` never touches a counter, neither on creation nor on drop. */
  lemma BorrowMutUnsafeThenDropRestores<T>(heap: Heap<T>, handle: Handle)
    requires handle.addr in heap
    ensures BorrowMutUnsafe(heap, handle).Ok? ==>
      var s := BorrowMutUnsafe(heap, handle).value;
      s.heap == heap && DropWriteGuard(s.heap, s.out) == heap
  {
  }

  /** While a tracked write guard is out, `borrow` and `clone_ref` are refused; after its drop they succeed. */
  lemma WriteGuardExcludesReaders<T>(heap: Heap<T>, handle: Handle)
    requires handle.addr in heap
    requires heap[handle.addr].borrowCount == 0 && heap[handle.addr].borrowMutCount == 0
    ensures BorrowMut(heap, handle).Ok?
    ensures var s := BorrowMut(heap, handle).value;
      && Borrow(s.heap, handle) == Err(BorrowError)
      && CloneRef(s.heap, handle) == Err(BorrowError)
      && BorrowMut(s.heap, handle) == Err(BorrowMutError)
      && Borrow(DropWriteGuard(s.heap, s.out), handle).Ok?
  {
  }

  /** While a read guard is out, `borrow_mut` is refused; once every read guard is dropped it succeeds. */
  lemma ReadGuardExcludesWriters<T>(heap: Heap<T>, handle: Handle)
    requires handle.addr in heap
    requires heap[handle.addr].borrowCount == 0 && heap[handle.addr].borrowMutCount == 0
    ensures Borrow(heap, handle).Ok?
    ensures var s := Borrow(heap, handle).value;
      && BorrowMut(s.heap, handle) == Err(BorrowMutError)
      && BorrowMutUnsafe(s.heap, handle) == Err(BorrowMutError)
      && BorrowMut(DropReadGuard(s.heap, s.out), handle).Ok?
  {
  }

  /** Readers do not exclude each other: with no write guard out, a second `borrow` also succeeds. */
  lemma ReadersShare<T>(heap: Heap<T>, handle: Handle)
    requires handle.addr in heap
    requires heap[handle.addr].borrowMutCount == 0
    ensures Borrow(heap, handle).Ok?
    ensures Borrow(Borrow(heap, handle).value.heap, handle).Ok?
  {
  }

  /**
    The unregistered guard of `borrow_mut_unsafe` is invisible to the
    conflict checks: while it is out, a reader is still admitted.
   */
  lemma UnsafeGuardIsInvisible<T>(heap: Heap<T>, handle: Handle)
    requires handle.addr in heap
    requires heap[handle.addr].borrowCount == 0 && heap[handle.addr].borrowMutCount == 0
    ensures BorrowMutUnsafe(heap, handle).Ok?
    ensures Borrow(BorrowMutUnsafe(heap, handle).value.heap, handle).Ok?
  {
  }

  /**
    The escape hatches ignore the guards: while a tracked write guard is out,
    `borrow` is refused but `get` still reads the payload; and a write through
    `get_mut` is seen by a read guard that is already out.
   */
  lemma GetBypassesGuards<T>(heap: Heap<T>, handle: Handle, v: T)
    requires handle.addr in heap
    requires heap[handle.addr].borrowCount == 0 && heap[handle.addr].borrowMutCount == 0
    ensures var w := BorrowMut(heap, handle).value;
      && Borrow(w.heap, handle).Err?
      && Get(w.heap, handle) == heap[handle.addr].data
    ensures var r := Borrow(heap, handle).value;
      && Deref(GetMutWrite(r.heap, handle, v), r.out) == v
      && RefCount(GetMutWrite(r.heap, handle, v), handle) == RefCount(heap, handle)
  {
  }

  /**
    A read guard holds no share of `ref_count`: dropping the only handle
    while a guard is out frees the `Inner`, and the guard is left naming a
    freed address.
   */
  lemma GuardCanOutliveHandle<T>(heap: Heap<T>, addr: Addr, v: T)
    requires addr !in heap
    ensures var n := New(heap, addr, v);
      var b := Borrow(n.heap, n.out);
      && b.Ok?
      && var d := Drop(b.value.heap, n.out);
      && d.freed == Some(v)
      && b.value.out.inner !in d.heap
  {
  }

  /**
    `clone` adds one owner and dropping the clone removes it again without
    freeing, restoring the heap, as long as the cell had an owner (this holds
    even across the wrap-around at `usize::MAX`).
   */
  lemma CloneThenDropRestores<T>(heap: Heap<T>, handle: Handle)
    requires handle.addr in heap
    requires heap[handle.addr].refCount >= 1
    ensures var s := Clone(heap, handle);
      && s.out.addr == handle.addr
      && (RefCount(heap, handle) < USIZE_MAX ==> RefCount(s.heap, handle) == RefCount(heap, handle) + 1)
      && Drop(s.heap, s.out) == Dropped(heap, None)
  {
    var s := Clone(heap, handle);
    var d := Drop(s.heap, s.out);
    assert d.heap[handle.addr] == heap[handle.addr];
    assert d.heap == heap;
  }

  /** `clone_ref` then `drop_ref` restores the heap, unless a write guard made `clone_ref` fail. */
  lemma CloneRefThenDropRefRestores<T>(heap: Heap<T>, handle: Handle)
    requires handle.addr in heap
    requires 1 <= heap[handle.addr].refCount < USIZE_MAX
    ensures CloneRef(heap, handle).Ok? <==> heap[handle.addr].borrowMutCount == 0
    ensures CloneRef(heap, handle).Ok? ==>
      && handle.addr in CloneRef(heap, handle).value
      && DropRef(CloneRef(heap, handle).value, handle) == Ok(heap)
  {
    if CloneRef(heap, handle).Ok? {
      var h1 := CloneRef(heap, handle).value;
      var h2 := DropRef(h1, handle).value;
      assert h2[handle.addr] == heap[handle.addr];
      assert h2 == heap;
    }
  }

  /**
    Detach and reattach: `from_inner(get_inner())` on a live cell never
    panics, adds one owner to the same `Inner`, and dropping the reattached
    handle restores the heap.  This is how a handle crosses an opaque boundary.
   */
  lemma GetInnerFromInnerRoundTrip<T>(heap: Heap<T>, handle: Handle)
    requires handle.addr in heap
    requires 1 <= heap[handle.addr].refCount < USIZE_MAX
    ensures var a := FromInner(heap, GetInner(handle));
      && a.Attached?
      && a.handle == handle
      && RefCount(a.heap, a.handle) == RefCount(heap, handle) + 1
      && Deref(a.heap, UnsafeRef(a.handle.addr)) == Deref(heap, UnsafeRef(handle.addr))
      && Drop(a.heap, a.handle) == Dropped(heap, None)
  {
    var a := FromInner(heap, GetInner(handle));
    var d := Drop(a.heap, a.handle);
    assert d.heap[handle.addr] == heap[handle.addr];
  }

  /** Reattaching a freed or never-allocated address panics instead of producing a handle. */
  lemma FromInnerStaleAddressPanics<T>(heap: Heap<T>, handle: Handle)
    requires handle.addr !in heap
    ensures FromInner(heap, GetInner(handle)) == Panicked(InvalidRefCount)
  {
  }

  /**
    The full detach protocol: `clone_ref` pre-authorises a reattachment,
    `from_inner(get_inner())` performs it, the reattached handle is dropped,
    and `drop_ref` releases the pre-authorised share.  The heap ends where it
    began.
   */
  lemma DetachProtocolRestores<T>(heap: Heap<T>, handle: Handle)
    requires handle.addr in heap
    requires heap[handle.addr].borrowMutCount == 0
    requires 1 <= heap[handle.addr].refCount < USIZE_MAX - 1
    ensures CloneRef(heap, handle).Ok?
    ensures var h1 := CloneRef(heap, handle).value;
      var a := FromInner(h1, GetInner(handle));
      && a.Attached?
      && RefCount(a.heap, handle) == RefCount(heap, handle) + 2
      && Drop(a.heap, a.handle).freed.None?
      && DropRef(Drop(a.heap, a.handle).heap, handle) == Ok(heap)
  {
    var h1 := CloneRef(heap, handle).value;
    var a := FromInner(h1, GetInner(handle));
    var h3 := Drop(a.heap, a.handle).heap;
    var h4 := DropRef(h3, handle).value;
    assert h4[handle.addr] == heap[handle.addr];
    assert h4 == heap;
  }

  /**
    The worked scenario: construct with 0, clone (two owners), drop the
    clone (one owner), write 42 through a write guard, drop it, and read 42
    back through a read guard.
   */
  lemma Scenario(heap: Heap<int>, addr: Addr)
    requires addr !in heap
    ensures
      var n := New(heap, addr, 0);
      var c := Clone(n.heap, n.out);
      var d := Drop(c.heap, c.out);
      var w := BorrowMut(d.heap, n.out);
      && RefCount(c.heap, n.out) == 2
      && d.freed.None? && RefCount(d.heap, n.out) == 1
      && w.Ok?
      && var h := DropWriteGuard(DerefMutWrite(w.value.heap, w.value.out, 42), w.value.out);
      && Borrow(h, n.out).Ok?
      && Deref(Borrow(h, n.out).value.heap, Borrow(h, n.out).value.out) == 42
  {
  }
}
