/**
  Reference-count bookkeeping over whole runs.

  The scope-based protocol (`clone` and `Drop`) and the explicit one
  (`clone_ref`, `get_inner`/`from_inner`, `drop_ref`) share one counter.
  This module shows that the allocation is freed exactly once, on the drop
  that takes the count from 1 to 0, and that a run following the explicit
  protocol never leaves a handle or a detached address pointing at a freed
  `Inner`.
 */
module Ownership {
  import opened Usize
  import opened Wrappers
  import opened ArcUnsafeRefCell

  /** A heap after some handle drops, and how many of those drops freed the `Inner`. */
  datatype Drops<T> = Drops(heap: Heap<T>, frees: nat)

  /** `n` successive `clone`s of `handle`; every clone is a handle to the same address. */
  function CloneTimes<T>(heap: Heap<T>, handle: Handle, n: nat): (heap': Heap<T>)
    requires handle.addr in heap
    requires heap[handle.addr].refCount + n <= USIZE_MAX
    ensures OnlyAt(heap, heap', handle.addr)
    ensures heap'[handle.addr].refCount == heap[handle.addr].refCount + n
    ensures heap'[handle.addr].data == heap[handle.addr].data
    ensures heap'[handle.addr].borrowCount == heap[handle.addr].borrowCount
    ensures heap'[handle.addr].borrowMutCount == heap[handle.addr].borrowMutCount
    decreases n
  {
    if n == 0 then heap else CloneTimes(Clone(heap, handle).heap, handle, n - 1)
  }

  /**
    Dropping `k` of the handles to `handle.addr`, one after another, when at
    least `k` owners exist: the `Inner` is freed once if `k` is the whole
    count, and otherwise not at all, with `k` fewer owners left.
   */
  function DropTimes<T>(heap: Heap<T>, handle: Handle, k: nat): (r: Drops<T>)
    requires handle.addr in heap
    requires 1 <= heap[handle.addr].refCount
    requires k <= heap[handle.addr].refCount
    ensures r.frees == (if k == heap[handle.addr].refCount then 1 else 0)
    ensures k == heap[handle.addr].refCount ==> handle.addr !in r.heap
    ensures k < heap[handle.addr].refCount ==>
      && handle.addr in r.heap
      && r.heap[handle.addr].refCount == heap[handle.addr].refCount - k
      && r.heap[handle.addr].data == heap[handle.addr].data
      && r.heap[handle.addr].borrowCount == heap[handle.addr].borrowCount
      && r.heap[handle.addr].borrowMutCount == heap[handle.addr].borrowMutCount
    ensures forall b :: b != handle.addr ==> (b in r.heap <==> b in heap)
    ensures forall b :: b in heap && b != handle.addr ==> r.heap[b] == heap[b]
    decreases k
  {
    if k == 0 then Drops(heap, 0)
    else
      var d := Drop(heap, handle);
      if d.freed.Some? then Drops(d.heap, 1)
      else
        var rest := DropTimes(d.heap, handle, k - 1);
        Drops(rest.heap, rest.frees)
  }

  /**
    A cell constructed with `v` and cloned `n` times has `n + 1` owners.
    Dropping any `k <= n` of those handles frees nothing; dropping all
    `n + 1` frees the `Inner` exactly once and leaves the heap as it was
    before construction.
   */
  lemma CloneDropFreesOnce<T>(heap: Heap<T>, addr: Addr, v: T, n: nat, k: nat)
    requires addr !in heap
    requires n < USIZE_MAX
    requires k <= n
    ensures var s := New(heap, addr, v);
      var cloned := CloneTimes(s.heap, s.out, n);
      && cloned[addr].refCount == n + 1
      && DropTimes(cloned, s.out, k).frees == 0
      && addr in DropTimes(cloned, s.out, k).heap
      && DropTimes(cloned, s.out, n + 1) == Drops(heap, 1)
  {
    var s := New(heap, addr, v);
    var cloned := CloneTimes(s.heap, s.out, n);
    var all := DropTimes(cloned, s.out, n + 1);
    assert all.heap == heap;
  }

  /** A run's state: the heap, the live handle values, and the detached shares (by address). */
  datatype Own<T> = Own(heap: Heap<T>, handles: multiset<Addr>, detached: multiset<Addr>)

  /**
    One step of a run that follows the explicit protocol: a handle method is
    called only through a live handle; `from_inner` is applied to an address
    that a live handle or a detached share keeps allocated (`get_inner` of a
    live handle, or of one whose share `clone_ref` set aside); `drop_ref`
    releases a detached share.
    An event outside the protocol leaves the state unchanged.  (The checks
    that a handle's `Inner` is allocated never fire under `OwnInv`.)
   */
  datatype OwnEvent<T> =
    | DoNew(addr: Addr, v: T)
    | DoClone(a: Addr)
    | DoDrop(a: Addr)
    | DoCloneRef(a: Addr)
    | DoReattach(a: Addr)
    | DoDropRef(a: Addr)

  function OwnStep<T>(s: Own<T>, e: OwnEvent<T>): (s': Own<T>)
  {
    match e
    case DoNew(addr, v) =>
      // The allocator never returns an address that is still allocated.
      if addr in s.heap then s
      else Own(New(s.heap, addr, v).heap, s.handles + multiset{addr}, s.detached)
    case DoClone(a) =>
      if a !in s.handles || a !in s.heap then s
      else Own(Clone(s.heap, Handle(a)).heap, s.handles + multiset{a}, s.detached)
    case DoDrop(a) =>
      if a !in s.handles || a !in s.heap then s
      else Own(Drop(s.heap, Handle(a)).heap, s.handles - multiset{a}, s.detached)
    case DoCloneRef(a) =>
      if a !in s.handles || a !in s.heap then s
      else
        (match CloneRef(s.heap, Handle(a))
         case Ok(h) => Own(h, s.handles, s.detached + multiset{a})
         case Err(_) => s)
    case DoReattach(a) =>
      if a !in s.detached && a !in s.handles then s
      else
        (match FromInner(s.heap, GetInner(Handle(a)))
         case Attached(h, handle) => Own(h, s.handles + multiset{handle.addr}, s.detached)
         case Panicked(_) => s)
    case DoDropRef(a) =>
      if a !in s.handles || a !in s.detached || a !in s.heap then s
      else
        (match DropRef(s.heap, Handle(a))
         case Ok(h) => Own(h, s.handles, s.detached - multiset{a})
         case Err(_) => s)
  }

  /**
    After `k` steps: each allocation's count is its live handles plus its
    detached shares, at least 1 and at most `k`; every handle and every
    detached share points at an allocated `Inner`.
   */
  ghost predicate OwnInv<T>(s: Own<T>, k: nat)
  {
    && (forall a :: a in s.heap ==>
          && s.heap[a].refCount == s.handles[a] + s.detached[a]
          && 1 <= s.heap[a].refCount <= k)
    && (forall a :: a in s.handles ==> a in s.heap)
    && (forall a :: a in s.detached ==> a in s.heap)
  }

  /**
    Under the invariant, `from_inner` on the address of a live handle or of a
    detached share never panics, and `drop_ref` through a handle that also
    has a detached share is never refused.
   */
  lemma ProtocolStepsSucceed<T>(s: Own<T>, k: nat, a: Addr)
    requires OwnInv(s, k)
    requires k < USIZE_MAX
    ensures a in s.detached || a in s.handles ==> FromInner(s.heap, GetInner(Handle(a))).Attached?
    ensures a in s.detached && a in s.handles ==> DropRef(s.heap, Handle(a)).Ok?
  {
  }

  lemma NewKeepsInv<T>(s: Own<T>, k: nat, addr: Addr, v: T)
    requires OwnInv(s, k)
    requires k < USIZE_MAX
    ensures OwnInv(OwnStep(s, DoNew(addr, v)), k + 1)
  {
    if addr !in s.heap {
      var s' := OwnStep(s, DoNew(addr, v));
      assert addr !in s.handles && addr !in s.detached;
      assert forall a :: a in s'.handles ==> a == addr || a in s.handles;
    }
  }

  /** `m'` is `m` with at most one copy of `a` added or removed. */
  ghost predicate NudgedAt(m: multiset<Addr>, m': multiset<Addr>, a: Addr)
  {
    m' == m || m' == m + multiset{a} || m' == m - multiset{a}
  }

  /**
    A step that touches only the allocation at `a`, and changes only the
    handles and shares of `a`, keeps the invariant once `a`'s count matches.
   */
  lemma RecountKeepsInv<T>(s: Own<T>, k: nat, a: Addr, s': Own<T>)
    requires OwnInv(s, k)
    requires a in s.heap
    requires OnlyAt(s.heap, s'.heap, a)
    requires s'.heap[a].refCount == s'.handles[a] + s'.detached[a]
    requires 1 <= s'.heap[a].refCount <= k + 1
    requires NudgedAt(s.handles, s'.handles, a)
    requires NudgedAt(s.detached, s'.detached, a)
    ensures OwnInv(s', k + 1)
  {
    NudgedElsewhere(s.handles, s'.handles, a);
    NudgedElsewhere(s.detached, s'.detached, a);
    forall b | b in s'.heap
      ensures s'.heap[b].refCount == s'.handles[b] + s'.detached[b]
      ensures 1 <= s'.heap[b].refCount <= k + 1
    {
      if b != a {
        assert b in s.heap && s'.heap[b] == s.heap[b];
      }
    }
    forall b | b in s'.handles
      ensures b in s'.heap
    {
      if b != a {
        assert b in s.handles;
      }
    }
    forall b | b in s'.detached
      ensures b in s'.heap
    {
      if b != a {
        assert b in s.detached;
      }
    }
  }

  /** Nudging `a` leaves every other multiplicity alone. */
  lemma NudgedElsewhere(m: multiset<Addr>, m': multiset<Addr>, a: Addr)
    requires NudgedAt(m, m', a)
    ensures forall b :: b != a ==> m'[b] == m[b]
  {
  }

  /** A refused or out-of-protocol step changes nothing, and the invariant tolerates one more step. */
  lemma InvMonotone<T>(s: Own<T>, k: nat)
    requires OwnInv(s, k)
    ensures OwnInv(s, k + 1)
  {
  }

  /** What a protocol step does to the counts at `a`, stated without the invariant in scope. */
  lemma CloneShape<T>(s: Own<T>, a: Addr)
    requires a in s.handles && a in s.heap && s.heap[a].refCount < USIZE_MAX
    ensures var s' := OwnStep(s, DoClone(a));
      && OnlyAt(s.heap, s'.heap, a)
      && s'.heap[a].refCount == s.heap[a].refCount + 1
      && s'.handles == s.handles + multiset{a} && s'.detached == s.detached
  {
  }

  lemma DropShape<T>(s: Own<T>, a: Addr)
    requires a in s.handles && a in s.heap && s.heap[a].refCount > 1
    ensures var s' := OwnStep(s, DoDrop(a));
      && OnlyAt(s.heap, s'.heap, a)
      && s'.heap[a].refCount == s.heap[a].refCount - 1
      && s'.handles == s.handles - multiset{a} && s'.detached == s.detached
  {
  }

  lemma DropLastShape<T>(s: Own<T>, a: Addr)
    requires a in s.handles && a in s.heap && s.heap[a].refCount == 1
    ensures var s' := OwnStep(s, DoDrop(a));
      && s'.heap == s.heap - {a}
      && s'.handles == s.handles - multiset{a} && s'.detached == s.detached
  {
  }

  lemma CloneRefShape<T>(s: Own<T>, a: Addr)
    requires a in s.handles && a in s.heap && s.heap[a].refCount < USIZE_MAX
    requires s.heap[a].borrowMutCount == 0
    ensures var s' := OwnStep(s, DoCloneRef(a));
      && OnlyAt(s.heap, s'.heap, a)
      && s'.heap[a].refCount == s.heap[a].refCount + 1
      && s'.handles == s.handles && s'.detached == s.detached + multiset{a}
  {
  }

  lemma ReattachShape<T>(s: Own<T>, a: Addr)
    requires (a in s.detached || a in s.handles) && a in s.heap && 1 <= s.heap[a].refCount < USIZE_MAX
    ensures var s' := OwnStep(s, DoReattach(a));
      && OnlyAt(s.heap, s'.heap, a)
      && s'.heap[a].refCount == s.heap[a].refCount + 1
      && s'.handles == s.handles + multiset{a} && s'.detached == s.detached
  {
  }

  lemma DropRefShape<T>(s: Own<T>, a: Addr)
    requires a in s.handles && a in s.detached && a in s.heap && s.heap[a].refCount > 1
    ensures var s' := OwnStep(s, DoDropRef(a));
      && OnlyAt(s.heap, s'.heap, a)
      && s'.heap[a].refCount == s.heap[a].refCount - 1
      && s'.handles == s.handles && s'.detached == s.detached - multiset{a}
  {
  }

  lemma CloneKeepsInv<T>(s: Own<T>, k: nat, a: Addr)
    requires OwnInv(s, k)
    requires k < USIZE_MAX
    ensures OwnInv(OwnStep(s, DoClone(a)), k + 1)
  {
    if a in s.handles {
      CloneShape(s, a);
      RecountKeepsInv(s, k, a, OwnStep(s, DoClone(a)));
    } else {
      InvMonotone(s, k);
    }
  }

  lemma DropKeepsInv<T>(s: Own<T>, k: nat, a: Addr)
    requires OwnInv(s, k)
    requires k < USIZE_MAX
    ensures OwnInv(OwnStep(s, DoDrop(a)), k + 1)
  {
    if a in s.handles {
      var s' := OwnStep(s, DoDrop(a));
      if s.heap[a].refCount == 1 {
        DropLastShape(s, a);
        assert s.handles[a] == 1 && s.detached[a] == 0;
        assert a !in s'.handles;
        assert forall b :: b in s'.handles ==> b in s.handles;
      } else {
        DropShape(s, a);
        RecountKeepsInv(s, k, a, s');
      }
    } else {
      InvMonotone(s, k);
    }
  }

  lemma CloneRefKeepsInv<T>(s: Own<T>, k: nat, a: Addr)
    requires OwnInv(s, k)
    requires k < USIZE_MAX
    ensures OwnInv(OwnStep(s, DoCloneRef(a)), k + 1)
  {
    if a in s.handles && s.heap[a].borrowMutCount == 0 {
      CloneRefShape(s, a);
      RecountKeepsInv(s, k, a, OwnStep(s, DoCloneRef(a)));
    } else {
      assert OwnStep(s, DoCloneRef(a)) == s;
      InvMonotone(s, k);
    }
  }

  lemma ReattachKeepsInv<T>(s: Own<T>, k: nat, a: Addr)
    requires OwnInv(s, k)
    requires k < USIZE_MAX
    ensures OwnInv(OwnStep(s, DoReattach(a)), k + 1)
  {
    if a in s.detached || a in s.handles {
      assert a in s.heap && 1 <= s.heap[a].refCount <= k;
      ReattachShape(s, a);
      RecountKeepsInv(s, k, a, OwnStep(s, DoReattach(a)));
    } else {
      InvMonotone(s, k);
    }
  }

  lemma DropRefKeepsInv<T>(s: Own<T>, k: nat, a: Addr)
    requires OwnInv(s, k)
    requires k < USIZE_MAX
    ensures OwnInv(OwnStep(s, DoDropRef(a)), k + 1)
  {
    if a in s.handles && a in s.detached {
      assert a in s.heap;
      assert s.heap[a].refCount == s.handles[a] + s.detached[a] >= 2;
      DropRefShape(s, a);
      RecountKeepsInv(s, k, a, OwnStep(s, DoDropRef(a)));
    } else {
      assert OwnStep(s, DoDropRef(a)) == s;
      InvMonotone(s, k);
    }
  }

  /** One protocol step keeps the invariant while the step count stays below `usize::MAX`. */
  lemma OwnStepKeepsInv<T>(s: Own<T>, k: nat, e: OwnEvent<T>)
    requires OwnInv(s, k)
    requires k < USIZE_MAX
    ensures OwnInv(OwnStep(s, e), k + 1)
  {
    match e
    case DoNew(addr, v) => NewKeepsInv(s, k, addr, v);
    case DoClone(a) => CloneKeepsInv(s, k, a);
    case DoDrop(a) => DropKeepsInv(s, k, a);
    case DoCloneRef(a) => CloneRefKeepsInv(s, k, a);
    case DoReattach(a) => ReattachKeepsInv(s, k, a);
    case DoDropRef(a) => DropRefKeepsInv(s, k, a);
  }

  function OwnRun<T>(s: Own<T>, k: nat, events: seq<OwnEvent<T>>): (s': Own<T>)
    requires OwnInv(s, k)
    requires k + |events| <= USIZE_MAX
    ensures OwnInv(s', k + |events|)
    decreases |events|
  {
    if |events| == 0 then s
    else
      OwnStepKeepsInv(s, k, events[0]);
      OwnRun(OwnStep(s, events[0]), k + 1, events[1..])
  }

  /**
    From an empty heap, every protocol run shorter than `usize::MAX` steps
    leaves no handle and no detached address dangling, and every allocation
    still in the heap has an owner.
   */
  lemma NoDanglingOnEveryRun<T>(events: seq<OwnEvent<T>>)
    requires |events| <= USIZE_MAX
    ensures var s := OwnRun(Own(map[], multiset{}, multiset{}), 0, events);
      && (forall a :: a in s.handles ==> a in s.heap)
      && (forall a :: a in s.detached ==> a in s.heap)
      && (forall a :: a in s.heap ==> s.heap[a].refCount == s.handles[a] + s.detached[a] >= 1)
  {
  }

  /**
    The reattach pattern of the interpreter's callback: a live handle's
    address is reattached with no `clone_ref`, the reattached handle is
    dropped at the end of its scope, and then the original handle is
    dropped.  The `Inner` survives the first drop and is freed by the second.
   */
  lemma LiveHandleReattachFreesOnce<T>(v: T)
    ensures var s0 := Own(map[], multiset{}, multiset{});
      var s1 := OwnStep(s0, DoNew(1, v));
      var s2 := OwnStep(s1, DoReattach(1));
      var s3 := OwnStep(s2, DoDrop(1));
      var s4 := OwnStep(s3, DoDrop(1));
      && s2.heap[1].refCount == 2
      && 1 in s3.heap && s3.heap[1].refCount == 1 && 1 in s3.handles
      && s4.heap == map[] && s4.handles == multiset{}
  {
    var s1 := OwnStep(Own(map[], multiset{}, multiset{}), DoNew(1, v));
    var s2 := OwnStep(s1, DoReattach(1));
    assert s2.handles == multiset{1, 1};
    var s3 := OwnStep(s2, DoDrop(1));
    assert s3.handles == multiset{1};
  }

  /**
    A drop that frees an allocation is the drop of its last owner: afterwards
    no handle and no detached share refers to it.
   */
  lemma FreeOnlyWhenUnowned<T>(s: Own<T>, k: nat, a: Addr)
    requires OwnInv(s, k)
    requires k < USIZE_MAX
    requires a in s.handles
    requires Drop(s.heap, Handle(a)).freed.Some?
    ensures var s' := OwnStep(s, DoDrop(a));
      a !in s'.heap && a !in s'.handles && a !in s'.detached
  {
    OwnStepKeepsInv(s, k, DoDrop(a));
  }

  /**
    `drop_ref` outside the protocol (with no detached share to release)
    frees too early: two handles, one `drop_ref`, one drop, and the
    remaining handle points at a freed `Inner`.
   */
  lemma DropRefWithoutShareDangles<T>(v: T)
    ensures var s := New(map[], 1, v);
      var c := Clone(s.heap, s.out);
      var h := DropRef(c.heap, s.out);
      && h.Ok?
      && var d := Drop(h.value, c.out);
      && d.freed == Some(v)
      && s.out.addr !in d.heap
  {
  }
}
