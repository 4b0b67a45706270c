/**
  Reader/writer exclusion over whole runs.

  A run on one cell is a sequence of `borrow`, `borrow_mut` and guard drops.
  The state pairs the heap with the multiset of guards currently alive.  The
  invariant is that the counters count exactly the live guards and that
  readers and a tracked writer are never out together; a refused request
  leaves the state as it was.  Runs shorter than `usize::MAX` steps cannot
  wrap a counter, which the invariant needs.
 */
module BorrowTracking {
  import opened Usize
  import opened ArcUnsafeRefCell

  /** A live guard of either kind. */
  datatype Guard = Read(r: UnsafeRef) | Write(w: UnsafeRefMut)

  /** One step of a sequential run. */
  datatype Event = DoBorrow | DoBorrowMut | Release(g: Guard)

  datatype Tracked<T> = Tracked(heap: Heap<T>, guards: multiset<Guard>)

  /** The guard a successful request adds, and the heap after it. */
  function Apply<T>(s: Tracked<T>, a: Addr, e: Event): (s': Tracked<T>)
    requires a in s.heap
    ensures a in s'.heap
  {
    match e
    case DoBorrow =>
      (match Borrow(s.heap, Handle(a))
       case Ok(st) => Tracked(st.heap, s.guards + multiset{Read(st.out)})
       case Err(_) => s)
    case DoBorrowMut =>
      (match BorrowMut(s.heap, Handle(a))
       case Ok(st) => Tracked(st.heap, s.guards + multiset{Write(st.out)})
       case Err(_) => s)
    case Release(g) =>
      // A guard that is not alive cannot be dropped: Rust's ownership rules this out.
      if g !in s.guards then s
      else
        match g
        case Read(r) => if r.inner == a then Tracked(DropReadGuard(s.heap, r), s.guards - multiset{g}) else s
        case Write(w) => if w.inner == a then Tracked(DropWriteGuard(s.heap, w), s.guards - multiset{g}) else s
  }

  function Run<T>(s: Tracked<T>, a: Addr, events: seq<Event>): (s': Tracked<T>)
    requires a in s.heap
    ensures a in s'.heap
    decreases |events|
  {
    if |events| == 0 then s else Run(Apply(s, a, events[0]), a, events[1..])
  }

  /** Readers and a tracked writer are never out together, and there is at most one writer. */
  ghost predicate Exclusive<T>(inner: Inner<T>)
  {
    && !(inner.borrowCount > 0 && inner.borrowMutCount > 0)
    && inner.borrowMutCount <= 1
  }

  /**
    After `k` steps: every live guard views `a`; `borrow_count` is the number
    of live read guards and `borrow_mut_count` the number of live write
    guards, all of which are tracked; and the counts are exclusive.
   */
  ghost predicate Inv<T>(s: Tracked<T>, a: Addr, k: nat)
  {
    && a in s.heap
    && (forall g :: g in s.guards ==> g == Read(UnsafeRef(a)) || g == Write(UnsafeRefMut(a, true)))
    && s.heap[a].borrowCount == s.guards[Read(UnsafeRef(a))]
    && s.heap[a].borrowMutCount == s.guards[Write(UnsafeRefMut(a, true))]
    && s.heap[a].borrowCount <= k
    && Exclusive(s.heap[a])
  }

  lemma BorrowKeepsInv<T>(s: Tracked<T>, a: Addr, k: nat)
    requires Inv(s, a, k)
    requires k < USIZE_MAX
    ensures Inv(Apply(s, a, DoBorrow), a, k + 1)
  {
    if s.heap[a].borrowMutCount == 0 {
      var s' := Apply(s, a, DoBorrow);
      assert s'.guards == s.guards + multiset{Read(UnsafeRef(a))};
      assert s'.heap[a].borrowCount == s.heap[a].borrowCount + 1;
    }
  }

  lemma BorrowMutKeepsInv<T>(s: Tracked<T>, a: Addr, k: nat)
    requires Inv(s, a, k)
    ensures Inv(Apply(s, a, DoBorrowMut), a, k + 1)
  {
    if s.heap[a].borrowCount == 0 && s.heap[a].borrowMutCount == 0 {
      var s' := Apply(s, a, DoBorrowMut);
      assert s'.guards == s.guards + multiset{Write(UnsafeRefMut(a, true))};
    }
  }

  lemma ReleaseKeepsInv<T>(s: Tracked<T>, a: Addr, k: nat, g: Guard)
    requires Inv(s, a, k)
    ensures Inv(Apply(s, a, Release(g)), a, k + 1)
  {
    if g in s.guards {
      var s' := Apply(s, a, Release(g));
      assert g == Read(UnsafeRef(a)) || g == Write(UnsafeRefMut(a, true));
      assert s'.guards == s.guards - multiset{g};
      assert forall h :: h in s'.guards ==> h in s.guards;
    }
  }

  /** One step keeps the invariant, provided the step count stays below `usize::MAX`. */
  lemma ApplyKeepsInv<T>(s: Tracked<T>, a: Addr, k: nat, e: Event)
    requires Inv(s, a, k)
    requires k < USIZE_MAX
    ensures Inv(Apply(s, a, e), a, k + 1)
  {
    match e
    case DoBorrow => BorrowKeepsInv(s, a, k);
    case DoBorrowMut => BorrowMutKeepsInv(s, a, k);
    case Release(g) => ReleaseKeepsInv(s, a, k, g);
  }

  /** A run of at most `usize::MAX - k` steps from an invariant state ends in an invariant state. */
  lemma {:induction false} RunKeepsInv<T>(s: Tracked<T>, a: Addr, k: nat, events: seq<Event>)
    requires Inv(s, a, k)
    requires k + |events| <= USIZE_MAX
    ensures Inv(Run(s, a, events), a, k + |events|)
    decreases |events|
  {
    if |events| > 0 {
      ApplyKeepsInv(s, a, k, events[0]);
      RunKeepsInv(Apply(s, a, events[0]), a, k + 1, events[1..]);
    }
  }

  /**
    Starting from a cell with no guards out, every run of `borrow`,
    `borrow_mut` and guard drops shorter than `usize::MAX` steps keeps
    readers and writers apart, keeps at most one writer, and keeps the
    counters equal to the number of live guards of each kind.
   */
  lemma ExclusionHoldsOnEveryRun<T>(heap: Heap<T>, a: Addr, events: seq<Event>)
    requires a in heap
    requires heap[a].borrowCount == 0 && heap[a].borrowMutCount == 0
    requires |events| <= USIZE_MAX
    ensures var s := Run(Tracked(heap, multiset{}), a, events);
      && Exclusive(s.heap[a])
      && s.heap[a].borrowCount == s.guards[Read(UnsafeRef(a))]
      && s.heap[a].borrowMutCount == s.guards[Write(UnsafeRefMut(a, true))]
      && !(Read(UnsafeRef(a)) in s.guards && Write(UnsafeRefMut(a, true)) in s.guards)
  {
    RunKeepsInv(Tracked(heap, multiset{}), a, 0, events);
  }

  /**
    The unregistered guard of `borrow_mut_unsafe` breaks exclusion: with it
    out, `borrow` still admits a reader, so a reader and a writer coexist
    while `borrow_mut_count` stays 0.
   */
  lemma UnsafeGuardBreaksExclusion<T>(heap: Heap<T>, a: Addr)
    requires a in heap
    requires heap[a].borrowCount == 0 && heap[a].borrowMutCount == 0
    ensures var u := BorrowMutUnsafe(heap, Handle(a));
      && u.Ok?
      && var b := Borrow(u.value.heap, Handle(a));
      && b.Ok?
      && var s := Tracked(b.value.heap, multiset{Write(u.value.out), Read(b.value.out)});
      && Write(UnsafeRefMut(a, false)) in s.guards
      && Read(UnsafeRef(a)) in s.guards
      && s.heap[a].borrowMutCount == 0
  {
  }
}
