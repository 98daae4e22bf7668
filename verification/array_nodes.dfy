/** The two `Truffle::Array` primitives: `steal_storage`, which moves one array's store and
    size into another, and `set_strategy`, which switches a shared array to another
    concurrency strategy while every other thread is paused (one atomic step here). */
module ArrayNodes {
  import opened Values
  import opened Stores
  import opened ConcurrentArray
  import opened ArrayStrategy

  type ArrayId = nat

  /** The Ruby arrays, by identity. */
  type Heap = map<ArrayId, RubyArray>

  /** `steal_storage(target, other)`: a no-op on one array; otherwise `target` takes the store
      field and size of `other` through its own strategy, and `other` is left with a null
      store and size 0 through its strategy. */
  function StealStorage(heap: Heap, target: ArrayId, other: ArrayId): (r: Result<Heap>)
    requires target in heap && other in heap
    ensures r.Ok? ==> r.value.Keys == heap.Keys
    ensures r.Ok? ==> forall id :: id in heap && id != target && id != other ==> r.value[id] == heap[id]
  {
    if target == other then Ok(heap)
    else
      var strategy :- Of(ArrayObject(heap[target]));
      var otherStrategy :- Of(ArrayObject(heap[other]));
      var size := heap[other].size;
      var store := heap[other].store;
      var stolen :- SetStoreAndSize(strategy, heap[target], store, size);
      var emptied :- SetStoreAndSize(otherStrategy, heap[other], Bare(NullStore), 0);
      Ok(heap[target := stolen][other := emptied])
  }

  /** Stealing from itself changes nothing. */
  lemma StealFromSelf(heap: Heap, target: ArrayId)
    requires target in heap
    ensures StealStorage(heap, target, target) == Ok(heap)
  {
  }

  /** Between two distinct local arrays that `of` describes, `target` ends with exactly the
      store and size `other` had, and `other` ends empty with a null store, which the null
      strategy matches. */
  lemma StealMovesStorage(heap: Heap, target: ArrayId, other: ArrayId)
    requires target in heap && other in heap && target != other
    requires Of(ArrayObject(heap[target])).Ok? && Of(ArrayObject(heap[other])).Ok?
    requires !heap[target].shared && !heap[other].shared
    ensures var r := StealStorage(heap, target, other);
      r.Ok? && r.value[target] == heap[target].(store := heap[other].store, size := heap[other].size)
      && r.value[other] == heap[other].(store := Bare(NullStore), size := 0)
      && Matches(Local(NullStrategy), r.value[other])
  {
    OfMatches(heap[target]);
    OfMatches(heap[other]);
  }

  /** Between two shared arrays the wrapper of `other` would be wrapped again, which the
      wrapper constructor's assertion rejects. */
  lemma StealBetweenSharedArraysAsserts(heap: Heap, target: ArrayId, other: ArrayId)
    requires target in heap && other in heap && target != other
    requires Of(ArrayObject(heap[target])).Ok? && Of(ArrayObject(heap[other])).Ok?
    requires heap[target].shared && heap[other].shared
    ensures StealStorage(heap, target, other) == Raise(AssertionFailure)
  {
    OfMatches(heap[target]);
    OfMatches(heap[other]);
  }

  /** `set_strategy(target, name)`: only a shared array, and only the `StampedLock` strategy.
      The store field is cast to a wrapper, and the new StampedLock wrapper holds the same
      inner store with a fresh lock, `newLock`. */
  function SetStrategy(heap: Heap, target: ArrayId, name: string, newLock: LockRef): (r: Result<Heap>)
    requires target in heap
    ensures r.Ok? ==> r.value.Keys == heap.Keys
    ensures r.Ok? ==> forall id :: id in heap && id != target ==> r.value[id] == heap[id]
  {
    var a := heap[target];
    if !a.shared then Raise(UnsupportedOperation(""))
    else match a.store
      case Bare(Plain(_, _)) => Raise(ClassCast)
      case Bare(NullStore) => if name == "StampedLock" then Raise(NullPointer) else Raise(UnsupportedOperation(""))
      case Wrapped(w) =>
        if name == "StampedLock" then
          var wrapper :- NewWrapper(StampedLockArray, Bare(GetStore(w)), Some(newLock));
          Ok(heap[target := a.(store := Wrapped(wrapper))])
        else Raise(UnsupportedOperation(""))
  }

  /** A local array, or any name but `StampedLock`, is refused. */
  lemma SetStrategyRefuses(heap: Heap, target: ArrayId, name: string, newLock: LockRef)
    requires target in heap
    requires !heap[target].shared || name != "StampedLock"
    ensures SetStrategy(heap, target, name, newLock).Raise?
    ensures !heap[target].shared ==> SetStrategy(heap, target, name, newLock) == Raise(UnsupportedOperation(""))
  {
  }

  /** Switching a shared array that `of` describes to StampedLock keeps the inner store and
      the size, installs the fresh lock, and leaves an array `of` now describes with the
      StampedLock strategy over the same type strategy. */
  lemma SetStrategyKeepsStore(heap: Heap, target: ArrayId, newLock: LockRef)
    requires target in heap && heap[target].shared && Of(ArrayObject(heap[target])).Ok?
    ensures var r := SetStrategy(heap, target, "StampedLock", newLock);
      var a := heap[target];
      r.Ok? && r.value[target].size == a.size && r.value[target].shared
      && r.value[target].store.Wrapped?
      && r.value[target].store.wrapper.store == a.store.wrapper.store
      && r.value[target].store.wrapper.kind == StampedLockArray
      && r.value[target].store.wrapper.lock == Some(newLock)
      && Of(ArrayObject(r.value[target])) == Ok(Shared(StampedLock, Of(ArrayObject(a)).value.TypeOf()))
  {
    OfMatches(heap[target]);
  }
}
