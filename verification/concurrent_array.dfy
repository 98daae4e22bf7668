/** The wrappers a shared Ruby array keeps in its store field: one final class per
    concurrency strategy, each holding the real store and, for the lock-based ones, the lock. */
module ConcurrentArray {
  import opened Values
  import opened Stores

  datatype WrapperKind =
    | FixedSizeArray
    | SynchronizedArray
    | ReentrantLockArray
    | CustomLockArray
    | StampedLockArray
    | LayoutLockArray
    | FastLayoutLockArray
    | FastAppendArray

  /** Identity of a lock object (ReentrantLock, MyBiasedLock, StampedLock, LayoutLock, FastLayoutLock). */
  type LockRef = nat

  predicate CarriesLock(kind: WrapperKind) {
    !(kind.FixedSizeArray? || kind.SynchronizedArray?)
  }

  datatype Wrapper = Wrapper(kind: WrapperKind, store: InnerStore, lock: Option<LockRef>, tags: seq<bool>)

  /** What the store field of a Ruby array holds. */
  datatype ArrayStore = Bare(inner: InnerStore) | Wrapped(wrapper: Wrapper)

  /** A Ruby array object: its store field, its size field and whether it is shared between threads. */
  datatype RubyArray = RubyArray(store: ArrayStore, size: int, shared: bool)

  /** The constructors of the wrapper classes. The common superclass asserts that the store is
      not itself a wrapper; a FastAppendArray allocates one tag per slot of the store. */
  function NewWrapper(kind: WrapperKind, store: ArrayStore, lock: Option<LockRef>): (r: Result<Wrapper>)
    ensures r.Ok? <==> store.Bare?
    ensures r.Ok? ==> r.value.kind == kind && r.value.store == store.inner
    ensures r.Ok? ==> r.value.lock == (if CarriesLock(kind) then lock else None)
  {
    if store.Wrapped? then Raise(AssertionFailure)
    else
      var tags := if kind.FastAppendArray? then Repeat(false, store.inner.Capacity()) else [];
      Ok(Wrapper(kind, store.inner, if CarriesLock(kind) then lock else None, tags))
  }

  function GetStore(w: Wrapper): InnerStore {
    w.store
  }

  function GetLock(w: Wrapper): LockRef
    requires w.lock.Some?
  {
    w.lock.value
  }

  function GetTags(w: Wrapper): seq<bool> {
    w.tags
  }

  function SetTags(w: Wrapper, tags: seq<bool>): (r: Wrapper)
    requires w.kind.FastAppendArray?
    ensures GetTags(r) == tags && GetStore(r) == GetStore(w) && r.kind == w.kind && r.lock == w.lock
  {
    w.(tags := tags)
  }

  /** A wrapper is built only around a real store, and hands back exactly that store. */
  lemma StoreRoundTrip(kind: WrapperKind, s: InnerStore, lock: Option<LockRef>)
    ensures NewWrapper(kind, Bare(s), lock).Ok?
    ensures GetStore(NewWrapper(kind, Bare(s), lock).value) == s
  {
  }

  /** A wrapper around a wrapper is refused by the constructor's assertion. */
  lemma NoNestedWrappers(kind: WrapperKind, w: Wrapper, lock: Option<LockRef>)
    ensures NewWrapper(kind, Wrapped(w), lock) == Raise(AssertionFailure)
  {
  }

  /** The lock-carrying wrappers return the lock they were built with. */
  lemma LockRoundTrip(kind: WrapperKind, s: InnerStore, lock: LockRef)
    requires CarriesLock(kind)
    ensures NewWrapper(kind, Bare(s), Some(lock)).value.lock == Some(lock)
    ensures GetLock(NewWrapper(kind, Bare(s), Some(lock)).value) == lock
  {
  }

  /** A FastAppendArray has as many tags as its store has slots, none of them set. */
  lemma FastAppendTagsMatchStore(s: InnerStore, lock: Option<LockRef>)
    ensures var w := NewWrapper(FastAppendArray, Bare(s), lock).value;
      |GetTags(w)| == s.Capacity() && (s.NullStore? ==> |GetTags(w)| == 0)
      && forall i :: 0 <= i < |GetTags(w)| ==> !GetTags(w)[i]
  {
  }

  /** The atomic fetch-and-add on the size field: the old size (narrowed to an int) is returned
      and the stored size grows by exactly one. */
  function GetSizeAndIncrement(a: RubyArray): (r: (int, RubyArray))
    ensures r.1.size == a.size + 1
    ensures r.1.store == a.store && r.1.shared == a.shared
    ensures 0 <= a.size <= INT_MAX ==> r.0 == a.size
  {
    (ToInt32(a.size), a.(size := a.size + 1))
  }
}
