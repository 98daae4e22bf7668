/** A Ruby hash object as the hash code sees it: its store in one of four shapes, its size,
    the two ends of the insertion-order sequence of a bucket store, the compare-by-identity
    flag, and whether the object is shared between threads. */
module HashState {
  import opened Values
  import opened Links
  import opened AtomicArrays
  import opened ConcurrentHashes

  datatype HashStore =
    /** No store: the empty hash. */
    | NullStore
    /** The packed store of `PackedArrayStrategy`, as its item slots (hash, key, value). */
    | PackedStore(slots: seq<Item>)
    /** The `Entry[]` of a bucket hash; entries are in the hash's entry heap. */
    | BucketStore(buckets: AtomicArray<Id>)
    /** A `ConcurrentHash`; entries are in the concurrent entry heap. */
    | ConcurrentStore(hash: CHash)

  datatype RubyHash = RubyHash(store: HashStore, size: int, first: Option<Id>, last: Option<Id>,
                               compareByIdentity: bool, shared: bool)

  /** `HashGuards.isConcurrentHash`. */
  predicate IsConcurrent(h: RubyHash) {
    h.store.ConcurrentStore?
  }

  /** A `BucketsPromotionResult`: the buckets (None for a null array), the size, and the ends of
      the sequence of a bucket hash. */
  datatype Promotion = Promotion(buckets: Option<AtomicArray<Id>>, size: int, first: Option<Id>, last: Option<Id>)
}
