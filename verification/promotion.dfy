/** `BucketsPromotionResult`: the buckets, size and sequence ends of a bucket hash, carried
    from one hash to another. `apply` installs them in a hash that is not concurrent;
    `applyConcurrent` rebuilds them as the store of a shared concurrent hash. */
module Promotions {
  import opened Values
  import opened Links
  import opened AtomicArrays
  import opened HashConfig
  import opened ConcurrentHashes
  import opened HashState
  import opened ConcurrentBuckets
  import HashEntries

  /** The bucket count of `empty()`. */
  const EMPTY_BUCKETS: nat := 268

  /** `empty()`: 268 null buckets, size zero, and no sequence. */
  function Empty(): (p: Promotion)
    ensures p.buckets.Some? && Length(p.buckets.value) == EMPTY_BUCKETS
    ensures forall i :: 0 <= i < Length(p.buckets.value) ==> p.buckets.value.slots[i].None?
    ensures p.size == 0 && p.first.None? && p.last.None?
  {
    Promotion(Some(AtomicArray(Repeat(None, EMPTY_BUCKETS))), 0, None, None)
  }

  /** `fromBucketHash`: the hash's store cast to `Entry[]`, with its size and sequence ends. A
      null store casts to a null array; a packed or concurrent store fails the cast. */
  function FromBucketHash(h: RubyHash): (r: Result<Promotion>)
    ensures r.Raise? <==> h.store.PackedStore? || h.store.ConcurrentStore?
    ensures r.Raise? ==> r.exception == ClassCast
    ensures r.Ok? ==> r.value.size == h.size && r.value.first == h.first && r.value.last == h.last
    ensures r.Ok? ==> (r.value.buckets.Some? <==> h.store.BucketStore?)
  {
    match h.store
    case NullStore => Ok(Promotion(None, h.size, h.first, h.last))
    case BucketStore(buckets) => Ok(Promotion(Some(buckets), h.size, h.first, h.last))
    case _ => Raise(ClassCast)
  }

  /** The store `apply` installs: the buckets, or no store for a null array. */
  function StoreOf(p: Promotion): HashStore {
    if p.buckets.Some? then BucketStore(p.buckets.value) else NullStore
  }

  /** `apply(hash)`: asserts the hash is not concurrent, then sets its store, size and sequence
      ends; its flags are untouched. */
  function Apply(p: Promotion, h: RubyHash): (r: Result<RubyHash>)
    ensures r.Raise? <==> IsConcurrent(h)
    ensures r.Raise? ==> r.exception == AssertionFailure
    ensures r.Ok? ==> r.value.size == p.size && r.value.first == p.first && r.value.last == p.last
                      && r.value.compareByIdentity == h.compareByIdentity && r.value.shared == h.shared
    ensures r.Ok? ==> !r.value.store.PackedStore? && !IsConcurrent(r.value)
  {
    var _ :- Check(!IsConcurrent(h));
    Ok(h.(store := StoreOf(p), size := p.size, first := p.first, last := p.last))
  }

  /** Taking the promotion of a bucket or empty hash and applying it back gives the hash
      unchanged. */
  lemma ApplyFromBucketHash(h: RubyHash)
    requires h.store.BucketStore? || h.store.NullStore?
    ensures FromBucketHash(h).Ok? && Apply(FromBucketHash(h).value, h) == Ok(h)
  {
  }

  /** Applying a promotion to a hash that is not concurrent and reading it back gives the
      promotion. */
  lemma FromBucketHashApply(p: Promotion, h: RubyHash)
    requires !IsConcurrent(h)
    ensures Apply(p, h).Ok? && FromBucketHash(Apply(p, h).value) == Ok(p)
  {
  }

  /** `applyConcurrent(hash)`: asserts the hash is shared, then rebuilds the promotion as the
      hash's concurrent store. */
  function ApplyConcurrent(c: Config, p: Promotion, eheap: map<Id, HashEntries.Entry>, cheap: CHeap, hash: RubyHash, next: Id)
    : (r: Result<(CHeap, RubyHash)>)
    requires Below(cheap, next)
    ensures !hash.shared ==> r == Raise(AssertionFailure)
    ensures hash.shared && p.buckets.None? ==> r == Raise(NullPointer)
    ensures r.Ok? ==> hash.shared && IsConcurrent(r.value.1) && r.value.1.size == p.size
  {
    var _ :- Check(hash.shared);
    FromBuckets(c, p, eheap, cheap, hash, next)
  }

  /** Promoting a shared concurrent hash from a bucket hash whose sequence is `order` links the
      concurrent hash through one new entry per entry of `order`, in order, and iterating it
      yields them all. */
  lemma ApplyConcurrentRebuilds(c: Config, p: Promotion, eheap: map<Id, HashEntries.Entry>, cheap: CHeap, hash: RubyHash, next: Id,
                                order: seq<Id>)
    requires Valid(c) && Below(cheap, next) && p.buckets.Some? && IsConcurrent(hash) && hash.shared
    requires Chain(eheap, HashEntries.NextInSequenceOf, p.first, order)
    requires var h := hash.store.hash;
      h.head in cheap && h.tail in cheap && h.head != h.tail && cheap[h.head] == Sentinel && cheap[h.tail] == Sentinel
    ensures var r := ApplyConcurrent(c, p, eheap, cheap, hash, next);
      var ids := Allocate(next, |order|);
      r.Ok? && r.value.1.size == p.size && Linked(r.value.0, r.value.1.store.hash, ids)
      && IterateEntries(r.value.0, r.value.1.store.hash) == Ok(ids)
      && |ids| == |order|
  {
    FromBucketsRebuilds(c, p, eheap, cheap, hash, next, order);
  }

  /** Promoting an empty result into a fresh concurrent hash gives a hash with no entries and
      at least 268 buckets. */
  lemma EmptyPromotesToEmpty(c: Config, eheap: map<Id, HashEntries.Entry>, cheap: CHeap, hash: RubyHash, next: Id)
    requires Valid(c) && Below(cheap, next) && IsConcurrent(hash) && hash.shared
    requires var h := hash.store.hash;
      h.head in cheap && h.tail in cheap && h.head != h.tail && cheap[h.head] == Sentinel && cheap[h.tail] == Sentinel
    ensures var r := ApplyConcurrent(c, Empty(), eheap, cheap, hash, next);
      r.Ok? && r.value.1.size == 0 && Linked(r.value.0, r.value.1.store.hash, [])
      && IterateEntries(r.value.0, r.value.1.store.hash) == Ok([])
      && Length(r.value.1.store.hash.buckets) == Max(EMPTY_BUCKETS, c.initialCapacity)
  {
    assert Chain(eheap, HashEntries.NextInSequenceOf, None, []);
    FromBucketsRebuilds(c, Empty(), eheap, cheap, hash, next, []);
  }
}
