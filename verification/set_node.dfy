/** `SetNode.executeSet`: one specialization per kind of store. A hash with no store gets a
    packed one; a packed, bucket or concurrent hash is set by its own strategy. The packed
    and bucket hashes keep their entries in one heap, the concurrent hash in another; a new
    entry takes the identity `newId`, fresh in both. */
module SetNodes {
  import opened Values
  import opened Links
  import opened HashConfig
  import opened HashState
  import opened PackedSets
  import opened BucketSets
  import opened ConcurrentSets
  import HashEntries
  import ConcurrentHashes

  /** What a set leaves, by the specialization that ran. */
  datatype SetOutcome =
    | NullSet(packed: PackedOutcome)
    | PackedSet(packed: PackedOutcome)
    | BucketSet(buckets: BucketOutcome)
    | ConcurrentSet(concurrent: ConcurrentOutcome)

  /** The value a set returns. A promotion goes on to add the new entry to the bucket store and
      returns the value set. */
  function Returned(o: SetOutcome): Value {
    match o
    case NullSet(p) => if p.Stored? then p.returned else p.item.value
    case PackedSet(p) => if p.Stored? then p.returned else p.item.value
    case BucketSet(b) => b.returned
    case ConcurrentSet(s) => s.returned
  }

  /** The hash a set leaves. */
  function HashOf(o: SetOutcome): RubyHash {
    match o
    case NullSet(p) => p.hash
    case PackedSet(p) => p.hash
    case BucketSet(b) => b.hash
    case ConcurrentSet(s) => s.hash
  }

  /** `executeSet`: the specialization whose guard the hash's store meets. */
  function Set(c: Config, h: RubyHash, eheap: map<Id, HashEntries.Entry>, cheap: ConcurrentHashes.CHeap, key: Value, value: Value,
               byIdentity: bool, onlyIfAbsent: bool, newId: Id): (r: Result<SetOutcome>)
    requires newId !in eheap && newId !in cheap
    ensures r.Ok? ==> (r.value.NullSet? <==> h.store.NullStore?) && (r.value.PackedSet? <==> h.store.PackedStore?)
                      && (r.value.BucketSet? <==> h.store.BucketStore?) && (r.value.ConcurrentSet? <==> h.store.ConcurrentStore?)
    ensures h.store.NullStore? ==> r.Ok?
    ensures h.store.PackedStore? ==> (r.Ok? <==> PackedShape(c, h))
    ensures r.Ok? && !onlyIfAbsent ==> Returned(r.value) == value
    ensures r.Ok? ==> HashOf(r.value).compareByIdentity == h.compareByIdentity && HashOf(r.value).shared == h.shared
  {
    match h.store
    case NullStore => Ok(NullSet(SetNull(c, h, key, value, byIdentity)))
    case PackedStore(_) =>
      var p :- SetPackedArray(c, h, key, value, byIdentity, onlyIfAbsent);
      Ok(PackedSet(p))
    case BucketStore(_) =>
      var b :- SetBuckets(c, h, eheap, key, value, byIdentity, onlyIfAbsent, newId);
      Ok(BucketSet(b))
    case ConcurrentStore(_) =>
      var s :- SetConcurrentAsWritten(c, h, cheap, key, value, onlyIfAbsent, newId);
      Ok(ConcurrentSet(s))
  }
}
