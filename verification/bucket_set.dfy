/** `SetNode` on a bucket hash. The key is looked up in its bucket; an absent key gets a new
    entry, linked at the end of its bucket's chain and at the end of the insertion-order
    sequence, and the size grows by one; a present key has its value replaced, unless the set
    is only-if-absent. */
module BucketSets {
  import opened Values
  import opened Links
  import opened AtomicArrays
  import opened HashConfig
  import opened HashState
  import opened HashEntries
  import opened Lookup
  import Rebuild

  type EHeap = map<Id, Entry>

  /** What `setBuckets` leaves: the value it returns, the hash and its entries, and whether the
      load factor calls for `BucketsStrategy.resize`. */
  datatype BucketOutcome = BucketOutcome(returned: Value, hash: RubyHash, heap: EHeap, resize: bool)

  /** The buckets of a bucket hash, each chained through its lookup links as `chains` says,
      every entry of a chain in the bucket its hash selects. */
  ghost predicate Bucketed(c: Config, heap: EHeap, buckets: AtomicArray<Id>, chains: seq<seq<Id>>) {
    |chains| == Length(buckets)
    && (forall b :: 0 <= b < |chains| ==> Chain(heap, NextInLookupOf, buckets.slots[b], chains[b]))
    && forall b, x :: 0 <= b < |chains| && x in chains[b] ==> x in heap && c.bucketIndex(HashedOf(heap[x]), Length(buckets)) == b
  }

  /** The new entry linked after `previous` in its bucket, or as the bucket's head when there
      is no previous entry. */
  function LinkInBucket(heap: EHeap, buckets: AtomicArray<Id>, index: int, previous: Option<Id>, id: Id)
    : (r: Result<(EHeap, AtomicArray<Id>)>)
    ensures r.Ok? <==> if previous.None? then 0 <= index < Length(buckets) else previous.value in heap
    ensures r.Ok? ==> r.value.0.Keys == heap.Keys && Length(r.value.1) == Length(buckets)
    ensures r.Ok? && previous.None? ==> r.value.0 == heap && r.value.1.slots == buckets.slots[index := Some(id)]
    ensures r.Ok? && previous.Some? ==> r.value.1 == buckets && NextInLookupOf(r.value.0[previous.value]) == Some(id)
    ensures r.Ok? ==> forall x :: x in heap && Some(x) != previous ==> r.value.0[x] == heap[x]
  {
    match previous
    case None =>
      var b :- Set(buckets, index, Some(id));
      Ok((heap, b))
    case Some(p) =>
      if p !in heap then Raise(Stuck)
      else Ok((heap[p := WithNextInLookup(heap[p], Some(id))], buckets))
  }

  /** The new entry linked after `last` in the sequence, or made its first entry when the
      sequence is empty; the first entry of the sequence afterwards. */
  function AppendInSequence(heap: EHeap, first: Option<Id>, last: Option<Id>, id: Id): (r: Result<(EHeap, Option<Id>)>)
    requires id in heap
    ensures r.Ok? <==> last.None? || last.value in heap
    ensures r.Ok? ==> r.value.0.Keys == heap.Keys
    ensures r.Ok? ==> r.value.1 == if last.None? then Some(id) else first
    ensures r.Ok? && last.Some? ==> PreviousInSequenceOf(r.value.0[id]) == last
    ensures r.Ok? && last.Some? && last.value != id ==> NextInSequenceOf(r.value.0[last.value]) == Some(id)
    ensures r.Ok? ==> forall x :: x in heap && x != id && Some(x) != last ==> r.value.0[x] == heap[x]
  {
    match last
    case None => Ok((heap, Some(id)))
    case Some(l) =>
      if l !in heap then Raise(Stuck)
      else
        var h1: EHeap := heap[l := WithNextInSequence(heap[l], Some(id))];
        var h2: EHeap := h1[id := WithPreviousInSequence(h1[id], last)];
        Ok((h2, first))
  }

  /** The resize test of `setBuckets`: the new size over the bucket count, in floating point,
      above the load factor. An empty array divides to infinity for a positive size and to
      NaN for zero. */
  predicate OverLoaded(c: Config, newSize: int, bucketsCount: nat) {
    if bucketsCount == 0 then newSize > 0
    else (newSize as real) / (bucketsCount as real) > c.loadFactor
  }

  /** `setBuckets`: the lookup, then either the insertion of a new entry at the identity
      `newId`, or the found entry's value returned or replaced. */
  function SetBuckets(c: Config, h: RubyHash, heap: EHeap, key: Value, value: Value, byIdentity: bool, onlyIfAbsent: bool,
                      newId: Id): (r: Result<BucketOutcome>)
    requires h.store.BucketStore? && newId !in heap
    ensures r.Ok? ==> heap.Keys <= r.value.heap.Keys <= heap.Keys + {newId}
    ensures r.Ok? ==> r.value.hash.store.BucketStore? && Length(r.value.hash.store.buckets) == Length(h.store.buckets)
    ensures r.Ok? && newId in r.value.heap ==> r.value.hash.size == ToInt32(h.size + 1) && r.value.returned == value
    ensures r.Ok? && newId !in r.value.heap ==> r.value.hash == h && !r.value.resize
    ensures r.Ok? ==> r.value.hash.compareByIdentity == h.compareByIdentity && r.value.hash.shared == h.shared
    ensures r.Ok? && !onlyIfAbsent ==> r.value.returned == value
  {
    var result :- LookupEntry(c, EntryKind, heap, h.store.buckets, key, byIdentity);
    AfterLookup(c, h, heap, result, key, value, onlyIfAbsent, newId)
  }

  /** What `setBuckets` does once the lookup has answered: insert or replace. */
  function AfterLookup(c: Config, h: RubyHash, heap: EHeap, result: LookupResult, key: Value, value: Value, onlyIfAbsent: bool,
                       newId: Id): (r: Result<BucketOutcome>)
    requires h.store.BucketStore? && newId !in heap
    requires result.entry.Some? ==> result.entry.value in heap
    ensures r.Ok? ==> heap.Keys <= r.value.heap.Keys <= heap.Keys + {newId}
    ensures r.Ok? ==> r.value.hash.store.BucketStore? && Length(r.value.hash.store.buckets) == Length(h.store.buckets)
    ensures r.Ok? && newId in r.value.heap ==> r.value.hash.size == ToInt32(h.size + 1) && r.value.returned == value
    ensures r.Ok? && newId !in r.value.heap ==> r.value.hash == h && !r.value.resize
    ensures r.Ok? ==> r.value.hash.compareByIdentity == h.compareByIdentity && r.value.hash.shared == h.shared
    ensures r.Ok? && !onlyIfAbsent ==> r.value.returned == value
  {
    match result.entry
    case None => Insert(c, h, heap, result.hashed, result.index, result.previous, key, value, newId)
    case Some(e) => Ok(Found(h, heap, e, value, onlyIfAbsent))
  }

  /** The branch of `setBuckets` for a present key: its value returned, or replaced by the
      value set, which is returned; the hash itself is untouched. */
  function Found(h: RubyHash, heap: EHeap, e: Id, value: Value, onlyIfAbsent: bool): (r: BucketOutcome)
    requires e in heap
    ensures r.heap.Keys == heap.Keys && r.hash == h && !r.resize
    ensures onlyIfAbsent ==> r.returned == ItemOf(heap[e]).value && r.heap == heap
    ensures !onlyIfAbsent ==> r.returned == value && ItemOf(r.heap[e]).value == value
                              && forall x :: x in heap && x != e ==> r.heap[x] == heap[x]
  {
    if onlyIfAbsent then BucketOutcome(heap[e].value, h, heap, false)
    else BucketOutcome(value, h, heap[e := Apply(heap[e], WriteValue(value))], false)
  }

  /** The insertion branch of `setBuckets`: a new entry at `newId` holding the key's hash, the
      key and the value, linked after `previous` in bucket `index` and after the last entry of
      the sequence; the size grows by one. */
  function Insert(c: Config, h: RubyHash, heap: EHeap, hashed: int, index: int, previous: Option<Id>, key: Value, value: Value,
                  newId: Id): (r: Result<BucketOutcome>)
    requires h.store.BucketStore? && newId !in heap
    ensures r.Ok? ==> r.value.heap.Keys == heap.Keys + {newId} && r.value.returned == value
    ensures r.Ok? ==> r.value.hash.store.BucketStore? && Length(r.value.hash.store.buckets) == Length(h.store.buckets)
    ensures r.Ok? ==> r.value.hash.size == ToInt32(h.size + 1) && r.value.hash.last == Some(newId)
    ensures r.Ok? ==> r.value.hash.compareByIdentity == h.compareByIdentity && r.value.hash.shared == h.shared
  {
    var heap1 := heap[newId := NewEntry(hashed, key, value)];
    var linked :- LinkInBucket(heap1, h.store.buckets, index, previous, newId);
    var appended :- AppendInSequence(linked.0, h.first, h.last, newId);
    var newSize := ToInt32(h.size + 1);
    Ok(BucketOutcome(value, h.(store := BucketStore(linked.1), size := newSize, first := appended.1, last := Some(newId)),
                     appended.0, OverLoaded(c, newSize, Length(linked.1))))
  }

  /** Linking in the bucket extends that bucket's chain by the new entry and keeps every other
      chain, every sequence link and every item. */
  lemma LinkInBucketExtends(c: Config, heap: EHeap, buckets: AtomicArray<Id>, chains: seq<seq<Id>>, index: nat, id: Id)
    requires Valid(c) && Bucketed(c, heap, buckets, chains) && index < |chains|
    requires id in heap && NextInLookupOf(heap[id]).None? && id !in chains[index]
    requires c.bucketIndex(HashedOf(heap[id]), Length(buckets)) == index
    requires forall b :: 0 <= b < |chains| ==> id !in chains[b]
    ensures var previous := if chains[index] == [] then None else Some(chains[index][|chains[index]| - 1]);
      var r := LinkInBucket(heap, buckets, index, previous, id);
      r.Ok? && Bucketed(c, r.value.0, r.value.1, chains[index := chains[index] + [id]])
      && forall x :: x in heap ==>
           ItemOf(r.value.0[x]) == ItemOf(heap[x]) && NextInSequenceOf(r.value.0[x]) == NextInSequenceOf(heap[x])
           && PreviousInSequenceOf(r.value.0[x]) == PreviousInSequenceOf(heap[x])
  {
    var chain := chains[index];
    var previous := if chain == [] then None else Some(chain[|chain| - 1]);
    var r := LinkInBucket(heap, buckets, index, previous, id);
    ChainMembers(heap, NextInLookupOf, buckets.slots[index], chain);
    ChainDistinct(heap, NextInLookupOf, buckets.slots[index], chain);
    var heap', buckets' := r.value.0, r.value.1;
    var chains' := chains[index := chain + [id]];
    assert Length(buckets') == Length(buckets);
    forall b | 0 <= b < |chains'|
      ensures Chain(heap', NextInLookupOf, buckets'.slots[b], chains'[b])
    {
      ChainMembers(heap, NextInLookupOf, buckets.slots[b], chains[b]);
      if b == index {
        if chain == [] {
          assert buckets'.slots[b] == Some(id);
          assert Chain(heap', NextInLookupOf, None, []);
          assert chains'[b] == [id];
        } else {
          forall i | 0 <= i < |chain|
            ensures NextInLookupOf(heap'[chain[i]]) == if i == |chain| - 1 then Some(id) else NextInLookupOf(heap[chain[i]])
          {
          }
          ChainAppend(heap, heap', NextInLookupOf, buckets.slots[index], chain, id);
        }
      } else {
        assert buckets'.slots[b] == buckets.slots[b];
        assert previous.None? || previous.value !in chains[b];
        ChainFrame(heap, heap', NextInLookupOf, buckets.slots[b], chains[b]);
      }
    }
  }

  /** Appending in the sequence extends it by the new entry and keeps every lookup link and
      every item. */
  lemma AppendInSequenceExtends(heap: EHeap, first: Option<Id>, last: Option<Id>, order: seq<Id>, id: Id)
    requires Rebuild.Sequence(EntryKind, heap, first, last, order)
    requires id in heap && id !in order && NextInSequenceOf(heap[id]).None? && PreviousInSequenceOf(heap[id]).None?
    ensures var r := AppendInSequence(heap, first, last, id);
      r.Ok? && Rebuild.Sequence(EntryKind, r.value.0, r.value.1, Some(id), order + [id])
      && forall x :: x in heap ==> ItemOf(r.value.0[x]) == ItemOf(heap[x]) && NextInLookupOf(r.value.0[x]) == NextInLookupOf(heap[x])
  {
    ChainMembers(heap, NextInSequenceOf, first, order);
    ChainDistinct(heap, NextInSequenceOf, first, order);
    if order != [] {
      assert last == Some(order[|order| - 1]);
    }
    var heap' := AppendInSequence(heap, first, last, id).value.0;
    forall i | 0 <= i < |order|
      ensures NextInSequenceOf(heap'[order[i]]) == if i == |order| - 1 then Some(id) else NextInSequenceOf(heap[order[i]])
    {
      assert last == Some(order[i]) <==> i == |order| - 1;
    }
    ChainAppend(heap, heap', NextInSequenceOf, first, order, id);
    if order == [] {
      assert first.None?;
    }
    var order' := order + [id];
    forall i | 0 <= i < |order'|
      ensures order'[i] in heap'
    {
      if i < |order| {
        assert order'[i] == order[i];
      }
    }
    forall i | 0 < i < |order'|
      ensures PreviousInSequenceOf(heap'[order'[i]]) == Some(order'[i - 1])
    {
      assert order'[i - 1] == order[i - 1];
      if i < |order| {
        assert order'[i] == order[i];
      }
    }
    if order != [] {
      assert order'[0] == order[0];
    }
  }

  /** With the key absent from its bucket's chain, `setBuckets` takes the insertion branch,
      linking after the chain's last entry. */
  lemma SetBucketsInserts(c: Config, h: RubyHash, heap: EHeap, key: Value, value: Value, byIdentity: bool, onlyIfAbsent: bool,
                           newId: Id, chain: seq<Id>)
    requires Valid(c) && h.store.BucketStore? && Length(h.store.buckets) > 0 && newId !in heap
    requires var index := c.bucketIndex(c.hashKey(key, byIdentity), Length(h.store.buckets));
      0 <= index < Length(h.store.buckets) && Chain(heap, NextInLookupOf, h.store.buckets.slots[index], chain)
    requires (forall x :: x in chain ==> x in heap)
      && FirstMatch(c, EntryKind, heap, byIdentity, key, c.hashKey(key, byIdentity), chain) == |chain|
    ensures var hashed := c.hashKey(key, byIdentity);
      SetBuckets(c, h, heap, key, value, byIdentity, onlyIfAbsent, newId)
        == Insert(c, h, heap, hashed, c.bucketIndex(hashed, Length(h.store.buckets)),
                  if chain == [] then None else Some(chain[|chain| - 1]), key, value, newId)
  {
    LookupEntryFinds(c, EntryKind, heap, h.store.buckets, key, byIdentity, chain);
  }

  /** The writes of an insertion: the new entry, linked at the end of its bucket and of the
      sequence. */
  lemma InsertLinks(c: Config, h: RubyHash, heap: EHeap, chains: seq<seq<Id>>, index: nat, order: seq<Id>, newId: Id, it: Item)
    returns (r: BucketOutcome)
    requires Valid(c) && h.store.BucketStore? && Bucketed(c, heap, h.store.buckets, chains) && index < |chains|
    requires Rebuild.Sequence(EntryKind, heap, h.first, h.last, order)
    requires newId !in heap && c.bucketIndex(it.hashed, Length(h.store.buckets)) == index
    ensures var chain := chains[index];
      Insert(c, h, heap, it.hashed, index, if chain == [] then None else Some(chain[|chain| - 1]), it.key, it.value, newId) == Ok(r)
    ensures newId in r.heap && ItemOf(r.heap[newId]) == it
    ensures Rebuild.Sequence(EntryKind, r.heap, r.hash.first, r.hash.last, order + [newId])
    ensures Bucketed(c, r.heap, r.hash.store.buckets, chains[index := chains[index] + [newId]])
    ensures forall x :: x in heap ==> x in r.heap && ItemOf(r.heap[x]) == ItemOf(heap[x])
  {
    var chain := chains[index];
    var previous := if chain == [] then None else Some(chain[|chain| - 1]);
    var linked := InsertInBucket(c, heap, h.store.buckets, chains, index, h.first, h.last, order, newId, it);
    var appended := AppendKeepsBuckets(c, linked.0, linked.1, chains[index := chain + [newId]], h.first, h.last, order, newId);
    r := InsertIs(c, h, heap, it.hashed, index, previous, it.key, it.value, newId, linked, appended);
  }

  /** The outcome of an insertion whose two links succeed. */
  lemma InsertIs(c: Config, h: RubyHash, heap: EHeap, hashed: int, index: int, previous: Option<Id>, key: Value, value: Value,
                 newId: Id, linked: (EHeap, AtomicArray<Id>), appended: (EHeap, Option<Id>))
    returns (r: BucketOutcome)
    requires h.store.BucketStore? && newId !in heap
    requires LinkInBucket(heap[newId := NewEntry(hashed, key, value)], h.store.buckets, index, previous, newId) == Ok(linked)
    requires newId in linked.0 && AppendInSequence(linked.0, h.first, h.last, newId) == Ok(appended)
    ensures Insert(c, h, heap, hashed, index, previous, key, value, newId) == Ok(r)
    ensures r.heap == appended.0 && r.hash.first == appended.1 && r.hash.last == Some(newId)
            && r.hash.store == BucketStore(linked.1)
  {
    var newSize := ToInt32(h.size + 1);
    r := BucketOutcome(value, h.(store := BucketStore(linked.1), size := newSize, first := appended.1, last := Some(newId)),
                       appended.0, OverLoaded(c, newSize, Length(linked.1)));
  }

  /** The new entry, linked at the end of its bucket's chain; the sequence, which does not hold
      it, is kept. */
  lemma InsertInBucket(c: Config, heap: EHeap, buckets: AtomicArray<Id>, chains: seq<seq<Id>>, index: nat,
                       first: Option<Id>, last: Option<Id>, order: seq<Id>, newId: Id, it: Item)
    returns (linked: (EHeap, AtomicArray<Id>))
    requires Valid(c) && Bucketed(c, heap, buckets, chains) && index < |chains|
    requires Rebuild.Sequence(EntryKind, heap, first, last, order)
    requires newId !in heap && c.bucketIndex(it.hashed, Length(buckets)) == index
    ensures var chain := chains[index];
      var previous := if chain == [] then None else Some(chain[|chain| - 1]);
      LinkInBucket(heap[newId := NewEntry(it.hashed, it.key, it.value)], buckets, index, previous, newId) == Ok(linked)
    ensures newId in linked.0 && ItemOf(linked.0[newId]) == it
            && NextInSequenceOf(linked.0[newId]).None? && PreviousInSequenceOf(linked.0[newId]).None?
    ensures Bucketed(c, linked.0, linked.1, chains[index := chains[index] + [newId]])
    ensures Rebuild.Sequence(EntryKind, linked.0, first, last, order) && newId !in order
    ensures forall x :: x in heap ==> x in linked.0 && ItemOf(linked.0[x]) == ItemOf(heap[x])
  {
    var heap1 := heap[newId := NewEntry(it.hashed, it.key, it.value)];
    assert forall b, x :: 0 <= b < |chains| && x in chains[b] ==> x in heap;
    BucketedFrame(c, heap, heap1, buckets, chains);
    LinkInBucketExtends(c, heap1, buckets, chains, index, newId);
    var chain := chains[index];
    linked := LinkInBucket(heap1, buckets, index, if chain == [] then None else Some(chain[|chain| - 1]), newId).value;
    SequenceAfterLink(heap, linked.0, first, last, order, newId);
  }

  /** Linking the new entry in its bucket keeps the sequence, which does not hold it. */
  lemma SequenceAfterLink(heap: EHeap, heap': EHeap, first: Option<Id>, last: Option<Id>, order: seq<Id>, newId: Id)
    requires Rebuild.Sequence(EntryKind, heap, first, last, order) && newId !in heap
    requires forall x :: x in heap ==>
               x in heap' && NextInSequenceOf(heap'[x]) == NextInSequenceOf(heap[x]) && PreviousInSequenceOf(heap'[x]) == PreviousInSequenceOf(heap[x])
    ensures Rebuild.Sequence(EntryKind, heap', first, last, order) && newId !in order
  {
    SequenceFrame(heap, heap', first, last, order);
    ChainMembers(heap, NextInSequenceOf, first, order);
  }

  /** Appending the new entry in the sequence keeps the buckets. */
  lemma AppendKeepsBuckets(c: Config, heap: EHeap, buckets: AtomicArray<Id>, chains: seq<seq<Id>>,
                           first: Option<Id>, last: Option<Id>, order: seq<Id>, newId: Id)
    returns (appended: (EHeap, Option<Id>))
    requires Bucketed(c, heap, buckets, chains) && Rebuild.Sequence(EntryKind, heap, first, last, order)
    requires newId in heap && newId !in order && NextInSequenceOf(heap[newId]).None? && PreviousInSequenceOf(heap[newId]).None?
    ensures AppendInSequence(heap, first, last, newId) == Ok(appended)
    ensures appended.0.Keys == heap.Keys
    ensures Rebuild.Sequence(EntryKind, appended.0, appended.1, Some(newId), order + [newId])
    ensures Bucketed(c, appended.0, buckets, chains)
    ensures forall x :: x in heap ==> ItemOf(appended.0[x]) == ItemOf(heap[x])
  {
    AppendInSequenceExtends(heap, first, last, order, newId);
    appended := AppendInSequence(heap, first, last, newId).value;
    assert forall x :: x in heap ==> HashedOf(appended.0[x]) == ItemOf(appended.0[x]).hashed;
    BucketedFrame(c, heap, appended.0, buckets, chains);
  }

  /** Entries whose hashes and lookup links stay keep the buckets as they were. */
  lemma BucketedFrame(c: Config, heap: EHeap, heap': EHeap, buckets: AtomicArray<Id>, chains: seq<seq<Id>>)
    requires Bucketed(c, heap, buckets, chains)
    requires forall x :: x in heap ==> x in heap' && HashedOf(heap'[x]) == HashedOf(heap[x]) && NextInLookupOf(heap'[x]) == NextInLookupOf(heap[x])
    ensures Bucketed(c, heap', buckets, chains)
  {
    forall b | 0 <= b < |chains|
      ensures Chain(heap', NextInLookupOf, buckets.slots[b], chains[b])
    {
      ChainMembers(heap, NextInLookupOf, buckets.slots[b], chains[b]);
      ChainFrame(heap, heap', NextInLookupOf, buckets.slots[b], chains[b]);
    }
  }

  /** Entries whose sequence links stay keep the sequence as it was. */
  lemma SequenceFrame(heap: EHeap, heap': EHeap, first: Option<Id>, last: Option<Id>, order: seq<Id>)
    requires Rebuild.Sequence(EntryKind, heap, first, last, order)
    requires forall x :: x in heap ==> x in heap' && NextInSequenceOf(heap'[x]) == NextInSequenceOf(heap[x])
                                       && PreviousInSequenceOf(heap'[x]) == PreviousInSequenceOf(heap[x])
    ensures Rebuild.Sequence(EntryKind, heap', first, last, order)
  {
    ChainMembers(heap, NextInSequenceOf, first, order);
    ChainFrame(heap, heap', NextInSequenceOf, first, order);
  }

  /** With the key in its bucket's chain, `setBuckets` returns or replaces the value of the
      first entry holding it. */
  lemma SetBucketsFound(c: Config, h: RubyHash, heap: EHeap, key: Value, value: Value, byIdentity: bool, onlyIfAbsent: bool,
                          newId: Id, chain: seq<Id>)
    requires Valid(c) && h.store.BucketStore? && Length(h.store.buckets) > 0 && newId !in heap
    requires var index := c.bucketIndex(c.hashKey(key, byIdentity), Length(h.store.buckets));
      0 <= index < Length(h.store.buckets) && Chain(heap, NextInLookupOf, h.store.buckets.slots[index], chain)
    requires (forall x :: x in chain ==> x in heap)
      && FirstMatch(c, EntryKind, heap, byIdentity, key, c.hashKey(key, byIdentity), chain) < |chain|
    ensures var e := chain[FirstMatch(c, EntryKind, heap, byIdentity, key, c.hashKey(key, byIdentity), chain)];
      var r := SetBuckets(c, h, heap, key, value, byIdentity, onlyIfAbsent, newId);
      e in heap && r.Ok? && r.value.hash == h && !r.value.resize
      && (onlyIfAbsent ==> r.value.returned == heap[e].value && r.value.heap == heap)
      && (!onlyIfAbsent ==> r.value.returned == value && r.value.heap == heap[e := Apply(heap[e], WriteValue(value))])
  {
    LookupEntryFinds(c, EntryKind, heap, h.store.buckets, key, byIdentity, chain);
  }

  /** Replacing the value of one entry keeps the sequence and every bucket's chain. */
  lemma ValueWriteKeeps(c: Config, heap: EHeap, e: Id, value: Value, buckets: AtomicArray<Id>, chains: seq<seq<Id>>,
                        first: Option<Id>, last: Option<Id>, order: seq<Id>)
    requires e in heap && Bucketed(c, heap, buckets, chains) && Rebuild.Sequence(EntryKind, heap, first, last, order)
    ensures var heap' := heap[e := Apply(heap[e], WriteValue(value))];
      Bucketed(c, heap', buckets, chains) && Rebuild.Sequence(EntryKind, heap', first, last, order)
      && ItemOf(heap'[e]).value == value
      && forall x :: x in heap && x != e ==> heap'[x] == heap[x]
  {
    var heap' := heap[e := Apply(heap[e], WriteValue(value))];
    BucketedFrame(c, heap, heap', buckets, chains);
    SequenceFrame(heap, heap', first, last, order);
  }
}
