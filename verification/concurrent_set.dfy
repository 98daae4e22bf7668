/** `SetNode` on a concurrent hash, one thread at a time. The key is looked up with `doLookup`;
    an absent key gets a new entry, swung into the head of its bucket by a compare-and-set and
    spliced into the insertion-order sequence just before the tail sentinel; the size grows by
    one and the buckets are resized when the load passes three quarters. A present key has its
    value replaced, unless the set is only-if-absent. */
module ConcurrentSets {
  import opened Values
  import opened Links
  import opened AtomicArrays
  import opened HashConfig
  import opened ConcurrentEntries
  import opened ConcurrentHashes
  import opened HashState
  import opened Lookup
  import opened ConcurrentBuckets
  import Rebuild

  /** What `setConcurrent` leaves: the value it returns, the hash and its entries. */
  datatype ConcurrentOutcome = ConcurrentOutcome(returned: Value, hash: RubyHash, heap: CHeap)

  /** The resize test of `setConcurrent`: four times the new size above three times the bucket
      count, both products Java ints. */
  predicate NeedsResize(newSize: int, bucketsCount: int) {
    ToInt32(newSize * 4) > ToInt32(bucketsCount * 3)
  }

  /** The splice of the new entry before the sentinel `sentinelLast`: the entry before the
      sentinel becomes the new entry's predecessor, its next link swings from the sentinel to
      the new entry, and the sentinel's previous link from it to the new entry. A null sentinel
      or predecessor is dereferenced; a failed swing of the next link retries forever with the
      same predecessor, and a failed swing of the previous link fails its assertion. */
  function SpliceBeforeSentinel(heap: CHeap, sentinelLast: Option<Id>, newId: Id): (r: Result<CHeap>)
    ensures r.Ok? ==> r.value.Keys == heap.Keys
    ensures r.Ok? ==> forall x :: x in heap ==> ItemOf(r.value[x]) == ItemOf(heap[x]) && r.value[x].nextInLookup == heap[x].nextInLookup
    ensures sentinelLast.None? ==> r == Raise(NullPointer)
  {
    if sentinelLast.None? then Raise(NullPointer)
    else
      var tail := sentinelLast.value;
      if tail !in heap then Raise(Stuck)
      else
        var last := heap[tail].previousInSequence;
        var h1 :- SetLink(heap, newId, WritePreviousInSequence(last));
        if last.None? then Raise(NullPointer)
        else if last.value !in h1 then Raise(Stuck)
        else
          var next :- CompareAndSetNextInSequence(h1[last.value], sentinelLast, Some(newId));
          if !next.0 then Raise(Stuck)
          else
            var h2 := h1[last.value := next.1];
            var previous :- CompareAndSetPreviousInSequence(h2[tail], last, Some(newId));
            if !previous.0 then Raise(AssertionFailure)
            else Ok(h2[tail := previous.1])
  }

  /** The new entry of an insertion: unpublished, holding the key's hash, the key and the
      value, its lookup link to the bucket head and its sequence link to the sentinel. */
  function InsertedEntry(hashed: int, key: Value, value: Value, firstEntry: Option<Id>, sentinelLast: Option<Id>): (e: CEntry)
    ensures ItemOf(e) == Item(hashed, key, value) && !e.removed && !e.published
    ensures e.nextInLookup == firstEntry && e.nextInSequence == sentinelLast && e.previousInSequence.None?
  {
    DataEntry(hashed, key, value, false).(nextInLookup := firstEntry, nextInSequence := sentinelLast)
  }

  /** The links of an insertion: a new unpublished entry at `newId`, linked to the bucket head
      `firstEntry` and to `sentinelLast`, swung into bucket `index` when that still holds
      `firstEntry` (a failed swing retries the whole set, which one thread never needs, so it
      is Stuck here), then spliced before the sentinel. */
  function LinkNew(heap: CHeap, buckets: AtomicArray<Id>, hashed: int, index: int, firstEntry: Option<Id>, sentinelLast: Option<Id>,
                   key: Value, value: Value, newId: Id): (r: Result<(CHeap, AtomicArray<Id>)>)
    requires newId !in heap
    ensures Get(buckets, index) != Ok(firstEntry) ==> r.Raise?
    ensures Get(buckets, index) == Ok(firstEntry) && sentinelLast.None? ==> r == Raise(NullPointer)
    ensures r.Ok? ==> r.value.0.Keys == heap.Keys + {newId} && Length(r.value.1) == Length(buckets)
    ensures r.Ok? ==> r.value.1.slots == buckets.slots[index := Some(newId)]
    ensures r.Ok? ==> ItemOf(r.value.0[newId]) == Item(hashed, key, value) && r.value.0[newId].nextInLookup == firstEntry
  {
    var cas :- CompareAndSet(buckets, index, firstEntry, Some(newId));
    if !cas.0 then Raise(Stuck)
    else
      var spliced :- SpliceBeforeSentinel(heap[newId := InsertedEntry(hashed, key, value, firstEntry, sentinelLast)], sentinelLast, newId);
      Ok((spliced, cas.1))
  }

  /** The end of an insertion: the size grows by one, and the buckets are resized when the new
      size calls for it. */
  function Grow(c: Config, h: RubyHash, heap: CHeap, buckets: AtomicArray<Id>, value: Value): (r: Result<ConcurrentOutcome>)
    requires h.store.ConcurrentStore?
    ensures r.Ok? ==> r.value.heap.Keys == heap.Keys && r.value.returned == value
    ensures r.Ok? ==> IsConcurrent(r.value.hash) && r.value.hash.size == ToInt32(h.size + 1)
                      && r.value.hash.store.hash.head == h.store.hash.head && r.value.hash.store.hash.tail == h.store.hash.tail
    ensures r.Ok? ==> r.value.hash.compareByIdentity == h.compareByIdentity && r.value.hash.shared == h.shared
    ensures !NeedsResize(ToInt32(h.size + 1), Length(buckets)) ==>
              r == Ok(ConcurrentOutcome(value, h.(store := ConcurrentStore(SetBuckets(h.store.hash, buckets)), size := ToInt32(h.size + 1)), heap))
  {
    var newSize := ToInt32(h.size + 1);
    var ch := SetBuckets(h.store.hash, buckets);
    if NeedsResize(newSize, Length(buckets)) then
      var resized :- Resize(c, heap, ch, newSize);
      Ok(ConcurrentOutcome(value, h.(store := ConcurrentStore(resized.1), size := newSize), resized.0))
    else Ok(ConcurrentOutcome(value, h.(store := ConcurrentStore(ch), size := newSize), heap))
  }

  /** The insertion branch of `setConcurrent`: the links of the new entry, then the growth. */
  function Insert(c: Config, h: RubyHash, heap: CHeap, hashed: int, index: int, firstEntry: Option<Id>, sentinelLast: Option<Id>,
                  key: Value, value: Value, newId: Id): (r: Result<ConcurrentOutcome>)
    requires h.store.ConcurrentStore? && newId !in heap
    ensures r.Ok? ==> r.value.heap.Keys == heap.Keys + {newId} && r.value.returned == value
    ensures r.Ok? ==> IsConcurrent(r.value.hash) && r.value.hash.size == ToInt32(h.size + 1)
                      && r.value.hash.store.hash.head == h.store.hash.head && r.value.hash.store.hash.tail == h.store.hash.tail
    ensures r.Ok? ==> r.value.hash.compareByIdentity == h.compareByIdentity && r.value.hash.shared == h.shared
  {
    var linked :- LinkNew(heap, h.store.hash.buckets, hashed, index, firstEntry, sentinelLast, key, value, newId);
    Grow(c, h, linked.0, linked.1, value)
  }

  /** The found branch of `setConcurrent` on the entry `e`: the entry's value for an
      only-if-absent set, the value written otherwise. */
  function Found(h: RubyHash, heap: CHeap, e: Id, value: Value, onlyIfAbsent: bool): (r: ConcurrentOutcome)
    requires e in heap
    ensures r.hash == h && r.heap.Keys == heap.Keys
    ensures onlyIfAbsent ==> r.returned == heap[e].value && r.heap == heap
    ensures !onlyIfAbsent ==> r.returned == value && r.heap[e].value == value
                              && forall x :: x in heap && x != e ==> r.heap[x] == heap[x]
  {
    if onlyIfAbsent then ConcurrentOutcome(heap[e].value, h, heap)
    else ConcurrentOutcome(value, h, heap[e := Apply(heap[e], WriteValue(value)).value])
  }

  /** `setConcurrent`: `doLookup` with the hash's own key comparison, then the insertion of a
      new entry at the identity `newId` spliced before the tail sentinel, or the found entry's
      value returned or replaced. */
  function SetConcurrent(c: Config, h: RubyHash, heap: CHeap, key: Value, value: Value, onlyIfAbsent: bool, newId: Id)
    : (r: Result<ConcurrentOutcome>)
    requires h.store.ConcurrentStore? && newId !in heap
    ensures r.Ok? ==> IsConcurrent(r.value.hash) && r.value.hash.store.hash.head == h.store.hash.head
                      && r.value.hash.store.hash.tail == h.store.hash.tail
    ensures r.Ok? ==> heap.Keys <= r.value.heap.Keys <= heap.Keys + {newId}
    ensures r.Ok? ==> r.value.hash.compareByIdentity == h.compareByIdentity && r.value.hash.shared == h.shared
    ensures r.Ok? && !onlyIfAbsent ==> r.value.returned == value
  {
    var ch := h.store.hash;
    var result :- DoLookup(c, PublishedKind, heap, ch.buckets, key, h.compareByIdentity);
    match result.entry
    case None => Insert(c, h, heap, result.hashed, result.index, result.previous, Some(ch.tail), key, value, newId)
    case Some(e) => Ok(Found(h, heap, e, value, onlyIfAbsent))
  }

  /** `setConcurrent` as the source writes it: the sentinel of the splice is the hash's own last
      entry rather than its store's tail sentinel. */
  function SetConcurrentAsWritten(c: Config, h: RubyHash, heap: CHeap, key: Value, value: Value, onlyIfAbsent: bool, newId: Id)
    : (r: Result<ConcurrentOutcome>)
    requires h.store.ConcurrentStore? && newId !in heap
    ensures r.Ok? ==> IsConcurrent(r.value.hash) && r.value.hash.store.hash.head == h.store.hash.head
                      && r.value.hash.store.hash.tail == h.store.hash.tail
    ensures r.Ok? ==> heap.Keys <= r.value.heap.Keys <= heap.Keys + {newId}
    ensures r.Ok? ==> r.value.hash.compareByIdentity == h.compareByIdentity && r.value.hash.shared == h.shared
    ensures r.Ok? && !onlyIfAbsent ==> r.value.returned == value
  {
    var ch := h.store.hash;
    var result :- DoLookup(c, PublishedKind, heap, ch.buckets, key, h.compareByIdentity);
    match result.entry
    case None => Insert(c, h, heap, result.hashed, result.index, result.previous, h.last, key, value, newId)
    case Some(e) => Ok(Found(h, heap, e, value, onlyIfAbsent))
  }

  /** The two differ only in the splice point: when the hash's own last entry is its store's
      tail sentinel, the code as written is the corrected one. */
  lemma AsWrittenAgreesWithTailLast(c: Config, h: RubyHash, heap: CHeap, key: Value, value: Value, onlyIfAbsent: bool, newId: Id)
    requires h.store.ConcurrentStore? && newId !in heap && h.last == Some(h.store.hash.tail)
    ensures SetConcurrentAsWritten(c, h, heap, key, value, onlyIfAbsent, newId) == SetConcurrent(c, h, heap, key, value, onlyIfAbsent, newId)
  {
  }

  /** The entry before the tail of a linked hash: the last of `order`, or the head. */
  function LastBeforeTail(h: CHash, order: seq<Id>): Id {
    if order == [] then h.head else order[|order| - 1]
  }

  /** On a linked hash, splicing a new entry that points at the tail, when the entry before the
      tail is not a removed marker, links the sequence through the new entry just before the
      tail, and writes sequence links only. */
  lemma SpliceAppends(heap: CHeap, h: CHash, order: seq<Id>, newId: Id)
    requires Linked(heap, h, order)
    requires newId in heap && newId !in [h.head] + order + [h.tail]
    requires !heap[newId].removed && heap[newId].nextInSequence == Some(h.tail)
    requires LastBeforeTail(h, order) in heap && !heap[LastBeforeTail(h, order)].removed
    ensures var r := SpliceBeforeSentinel(heap, Some(h.tail), newId);
      r.Ok? && Linked(r.value, h, order + [newId]) && OnlySequenceChanged(heap, r.value)
      && r.value[newId].previousInSequence == Some(LastBeforeTail(h, order))
  {
    var s := [h.head] + order + [h.tail];
    var last := LastBeforeTail(h, order);
    ChainMembers(heap, NextInSequenceOf, Some(h.head), s);
    ChainDistinct(heap, NextInSequenceOf, Some(h.head), s);
    assert s[|s| - 2] == last && s[|s| - 1] == h.tail;
    assert last != h.tail && last != newId;
    ChainSuffix(heap, NextInSequenceOf, Some(h.head), s, |s| - 2);
    assert s[|s| - 2..] == [last, h.tail];
    assert heap[last].nextInSequence == Some(h.tail);
    assert heap[h.tail].previousInSequence == Some(last);
    var h1 := heap[newId := heap[newId].(previousInSequence := Some(last))];
    var h2 := h1[last := h1[last].(nextInSequence := Some(newId))];
    var h3 := h2[h.tail := h2[h.tail].(previousInSequence := Some(newId))];
    assert SpliceBeforeSentinel(heap, Some(h.tail), newId) == Ok(h3);
    SpliceLinks(heap, h3, h, order, newId);
  }

  /** `heap'` is `heap` with the three writes of a splice of `newId` between `last` and
      `tail`. */
  ghost predicate Spliced(heap: CHeap, heap': CHeap, last: Id, newId: Id, tail: Id) {
    heap'.Keys == heap.Keys && last in heap && newId in heap && tail in heap
    && heap'[newId] == heap[newId].(previousInSequence := Some(last))
    && heap'[last] == heap[last].(nextInSequence := Some(newId))
    && heap'[tail] == heap[tail].(previousInSequence := Some(newId))
    && forall x :: x in heap && x != newId && x != last && x != tail ==> heap'[x] == heap[x]
  }

  /** The links the splice leaves make the sequence run through the new entry. */
  lemma SpliceLinks(heap: CHeap, heap': CHeap, h: CHash, order: seq<Id>, newId: Id)
    requires Linked(heap, h, order)
    requires newId in heap && newId !in [h.head] + order + [h.tail] && heap[newId].nextInSequence == Some(h.tail)
    requires Spliced(heap, heap', LastBeforeTail(h, order), newId, h.tail)
    ensures Linked(heap', h, order + [newId]) && OnlySequenceChanged(heap, heap')
  {
    var s := [h.head] + order + [h.tail];
    ChainMembers(heap, NextInSequenceOf, Some(h.head), s);
    ChainDistinct(heap, NextInSequenceOf, Some(h.head), s);
    SpliceChain(heap, heap', h, order, newId);
    SplicePrevious(heap, heap', h, order, newId);
    SplicedOnlySequence(heap, heap', LastBeforeTail(h, order), newId, h.tail);
    LinkedOfLinks(heap', h, order + [newId]);
  }

  /** A splice writes sequence links only. */
  lemma SplicedOnlySequence(heap: CHeap, heap': CHeap, last: Id, newId: Id, tail: Id)
    requires Spliced(heap, heap', last, newId, tail)
    ensures OnlySequenceChanged(heap, heap')
  {
  }

  /** A chain from the head through `order` to the tail, with matching previous links and
      sentinels that are not removed markers, is a linked hash. */
  lemma LinkedOfLinks(heap: CHeap, h: CHash, order: seq<Id>)
    requires var s := [h.head] + order + [h.tail];
      Chain(heap, NextInSequenceOf, Some(h.head), s) && h.head in heap && PreviousInSequenceOf(heap[h.head]).None?
      && (forall i :: 0 < i < |s| ==> s[i] in heap && PreviousInSequenceOf(heap[s[i]]) == Some(s[i - 1]))
    requires h.head in heap && h.tail in heap && !heap[h.head].removed && !heap[h.tail].removed
    ensures Linked(heap, h, order)
  {
    var s := [h.head] + order + [h.tail];
    assert forall i :: 0 <= i < |s| ==> s[i] in heap by {
      forall i | 0 <= i < |s| ensures s[i] in heap {
        if i > 0 {
          assert s[i] in heap;
        }
      }
    }
  }

  lemma SpliceChain(heap: CHeap, heap': CHeap, h: CHash, order: seq<Id>, newId: Id)
    requires Linked(heap, h, order) && Distinct([h.head] + order + [h.tail])
    requires newId !in [h.head] + order + [h.tail]
    requires Spliced(heap, heap', LastBeforeTail(h, order), newId, h.tail) && heap[newId].nextInSequence == Some(h.tail)
    ensures Chain(heap', NextInSequenceOf, Some(h.head), [h.head] + (order + [newId]) + [h.tail])
  {
    var s := [h.head] + order + [h.tail];
    var last := LastBeforeTail(h, order);
    assert s[|s| - 2] == last;
    forall i | 0 <= i < |s|
      ensures s[i] in heap && s[i] in heap'
      ensures NextInSequenceOf(heap'[s[i]]) == if i == |s| - 2 then Some(newId) else NextInSequenceOf(heap[s[i]])
    {
      assert s[i] != newId;
      assert s[i] == last <==> i == |s| - 2;
    }
    ChainInsertBeforeLast(heap, heap', NextInSequenceOf, Some(h.head), s, newId);
    assert s[..|s| - 1] + [newId] + [s[|s| - 1]] == [h.head] + (order + [newId]) + [h.tail];
  }

  lemma SplicePrevious(heap: CHeap, heap': CHeap, h: CHash, order: seq<Id>, newId: Id)
    requires Linked(heap, h, order) && Distinct([h.head] + order + [h.tail])
    requires newId !in [h.head] + order + [h.tail]
    requires Spliced(heap, heap', LastBeforeTail(h, order), newId, h.tail)
    ensures var s' := [h.head] + (order + [newId]) + [h.tail];
      PreviousInSequenceOf(heap'[h.head]).None?
      && forall i :: 0 < i < |s'| ==> s'[i] in heap' && PreviousInSequenceOf(heap'[s'[i]]) == Some(s'[i - 1])
  {
    var s := [h.head] + order + [h.tail];
    var s' := [h.head] + (order + [newId]) + [h.tail];
    forall i | 0 < i < |s'|
      ensures s'[i] in heap' && PreviousInSequenceOf(heap'[s'[i]]) == Some(s'[i - 1])
    {
      if i < |s| - 1 {
        assert s'[i] == s[i] && s'[i - 1] == s[i - 1];
        assert s[i] != h.tail;
      }
    }
  }

  /** Adding an entry outside a linked hash keeps it linked. */
  lemma LinkedAdd(heap: CHeap, h: CHash, order: seq<Id>, newId: Id, e: CEntry)
    requires Linked(heap, h, order) && newId !in heap
    ensures Linked(heap[newId := e], h, order)
    ensures forall x :: x in [h.head] + order + [h.tail] ==> x in heap
  {
    var s := [h.head] + order + [h.tail];
    ChainMembers(heap, NextInSequenceOf, Some(h.head), s);
    ChainFrame(heap, heap[newId := e], NextInSequenceOf, Some(h.head), s);
  }

  /** The lookup links of the entries already present stay, so every bucket's chain stays, and
      the bucket swung to the new entry, which links to the old head, chains it first. */
  lemma ChainsAfterInsert(heap: CHeap, heap': CHeap, buckets: AtomicArray<Id>, chains: seq<seq<Id>>, index: int, newId: Id)
    requires Rebuild.Chains(PublishedKind, heap, buckets, chains) && 0 <= index < |chains|
    requires newId !in heap && newId in heap' && heap'[newId].nextInLookup == buckets.slots[index]
    requires forall x :: x in heap ==> x in heap' && heap'[x].nextInLookup == heap[x].nextInLookup
    ensures Rebuild.Chains(PublishedKind, heap', AtomicArray(buckets.slots[index := Some(newId)]), chains[index := [newId] + chains[index]])
  {
    var buckets' := AtomicArray(buckets.slots[index := Some(newId)]);
    var chains' := chains[index := [newId] + chains[index]];
    forall b | 0 <= b < |chains'|
      ensures Chain(heap', NextInLookupOf, buckets'.slots[b], chains'[b])
    {
      assert Chain(heap, NextInLookupOf, buckets.slots[b], chains[b]);
      ChainMembers(heap, NextInLookupOf, buckets.slots[b], chains[b]);
      ChainFrame(heap, heap', NextInLookupOf, buckets.slots[b], chains[b]);
      if b == index {
        assert chains'[b][1..] == chains[b];
      }
    }
  }

  /** On a linked hash whose buckets chain as `chains`, the new entry swung into the head of
      bucket `index` and spliced before the tail: the sequence runs through it last, and its
      bucket chains it ahead of the old chain. */
  lemma SpliceStep(h: CHash, heap: CHeap, order: seq<Id>, chains: seq<seq<Id>>, index: int, newId: Id, hashed: int, key: Value, value: Value)
    requires Linked(heap, h, order) && Rebuild.Chains(PublishedKind, heap, h.buckets, chains) && 0 <= index < |chains|
    requires newId !in heap && LastBeforeTail(h, order) in heap && !heap[LastBeforeTail(h, order)].removed
    ensures var heap1 := heap[newId := InsertedEntry(hashed, key, value, h.buckets.slots[index], Some(h.tail))];
      var r := SpliceBeforeSentinel(heap1, Some(h.tail), newId);
      r.Ok? && Linked(r.value, h, order + [newId]) && OnlySequenceChanged(heap1, r.value)
      && Rebuild.Chains(PublishedKind, r.value, AtomicArray(h.buckets.slots[index := Some(newId)]), chains[index := [newId] + chains[index]])
  {
    var entry := InsertedEntry(hashed, key, value, h.buckets.slots[index], Some(h.tail));
    var heap1 := heap[newId := entry];
    LinkedAdd(heap, h, order, newId, entry);
    SpliceAppends(heap1, h, order, newId);
    var spliced := SpliceBeforeSentinel(heap1, Some(h.tail), newId).value;
    ChainsAfterInsert(heap, spliced, h.buckets, chains, index, newId);
  }

  /** An insertion that does not call for a resize: the new entry holds the item and ends the
      sequence, its bucket chains it first, every other entry keeps its item, and the size grows
      by one. */
  lemma InsertWithoutResize(c: Config, h: RubyHash, heap: CHeap, order: seq<Id>, chains: seq<seq<Id>>, index: int, newId: Id,
                            hashed: int, key: Value, value: Value) returns (r: ConcurrentOutcome)
    requires IsConcurrent(h)
    requires var ch := h.store.hash;
      Linked(heap, ch, order) && Rebuild.Chains(PublishedKind, heap, ch.buckets, chains) && 0 <= index < |chains|
      && newId !in heap && LastBeforeTail(ch, order) in heap && !heap[LastBeforeTail(ch, order)].removed
    requires !NeedsResize(ToInt32(h.size + 1), Length(h.store.hash.buckets))
    ensures var ch := h.store.hash;
      Insert(c, h, heap, hashed, index, ch.buckets.slots[index], Some(ch.tail), key, value, newId) == Ok(r)
    ensures r.returned == value && r.hash.size == ToInt32(h.size + 1) && IsConcurrent(r.hash)
    ensures Linked(r.heap, r.hash.store.hash, order + [newId])
    ensures Rebuild.Chains(PublishedKind, r.heap, r.hash.store.hash.buckets, chains[index := [newId] + chains[index]])
    ensures newId in r.heap && ItemOf(r.heap[newId]) == Item(hashed, key, value)
    ensures forall x :: x in heap ==> x in r.heap && ItemOf(r.heap[x]) == ItemOf(heap[x])
  {
    var ch := h.store.hash;
    var spliced, buckets := LinkNewFacts(h, heap, order, chains, index, newId, hashed, key, value);
    InsertIsGrow(c, h, heap, hashed, index, ch.buckets.slots[index], Some(ch.tail), key, value, newId, spliced, buckets);
    r := GrowWithoutResize(c, h, spliced, buckets, value);
    assert Linked(spliced, r.hash.store.hash, order + [newId]);
  }

  /** An insertion whose links succeed goes on to grow. */
  lemma InsertIsGrow(c: Config, h: RubyHash, heap: CHeap, hashed: int, index: int, firstEntry: Option<Id>, sentinelLast: Option<Id>,
                     key: Value, value: Value, newId: Id, spliced: CHeap, buckets: AtomicArray<Id>)
    requires h.store.ConcurrentStore? && newId !in heap
    requires LinkNew(heap, h.store.hash.buckets, hashed, index, firstEntry, sentinelLast, key, value, newId) == Ok((spliced, buckets))
    ensures Insert(c, h, heap, hashed, index, firstEntry, sentinelLast, key, value, newId) == Grow(c, h, spliced, buckets, value)
  {
  }

  /** Growing within the load limit only installs the buckets and the new size. */
  lemma GrowWithoutResize(c: Config, h: RubyHash, heap: CHeap, buckets: AtomicArray<Id>, value: Value) returns (r: ConcurrentOutcome)
    requires h.store.ConcurrentStore? && !NeedsResize(ToInt32(h.size + 1), Length(buckets))
    ensures Grow(c, h, heap, buckets, value) == Ok(r)
    ensures r.returned == value && r.heap == heap && r.hash.size == ToInt32(h.size + 1)
    ensures r.hash.store == ConcurrentStore(SetBuckets(h.store.hash, buckets))
  {
    r := ConcurrentOutcome(value, h.(store := ConcurrentStore(SetBuckets(h.store.hash, buckets)), size := ToInt32(h.size + 1)), heap);
  }

  /** An insertion that calls for a resize, on a hash whose removed markers are spaced and with a
      positive bucket count for the new size: the sequence still runs through the new entry
      last, the buckets number `BucketsCount(newSize)`, and only lookup links change after the
      splice. */
  lemma InsertWithResize(c: Config, h: RubyHash, heap: CHeap, order: seq<Id>, chains: seq<seq<Id>>, index: int, newId: Id,
                         hashed: int, key: Value, value: Value)
    requires Valid(c) && IsConcurrent(h)
    requires var ch := h.store.hash;
      Linked(heap, ch, order) && Rebuild.Chains(PublishedKind, heap, ch.buckets, chains) && 0 <= index < |chains|
      && newId !in heap && LastBeforeTail(ch, order) in heap && !heap[LastBeforeTail(ch, order)].removed
      && Spaced(heap, order + [ch.tail])
    requires NeedsResize(ToInt32(h.size + 1), Length(h.store.hash.buckets)) && BucketsCount(c, ToInt32(h.size + 1)) > 0
    ensures var ch := h.store.hash;
      var r := Insert(c, h, heap, hashed, index, ch.buckets.slots[index], Some(ch.tail), key, value, newId);
      r.Ok? && r.value.returned == value && r.value.hash.size == ToInt32(h.size + 1)
      && Linked(r.value.heap, r.value.hash.store.hash, order + [newId])
      && Spaced(r.value.heap, order + [newId] + [ch.tail])
      && Length(r.value.hash.store.hash.buckets) == BucketsCount(c, ToInt32(h.size + 1))
      && ItemOf(r.value.heap[newId]) == Item(hashed, key, value)
      && forall x :: x in heap ==> ItemOf(r.value.heap[x]) == ItemOf(heap[x])
  {
    var ch := h.store.hash;
    var newSize := ToInt32(h.size + 1);
    var spliced, buckets := LinkNewFacts(h, heap, order, chains, index, newId, hashed, key, value);
    var ch1 := SetBuckets(ch, buckets);
    ResizeKeeps(c, spliced, ch1, order + [newId], newSize);
    GrowResizes(c, h, spliced, buckets, value);
  }

  /** The links of an insertion into a linked hash, as `LinkNew` leaves them. */
  lemma LinkNewFacts(h: RubyHash, heap: CHeap, order: seq<Id>, chains: seq<seq<Id>>, index: int, newId: Id,
                     hashed: int, key: Value, value: Value) returns (spliced: CHeap, buckets: AtomicArray<Id>)
    requires IsConcurrent(h)
    requires var ch := h.store.hash;
      Linked(heap, ch, order) && Rebuild.Chains(PublishedKind, heap, ch.buckets, chains) && 0 <= index < |chains|
      && newId !in heap && LastBeforeTail(ch, order) in heap && !heap[LastBeforeTail(ch, order)].removed
    ensures var ch := h.store.hash;
      LinkNew(heap, ch.buckets, hashed, index, ch.buckets.slots[index], Some(ch.tail), key, value, newId) == Ok((spliced, buckets))
      && Length(buckets) == Length(ch.buckets) && spliced.Keys == heap.Keys + {newId}
      && Linked(spliced, ch, order + [newId])
      && Rebuild.Chains(PublishedKind, spliced, buckets, chains[index := [newId] + chains[index]])
      && (Spaced(heap, order + [ch.tail]) ==> Spaced(spliced, order + [newId] + [ch.tail]))
      && ItemOf(spliced[newId]) == Item(hashed, key, value)
      && forall x :: x in heap ==> ItemOf(spliced[x]) == ItemOf(heap[x])
  {
    var ch := h.store.hash;
    SpliceStep(ch, heap, order, chains, index, newId, hashed, key, value);
    var heap1 := heap[newId := InsertedEntry(hashed, key, value, ch.buckets.slots[index], Some(ch.tail))];
    spliced := SpliceBeforeSentinel(heap1, Some(ch.tail), newId).value;
    buckets := AtomicArray(ch.buckets.slots[index := Some(newId)]);
    if Spaced(heap, order + [ch.tail]) {
      SpacedAfterSplice(heap, spliced, order, newId, ch.tail);
    }
  }

  /** Growing past the load limit installs what `resize` leaves. */
  lemma GrowResizes(c: Config, h: RubyHash, heap: CHeap, buckets: AtomicArray<Id>, value: Value)
    requires h.store.ConcurrentStore? && NeedsResize(ToInt32(h.size + 1), Length(buckets))
    requires Resize(c, heap, SetBuckets(h.store.hash, buckets), ToInt32(h.size + 1)).Ok?
    ensures var resized := Resize(c, heap, SetBuckets(h.store.hash, buckets), ToInt32(h.size + 1)).value;
      Grow(c, h, heap, buckets, value)
        == Ok(ConcurrentOutcome(value, h.(store := ConcurrentStore(resized.1), size := ToInt32(h.size + 1)), resized.0))
  {
  }

  /** What an insertion needs of `resize`: it succeeds, keeps the sequence, the spacing and
      every item, and installs `BucketsCount(newSize)` buckets. */
  lemma ResizeKeeps(c: Config, heap: CHeap, h: CHash, order: seq<Id>, newSize: int)
    requires Valid(c) && Linked(heap, h, order) && Spaced(heap, order + [h.tail]) && BucketsCount(c, newSize) > 0
    ensures var r := Resize(c, heap, h, newSize);
      r.Ok? && Linked(r.value.0, r.value.1, order) && Spaced(r.value.0, order + [h.tail])
      && Length(r.value.1.buckets) == BucketsCount(c, newSize)
      && r.value.0.Keys == heap.Keys && forall x :: x in heap ==> ItemOf(r.value.0[x]) == ItemOf(heap[x])
  {
    ResizeRehashes(c, heap, h, order, newSize);
  }

  /** Splicing an entry that is not a removed marker keeps the markers spaced. */
  lemma SpacedAfterSplice(heap: CHeap, heap': CHeap, order: seq<Id>, newId: Id, tail: Id)
    requires Spaced(heap, order + [tail]) && newId in heap' && !heap'[newId].removed
    requires forall x :: x in heap ==> x in heap' && heap'[x].removed == heap[x].removed
    ensures Spaced(heap', order + [newId] + [tail])
  {
    var s := order + [tail];
    var s' := order + [newId] + [tail];
    assert forall i :: 0 <= i < |s| ==> s[i] in heap;
    forall i | 0 <= i < |s'| - 1
      ensures !(heap'[s'[i]].removed && heap'[s'[i + 1]].removed)
    {
      if i < |order| - 1 {
        assert s'[i] == s[i] && s'[i + 1] == s[i + 1];
      }
    }
  }

  /** With the key absent from its bucket's chain, `setConcurrent` inserts with the bucket head
      as the expected head and the tail sentinel as the splice point. */
  lemma SetConcurrentInserts(c: Config, h: RubyHash, heap: CHeap, key: Value, value: Value, onlyIfAbsent: bool, newId: Id, chain: seq<Id>)
    requires Valid(c) && IsConcurrent(h) && Length(h.store.hash.buckets) > 0 && newId !in heap
    requires var buckets := h.store.hash.buckets;
      var index := c.bucketIndex(c.hashKey(key, h.compareByIdentity), Length(buckets));
      0 <= index < Length(buckets) && Chain(heap, NextInLookupOf, buckets.slots[index], chain)
    requires (forall x :: x in chain ==> x in heap)
      && FirstMatch(c, PublishedKind, heap, h.compareByIdentity, key, c.hashKey(key, h.compareByIdentity), chain) == |chain|
    ensures var ch := h.store.hash;
      var hashed := c.hashKey(key, h.compareByIdentity);
      var index := c.bucketIndex(hashed, Length(ch.buckets));
      SetConcurrent(c, h, heap, key, value, onlyIfAbsent, newId)
        == Insert(c, h, heap, hashed, index, ch.buckets.slots[index], Some(ch.tail), key, value, newId)
  {
    DoLookupFinds(c, PublishedKind, heap, h.store.hash.buckets, key, h.compareByIdentity, chain);
  }

  /** With the key in its bucket's chain, `setConcurrent` takes the found branch on the first
      entry holding it. */
  lemma SetConcurrentFound(c: Config, h: RubyHash, heap: CHeap, key: Value, value: Value, onlyIfAbsent: bool, newId: Id, chain: seq<Id>)
    requires Valid(c) && IsConcurrent(h) && Length(h.store.hash.buckets) > 0 && newId !in heap
    requires var buckets := h.store.hash.buckets;
      var index := c.bucketIndex(c.hashKey(key, h.compareByIdentity), Length(buckets));
      0 <= index < Length(buckets) && Chain(heap, NextInLookupOf, buckets.slots[index], chain)
    requires (forall x :: x in chain ==> x in heap)
      && FirstMatch(c, PublishedKind, heap, h.compareByIdentity, key, c.hashKey(key, h.compareByIdentity), chain) < |chain|
    ensures var e := chain[FirstMatch(c, PublishedKind, heap, h.compareByIdentity, key, c.hashKey(key, h.compareByIdentity), chain)];
      e in heap && SetConcurrent(c, h, heap, key, value, onlyIfAbsent, newId) == Ok(Found(h, heap, e, value, onlyIfAbsent))
  {
    DoLookupFinds(c, PublishedKind, heap, h.store.hash.buckets, key, h.compareByIdentity, chain);
  }

  /** Replacing the value of one entry keeps the hash linked and every bucket's chain. */
  lemma ValueWriteKeeps(heap: CHeap, h: CHash, order: seq<Id>, chains: seq<seq<Id>>, e: Id, value: Value)
    requires e in heap && Linked(heap, h, order) && Rebuild.Chains(PublishedKind, heap, h.buckets, chains)
    ensures var heap' := heap[e := heap[e].(value := value)];
      Linked(heap', h, order) && Rebuild.Chains(PublishedKind, heap', h.buckets, chains)
  {
    var heap' := heap[e := heap[e].(value := value)];
    var s := [h.head] + order + [h.tail];
    ChainMembers(heap, NextInSequenceOf, Some(h.head), s);
    ChainFrame(heap, heap', NextInSequenceOf, Some(h.head), s);
    forall b | 0 <= b < |chains|
      ensures Chain(heap', NextInLookupOf, h.buckets.slots[b], chains[b])
    {
      assert Chain(heap, NextInLookupOf, h.buckets.slots[b], chains[b]);
      ChainMembers(heap, NextInLookupOf, h.buckets.slots[b], chains[b]);
      ChainFrame(heap, heap', NextInLookupOf, h.buckets.slots[b], chains[b]);
    }
  }

  /** As written, an insertion into a concurrent hash whose own last entry is null swings the
      new entry into its bucket and then dereferences the null sentinel, where splicing before
      the store's tail sentinel succeeds. */
  lemma AsWrittenDereferencesNullLast(c: Config, h: RubyHash, heap: CHeap, key: Value, value: Value, onlyIfAbsent: bool, newId: Id,
                                      order: seq<Id>, chains: seq<seq<Id>>)
    requires Valid(c) && IsConcurrent(h) && Length(h.store.hash.buckets) > 0 && newId !in heap && h.last.None?
    requires var ch := h.store.hash;
      Linked(heap, ch, order) && Rebuild.Chains(PublishedKind, heap, ch.buckets, chains)
      && LastBeforeTail(ch, order) in heap && !heap[LastBeforeTail(ch, order)].removed
    requires var ch := h.store.hash;
      var index := c.bucketIndex(c.hashKey(key, h.compareByIdentity), Length(ch.buckets));
      0 <= index < |chains| && (forall x :: x in chains[index] ==> x in heap)
      && FirstMatch(c, PublishedKind, heap, h.compareByIdentity, key, c.hashKey(key, h.compareByIdentity), chains[index]) == |chains[index]|
    requires !NeedsResize(ToInt32(h.size + 1), Length(h.store.hash.buckets))
    ensures SetConcurrentAsWritten(c, h, heap, key, value, onlyIfAbsent, newId) == Raise(NullPointer)
    ensures SetConcurrent(c, h, heap, key, value, onlyIfAbsent, newId).Ok?
  {
    var ch := h.store.hash;
    var hashed := c.hashKey(key, h.compareByIdentity);
    var index := c.bucketIndex(hashed, Length(ch.buckets));
    assert Chain(heap, NextInLookupOf, ch.buckets.slots[index], chains[index]);
    DoLookupFinds(c, PublishedKind, heap, ch.buckets, key, h.compareByIdentity, chains[index]);
    SetConcurrentInserts(c, h, heap, key, value, onlyIfAbsent, newId, chains[index]);
    var _ := InsertWithoutResize(c, h, heap, order, chains, index, newId, hashed, key, value);
  }
}
