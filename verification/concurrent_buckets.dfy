/** The operations of the concurrent bucket strategy that one thread runs alone: inserting an
    entry at the head of its bucket, walking the insertion-order sequence, and the three loops
    that rebuild buckets (`resize`, `copyInto`, `fromBuckets`). Each is one atomic step. */
module ConcurrentBuckets {
  import opened Values
  import opened Links
  import opened AtomicArrays
  import opened HashConfig
  import opened ConcurrentEntries
  import opened ConcurrentHashes
  import opened HashState
  import HashEntries
  import Rebuild

  /** `insertInLookup`: after checking that the expected head is not a removed marker and that
      both entries hash to `index`, the new entry is linked to the expected head, and the
      bucket swings to the new entry exactly when it still holds that head. */
  function InsertInLookup(c: Config, heap: CHeap, buckets: AtomicArray<Id>, index: int, first: Option<Id>, newEntry: Id): (r: Result<(bool, CHeap, AtomicArray<Id>)>)
    ensures newEntry !in heap || (first.Some? && first.value !in heap) ==> r == Raise(Stuck)
    ensures newEntry in heap && (first.Some? ==> first.value in heap) ==>
      (r == Raise(AssertionFailure) <==>
        !((first.None? || !heap[first.value].removed)
          && c.bucketIndex(heap[newEntry].hashed, Length(buckets)) == index
          && (first.None? || c.bucketIndex(heap[first.value].hashed, Length(buckets)) == index)))
    ensures r.Ok? ==> 0 <= index < Length(buckets) && newEntry in heap
    ensures r.Ok? ==> (r.value.0 <==> buckets.slots[index] == first)
    ensures r.Ok? ==> r.value.1 == heap[newEntry := heap[newEntry].(nextInLookup := first)]
    ensures r.Ok? ==> r.value.2 == if r.value.0 then AtomicArray(buckets.slots[index := Some(newEntry)]) else buckets
  {
    if newEntry !in heap || (first.Some? && first.value !in heap) then Raise(Stuck)
    else
      var _ :- Check(first.None? || !heap[first.value].removed);
      var _ :- Check(c.bucketIndex(heap[newEntry].hashed, Length(buckets)) == index);
      var _ :- Check(first.None? || c.bucketIndex(heap[first.value].hashed, Length(buckets)) == index);
      var heap' := heap[newEntry := WithNextInLookup(heap[newEntry], first)];
      var cas :- CompareAndSet(buckets, index, first, Some(newEntry));
      Ok((cas.0, heap', cas.1))
  }

  /** Inserting at the head the bucket holds is the prepending step of the rebuilding loops:
      the new entry heads its bucket's chain, ahead of the old chain, and every other chain
      stays. */
  lemma InsertInLookupPrepends(c: Config, heap: CHeap, buckets: AtomicArray<Id>, newEntry: Id, chains: seq<seq<Id>>)
    requires Valid(c) && Length(buckets) > 0 && newEntry in heap
    requires Rebuild.Chains(PublishedKind, heap, buckets, chains) && Rebuild.Outside([newEntry], chains)
    ensures var index := c.bucketIndex(heap[newEntry].hashed, Length(buckets));
      var first := buckets.slots[index];
      (first.None? || first.value in heap) &&
      ((first.None? || (!heap[first.value].removed && c.bucketIndex(heap[first.value].hashed, Length(buckets)) == index)) ==>
        var r := InsertInLookup(c, heap, buckets, index, first, newEntry);
        r.Ok? && r.value.0
        && Ok((r.value.1, r.value.2)) == Rebuild.Prepend(c, PublishedKind, heap, buckets, newEntry)
        && Rebuild.Chains(PublishedKind, r.value.1, r.value.2, chains[index := [newEntry] + chains[index]]))
  {
    var index := c.bucketIndex(heap[newEntry].hashed, Length(buckets));
    assert Chain(heap, NextInLookupOf, buckets.slots[index], chains[index]);
    Rebuild.PrependChains(c, PublishedKind, heap, buckets, newEntry, chains);
  }

  /** The iterators' walk from `entry` to the tail sentinel: each step yields the entry and
      moves to its successor, skipping it when it is a removed marker. A null successor is
      dereferenced; an identity outside the heap, or running out of `fuel`, is Stuck. */
  function Walk(heap: CHeap, tail: Id, entry: Id, fuel: nat): (r: Result<seq<Id>>)
    ensures r.Ok? ==> forall x :: x in r.value ==> x in heap
    ensures r.Ok? ==> tail !in r.value
    ensures r.Ok? ==> (r.value == [] <==> entry == tail)
    ensures r.Ok? && entry != tail ==> r.value[0] == entry
    decreases fuel
  {
    if entry == tail then Ok([])
    else if entry !in heap || fuel == 0 then Raise(Stuck)
    else match heap[entry].nextInSequence
      case None => Raise(NullPointer)
      case Some(n) =>
        if n !in heap then Raise(Stuck)
        else if !heap[n].removed then
          var rest :- Walk(heap, tail, n, fuel - 1);
          Ok([entry] + rest)
        else match heap[n].nextInSequence
          case None => Raise(NullPointer)
          case Some(n2) =>
            var rest :- Walk(heap, tail, n2, fuel - 1);
            Ok([entry] + rest)
  }

  /** `iterateEntries`, run to the end: from the first entry to the tail sentinel. */
  function IterateEntries(heap: CHeap, h: CHash): (r: Result<seq<Id>>)
    ensures GetFirstEntry(heap, h).Raise? ==> r.Raise?
    ensures r.Ok? ==> forall x :: x in r.value ==> x in heap
    ensures r.Ok? ==> h.tail !in r.value
    ensures r.Ok? && r.value != [] ==> r.value[0] == GetFirstEntry(heap, h).value && !heap[r.value[0]].removed
  {
    var first :- GetFirstEntry(heap, h);
    Walk(heap, h.tail, first, |heap|)
  }

  /** The key and value of each entry. */
  function KeyValues(heap: CHeap, ids: seq<Id>): (r: seq<(Value, Value)>)
    requires forall x :: x in ids ==> x in heap
    ensures |r| == |ids|
    ensures forall i :: 0 <= i < |ids| ==> r[i] == (heap[ids[i]].key, heap[ids[i]].value)
  {
    seq(|ids|, i requires 0 <= i < |ids| => (heap[ids[i]].key, heap[ids[i]].value))
  }

  /** `iterateKeyValues`, run to the end: the same walk, yielding keys and values. */
  function IterateKeyValues(heap: CHeap, h: CHash): (r: Result<seq<(Value, Value)>>)
    ensures r.Ok? <==> IterateEntries(heap, h).Ok?
    ensures r.Ok? ==> var ids := IterateEntries(heap, h).value;
      |r.value| == |ids| && forall i :: 0 <= i < |ids| ==> r.value[i] == (heap[ids[i]].key, heap[ids[i]].value)
  {
    var ids :- IterateEntries(heap, h);
    Ok(KeyValues(heap, ids))
  }

  /** `remove` on either iterator. */
  function IteratorRemove(): (r: Result<()>)
    ensures r == Raise(UnsupportedOperation(""))
  {
    Raise(UnsupportedOperation(""))
  }

  lemma LiveRemovedHead(heap: CHeap, s: seq<Id>)
    requires s != [] && (forall x :: x in s ==> x in heap) && heap[s[0]].removed
    ensures Live(heap, s) == Live(heap, s[1..])
  {
  }

  /** Walking a chain that ends at the tail, starts at a live entry and has no two removed
      markers in a row yields its live entries before the tail. */
  lemma {:induction false} WalkLive(heap: CHeap, tail: Id, s: seq<Id>, fuel: nat)
    requires s != [] && s[|s| - 1] == tail && tail !in s[..|s| - 1] && Chain(heap, NextInSequenceOf, Some(s[0]), s)
    requires Spaced(heap, s) && !heap[s[0]].removed && !heap[tail].removed && fuel >= |s|
    ensures forall x :: x in s[..|s| - 1] ==> x in heap
    ensures Walk(heap, tail, s[0], fuel) == Ok(Live(heap, s[..|s| - 1]))
    decreases |s|, 1
  {
    ChainMembers(heap, NextInSequenceOf, Some(s[0]), s);
    if |s| == 1 {
      assert s[..0] == [];
    } else if !heap[s[1]].removed {
      WalkLiveKeep(heap, tail, s, fuel);
    } else {
      WalkLiveSkip(heap, tail, s, fuel);
    }
  }

  lemma {:induction false} WalkLiveKeep(heap: CHeap, tail: Id, s: seq<Id>, fuel: nat)
    requires |s| > 1 && s[|s| - 1] == tail && tail !in s[..|s| - 1] && Chain(heap, NextInSequenceOf, Some(s[0]), s)
    requires Spaced(heap, s) && !heap[s[0]].removed && !heap[s[1]].removed && !heap[tail].removed && fuel >= |s|
    ensures Walk(heap, tail, s[0], fuel) == Ok(Live(heap, s[..|s| - 1]))
    decreases |s|, 0
  {
    var front := s[..|s| - 1];
    assert s[0] == front[0];
    assert heap[s[0]].nextInSequence == Some(s[1]);
    ChainSuffix(heap, NextInSequenceOf, Some(s[0]), s, 1);
    var t := s[1..];
    SpacedSuffix(heap, s, 1);
    assert t[..|t| - 1] == front[1..];
    assert forall x :: x in front[1..] ==> x in front;
    WalkLive(heap, tail, t, fuel - 1);
    WalkOne(heap, tail, s[0], s[1], fuel, Live(heap, front[1..]));
    assert Live(heap, front) == [s[0]] + Live(heap, front[1..]);
  }

  lemma {:induction false} WalkLiveSkip(heap: CHeap, tail: Id, s: seq<Id>, fuel: nat)
    requires |s| > 1 && s[|s| - 1] == tail && tail !in s[..|s| - 1] && Chain(heap, NextInSequenceOf, Some(s[0]), s)
    requires Spaced(heap, s) && !heap[s[0]].removed && heap[s[1]].removed && !heap[tail].removed && fuel >= |s|
    ensures Walk(heap, tail, s[0], fuel) == Ok(Live(heap, s[..|s| - 1]))
    decreases |s|, 0
  {
    var front := s[..|s| - 1];
    assert s[0] == front[0];
    assert heap[s[0]].nextInSequence == Some(s[1]);
    assert |s| > 2;
    ChainSuffix(heap, NextInSequenceOf, Some(s[0]), s, 1);
    ChainSuffix(heap, NextInSequenceOf, Some(s[0]), s, 2);
    assert heap[s[1]].nextInSequence == Some(s[2]);
    var t := s[2..];
    SpacedSuffix(heap, s, 2);
    assert t[..|t| - 1] == front[2..];
    assert forall x :: x in front[2..] ==> x in front;
    WalkLive(heap, tail, t, fuel - 1);
    WalkTwo(heap, tail, s[0], s[1], s[2], fuel, Live(heap, front[2..]));
    assert front[1..][1..] == front[2..];
    LiveRemovedHead(heap, front[1..]);
    assert Live(heap, front) == [s[0]] + Live(heap, front[1..]);
  }

  /** A step to a successor that is not a removed marker. */
  lemma WalkOne(heap: CHeap, tail: Id, e: Id, n: Id, fuel: nat, rest: seq<Id>)
    requires e != tail && e in heap && fuel > 0 && heap[e].nextInSequence == Some(n)
    requires n in heap && !heap[n].removed && Walk(heap, tail, n, fuel - 1) == Ok(rest)
    ensures Walk(heap, tail, e, fuel) == Ok([e] + rest)
  {
  }

  /** A step over a removed marker to the entry after it. */
  lemma WalkTwo(heap: CHeap, tail: Id, e: Id, n: Id, n2: Id, fuel: nat, rest: seq<Id>)
    requires e != tail && e in heap && fuel > 0 && heap[e].nextInSequence == Some(n)
    requires n in heap && heap[n].removed && heap[n].nextInSequence == Some(n2)
    requires Walk(heap, tail, n2, fuel - 1) == Ok(rest)
    ensures Walk(heap, tail, e, fuel) == Ok([e] + rest)
  {
  }

  lemma SpacedSuffix(heap: CHeap, s: seq<Id>, k: nat)
    requires Spaced(heap, s) && k <= |s|
    ensures Spaced(heap, s[k..])
  {
    assert forall i :: 0 <= i < |s[k..]| ==> s[k..][i] == s[k + i];
  }

  /** On a linked hash with no two removed markers in a row (the tail counted), iterating the
      entries yields exactly the entries of the sequence that are not removed markers, in
      order. */
  lemma IterateLive(heap: CHeap, h: CHash, order: seq<Id>)
    requires Linked(heap, h, order) && Spaced(heap, order + [h.tail])
    ensures forall x :: x in order ==> x in heap
    ensures IterateEntries(heap, h) == Ok(Live(heap, order))
  {
    LinkedWalkable(heap, h, order);
    var s := order + [h.tail];
    GetFirstOfLinked(heap, h, order);
    assert s[..|s| - 1] == order;
    if !heap[s[0]].removed {
      assert Live(heap, s)[0] == s[0];
      WalkLive(heap, h.tail, s, |heap|);
    } else {
      WalkAfterSkip(heap, h.tail, s, |heap|);
    }
  }

  /** The facts about a linked hash that the walk needs: the sequence after the head is a
      chain ending at the tail, which it meets nowhere before, and it fits in the heap. */
  lemma LinkedWalkable(heap: CHeap, h: CHash, order: seq<Id>)
    requires Linked(heap, h, order)
    ensures forall x :: x in order ==> x in heap
    ensures |order| + 2 <= |heap| && h.tail !in order && Distinct(order)
    ensures Chain(heap, NextInSequenceOf, Some((order + [h.tail])[0]), order + [h.tail])
  {
    var full := [h.head] + order + [h.tail];
    var s := order + [h.tail];
    assert full == [h.head] + s;
    assert Chain(heap, NextInSequenceOf, Some(h.head), full);
    ChainWithinHeap(heap, NextInSequenceOf, Some(h.head), full);
    ChainDistinct(heap, NextInSequenceOf, Some(h.head), full);
    assert forall x :: x in order ==> x in full;
    assert h.tail !in order by {
      forall i | 0 <= i < |order|
        ensures order[i] != h.tail
      {
        assert full[i + 1] == order[i] && full[|full| - 1] == h.tail;
      }
    }
    ChainSuffix(heap, NextInSequenceOf, Some(h.head), full, 1);
    assert full[1..] == s;
    ChainDistinct(heap, NextInSequenceOf, Some(s[0]), s);
    assert forall i :: 0 <= i < |order| ==> order[i] == s[i];
  }

  /** When a chain to the tail starts with a removed marker, the walk from the entry after it
      yields the live entries of the whole chain before the tail. */
  lemma WalkAfterSkip(heap: CHeap, tail: Id, s: seq<Id>, fuel: nat)
    requires |s| > 1 && s[|s| - 1] == tail && tail !in s[..|s| - 1] && Chain(heap, NextInSequenceOf, Some(s[0]), s)
    requires Spaced(heap, s) && heap[s[0]].removed && !heap[tail].removed && fuel >= |s|
    ensures forall x :: x in s ==> x in heap
    ensures Live(heap, s)[0] == s[1]
    ensures Walk(heap, tail, s[1], fuel) == Ok(Live(heap, s[..|s| - 1]))
  {
    ChainMembers(heap, NextInSequenceOf, Some(s[0]), s);
    assert !heap[s[1]].removed;
    LiveRemovedHead(heap, s);
    assert Live(heap, s[1..])[0] == s[1];
    ChainSuffix(heap, NextInSequenceOf, Some(s[0]), s, 1);
    var t := s[1..];
    var front := s[..|s| - 1];
    SpacedSuffix(heap, s, 1);
    assert t[..|t| - 1] == front[1..];
    assert forall x :: x in front[1..] ==> x in front;
    WalkLive(heap, tail, t, fuel);
    assert front[0] == s[0];
    LiveRemovedHead(heap, front);
  }

  /** Likewise, iterating keys and values yields those of the live entries. */
  lemma IterateKeyValuesLive(heap: CHeap, h: CHash, order: seq<Id>)
    requires Linked(heap, h, order) && Spaced(heap, order + [h.tail])
    ensures forall x :: x in order ==> x in heap
    ensures IterateKeyValues(heap, h) == Ok(KeyValues(heap, Live(heap, order)))
  {
    IterateLive(heap, h, order);
  }

  /** The live entries of distinct identities are distinct. */
  lemma {:induction false} LiveDistinct(heap: CHeap, s: seq<Id>)
    requires Distinct(s) && forall x :: x in s ==> x in heap
    ensures Distinct(Live(heap, s))
    decreases |s|
  {
    if s != [] {
      var rest := s[1..];
      assert forall x :: x in rest ==> x in s;
      LiveDistinct(heap, rest);
      var l := Live(heap, rest);
      assert s[0] !in rest by {
        forall i | 0 <= i < |rest|
          ensures rest[i] != s[0]
        {
          assert rest[i] == s[i + 1];
        }
      }
      assert s[0] !in l;
      var r := Live(heap, s);
      if !heap[s[0]].removed {
        assert r == [s[0]] + l;
        forall i, j | 0 <= i < j < |r|
          ensures r[i] != r[j]
        {
          if i == 0 {
            assert r[j] == l[j - 1];
          } else {
            assert r[i] == l[i - 1] && r[j] == l[j - 1];
          }
        }
      }
    }
  }

  /** The bucket count `resize` asks for: `capacityGreaterThan(newSize) * OVERALLOCATE_FACTOR`,
      a product of Java ints. */
  function BucketsCount(c: Config, newSize: int): (r: int)
    ensures INT_MIN <= r <= INT_MAX
  {
    ToInt32(c.capacityGreaterThan(newSize) * c.overallocateFactor)
  }

  /** `resize`: a new array of `BucketsCount(newSize)` buckets, every entry the iteration
      yields prepended to its new bucket, and the array installed. The loop writes lookup links
      only, which the iteration does not follow, so the entries are collected first. */
  function Resize(c: Config, heap: CHeap, h: CHash, newSize: int): (r: Result<(CHeap, CHash)>)
    ensures r.Ok? ==> r.value.0.Keys == heap.Keys && r.value.1.head == h.head && r.value.1.tail == h.tail
    ensures r.Ok? ==> Length(r.value.1.buckets) == BucketsCount(c, newSize)
  {
    var buckets :- New<Id>(BucketsCount(c, newSize));
    var live :- IterateEntries(heap, h);
    var rehashed :- Rebuild.Rehash(c, PublishedKind, heap, buckets, live);
    Ok((rehashed.0, SetBuckets(h, rehashed.1)))
  }

  /** `heap'` holds the same entries as `heap`, with at most their lookup links changed. */
  ghost predicate OnlyLookupChanged(heap: CHeap, heap': CHeap) {
    heap'.Keys == heap.Keys && forall id :: id in heap ==> heap'[id] == heap[id].(nextInLookup := heap'[id].nextInLookup)
  }

  /** The rehashing loop writes lookup links and nothing else. */
  lemma {:induction false} RehashOnlyLookup(c: Config, heap: CHeap, buckets: AtomicArray<Id>, entries: seq<Id>)
    requires forall id :: id in entries ==> id in heap
    ensures var r := Rebuild.Rehash(c, PublishedKind, heap, buckets, entries);
      r.Ok? ==> OnlyLookupChanged(heap, r.value.0)
    decreases |entries|
  {
    if entries != [] {
      var p := Rebuild.Prepend(c, PublishedKind, heap, buckets, entries[0]);
      if p.Ok? {
        assert OnlyLookupChanged(heap, p.value.0);
        assert forall id :: id in entries[1..] ==> id in entries;
        RehashOnlyLookup(c, p.value.0, p.value.1, entries[1..]);
      }
    }
  }

  lemma {:induction false} LiveFrame(heap: CHeap, heap': CHeap, s: seq<Id>)
    requires OnlyLookupChanged(heap, heap') && forall x :: x in s ==> x in heap
    ensures Live(heap', s) == Live(heap, s)
    decreases |s|
  {
    if s != [] {
      assert forall x :: x in s[1..] ==> x in s;
      LiveFrame(heap, heap', s[1..]);
    }
  }

  /** A hash stays linked, and its markers stay spaced, when only lookup links change. */
  lemma LinkedFrame(heap: CHeap, heap': CHeap, h: CHash, order: seq<Id>)
    requires OnlyLookupChanged(heap, heap') && Linked(heap, h, order) && Spaced(heap, order + [h.tail])
    ensures Linked(heap', h, order) && Spaced(heap', order + [h.tail])
  {
    var full := [h.head] + order + [h.tail];
    ChainMembers(heap, NextInSequenceOf, Some(h.head), full);
    ChainFrame(heap, heap', NextInSequenceOf, Some(h.head), full);
  }

  /** `resize` on a linked hash whose markers are spaced: the sequence, every entry's identity
      and contents are kept, and bucket `b` of the new array chains, newest first, exactly the
      live entries whose hash has index `b`. */
  lemma ResizeRehashes(c: Config, heap: CHeap, h: CHash, order: seq<Id>, newSize: int)
    requires Valid(c) && Linked(heap, h, order) && Spaced(heap, order + [h.tail])
    requires BucketsCount(c, newSize) > 0
    ensures forall x :: x in order ==> x in heap
    ensures var r := Resize(c, heap, h, newSize);
      var count := BucketsCount(c, newSize);
      var live := Live(heap, order);
      var indices := Rebuild.Indices(c, count, Rebuild.ItemsOf(PublishedKind, heap, live));
      r.Ok? && OnlyLookupChanged(heap, r.value.0)
      && Linked(r.value.0, r.value.1, order) && Spaced(r.value.0, order + [h.tail])
      && Length(r.value.1.buckets) == count
      && forall b :: 0 <= b < count ==> Chain(r.value.0, NextInLookupOf, r.value.1.buckets.slots[b], Reverse(Rebuild.Members(live, indices, b)))
  {
    var count := BucketsCount(c, newSize);
    IterateLive(heap, h, order);
    LinkedWalkable(heap, h, order);
    var live := Live(heap, order);
    LiveDistinct(heap, order);
    var buckets := New<Id>(count).value;
    var empty: seq<seq<Id>> := seq(count, _ => []);
    assert Rebuild.Chains(PublishedKind, heap, buckets, empty);
    Rebuild.RehashChains(c, PublishedKind, heap, buckets, live, empty);
    RehashOnlyLookup(c, heap, buckets, live);
    var rehashed := Rebuild.Rehash(c, PublishedKind, heap, buckets, live).value;
    assert Resize(c, heap, h, newSize) == Ok((rehashed.0, SetBuckets(h, rehashed.1)));
    LinkedFrame(heap, rehashed.0, h, order);
    var indices := Rebuild.Indices(c, count, Rebuild.ItemsOf(PublishedKind, heap, live));
    var grown := Rebuild.Grown(empty, live, indices);
    forall b | 0 <= b < count
      ensures Chain(rehashed.0, NextInLookupOf, rehashed.1.slots[b], Reverse(Rebuild.Members(live, indices, b)))
    {
      assert grown[b] == Reverse(Rebuild.Members(live, indices, b)) + [];
      assert Reverse(Rebuild.Members(live, indices, b)) + [] == Reverse(Rebuild.Members(live, indices, b));
    }
  }

  /** `copyInto`: after its checks (the source concurrent, the target neither concurrent nor
      shared), a plain bucket store with as many buckets as the source, holding a new entry for
      every entry the iteration yields, in order; the target takes the store, the size and the
      ends of the new sequence. New entries take the identities from `next` on. */
  function CopyInto(c: Config, cheap: CHeap, from: RubyHash, to: RubyHash, eheap: map<Id, HashEntries.Entry>, next: Id)
    : (r: Result<(map<Id, HashEntries.Entry>, RubyHash)>)
    requires Below(eheap, next)
    ensures !IsConcurrent(from) || IsConcurrent(to) || to.shared ==> r == Raise(AssertionFailure)
    ensures r.Ok? ==> IsConcurrent(from) && r.value.1.store.BucketStore?
                      && Length(r.value.1.store.buckets) == Length(from.store.hash.buckets)
                      && r.value.1.size == from.size
                      && r.value.1.compareByIdentity == to.compareByIdentity && r.value.1.shared == to.shared
                      && eheap.Keys <= r.value.0.Keys
  {
    var _ :- Check(IsConcurrent(from));
    var _ :- Check(!IsConcurrent(to) && !to.shared);
    var h := from.store.hash;
    match New<Id>(Length(h.buckets))
    case Raise(x) => Raise(x)
    case Ok(buckets) =>
      var live :- IterateEntries(cheap, h);
      AllocateFresh(eheap, next, |live|);
      var built :- Rebuild.Build(c, HashEntries.EntryKind, eheap, buckets, None, None,
                                 Rebuild.ItemsOf(PublishedKind, cheap, live), Allocate(next, |live|));
      Ok((built.heap, to.(store := BucketStore(built.buckets), size := from.size, first := built.first, last := built.last)))
  }

  /** `copyInto` from a linked concurrent hash with spaced markers: the target's sequence runs
      through one new entry per live source entry, in order, each holding that entry's hash,
      key and value; bucket `b` chains, newest first, the new entries whose hash has index
      `b`; and no old entry changes. */
  lemma CopyIntoCopies(c: Config, cheap: CHeap, from: RubyHash, to: RubyHash, order: seq<Id>,
                       eheap: map<Id, HashEntries.Entry>, next: Id)
    requires Valid(c) && IsConcurrent(from) && !IsConcurrent(to) && !to.shared && Below(eheap, next)
    requires Linked(cheap, from.store.hash, order) && Spaced(cheap, order + [from.store.hash.tail])
    requires Length(from.store.hash.buckets) > 0
    ensures forall x :: x in order ==> x in cheap
    ensures var r := CopyInto(c, cheap, from, to, eheap, next);
      var live := Live(cheap, order);
      var ids := Allocate(next, |live|);
      var items := Rebuild.ItemsOf(PublishedKind, cheap, live);
      var indices := Rebuild.Indices(c, Length(from.store.hash.buckets), items);
      r.Ok?
      && Rebuild.Sequence(HashEntries.EntryKind, r.value.0, r.value.1.first, r.value.1.last, ids)
      && (forall i :: 0 <= i < |ids| ==> HashEntries.ItemOf(r.value.0[ids[i]]) == items[i])
      && (forall b :: 0 <= b < Length(from.store.hash.buckets) ==>
            Chain(r.value.0, HashEntries.NextInLookupOf, r.value.1.store.buckets.slots[b], Reverse(Rebuild.Members(ids, indices, b))))
      && forall x :: x in eheap ==> r.value.0[x] == eheap[x]
  {
    var h := from.store.hash;
    IterateLive(cheap, h, order);
    var live := Live(cheap, order);
    var ids := Allocate(next, |live|);
    AllocateFresh(eheap, next, |live|);
    var items := Rebuild.ItemsOf(PublishedKind, cheap, live);
    HashEntries.EntryKindIsLawful();
    Rebuild.BuildFresh(c, HashEntries.EntryKind, eheap, Length(h.buckets), items, ids);
    var buckets := New<Id>(Length(h.buckets)).value;
    Rebuild.BuildKeepsOld(c, HashEntries.EntryKind, eheap, buckets, None, None, items, ids);
  }

  /** `fromBuckets`: a concurrent bucket array of `max(source bucket count, INITIAL_CAPACITY)`
      buckets, one new published concurrent entry per entry of the source sequence, in order,
      then the array, the size and the sentinel links installed in the hash's concurrent store.
      A null source array is dereferenced; a hash whose store is not concurrent fails the cast.
      New entries take the identities from `next` on. */
  function FromBuckets(c: Config, p: Promotion, eheap: map<Id, HashEntries.Entry>, cheap: CHeap, hash: RubyHash, next: Id)
    : (r: Result<(CHeap, RubyHash)>)
    requires Below(cheap, next)
    ensures p.buckets.None? ==> r == Raise(NullPointer)
    ensures r.Ok? ==> IsConcurrent(hash) && IsConcurrent(r.value.1) && r.value.1.size == p.size
                      && r.value.1.store.hash.head == hash.store.hash.head && r.value.1.store.hash.tail == hash.store.hash.tail
                      && Length(r.value.1.store.hash.buckets) == Max(Length(p.buckets.value), c.initialCapacity)
                      && cheap.Keys <= r.value.0.Keys
  {
    if p.buckets.None? then Raise(NullPointer)
    else match New<Id>(Max(Length(p.buckets.value), c.initialCapacity))
    case Raise(x) => Raise(x)
    case Ok(buckets) =>
      match Collect(eheap, HashEntries.NextInSequenceOf, p.first, |eheap|)
      case None => Raise(Stuck)
      case Some(order) =>
        ChainMembers(eheap, HashEntries.NextInSequenceOf, p.first, order);
        AllocateFresh(cheap, next, |order|);
        var built :- Rebuild.Build(c, PublishedKind, cheap, buckets, None, None,
                                   Rebuild.ItemsOf(HashEntries.EntryKind, eheap, order), Allocate(next, |order|));
        if !IsConcurrent(hash) then Raise(ClassCast)
        else
          var h := SetBuckets(hash.store.hash, built.buckets);
          var heap' :- LinkFirstLast(built.heap, h, built.first, built.last);
          Ok((heap', hash.(store := ConcurrentStore(h), size := p.size)))
  }

  /** `heap'` holds the same entries as `heap`, with at most their sequence links changed. */
  ghost predicate OnlySequenceChanged(heap: CHeap, heap': CHeap) {
    heap'.Keys == heap.Keys
    && forall id :: id in heap ==>
         heap'[id] == heap[id].(previousInSequence := heap'[id].previousInSequence, nextInSequence := heap'[id].nextInSequence)
  }

  /** Linking the sentinels writes sequence links and nothing else. */
  lemma LinkFirstLastFrame(heap: CHeap, h: CHash, first: Option<Id>, last: Option<Id>)
    ensures var r := LinkFirstLast(heap, h, first, last);
      r.Ok? ==> OnlySequenceChanged(heap, r.value)
                && forall x :: x in heap && x !in [h.head, h.tail] + Seq(first) + Seq(last) ==> r.value[x] == heap[x]
  {
    if first.Some? {
      var r1 := SetLink(heap, h.head, WriteNextInSequence(first));
      if r1.Ok? {
        SetLinkSequence(heap, h.head, WriteNextInSequence(first));
        var r2 := SetLink(r1.value, first.value, WritePreviousInSequence(Some(h.head)));
        if r2.Ok? {
          SetLinkSequence(r1.value, first.value, WritePreviousInSequence(Some(h.head)));
          var r3 := SetLink(r2.value, h.tail, WritePreviousInSequence(last));
          if r3.Ok? && last.Some? {
            SetLinkSequence(r2.value, h.tail, WritePreviousInSequence(last));
            SetLinkSequence(r3.value, last.value, WriteNextInSequence(Some(h.tail)));
          }
        }
      }
    } else {
      var r1 := SetLink(heap, h.head, WriteNextInSequence(Some(h.tail)));
      if r1.Ok? {
        SetLinkSequence(heap, h.head, WriteNextInSequence(Some(h.tail)));
        SetLinkSequence(r1.value, h.tail, WritePreviousInSequence(Some(h.head)));
      }
    }
  }

  /** A sequence setter changes the sequence links of one entry, and it is transitive. */
  lemma SetLinkSequence(heap: CHeap, id: Id, w: CWrite)
    requires IsSequenceWrite(w)
    ensures var r := SetLink(heap, id, w);
      r.Ok? ==> OnlySequenceChanged(heap, r.value)
                && forall h0: CHeap {:trigger OnlySequenceChanged(h0, heap)} :: OnlySequenceChanged(h0, heap) ==> OnlySequenceChanged(h0, r.value)
  {
  }

  /** The building stage of `fromBuckets` into `count` fresh buckets: the new entries are
      published data entries holding the items, in sequence in order, chained in their buckets,
      and the old entries are untouched. */
  lemma FromBucketsBuild(c: Config, cheap: CHeap, count: int, items: seq<Item>, ids: seq<Id>)
    requires Valid(c) && count > 0
    requires |ids| == |items| && Distinct(ids) && (forall id :: id in ids ==> id !in cheap)
    ensures New<Id>(count).Ok?
    ensures var r := Rebuild.Build(c, PublishedKind, cheap, New<Id>(count).value, None, None, items, ids);
      var indices := Rebuild.Indices(c, count, items);
      r.Ok? && Length(r.value.buckets) == count
      && Rebuild.Sequence(PublishedKind, r.value.heap, r.value.first, r.value.last, ids)
      && (forall i :: 0 <= i < |ids| ==> ItemOf(r.value.heap[ids[i]]) == items[i])
      && (forall id :: id in ids ==> !r.value.heap[id].removed && r.value.heap[id].published)
      && (forall b :: 0 <= b < count ==> Chain(r.value.heap, NextInLookupOf, r.value.buckets.slots[b], Reverse(Rebuild.Members(ids, indices, b))))
      && forall x :: x in cheap ==> r.value.heap[x] == cheap[x]
  {
    PublishedKindIsLawful();
    Rebuild.BuildFresh(c, PublishedKind, cheap, count, items, ids);
    var buckets := New<Id>(count).value;
    Rebuild.BuildKeepsOld(c, PublishedKind, cheap, buckets, None, None, items, ids);
    Rebuild.BuildNew(c, PublishedKind, cheap, buckets, None, None, items, ids, (e: CEntry) => !e.removed && e.published);
  }

  /** Entries none of which is a removed marker are all live. */
  lemma {:induction false} LiveAll(heap: CHeap, s: seq<Id>)
    requires forall x :: x in s ==> x in heap && !heap[x].removed
    ensures Live(heap, s) == s
    decreases |s|
  {
    if s != [] {
      assert forall x :: x in s[1..] ==> x in s;
      LiveAll(heap, s[1..]);
    }
  }

  /** Linking the sentinels around a built sequence of data entries: the hash is linked, and
      iterating it yields the whole sequence. */
  lemma LinkBuilt(heap: CHeap, h: CHash, first: Option<Id>, last: Option<Id>, ids: seq<Id>)
    requires Rebuild.Sequence(PublishedKind, heap, first, last, ids)
    requires h.head in heap && h.tail in heap && h.head != h.tail && h.head !in ids && h.tail !in ids
    requires heap[h.head] == Sentinel && heap[h.tail] == Sentinel
    requires forall id :: id in ids ==> !heap[id].removed
    ensures LinkFirstLast(heap, h, first, last).Ok?
    ensures var heap' := LinkFirstLast(heap, h, first, last).value;
      Linked(heap', h, ids) && IterateEntries(heap', h) == Ok(ids)
  {
    LinkFirstLastLinks(heap, h, first, last, ids);
    LinkFirstLastFrame(heap, h, first, last);
    var heap' := LinkFirstLast(heap, h, first, last).value;
    LinkedWalkable(heap', h, ids);
    LiveAll(heap', ids);
    IterateLive(heap', h, ids);
  }

  /** Linking the sentinels around a built sequence of live entries succeeds. */
  lemma LinkBuiltOk(heap: CHeap, h: CHash, first: Option<Id>, last: Option<Id>, ids: seq<Id>)
    requires Rebuild.Sequence(PublishedKind, heap, first, last, ids)
    requires h.head in heap && h.tail in heap && !heap[h.head].removed && !heap[h.tail].removed
    requires forall id :: id in ids ==> !heap[id].removed
    ensures LinkFirstLast(heap, h, first, last).Ok?
    ensures forall x :: x in Seq(first) + Seq(last) ==> x in ids
  {
    if ids != [] {
      assert first == Some(ids[0]) && last == Some(ids[|ids| - 1]);
    }
  }

  /** What `fromBuckets` computes once the source sequence has been collected. */
  lemma FromBucketsUnfold(c: Config, p: Promotion, eheap: map<Id, HashEntries.Entry>, cheap: CHeap, hash: RubyHash, next: Id, order: seq<Id>)
    requires Valid(c) && Below(cheap, next) && p.buckets.Some? && IsConcurrent(hash)
    requires Collect(eheap, HashEntries.NextInSequenceOf, p.first, |eheap|) == Some(order)
    ensures forall x :: x in order ==> x in eheap
    ensures var count := Max(Length(p.buckets.value), c.initialCapacity);
      var ids := Allocate(next, |order|);
      var items := Rebuild.ItemsOf(HashEntries.EntryKind, eheap, order);
      New<Id>(count).Ok? && Distinct(ids) && (forall id :: id in ids ==> id !in cheap)
      && var b := Rebuild.Build(c, PublishedKind, cheap, New<Id>(count).value, None, None, items, ids);
      b.Ok? ==>
        var h := SetBuckets(hash.store.hash, b.value.buckets);
        FromBuckets(c, p, eheap, cheap, hash, next)
          == match LinkFirstLast(b.value.heap, h, b.value.first, b.value.last)
             case Raise(x) => Raise(x)
             case Ok(heap') => Ok((heap', hash.(store := ConcurrentStore(h), size := p.size)))
  {
    ChainMembers(eheap, HashEntries.NextInSequenceOf, p.first, order);
    AllocateFresh(cheap, next, |order|);
  }

  /** The stages of `fromBuckets` from a bucket hash whose sequence is `order`: the building
      stage gives `built`, and linking the sentinels around it gives the heap `heap'` the
      result holds. */
  lemma FromBucketsStages(c: Config, p: Promotion, eheap: map<Id, HashEntries.Entry>, cheap: CHeap, hash: RubyHash, next: Id, order: seq<Id>)
    returns (built: Rebuild.Built<CEntry>, heap': CHeap)
    requires Valid(c) && Below(cheap, next) && p.buckets.Some? && IsConcurrent(hash)
    requires Chain(eheap, HashEntries.NextInSequenceOf, p.first, order)
    requires var h := hash.store.hash;
      h.head in cheap && h.tail in cheap && h.head != h.tail && cheap[h.head] == Sentinel && cheap[h.tail] == Sentinel
    ensures forall x :: x in order ==> x in eheap
    ensures var count := Max(Length(p.buckets.value), c.initialCapacity);
      var ids := Allocate(next, |order|);
      var items := Rebuild.ItemsOf(HashEntries.EntryKind, eheap, order);
      var indices := Rebuild.Indices(c, count, items);
      Length(built.buckets) == count
      && Rebuild.Sequence(PublishedKind, built.heap, built.first, built.last, ids)
      && (forall i :: 0 <= i < |ids| ==> ids[i] in built.heap && ItemOf(built.heap[ids[i]]) == items[i])
      && (forall id :: id in ids ==> !built.heap[id].removed && built.heap[id].published)
      && (forall b :: 0 <= b < count ==> Chain(built.heap, NextInLookupOf, built.buckets.slots[b], Reverse(Rebuild.Members(ids, indices, b))))
      && (forall x :: x in cheap ==> x in built.heap && built.heap[x] == cheap[x])
      && (forall x :: x in Seq(built.first) + Seq(built.last) ==> x in ids)
      && (forall id :: id in ids ==> id !in cheap)
    ensures var h := SetBuckets(hash.store.hash, built.buckets);
      LinkFirstLast(built.heap, h, built.first, built.last) == Ok(heap')
      && FromBuckets(c, p, eheap, cheap, hash, next) == Ok((heap', hash.(store := ConcurrentStore(h), size := p.size)))
      && OnlySequenceChanged(built.heap, heap')
      && forall x :: x in built.heap && x !in [h.head, h.tail] + Seq(built.first) + Seq(built.last) ==> heap'[x] == built.heap[x]
  {
    var h0 := hash.store.hash;
    ChainWithinHeap(eheap, HashEntries.NextInSequenceOf, p.first, order);
    CollectFindsChain(eheap, HashEntries.NextInSequenceOf, p.first, order, |eheap|);
    FromBucketsUnfold(c, p, eheap, cheap, hash, next, order);
    var count := Max(Length(p.buckets.value), c.initialCapacity);
    var ids := Allocate(next, |order|);
    var items := Rebuild.ItemsOf(HashEntries.EntryKind, eheap, order);
    FromBucketsBuild(c, cheap, count, items, ids);
    built := Rebuild.Build(c, PublishedKind, cheap, New<Id>(count).value, None, None, items, ids).value;
    var h := SetBuckets(h0, built.buckets);
    LinkBuiltOk(built.heap, h, built.first, built.last, ids);
    LinkFirstLastFrame(built.heap, h, built.first, built.last);
    heap' := LinkFirstLast(built.heap, h, built.first, built.last).value;
  }

  /** `fromBuckets` from a bucket hash whose sequence is `order`, into a new concurrent hash,
      succeeds with the hash linked through one new entry per entry of `order`, in order, and
      iterating it yields exactly those new entries. */
  lemma FromBucketsRebuilds(c: Config, p: Promotion, eheap: map<Id, HashEntries.Entry>, cheap: CHeap, hash: RubyHash, next: Id, order: seq<Id>)
    requires Valid(c) && Below(cheap, next) && p.buckets.Some? && IsConcurrent(hash)
    requires Chain(eheap, HashEntries.NextInSequenceOf, p.first, order)
    requires var h := hash.store.hash;
      h.head in cheap && h.tail in cheap && h.head != h.tail && cheap[h.head] == Sentinel && cheap[h.tail] == Sentinel
    ensures var r := FromBuckets(c, p, eheap, cheap, hash, next);
      var ids := Allocate(next, |order|);
      r.Ok? && r.value.1.size == p.size && Linked(r.value.0, r.value.1.store.hash, ids)
      && IterateEntries(r.value.0, r.value.1.store.hash) == Ok(ids)
  {
    var built, heap' := FromBucketsStages(c, p, eheap, cheap, hash, next, order);
    var ids := Allocate(next, |order|);
    var h := SetBuckets(hash.store.hash, built.buckets);
    LinkBuilt(built.heap, h, built.first, built.last, ids);
  }

  /** The entries `fromBuckets` creates carry, in order, the hash, key and value of the
      entries of `order`, and are published. */
  lemma FromBucketsCopies(c: Config, p: Promotion, eheap: map<Id, HashEntries.Entry>, cheap: CHeap, hash: RubyHash, next: Id, order: seq<Id>)
    requires Valid(c) && Below(cheap, next) && p.buckets.Some? && IsConcurrent(hash)
    requires Chain(eheap, HashEntries.NextInSequenceOf, p.first, order)
    requires var h := hash.store.hash;
      h.head in cheap && h.tail in cheap && h.head != h.tail && cheap[h.head] == Sentinel && cheap[h.tail] == Sentinel
    ensures forall x :: x in order ==> x in eheap
    ensures var r := FromBuckets(c, p, eheap, cheap, hash, next);
      var ids := Allocate(next, |order|);
      var items := Rebuild.ItemsOf(HashEntries.EntryKind, eheap, order);
      r.Ok? && forall i :: 0 <= i < |ids| ==>
           ids[i] in r.value.0 && ItemOf(r.value.0[ids[i]]) == items[i] && r.value.0[ids[i]].published
  {
    var built, heap' := FromBucketsStages(c, p, eheap, cheap, hash, next, order);
  }

  /** Bucket `b` of the hash `fromBuckets` builds chains, newest first, the new entries whose
      hash has index `b`. */
  lemma FromBucketsChains(c: Config, p: Promotion, eheap: map<Id, HashEntries.Entry>, cheap: CHeap, hash: RubyHash, next: Id, order: seq<Id>)
    requires Valid(c) && Below(cheap, next) && p.buckets.Some? && IsConcurrent(hash)
    requires Chain(eheap, HashEntries.NextInSequenceOf, p.first, order)
    requires var h := hash.store.hash;
      h.head in cheap && h.tail in cheap && h.head != h.tail && cheap[h.head] == Sentinel && cheap[h.tail] == Sentinel
    ensures forall x :: x in order ==> x in eheap
    ensures var r := FromBuckets(c, p, eheap, cheap, hash, next);
      var ids := Allocate(next, |order|);
      var items := Rebuild.ItemsOf(HashEntries.EntryKind, eheap, order);
      var count := Max(Length(p.buckets.value), c.initialCapacity);
      var indices := Rebuild.Indices(c, count, items);
      r.Ok? && Length(r.value.1.store.hash.buckets) == count
      && forall b :: 0 <= b < count ==>
           Chain(r.value.0, NextInLookupOf, r.value.1.store.hash.buckets.slots[b], Reverse(Rebuild.Members(ids, indices, b)))
  {
    var built, heap' := FromBucketsStages(c, p, eheap, cheap, hash, next, order);
    var count := Max(Length(p.buckets.value), c.initialCapacity);
    var ids := Allocate(next, |order|);
    var items := Rebuild.ItemsOf(HashEntries.EntryKind, eheap, order);
    var indices := Rebuild.Indices(c, count, items);
    var h := SetBuckets(hash.store.hash, built.buckets);
    forall b | 0 <= b < count
      ensures Chain(heap', NextInLookupOf, h.buckets.slots[b], Reverse(Rebuild.Members(ids, indices, b)))
    {
      var chain := Reverse(Rebuild.Members(ids, indices, b));
      ChainMembers(built.heap, NextInLookupOf, h.buckets.slots[b], chain);
      ChainFrame(built.heap, heap', NextInLookupOf, h.buckets.slots[b], chain);
    }
  }

  /** `fromBuckets` changes no entry that existed before but the sentinels. */
  lemma FromBucketsFrame(c: Config, p: Promotion, eheap: map<Id, HashEntries.Entry>, cheap: CHeap, hash: RubyHash, next: Id, order: seq<Id>)
    requires Valid(c) && Below(cheap, next) && p.buckets.Some? && IsConcurrent(hash)
    requires Chain(eheap, HashEntries.NextInSequenceOf, p.first, order)
    requires var h := hash.store.hash;
      h.head in cheap && h.tail in cheap && h.head != h.tail && cheap[h.head] == Sentinel && cheap[h.tail] == Sentinel
    ensures var r := FromBuckets(c, p, eheap, cheap, hash, next);
      r.Ok? && forall x :: x in cheap && x != hash.store.hash.head && x != hash.store.hash.tail ==> r.value.0[x] == cheap[x]
  {
    var built, heap' := FromBucketsStages(c, p, eheap, cheap, hash, next, order);
    var ids := Allocate(next, |order|);
    var h := SetBuckets(hash.store.hash, built.buckets);
    forall x | x in cheap && x != h.head && x != h.tail
      ensures heap'[x] == cheap[x]
    {
      assert x !in [h.head, h.tail] + Seq(built.first) + Seq(built.last);
    }
  }
}
