/** The store of a concurrent hash: a head and a tail sentinel that bracket the insertion-order
    sequence, and the bucket array. Entries live in a heap keyed by identity; a sentinel is a
    keyless data entry. */
module ConcurrentHashes {
  import opened Values
  import opened Links
  import opened AtomicArrays
  import opened HashConfig
  import opened ConcurrentEntries
  import Rebuild

  type CHeap = map<Id, CEntry>

  datatype CHash = CHash(head: Id, tail: Id, buckets: AtomicArray<Id>)

  /** A sentinel as the constructor makes it. */
  const Sentinel: CEntry := DataEntry(0, Null, Null, false)

  /** `new ConcurrentHash(hash)`: two new unlinked sentinels and INITIAL_CAPACITY empty
      buckets; the array allocation refuses a negative capacity. */
  function NewConcurrentHash(c: Config, heap: CHeap, head: Id, tail: Id): (r: Result<(CHeap, CHash)>)
    requires head !in heap && tail !in heap && head != tail
    ensures r.Ok? <==> c.initialCapacity >= 0
    ensures r.Raise? ==> r.exception == NegativeArraySize(c.initialCapacity)
    ensures r.Ok? ==>
      var (heap', h) := r.value;
      h.head == head && h.tail == tail && heap'.Keys == heap.Keys + {head, tail}
      && heap'[head] == Sentinel && heap'[tail] == Sentinel
      && (forall id :: id in heap ==> heap'[id] == heap[id])
      && Length(h.buckets) == c.initialCapacity
      && forall i :: 0 <= i < Length(h.buckets) ==> h.buckets.slots[i].None?
  {
    var buckets :- New<Id>(c.initialCapacity);
    Ok((heap[head := Sentinel][tail := Sentinel], CHash(head, tail, buckets)))
  }

  function GetBuckets(h: CHash): AtomicArray<Id> {
    h.buckets
  }

  /** `setBuckets`: replaces the array and keeps the sentinels. */
  function SetBuckets(h: CHash, buckets: AtomicArray<Id>): (r: CHash)
    ensures r.head == h.head && r.tail == h.tail
  {
    h.(buckets := buckets)
  }

  /** Reading the buckets gives the array last set, and setting what was read changes
      nothing. */
  lemma BucketsReadBack(h: CHash, buckets: AtomicArray<Id>)
    ensures GetBuckets(SetBuckets(h, buckets)) == buckets
    ensures SetBuckets(h, GetBuckets(h)) == h
  {
  }

  /** One setter call on the entry `id`. */
  function SetLink(heap: CHeap, id: Id, w: CWrite): (r: Result<CHeap>)
    ensures id !in heap ==> r == Raise(Stuck)
    ensures id in heap ==> (r.Raise? <==> heap[id].removed && IsSequenceWrite(w))
    ensures r.Ok? ==> id in heap && r.value == heap[id := Apply(heap[id], w).value]
  {
    if id !in heap then Raise(Stuck)
    else
      var e :- Apply(heap[id], w);
      Ok(heap[id := e])
  }

  /** `linkFirstLast`: the sentinels around the sequence from `first` to `last`, or around
      nothing. A first entry without a last one dereferences null. */
  function LinkFirstLast(heap: CHeap, h: CHash, first: Option<Id>, last: Option<Id>): (r: Result<CHeap>)
    ensures r.Ok? ==> r.value.Keys == heap.Keys
    ensures first.Some? && last.None? ==> r.Raise?
    ensures r == Raise(NullPointer) ==> first.Some? && last.None?
    ensures (forall id :: id in [h.head, h.tail] + Seq(first) + Seq(last) ==> id in heap && !heap[id].removed)
            ==> (r.Ok? <==> first.None? || last.Some?)
  {
    if first.Some? then
      var h1 :- SetLink(heap, h.head, WriteNextInSequence(first));
      var h2 :- SetLink(h1, first.value, WritePreviousInSequence(Some(h.head)));
      var h3 :- SetLink(h2, h.tail, WritePreviousInSequence(last));
      if last.None? then Raise(NullPointer)
      else SetLink(h3, last.value, WriteNextInSequence(Some(h.tail)))
    else
      var h1 :- SetLink(heap, h.head, WriteNextInSequence(Some(h.tail)));
      SetLink(h1, h.tail, WritePreviousInSequence(Some(h.head)))
  }

  function Seq(o: Option<Id>): seq<Id> {
    if o.Some? then [o.value] else []
  }

  /** The entries of `s` that are not removed markers, in order. */
  function Live(heap: CHeap, s: seq<Id>): (r: seq<Id>)
    requires forall x :: x in s ==> x in heap
    ensures forall x :: x in r ==> x in s && !heap[x].removed
    ensures forall x :: x in s && !heap[x].removed ==> x in r
  {
    if s == [] then [] else (if heap[s[0]].removed then [] else [s[0]]) + Live(heap, s[1..])
  }

  /** No two removed markers follow each other in `s`. */
  ghost predicate Spaced(heap: CHeap, s: seq<Id>) {
    (forall x :: x in s ==> x in heap)
    && forall i :: 0 <= i < |s| - 1 ==> !(heap[s[i]].removed && heap[s[i + 1]].removed)
  }

  /** A linked hash: from the head, the sequence runs through `order` to the tail, every
      backward link mirrors a forward one, and the sentinels are not markers. */
  ghost predicate Linked(heap: CHeap, h: CHash, order: seq<Id>) {
    Rebuild.Sequence(PublishedKind, heap, Some(h.head), Some(h.tail), [h.head] + order + [h.tail])
    && h.head in heap && h.tail in heap && !heap[h.head].removed && !heap[h.tail].removed
  }

  /** `getFirstEntry`: the entry after the head, or the one after that when the first is a
      removed marker; the result is never removed, and may be the tail. */
  function GetFirstEntry(heap: CHeap, h: CHash): (r: Result<Id>)
    ensures r.Ok? ==> r.value in heap && !heap[r.value].removed
  {
    if h.head !in heap then Raise(Stuck)
    else match heap[h.head].nextInSequence
      case None => Raise(NullPointer)
      case Some(e) =>
        if e !in heap then Raise(Stuck)
        else if !heap[e].removed then Ok(e)
        else match heap[e].nextInSequence
          case None => Raise(NullPointer)
          case Some(e2) =>
            if e2 !in heap then Raise(Stuck)
            else if heap[e2].removed then Raise(AssertionFailure)
            else Ok(e2)
  }

  /** On a hash whose sequence runs from the head through `order` to the tail with no two
      removed markers in a row, the first entry is the first one not removed, or the tail. */
  lemma GetFirstOfLinked(heap: CHeap, h: CHash, order: seq<Id>)
    requires Chain(heap, NextInSequenceOf, Some(h.head), [h.head] + order + [h.tail])
    requires Spaced(heap, order + [h.tail]) && !heap[h.tail].removed
    ensures forall x :: x in order + [h.tail] ==> x in heap
    ensures GetFirstEntry(heap, h) == Ok(Live(heap, order + [h.tail])[0])
  {
    var s := order + [h.tail];
    assert [h.head] + s == [h.head] + order + [h.tail];
    ChainMembers(heap, NextInSequenceOf, Some(h.head), [h.head] + s);
    assert ([h.head] + order + [h.tail])[1..] == s;
    assert heap[h.head].nextInSequence == Some(s[0]);
    ChainSuffix(heap, NextInSequenceOf, Some(h.head), [h.head] + s, 1);
    assert ([h.head] + s)[1..] == s;
    if heap[s[0]].removed {
      assert |s| > 1;
      assert s[1..][0] == s[1];
      assert heap[s[0]].nextInSequence == Some(s[1]);
      assert !heap[s[1]].removed;
    }
  }

  /** Linking the sentinels around a sequence built apart from them makes a linked hash. */
  lemma LinkFirstLastLinks(heap: CHeap, h: CHash, first: Option<Id>, last: Option<Id>, order: seq<Id>)
    requires Rebuild.Sequence(PublishedKind, heap, first, last, order)
    requires h.head in heap && h.tail in heap && h.head != h.tail && h.head !in order && h.tail !in order
    requires heap[h.head] == Sentinel && heap[h.tail] == Sentinel
    requires forall x :: x in order ==> !heap[x].removed
    ensures LinkFirstLast(heap, h, first, last).Ok?
    ensures Linked(LinkFirstLast(heap, h, first, last).value, h, order)
  {
    var head, tail := h.head, h.tail;
    ChainMembers(heap, NextInSequenceOf, first, order);
    ChainDistinct(heap, NextInSequenceOf, first, order);
    var heap' := LinkFirstLast(heap, h, first, last).value;
    assert heap'.Keys == heap.Keys;
    // What the calls wrote: the sentinels' links, `first`'s backward and `last`'s forward link.
    assert heap'[head].nextInSequence == (if order == [] then Some(tail) else first);
    assert heap'[head].previousInSequence.None?;
    assert heap'[tail].nextInSequence.None?;
    assert heap'[tail].previousInSequence == (if order == [] then Some(head) else last);
    assert !heap'[head].removed && !heap'[tail].removed;
    forall i | 0 <= i < |order|
      ensures heap'[order[i]].nextInSequence == if i == |order| - 1 then Some(tail) else heap[order[i]].nextInSequence
      ensures heap'[order[i]].previousInSequence == if i == 0 then Some(head) else heap[order[i]].previousInSequence
    {
      assert first == Some(order[0]) && last == Some(order[|order| - 1]);
      assert order[i] == order[0] <==> i == 0;
      assert order[i] == order[|order| - 1] <==> i == |order| - 1;
    }
    ChainAppend(heap, heap', NextInSequenceOf, first, order, tail);
    var s := [head] + order + [tail];
    assert s[1..] == order + [tail];
    assert Chain(heap', NextInSequenceOf, Some(head), s);
    forall i | 0 < i < |s|
      ensures heap'[s[i]].previousInSequence == Some(s[i - 1])
    {
      if 1 < i < |s| - 1 {
        assert s[i] == order[i - 1] && s[i - 1] == order[i - 2];
      } else if i == |s| - 1 && order != [] {
        assert s[i - 1] == order[|order| - 1];
      }
    }
  }
}
