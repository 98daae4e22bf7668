/** The loops that rebuild the bucket chains of a hash: `resize` prepends every existing entry
    to the chain of its new bucket, and `fromBuckets` and `copyInto` build a fresh entry for every
    item in sequence order, prepend it to its bucket and append it to the new sequence. They
    are written once here for any entry class. */
module Rebuild {
  import opened Values
  import opened Links
  import opened AtomicArrays
  import opened HashConfig

  /** The bucket index of each item's hash, for `count` buckets. */
  function Indices(c: Config, count: int, items: seq<Item>): (r: seq<int>)
    ensures |r| == |items|
    ensures forall i :: 0 <= i < |items| ==> r[i] == c.bucketIndex(items[i].hashed, count)
  {
    if items == [] then [] else [c.bucketIndex(items[0].hashed, count)] + Indices(c, count, items[1..])
  }

  /** The items held by entries of the heap. */
  function ItemsOf<E>(k: Kind<E>, heap: map<Id, E>, ids: seq<Id>): (r: seq<Item>)
    requires forall id :: id in ids ==> id in heap
    ensures |r| == |ids|
    ensures forall i :: 0 <= i < |ids| ==> r[i] == k.itemOf(heap[ids[i]])
  {
    if ids == [] then [] else [k.itemOf(heap[ids[0]])] + ItemsOf(k, heap, ids[1..])
  }

  /** The identities among `ids` whose index, listed alongside, is `b`, in order. */
  function Members(ids: seq<Id>, indices: seq<int>, b: int): seq<Id>
    requires |ids| == |indices|
  {
    if ids == [] then [] else (if indices[0] == b then [ids[0]] else []) + Members(ids[1..], indices[1..], b)
  }

  /** One step of both loops: link the entry to the head of the bucket of its hash, and make
      it the new head. */
  function Prepend<E>(c: Config, k: Kind<E>, heap: map<Id, E>, buckets: AtomicArray<Id>, id: Id): (r: Result<(map<Id, E>, AtomicArray<Id>)>)
    requires id in heap
    ensures r.Ok? ==> r.value.0.Keys == heap.Keys && Length(r.value.1) == Length(buckets)
    ensures r.Ok? ==> forall x :: x in heap && x != id ==> r.value.0[x] == heap[x]
  {
    var index := c.bucketIndex(k.itemOf(heap[id]).hashed, Length(buckets));
    var head :- Get(buckets, index);
    match Set(buckets, index, Some(id))
    case Raise(x) => Raise(x)
    case Ok(buckets') => Ok((heap[id := k.lookup.write(heap[id], head)], buckets'))
  }

  /** `resize`'s loop: every entry, in the order given, prepended to its new bucket. */
  function Rehash<E>(c: Config, k: Kind<E>, heap: map<Id, E>, buckets: AtomicArray<Id>, entries: seq<Id>): (r: Result<(map<Id, E>, AtomicArray<Id>)>)
    requires forall id :: id in entries ==> id in heap
    ensures r.Ok? ==> r.value.0.Keys == heap.Keys && Length(r.value.1) == Length(buckets)
    ensures r.Ok? ==> forall x :: x in heap && x !in entries ==> r.value.0[x] == heap[x]
    decreases |entries|
  {
    if entries == [] then Ok((heap, buckets))
    else
      var step :- Prepend(c, k, heap, buckets, entries[0]);
      Rehash(c, k, step.0, step.1, entries[1..])
  }

  /** Every bucket `b` of `buckets` heads the chain `chains[b]`. */
  ghost predicate Chains<E>(k: Kind<E>, heap: map<Id, E>, buckets: AtomicArray<Id>, chains: seq<seq<Id>>) {
    |chains| == Length(buckets)
    && forall b :: 0 <= b < |chains| ==> Chain(heap, k.lookup.read, buckets.slots[b], chains[b])
  }

  /** No chain holds any of `ids`. */
  ghost predicate Outside(ids: seq<Id>, chains: seq<seq<Id>>) {
    forall b, x :: 0 <= b < |chains| && x in chains[b] ==> x !in ids
  }

  lemma ReversePrepend(e: Id, m: seq<Id>, rest: seq<Id>)
    ensures Reverse([e] + m) + rest == Reverse(m) + ([e] + rest)
  {
    assert ([e] + m)[1..] == m;
  }

  /** Prepending one entry that no chain holds puts it at the head of its bucket's chain and
      leaves every other chain as it was. */
  lemma PrependChains<E(!new)>(c: Config, k: Kind<E>, heap: map<Id, E>, buckets: AtomicArray<Id>, id: Id, chains: seq<seq<Id>>)
    requires Valid(c) && Lawful(k.lookup) && Length(buckets) > 0 && id in heap
    requires Chains(k, heap, buckets, chains) && Outside([id], chains)
    ensures var r := Prepend(c, k, heap, buckets, id);
      var index := c.bucketIndex(k.itemOf(heap[id]).hashed, Length(buckets));
      r.Ok? && 0 <= index < |chains|
      && Chains(k, r.value.0, r.value.1, chains[index := [id] + chains[index]])
  {
    var index := c.bucketIndex(k.itemOf(heap[id]).hashed, Length(buckets));
    var r := Prepend(c, k, heap, buckets, id);
    var heap', buckets' := r.value.0, r.value.1;
    var chains' := chains[index := [id] + chains[index]];
    forall b | 0 <= b < |chains'|
      ensures Chain(heap', k.lookup.read, buckets'.slots[b], chains'[b])
    {
      ChainMembers(heap, k.lookup.read, buckets.slots[b], chains[b]);
      assert forall x :: x in chains[b] ==> x != id && heap'[x] == heap[x] by {
        forall x | x in chains[b]
          ensures x != id && heap'[x] == heap[x]
        {
          assert x !in [id];
        }
      }
      ChainFrame(heap, heap', k.lookup.read, buckets.slots[b], chains[b]);
      if b == index {
        assert k.lookup.read(heap'[id]) == buckets.slots[b];
        assert chains'[b][1..] == chains[b];
      }
    }
  }

  /** The chains after prepending `ids`, listed with their bucket indices: each bucket gains its
      members in reverse order ahead of its old chain. */
  function Grown(chains: seq<seq<Id>>, ids: seq<Id>, indices: seq<int>): (r: seq<seq<Id>>)
    requires |ids| == |indices|
    ensures |r| == |chains|
  {
    seq(|chains|, b requires 0 <= b < |chains| => Reverse(Members(ids, indices, b)) + chains[b])
  }

  /** Prepending the first identity and then the rest grows the chains as prepending all. */
  lemma GrownStep(chains: seq<seq<Id>>, ids: seq<Id>, indices: seq<int>)
    requires |ids| == |indices| && ids != [] && 0 <= indices[0] < |chains|
    ensures Grown(chains[indices[0] := [ids[0]] + chains[indices[0]]], ids[1..], indices[1..]) == Grown(chains, ids, indices)
  {
    var chains1 := chains[indices[0] := [ids[0]] + chains[indices[0]]];
    var a := Grown(chains1, ids[1..], indices[1..]);
    var b := Grown(chains, ids, indices);
    forall j | 0 <= j < |chains|
      ensures a[j] == b[j]
    {
      if j == indices[0] {
        ReversePrepend(ids[0], Members(ids[1..], indices[1..], j), chains[j]);
      }
    }
  }

  /** With no identities, nothing grows. */
  lemma GrownNone(chains: seq<seq<Id>>)
    ensures Grown(chains, [], []) == chains
  {
    var g := Grown(chains, [], []);
    forall b | 0 <= b < |chains|
      ensures g[b] == chains[b]
    {
      assert Members([], [], b) == [];
    }
  }

  /** `resize`'s loop keeps every identity's item and sequence links, and changes only the
      entries it rehashes. */
  lemma {:induction false} RehashFrame<E(!new)>(c: Config, k: Kind<E>, heap: map<Id, E>, buckets: AtomicArray<Id>, entries: seq<Id>)
    requires LawfulKind(k) && forall id :: id in entries ==> id in heap
    ensures var r := Rehash(c, k, heap, buckets, entries);
      r.Ok? ==> forall id :: id in heap ==>
        k.itemOf(r.value.0[id]) == k.itemOf(heap[id])
        && k.next.read(r.value.0[id]) == k.next.read(heap[id])
        && k.previous.read(r.value.0[id]) == k.previous.read(heap[id])
        && (id !in entries ==> r.value.0[id] == heap[id])
    decreases |entries|
  {
    if entries != [] {
      var p := Prepend(c, k, heap, buckets, entries[0]);
      if p.Ok? {
        RehashFrame(c, k, p.value.0, p.value.1, entries[1..]);
        assert forall id :: id in entries[1..] ==> id in entries;
      }
    }
  }

  /** `resize`'s loop over distinct entries that no chain holds: each bucket ends with the
      entries of its index in reverse order, ahead of its old chain. */
  lemma {:induction false} RehashChains<E(!new)>(c: Config, k: Kind<E>, heap: map<Id, E>, buckets: AtomicArray<Id>, entries: seq<Id>, chains: seq<seq<Id>>)
    requires Valid(c) && Lawful(k.lookup) && Length(buckets) > 0
    requires Distinct(entries) && forall id :: id in entries ==> id in heap
    requires Chains(k, heap, buckets, chains) && Outside(entries, chains)
    ensures var r := Rehash(c, k, heap, buckets, entries);
      r.Ok? && Chains(k, r.value.0, r.value.1, Grown(chains, entries, Indices(c, Length(buckets), ItemsOf(k, heap, entries))))
    decreases |entries|
  {
    var indices := Indices(c, Length(buckets), ItemsOf(k, heap, entries));
    if entries == [] {
      GrownNone(chains);
    } else {
      var e := entries[0];
      OutsideHead(entries, chains);
      PrependChains(c, k, heap, buckets, e, chains);
      var step := Prepend(c, k, heap, buckets, e).value;
      var chains1 := chains[indices[0] := [e] + chains[indices[0]]];
      var rest := entries[1..];
      OutsideAfterPrepend(entries, chains, indices[0]);
      RehashChains(c, k, step.0, step.1, rest, chains1);
      assert ItemsOf(k, step.0, rest) == ItemsOf(k, heap, entries)[1..];
      GrownStep(chains, entries, indices);
    }
  }

  /** The first of entries outside the chains is outside them on its own. */
  lemma OutsideHead(entries: seq<Id>, chains: seq<seq<Id>>)
    requires entries != [] && Outside(entries, chains)
    ensures Outside([entries[0]], chains)
  {
    forall b, x | 0 <= b < |chains| && x in chains[b]
      ensures x !in [entries[0]]
    {
      assert x !in entries;
    }
  }

  /** Once the first of distinct entries is prepended to chain `i`, the rest are still outside
      the chains. */
  lemma OutsideAfterPrepend(entries: seq<Id>, chains: seq<seq<Id>>, i: int)
    requires entries != [] && Distinct(entries) && Outside(entries, chains) && 0 <= i < |chains|
    ensures Outside(entries[1..], chains[i := [entries[0]] + chains[i]])
  {
    var chains1 := chains[i := [entries[0]] + chains[i]];
    forall b, x | 0 <= b < |chains1| && x in chains1[b]
      ensures x !in entries[1..]
    {
      if x == entries[0] {
        assert forall j :: 0 < j < |entries| ==> entries[j] != entries[0];
      } else {
        assert x in chains[b];
        assert x !in entries;
      }
    }
  }

  /** An identity is among the members of `b` exactly when it is listed with index `b`. */
  lemma {:induction false} MembersAreBucket(ids: seq<Id>, indices: seq<int>, b: int, x: Id)
    requires |ids| == |indices| && Distinct(ids)
    ensures x in Members(ids, indices, b) <==> exists i :: 0 <= i < |ids| && ids[i] == x && indices[i] == b
    decreases |ids|
  {
    if ids != [] {
      MembersAreBucket(ids[1..], indices[1..], b, x);
      if exists i :: 0 <= i < |ids| && ids[i] == x && indices[i] == b {
        var i :| 0 <= i < |ids| && ids[i] == x && indices[i] == b;
        if i > 0 {
          assert ids[1..][i - 1] == x && indices[1..][i - 1] == b;
        }
      }
      if exists i :: 0 <= i < |ids[1..]| && ids[1..][i] == x && indices[1..][i] == b {
        var i :| 0 <= i < |ids[1..]| && ids[1..][i] == x && indices[1..][i] == b;
        assert ids[i + 1] == x && indices[i + 1] == b;
      }
    }
  }

  /** What the building loops leave: the heap of entries, the new buckets, and the first and
      last entries of the new sequence. */
  datatype Built<E> = Built(heap: map<Id, E>, buckets: AtomicArray<Id>, first: Option<Id>, last: Option<Id>)

  /** One step of the building loops: a new entry `id` for the item, prepended to its bucket,
      and linked after `last` in sequence. */
  function Place<E>(c: Config, k: Kind<E>, heap: map<Id, E>, buckets: AtomicArray<Id>, last: Option<Id>, item: Item, id: Id): (r: Result<(map<Id, E>, AtomicArray<Id>)>)
    requires id !in heap && (last.Some? ==> last.value in heap)
    ensures r.Ok? ==> r.value.0.Keys == heap.Keys + {id} && Length(r.value.1) == Length(buckets)
  {
    var step :- Prepend(c, k, heap[id := k.make(item)], buckets, id);
    var h := step.0;
    if last.None? then Ok((h, step.1))
    else Ok((h[last.value := k.next.write(h[last.value], Some(id))][id := k.previous.write(h[id], last)], step.1))
  }

  /** The building loops of `fromBuckets` and `copyInto`: one new entry per item, with the
      fresh identities `ids`, in order. */
  function Build<E>(c: Config, k: Kind<E>, heap: map<Id, E>, buckets: AtomicArray<Id>, first: Option<Id>, last: Option<Id>,
                    items: seq<Item>, ids: seq<Id>): (r: Result<Built<E>>)
    requires |ids| == |items| && Distinct(ids) && (forall id :: id in ids ==> id !in heap)
    requires last.Some? ==> last.value in heap
    ensures r.Ok? ==> heap.Keys <= r.value.heap.Keys && (forall id :: id in ids ==> id in r.value.heap)
    ensures r.Ok? ==> forall id :: id in r.value.heap ==> id in heap || id in ids
    ensures r.Ok? ==> Length(r.value.buckets) == Length(buckets)
    ensures r.Ok? ==> r.value.last == if ids == [] then last else Some(ids[|ids| - 1])
    ensures r.Ok? ==> r.value.first == if first.None? && ids != [] then Some(ids[0]) else first
    decreases |items|
  {
    if items == [] then Ok(Built(heap, buckets, first, last))
    else
      var id := ids[0];
      var step :- Place(c, k, heap, buckets, last, items[0], id);
      assert forall x :: x in ids[1..] ==> x in ids && x != id;
      assert forall x :: x in ids ==> x == id || x in ids[1..];
      Build(c, k, step.0, step.1, if first.None? then Some(id) else first, Some(id), items[1..], ids[1..])
  }

  /** A step places the new entry at the head of its bucket, holding the item, with null
      sequence successor and `last` before it; of the old entries only `last` changes, in its
      successor alone. */
  lemma PlaceFacts<E(!new)>(c: Config, k: Kind<E>, heap: map<Id, E>, buckets: AtomicArray<Id>, last: Option<Id>, item: Item, id: Id)
    requires Valid(c) && LawfulKind(k) && Length(buckets) > 0
    requires id !in heap && (last.Some? ==> last.value in heap)
    ensures var r := Place(c, k, heap, buckets, last, item, id);
      var index := c.bucketIndex(item.hashed, Length(buckets));
      r.Ok? && 0 <= index < Length(buckets)
      && r.value.1 == AtomicArray(buckets.slots[index := Some(id)])
      && k.itemOf(r.value.0[id]) == item
      && k.lookup.read(r.value.0[id]) == buckets.slots[index]
      && k.next.read(r.value.0[id]).None?
      && k.previous.read(r.value.0[id]) == last
      && forall x :: x in heap ==>
           k.itemOf(r.value.0[x]) == k.itemOf(heap[x])
           && k.lookup.read(r.value.0[x]) == k.lookup.read(heap[x])
           && k.previous.read(r.value.0[x]) == k.previous.read(heap[x])
           && k.next.read(r.value.0[x]) == (if last == Some(x) then Some(id) else k.next.read(heap[x]))
           && (Some(x) != last ==> r.value.0[x] == heap[x])
  {
    var heap1 := heap[id := k.make(item)];
    assert k.itemOf(heap1[id]) == item;
  }

  /** The order a sequence of entries is linked in: forward links from `first` meet `order`,
      `last` is its final entry, and each entry's backward link is its predecessor. */
  ghost predicate Sequence<E>(k: Kind<E>, heap: map<Id, E>, first: Option<Id>, last: Option<Id>, order: seq<Id>) {
    Chain(heap, k.next.read, first, order)
    && (if order == [] then last.None? else last == Some(order[|order| - 1]))
    && (forall i :: 0 <= i < |order| ==> order[i] in heap)
    && (order != [] ==> k.previous.read(heap[order[0]]).None?)
    && forall i :: 0 < i < |order| ==> k.previous.read(heap[order[i]]) == Some(order[i - 1])
  }

  /** A step appends the new entry to the sequence. */
  lemma PlaceSequence<E(!new)>(c: Config, k: Kind<E>, heap: map<Id, E>, buckets: AtomicArray<Id>, first: Option<Id>, last: Option<Id>,
                               order: seq<Id>, item: Item, id: Id)
    requires Valid(c) && LawfulKind(k) && Length(buckets) > 0
    requires id !in heap && Sequence(k, heap, first, last, order)
    ensures last.Some? ==> last.value in heap
    ensures var r := Place(c, k, heap, buckets, last, item, id);
      r.Ok? && Sequence(k, r.value.0, if first.None? then Some(id) else first, Some(id), order + [id])
  {
    PlaceFacts(c, k, heap, buckets, last, item, id);
    var heap' := Place(c, k, heap, buckets, last, item, id).value.0;
    ChainMembers(heap, k.next.read, first, order);
    ChainDistinct(heap, k.next.read, first, order);
    forall i | 0 <= i < |order|
      ensures k.next.read(heap'[order[i]]) == if i == |order| - 1 then Some(id) else k.next.read(heap[order[i]])
    {
      assert last == Some(order[i]) <==> i == |order| - 1;
    }
    ChainAppend(heap, heap', k.next.read, first, order, id);
    if order == [] {
      assert first.None?;
    }
    var order' := order + [id];
    forall i | 0 <= i < |order'|
      ensures order'[i] in heap'
    {
      if i < |order| {
        assert order'[i] == order[i];
      }
    }
    forall i | 0 < i < |order'|
      ensures k.previous.read(heap'[order'[i]]) == Some(order'[i - 1])
    {
      assert order'[i - 1] == order[i - 1];
      if i < |order| {
        assert order'[i] == order[i];
      }
    }
    if order != [] {
      assert order'[0] == order[0];
    }
  }

  /** A step puts the new entry at the head of its bucket's chain and keeps every other chain. */
  lemma PlaceChains<E(!new)>(c: Config, k: Kind<E>, heap: map<Id, E>, buckets: AtomicArray<Id>, last: Option<Id>,
                             item: Item, id: Id, chains: seq<seq<Id>>)
    requires Valid(c) && LawfulKind(k) && Length(buckets) > 0
    requires id !in heap && (last.Some? ==> last.value in heap) && Chains(k, heap, buckets, chains)
    ensures var r := Place(c, k, heap, buckets, last, item, id);
      var index := c.bucketIndex(item.hashed, Length(buckets));
      r.Ok? && 0 <= index < |chains| && Chains(k, r.value.0, r.value.1, chains[index := [id] + chains[index]])
  {
    PlaceFacts(c, k, heap, buckets, last, item, id);
    var index := c.bucketIndex(item.hashed, Length(buckets));
    var r := Place(c, k, heap, buckets, last, item, id).value;
    var chains' := chains[index := [id] + chains[index]];
    forall b | 0 <= b < |chains'|
      ensures Chain(r.0, k.lookup.read, r.1.slots[b], chains'[b])
    {
      ChainMembers(heap, k.lookup.read, buckets.slots[b], chains[b]);
      ChainFrame(heap, r.0, k.lookup.read, buckets.slots[b], chains[b]);
      if b == index {
        assert chains'[b][1..] == chains[b];
      }
    }
  }

  /** The building loop grows the buckets as `resize`'s does: each bucket gains the new
      entries of its index in reverse order. */
  lemma {:induction false} BuildChains<E(!new)>(c: Config, k: Kind<E>, heap: map<Id, E>, buckets: AtomicArray<Id>, first: Option<Id>, last: Option<Id>,
                                                items: seq<Item>, ids: seq<Id>, chains: seq<seq<Id>>)
    requires Valid(c) && LawfulKind(k) && Length(buckets) > 0
    requires |ids| == |items| && Distinct(ids) && (forall id :: id in ids ==> id !in heap)
    requires (last.Some? ==> last.value in heap) && Chains(k, heap, buckets, chains)
    ensures var r := Build(c, k, heap, buckets, first, last, items, ids);
      r.Ok? && Chains(k, r.value.heap, r.value.buckets, Grown(chains, ids, Indices(c, Length(buckets), items)))
    decreases |items|
  {
    if items == [] {
      GrownNone(chains);
    } else {
      var id := ids[0];
      PlaceChains(c, k, heap, buckets, last, items[0], id, chains);
      var step := Place(c, k, heap, buckets, last, items[0], id).value;
      var index := c.bucketIndex(items[0].hashed, Length(buckets));
      BuildUnfold(c, k, heap, buckets, first, last, items, ids, step);
      BuildChains(c, k, step.0, step.1, if first.None? then Some(id) else first, Some(id), items[1..], ids[1..],
                  chains[index := [id] + chains[index]]);
      var indices := Indices(c, Length(buckets), items);
      assert Indices(c, Length(buckets), items[1..]) == indices[1..];
      GrownStep(chains, ids, indices);
    }
  }

  /** The building loop links the new entries after the old sequence, in order. */
  lemma {:induction false} BuildSequence<E(!new)>(c: Config, k: Kind<E>, heap: map<Id, E>, buckets: AtomicArray<Id>, first: Option<Id>, last: Option<Id>,
                                                  items: seq<Item>, ids: seq<Id>, order: seq<Id>)
    requires Valid(c) && LawfulKind(k) && Length(buckets) > 0
    requires |ids| == |items| && Distinct(ids) && (forall id :: id in ids ==> id !in heap)
    requires (last.Some? ==> last.value in heap) && Sequence(k, heap, first, last, order)
    ensures var r := Build(c, k, heap, buckets, first, last, items, ids);
      r.Ok? && Sequence(k, r.value.heap, r.value.first, r.value.last, order + ids)
    decreases |items|
  {
    if items == [] {
      assert order + ids == order;
    } else {
      var id := ids[0];
      PlaceSequence(c, k, heap, buckets, first, last, order, items[0], id);
      var step := Place(c, k, heap, buckets, last, items[0], id).value;
      var first' := if first.None? then Some(id) else first;
      BuildUnfold(c, k, heap, buckets, first, last, items, ids, step);
      BuildSequence(c, k, step.0, step.1, first', Some(id), items[1..], ids[1..], order + [id]);
      ConcatFirst(order, ids);
    }
  }

  lemma ConcatFirst<T>(s: seq<T>, t: seq<T>)
    requires t != []
    ensures s + [t[0]] + t[1..] == s + t
  {
    assert [t[0]] + t[1..] == t;
  }

  /** One turn of the building loop: the first item placed, then the loop over the rest. */
  lemma BuildUnfold<E>(c: Config, k: Kind<E>, heap: map<Id, E>, buckets: AtomicArray<Id>, first: Option<Id>, last: Option<Id>,
                       items: seq<Item>, ids: seq<Id>, step: (map<Id, E>, AtomicArray<Id>))
    requires |ids| == |items| && items != [] && Distinct(ids) && (forall id :: id in ids ==> id !in heap)
    requires last.Some? ==> last.value in heap
    requires Place(c, k, heap, buckets, last, items[0], ids[0]) == Ok(step)
    ensures ids[0] in step.0 && Distinct(ids[1..]) && forall x :: x in ids[1..] ==> x !in step.0
    ensures Build(c, k, heap, buckets, first, last, items, ids)
            == Build(c, k, step.0, step.1, if first.None? then Some(ids[0]) else first, Some(ids[0]), items[1..], ids[1..])
  {
    assert forall x :: x in ids[1..] ==> x in ids && x != ids[0];
  }

  /** The building loop gives each new entry its item and keeps the items of the old ones. */
  lemma {:induction false} BuildItems<E(!new)>(c: Config, k: Kind<E>, heap: map<Id, E>, buckets: AtomicArray<Id>, first: Option<Id>, last: Option<Id>,
                                               items: seq<Item>, ids: seq<Id>)
    requires Valid(c) && LawfulKind(k) && Length(buckets) > 0
    requires |ids| == |items| && Distinct(ids) && (forall id :: id in ids ==> id !in heap)
    requires last.Some? ==> last.value in heap
    ensures var r := Build(c, k, heap, buckets, first, last, items, ids);
      r.Ok? && (forall i :: 0 <= i < |ids| ==> k.itemOf(r.value.heap[ids[i]]) == items[i])
      && forall x :: x in heap ==> k.itemOf(r.value.heap[x]) == k.itemOf(heap[x])
    decreases |items|
  {
    if items != [] {
      var id := ids[0];
      PlaceFacts(c, k, heap, buckets, last, items[0], id);
      var step := Place(c, k, heap, buckets, last, items[0], id).value;
      BuildUnfold(c, k, heap, buckets, first, last, items, ids, step);
      BuildItems(c, k, step.0, step.1, if first.None? then Some(id) else first, Some(id), items[1..], ids[1..]);
      var r := Build(c, k, heap, buckets, first, last, items, ids).value;
      forall i | 0 <= i < |ids|
        ensures k.itemOf(r.heap[ids[i]]) == items[i]
      {
        if i > 0 {
          assert ids[1..][i - 1] == ids[i];
        }
      }
    }
  }

  /** Building into `count` fresh buckets: the new entries hold the items, form the sequence
      in order from `first` to `last`, and bucket `b` chains, newest first, exactly the new
      entries whose hash has index `b`. */
  lemma BuildFresh<E(!new)>(c: Config, k: Kind<E>, heap: map<Id, E>, count: int, items: seq<Item>, ids: seq<Id>)
    requires Valid(c) && LawfulKind(k) && count > 0
    requires |ids| == |items| && Distinct(ids) && (forall id :: id in ids ==> id !in heap)
    ensures New<Id>(count).Ok?
    ensures var r := Build(c, k, heap, New<Id>(count).value, None, None, items, ids);
      var indices := Indices(c, count, items);
      r.Ok? && Length(r.value.buckets) == count
      && Sequence(k, r.value.heap, r.value.first, r.value.last, ids)
      && (forall i :: 0 <= i < |ids| ==> k.itemOf(r.value.heap[ids[i]]) == items[i])
      && forall b :: 0 <= b < count ==> Chain(r.value.heap, k.lookup.read, r.value.buckets.slots[b], Reverse(Members(ids, indices, b)))
  {
    var buckets := New<Id>(count).value;
    var empty: seq<seq<Id>> := seq(count, _ => []);
    assert Chains(k, heap, buckets, empty);
    BuildChains(c, k, heap, buckets, None, None, items, ids, empty);
    BuildSequence(c, k, heap, buckets, None, None, items, ids, []);
    BuildItems(c, k, heap, buckets, None, None, items, ids);
    var r := Build(c, k, heap, buckets, None, None, items, ids).value;
    var indices := Indices(c, count, items);
    var grown := Grown(empty, ids, indices);
    forall b | 0 <= b < count
      ensures Chain(r.heap, k.lookup.read, r.buckets.slots[b], Reverse(Members(ids, indices, b)))
    {
      assert grown[b] == Reverse(Members(ids, indices, b)) + [];
      assert Reverse(Members(ids, indices, b)) + [] == Reverse(Members(ids, indices, b));
    }
    assert [] + ids == ids;
  }

  /** The building loop changes no old entry except `last`, the one it links the first new
      entry after. */
  lemma {:induction false} BuildKeepsOld<E(!new)>(c: Config, k: Kind<E>, heap: map<Id, E>, buckets: AtomicArray<Id>, first: Option<Id>, last: Option<Id>,
                                                  items: seq<Item>, ids: seq<Id>)
    requires Valid(c) && LawfulKind(k) && Length(buckets) > 0
    requires |ids| == |items| && Distinct(ids) && (forall id :: id in ids ==> id !in heap)
    requires last.Some? ==> last.value in heap
    ensures var r := Build(c, k, heap, buckets, first, last, items, ids);
      r.Ok? && forall x :: x in heap && Some(x) != last ==> r.value.heap[x] == heap[x]
    decreases |items|
  {
    if items != [] {
      var id := ids[0];
      PlaceFacts(c, k, heap, buckets, last, items[0], id);
      var step := Place(c, k, heap, buckets, last, items[0], id).value;
      BuildUnfold(c, k, heap, buckets, first, last, items, ids, step);
      BuildKeepsOld(c, k, step.0, step.1, if first.None? then Some(id) else first, Some(id), items[1..], ids[1..]);
    }
  }

  /** A property that a new entry has and that no link write takes away: a step gives it to
      the new entry and keeps it for the old ones. */
  lemma PlaceGood<E(!new)>(c: Config, k: Kind<E>, heap: map<Id, E>, buckets: AtomicArray<Id>, last: Option<Id>, item: Item, id: Id, good: E -> bool)
    requires id !in heap && (last.Some? ==> last.value in heap)
    requires good(k.make(item))
    requires forall e, x {:trigger k.lookup.write(e, x)} :: good(e) ==> good(k.lookup.write(e, x))
    requires forall e, x {:trigger k.next.write(e, x)} :: good(e) ==> good(k.next.write(e, x))
    requires forall e, x {:trigger k.previous.write(e, x)} :: good(e) ==> good(k.previous.write(e, x))
    ensures var r := Place(c, k, heap, buckets, last, item, id);
      r.Ok? ==> good(r.value.0[id]) && forall x :: x in heap && good(heap[x]) ==> good(r.value.0[x])
  {
  }

  /** Such a property holds of every entry the building loop makes, and of every old entry
      that had it. */
  lemma {:induction false} BuildNew<E(!new)>(c: Config, k: Kind<E>, heap: map<Id, E>, buckets: AtomicArray<Id>, first: Option<Id>, last: Option<Id>,
                                             items: seq<Item>, ids: seq<Id>, good: E -> bool)
    requires |ids| == |items| && Distinct(ids) && (forall id :: id in ids ==> id !in heap)
    requires last.Some? ==> last.value in heap
    requires forall it {:trigger k.make(it)} :: good(k.make(it))
    requires forall e, x {:trigger k.lookup.write(e, x)} :: good(e) ==> good(k.lookup.write(e, x))
    requires forall e, x {:trigger k.next.write(e, x)} :: good(e) ==> good(k.next.write(e, x))
    requires forall e, x {:trigger k.previous.write(e, x)} :: good(e) ==> good(k.previous.write(e, x))
    ensures var r := Build(c, k, heap, buckets, first, last, items, ids);
      r.Ok? ==> (forall id :: id in ids ==> good(r.value.heap[id]))
                && forall x :: x in heap && good(heap[x]) ==> good(r.value.heap[x])
    decreases |items|
  {
    if items != [] {
      var id := ids[0];
      var p := Place(c, k, heap, buckets, last, items[0], id);
      if p.Ok? {
        PlaceGood(c, k, heap, buckets, last, items[0], id, good);
        var step := p.value;
        BuildUnfold(c, k, heap, buckets, first, last, items, ids, step);
        assert forall x :: x in ids ==> x == id || x in ids[1..];
        var first' := if first.None? then Some(id) else first;
        BuildNew(c, k, step.0, step.1, first', Some(id), items[1..], ids[1..], good);
      }
    }
  }
}
