/** Singly linked chains of hash entries, followed through one link field. Entries live in a
    heap keyed by identity; a chain from `start` is the sequence of identities met by
    following the link until it is null. */
module Links {
  import opened Values

  type Id = nat

  /** Reading and writing one link field of an entry type. */
  datatype Field<!E> = Field(read: E -> Option<Id>, write: (E, Option<Id>) -> E)

  /** What an entry holds besides its links. */
  datatype Item = Item(hashed: int, key: Value, value: Value)

  /** An entry class: its constructor from an item, the item it holds, and its three link
      fields. */
  datatype Kind<!E> = Kind(make: Item -> E, itemOf: E -> Item, lookup: Field<E>, next: Field<E>, previous: Field<E>)

  /** The constructor keeps the item and leaves every link null; each link field reads back
      what was written to it, and writing one changes neither the item nor the other links. */
  ghost predicate LawfulKind<E(!new)>(k: Kind<E>) {
    Lawful(k.lookup) && Lawful(k.next) && Lawful(k.previous)
    && (forall it {:trigger k.make(it)} :: k.itemOf(k.make(it)) == it
          && k.lookup.read(k.make(it)).None? && k.next.read(k.make(it)).None? && k.previous.read(k.make(it)).None?)
    && (forall e, x {:trigger k.lookup.write(e, x)} :: var w := k.lookup.write(e, x);
          k.itemOf(w) == k.itemOf(e) && k.next.read(w) == k.next.read(e) && k.previous.read(w) == k.previous.read(e))
    && (forall e, x {:trigger k.next.write(e, x)} :: var w := k.next.write(e, x);
          k.itemOf(w) == k.itemOf(e) && k.lookup.read(w) == k.lookup.read(e) && k.previous.read(w) == k.previous.read(e))
    && (forall e, x {:trigger k.previous.write(e, x)} :: var w := k.previous.write(e, x);
          k.itemOf(w) == k.itemOf(e) && k.lookup.read(w) == k.lookup.read(e) && k.next.read(w) == k.next.read(e))
  }

  /** Writing the field and reading it back gives the written link. */
  ghost predicate Lawful<E(!new)>(f: Field<E>) {
    forall e: E, x: Option<Id> {:trigger f.write(e, x)} :: f.read(f.write(e, x)) == x
  }

  /** Following `next` from `start` meets exactly `ids`, all in the heap, and then null. */
  ghost predicate Chain<E>(heap: map<Id, E>, next: E -> Option<Id>, start: Option<Id>, ids: seq<Id>)
    decreases |ids|
  {
    if ids == [] then start.None?
    else start == Some(ids[0]) && ids[0] in heap && Chain(heap, next, next(heap[ids[0]]), ids[1..])
  }

  predicate Distinct<T(==)>(s: seq<T>) {
    forall i, j :: 0 <= i < j < |s| ==> s[i] != s[j]
  }

  function Reverse<T>(s: seq<T>): (r: seq<T>)
    ensures |r| == |s|
    ensures forall i :: 0 <= i < |s| ==> r[i] == s[|s| - 1 - i]
  {
    if s == [] then [] else Reverse(s[1..]) + [s[0]]
  }

  /** The identities of a chain, collected by following `next` from `start`; a walk that
      meets an identity outside the heap, or takes more than `fuel` steps, gives None. */
  function Collect<E>(heap: map<Id, E>, next: E -> Option<Id>, start: Option<Id>, fuel: nat): (r: Option<seq<Id>>)
    ensures r.Some? ==> Chain(heap, next, start, r.value) && |r.value| <= fuel
    decreases fuel
  {
    match start
    case None => Some([])
    case Some(id) =>
      if id !in heap || fuel == 0 then None
      else match Collect(heap, next, next(heap[id]), fuel - 1)
        case None => None
        case Some(rest) => Some([id] + rest)
  }

  /** The chain from a start is unique. */
  lemma {:induction false} ChainUnique<E>(heap: map<Id, E>, next: E -> Option<Id>, start: Option<Id>, a: seq<Id>, b: seq<Id>)
    requires Chain(heap, next, start, a) && Chain(heap, next, start, b)
    ensures a == b
    decreases |a|
  {
    if a != [] && b != [] {
      ChainUnique(heap, next, next(heap[a[0]]), a[1..], b[1..]);
    }
  }

  /** Every suffix of a chain is the chain from its first identity. */
  lemma {:induction false} ChainSuffix<E>(heap: map<Id, E>, next: E -> Option<Id>, start: Option<Id>, ids: seq<Id>, k: nat)
    requires Chain(heap, next, start, ids) && k < |ids|
    ensures Chain(heap, next, Some(ids[k]), ids[k..])
    decreases k
  {
    if k > 0 {
      ChainSuffix(heap, next, next(heap[ids[0]]), ids[1..], k - 1);
      assert ids[1..][k - 1..] == ids[k..];
    }
  }

  /** A chain never meets an identity twice: it would then go round for ever. */
  lemma ChainDistinct<E>(heap: map<Id, E>, next: E -> Option<Id>, start: Option<Id>, ids: seq<Id>)
    requires Chain(heap, next, start, ids)
    ensures Distinct(ids)
  {
    forall i, j | 0 <= i < j < |ids|
      ensures ids[i] != ids[j]
    {
      if ids[i] == ids[j] {
        ChainSuffix(heap, next, start, ids, i);
        ChainSuffix(heap, next, start, ids, j);
        ChainUnique(heap, next, Some(ids[i]), ids[i..], ids[j..]);
      }
    }
  }

  /** A chain only depends on the links of its own entries. */
  lemma {:induction false} ChainFrame<E>(heap: map<Id, E>, heap': map<Id, E>, next: E -> Option<Id>, start: Option<Id>, ids: seq<Id>)
    requires Chain(heap, next, start, ids)
    requires forall id :: id in ids ==> id in heap && id in heap' && next(heap'[id]) == next(heap[id])
    ensures Chain(heap', next, start, ids)
    decreases |ids|
  {
    if ids != [] {
      ChainFrame(heap, heap', next, next(heap[ids[0]]), ids[1..]);
    }
  }

  /** Distinct identities of the heap are no more than the heap holds. */
  lemma {:induction false} DistinctWithinHeap<E>(heap: map<Id, E>, ids: seq<Id>)
    requires Distinct(ids) && forall id :: id in ids ==> id in heap
    ensures |ids| <= |heap|
    decreases |ids|
  {
    if ids != [] {
      var rest := heap - {ids[0]};
      assert forall id :: id in ids[1..] ==> id in rest by {
        forall id | id in ids[1..]
          ensures id in rest
        {
          var k :| 0 <= k < |ids[1..]| && ids[1..][k] == id;
          assert ids[k + 1] == id;
        }
      }
      DistinctWithinHeap(rest, ids[1..]);
      assert |rest| == |heap| - 1;
    }
  }

  /** Collecting with enough fuel finds exactly the chain; the size of the heap is always
      enough. */
  lemma {:induction false} CollectFindsChain<E>(heap: map<Id, E>, next: E -> Option<Id>, start: Option<Id>, ids: seq<Id>, fuel: nat)
    requires Chain(heap, next, start, ids) && fuel >= |ids|
    ensures Collect(heap, next, start, fuel) == Some(ids)
    decreases |ids|
  {
    if ids != [] {
      CollectFindsChain(heap, next, next(heap[ids[0]]), ids[1..], fuel - 1);
      assert [ids[0]] + ids[1..] == ids;
    }
  }

  lemma ChainWithinHeap<E>(heap: map<Id, E>, next: E -> Option<Id>, start: Option<Id>, ids: seq<Id>)
    requires Chain(heap, next, start, ids)
    ensures |ids| <= |heap|
    ensures forall id :: id in ids ==> id in heap
  {
    ChainDistinct(heap, next, start, ids);
    ChainMembers(heap, next, start, ids);
    DistinctWithinHeap(heap, ids);
  }

  lemma {:induction false} ChainMembers<E>(heap: map<Id, E>, next: E -> Option<Id>, start: Option<Id>, ids: seq<Id>)
    requires Chain(heap, next, start, ids)
    ensures forall id :: id in ids ==> id in heap
    decreases |ids|
  {
    if ids != [] {
      ChainMembers(heap, next, next(heap[ids[0]]), ids[1..]);
      assert forall id :: id in ids ==> id == ids[0] || id in ids[1..];
    }
  }

  /** Linking a new last identity after a chain: the chain grows by it. */
  lemma {:induction false} ChainAppend<E>(heap: map<Id, E>, heap': map<Id, E>, next: E -> Option<Id>, start: Option<Id>, ids: seq<Id>, id: Id)
    requires Chain(heap, next, start, ids)
    requires id in heap' && next(heap'[id]).None?
    requires forall i :: 0 <= i < |ids| ==> ids[i] in heap && ids[i] in heap'
    requires forall i :: 0 <= i < |ids| ==> next(heap'[ids[i]]) == if i == |ids| - 1 then Some(id) else next(heap[ids[i]])
    ensures Chain(heap', next, if ids == [] then Some(id) else start, ids + [id])
    decreases |ids|
  {
    if ids != [] {
      var rest := ids[1..];
      assert forall i :: 0 <= i < |rest| ==> rest[i] == ids[i + 1];
      ChainAppend(heap, heap', next, next(heap[ids[0]]), rest, id);
      assert (ids + [id])[1..] == rest + [id];
      if rest == [] {
        assert next(heap'[ids[0]]) == Some(id);
      } else {
        assert next(heap'[ids[0]]) == next(heap[ids[0]]);
      }
    }
  }

  /** Linking a new identity between a chain's last two: the chain grows by it there. */
  lemma {:induction false} ChainInsertBeforeLast<E>(heap: map<Id, E>, heap': map<Id, E>, next: E -> Option<Id>, start: Option<Id>,
                                                    ids: seq<Id>, id: Id)
    requires Chain(heap, next, start, ids) && |ids| >= 2
    requires id in heap' && next(heap'[id]) == Some(ids[|ids| - 1])
    requires forall i :: 0 <= i < |ids| ==> ids[i] in heap && ids[i] in heap'
    requires forall i :: 0 <= i < |ids| ==> next(heap'[ids[i]]) == if i == |ids| - 2 then Some(id) else next(heap[ids[i]])
    ensures Chain(heap', next, start, ids[..|ids| - 1] + [id] + [ids[|ids| - 1]])
    decreases |ids|
  {
    var rest := ids[1..];
    assert forall i :: 0 <= i < |rest| ==> rest[i] == ids[i + 1];
    var grown := ids[..|ids| - 1] + [id] + [ids[|ids| - 1]];
    if |ids| == 2 {
      assert Chain(heap, next, next(heap[ids[0]]), rest);
      assert Chain(heap, next, next(heap[rest[0]]), rest[1..]);
      assert next(heap[ids[1]]).None?;
      assert Chain(heap', next, next(heap'[ids[1]]), []);
      assert grown == [ids[0], id, ids[1]];
      assert Chain(heap', next, Some(id), grown[1..]);
    } else {
      ChainInsertBeforeLast(heap, heap', next, next(heap[ids[0]]), rest, id);
      assert grown[1..] == rest[..|rest| - 1] + [id] + [rest[|rest| - 1]];
    }
  }

  /** Every identity of the heap is below `next`, the allocation frontier. */
  predicate Below<E>(heap: map<Id, E>, next: Id) {
    forall id :: id in heap ==> id < next
  }

  /** The identities of `n` new objects allocated from the frontier `next`. */
  function Allocate(next: Id, n: nat): (r: seq<Id>)
    ensures |r| == n
    ensures forall i :: 0 <= i < n ==> r[i] == next + i
  {
    seq(n, i => next + i)
  }

  /** Allocated identities are distinct and new to a heap below the frontier. */
  lemma AllocateFresh<E>(heap: map<Id, E>, next: Id, n: nat)
    requires Below(heap, next)
    ensures Distinct(Allocate(next, n))
    ensures forall id :: id in Allocate(next, n) ==> id !in heap && id >= next
  {
  }
}
