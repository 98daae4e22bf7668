/** Finding a key in its bucket: the hash of the key picks the bucket, and the walk follows the
    lookup links to the first entry whose key is equal. `doLookup` of the concurrent hash and
    the lookup of a bucket hash share the walk and differ in what they report when the key is
    absent. */
module Lookup {
  import opened Values
  import opened Links
  import opened AtomicArrays
  import opened HashConfig

  /** The key's hash, its bucket, the entry before the one found, and the entry found. */
  datatype LookupResult = LookupResult(hashed: int, index: int, previous: Option<Id>, entry: Option<Id>)

  /** Whether the entry `id` holds the key, compared as the hash compares keys. */
  predicate Matches<E>(c: Config, k: Kind<E>, heap: map<Id, E>, byIdentity: bool, key: Value, hashed: int, id: Id)
    requires id in heap
  {
    var it := k.itemOf(heap[id]);
    c.equalKeys(byIdentity, key, hashed, it.key, it.hashed)
  }

  /** The walk of both lookups from `entry`, `previous` being the entry met before it: the
      matching entry and the one before it, or, when no entry matches, the last entry met and
      None. */
  function Find<E>(c: Config, k: Kind<E>, heap: map<Id, E>, byIdentity: bool, key: Value, hashed: int,
                   entry: Option<Id>, previous: Option<Id>, fuel: nat): (r: Result<(Option<Id>, Option<Id>)>)
    ensures r.Ok? && r.value.1.Some? ==> r.value.1.value in heap && Matches(c, k, heap, byIdentity, key, hashed, r.value.1.value)
    decreases fuel
  {
    match entry
    case None => Ok((previous, None))
    case Some(id) =>
      if id !in heap || fuel == 0 then Raise(Stuck)
      else if Matches(c, k, heap, byIdentity, key, hashed, id) then Ok((previous, entry))
      else Find(c, k, heap, byIdentity, key, hashed, k.lookup.read(heap[id]), entry, fuel - 1)
  }

  /** The position of the first entry of `chain` that holds the key, or `|chain|` when none
      does. */
  function FirstMatch<E>(c: Config, k: Kind<E>, heap: map<Id, E>, byIdentity: bool, key: Value, hashed: int, chain: seq<Id>): (r: nat)
    requires forall x :: x in chain ==> x in heap
    ensures r <= |chain|
    ensures forall j :: 0 <= j < r ==> !Matches(c, k, heap, byIdentity, key, hashed, chain[j])
    ensures r < |chain| ==> Matches(c, k, heap, byIdentity, key, hashed, chain[r])
  {
    if chain == [] then 0
    else if Matches(c, k, heap, byIdentity, key, hashed, chain[0]) then 0
    else 1 + FirstMatch(c, k, heap, byIdentity, key, hashed, chain[1..])
  }

  /** Walking a chain finds its first matching entry and the entry before it; without a match
      it ends at the chain's last entry. */
  lemma {:induction false} FindFirstMatch<E>(c: Config, k: Kind<E>, heap: map<Id, E>, byIdentity: bool, key: Value, hashed: int,
                                             start: Option<Id>, previous: Option<Id>, chain: seq<Id>, fuel: nat)
    requires Chain(heap, k.lookup.read, start, chain) && fuel >= |chain|
    ensures forall x :: x in chain ==> x in heap
    ensures var i := FirstMatch(c, k, heap, byIdentity, key, hashed, chain);
      Find(c, k, heap, byIdentity, key, hashed, start, previous, fuel)
        == Ok((if i == 0 then previous else Some(chain[i - 1]), if i < |chain| then Some(chain[i]) else None))
    decreases |chain|
  {
    ChainMembers(heap, k.lookup.read, start, chain);
    if chain != [] && !Matches(c, k, heap, byIdentity, key, hashed, chain[0]) {
      var rest := chain[1..];
      FindSkips(c, k, heap, byIdentity, key, hashed, start, previous, chain, fuel);
      FindFirstMatch(c, k, heap, byIdentity, key, hashed, k.lookup.read(heap[chain[0]]), start, rest, fuel - 1);
      var i := FirstMatch(c, k, heap, byIdentity, key, hashed, rest);
      if i > 0 {
        assert rest[i - 1] == chain[i];
      }
      if i < |rest| {
        assert rest[i] == chain[i + 1];
      }
    }
  }

  /** Walking past an entry that does not hold the key: the walk goes on from its lookup link,
      and the first match lies one further along. */
  lemma FindSkips<E>(c: Config, k: Kind<E>, heap: map<Id, E>, byIdentity: bool, key: Value, hashed: int,
                     start: Option<Id>, previous: Option<Id>, chain: seq<Id>, fuel: nat)
    requires Chain(heap, k.lookup.read, start, chain) && fuel >= |chain| && chain != []
    requires forall x :: x in chain ==> x in heap
    requires !Matches(c, k, heap, byIdentity, key, hashed, chain[0])
    ensures Chain(heap, k.lookup.read, k.lookup.read(heap[chain[0]]), chain[1..]) && fuel - 1 >= |chain[1..]|
    ensures Find(c, k, heap, byIdentity, key, hashed, start, previous, fuel)
            == Find(c, k, heap, byIdentity, key, hashed, k.lookup.read(heap[chain[0]]), start, fuel - 1)
    ensures FirstMatch(c, k, heap, byIdentity, key, hashed, chain) == 1 + FirstMatch(c, k, heap, byIdentity, key, hashed, chain[1..])
  {
    assert forall x :: x in chain[1..] ==> x in chain;
  }

  /** `doLookup` of the concurrent hash: the bucket of the key's hash, walked from its head;
      when the key is absent, the bucket head takes the place of the previous entry. */
  function DoLookup<E>(c: Config, k: Kind<E>, heap: map<Id, E>, buckets: AtomicArray<Id>, key: Value, compareByIdentity: bool): (r: Result<LookupResult>)
    ensures r.Ok? ==> r.value.hashed == c.hashKey(key, compareByIdentity)
                      && r.value.index == c.bucketIndex(r.value.hashed, Length(buckets))
                      && 0 <= r.value.index < Length(buckets)
    ensures r.Ok? && r.value.entry.None? ==> r.value.previous == buckets.slots[r.value.index]
    ensures r.Ok? && r.value.entry.Some? ==> r.value.entry.value in heap
  {
    var hashed := c.hashKey(key, compareByIdentity);
    var index := c.bucketIndex(hashed, Length(buckets));
    var first :- Get(buckets, index);
    var found :- Find(c, k, heap, compareByIdentity, key, hashed, first, None, |heap|);
    if found.1.None? then Ok(LookupResult(hashed, index, first, None))
    else Ok(LookupResult(hashed, index, found.0, found.1))
  }

  /** The lookup of a bucket hash, which reports the last entry of the chain as the previous
      one when the key is absent, so that an insertion can link after it. */
  function LookupEntry<E>(c: Config, k: Kind<E>, heap: map<Id, E>, buckets: AtomicArray<Id>, key: Value, compareByIdentity: bool): (r: Result<LookupResult>)
    ensures r.Ok? ==> r.value.hashed == c.hashKey(key, compareByIdentity)
                      && r.value.index == c.bucketIndex(r.value.hashed, Length(buckets))
                      && 0 <= r.value.index < Length(buckets)
    ensures r.Ok? && r.value.entry.Some? ==> r.value.entry.value in heap
  {
    var hashed := c.hashKey(key, compareByIdentity);
    var index := c.bucketIndex(hashed, Length(buckets));
    var first :- Get(buckets, index);
    var found :- Find(c, k, heap, compareByIdentity, key, hashed, first, None, |heap|);
    Ok(LookupResult(hashed, index, found.0, found.1))
  }

  /** On a well-formed bucket, `doLookup` finds the first entry holding the key, with its
      predecessor (null for the head); when no entry holds the key it reports the bucket head
      and no entry. */
  lemma DoLookupFinds<E>(c: Config, k: Kind<E>, heap: map<Id, E>, buckets: AtomicArray<Id>, key: Value, compareByIdentity: bool, chain: seq<Id>)
    requires Valid(c) && Length(buckets) > 0
    requires var index := c.bucketIndex(c.hashKey(key, compareByIdentity), Length(buckets));
      0 <= index < Length(buckets) && Chain(heap, k.lookup.read, buckets.slots[index], chain)
    ensures forall x :: x in chain ==> x in heap
    ensures var hashed := c.hashKey(key, compareByIdentity);
      var index := c.bucketIndex(hashed, Length(buckets));
      var i := FirstMatch(c, k, heap, compareByIdentity, key, hashed, chain);
      DoLookup(c, k, heap, buckets, key, compareByIdentity)
        == Ok(if i < |chain| then LookupResult(hashed, index, if i == 0 then None else Some(chain[i - 1]), Some(chain[i]))
              else LookupResult(hashed, index, buckets.slots[index], None))
  {
    var hashed := c.hashKey(key, compareByIdentity);
    var index := c.bucketIndex(hashed, Length(buckets));
    ChainWithinHeap(heap, k.lookup.read, buckets.slots[index], chain);
    FindFirstMatch(c, k, heap, compareByIdentity, key, hashed, buckets.slots[index], None, chain, |heap|);
  }

  /** On a well-formed bucket, the lookup of a bucket hash finds the first entry holding the
      key with its predecessor, or reports the chain's last entry (null for an empty bucket). */
  lemma LookupEntryFinds<E>(c: Config, k: Kind<E>, heap: map<Id, E>, buckets: AtomicArray<Id>, key: Value, compareByIdentity: bool, chain: seq<Id>)
    requires Valid(c) && Length(buckets) > 0
    requires var index := c.bucketIndex(c.hashKey(key, compareByIdentity), Length(buckets));
      0 <= index < Length(buckets) && Chain(heap, k.lookup.read, buckets.slots[index], chain)
    ensures forall x :: x in chain ==> x in heap
    ensures var hashed := c.hashKey(key, compareByIdentity);
      var index := c.bucketIndex(hashed, Length(buckets));
      var i := FirstMatch(c, k, heap, compareByIdentity, key, hashed, chain);
      LookupEntry(c, k, heap, buckets, key, compareByIdentity)
        == Ok(LookupResult(hashed, index, if i == 0 then None else Some(chain[i - 1]), if i < |chain| then Some(chain[i]) else None))
  {
    var hashed := c.hashKey(key, compareByIdentity);
    var index := c.bucketIndex(hashed, Length(buckets));
    ChainWithinHeap(heap, k.lookup.read, buckets.slots[index], chain);
    FindFirstMatch(c, k, heap, compareByIdentity, key, hashed, buckets.slots[index], None, chain, |heap|);
  }

  /** The key is found exactly when some entry of its bucket holds it. */
  lemma FoundIffPresent<E>(c: Config, k: Kind<E>, heap: map<Id, E>, byIdentity: bool, key: Value, hashed: int, chain: seq<Id>)
    requires forall x :: x in chain ==> x in heap
    ensures FirstMatch(c, k, heap, byIdentity, key, hashed, chain) < |chain|
            <==> exists j :: 0 <= j < |chain| && Matches(c, k, heap, byIdentity, key, hashed, chain[j])
  {
  }
}
