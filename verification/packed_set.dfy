/** `SetNode` on an empty hash and on a packed hash. A packed store holds up to
    `HASH_PACKED_ARRAY_MAX` items (hash, key, value) in insertion order; setting a key scans
    them, and a key that is absent is appended, or, when the store is full, the hash is
    promoted to buckets. */
module PackedSets {
  import opened Values
  import opened Links
  import opened HashConfig
  import opened HashState

  /** Whether the item holds `key` (hashed to `hashed`), compared as the hash compares keys. */
  predicate ItemMatches(c: Config, byIdentity: bool, key: Value, hashed: int, it: Item) {
    c.equalKeys(byIdentity, key, hashed, it.key, it.hashed)
  }

  /** The position of the first item holding the key, or `|items|` when none does. */
  function PackedFind(c: Config, byIdentity: bool, key: Value, hashed: int, items: seq<Item>): (r: nat)
    ensures r <= |items|
    ensures forall j :: 0 <= j < r ==> !ItemMatches(c, byIdentity, key, hashed, items[j])
    ensures r < |items| ==> ItemMatches(c, byIdentity, key, hashed, items[r])
  {
    if items == [] then 0
    else if ItemMatches(c, byIdentity, key, hashed, items[0]) then 0
    else 1 + PackedFind(c, byIdentity, key, hashed, items[1..])
  }

  /** The value a packed hash holds for a key: that of the first item holding it. */
  function PackedGet(c: Config, byIdentity: bool, key: Value, items: seq<Item>): Option<Value> {
    var n := PackedFind(c, byIdentity, key, c.hashKey(key, byIdentity), items);
    if n < |items| then Some(items[n].value) else None
  }

  /** The part of `verifyStore` this model states for a packed hash: one item per entry, and
      no more than the maximum. */
  predicate PackedShape(c: Config, h: RubyHash) {
    h.store.PackedStore? && |h.store.slots| == h.size && h.size <= c.packedArrayMax
  }

  /** What a set on a packed hash does: it stores and returns a value, or hands the items and
      the new item to `promoteToBuckets` and `addNewEntry`. */
  datatype PackedOutcome =
    | Stored(returned: Value, hash: RubyHash)
    | Promoted(items: seq<Item>, item: Item, hash: RubyHash)

  /** `setNull`: a packed store holding the one item, size one, no sequence; returns the
      value. */
  function SetNull(c: Config, h: RubyHash, key: Value, value: Value, byIdentity: bool): (r: PackedOutcome)
    requires h.store.NullStore?
    ensures r.Stored? && r.returned == value
    ensures r.hash.store == PackedStore([Item(c.hashKey(key, byIdentity), key, value)])
    ensures r.hash.size == 1 && r.hash.first.None? && r.hash.last.None?
    ensures r.hash.compareByIdentity == h.compareByIdentity && r.hash.shared == h.shared
  {
    var hashed := c.hashKey(key, byIdentity);
    Stored(value, h.(store := PackedStore([Item(hashed, key, value)]), size := 1, first := None, last := None))
  }

  /** `setPackedArray`: after the store assertion, the scan for the key; a found key returns
      its value when only setting if absent and has its value replaced otherwise; an absent
      key is appended while there is room, and otherwise the hash is promoted. */
  function SetPackedArray(c: Config, h: RubyHash, key: Value, value: Value, byIdentity: bool, onlyIfAbsent: bool)
    : (r: Result<PackedOutcome>)
    requires h.store.PackedStore?
    ensures r.Raise? <==> !PackedShape(c, h)
    ensures r.Raise? ==> r.exception == AssertionFailure
    ensures r.Ok? && r.value.Stored? ==> PackedShape(c, r.value.hash)
    ensures r.Ok? && r.value.Promoted? ==> r.value.items == h.store.slots && |r.value.items| == c.packedArrayMax
    ensures r.Ok? && r.value.Stored? && !onlyIfAbsent ==> r.value.returned == value
    ensures r.Ok? && r.value.Promoted? ==> r.value.item == Item(c.hashKey(key, byIdentity), key, value) && r.value.hash == h
    ensures r.Ok? ==> r.value.hash.compareByIdentity == h.compareByIdentity && r.value.hash.shared == h.shared
  {
    var _ :- Check(PackedShape(c, h));
    var hashed := c.hashKey(key, byIdentity);
    var items := h.store.slots;
    var n := PackedFind(c, byIdentity, key, hashed, items);
    if n < |items| then
      if onlyIfAbsent then Ok(Stored(items[n].value, h))
      else Ok(Stored(value, h.(store := PackedStore(items[n := items[n].(value := value)]))))
    else if h.size + 1 <= c.packedArrayMax then
      Ok(Stored(value, h.(store := PackedStore(items + [Item(hashed, key, value)]), size := h.size + 1)))
    else Ok(Promoted(items, Item(hashed, key, value), h))
  }

  /** The scan of `setPackedArray` as written, over every slot up to the maximum and skipping
      those at or past the size: it finds the first item holding the key. */
  method ScanPacked(c: Config, byIdentity: bool, key: Value, hashed: int, items: seq<Item>, size: int) returns (n: nat)
    requires |items| == size <= c.packedArrayMax
    ensures n == PackedFind(c, byIdentity, key, hashed, items)
  {
    var i := 0;
    while i < c.packedArrayMax
      invariant 0 <= i <= Max(c.packedArrayMax, 0)
      invariant forall j :: 0 <= j < i && j < size ==> !ItemMatches(c, byIdentity, key, hashed, items[j])
    {
      if i < size && ItemMatches(c, byIdentity, key, hashed, items[i]) {
        FirstMatchIs(c, byIdentity, key, hashed, items, i);
        return i;
      }
      i := i + 1;
    }
    FirstMatchIs(c, byIdentity, key, hashed, items, |items|);
    return |items|;
  }

  /** A position before which no item matches, and at which one does or the items end, is the
      first match. */
  lemma {:induction false} FirstMatchIs(c: Config, byIdentity: bool, key: Value, hashed: int, items: seq<Item>, n: nat)
    requires n <= |items|
    requires forall j :: 0 <= j < n ==> !ItemMatches(c, byIdentity, key, hashed, items[j])
    requires n < |items| ==> ItemMatches(c, byIdentity, key, hashed, items[n])
    ensures PackedFind(c, byIdentity, key, hashed, items) == n
    decreases n
  {
    if n > 0 {
      FirstMatchIs(c, byIdentity, key, hashed, items[1..], n - 1);
    }
  }

  /** Replacing the value of an item changes what any key finds only at that item. */
  lemma {:induction false} FindAfterValueWrite(c: Config, byIdentity: bool, key: Value, hashed: int, items: seq<Item>, n: nat, value: Value)
    requires n < |items|
    ensures PackedFind(c, byIdentity, key, hashed, items[n := items[n].(value := value)])
            == PackedFind(c, byIdentity, key, hashed, items)
    decreases |items|
  {
    var items' := items[n := items[n].(value := value)];
    if !ItemMatches(c, byIdentity, key, hashed, items[0]) && n > 0 {
      assert items'[1..] == items[1..][n - 1 := items[1..][n - 1].(value := value)];
      FindAfterValueWrite(c, byIdentity, key, hashed, items[1..], n - 1, value);
    }
  }

  /** Appending an item changes what a key finds only when the key was absent before. */
  lemma {:induction false} FindAfterAppend(c: Config, byIdentity: bool, key: Value, hashed: int, items: seq<Item>, it: Item)
    ensures var n := PackedFind(c, byIdentity, key, hashed, items);
      PackedFind(c, byIdentity, key, hashed, items + [it])
        == if n < |items| then n else if ItemMatches(c, byIdentity, key, hashed, it) then |items| else |items| + 1
    decreases |items|
  {
    if items != [] {
      assert (items + [it])[1..] == items[1..] + [it];
      FindAfterAppend(c, byIdentity, key, hashed, items[1..], it);
    }
  }

  /** Setting a key a packed hash holds: only-if-absent returns the held value and changes
      nothing; otherwise the key then maps to the new value, the size stays, and every key
      that does not find that item maps as before. */
  lemma SetPackedFound(c: Config, h: RubyHash, key: Value, value: Value, byIdentity: bool, onlyIfAbsent: bool)
    requires PackedShape(c, h) && PackedGet(c, byIdentity, key, h.store.slots).Some?
    ensures var r := SetPackedArray(c, h, key, value, byIdentity, onlyIfAbsent);
      r.Ok? && r.value.Stored?
      && (onlyIfAbsent ==> r.value == Stored(PackedGet(c, byIdentity, key, h.store.slots).value, h))
      && (!onlyIfAbsent ==>
            r.value.returned == value && r.value.hash.size == h.size
            && PackedGet(c, byIdentity, key, r.value.hash.store.slots) == Some(value)
            && forall k :: PackedFind(c, byIdentity, k, c.hashKey(k, byIdentity), h.store.slots)
                           != PackedFind(c, byIdentity, key, c.hashKey(key, byIdentity), h.store.slots)
                           ==> PackedGet(c, byIdentity, k, r.value.hash.store.slots) == PackedGet(c, byIdentity, k, h.store.slots))
  {
    var items := h.store.slots;
    var n := PackedFind(c, byIdentity, key, c.hashKey(key, byIdentity), items);
    if !onlyIfAbsent {
      FindAfterValueWrite(c, byIdentity, key, c.hashKey(key, byIdentity), items, n, value);
      forall k
        ensures PackedFind(c, byIdentity, k, c.hashKey(k, byIdentity), items[n := items[n].(value := value)])
                == PackedFind(c, byIdentity, k, c.hashKey(k, byIdentity), items)
      {
        FindAfterValueWrite(c, byIdentity, k, c.hashKey(k, byIdentity), items, n, value);
      }
    }
  }

  /** Setting a key a packed hash does not hold, with room left: the item is appended, the size
      grows by one, a key equal to itself then maps to the value, and every key the new item
      does not hold maps as before. */
  lemma SetPackedAppends(c: Config, h: RubyHash, key: Value, value: Value, byIdentity: bool, onlyIfAbsent: bool)
    requires PackedShape(c, h) && PackedGet(c, byIdentity, key, h.store.slots).None?
    requires h.size < c.packedArrayMax
    ensures var hashed := c.hashKey(key, byIdentity);
      var r := SetPackedArray(c, h, key, value, byIdentity, onlyIfAbsent);
      r.Ok? && r.value.Stored? && r.value.returned == value
      && r.value.hash.store.slots == h.store.slots + [Item(hashed, key, value)]
      && r.value.hash.size == h.size + 1
      && (ItemMatches(c, byIdentity, key, hashed, Item(hashed, key, value)) ==>
            PackedGet(c, byIdentity, key, r.value.hash.store.slots) == Some(value))
      && forall k :: !ItemMatches(c, byIdentity, k, c.hashKey(k, byIdentity), Item(hashed, key, value))
                     ==> PackedGet(c, byIdentity, k, r.value.hash.store.slots) == PackedGet(c, byIdentity, k, h.store.slots)
  {
    var hashed := c.hashKey(key, byIdentity);
    var items := h.store.slots;
    var it := Item(hashed, key, value);
    FindAfterAppend(c, byIdentity, key, hashed, items, it);
    forall k
      ensures PackedFind(c, byIdentity, k, c.hashKey(k, byIdentity), items + [it])
              == var n := PackedFind(c, byIdentity, k, c.hashKey(k, byIdentity), items);
                 if n < |items| then n else if ItemMatches(c, byIdentity, k, c.hashKey(k, byIdentity), it) then |items| else |items| + 1
    {
      FindAfterAppend(c, byIdentity, k, c.hashKey(k, byIdentity), items, it);
    }
  }

  /** Setting a key a full packed hash does not hold promotes the hash, handing over every
      item and the new one. */
  lemma SetPackedPromotes(c: Config, h: RubyHash, key: Value, value: Value, byIdentity: bool, onlyIfAbsent: bool)
    requires PackedShape(c, h) && PackedGet(c, byIdentity, key, h.store.slots).None?
    requires h.size == c.packedArrayMax
    ensures SetPackedArray(c, h, key, value, byIdentity, onlyIfAbsent)
            == Ok(Promoted(h.store.slots, Item(c.hashKey(key, byIdentity), key, value), h))
  {
  }

  /** The store `setNull` makes is a well-formed packed store in which the key, if equal to
      itself, maps to the value. */
  lemma SetNullStores(c: Config, h: RubyHash, key: Value, value: Value, byIdentity: bool)
    requires Valid(c) && h.store.NullStore?
    requires var hashed := c.hashKey(key, byIdentity); ItemMatches(c, byIdentity, key, hashed, Item(hashed, key, value))
    ensures PackedShape(c, SetNull(c, h, key, value, byIdentity).hash)
    ensures PackedGet(c, byIdentity, key, SetNull(c, h, key, value, byIdentity).hash.store.slots) == Some(value)
  {
  }
}
