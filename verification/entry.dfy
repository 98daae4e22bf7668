/** The entry of a bucket hash: a key and a value, a member of its bucket's lookup chain and of
    the insertion-order sequence. Links are entry identities (null is None). */
module HashEntries {
  import opened Values
  import opened Links

  datatype Entry = Entry(hashed: int, key: Value, value: Value,
                         nextInLookup: Option<Id>, previousInSequence: Option<Id>, nextInSequence: Option<Id>)

  /** The writes an entry offers; the key is final, so there is none for it. */
  datatype EntryWrite =
    | WriteHashed(hashed: int)
    | WriteValue(value: Value)
    | WriteNextInLookup(link: Option<Id>)
    | WritePreviousInSequence(link: Option<Id>)
    | WriteNextInSequence(link: Option<Id>)

  /** `new Entry(hashed, key, value)`: unlinked. */
  function NewEntry(hashed: int, key: Value, value: Value): (e: Entry)
    ensures e.hashed == hashed && e.key == key && e.value == value
    ensures e.nextInLookup.None? && e.previousInSequence.None? && e.nextInSequence.None?
  {
    Entry(hashed, key, value, None, None, None)
  }

  /** The setters: each writes its one field. */
  function Apply(e: Entry, w: EntryWrite): (r: Entry)
    ensures r.key == e.key
    ensures r.hashed == (if w.WriteHashed? then w.hashed else e.hashed)
    ensures r.value == (if w.WriteValue? then w.value else e.value)
    ensures r.nextInLookup == (if w.WriteNextInLookup? then w.link else e.nextInLookup)
    ensures r.previousInSequence == (if w.WritePreviousInSequence? then w.link else e.previousInSequence)
    ensures r.nextInSequence == (if w.WriteNextInSequence? then w.link else e.nextInSequence)
  {
    match w
    case WriteHashed(h) => e.(hashed := h)
    case WriteValue(v) => e.(value := v)
    case WriteNextInLookup(l) => e.(nextInLookup := l)
    case WritePreviousInSequence(l) => e.(previousInSequence := l)
    case WriteNextInSequence(l) => e.(nextInSequence := l)
  }

  /** `compareAndSetNextInLookup`: succeeds, and writes, exactly when the link is the expected
      entry (compared by identity). */
  function CompareAndSetNextInLookup(e: Entry, expected: Option<Id>, link: Option<Id>): (r: (bool, Entry))
    ensures r.0 <==> e.nextInLookup == expected
    ensures r.1 == if r.0 then Apply(e, WriteNextInLookup(link)) else e
  {
    if e.nextInLookup == expected then (true, e.(nextInLookup := link)) else (false, e)
  }

  /** `compareAndSetNextInSequence`, likewise. */
  function CompareAndSetNextInSequence(e: Entry, expected: Option<Id>, link: Option<Id>): (r: (bool, Entry))
    ensures r.0 <==> e.nextInSequence == expected
    ensures r.1 == if r.0 then Apply(e, WriteNextInSequence(link)) else e
  {
    if e.nextInSequence == expected then (true, e.(nextInSequence := link)) else (false, e)
  }

  function NextInLookupOf(e: Entry): Option<Id> { e.nextInLookup }
  function WithNextInLookup(e: Entry, link: Option<Id>): Entry { Apply(e, WriteNextInLookup(link)) }
  function NextInSequenceOf(e: Entry): Option<Id> { e.nextInSequence }
  function WithNextInSequence(e: Entry, link: Option<Id>): Entry { Apply(e, WriteNextInSequence(link)) }
  function HashedOf(e: Entry): int { e.hashed }

  function PreviousInSequenceOf(e: Entry): Option<Id> { e.previousInSequence }
  function WithPreviousInSequence(e: Entry, link: Option<Id>): Entry { Apply(e, WritePreviousInSequence(link)) }
  function MakeEntry(it: Item): Entry { NewEntry(it.hashed, it.key, it.value) }
  function ItemOf(e: Entry): Item { Item(e.hashed, e.key, e.value) }

  /** The class `Entry`, for the rebuilding loops. */
  const EntryKind: Kind<Entry> := Kind(MakeEntry, ItemOf, Field(NextInLookupOf, WithNextInLookup),
                                       Field(NextInSequenceOf, WithNextInSequence),
                                       Field(PreviousInSequenceOf, WithPreviousInSequence))

  /** The constructor and the setters keep the item, start unlinked and write one link each. */
  lemma EntryKindIsLawful()
    ensures LawfulKind(EntryKind)
  {
  }

  /** The key is final: no sequence of writes or successful compare-and-sets changes it. */
  lemma {:induction false} KeyIsFinal(e: Entry, writes: seq<EntryWrite>)
    ensures ApplyAll(e, writes).key == e.key
    decreases |writes|
  {
    if writes != [] {
      KeyIsFinal(Apply(e, writes[0]), writes[1..]);
    }
  }

  function ApplyAll(e: Entry, writes: seq<EntryWrite>): Entry
    decreases |writes|
  {
    if writes == [] then e else ApplyAll(Apply(e, writes[0]), writes[1..])
  }
}
