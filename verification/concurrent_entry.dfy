/** The entry of a concurrent hash. Besides a key, a value and three links it carries two final
    flags, `removed` and `lock`, which mark the marker entries a removal or a lock splices into
    the sequence, and a `published` flag. The sequence setters assert that the entry is not a
    removed marker. */
module ConcurrentEntries {
  import opened Values
  import opened Links

  datatype CEntry = CEntry(hashed: int, key: Value, value: Value,
                           nextInLookup: Option<Id>, previousInSequence: Option<Id>, nextInSequence: Option<Id>,
                           removed: bool, lock: bool, published: bool)

  /** The writes a concurrent entry offers; key, `removed` and `lock` are final. */
  datatype CWrite =
    | WriteHashed(hashed: int)
    | WriteValue(value: Value)
    | WritePublished(published: bool)
    | WriteNextInLookup(link: Option<Id>)
    | WritePreviousInSequence(link: Option<Id>)
    | WriteNextInSequence(link: Option<Id>)

  /** The constructor for data: not a marker, and unlinked. */
  function DataEntry(hashed: int, key: Value, value: Value, published: bool): (e: CEntry)
    ensures e.hashed == hashed && e.key == key && e.value == value && e.published == published
    ensures !e.removed && !e.lock
    ensures e.nextInLookup.None? && e.previousInSequence.None? && e.nextInSequence.None?
  {
    CEntry(hashed, key, value, None, None, None, false, false, published)
  }

  /** The constructor for markers: no key, no value, hash 0, never published, linked as
      given. */
  function MarkerEntry(removed: bool, lock: bool, previousInSequence: Option<Id>, nextInSequence: Option<Id>,
                       nextInLookup: Option<Id>): (e: CEntry)
    ensures e.key == Null && e.value == Null && e.hashed == 0 && !e.published
    ensures e.removed == removed && e.lock == lock
    ensures e.previousInSequence == previousInSequence && e.nextInSequence == nextInSequence
    ensures e.nextInLookup == nextInLookup
  {
    CEntry(0, Null, Null, nextInLookup, previousInSequence, nextInSequence, removed, lock, false)
  }

  /** The tail sentinel: no key, not a removed marker, and nothing after it. */
  predicate IsTailSentinel(e: CEntry) {
    e.key == Null && !e.removed && e.nextInSequence.None?
  }

  predicate IsSequenceWrite(w: CWrite) {
    w.WritePreviousInSequence? || w.WriteNextInSequence?
  }

  /** The setters: each writes its one field, and a sequence setter on a removed marker fails
      its assertion. */
  function Apply(e: CEntry, w: CWrite): (r: Result<CEntry>)
    ensures r.Raise? <==> e.removed && IsSequenceWrite(w)
    ensures r.Raise? ==> r.exception == AssertionFailure
    ensures r.Ok? ==> Unchanged(e, r.value, w)
  {
    match w
    case WriteHashed(h) => Ok(e.(hashed := h))
    case WriteValue(v) => Ok(e.(value := v))
    case WritePublished(p) => Ok(e.(published := p))
    case WriteNextInLookup(l) => Ok(e.(nextInLookup := l))
    case WritePreviousInSequence(l) => if e.removed then Raise(AssertionFailure) else Ok(e.(previousInSequence := l))
    case WriteNextInSequence(l) => if e.removed then Raise(AssertionFailure) else Ok(e.(nextInSequence := l))
  }

  /** `r` is `e` with the field of `w` written and every other field as it was. */
  predicate Unchanged(e: CEntry, r: CEntry, w: CWrite) {
    r.key == e.key && r.removed == e.removed && r.lock == e.lock
    && r.hashed == (if w.WriteHashed? then w.hashed else e.hashed)
    && r.value == (if w.WriteValue? then w.value else e.value)
    && r.published == (if w.WritePublished? then w.published else e.published)
    && r.nextInLookup == (if w.WriteNextInLookup? then w.link else e.nextInLookup)
    && r.previousInSequence == (if w.WritePreviousInSequence? then w.link else e.previousInSequence)
    && r.nextInSequence == (if w.WriteNextInSequence? then w.link else e.nextInSequence)
  }

  /** `compareAndSetNextInLookup`: succeeds, and writes, exactly when the link is the expected
      entry. */
  function CompareAndSetNextInLookup(e: CEntry, expected: Option<Id>, link: Option<Id>): (r: (bool, CEntry))
    ensures r.0 <==> e.nextInLookup == expected
    ensures r.1 == if r.0 then Apply(e, WriteNextInLookup(link)).value else e
  {
    if e.nextInLookup == expected then (true, e.(nextInLookup := link)) else (false, e)
  }

  /** `compareAndSetPreviousInSequence`: the assertion first, then the compare-and-set. */
  function CompareAndSetPreviousInSequence(e: CEntry, expected: Option<Id>, link: Option<Id>): (r: Result<(bool, CEntry)>)
    ensures r.Raise? <==> e.removed
    ensures r.Ok? ==> (r.value.0 <==> e.previousInSequence == expected)
    ensures r.Ok? ==> r.value.1 == if r.value.0 then Apply(e, WritePreviousInSequence(link)).value else e
  {
    if e.removed then Raise(AssertionFailure)
    else if e.previousInSequence == expected then Ok((true, e.(previousInSequence := link)))
    else Ok((false, e))
  }

  /** `compareAndSetNextInSequence`, likewise. */
  function CompareAndSetNextInSequence(e: CEntry, expected: Option<Id>, link: Option<Id>): (r: Result<(bool, CEntry)>)
    ensures r.Raise? <==> e.removed
    ensures r.Ok? ==> (r.value.0 <==> e.nextInSequence == expected)
    ensures r.Ok? ==> r.value.1 == if r.value.0 then Apply(e, WriteNextInSequence(link)).value else e
  {
    if e.removed then Raise(AssertionFailure)
    else if e.nextInSequence == expected then Ok((true, e.(nextInSequence := link)))
    else Ok((false, e))
  }

  /** What `toString` prints: a marker's kind, HEAD or TAIL for an entry without a key, or the
      key. */
  datatype Label = LockLabel | RemovedLabel | HeadLabel | TailLabel | KeyLabel(key: Value)

  function ToString(e: CEntry): Label {
    if e.key == Null then
      if e.lock then LockLabel
      else if e.removed then RemovedLabel
      else if e.previousInSequence.None? then HeadLabel
      else TailLabel
    else KeyLabel(e.key)
  }

  /** The labels tell the kinds apart: the sentinels of a linked hash (keyless data entries, the
      head with nothing before it, the tail with something) print HEAD and TAIL, the markers
      print their kind, and an entry with a key prints it. */
  lemma LabelsClassify(hashed: int, key: Value, value: Value, published: bool, before: Id, after: Option<Id>)
    ensures ToString(DataEntry(0, Null, Null, false)) == HeadLabel
    ensures ToString(Apply(DataEntry(0, Null, Null, false), WritePreviousInSequence(Some(before))).value) == TailLabel
    ensures IsTailSentinel(DataEntry(0, Null, Null, false))
    ensures ToString(MarkerEntry(true, false, Some(before), after, None)) == RemovedLabel
    ensures !IsTailSentinel(MarkerEntry(true, false, Some(before), None, None))
    ensures ToString(MarkerEntry(false, true, Some(before), after, None)) == LockLabel
    ensures key != Null ==> ToString(DataEntry(hashed, key, value, published)) == KeyLabel(key)
  {
  }

  function NextInLookupOf(e: CEntry): Option<Id> { e.nextInLookup }
  function WithNextInLookup(e: CEntry, link: Option<Id>): CEntry { e.(nextInLookup := link) }
  function NextInSequenceOf(e: CEntry): Option<Id> { e.nextInSequence }
  function WithNextInSequence(e: CEntry, link: Option<Id>): CEntry { e.(nextInSequence := link) }
  function PreviousInSequenceOf(e: CEntry): Option<Id> { e.previousInSequence }
  function WithPreviousInSequence(e: CEntry, link: Option<Id>): CEntry { e.(previousInSequence := link) }
  function MakePublished(it: Item): CEntry { DataEntry(it.hashed, it.key, it.value, true) }
  function ItemOf(e: CEntry): Item { Item(e.hashed, e.key, e.value) }

  /** The class `ConcurrentEntry` with its data constructor marking entries published, as the
      promotion to a concurrent hash builds them. The raw link writes are the setters on an
      entry that is not a removed marker, which a data entry never is. */
  const PublishedKind: Kind<CEntry> := Kind(MakePublished, ItemOf, Field(NextInLookupOf, WithNextInLookup),
                                            Field(NextInSequenceOf, WithNextInSequence),
                                            Field(PreviousInSequenceOf, WithPreviousInSequence))

  lemma PublishedKindIsLawful()
    ensures LawfulKind(PublishedKind)
  {
  }

  /** On an entry that is not a removed marker, the raw link writes are the setters. */
  lemma RawWritesAreSetters(e: CEntry, l: Option<Id>)
    requires !e.removed
    ensures Apply(e, WriteNextInLookup(l)) == Ok(WithNextInLookup(e, l))
    ensures Apply(e, WriteNextInSequence(l)) == Ok(WithNextInSequence(e, l))
    ensures Apply(e, WritePreviousInSequence(l)) == Ok(WithPreviousInSequence(e, l))
  {
  }
}
