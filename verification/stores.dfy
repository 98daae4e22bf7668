/** The Java arrays that back a Ruby array: `null`, `int[]`, `long[]`, `double[]`,
    `Object[]`, or an array of some other reference class (a `String[]`, say), known by the
    name `getClass().getName()` reports; a cast to `Object[]` accepts such an array.
    A store's length is its capacity; the Ruby array's size is kept elsewhere. */
module Stores {
  import opened Values

  datatype StoreKind = IntArray | LongArray | DoubleArray | ObjectArray | OtherArray(className: string)

  datatype InnerStore =
    | NullStore
    | Plain(kind: StoreKind, slots: seq<Value>)
  {
    /** `Array.getLength(store)`, with 0 for a null store. */
    function Capacity(): nat {
      if NullStore? then 0 else |slots|
    }
  }

  /** The value a fresh Java array of this kind holds in every slot. */
  function DefaultFor(kind: StoreKind): Value {
    match kind
    case IntArray => Integer(0)
    case LongArray => Long(0)
    case DoubleArray => Double(0.0)
    case ObjectArray => Null
    case OtherArray(_) => Null
  }

  /** True when a Java array of this kind can hold the value without a cast failure. */
  predicate Holds(kind: StoreKind, v: Value) {
    match kind
    case IntArray => v.Integer?
    case LongArray => v.Long?
    case DoubleArray => v.Double?
    case ObjectArray => true
    case OtherArray(_) => true
  }

  /** Every slot of a non-null store holds a value of the store's kind, as a Java array's
      slots do. */
  predicate Typed(s: InnerStore) {
    s.Plain? ==> forall i :: 0 <= i < |s.slots| ==> Holds(s.kind, s.slots[i])
  }

  /** The value an array of this kind receives when a mirror copies `v` into it: an Integer
      becomes the equal long in a long[], and every other value is stored as it is. */
  function Converted(kind: StoreKind, v: Value): (r: Value)
    ensures Holds(kind, v) ==> r == v
    ensures v.Integer? && kind == LongArray ==> r == Long(v.i) && Holds(kind, r)
  {
    if kind == LongArray && v.Integer? then Long(v.i) else v
  }

  /** Each value of `xs`, converted for an array of this kind. */
  function ConvertAll(kind: StoreKind, xs: seq<Value>): (r: seq<Value>)
    ensures |r| == |xs| && forall i :: 0 <= i < |xs| ==> r[i] == Converted(kind, xs[i])
  {
    seq(|xs|, i requires 0 <= i < |xs| => Converted(kind, xs[i]))
  }

  /** Values an array of this kind already holds are copied into it unchanged. */
  lemma ConvertAllHeld(kind: StoreKind, xs: seq<Value>)
    requires forall i :: 0 <= i < |xs| ==> Holds(kind, xs[i])
    ensures ConvertAll(kind, xs) == xs
  {
  }

  /** An array of kind `to` can take, once converted, every value an array of kind `from`
      holds: the same kind, int[] into long[], or anything into Object[]. */
  predicate Widens(from: StoreKind, to: StoreKind) {
    from == to || (from == IntArray && to == LongArray) || to == ObjectArray
  }

  lemma WidenedIsHeld(from: StoreKind, to: StoreKind, v: Value)
    requires Widens(from, to) && Holds(from, v)
    ensures Holds(to, Converted(to, v))
  {
  }

  /** `new T[capacity]`. */
  function NewStore(kind: StoreKind, capacity: nat): (r: InnerStore)
    ensures r.Plain? && r.kind == kind && r.Capacity() == capacity
    ensures forall i :: 0 <= i < capacity ==> r.slots[i] == DefaultFor(kind)
    ensures Typed(r)
  {
    Plain(kind, Repeat(DefaultFor(kind), capacity))
  }

  /** `Arrays.copyOf(store, capacity)` for a capacity at least the old one: the old slots
      followed by default values. */
  function CopyOf(s: InnerStore, capacity: nat): (r: InnerStore)
    requires s.Plain? && capacity >= s.Capacity()
    ensures r.Plain? && r.kind == s.kind && r.Capacity() == capacity
    ensures r.slots[..s.Capacity()] == s.slots
    ensures forall i :: s.Capacity() <= i < capacity ==> r.slots[i] == DefaultFor(s.kind)
    ensures Typed(s) ==> Typed(r)
  {
    Plain(s.kind, s.slots + Repeat(DefaultFor(s.kind), capacity - |s.slots|))
  }

  /** `store[index] = value` on a Java array; out of range raises. */
  function SetSlot(s: InnerStore, index: int, v: Value): (r: Result<InnerStore>)
    requires s.Plain?
    ensures r.Ok? <==> 0 <= index < s.Capacity()
    ensures r.Ok? ==> r.value.Plain? && r.value.kind == s.kind && r.value.Capacity() == s.Capacity()
    ensures r.Ok? ==> r.value.slots[index] == v
    ensures r.Ok? ==> forall j :: 0 <= j < s.Capacity() && j != index ==> r.value.slots[j] == s.slots[j]
  {
    if 0 <= index < |s.slots| then Ok(Plain(s.kind, s.slots[index := v])) else Raise(IndexOutOfBounds(index))
  }
}
