/** Appending one value to a concurrent Ruby array (`a << v`) as one atomic step: the slot is
    claimed by incrementing the size, the value is written in place when the store accepts
    it and has room, and otherwise the slow path grows the store, or moves the elements to a
    store of a more general strategy, or recomputes both strategies and tries again. */
module AppendOne {
  import opened Values
  import opened Stores
  import opened ConcurrentArray
  import opened ArrayStrategy

  /** The Java array inside the store field, through the wrapper if there is one. */
  function InnerOf(store: ArrayStore): InnerStore {
    if store.Bare? then store.inner else store.wrapper.store
  }

  /** The invariant of an array: its size fits its store and a Java int, and its store holds
      only values of its kind. */
  predicate Valid(a: RubyArray) {
    0 <= a.size <= InnerOf(a.store).Capacity() && a.size <= INT_MAX && Typed(InnerOf(a.store))
  }

  /** The elements of a valid array: the first `size` slots of its store. */
  function Elements(a: RubyArray): (r: seq<Value>)
    requires Valid(a)
    ensures |r| == a.size
  {
    var inner := InnerOf(a.store);
    if inner.NullStore? then [] else inner.slots[..a.size]
  }

  /** What `ArrayUtils.capacityForOneMore` (not part of this model) is relied on for: a
      larger capacity than the one given. */
  ghost predicate Grows(capacityForOneMore: nat -> nat) {
    forall n: nat :: capacityForOneMore(n) > n
  }

  /** Replacing the Java array inside the store field, keeping the wrapper (and its lock). */
  function ReplaceInner(store: ArrayStore, inner: InnerStore): (r: ArrayStore)
    ensures InnerOf(r) == inner && r.Bare? == store.Bare?
    ensures r.Wrapped? ==> r.wrapper.kind == store.wrapper.kind && r.wrapper.lock == store.wrapper.lock
  {
    if store.Bare? then Bare(inner) else Wrapped(store.wrapper.(store := inner))
  }

  /** `ArrayMirror.set` on the array's current store: the store must be non-null, hold the
      value's class and have the slot. */
  function WriteSlot(a: RubyArray, index: int, v: Value): (r: Result<RubyArray>)
    ensures r.Ok? <==> InnerOf(a.store).Plain? && Holds(InnerOf(a.store).kind, v) && 0 <= index < InnerOf(a.store).Capacity()
    ensures r.Ok? ==> r.value.size == a.size && r.value.shared == a.shared
    ensures r.Ok? ==> r.value.store == ReplaceInner(a.store, Plain(InnerOf(a.store).kind, InnerOf(a.store).slots[index := v]))
  {
    var inner := InnerOf(a.store);
    if inner.NullStore? then Raise(NullPointer)
    else if !Holds(inner.kind, v) then Raise(ClassCast)
    else
      var updated :- SetSlot(inner, index, v);
      Ok(a.(store := ReplaceInner(a.store, updated)))
  }

  /** Slot `index` of the array's store exists and holds `v`. */
  predicate SlotHolds(a: RubyArray, index: int, v: Value) {
    var inner := InnerOf(a.store);
    inner.Plain? && 0 <= index < inner.Capacity() && inner.slots[index] == v
  }

  /** True when every one of the first `n` slots of `src`, converted, fits the store `dst`. */
  predicate CopyFits(src: InnerStore, dst: InnerStore, n: int)
    requires 0 <= n <= src.Capacity() && n <= dst.Capacity()
  {
    n == 0 || forall i :: 0 <= i < n ==> Holds(dst.kind, Converted(dst.kind, src.slots[i]))
  }

  /** `ArrayMirror.copyTo(dst, 0, 0, n)`: the first `n` elements of `src` into `dst`, each
      through `set` of the destination's mirror, so an Integer copied into a long[] becomes
      the equal long and a value the destination cannot take raises ClassCastException. */
  function CopyTo(src: InnerStore, dst: InnerStore, n: int): (r: Result<InnerStore>)
    ensures r.Ok? <==> 0 <= n <= src.Capacity() && n <= dst.Capacity() && CopyFits(src, dst, n)
    ensures r.Raise? && 0 <= n <= src.Capacity() && n <= dst.Capacity() ==> r.exception == ClassCast
    ensures r.Ok? ==> r.value.Capacity() == dst.Capacity() && r.value.Plain? == dst.Plain?
    ensures r.Ok? && dst.Plain? ==> r.value.kind == dst.kind
    ensures r.Ok? && n > 0 ==> src.Plain? && dst.Plain? && r.value.Plain?
    ensures r.Ok? && n > 0 ==> forall i :: 0 <= i < n ==>
      r.value.slots[i] == Converted(dst.kind, src.slots[i]) && Holds(dst.kind, r.value.slots[i])
    ensures r.Ok? && dst.Plain? ==> r.value.slots[n..] == dst.slots[n..]
    ensures r.Ok? && Typed(dst) ==> Typed(r.value)
  {
    if n < 0 || n > src.Capacity() || n > dst.Capacity() then Raise(IndexOutOfBounds(n))
    else if n == 0 then Ok(dst)
    else if !CopyFits(src, dst, n) then Raise(ClassCast)
    else Ok(Plain(dst.kind, ConvertAll(dst.kind, src.slots[..n]) + dst.slots[n..]))
  }

  /** `slowPathAppend`: under the layout-change lock, with the slot `size` already claimed.
      `retried` is set when the strategies were recomputed from the array by
      `strategyChanged`: arriving at that branch again would recompute the same strategies
      from the same array and recurse without end, which the model reports as the stack
      overflow it ends in. */
  function SlowPathAppend(a: RubyArray, v: Value, s: Strategy, g: Strategy, size: int, retried: bool,
                          capacityForOneMore: nat -> nat): (r: Result<RubyArray>)
    requires Grows(capacityForOneMore)
    ensures r.Ok? ==> r.value.size == a.size && r.value.shared == a.shared
    ensures r.Ok? ==> SlotHolds(r.value, size, v)
    decreases if retried then 0 else 2
  {
    var current :- MirrorStore(s, a.store);
    var capacity := current.Capacity();
    if Accepts(s.TypeOf(), v) then
      if size < capacity then WriteSlot(a, size, v)
      else if current.NullStore? then Raise(NullPointer)
      else
        var grown := CopyOf(current, capacityForOneMore(capacity));
        var b :- SetStore(s, a, Bare(grown));
        WriteSlot(b, size, v)
    else if Accepts(g.TypeOf(), v) then
      var newCapacity := if ToInt32(size + 1) > capacity then capacityForOneMore(capacity) else capacity;
      var newStore :- NewArray(g, newCapacity);
      var copied :- CopyTo(current, newStore, size);
      var b :- SetStore(g, a, Bare(copied));
      WriteSlot(b, size, v)
    else if retried then Raise(StackOverflow)
    else StrategyChanged(a, v, size, capacityForOneMore)
  }

  /** `strategyChanged`: both strategies recomputed from the array and the value. */
  function StrategyChanged(a: RubyArray, v: Value, size: int, capacityForOneMore: nat -> nat): (r: Result<RubyArray>)
    requires Grows(capacityForOneMore)
    ensures r.Ok? ==> Of(ArrayObject(a)).Ok? && GeneralizeFor(Of(ArrayObject(a)).value, v).Ok?
    ensures r.Ok? ==> r.value.size == a.size && r.value.shared == a.shared
    ensures r.Ok? ==> SlotHolds(r.value, size, v)
    decreases 1
  {
    var s :- Of(ArrayObject(a));
    var g :- GeneralizeFor(s, v);
    SlowPathAppend(a, v, s, g, size, true, capacityForOneMore)
  }

  /** `appendOneSameType` as written, for a cached strategy that matches the array (the
      specialization's guard). The strategy re-checks after the increment hold in one atomic
      step, since the store has not changed. */
  function AppendOneSameType(a: RubyArray, v: Value, s: Strategy, capacityForOneMore: nat -> nat): (r: Result<RubyArray>)
    requires Grows(capacityForOneMore) && Matches(s, a)
    ensures r.Ok? ==> GeneralizeFor(s, v).Ok?
    ensures r.Ok? ==> r.value.size == a.size + 1 && r.value.shared == a.shared
    ensures r.Ok? && 0 <= a.size <= INT_MAX ==> SlotHolds(r.value, a.size, v)
  {
    var g :- GeneralizeFor(s, v);
    var (size, a1) := GetSizeAndIncrement(a);
    var current :- MirrorStore(s, a1.store);
    if Accepts(s.TypeOf(), v) && size < current.Capacity() then WriteSlot(a1, size, v)
    else SlowPathAppend(a1, v, s, g, size, false, capacityForOneMore)
  }

  /** An Integer appended to a long[] store is stored as the equal Long. */
  function Widen(t: TypeStrategy, v: Value): (r: Value)
    ensures t == LongStrategy && v.Integer? ==> r == Long(v.i)
    ensures !(t == LongStrategy && v.Integer?) ==> r == v
  {
    if t == LongStrategy && v.Integer? then Long(v.i) else v
  }

  /** The corrected append: the value is widened for a long[] store before it is offered to
      the strategies. */
  function AppendOne(a: RubyArray, v: Value, s: Strategy, capacityForOneMore: nat -> nat): (r: Result<RubyArray>)
    requires Grows(capacityForOneMore) && Matches(s, a)
    ensures r.Ok? ==> r.value.size == a.size + 1 && r.value.shared == a.shared
    ensures r.Ok? && 0 <= a.size <= INT_MAX ==> SlotHolds(r.value, a.size, Widen(s.TypeOf(), v))
  {
    AppendOneSameType(a, Widen(s.TypeOf(), v), s, capacityForOneMore)
  }

  /** The specialization as written: before anything else it reads the lock through a cast of
      the store field to FastAppendArray (line 61), then runs `AppendOneSameType`. */
  function AppendOneNode(a: RubyArray, v: Value, s: Strategy, capacityForOneMore: nat -> nat): (r: Result<RubyArray>)
    requires Grows(capacityForOneMore) && Matches(s, a)
    ensures r.Ok? ==> a.store.Wrapped? && a.store.wrapper.kind == FastAppendArray
  {
    var _ :- CurrentLock(a.store, FastAppendArray);
    AppendOneSameType(a, v, s, capacityForOneMore)
  }

  // ---------------------------------------------------------------------------------------
  // Properties
  // ---------------------------------------------------------------------------------------

  /** A strategy that accepts a value allocates a store that holds it. */
  lemma AcceptedIsHeld(t: TypeStrategy, v: Value)
    requires t !in {NullStrategy, FallbackStrategy} && Accepts(t, v)
    ensures Holds(KindFor(t), v)
  {
  }

  /** The strategies `of` answers for an array: a type strategy of a real store. */
  lemma OfArrayIsTypeStrategy(a: RubyArray)
    requires Of(ArrayObject(a)).Ok?
    ensures var s := Of(ArrayObject(a)).value;
      s.TypeOf() in {NullStrategy, IntStrategy, LongStrategy, DoubleStrategy, ObjectStrategy}
      && Matches(s, a) && s.Shared? == a.shared
  {
    OfMatches(a);
  }

  /** Writing the claimed slot of a store with room for it extends the elements by the value. */
  lemma WriteClaimedSlot(b: RubyArray, size: int, v: Value)
    requires 0 <= size < InnerOf(b.store).Capacity() && b.size == size + 1 && size < INT_MAX
    requires InnerOf(b.store).Plain? && Holds(InnerOf(b.store).kind, v) && Typed(InnerOf(b.store))
    ensures var r := WriteSlot(b, size, v);
      r.Ok? && Valid(r.value) && r.value.shared == b.shared
      && Elements(r.value) == InnerOf(b.store).slots[..size] + [v]
  {
    var r := WriteSlot(b, size, v).value;
    var inner := InnerOf(b.store);
    assert InnerOf(r.store).slots == inner.slots[size := v];
    assert Typed(InnerOf(r.store));
    assert Elements(r) == inner.slots[size := v][..size + 1];
  }

  /** Replacing the store of an array that `of` describes: the array's own strategy accepts
      the new store, keeping its shape. */
  lemma SetStoreOfMatching(s: Strategy, a: RubyArray, inner: InnerStore)
    requires Matches(s, a) && s.Shared? == a.shared
    ensures var r := SetStore(s, a, Bare(inner));
      r.Ok? && InnerOf(r.value.store) == inner && r.value.size == a.size && r.value.shared == a.shared
  {
  }

  /** The fast path, or the slow path's in-place write. */
  lemma AppendInPlace(a: RubyArray, v: Value, s: Strategy)
    requires Valid(a) && a.size < INT_MAX && Matches(s, a)
    requires s.TypeOf() !in {NullStrategy, FallbackStrategy} && Accepts(s.TypeOf(), v)
    requires a.size < InnerOf(a.store).Capacity()
    ensures var r := WriteSlot(a.(size := a.size + 1), a.size, v);
      r.Ok? && Valid(r.value) && r.value.shared == a.shared && Elements(r.value) == Elements(a) + [v]
  {
    AcceptedIsHeld(s.TypeOf(), v);
    WriteClaimedSlot(a.(size := a.size + 1), a.size, v);
  }

  /** The slow path when the store is full but accepts the value: a grown copy replaces it. */
  lemma AppendGrowing(a: RubyArray, v: Value, s: Strategy, g: Strategy, capacityForOneMore: nat -> nat)
    requires Grows(capacityForOneMore) && Valid(a) && a.size < INT_MAX && Matches(s, a) && s.Shared? == a.shared
    requires s.TypeOf() !in {NullStrategy, FallbackStrategy} && Accepts(s.TypeOf(), v)
    requires a.size == InnerOf(a.store).Capacity()
    ensures var r := SlowPathAppend(a.(size := a.size + 1), v, s, g, a.size, false, capacityForOneMore);
      r.Ok? && Valid(r.value) && r.value.shared == a.shared && Elements(r.value) == Elements(a) + [v]
      && InnerOf(r.value.store).Capacity() == capacityForOneMore(a.size)
      && InnerOf(r.value.store).kind == InnerOf(a.store).kind
  {
    var a1 := a.(size := a.size + 1);
    MirrorOfMatchingStore(s, a.store);
    var current := InnerOf(a.store);
    assert MirrorStore(s, a1.store) == Ok(current);
    var grown := CopyOf(current, capacityForOneMore(current.Capacity()));
    SetStoreOfMatching(s, a1, grown);
    var b := SetStore(s, a1, Bare(grown)).value;
    AcceptedIsHeld(s.TypeOf(), v);
    WriteClaimedSlot(b, a.size, v);
    assert grown.slots[..a.size] == current.slots[..a.size];
  }

  /** The slow path when the store does not accept the value but the generalized strategy
      does: the elements move, converted, to a fresh store of the generalized strategy's kind
      (an int[] becomes a long[] of the equal longs), and the value follows them. */
  lemma AppendGeneralizing(a: RubyArray, v: Value, s: Strategy, capacityForOneMore: nat -> nat)
    requires Grows(capacityForOneMore) && Valid(a) && a.size < INT_MAX && Matches(s, a) && s.Shared? == a.shared
    requires s.TypeOf() !in {FallbackStrategy, IntToObjectStrategy} && !Accepts(s.TypeOf(), v)
    requires GeneralizeFor(s, v).Ok? && Accepts(GeneralizeFor(s, v).value.TypeOf(), v)
    ensures var g := GeneralizeFor(s, v).value;
      var r := SlowPathAppend(a.(size := a.size + 1), v, s, g, a.size, false, capacityForOneMore);
      r.Ok? && Valid(r.value) && r.value.shared == a.shared
      && g.TypeOf() !in {NullStrategy, FallbackStrategy}
      && InnerOf(r.value.store).Plain? && InnerOf(r.value.store).kind == KindFor(g.TypeOf())
      && Elements(r.value) == ConvertAll(KindFor(g.TypeOf()), Elements(a)) + [v]
  {
    var g := GeneralizeFor(s, v).value;
    var a1 := a.(size := a.size + 1);
    MirrorOfMatchingStore(s, a.store);
    var current := InnerOf(a.store);
    assert MirrorStore(s, a1.store) == Ok(current);
    assert g.Shared? == s.Shared?;
    assert g.Shared? ==> g.kind == s.kind;
    AcceptedIsHeld(g.TypeOf(), v);
    GeneralizedStoreWidens(s, a, v);
    var b := SlowPathGeneralizes(a1, v, s, g, a.size, capacityForOneMore);
    WriteClaimedSlot(b, a.size, v);
    var k := KindFor(g.TypeOf());
    if a.size > 0 {
      assert InnerOf(b.store).slots[..a.size] == ConvertAll(k, current.slots[..a.size]);
      assert Elements(a) == current.slots[..a.size];
    } else {
      assert Elements(a) == [];
    }
  }

  /** The kind of store a value generalizes an array's strategy to takes, converted, every
      element the array's store holds. */
  lemma GeneralizedStoreWidens(s: Strategy, a: RubyArray, v: Value)
    requires Matches(s, a) && s.TypeOf() !in {FallbackStrategy, IntToObjectStrategy} && !Accepts(s.TypeOf(), v)
    requires GeneralizeFor(s, v).Ok? && Accepts(GeneralizeFor(s, v).value.TypeOf(), v)
    ensures GeneralizeFor(s, v).value.TypeOf() !in {NullStrategy, FallbackStrategy}
    ensures InnerOf(a.store).Plain? ==> Widens(InnerOf(a.store).kind, KindFor(GeneralizeFor(s, v).value.TypeOf()))
  {
    var t := s.TypeOf();
    var f := ForValue(v);
    if t in {DoubleStrategy, LongStrategy, ObjectStrategy} && f != t {
      GeneralizeIsLeastCommon(t, f);
    }
  }

  /** The slow path with a value only the generalized strategy accepts: a store of that
      strategy, big enough for one more element, receives a copy of the elements, and the
      value is then written to the claimed slot `b` names. */
  lemma SlowPathGeneralizes(a: RubyArray, v: Value, s: Strategy, g: Strategy, size: int, capacityForOneMore: nat -> nat)
    returns (b: RubyArray)
    requires Grows(capacityForOneMore) && MirrorStore(s, a.store).Ok?
    requires !Accepts(s.TypeOf(), v) && Accepts(g.TypeOf(), v) && g.TypeOf() !in {NullStrategy, FallbackStrategy}
    requires 0 <= size <= MirrorStore(s, a.store).value.Capacity()
    requires Typed(MirrorStore(s, a.store).value)
    requires MirrorStore(s, a.store).value.Plain? ==> Widens(MirrorStore(s, a.store).value.kind, KindFor(g.TypeOf()))
    requires g.Shared? == a.shared && (g.Shared? ==> a.store.Wrapped? && a.store.wrapper.kind == WrapperFor(g.kind))
    ensures SlowPathAppend(a, v, s, g, size, false, capacityForOneMore) == WriteSlot(b, size, v)
    ensures b.size == a.size && b.shared == a.shared
    ensures InnerOf(b.store).Plain? && InnerOf(b.store).kind == KindFor(g.TypeOf()) && Typed(InnerOf(b.store))
    ensures size <= InnerOf(b.store).Capacity() && (size < INT_MAX ==> size < InnerOf(b.store).Capacity())
    ensures size > 0 ==> InnerOf(b.store).slots[..size]
                         == ConvertAll(KindFor(g.TypeOf()), MirrorStore(s, a.store).value.slots[..size])
  {
    var current := MirrorStore(s, a.store).value;
    var capacity := current.Capacity();
    var newCapacity := if ToInt32(size + 1) > capacity then capacityForOneMore(capacity) else capacity;
    assert size < INT_MAX ==> ToInt32(size + 1) == size + 1;
    var newStore := NewStore(KindFor(g.TypeOf()), newCapacity);
    assert NewArray(g, newCapacity) == Ok(newStore);
    var copied := CopyWidened(current, newStore, size);
    b := InstallGeneralized(a, g, copied);
    GeneralizingBranch(a, v, s, g, size, capacityForOneMore, current, newStore, copied, b);
  }

  /** The generalizing branch of `slowPathAppend`, step by step: the fresh store, the copy,
      `setStore`, and the write of the claimed slot. */
  lemma GeneralizingBranch(a: RubyArray, v: Value, s: Strategy, g: Strategy, size: int, capacityForOneMore: nat -> nat,
                           current: InnerStore, newStore: InnerStore, copied: InnerStore, b: RubyArray)
    requires Grows(capacityForOneMore) && MirrorStore(s, a.store) == Ok(current)
    requires !Accepts(s.TypeOf(), v) && Accepts(g.TypeOf(), v)
    requires NewArray(g, if ToInt32(size + 1) > current.Capacity() then capacityForOneMore(current.Capacity())
                         else current.Capacity()) == Ok(newStore)
    requires CopyTo(current, newStore, size) == Ok(copied)
    requires SetStore(g, a, Bare(copied)) == Ok(b)
    ensures SlowPathAppend(a, v, s, g, size, false, capacityForOneMore) == WriteSlot(b, size, v)
  {
  }

  /** `setStore` of the generalized strategy on the array whose sharing it matches. */
  lemma InstallGeneralized(a: RubyArray, g: Strategy, copied: InnerStore) returns (b: RubyArray)
    requires g.Shared? == a.shared && (g.Shared? ==> a.store.Wrapped? && a.store.wrapper.kind == WrapperFor(g.kind))
    ensures SetStore(g, a, Bare(copied)) == Ok(b)
    ensures InnerOf(b.store) == copied && b.size == a.size && b.shared == a.shared
  {
    b := SetStore(g, a, Bare(copied)).value;
  }

  /** Copying the elements of a store into a fresh store of a wider kind succeeds, converting
      each element, and leaves a store that holds only values of its kind. */
  lemma CopyWidened(src: InnerStore, dst: InnerStore, n: int) returns (copied: InnerStore)
    requires 0 <= n <= src.Capacity() && n <= dst.Capacity() && dst.Plain? && Typed(src) && Typed(dst)
    requires src.Plain? ==> Widens(src.kind, dst.kind)
    ensures CopyTo(src, dst, n) == Ok(copied)
    ensures copied.Plain? && copied.kind == dst.kind && copied.Capacity() == dst.Capacity() && Typed(copied)
    ensures n > 0 ==> copied.slots[..n] == ConvertAll(dst.kind, src.slots[..n])
  {
    forall i | 0 <= i < n
      ensures Holds(dst.kind, Converted(dst.kind, src.slots[i]))
    {
      WidenedIsHeld(src.kind, dst.kind, src.slots[i]);
    }
    copied := CopyTo(src, dst, n).value;
  }

  /** The corrected append on an array that `of` describes always succeeds: the size grows by
      one, the earlier elements are kept (converted to the kind of a more general store when
      the value moved them into one, and unchanged while the kind stays), the (widened) value
      is the last element, and the array stays valid, whether the value went in place, into a
      grown copy, or into a store of a more general strategy. */
  lemma AppendOneAppends(a: RubyArray, v: Value, capacityForOneMore: nat -> nat)
    requires Grows(capacityForOneMore) && Valid(a) && a.size < INT_MAX && Of(ArrayObject(a)).Ok?
    ensures var s := Of(ArrayObject(a)).value;
      var r := AppendOne(a, v, s, capacityForOneMore);
      r.Ok? && Valid(r.value) && r.value.size == a.size + 1 && r.value.shared == a.shared
      && InnerOf(r.value.store).Plain?
      && Elements(r.value) == ConvertAll(InnerOf(r.value.store).kind, Elements(a)) + [Widen(s.TypeOf(), v)]
      && (InnerOf(a.store).Plain? && InnerOf(r.value.store).kind == InnerOf(a.store).kind ==>
            Elements(r.value) == Elements(a) + [Widen(s.TypeOf(), v)])
  {
    var s := Of(ArrayObject(a)).value;
    OfArrayIsTypeStrategy(a);
    var w := Widen(s.TypeOf(), v);
    GeneralizeForAccepts(s, w);
    var a1 := a.(size := a.size + 1);
    MirrorOfMatchingStore(s, a.store);
    assert MirrorStore(s, a1.store) == Ok(InnerOf(a.store));
    if InnerOf(a.store).Plain? {
      ElementsHeld(a);
    }
    if Accepts(s.TypeOf(), w) {
      if a.size < InnerOf(a.store).Capacity() {
        AppendInPlace(a, w, s);
      } else {
        var g := GeneralizeFor(s, w).value;
        AppendGrowing(a, w, s, g, capacityForOneMore);
      }
    } else {
      AppendGeneralizing(a, w, s, capacityForOneMore);
    }
  }

  /** A full int[] array `[1]` that receives a Long moves to a long[] store: its element
      becomes the equal long, and the Long follows it. */
  lemma IntsMoveToLongs(capacityForOneMore: nat -> nat)
    requires Grows(capacityForOneMore)
    ensures var a := RubyArray(Bare(Plain(IntArray, [Integer(1)])), 1, false);
      var r := AppendOne(a, Long(0x100_0000_0000), Local(IntStrategy), capacityForOneMore);
      r.Ok? && InnerOf(r.value.store).Plain? && InnerOf(r.value.store).kind == LongArray
      && Valid(r.value) && Elements(r.value) == [Long(1), Long(0x100_0000_0000)]
  {
    var a := RubyArray(Bare(Plain(IntArray, [Integer(1)])), 1, false);
    assert Of(ArrayObject(a)) == Ok(Local(IntStrategy));
    AppendOneAppends(a, Long(0x100_0000_0000), capacityForOneMore);
    var r := AppendOne(a, Long(0x100_0000_0000), Local(IntStrategy), capacityForOneMore).value;
    assert InnerOf(r.store).kind == LongArray by {
      assert GeneralizeFor(Local(IntStrategy), Long(0x100_0000_0000)) == Ok(Local(LongStrategy));
    }
    assert Elements(a) == [Integer(1)];
  }

  /** The elements of a valid array are values of its store's kind, so converting them for
      that kind changes nothing. */
  lemma ElementsHeld(a: RubyArray)
    requires Valid(a) && InnerOf(a.store).Plain?
    ensures forall i :: 0 <= i < |Elements(a)| ==> Holds(InnerOf(a.store).kind, Elements(a)[i])
    ensures ConvertAll(InnerOf(a.store).kind, Elements(a)) == Elements(a)
  {
    ConvertAllHeld(InnerOf(a.store).kind, Elements(a));
  }

  /** As written, appending an Integer to an array with a long[] store never ends: long
      accepts only Long, generalizing long with int gives long again, and `strategyChanged`
      recomputes the same two strategies. */
  lemma IntegerIntoLongOverflows(a: RubyArray, i: int, capacityForOneMore: nat -> nat)
    requires Grows(capacityForOneMore) && Valid(a) && a.size < INT_MAX && a.store.Bare? && !a.shared
    requires InnerOf(a.store).Plain? && InnerOf(a.store).kind == LongArray
    ensures Of(ArrayObject(a)) == Ok(Local(LongStrategy))
    ensures AppendOneSameType(a, Integer(i), Local(LongStrategy), capacityForOneMore) == Raise(StackOverflow)
    ensures AppendOne(a, Integer(i), Local(LongStrategy), capacityForOneMore).Ok?
  {
    AppendOneAppends(a, Integer(i), capacityForOneMore);
    var s := Local(LongStrategy);
    var a1 := a.(size := a.size + 1);
    assert GeneralizeFor(s, Integer(i)) == Ok(s);
    MirrorOfMatchingStore(s, a.store);
    assert !Accepts(LongStrategy, Integer(i));
    assert Of(ArrayObject(a1)) == Ok(s);
    assert StrategyChanged(a1, Integer(i), a.size, capacityForOneMore) == Raise(StackOverflow);
  }

  /** No store the guard `strategy.matches(array)` admits is a FastAppendArray: `of` has no
      strategy for one. So the cast at line 61 fails for every append that reaches the
      specialization: with ClassCastException, or with NullPointerException for the null
      store, which the cast lets through and `getLock` dereferences. */
  lemma AppendCastFails(a: RubyArray, v: Value, s: Strategy, capacityForOneMore: nat -> nat)
    requires Grows(capacityForOneMore) && Matches(s, a)
    ensures AppendOneNode(a, v, s, capacityForOneMore)
            == Raise(if a.store == Bare(NullStore) then NullPointer else ClassCast)
  {
  }

  /** Away from that input the corrected append is the code as written. */
  lemma AppendOneAgreesAsWritten(a: RubyArray, v: Value, s: Strategy, capacityForOneMore: nat -> nat)
    requires Grows(capacityForOneMore) && Matches(s, a)
    requires !(s.TypeOf() == LongStrategy && v.Integer?)
    ensures AppendOne(a, v, s, capacityForOneMore) == AppendOneSameType(a, v, s, capacityForOneMore)
  {
  }
}
