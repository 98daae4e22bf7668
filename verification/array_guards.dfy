/** The guards the array nodes dispatch on: the class of the store field, and emptiness.
    Every guard asserts that its argument is a Ruby array, which the argument's type already
    says here. */
module ArrayGuards {
  import opened Stores
  import opened ConcurrentArray
  import opened ArrayStrategy

  /** Enough specializations for every pair of a type strategy or null. */
  const ARRAY_STRATEGIES: nat := 25

  predicate IsIntArray(a: RubyArray) {
    a.store.Bare? && a.store.inner.Plain? && a.store.inner.kind == IntArray
  }

  predicate IsLongArray(a: RubyArray) {
    a.store.Bare? && a.store.inner.Plain? && a.store.inner.kind == LongArray
  }

  predicate IsDoubleArray(a: RubyArray) {
    a.store.Bare? && a.store.inner.Plain? && a.store.inner.kind == DoubleArray
  }

  /** Exactly `Object[]`: an array of another reference class does not count. */
  predicate IsObjectArray(a: RubyArray) {
    a.store.Bare? && a.store.inner.Plain? && a.store.inner.kind == ObjectArray
  }

  predicate IsConcurrentArray(a: RubyArray) {
    a.store.Wrapped?
  }

  /** `isFixedSizeArray`, `isSynchronizedArray`, … `isFastLayoutLockArray`: the store field
      holds a wrapper of that final class. */
  predicate IsWrapperArray(a: RubyArray, kind: WrapperKind) {
    a.store.Wrapped? && a.store.wrapper.kind == kind
  }

  predicate IsEmptyArray(a: RubyArray) {
    a.size == 0
  }

  /** The storage guards are the local strategies' matching tests. */
  lemma StorageGuardsAreMatches(a: RubyArray)
    ensures IsIntArray(a) <==> Matches(Local(IntStrategy), a)
    ensures IsLongArray(a) <==> Matches(Local(LongStrategy), a)
    ensures IsDoubleArray(a) <==> Matches(Local(DoubleStrategy), a)
    ensures IsObjectArray(a) <==> Matches(Local(ObjectStrategy), a)
    ensures IsConcurrentArray(a) <==> exists k: WrapperKind :: IsWrapperArray(a, k)
  {
    if IsConcurrentArray(a) {
      assert IsWrapperArray(a, a.store.wrapper.kind);
    }
  }

  /** A concurrent strategy matches an array exactly when the wrapper guard of its lock kind
      holds and the wrapped store matches the type strategy. */
  lemma WrapperGuardsAreMatches(a: RubyArray, k: LockKind, t: TypeStrategy)
    ensures Matches(Shared(k, t), a)
        <==> IsWrapperArray(a, WrapperFor(k)) && MatchesType(t, Bare(a.store.wrapper.store))
  {
  }

  /** The storage guards exclude each other: a store field holds one class. */
  lemma AtMostOneStorageGuard(a: RubyArray)
    ensures (if IsIntArray(a) then 1 else 0) + (if IsLongArray(a) then 1 else 0)
          + (if IsDoubleArray(a) then 1 else 0) + (if IsObjectArray(a) then 1 else 0)
          + (if IsConcurrentArray(a) then 1 else 0) <= 1
  {
  }

  /** Whenever `of` succeeds on an array, exactly one of the storage guards, or a null store,
      describes it. */
  lemma OfArrayHasOneGuard(a: RubyArray)
    requires Of(ArrayObject(a)).Ok?
    ensures IsIntArray(a) || IsLongArray(a) || IsDoubleArray(a) || IsObjectArray(a)
         || IsConcurrentArray(a) || a.store == Bare(NullStore)
  {
    OfMatches(a);
  }

  /** The strategies a specialization can see for one array: a type strategy or the null
      strategy. */
  function StrategiesOrNull(): (r: seq<TypeStrategy>)
    ensures |r| == |TYPE_STRATEGIES| + 1
    ensures forall t :: t in r <==> t == NullStrategy || t in TYPE_STRATEGIES
  {
    [NullStrategy] + TYPE_STRATEGIES
  }

  /** The ordered pairs of strategies a two-array node specializes on, row by row. */
  function StrategyPairs(): seq<(TypeStrategy, TypeStrategy)> {
    var row := StrategiesOrNull();
    seq(|row| * |row|, k requires 0 <= k < |row| * |row| => (row[k / |row|], row[k % |row|]))
  }

  /** ARRAY_STRATEGIES specializations are exactly enough: the pairs of a type strategy or
      null number ARRAY_STRATEGIES, every such pair is among them, and no pair is listed
      twice. */
  lemma {:induction false} ArrayStrategiesCoverPairs()
    ensures |StrategyPairs()| == ARRAY_STRATEGIES
    ensures forall p, q :: p in StrategiesOrNull() && q in StrategiesOrNull() ==> (p, q) in StrategyPairs()
    ensures forall k, m :: 0 <= k < m < |StrategyPairs()| ==> StrategyPairs()[k] != StrategyPairs()[m]
  {
    var row := StrategiesOrNull();
    var pairs := StrategyPairs();
    assert row == [NullStrategy, IntStrategy, LongStrategy, DoubleStrategy, ObjectStrategy];
    forall p, q | p in row && q in row
      ensures (p, q) in pairs
    {
      var i := Position(row, p);
      var j := Position(row, q);
      assert pairs[i * 5 + j] == (p, q);
    }
    forall k, m | 0 <= k < m < |pairs|
      ensures pairs[k] != pairs[m]
    {
      assert pairs[k] == (row[k / 5], row[k % 5]);
      assert pairs[m] == (row[m / 5], row[m % 5]);
    }
  }

  /** Where a strategy sits among `StrategiesOrNull`. */
  function Position(row: seq<TypeStrategy>, p: TypeStrategy): (r: nat)
    requires row == [NullStrategy, IntStrategy, LongStrategy, DoubleStrategy, ObjectStrategy] && p in row
    ensures r < 5 && row[r] == p
  {
    match p
    case NullStrategy => 0
    case IntStrategy => 1
    case LongStrategy => 2
    case DoubleStrategy => 3
    case _ => 4
  }
}
