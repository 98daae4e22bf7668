/** Storage strategies of Ruby arrays: which Java array backs an array, what it accepts, how
    two strategies generalize to one that can hold both, and how the concurrent strategies
    wrap a type strategy together with a lock kind. */
module ArrayStrategy {
  import opened Values
  import opened Stores
  import opened ConcurrentArray

  /** The strategies that describe the Java array itself. */
  datatype TypeStrategy =
    | NullStrategy
    | IntStrategy
    | LongStrategy
    | DoubleStrategy
    | ObjectStrategy
    | IntToObjectStrategy  // an Object[] store that does not accept long values
    | FallbackStrategy     // what `of` answers for an object that is not an array

  /** The concurrent strategies; each wraps a type strategy. */
  datatype LockKind = FixedSize | Synchronized | ReentrantLock | CustomLock | StampedLock | LayoutLock

  datatype Strategy = Local(t: TypeStrategy) | Shared(kind: LockKind, typeStrategy: TypeStrategy)
  {
    /** The type strategy, a concurrent strategy reduced to the one it wraps. */
    function TypeOf(): TypeStrategy {
      if Local? then t else typeStrategy
    }

    /** The same shape (local, or concurrent with the same lock kind) around another type strategy. */
    function WithType(u: TypeStrategy): (r: Strategy)
      ensures r.TypeOf() == u && r.Local? == Local?
    {
      if Local? then Local(u) else Shared(kind, u)
    }
  }

  /** The boxed classes `type()` reports. */
  datatype JClass = IntegerClass | LongClass | DoubleClass | ObjectClass

  /** A Ruby object given to `of`: an array, or any other object. */
  datatype RubyObject = ArrayObject(ary: RubyArray) | OtherObject(shared: bool)
  {
    predicate IsShared() {
      if ArrayObject? then ary.shared else shared
    }
  }

  /** The candidates generalization tries, in order. */
  const TYPE_STRATEGIES: seq<TypeStrategy> := [IntStrategy, LongStrategy, DoubleStrategy, ObjectStrategy]

  function TypeName(t: TypeStrategy): string {
    match t
    case NullStrategy => "null"
    case IntStrategy => "int[]"
    case LongStrategy => "long[]"
    case DoubleStrategy => "double[]"
    case ObjectStrategy => "Object[]"
    case IntToObjectStrategy => "Object[] (not accepting long)"
    case FallbackStrategy => "fallback"
  }

  function KindName(k: LockKind): string {
    match k
    case FixedSize => "FixedSize"
    case Synchronized => "Synchronized"
    case ReentrantLock => "ReentrantLock"
    case CustomLock => "CustomLock"
    case StampedLock => "StampedLock"
    case LayoutLock => "LayoutLock"
  }

  function ToString(s: Strategy): string {
    match s
    case Local(t) => TypeName(t)
    case Shared(k, t) => KindName(k) + "(" + TypeName(t) + ")"
  }

  /** The UnsupportedOperationException a strategy raises, carrying its name. */
  function Unsupported<T>(t: TypeStrategy): (r: Result<T>)
    ensures r.Raise? && r.exception == UnsupportedOperation(TypeName(t))
  {
    Raise(UnsupportedOperation(TypeName(t)))
  }

  // ---------------------------------------------------------------------------------------
  // Queries (the concurrent strategies delegate each of these to their type strategy)
  // ---------------------------------------------------------------------------------------

  function Type(t: TypeStrategy): Result<JClass> {
    match t
    case IntStrategy => Ok(IntegerClass)
    case LongStrategy => Ok(LongClass)
    case DoubleStrategy => Ok(DoubleClass)
    case ObjectStrategy => Ok(ObjectClass)
    case _ => Unsupported(t)
  }

  /** `canStore(type)`; `None` stands for a null class. */
  function CanStore(t: TypeStrategy, c: Option<JClass>): Result<bool> {
    match t
    case IntStrategy => Ok(c == Some(IntegerClass))
    case LongStrategy => Ok(c == Some(LongClass) || c == Some(IntegerClass))
    case DoubleStrategy => Ok(c == Some(DoubleClass))
    case ObjectStrategy => Ok(true)
    case NullStrategy => Ok(c.None?)
    case _ => Unsupported(t)
  }

  predicate Accepts(t: TypeStrategy, v: Value) {
    match t
    case IntStrategy => v.Integer?
    case LongStrategy => v.Long?
    case DoubleStrategy => v.Double?
    case ObjectStrategy => true
    case IntToObjectStrategy => !v.Long?
    case NullStrategy => false
    case FallbackStrategy => false
  }

  function SpecializesFor(t: TypeStrategy, v: Value): Result<bool> {
    match t
    case IntStrategy => Ok(v.Integer?)
    case LongStrategy => Ok(v.Long?)
    case DoubleStrategy => Ok(v.Double?)
    case ObjectStrategy => Ok(!(v.Integer? || v.Long? || v.Double?))
    case _ => Unsupported(t)
  }

  /** `isDefaultValue`: the primitive strategies unbox the value first, which fails on null
      and on a value of another class. */
  function IsDefaultValue(t: TypeStrategy, v: Value): Result<bool> {
    match t
    case IntStrategy => if v.Integer? then Ok(v.i == 0) else if v.Null? then Raise(NullPointer) else Raise(ClassCast)
    case LongStrategy => if v.Long? then Ok(v.l == 0) else if v.Null? then Raise(NullPointer) else Raise(ClassCast)
    case DoubleStrategy => if v.Double? then Ok(v.d == 0.0) else if v.Null? then Raise(NullPointer) else Raise(ClassCast)
    case ObjectStrategy => Ok(v.Null?)
    case _ => Unsupported(t)
  }

  /** `forValue`: the narrowest type strategy for one value. */
  function ForValue(v: Value): (r: TypeStrategy)
    ensures r in TYPE_STRATEGIES
    ensures Accepts(r, v) && SpecializesFor(r, v) == Ok(true)
    ensures r == ObjectStrategy <==> !(v.Integer? || v.Long? || v.Double?)
  {
    if v.Integer? then IntStrategy
    else if v.Long? then LongStrategy
    else if v.Double? then DoubleStrategy
    else ObjectStrategy
  }

  /** The store kind each type strategy allocates. */
  function KindFor(t: TypeStrategy): StoreKind
    requires t !in {NullStrategy, FallbackStrategy}
  {
    match t
    case IntStrategy => IntArray
    case LongStrategy => LongArray
    case DoubleStrategy => DoubleArray
    case _ => ObjectArray
  }

  // ---------------------------------------------------------------------------------------
  // Generalization
  // ---------------------------------------------------------------------------------------

  /** The loop over TYPE_STRATEGIES in the common `generalize`: the first candidate that can
      store both `type()` of this strategy and `type()` of the other one. */
  function FirstStoring(candidates: seq<TypeStrategy>, t: TypeStrategy, o: TypeStrategy): (r: Result<TypeStrategy>)
    ensures r.Ok? ==> r.value in candidates
  {
    if |candidates| == 0 then Unsupported(t)
    else
      var tc :- Type(t);
      var storesThis :- CanStore(candidates[0], Some(tc));
      if !storesThis then FirstStoring(candidates[1..], t, o)
      else
        var oc :- Type(o);
        var storesOther :- CanStore(candidates[0], Some(oc));
        if storesOther then Ok(candidates[0]) else FirstStoring(candidates[1..], t, o)
  }

  /** `generalize` of a type strategy, with the overrides of the int and fallback strategies.
      Only the common version reduces a concurrent argument to its type strategy, and it
      compares with itself before that reduction. */
  function LocalGeneralize(t: TypeStrategy, other: Strategy): (r: Result<Strategy>)
    ensures r.Ok? && other.Local? ==> r.value.Local?
    ensures r.Ok? && t != FallbackStrategy ==> r.value.Local?
  {
    match t
    case IntStrategy =>
      if other == Local(IntStrategy) then Ok(Local(IntStrategy))
      else if other == Local(LongStrategy) then Ok(Local(LongStrategy))
      else Ok(Local(IntToObjectStrategy))
    case FallbackStrategy => Ok(other)
    case NullStrategy =>
      // The self-comparison, the null argument and the null receiver all answer the
      // argument's type strategy here.
      Ok(Local(other.TypeOf()))
    case _ =>
      if other == Local(t) then Ok(Local(t))
      else
        var o := other.TypeOf();
        if o == NullStrategy then Ok(Local(t))
        else
          var g :- FirstStoring(TYPE_STRATEGIES, t, o);
          Ok(Local(g))
  }

  /** `generalizeTypeStrategy` of a concurrent strategy: the wrapped type strategy generalized
      with the other's type strategy. */
  function GeneralizeTypeStrategy(t: TypeStrategy, other: Strategy): Result<TypeStrategy> {
    var g :- LocalGeneralize(t, Local(other.TypeOf()));
    Ok(g.TypeOf())
  }

  /** The lock kind of a generalized concurrent strategy: a fixed-size array becomes
      synchronized when generalized with a synchronized one, every other kind is kept. */
  function GeneralizeKind(k: LockKind, other: Strategy): LockKind {
    if k == FixedSize && other.Shared? && other.kind == Synchronized then Synchronized else k
  }

  function Generalize(s: Strategy, other: Strategy): (r: Result<Strategy>)
    ensures r.Ok? && s.Shared? ==> r.value.Shared? && r.value.kind == GeneralizeKind(s.kind, other)
    ensures r.Ok? && s.Local? && s.t != FallbackStrategy ==> r.value.Local?
  {
    match s
    case Local(t) => LocalGeneralize(t, other)
    case Shared(k, t) =>
      var g :- GeneralizeTypeStrategy(t, other);
      Ok(Shared(GeneralizeKind(k, other), g))
  }

  /** `generalizeNew`: the strategy for a fresh (hence local) array that holds both. */
  function GeneralizeNew(s: Strategy, other: Strategy): (r: Result<Strategy>)
    ensures r.Ok? && s.Shared? ==> r.value.Local?
  {
    match s
    case Local(_) => Generalize(s, other)
    case Shared(_, t) =>
      var g :- GeneralizeTypeStrategy(t, other);
      Ok(Local(g))
  }

  /** `generalizeFor`: the strategy that holds both this strategy's values and `v`, keeping
      the sharing and the lock kind. */
  function GeneralizeFor(s: Strategy, v: Value): (r: Result<Strategy>)
    ensures r.Ok? ==> r.value.Shared? == s.Shared?
    ensures r.Ok? && s.Shared? ==> r.value.kind == s.kind
  {
    Generalize(s, Local(ForValue(v)))
  }

  // ---------------------------------------------------------------------------------------
  // Strategy of a store, matching, wrapping
  // ---------------------------------------------------------------------------------------

  /** `store.getClass().getName()`; null has no class. */
  function ClassName(store: InnerStore): Result<string> {
    match store
    case NullStore => Raise(NullPointer)
    case Plain(IntArray, _) => Ok("[I")
    case Plain(LongArray, _) => Ok("[J")
    case Plain(DoubleArray, _) => Ok("[D")
    case Plain(ObjectArray, _) => Ok("[Ljava.lang.Object;")
    case Plain(OtherArray(name), _) => Ok(name)
  }

  function OfStore(store: InnerStore): (r: Result<TypeStrategy>)
    ensures r.Ok? <==> !(store.Plain? && store.kind.OtherArray?)
    ensures r.Raise? ==> r.exception == UnsupportedOperation(store.kind.className)
  {
    match store
    case NullStore => Ok(NullStrategy)
    case Plain(IntArray, _) => Ok(IntStrategy)
    case Plain(LongArray, _) => Ok(LongStrategy)
    case Plain(DoubleArray, _) => Ok(DoubleStrategy)
    case Plain(ObjectArray, _) => Ok(ObjectStrategy)
    case Plain(OtherArray(name), _) => Raise(UnsupportedOperation(name))
  }

  /** The wrapper class each concurrent strategy keeps in the store field. */
  function WrapperFor(k: LockKind): WrapperKind {
    match k
    case FixedSize => FixedSizeArray
    case Synchronized => SynchronizedArray
    case ReentrantLock => ReentrantLockArray
    case CustomLock => CustomLockArray
    case StampedLock => StampedLockArray
    case LayoutLock => LayoutLockArray
  }

  /** The lock kind whose strategy handles a wrapper class; the two fast layout-lock wrappers
      have none. */
  function KindOfWrapper(w: WrapperKind): (r: Option<LockKind>)
    ensures r.Some? ==> WrapperFor(r.value) == w
  {
    match w
    case FixedSizeArray => Some(FixedSize)
    case SynchronizedArray => Some(Synchronized)
    case ReentrantLockArray => Some(ReentrantLock)
    case CustomLockArray => Some(CustomLock)
    case StampedLockArray => Some(StampedLock)
    case LayoutLockArray => Some(LayoutLock)
    case FastLayoutLockArray => None
    case FastAppendArray => None
  }

  function OfImpl(o: RubyObject): Result<Strategy> {
    if o.OtherObject? then Ok(Local(FallbackStrategy))
    else
      match o.ary.store
      case Bare(inner) =>
        var t :- OfStore(inner);
        Ok(Local(t))
      case Wrapped(w) =>
        match KindOfWrapper(w.kind)
        case Some(k) =>
          var t :- OfStore(w.store);
          Ok(Shared(k, t))
        case None =>
          var name :- ClassName(w.store);
          Raise(UnsupportedOperation(name))
  }

  /** `of`: the strategy of an object, asserting that exactly the shared arrays get a
      concurrent strategy. */
  function Of(o: RubyObject): (r: Result<Strategy>)
    ensures r.Ok? ==> r.value.Shared? == o.IsShared()
    ensures r.Ok? && o.ArrayObject? ==> Matches(r.value, o.ary)
    ensures o.OtherObject? ==> r == if o.shared then Raise(AssertionFailure) else Ok(Local(FallbackStrategy))
  {
    var s :- OfImpl(o);
    var _ :- Check(s.Shared? == o.IsShared());
    Ok(s)
  }

  predicate MatchesType(t: TypeStrategy, store: ArrayStore) {
    match t
    case NullStrategy => store == Bare(NullStore)
    case IntStrategy => store.Bare? && store.inner.Plain? && store.inner.kind == IntArray
    case LongStrategy => store.Bare? && store.inner.Plain? && store.inner.kind == LongArray
    case DoubleStrategy => store.Bare? && store.inner.Plain? && store.inner.kind == DoubleArray
    case ObjectStrategy => store.Bare? && store.inner.Plain? && store.inner.kind == ObjectArray
    case IntToObjectStrategy => store.Bare? && store.inner.Plain? && store.inner.kind == ObjectArray
    case FallbackStrategy => false
  }

  predicate MatchesStore(s: Strategy, store: ArrayStore) {
    match s
    case Local(t) => MatchesType(t, store)
    case Shared(k, t) =>
      store.Wrapped? && store.wrapper.kind == WrapperFor(k) && MatchesType(t, Bare(store.wrapper.store))
  }

  predicate Matches(s: Strategy, a: RubyArray) {
    MatchesStore(s, a.store)
  }

  /** The lock of the wrapper currently in the store field, read through a cast to the
      wrapper class of the strategy. */
  function CurrentLock(current: ArrayStore, kind: WrapperKind): Result<Option<LockRef>> {
    match current
    case Bare(NullStore) => Raise(NullPointer)
    case Bare(_) => Raise(ClassCast)
    case Wrapped(w) => if w.kind == kind then Ok(w.lock) else Raise(ClassCast)
  }

  /** `wrap`: the new store field for a concurrent array. The lock-based wrappers carry over
      the lock of the current wrapper; a layout-lock wrapper is built without one. */
  function Wrap(k: LockKind, current: ArrayStore, store: ArrayStore): (r: Result<ArrayStore>)
    ensures r.Ok? ==> store.Bare? && r.value.Wrapped? && r.value.wrapper.kind == WrapperFor(k)
    ensures r.Ok? ==> r.value.wrapper.store == store.inner
  {
    match k
    case FixedSize | Synchronized | LayoutLock =>
      var w :- NewWrapper(WrapperFor(k), store, None);
      Ok(Wrapped(w))
    case _ =>
      var lock :- CurrentLock(current, WrapperFor(k));
      var w :- NewWrapper(WrapperFor(k), store, lock);
      Ok(Wrapped(w))
  }

  /** `unwrap`: the store inside the wrapper, through a cast to the strategy's wrapper class. */
  function Unwrap(k: LockKind, store: ArrayStore): (r: Result<InnerStore>)
    ensures r.Ok? <==> store.Wrapped? && store.wrapper.kind == WrapperFor(k)
  {
    match store
    case Bare(NullStore) => Raise(NullPointer)
    case Bare(_) => Raise(ClassCast)
    case Wrapped(w) => if w.kind == WrapperFor(k) then Ok(GetStore(w)) else Raise(ClassCast)
  }

  /** `setStore`: a local strategy asserts the array is not shared and stores as is; a
      concurrent one asserts it is shared and stores the wrapped store. */
  function SetStore(s: Strategy, a: RubyArray, store: ArrayStore): (r: Result<RubyArray>)
    ensures r.Ok? ==> r.value.size == a.size && r.value.shared == a.shared
    ensures r.Ok? ==> a.shared == s.Shared?
  {
    match s
    case Local(_) =>
      var _ :- Check(!a.shared);
      Ok(a.(store := store))
    case Shared(k, _) =>
      var _ :- Check(a.shared);
      var w :- Wrap(k, a.store, store);
      Ok(a.(store := w))
  }

  function SetStoreAndSize(s: Strategy, a: RubyArray, store: ArrayStore, size: int): (r: Result<RubyArray>)
    ensures r.Ok? ==> r.value.size == size && r.value.shared == a.shared
  {
    var b :- SetStore(s, a, store);
    Ok(b.(size := size))
  }

  /** `getSize`: the null strategy reports 0 whatever the size field says; the concurrent
      strategies do not delegate this one. */
  function GetSize(s: Strategy, a: RubyArray): int {
    if s == Local(NullStrategy) then 0 else a.size
  }

  /** The store of `newArray(size)`; the empty mirror of the null strategy is modelled by a
      null store. */
  function NewArray(s: Strategy, size: int): (r: Result<InnerStore>)
    ensures r.Ok? ==> r.value.Capacity() == size
  {
    var t := s.TypeOf();
    match t
    case NullStrategy =>
      var _ :- Check(size == 0);
      Ok(NullStore)
    case FallbackStrategy => Unsupported(t)
    case _ => if size < 0 then Raise(NegativeArraySize(size)) else Ok(NewStore(KindFor(t), size))
  }

  /** The store a type strategy's mirror sees: the cast of the store to the strategy's
      array class (a null store passes any cast). */
  function TypeMirror(t: TypeStrategy, store: ArrayStore): Result<InnerStore> {
    match t
    case NullStrategy => Ok(NullStore)
    case FallbackStrategy => Unsupported(t)
    case _ =>
      if store.Wrapped? then Raise(ClassCast)
      else if store.inner.NullStore? then Ok(NullStore)
      else
        var kind := store.inner.kind;
        var castOk := match t
          case IntStrategy => kind == IntArray
          case LongStrategy => kind == LongArray
          case DoubleStrategy => kind == DoubleArray
          case _ => kind == ObjectArray || kind.OtherArray?;
        if castOk then Ok(store.inner) else Raise(ClassCast)
  }

  /** `newMirrorFromStore`: a concurrent strategy unwraps the store first. */
  function MirrorStore(s: Strategy, store: ArrayStore): Result<InnerStore> {
    match s
    case Local(t) => TypeMirror(t, store)
    case Shared(k, t) =>
      var inner :- Unwrap(k, store);
      TypeMirror(t, Bare(inner))
  }

  // ---------------------------------------------------------------------------------------
  // Properties
  // ---------------------------------------------------------------------------------------

  /** Reference reading of `canStore` on the four candidates: the boxed classes a store of
      that strategy can represent. */
  function StorableClasses(g: TypeStrategy): set<JClass> {
    match g
    case IntStrategy => {IntegerClass}
    case LongStrategy => {IntegerClass, LongClass}
    case DoubleStrategy => {DoubleClass}
    case ObjectStrategy => {IntegerClass, LongClass, DoubleClass, ObjectClass}
    case _ => {}
  }

  function ClassOf(t: TypeStrategy): JClass
    requires t in TYPE_STRATEGIES
  {
    match t
    case IntStrategy => IntegerClass
    case LongStrategy => LongClass
    case DoubleStrategy => DoubleClass
    case _ => ObjectClass
  }

  predicate StoresBoth(g: TypeStrategy, t: TypeStrategy, o: TypeStrategy)
    requires t in TYPE_STRATEGIES && o in TYPE_STRATEGIES
  {
    ClassOf(t) in StorableClasses(g) && ClassOf(o) in StorableClasses(g)
  }

  /** One step of the generalization loop: the head candidate if it stores both classes, the
      loop over the rest otherwise. */
  lemma FirstStoringStep(candidates: seq<TypeStrategy>, t: TypeStrategy, o: TypeStrategy)
    requires t in TYPE_STRATEGIES && o in TYPE_STRATEGIES && |candidates| > 0 && candidates[0] in TYPE_STRATEGIES
    ensures FirstStoring(candidates, t, o)
            == if StoresBoth(candidates[0], t, o) then Ok(candidates[0]) else FirstStoring(candidates[1..], t, o)
  {
    TypeIsClassOf(t);
    TypeIsClassOf(o);
    CanStoreIsStorable(candidates[0], ClassOf(t));
    CanStoreIsStorable(candidates[0], ClassOf(o));
  }

  lemma TypeIsClassOf(t: TypeStrategy)
    requires t in TYPE_STRATEGIES
    ensures Type(t) == Ok(ClassOf(t))
  {
  }

  lemma CanStoreIsStorable(g: TypeStrategy, c: JClass)
    requires g in TYPE_STRATEGIES
    ensures CanStore(g, Some(c)) == Ok(c in StorableClasses(g))
  {
  }

  /** The generalization loop returns the first candidate that stores both classes, and
      raises only when no candidate does. */
  lemma FirstStoringIsFirst(candidates: seq<TypeStrategy>, t: TypeStrategy, o: TypeStrategy)
    requires t in TYPE_STRATEGIES && o in TYPE_STRATEGIES
    requires forall i :: 0 <= i < |candidates| ==> candidates[i] in TYPE_STRATEGIES
    ensures var r := FirstStoring(candidates, t, o);
      (r.Ok? <==> exists i :: 0 <= i < |candidates| && StoresBoth(candidates[i], t, o))
      && (r.Ok? ==> exists i :: 0 <= i < |candidates| && candidates[i] == r.value && StoresBoth(r.value, t, o)
                      && forall j :: 0 <= j < i ==> !StoresBoth(candidates[j], t, o))
  {
    FirstStoringRaises(candidates, t, o);
    if FirstStoring(candidates, t, o).Ok? {
      var i := FirstStoringIndex(candidates, t, o);
    }
  }

  /** The loop raises exactly when no candidate stores both classes. */
  lemma {:induction false} FirstStoringRaises(candidates: seq<TypeStrategy>, t: TypeStrategy, o: TypeStrategy)
    requires t in TYPE_STRATEGIES && o in TYPE_STRATEGIES
    requires forall i :: 0 <= i < |candidates| ==> candidates[i] in TYPE_STRATEGIES
    ensures FirstStoring(candidates, t, o).Ok? <==> exists i :: 0 <= i < |candidates| && StoresBoth(candidates[i], t, o)
  {
    if |candidates| > 0 {
      var rest := candidates[1..];
      FirstStoringStep(candidates, t, o);
      FirstStoringRaises(rest, t, o);
      if !StoresBoth(candidates[0], t, o) {
        forall i | 0 <= i < |rest| && StoresBoth(rest[i], t, o)
          ensures exists i' :: 0 <= i' < |candidates| && StoresBoth(candidates[i'], t, o)
        {
          assert candidates[i + 1] == rest[i];
        }
        forall i | 0 < i < |candidates| && StoresBoth(candidates[i], t, o)
          ensures exists i' :: 0 <= i' < |rest| && StoresBoth(rest[i'], t, o)
        {
          assert rest[i - 1] == candidates[i];
        }
      }
    }
  }

  /** When the loop succeeds, its result is at an index before which no candidate stores both
      classes. */
  lemma {:induction false} FirstStoringIndex(candidates: seq<TypeStrategy>, t: TypeStrategy, o: TypeStrategy) returns (i: nat)
    requires t in TYPE_STRATEGIES && o in TYPE_STRATEGIES
    requires forall i :: 0 <= i < |candidates| ==> candidates[i] in TYPE_STRATEGIES
    requires FirstStoring(candidates, t, o).Ok?
    ensures i < |candidates| && candidates[i] == FirstStoring(candidates, t, o).value && StoresBoth(candidates[i], t, o)
    ensures forall j :: 0 <= j < i ==> !StoresBoth(candidates[j], t, o)
  {
    var rest := candidates[1..];
    FirstStoringStep(candidates, t, o);
    if StoresBoth(candidates[0], t, o) {
      i := 0;
    } else {
      var k := FirstStoringIndex(rest, t, o);
      i := k + 1;
      assert candidates[i] == rest[k];
      forall j | 0 <= j < i
        ensures !StoresBoth(candidates[j], t, o)
      {
        if j > 0 {
          assert candidates[j] == rest[j - 1];
        }
      }
    }
  }

  /** For the long, double and Object strategies, generalizing with a type strategy gives the
      least candidate (in the order int, long, double, Object) that can store both classes. */
  lemma GeneralizeIsLeastCommon(t: TypeStrategy, o: TypeStrategy)
    requires t in {LongStrategy, DoubleStrategy, ObjectStrategy} && o in TYPE_STRATEGIES
    ensures var r := Generalize(Local(t), Local(o));
      r.Ok? && r.value.Local? && r.value.t in TYPE_STRATEGIES && StoresBoth(r.value.t, t, o)
      && exists i :: 0 <= i < |TYPE_STRATEGIES| && TYPE_STRATEGIES[i] == r.value.t
           && forall j :: 0 <= j < i ==> !StoresBoth(TYPE_STRATEGIES[j], t, o)
  {
    assert StoresBoth(TYPE_STRATEGIES[3], t, o);
    if o != t {
      FirstStoringIsFirst(TYPE_STRATEGIES, t, o);
      var g := FirstStoring(TYPE_STRATEGIES, t, o);
      assert g.Ok?;
      assert Generalize(Local(t), Local(o)) == Ok(Local(g.value));
    } else {
      var i := if t == LongStrategy then 1 else if t == DoubleStrategy then 2 else 3;
      assert TYPE_STRATEGIES[i] == t;
      forall j | 0 <= j < i
        ensures !StoresBoth(TYPE_STRATEGIES[j], t, o)
      {
      }
    }
  }

  /** The int strategy's override: it generalizes to long only with the local long strategy
      and to the not-accepting-long Object strategy otherwise, so generalization is not
      commutative and a concurrent long argument is not reduced. */
  lemma IntGeneralizeOverride(k: LockKind)
    ensures Generalize(Local(IntStrategy), Local(LongStrategy)) == Ok(Local(LongStrategy))
    ensures Generalize(Local(IntStrategy), Shared(k, LongStrategy)) == Ok(Local(IntToObjectStrategy))
    ensures Generalize(Local(IntStrategy), Local(DoubleStrategy)) == Ok(Local(IntToObjectStrategy))
    ensures Generalize(Local(DoubleStrategy), Local(IntStrategy)) == Ok(Local(ObjectStrategy))
    ensures Generalize(Local(IntStrategy), Local(NullStrategy)) == Ok(Local(IntToObjectStrategy))
  {
  }

  /** Every strategy generalizes with itself to itself. */
  lemma GeneralizeReflexive(s: Strategy)
    ensures Generalize(s, s) == Ok(s)
  {
  }

  /** The null strategy is a right identity except for the int strategy (which turns into the
      not-accepting-long strategy) and the fallback strategy (which turns into the argument). */
  lemma GeneralizeNullRight(s: Strategy)
    ensures s.TypeOf() !in {IntStrategy, FallbackStrategy} ==> Generalize(s, Local(NullStrategy)) == Ok(s)
    ensures s.TypeOf() == IntStrategy ==> Generalize(s, Local(NullStrategy)) == Ok(s.WithType(IntToObjectStrategy))
    ensures s.TypeOf() == FallbackStrategy ==> Generalize(s, Local(NullStrategy)) == Ok(s.WithType(NullStrategy))
  {
  }

  /** The local null strategy is a left identity up to reduction: it yields the argument's
      type strategy, locally. */
  lemma GeneralizeNullLeft(o: Strategy)
    ensures Generalize(Local(NullStrategy), o) == Ok(Local(o.TypeOf()))
  {
  }

  /** A concurrent strategy generalizes exactly as its type strategy does with the other's
      type strategy, and keeps its lock kind (fixed-size turns synchronized next to a
      synchronized argument). */
  lemma SharedGeneralizesTypeStrategy(k: LockKind, t: TypeStrategy, o: Strategy)
    ensures var r := Generalize(Shared(k, t), o);
      var local := Generalize(Local(t), Local(o.TypeOf()));
      (r.Ok? <==> local.Ok?)
      && (r.Ok? ==> r.value == Shared(GeneralizeKind(k, o), local.value.TypeOf()))
      && (r.Raise? ==> r.exception == local.exception)
  {
  }

  /** The not-accepting-long strategy has no `type()`, so it cannot be generalized with any
      non-null strategy but itself, and the long, double and Object strategies cannot be
      generalized with it; the int strategy can. */
  lemma IntToObjectDoesNotGeneralize(o: Strategy, t: TypeStrategy)
    requires t in {LongStrategy, DoubleStrategy, ObjectStrategy}
    ensures o.TypeOf() != NullStrategy && o != Local(IntToObjectStrategy) ==>
      Generalize(Local(IntToObjectStrategy), o) == Raise(UnsupportedOperation("Object[] (not accepting long)"))
    ensures Generalize(Local(t), Local(IntToObjectStrategy)) == Raise(UnsupportedOperation("Object[] (not accepting long)"))
    ensures Generalize(Local(IntStrategy), Local(IntToObjectStrategy)) == Ok(Local(IntToObjectStrategy))
  {
  }

  /** Generalizing for a value gives a strategy that accepts it, whatever the starting type
      strategy, with two exceptions: the long strategy stays long for an Integer value (which
      it does not accept), and the not-accepting-long strategy cannot be generalized. */
  lemma GeneralizeForAccepts(s: Strategy, v: Value)
    ensures s.TypeOf() !in {LongStrategy, IntToObjectStrategy} ==>
      GeneralizeFor(s, v).Ok? && Accepts(GeneralizeFor(s, v).value.TypeOf(), v)
    ensures s.TypeOf() == LongStrategy ==>
      GeneralizeFor(s, v).Ok? && (Accepts(GeneralizeFor(s, v).value.TypeOf(), v) <==> !v.Integer?)
    ensures s.TypeOf() == IntToObjectStrategy ==> GeneralizeFor(s, v).Raise?
  {
    var t := s.TypeOf();
    var f := ForValue(v);
    if t in {DoubleStrategy, LongStrategy, ObjectStrategy} && f != t {
      GeneralizeIsLeastCommon(t, f);
    }
  }

  /** A fresh store of a type strategy holds only values that strategy reads as default. */
  lemma NewArrayIsDefault(t: TypeStrategy, size: int)
    requires t in TYPE_STRATEGIES && size >= 0
    ensures NewArray(Local(t), size).Ok?
    ensures var store := NewArray(Local(t), size).value;
      MatchesType(t, Bare(store))
      && forall i :: 0 <= i < size ==> IsDefaultValue(t, store.slots[i]) == Ok(true)
  {
  }

  /** Only a default value is read as one. */
  lemma DefaultValueIsDefault(t: TypeStrategy, v: Value)
    requires t in TYPE_STRATEGIES
    ensures IsDefaultValue(t, v) == Ok(true) <==> v == DefaultFor(KindFor(t))
  {
  }

  /** `of` answers a strategy that matches the array, concurrent exactly when the array is
      shared; it fails only on a store of another class, a fast layout-lock wrapper, or a
      shared/local mismatch. */
  lemma OfMatches(a: RubyArray)
    ensures var r := Of(ArrayObject(a));
      r.Ok? ==> Matches(r.value, a) && r.value.Shared? == a.shared
    ensures var r := Of(ArrayObject(a));
      r.Ok? <==> (a.shared == a.store.Wrapped?)
                 && (a.store.Bare? ==> !(a.store.inner.Plain? && a.store.inner.kind.OtherArray?))
                 && (a.store.Wrapped? ==>
                       (KindOfWrapper(a.store.wrapper.kind).Some?
                        && !(a.store.wrapper.store.Plain? && a.store.wrapper.store.kind.OtherArray?)))
  {
  }

  /** At most one strategy matches a store, apart from the two strategies that share the
      Object[] store. */
  lemma MatchingStrategyIsUnique(s1: Strategy, s2: Strategy, store: ArrayStore)
    requires s1.TypeOf() != IntToObjectStrategy && s2.TypeOf() != IntToObjectStrategy
    requires MatchesStore(s1, store) && MatchesStore(s2, store)
    ensures s1 == s2
  {
  }

  /** `unwrap` undoes `wrap`, and the wrapped store matches the concurrent strategy exactly
      when the plain store matches its type strategy. Wrapping succeeds unless the store is
      itself a wrapper, or a lock must be carried over from a store field that does not hold
      a wrapper of the same class. */
  lemma UnwrapWrap(k: LockKind, t: TypeStrategy, current: ArrayStore, inner: InnerStore)
    ensures var r := Wrap(k, current, Bare(inner));
      r.Ok? <==> (k in {FixedSize, Synchronized, LayoutLock}
                  || (current.Wrapped? && current.wrapper.kind == WrapperFor(k)))
    ensures var r := Wrap(k, current, Bare(inner));
      r.Ok? ==> Unwrap(k, r.value) == Ok(inner)
                && (MatchesStore(Shared(k, t), r.value) <==> MatchesType(t, Bare(inner)))
  {
  }

  /** Storing a store that matches the type strategy keeps the array matching its strategy,
      and the mirror then sees exactly that store. */
  lemma SetStoreKeepsMatching(s: Strategy, a: RubyArray, inner: InnerStore)
    requires MatchesType(s.TypeOf(), Bare(inner))
    ensures var r := SetStore(s, a, Bare(inner));
      r.Ok? ==> Matches(s, r.value) && MirrorStore(s, r.value.store) == Ok(inner)
  {
  }

  /** The mirror of a matching strategy sees the array's own store. */
  lemma MirrorOfMatchingStore(s: Strategy, store: ArrayStore)
    requires MatchesStore(s, store)
    ensures MirrorStore(s, store) == Ok(if store.Bare? then store.inner else store.wrapper.store)
  {
  }

  /** A concurrent strategy prints as its lock kind around its type strategy's name, so the
      first letter tells a concurrent strategy (an upper-case lock name) from a local one. */
  lemma ToStringNamesSharing(s: Strategy)
    ensures |ToString(s)| > 0 && (ToString(s)[0] in "FSRCL" <==> s.Shared?)
    ensures ToString(Shared(Synchronized, ObjectStrategy)) == "Synchronized(Object[])"
  {
    match s
    case Local(t) =>
      TypeNameLowerOrObject(t);
    case Shared(k, t) =>
      KindNameUpper(k);
      assert ToString(s)[0] == KindName(k)[0];
  }

  /** A type strategy's name starts with a lower-case letter or with the `O` of `Object`. */
  lemma TypeNameLowerOrObject(t: TypeStrategy)
    ensures |TypeName(t)| > 0 && TypeName(t)[0] !in "FSRCL"
  {
  }

  /** A lock kind's name starts with one of the upper-case letters `F`, `S`, `R`, `C`, `L`. */
  lemma KindNameUpper(k: LockKind)
    ensures |KindName(k)| > 0 && KindName(k)[0] in "FSRCL"
  {
  }
}
