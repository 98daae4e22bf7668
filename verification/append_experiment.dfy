/** The stand-alone experiment with an appendable int array: a store, one tag per slot
    saying the slot has been published, and a size counter. Every lock-protected section is
    one atomic step here; the two sections of an append collapse into one because nothing
    can change the store in between. */
module AppendExperiment {
  import opened Values

  const INITIAL_CAPACITY: nat := 16
  /** What `at` answers for a slot that holds no published element. */
  const NIL: int := -1

  datatype AppendArray = AppendArray(store: seq<int>, tags: seq<bool>, size: int)

  /** Store and tags have one common, non-zero length that a Java array can have; the size
      fits it; and exactly the slots below the size are tagged. */
  predicate Valid(e: AppendArray) {
    |e.store| == |e.tags| && 0 < |e.store| <= INT_MAX && 0 <= e.size <= |e.store|
    && forall i :: 0 <= i < |e.tags| ==> (e.tags[i] <==> i < e.size)
  }

  function Elements(e: AppendArray): seq<int>
    requires 0 <= e.size <= |e.store|
  {
    e.store[..e.size]
  }

  /** `Arrays.copyOf` on an int[] or a boolean[]: truncated, or padded with the default. */
  function CopyOf<T>(xs: seq<T>, capacity: nat, default: T): (r: seq<T>)
    ensures |r| == capacity
    ensures forall i :: 0 <= i < capacity && i < |xs| ==> r[i] == xs[i]
    ensures forall i :: |xs| <= i < capacity ==> r[i] == default
  {
    if capacity <= |xs| then xs[..capacity] else xs + Repeat(default, capacity - |xs|)
  }

  function New(): (r: AppendArray)
    ensures Valid(r) && Elements(r) == [] && |r.store| == INITIAL_CAPACITY
  {
    AppendArray(Repeat(0, INITIAL_CAPACITY), Repeat(false, INITIAL_CAPACITY), 0)
  }

  /** `append`: claims slot `size`, writes and tags it in place when the store has room, and
      otherwise first doubles the store and the tags. The doubled length is a Java `int`, so
      a store of more than 2^30 slots doubles to a negative length, which `Arrays.copyOf`
      refuses with NegativeArraySizeException. */
  function Append(e: AppendArray, value: int): (r: Result<AppendArray>)
    ensures Valid(e) && (e.size < |e.store| || 2 * |e.store| <= INT_MAX) ==>
      r.Ok? && Valid(r.value) && Elements(r.value) == Elements(e) + [value]
    ensures Valid(e) && r.Ok? ==> |r.value.store| == if e.size < |e.store| then |e.store| else 2 * |e.store|
    ensures Valid(e) && e.size == |e.store| && 2 * |e.store| > INT_MAX ==>
      r == Raise(NegativeArraySize(2 * |e.store| - TWO_32))
  {
    var s := e.size;
    if s < |e.store| then
      if 0 <= s && s < |e.tags| then Ok(AppendArray(e.store[s := value], e.tags[s := true], ToInt32(s + 1)))
      else Raise(IndexOutOfBounds(s))
    else
      var newCapacity := DoubledLength(|e.store|);
      if newCapacity < 0 then Raise(NegativeArraySize(newCapacity))
      else
        var store := CopyOf(e.store, newCapacity, 0);
        var tags := CopyOf(e.tags, newCapacity, false);
        if s < newCapacity then Ok(AppendArray(store[s := value], tags[s := true], ToInt32(s + 1)))
        else Raise(IndexOutOfBounds(s))
  }

  /** `currentStore.length * 2` in Java `int` arithmetic. */
  function DoubledLength(n: nat): (r: int)
    ensures 2 * n <= INT_MAX ==> r == 2 * n
    ensures INT_MAX < 2 * n <= 2 * INT_MAX ==> r == 2 * n - TWO_32 && r < 0
  {
    ToInt32(n * 2)
  }

  /** `at`: the element at `i` once it is below the size and tagged, NIL otherwise. */
  function At(e: AppendArray, i: int): Result<int> {
    if i < e.size then
      if !(0 <= i < |e.tags|) then Raise(IndexOutOfBounds(i))
      else if !e.tags[i] then Ok(NIL)
      else if i < |e.store| then Ok(e.store[i])
      else Raise(IndexOutOfBounds(i))
    else Ok(NIL)
  }

  /** `set`: overwrites an element below the size; at or past the size it raises an Error
      (growing there is not implemented). */
  function Set(e: AppendArray, i: int, value: int): (r: Result<AppendArray>)
    ensures Valid(e) && 0 <= i < e.size ==> r.Ok? && Valid(r.value) && Elements(r.value) == Elements(e)[i := value]
    ensures i >= e.size ==> r == Raise(Error)
  {
    if i < e.size then
      if 0 <= i < |e.store| then Ok(e.(store := e.store[i := value])) else Raise(IndexOutOfBounds(i))
    else Raise(Error)
  }

  /** `pop`: the last element, with its slot reset to NIL and untagged. */
  function Pop(e: AppendArray): (r: Result<(int, AppendArray)>)
    ensures Valid(e) && e.size > 0 ==>
      r.Ok? && r.value.0 == Elements(e)[e.size - 1] && Valid(r.value.1)
      && Elements(r.value.1) == Elements(e)[..e.size - 1] && |r.value.1.store| == |e.store|
    ensures e.size <= 0 ==> r.Raise?
  {
    var s := e.size - 1;
    if 0 <= s < |e.store| && s < |e.tags| then Ok((e.store[s], AppendArray(e.store[s := NIL], e.tags[s := false], s)))
    else Raise(IndexOutOfBounds(s))
  }

  /** `at` reads exactly the elements: the element below the size, NIL at or past it, and a
      negative index fails. */
  lemma AtReadsElements(e: AppendArray, i: int)
    requires Valid(e)
    ensures 0 <= i < e.size ==> At(e, i) == Ok(Elements(e)[i])
    ensures i >= e.size ==> At(e, i) == Ok(NIL)
    ensures i < 0 ==> At(e, i).Raise?
  {
  }

  /** Popping right after an append gives back the value and the earlier elements. */
  lemma PopUndoesAppend(e: AppendArray, value: int)
    requires Valid(e) && Append(e, value).Ok?
    ensures var r := Pop(Append(e, value).value);
      r.Ok? && r.value.0 == value && Valid(r.value.1) && Elements(r.value.1) == Elements(e)
  {
    var a := Append(e, value).value;
    assert Elements(a)[..a.size - 1] == Elements(e);
  }

  /** Appending never loses an element: the elements after an append start with the
      elements before it, whether the store grew or not. */
  lemma AppendKeepsPrefix(e: AppendArray, value: int, i: int)
    requires Valid(e) && Append(e, value).Ok? && 0 <= i < e.size
    ensures At(Append(e, value).value, i) == At(e, i)
    ensures At(Append(e, value).value, e.size) == Ok(value)
  {
    var a := Append(e, value).value;
    AtReadsElements(e, i);
    AtReadsElements(a, i);
    AtReadsElements(a, e.size);
    assert Elements(a)[i] == (Elements(e) + [value])[i];
  }
}
