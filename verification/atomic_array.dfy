/** The fixed-length array of references that holds a concurrent hash's buckets. Every access
    checks its index first and throws IndexOutOfBoundsException outside the array. Volatile and
    ordered accesses differ only in memory ordering, which one thread does not see. */
module AtomicArrays {
  import opened Values

  datatype AtomicArray<E> = AtomicArray(slots: seq<Option<E>>)

  /** `new AtomicReferenceArray(length)`: every slot null; a negative length is refused by the
      array allocation. */
  function New<E>(length: int): (r: Result<AtomicArray<E>>)
    ensures r.Ok? <==> length >= 0
    ensures r.Raise? ==> r.exception == NegativeArraySize(length)
    ensures r.Ok? ==> |r.value.slots| == length && forall i :: 0 <= i < length ==> r.value.slots[i].None?
  {
    if length < 0 then Raise(NegativeArraySize(length)) else Ok(AtomicArray(Repeat(None, length)))
  }

  function Length<E>(a: AtomicArray<E>): nat {
    |a.slots|
  }

  /** `checkedByteOffset`: the index is inside the array. */
  function CheckIndex<E>(a: AtomicArray<E>, i: int): (r: Result<nat>)
    ensures r.Ok? <==> 0 <= i < Length(a)
    ensures r.Ok? ==> r.value == i
    ensures r.Raise? ==> r.exception == IndexOutOfBounds(i)
  {
    if i < 0 || i >= |a.slots| then Raise(IndexOutOfBounds(i)) else Ok(i)
  }

  function Get<E>(a: AtomicArray<E>, i: int): (r: Result<Option<E>>)
    ensures r.Ok? <==> 0 <= i < Length(a)
    ensures r.Raise? ==> r.exception == IndexOutOfBounds(i)
  {
    var k :- CheckIndex(a, i);
    Ok(a.slots[k])
  }

  function Set<E>(a: AtomicArray<E>, i: int, v: Option<E>): (r: Result<AtomicArray<E>>)
    ensures r.Ok? <==> 0 <= i < Length(a)
    ensures r.Raise? ==> r.exception == IndexOutOfBounds(i)
    ensures r.Ok? ==> Length(r.value) == Length(a)
  {
    var k :- CheckIndex(a, i);
    Ok(AtomicArray(a.slots[k := v]))
  }

  /** `lazySet`: the same write as `set`, with weaker ordering. */
  function LazySet<E>(a: AtomicArray<E>, i: int, v: Option<E>): (r: Result<AtomicArray<E>>)
    ensures r.Ok? <==> 0 <= i < Length(a)
    ensures r.Raise? ==> r.exception == IndexOutOfBounds(i)
    ensures r.Ok? ==> r.value.slots == a.slots[i := v]
    ensures r == Set(a, i, v)
  {
    Set(a, i, v)
  }

  /** `getAndSet`: the previous reference, and the write. */
  function GetAndSet<E>(a: AtomicArray<E>, i: int, v: Option<E>): (r: Result<(Option<E>, AtomicArray<E>)>)
    ensures r.Ok? <==> 0 <= i < Length(a)
    ensures r.Ok? ==> Ok(r.value.0) == Get(a, i) && Ok(r.value.1) == Set(a, i, v)
  {
    var k :- CheckIndex(a, i);
    Ok((a.slots[k], AtomicArray(a.slots[k := v])))
  }

  /** `compareAndSet`: writes, and answers true, exactly when the slot holds the expected
      reference. */
  function CompareAndSet<E(==)>(a: AtomicArray<E>, i: int, expected: Option<E>, update: Option<E>): (r: Result<(bool, AtomicArray<E>)>)
    ensures r.Ok? <==> 0 <= i < Length(a)
    ensures r.Ok? ==> (r.value.0 <==> Get(a, i) == Ok(expected))
    ensures r.Ok? ==> Ok(r.value.1) == if r.value.0 then Set(a, i, update) else Ok(a)
  {
    var k :- CheckIndex(a, i);
    if a.slots[k] == expected then Ok((true, AtomicArray(a.slots[k := update]))) else Ok((false, a))
  }

  /** Reading after a write: the written slot gives the new reference, every other slot what
      it held, and the length stays. */
  lemma GetAfterSet<E>(a: AtomicArray<E>, i: int, j: int, v: Option<E>)
    requires 0 <= i < Length(a)
    ensures Set(a, i, v).Ok?
    ensures Get(Set(a, i, v).value, j) == if j == i then Ok(v) else Get(a, j)
  {
  }

  /** A fresh array reads null everywhere inside it and fails everywhere outside. */
  lemma GetFromNew<E>(length: nat, i: int)
    ensures New<E>(length).Ok?
    ensures Get(New<E>(length).value, i) == if 0 <= i < length then Ok(None) else Raise(IndexOutOfBounds(i))
  {
  }
}
