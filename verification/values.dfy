/** Values, errors and the failure-compatible wrappers shared by every module.

    A Ruby value as the storage strategies see it: a boxed Integer (Java int), a boxed Long,
    a boxed Double, Ruby nil, Java null (the filler of an Object[] store), or any other object,
    known only by its identity. */
module Values {

  const INT_MIN: int := -0x8000_0000
  const INT_MAX: int := 0x7FFF_FFFF
  const TWO_32: int := 0x1_0000_0000

  datatype Value =
    | Null
    | Nil
    | Integer(i: int)
    | Long(l: int)
    | Double(d: real)
    | Obj(id: nat)

  /** The Java exceptions and Ruby errors the modelled code raises. */
  datatype Exception =
    | UnsupportedOperation(message: string)
    | ClassCast
    | NullPointer
    | IndexOutOfBounds(index: int)
    | NegativeArraySize(length: int)
    | IndexTooSmall(index: int, size: int)
    | NegativeLength(length: int)
    | RangeError
    | AssertionFailure
    | StackOverflow
    | Error
    /** Not a Java exception: a walk along links met an identity outside the heap, which a Java
        reference cannot do, or did not end within the bound it was given, which on a cyclic
        chain means the Java loop never ends. */
    | Stuck

  datatype Option<+T> = None | Some(value: T)

  datatype Result<+T> = Ok(value: T) | Raise(exception: Exception) {
    predicate IsFailure() {
      Raise?
    }

    function PropagateFailure<U>(): Result<U>
      requires Raise?
    {
      Raise(exception)
    }

    function Extract(): T
      requires Ok?
    {
      value
    }
  }

  /** A Java `assert`: passes, or raises an AssertionError (assertions are enabled). */
  function Check(condition: bool): (r: Result<()>)
    ensures r.Ok? <==> condition
  {
    if condition then Ok(()) else Raise(AssertionFailure)
  }

  /** The narrowing cast `(int) x` of a Java long: keeps the low 32 bits, read as signed. */
  function ToInt32(x: int): (r: int)
    ensures INT_MIN <= r <= INT_MAX
    ensures (r - x) % TWO_32 == 0
  {
    var low := x % TWO_32;
    if low <= INT_MAX then low else low - TWO_32
  }

  lemma ToInt32InRange(x: int)
    requires INT_MIN <= x <= INT_MAX
    ensures ToInt32(x) == x
  {
  }

  function Max(a: int, b: int): (r: int)
    ensures r >= a && r >= b && (r == a || r == b)
  {
    if a >= b then a else b
  }

  /** `n` copies of `v`. */
  function Repeat<T>(v: T, n: nat): (r: seq<T>)
    ensures |r| == n
    ensures forall i :: 0 <= i < n ==> r[i] == v
  {
    if n == 0 then [] else Repeat(v, n - 1) + [v]
  }
}
