/** Element and slice assignment on a concurrent Ruby array: `a[i] = v`, `a[start, length] = r`
    and `a[range] = r`. The array is modelled by its elements (its size is their number); an
    element write past the end extends the array with nil, as Ruby's element assignment does. */
module IndexSet {
  import opened Values

  /** The index argument of `[]=`. */
  datatype IndexArg =
    | IntIndex(i: int)
    | IntRangeIndex(begin: int, end: int, excludeEnd: bool)
    | OtherRangeIndex   // a range whose bounds are not Java ints
    | OtherIndex        // neither an integer nor a range

  /** The optional middle argument of `[]=`. */
  datatype LengthArg = NotProvided | IntLength(n: int) | OtherLength

  /** The array on the right of a slice assignment: another array with its elements, or the
      assigned array itself. */
  datatype Replacement = Separate(elements: seq<Value>) | Aliased

  /** The assigned value: any object (an array among them, by reference), or an array whose
      elements the slice forms splice in. */
  datatype Rhs = Scalar(v: Value) | ArrayValue(arrayRef: Value, replacement: Replacement)

  /** What a call does: the new elements, the primitive's FAILURE (the caller falls back to
      the general implementation and the array is untouched), or a Ruby exception. */
  datatype Outcome = Assigned(elements: seq<Value>) | Failure | Raised(exception: Exception)

  /** Which same-length loop a slice assignment runs: the one the code has, which reads the
      replacement while writing the array and writes nothing for an empty replacement, or the
      corrected one, which behaves as Ruby's slice assignment. */
  datatype Variant = AsWritten | Corrected

  /** Ruby's index normalization: a negative index counts from the end. */
  function NormalizeIndex(size: int, index: int): int {
    if index < 0 then index + size else index
  }

  function Min(a: int, b: int): int {
    if a <= b then a else b
  }

  function ReplacementElements(xs: seq<Value>, r: Replacement): seq<Value> {
    if r.Aliased? then xs else r.elements
  }

  /** Reading an element: nil past the end. */
  function Read(xs: seq<Value>, i: int): Value {
    if 0 <= i < |xs| then xs[i] else Nil
  }

  /** Writing an element at a non-negative index, extending with nil when past the end. */
  function Write(xs: seq<Value>, i: nat, v: Value): (r: seq<Value>)
    ensures |r| == Max(|xs|, i + 1)
    ensures r[i] == v
    ensures forall j :: 0 <= j < |xs| && j != i ==> r[j] == xs[j]
    ensures forall j :: |xs| <= j < i ==> r[j] == Nil
  {
    if i < |xs| then xs[i := v] else xs + Repeat(Nil, i - |xs|) + [v]
  }

  /** Setting the size field: elements past the new size are no longer part of the array. */
  function Resize(xs: seq<Value>, n: nat): (r: seq<Value>)
    ensures |r| == n
    ensures forall j :: 0 <= j < Min(n, |xs|) ==> r[j] == xs[j]
  {
    if n <= |xs| then xs[..n] else xs + Repeat(Nil, n - |xs|)
  }

  /** The loop `for i in [lo, hi): write(array, start + i, read(src, i))` over a source that
      the writes do not affect. */
  function CopyRange(xs: seq<Value>, start: nat, src: seq<Value>, lo: nat, hi: nat): seq<Value>
    decreases hi - lo
  {
    if lo >= hi then xs else CopyRange(Write(xs, start + lo, Read(src, lo)), start, src, lo + 1, hi)
  }

  /** The same loop when the source is the array being written, read afresh on every step. */
  function CopyRangeLive(xs: seq<Value>, start: nat, lo: nat, hi: nat): (r: seq<Value>)
    ensures |r| == if lo < hi then Max(|xs|, start + hi) else |xs|
    ensures forall j :: 0 <= j < Min(start + lo, |xs|) ==> r[j] == xs[j]
    decreases hi - lo
  {
    if lo >= hi then xs else CopyRangeLive(Write(xs, start + lo, Read(xs, lo)), start, lo + 1, hi)
  }

  /** The loop `for i in [lo, hi): write(array, i, nil)`. */
  function FillNil(xs: seq<Value>, lo: nat, hi: nat): seq<Value>
    decreases hi - lo
  {
    if lo >= hi then xs else FillNil(Write(xs, lo, Nil), lo + 1, hi)
  }

  /** Reference for `CopyRange`: positions `start+lo .. start+hi-1` replaced by the source's
      elements `lo .. hi-1`, the gap before them (if any) filled with nil. */
  function Spliced(xs: seq<Value>, start: nat, src: seq<Value>, lo: nat, hi: nat): seq<Value> {
    var len := if lo < hi then Max(|xs|, start + hi) else |xs|;
    seq(len, j requires 0 <= j < len =>
      if start + lo <= j < start + hi then Read(src, j - start) else if j < |xs| then xs[j] else Nil)
  }

  /** Ruby's `a[start, length] = rep` for a non-negative start and length: the elements before
      `start`, nil padding up to `start`, `rep`, then the elements after `start + length`. */
  function RubySplice(xs: seq<Value>, start: nat, length: nat, rep: seq<Value>): (r: seq<Value>)
    ensures |r| == start + |rep| + Max(0, |xs| - (start + length))
    ensures forall j :: 0 <= j < Min(start, |xs|) ==> r[j] == xs[j]
    ensures forall j :: 0 <= j < |rep| ==> r[start + j] == rep[j]
  {
    if start <= |xs| then xs[..start] + rep + xs[Min(start + length, |xs|)..]
    else xs + Repeat(Nil, start - |xs|) + rep
  }

  /** Element `i` of the sequence that repeats the first `period` elements of `xs` (nil for
      those past its end): element `i % period` of `xs`. */
  function Cycle(xs: seq<Value>, period: nat, i: nat): Value
    requires period > 0
    decreases i
  {
    if i < period then Read(xs, i) else Cycle(xs, period, i - period)
  }

  /** What the same-length loop as written leaves when a non-empty array is assigned into itself
      at `start > 0`: every write lands `start` places after the element it reads, so the
      elements from `start` on repeat the first `start` elements over and over; before `start`
      the array is as it was, padded with nil up to `start`. */
  function SelfOverlap(xs: seq<Value>, start: nat): (r: seq<Value>)
    requires start > 0
    ensures |r| == start + |xs|
  {
    seq(start + |xs|, j requires 0 <= j < start + |xs| => if j < start then Read(xs, j) else Cycle(xs, start, j - start))
  }

  /** The inputs on which the same-length loop as written can depart from Ruby's splice: an
      empty replacement past the end, which it does not pad, and the array assigned into itself
      after index 0, which it reads while it writes. */
  predicate AsWrittenDeparts(xs: seq<Value>, start: nat, length: int, r: Replacement) {
    length == |ReplacementElements(xs, r)|
    && ((length == 0 && |xs| < start) || (length > 0 && r.Aliased? && start > 0))
  }

  lemma {:induction false} CopyRangeIsSpliced(xs: seq<Value>, start: nat, src: seq<Value>, lo: nat, hi: nat)
    requires lo <= hi
    ensures CopyRange(xs, start, src, lo, hi) == Spliced(xs, start, src, lo, hi)
    decreases hi - lo
  {
    if lo < hi {
      var ys := Write(xs, start + lo, Read(src, lo));
      CopyRangeIsSpliced(ys, start, src, lo + 1, hi);
      var a := Spliced(ys, start, src, lo + 1, hi);
      var b := Spliced(xs, start, src, lo, hi);
      assert |a| == |b|;
      forall j | 0 <= j < |a|
        ensures a[j] == b[j]
      {
      }
    }
  }

  lemma {:induction false} FillNilPads(xs: seq<Value>, lo: nat, hi: nat)
    requires lo == |xs| <= hi
    ensures FillNil(xs, lo, hi) == xs + Repeat(Nil, hi - lo)
    decreases hi - lo
  {
    if lo < hi {
      var ys := Write(xs, lo, Nil);
      assert ys == xs + [Nil];
      FillNilPads(ys, lo + 1, hi);
      assert xs + [Nil] + Repeat(Nil, hi - (lo + 1)) == xs + Repeat(Nil, hi - lo);
    }
  }

  // ---------------------------------------------------------------------------------------
  // The specializations
  // ---------------------------------------------------------------------------------------

  /** `a[index] = value`: a normalized index below zero raises index-too-small; otherwise the
      element is written, the array growing with nil up to it. */
  function SetElement(xs: seq<Value>, index: int, v: Value): (o: Outcome)
    ensures o.Raised? <==> NormalizeIndex(|xs|, index) < 0
    ensures o.Raised? ==> o.exception == IndexTooSmall(index, |xs|)
    ensures o.Assigned? ==> var i := NormalizeIndex(|xs|, index);
      |o.elements| == Max(|xs|, i + 1) && o.elements[i] == v
      && forall j :: 0 <= j < |o.elements| && j != i ==> o.elements[j] == Read(xs, j)
    ensures !o.Failure?
  {
    var i := NormalizeIndex(|xs|, index);
    if i < 0 then Raised(IndexTooSmall(index, |xs|)) else Assigned(Write(xs, i, v))
  }

  /** `a[start, length] = r` with `length == r.size`, as written: the replacement's elements
      are read while they are written, so an array assigned into itself reads elements the
      loop has already overwritten, and an empty replacement writes nothing. */
  function SetSameLengthAsWritten(xs: seq<Value>, rawStart: int, length: nat, r: Replacement): (o: Outcome)
    requires length == |ReplacementElements(xs, r)|
    ensures o.Raised? <==> NormalizeIndex(|xs|, rawStart) < 0
    ensures o.Raised? ==> o.exception == IndexTooSmall(rawStart, |xs|)
    ensures o.Assigned? ==> var start := NormalizeIndex(|xs|, rawStart);
      |o.elements| == (if length == 0 then |xs| else Max(|xs|, start + length))
      && forall j :: 0 <= j < Min(start, |xs|) ==> o.elements[j] == xs[j]
    ensures !o.Failure?
  {
    var start := NormalizeIndex(|xs|, rawStart);
    if start < 0 then Raised(IndexTooSmall(rawStart, |xs|))
    else if r.Aliased? then Assigned(CopyRangeLive(xs, start, 0, length))
    else
      CopyRangeAt(xs, start, r.elements, length);
      Assigned(CopyRange(xs, start, r.elements, 0, length))
  }

  /** `a[start, length] = r` with `length == r.size`, corrected: the replacement is read from a
      copy taken before the writes, and an empty assignment past the end pads with nil as the
      general case does. */
  function SetSameLength(xs: seq<Value>, rawStart: int, length: nat, r: Replacement): (o: Outcome)
    requires length == |ReplacementElements(xs, r)|
    ensures o.Raised? <==> NormalizeIndex(|xs|, rawStart) < 0
    ensures o.Raised? ==> o.exception == IndexTooSmall(rawStart, |xs|)
    ensures o.Assigned? ==> var start := NormalizeIndex(|xs|, rawStart);
      |o.elements| == Max(|xs|, start + length)
      && forall j :: 0 <= j < Min(start, |xs|) ==> o.elements[j] == xs[j]
    ensures !o.Failure?
  {
    var start := NormalizeIndex(|xs|, rawStart);
    if start < 0 then Raised(IndexTooSmall(rawStart, |xs|))
    else
      var ys := CopyRange(xs, start, ReplacementElements(xs, r), 0, length);
      CopyRangeAt(xs, start, ReplacementElements(xs, r), length);
      if length == 0 && |xs| < start then
        FillNilPads(ys, |xs|, start);
        Assigned(FillNil(ys, |xs|, start))
      else Assigned(ys)
  }

  /** The same-length specialization the variant selects. */
  function SetSameLengthFor(v: Variant, xs: seq<Value>, rawStart: int, length: nat, r: Replacement): Outcome
    requires length == |ReplacementElements(xs, r)|
  {
    if v.AsWritten? then SetSameLengthAsWritten(xs, rawStart, length, r) else SetSameLength(xs, rawStart, length, r)
  }

  /** `a[start, length] = r` with an int start and length and an array `r`: the two
      specializations, chosen by whether the length equals the replacement's size. A negative
      length raises negative-length and a normalized start below zero raises index-too-small;
      every other call assigns. */
  function SliceAssign(v: Variant, xs: seq<Value>, rawStart: int, length: int, r: Replacement): (o: Outcome)
    ensures o.Raised? <==> length < 0 || NormalizeIndex(|xs|, rawStart) < 0
    ensures o.Raised? ==> o.exception == if length < 0 then NegativeLength(length) else IndexTooSmall(rawStart, |xs|)
    ensures !o.Failure?
    decreases if r.Aliased? then 1 else 0, 1
  {
    if length == |ReplacementElements(xs, r)| then SetSameLengthFor(v, xs, rawStart, length, r)
    else SetOtherArray(v, xs, rawStart, length, r)
  }

  /** `a[start, length] = r` with `length != r.size`: the length is checked, then the index;
      an array assigned into itself is replaced by a copy and the assignment starts over;
      otherwise the replacement is written in. */
  function SetOtherArray(v: Variant, xs: seq<Value>, rawStart: int, length: int, r: Replacement): (o: Outcome)
    ensures o.Raised? <==> length < 0 || NormalizeIndex(|xs|, rawStart) < 0
    ensures o.Raised? ==> o.exception == if length < 0 then NegativeLength(length) else IndexTooSmall(rawStart, |xs|)
    ensures !o.Failure?
    decreases if r.Aliased? then 1 else 0, 0
  {
    if length < 0 then Raised(NegativeLength(length))
    else
      var start := NormalizeIndex(|xs|, rawStart);
      if start < 0 then Raised(IndexTooSmall(rawStart, |xs|))
      else if r.Aliased? then SliceAssign(v, xs, start, length, Separate(xs))
      else Assigned(WriteSeparate(xs, start, length, r.elements))
  }

  /** The writes of the general case once the arguments are checked: the tail after
      `start + length` is saved, `rep` written at `start`, the tail written after it (or, with
      no tail and an empty replacement, nil written up to `start`), and the size set. */
  function WriteSeparate(xs: seq<Value>, start: nat, length: nat, rep: seq<Value>): seq<Value> {
    var end := start + length;
    var endOfReplacement := start + |rep|;
    var tailSize := |xs| - end;
    var needsTail := tailSize > 0;
    var tail := if needsTail then xs[end..] else [];
    var ys := CopyRange(xs, start, rep, 0, |rep|);
    var zs :=
      if needsTail then CopyRange(ys, endOfReplacement, tail, 0, tailSize)
      else if |rep| == 0 && |xs| < start then FillNil(ys, |xs|, start)
      else ys;
    Resize(zs, if needsTail then endOfReplacement + tailSize else endOfReplacement)
  }

  /** `a[begin..end] = value` on an int range: a normalized begin below zero raises RangeError;
      the length runs to the (inclusive) normalized end, never below zero; the assignment then
      goes through the start/length form, which refuses a value that is not an array. */
  function SetRange(v: Variant, xs: seq<Value>, begin: int, endValue: int, excludeEnd: bool, rhs: Rhs): (o: Outcome)
    ensures o.Raised? <==> NormalizeIndex(|xs|, begin) < 0
    ensures o.Raised? ==> o.exception == RangeError
    ensures o.Failure? <==> NormalizeIndex(|xs|, begin) >= 0 && rhs.Scalar?
    decreases 1, 0
  {
    var start := NormalizeIndex(|xs|, begin);
    if start < 0 then Raised(RangeError)
    else Execute(v, xs, IntIndex(start), IntLength(RangeLength(v, |xs|, start, endValue, excludeEnd)), rhs)
  }

  /** `x` as the code as written computes it, in Java int arithmetic; the corrected form keeps
      it exact. */
  function IntArith(v: Variant, x: int): (r: int)
    ensures v.Corrected? ==> r == x
    ensures v.AsWritten? ==> INT_MIN <= r <= INT_MAX && (r - x) % TWO_32 == 0
  {
    if v.AsWritten? then ToInt32(x) else x
  }

  /** The length `a[begin..end] = value` assigns from a valid `start`: up to the normalized
      end (less one when excluded), clamped to -1, and never below zero. The code as written
      computes `end - 1` and `inclusiveEnd - start + 1` in Java int arithmetic. */
  function RangeLength(v: Variant, size: nat, start: int, endValue: int, excludeEnd: bool): (n: nat)
    ensures v.Corrected? && start >= 0 ==>
      n == Max(0, NormalizeIndex(size, endValue) - (if excludeEnd then 1 else 0) - start + 1)
  {
    var end := NormalizeIndex(size, endValue);
    var inclusiveEnd := if excludeEnd then IntArith(v, end - 1) else end;
    var inclusiveEnd' := if inclusiveEnd < 0 then -1 else inclusiveEnd;
    var length := IntArith(v, inclusiveEnd' - start + 1);
    if length > -1 then length else 0
  }

  /** The arguments of the range form as Java has them: int bounds on an array of int size. */
  predicate JavaRange(size: nat, begin: int, endValue: int) {
    size <= INT_MAX && INT_MIN <= begin <= INT_MAX && INT_MIN <= endValue <= INT_MAX
  }

  /** Where the length as written departs from the exact one: a range from 0 whose inclusive
      end is INT_MAX, or an excluded end of INT_MIN on an empty array with a positive start. */
  predicate RangeLengthWraps(size: nat, start: int, endValue: int, excludeEnd: bool) {
    var last := NormalizeIndex(size, endValue) - (if excludeEnd then 1 else 0);
    (start == 0 && last == INT_MAX) || (start > 0 && excludeEnd && size == 0 && endValue == INT_MIN)
  }

  /** The argument shapes no specialization handles: the primitive answers FAILURE for them. */
  predicate FallsBack(size: nat, index: IndexArg, length: LengthArg, rhs: Rhs) {
    match length
    case NotProvided =>
      index.OtherIndex? || index.OtherRangeIndex?
      || (index.IntRangeIndex? && rhs.Scalar? && NormalizeIndex(size, index.begin) >= 0)
    case IntLength(_) => !index.IntIndex? || rhs.Scalar?
    case OtherLength => true
  }

  /** `executeSet`: the specialization the arguments select. It falls back exactly on the
      shapes no specialization handles, and raises only the three errors of the
      specializations. */
  function Execute(v: Variant, xs: seq<Value>, index: IndexArg, length: LengthArg, rhs: Rhs): (o: Outcome)
    ensures o.Failure? <==> FallsBack(|xs|, index, length, rhs)
    ensures o.Raised? ==> o.exception.IndexTooSmall? || o.exception.NegativeLength? || o.exception == RangeError
    decreases if index.IntRangeIndex? then 1 else 0, 1
  {
    match (index, length)
    case (IntIndex(i), NotProvided) =>
      SetElement(xs, i, if rhs.Scalar? then rhs.v else rhs.arrayRef)
    case (IntRangeIndex(b, e, x), NotProvided) => SetRange(v, xs, b, e, x, rhs)
    case (_, NotProvided) => Failure
    case (IntIndex(s), IntLength(n)) =>
      if rhs.Scalar? then Failure else SliceAssign(v, xs, s, n, rhs.replacement)
    case (_, _) => Failure
  }

  // ---------------------------------------------------------------------------------------
  // Properties
  // ---------------------------------------------------------------------------------------

  /** `a[i] = v` is Ruby's one-element splice at the normalized index. */
  lemma SetElementIsSplice(xs: seq<Value>, index: int, v: Value)
    ensures var i := NormalizeIndex(|xs|, index);
      SetElement(xs, index, v) == if i < 0 then Raised(IndexTooSmall(index, |xs|)) else Assigned(RubySplice(xs, i, 1, [v]))
  {
    var i := NormalizeIndex(|xs|, index);
    if i >= 0 {
      var a := Write(xs, i, v);
      var b := RubySplice(xs, i, 1, [v]);
      assert |a| == |b|;
      forall j | 0 <= j < |a|
        ensures a[j] == b[j]
      {
      }
    }
  }

  /** `CopyRange` from the start, element by element. */
  lemma CopyRangeAt(xs: seq<Value>, start: nat, src: seq<Value>, n: nat)
    ensures var r := CopyRange(xs, start, src, 0, n);
      |r| == (if n > 0 then Max(|xs|, start + n) else |xs|)
      && forall j :: 0 <= j < |r| ==>
           r[j] == if start <= j < start + n then Read(src, j - start) else if j < |xs| then xs[j] else Nil
  {
    CopyRangeIsSpliced(xs, start, src, 0, n);
  }

  lemma CopyRangeLength(xs: seq<Value>, start: nat, src: seq<Value>, n: nat)
    ensures |CopyRange(xs, start, src, 0, n)| == (if n > 0 then Max(|xs|, start + n) else |xs|)
  {
    CopyRangeAt(xs, start, src, n);
  }

  /** One element of `CopyRange` from the start. */
  lemma CopyRangeAtIndex(xs: seq<Value>, start: nat, src: seq<Value>, n: nat, j: nat)
    requires j < |CopyRange(xs, start, src, 0, n)|
    ensures CopyRange(xs, start, src, 0, n)[j] ==
      if start <= j < start + n then Read(src, j - start) else if j < |xs| then xs[j] else Nil
  {
    CopyRangeAt(xs, start, src, n);
  }

  /** The general case when elements remain after `start + length`. */
  lemma SpliceWithTail(xs: seq<Value>, start: nat, length: nat, rep: seq<Value>)
    requires start + length < |xs|
    ensures var ys := CopyRange(xs, start, rep, 0, |rep|);
      var zs := CopyRange(ys, start + |rep|, xs[start + length..], 0, |xs| - (start + length));
      Resize(zs, start + |rep| + (|xs| - (start + length))) == RubySplice(xs, start, length, rep)
  {
    var end := start + length;
    var endOfReplacement := start + |rep|;
    var tailSize := |xs| - end;
    var ys := CopyRange(xs, start, rep, 0, |rep|);
    var zs := CopyRange(ys, endOfReplacement, xs[end..], 0, tailSize);
    CopyRangeLength(xs, start, rep, |rep|);
    CopyRangeLength(ys, endOfReplacement, xs[end..], tailSize);
    var want := xs[..start] + rep + xs[end..];
    assert RubySplice(xs, start, length, rep) == want;
    forall j | 0 <= j < |want|
      ensures j < |zs| && zs[j] == want[j]
    {
      SpliceWithTailAt(xs, start, length, rep, j);
    }
    CopyRangeLength(ys, endOfReplacement, xs[end..], tailSize);
    ResizeToPrefix(zs, want);
  }

  /** Resizing to the length of a sequence that `zs` starts with gives that sequence. */
  lemma ResizeToPrefix(zs: seq<Value>, want: seq<Value>)
    requires |want| <= |zs| && forall j :: 0 <= j < |want| ==> zs[j] == want[j]
    ensures Resize(zs, |want|) == want
  {
    assert Resize(zs, |want|) == zs[..|want|];
    assert zs[..|want|] == want;
  }

  /** One element of the general case with a tail: the prefix, the replacement, then the tail. */
  lemma SpliceWithTailAt(xs: seq<Value>, start: nat, length: nat, rep: seq<Value>, j: nat)
    requires start + length < |xs| && j < start + |rep| + (|xs| - (start + length))
    ensures var ys := CopyRange(xs, start, rep, 0, |rep|);
      var zs := CopyRange(ys, start + |rep|, xs[start + length..], 0, |xs| - (start + length));
      j < |zs| && zs[j] == (xs[..start] + rep + xs[start + length..])[j]
  {
    var end := start + length;
    var endOfReplacement := start + |rep|;
    var tailSize := |xs| - end;
    var tail := xs[end..];
    var ys := CopyRange(xs, start, rep, 0, |rep|);
    CopyRangeLength(xs, start, rep, |rep|);
    var zs := CopyRange(ys, endOfReplacement, tail, 0, tailSize);
    CopyRangeLength(ys, endOfReplacement, tail, tailSize);
    var want := xs[..start] + rep + tail;
    CopyRangeAtIndex(ys, endOfReplacement, tail, tailSize, j);
    if j < endOfReplacement {
      CopyRangeAtIndex(xs, start, rep, |rep|, j);
      if j < start {
        assert want[j] == xs[j];
      } else {
        assert want[j] == rep[j - start];
      }
    } else {
      assert want[j] == tail[j - endOfReplacement];
    }
  }

  /** The general case when nothing remains after `start + length`. */
  lemma SpliceWithoutTail(xs: seq<Value>, start: nat, length: nat, rep: seq<Value>)
    requires |xs| <= start + length
    requires !(|rep| == 0 && |xs| < start)
    ensures Resize(CopyRange(xs, start, rep, 0, |rep|), start + |rep|) == RubySplice(xs, start, length, rep)
  {
    var ys := CopyRange(xs, start, rep, 0, |rep|);
    CopyRangeAt(xs, start, rep, |rep|);
    var got := Resize(ys, start + |rep|);
    var want := RubySplice(xs, start, length, rep);
    assert |got| == |want|;
    forall j | 0 <= j < |got|
      ensures got[j] == want[j]
    {
      if j < start && start <= |xs| {
      } else if j < start {
        assert want == xs + Repeat(Nil, start - |xs|) + rep;
        if j >= |xs| {
          assert want[j] == Repeat(Nil, start - |xs|)[j - |xs|];
        }
      } else {
        assert want[j] == rep[j - start];
      }
    }
  }

  /** The general case with an empty replacement past the end: nil padding up to `start`. */
  lemma SpliceEmptyPastEnd(xs: seq<Value>, start: nat, length: nat)
    requires |xs| < start
    ensures Resize(FillNil(CopyRange(xs, start, [], 0, 0), |xs|, start), start) == RubySplice(xs, start, length, [])
  {
    FillNilPads(xs, |xs|, start);
  }

  lemma SetOtherArrayWithTail(xs: seq<Value>, start: nat, length: nat, rep: seq<Value>)
    requires start + length < |xs|
    ensures WriteSeparate(xs, start, length, rep) == RubySplice(xs, start, length, rep)
  {
    SetOtherArrayTailSteps(xs, start, length, rep);
    SpliceWithTail(xs, start, length, rep);
  }

  /** The steps the general case takes when elements remain after `start + length`. */
  lemma SetOtherArrayTailSteps(xs: seq<Value>, start: nat, length: nat, rep: seq<Value>)
    requires start + length < |xs|
    ensures var ys := CopyRange(xs, start, rep, 0, |rep|);
      var zs := CopyRange(ys, start + |rep|, xs[start + length..], 0, |xs| - (start + length));
      WriteSeparate(xs, start, length, rep) == Resize(zs, start + |rep| + (|xs| - (start + length)))
  {
  }

  lemma SetOtherArrayPadding(xs: seq<Value>, start: nat, length: nat)
    requires |xs| < start
    ensures WriteSeparate(xs, start, length, []) == RubySplice(xs, start, length, [])
  {
    SpliceEmptyPastEnd(xs, start, length);
  }

  lemma SetOtherArrayWithoutTail(xs: seq<Value>, start: nat, length: nat, rep: seq<Value>)
    requires |xs| <= start + length
    requires !(|rep| == 0 && |xs| < start)
    ensures WriteSeparate(xs, start, length, rep) == RubySplice(xs, start, length, rep)
  {
    SpliceWithoutTail(xs, start, length, rep);
  }

  /** The general case with a separate replacement is Ruby's splice. */
  lemma SetOtherArraySeparateIsSplice(xs: seq<Value>, start: nat, length: nat, rep: seq<Value>)
    ensures WriteSeparate(xs, start, length, rep) == RubySplice(xs, start, length, rep)
  {
    if start + length < |xs| {
      SetOtherArrayWithTail(xs, start, length, rep);
    } else if |rep| == 0 && |xs| < start {
      SetOtherArrayPadding(xs, start, length);
    } else {
      SetOtherArrayWithoutTail(xs, start, length, rep);
    }
  }

  /** The corrected same-length case is Ruby's splice too. */
  lemma SetSameLengthIsSplice(xs: seq<Value>, start: nat, r: Replacement)
    ensures var rep := ReplacementElements(xs, r);
      SetSameLength(xs, start, |rep|, r) == Assigned(RubySplice(xs, start, |rep|, rep))
  {
    var rep := ReplacementElements(xs, r);
    if |rep| == 0 && |xs| < start {
      FillNilPads(xs, |xs|, start);
      assert RubySplice(xs, start, 0, rep) == xs + Repeat(Nil, start - |xs|);
    } else {
      SameLengthSplice(xs, start, rep);
    }
  }

  lemma SameLengthSplice(xs: seq<Value>, start: nat, rep: seq<Value>)
    requires !(|rep| == 0 && |xs| < start)
    ensures CopyRange(xs, start, rep, 0, |rep|) == RubySplice(xs, start, |rep|, rep)
  {
    var ys := CopyRange(xs, start, rep, 0, |rep|);
    CopyRangeAt(xs, start, rep, |rep|);
    var want := RubySplice(xs, start, |rep|, rep);
    assert |ys| == |want|;
    forall j | 0 <= j < |ys|
      ensures ys[j] == want[j]
    {
      if j < start && start <= |xs| {
      } else if j < start {
        assert want == xs + Repeat(Nil, start - |xs|) + rep;
        if j >= |xs| {
          assert want[j] == Repeat(Nil, start - |xs|)[j - |xs|];
        }
      } else if j < start + |rep| {
        assert want[j] == rep[j - start];
      } else {
        assert want == xs[..start] + rep + xs[start + |rep|..];
        assert want[j] == xs[j];
      }
    }
  }

  /** The corrected `a[start, length] = r` for any int start and length and any array `r` (the
      array itself included): a negative length raises negative-length, a normalized start below
      zero raises index-too-small, and otherwise the result is Ruby's splice of `r`'s elements
      as they were before the call. */
  lemma CorrectedSliceAssignIsSplice(xs: seq<Value>, rawStart: int, length: int, r: Replacement)
    ensures var start := NormalizeIndex(|xs|, rawStart);
      SliceAssign(Corrected, xs, rawStart, length, r) ==
        if length < 0 then Raised(NegativeLength(length))
        else if start < 0 then Raised(IndexTooSmall(rawStart, |xs|))
        else Assigned(RubySplice(xs, start, length, ReplacementElements(xs, r)))
  {
    var start := NormalizeIndex(|xs|, rawStart);
    var rep := ReplacementElements(xs, r);
    if length >= 0 && start >= 0 {
      if length == |rep| {
        SameLengthCaseIsSplice(xs, rawStart, r);
      } else {
        OtherLengthCaseIsSplice(Corrected, xs, rawStart, length, r);
      }
    }
  }

  /** `a[start, length] = r` as written, for any int start and length and any array `r`: the
      errors as in the corrected form; Ruby's splice of `r`'s elements as they were before the
      call except on the two inputs where the same-length loop departs from it; there, an
      empty replacement past the end leaves the array as it was, and the array assigned into
      itself after index 0 repeats its first `start` elements. */
  lemma SliceAssignResult(xs: seq<Value>, rawStart: int, length: int, r: Replacement)
    ensures var start := NormalizeIndex(|xs|, rawStart);
      SliceAssign(AsWritten, xs, rawStart, length, r) ==
        if length < 0 then Raised(NegativeLength(length))
        else if start < 0 then Raised(IndexTooSmall(rawStart, |xs|))
        else if !AsWrittenDeparts(xs, start, length, r) then Assigned(RubySplice(xs, start, length, ReplacementElements(xs, r)))
        else if length == 0 then Assigned(xs)
        else Assigned(SelfOverlap(xs, start))
  {
    var start := NormalizeIndex(|xs|, rawStart);
    var rep := ReplacementElements(xs, r);
    if length >= 0 && start >= 0 {
      if length != |rep| {
        OtherLengthCaseIsSplice(AsWritten, xs, rawStart, length, r);
      } else if length == 0 {
        if start <= |xs| {
          assert RubySplice(xs, start, 0, rep) == xs[..start] + xs[start..];
          assert xs[..start] + xs[start..] == xs;
        }
      } else if r.Aliased? && start > 0 {
        SelfAssignmentAsWrittenRepeats(xs, start);
      } else {
        SameLengthAsWrittenAgrees(xs, rawStart, r);
        SameLengthCaseIsSplice(xs, rawStart, r);
      }
    }
  }

  lemma SameLengthCaseIsSplice(xs: seq<Value>, rawStart: int, r: Replacement)
    requires NormalizeIndex(|xs|, rawStart) >= 0
    ensures var rep := ReplacementElements(xs, r);
      SetSameLength(xs, rawStart, |rep|, r) == Assigned(RubySplice(xs, NormalizeIndex(|xs|, rawStart), |rep|, rep))
  {
    var start := NormalizeIndex(|xs|, rawStart);
    var rep := ReplacementElements(xs, r);
    assert SetSameLength(xs, rawStart, |rep|, r) == SetSameLength(xs, start, |rep|, r);
    SetSameLengthIsSplice(xs, start, r);
  }

  /** The other-length case, which both variants share, is Ruby's splice; an array assigned
      into itself goes through the copy taken before the writes. */
  lemma OtherLengthCaseIsSplice(v: Variant, xs: seq<Value>, rawStart: int, length: nat, r: Replacement)
    requires NormalizeIndex(|xs|, rawStart) >= 0 && length != |ReplacementElements(xs, r)|
    ensures SetOtherArray(v, xs, rawStart, length, r)
      == Assigned(RubySplice(xs, NormalizeIndex(|xs|, rawStart), length, ReplacementElements(xs, r)))
  {
    var start := NormalizeIndex(|xs|, rawStart);
    var rep := ReplacementElements(xs, r);
    SetOtherArraySeparateIsSplice(xs, start, length, rep);
    if r.Aliased? {
      assert SetOtherArray(v, xs, rawStart, length, r) == SliceAssign(v, xs, start, length, Separate(xs));
      assert SliceAssign(v, xs, start, length, Separate(xs)) == SetOtherArray(v, xs, start, length, Separate(xs));
    }
  }

  /** The size after a slice assignment as written: `start + r.size`, plus what is left of the
      old elements after `start + length`; but an empty same-length replacement past the end
      keeps the old size. */
  lemma SliceAssignSize(xs: seq<Value>, start: nat, length: nat, r: Replacement)
    ensures var o := SliceAssign(AsWritten, xs, start, length, r);
      var n := |ReplacementElements(xs, r)|;
      o.Assigned?
      && |o.elements| == if length == n == 0 && |xs| < start then |xs| else start + n + Max(0, |xs| - (start + length))
  {
    SliceAssignResult(xs, start, length, r);
  }

  /** The example of the source's own comment: `a = [1,2,3]; a[5,1] = []` leaves
      `[1,2,3,nil,nil]`. */
  lemma EmptyReplacementPastTheEndPads()
    ensures Execute(AsWritten, [Integer(1), Integer(2), Integer(3)], IntIndex(5), IntLength(1), ArrayValue(Obj(0), Separate([])))
      == Assigned([Integer(1), Integer(2), Integer(3), Nil, Nil])
  {
    SliceAssignResult([Integer(1), Integer(2), Integer(3)], 5, 1, Separate([]));
  }

  /** An array assigned into its own slice behaves as if a copy were assigned, on the
      other-length path (which takes the copy), at index 0, for the empty array, and always in
      the corrected form. */
  lemma SelfAssignmentIsCopy(v: Variant, xs: seq<Value>, rawStart: int, length: int)
    ensures v.Corrected? || length != |xs| || |xs| == 0 || NormalizeIndex(|xs|, rawStart) <= 0 ==>
      SliceAssign(v, xs, rawStart, length, Aliased) == SliceAssign(v, xs, rawStart, length, Separate(xs))
  {
    if v.Corrected? {
      CorrectedSliceAssignIsSplice(xs, rawStart, length, Aliased);
      CorrectedSliceAssignIsSplice(xs, rawStart, length, Separate(xs));
    } else {
      SliceAssignResult(xs, rawStart, length, Aliased);
      SliceAssignResult(xs, rawStart, length, Separate(xs));
    }
  }

  /** The range form with an array value is the start/length form with the length running to
      the inclusive end; a value that is not an array makes it fail. The corrected form is
      then Ruby's splice; the form as written is too, away from the same-length departures
      and from the two ranges whose length wraps. */
  lemma SetRangeIsSlice(v: Variant, xs: seq<Value>, begin: int, endValue: int, excludeEnd: bool, rhs: Rhs)
    ensures var start := NormalizeIndex(|xs|, begin);
      SetRange(v, xs, begin, endValue, excludeEnd, rhs) ==
        if start < 0 then Raised(RangeError)
        else if rhs.Scalar? then Failure
        else SliceAssign(v, xs, start, RangeLength(v, |xs|, start, endValue, excludeEnd), rhs.replacement)
    ensures var start := NormalizeIndex(|xs|, begin);
      var last := NormalizeIndex(|xs|, endValue) - (if excludeEnd then 1 else 0);
      var length := Max(0, last - start + 1);
      start >= 0 && !rhs.Scalar?
      && (v.Corrected? || (JavaRange(|xs|, begin, endValue) && !RangeLengthWraps(|xs|, start, endValue, excludeEnd)
                           && !AsWrittenDeparts(xs, start, length, rhs.replacement))) ==>
        SetRange(v, xs, begin, endValue, excludeEnd, rhs)
          == Assigned(RubySplice(xs, start, length, ReplacementElements(xs, rhs.replacement)))
  {
    var start := NormalizeIndex(|xs|, begin);
    if start >= 0 {
      var last := NormalizeIndex(|xs|, endValue) - (if excludeEnd then 1 else 0);
      var length := Max(0, last - start + 1);
      var n := RangeLength(v, |xs|, start, endValue, excludeEnd);
      ExecuteSliceUnfold(v, xs, start, n, rhs);
      if !rhs.Scalar? && (v.Corrected? || (JavaRange(|xs|, begin, endValue) && !RangeLengthWraps(|xs|, start, endValue, excludeEnd)
                                           && !AsWrittenDeparts(xs, start, length, rhs.replacement))) {
        if v.AsWritten? {
          RangeLengthAsWritten(|xs|, start, endValue, excludeEnd);
        }
        assert n == length;
        SliceAssignIsSpliceAway(v, xs, start, length, rhs.replacement);
      }
    }
  }

  /** On Java ints the length as written equals the exact one exactly away from the two
      wrapping ranges; the range from 0 to INT_MAX gets length 0, an insertion. */
  lemma {:induction false} RangeLengthAsWritten(size: nat, start: nat, endValue: int, excludeEnd: bool)
    requires size <= INT_MAX && start <= INT_MAX && INT_MIN <= endValue <= INT_MAX
    ensures RangeLength(AsWritten, size, start, endValue, excludeEnd) != RangeLength(Corrected, size, start, endValue, excludeEnd)
            <==> RangeLengthWraps(size, start, endValue, excludeEnd)
    ensures var last := NormalizeIndex(size, endValue) - (if excludeEnd then 1 else 0);
      start == 0 && last == INT_MAX ==> RangeLength(AsWritten, size, start, endValue, excludeEnd) == 0
  {
    var end := NormalizeIndex(size, endValue);
    assert INT_MIN <= end <= INT_MAX;
    var inclusiveEnd := if excludeEnd then ToInt32(end - 1) else end;
    if excludeEnd && end == INT_MIN {
      assert inclusiveEnd == INT_MAX;
    } else if excludeEnd {
      ToInt32InRange(end - 1);
    }
    var inclusiveEnd' := if inclusiveEnd < 0 then -1 else inclusiveEnd;
    var raw := inclusiveEnd' - start + 1;
    if raw == INT_MAX + 1 {
      assert ToInt32(raw) == INT_MIN;
    } else {
      ToInt32InRange(raw);
    }
  }

  /** Both forms of the slice assignment at a valid start are Ruby's splice, the form as
      written away from its departures. */
  lemma SliceAssignIsSpliceAway(v: Variant, xs: seq<Value>, start: nat, length: nat, r: Replacement)
    requires v.Corrected? || !AsWrittenDeparts(xs, start, length, r)
    ensures SliceAssign(v, xs, start, length, r) == Assigned(RubySplice(xs, start, length, ReplacementElements(xs, r)))
  {
    if v.Corrected? {
      CorrectedSliceAssignIsSplice(xs, start, length, r);
    } else {
      SliceAssignResult(xs, start, length, r);
    }
  }

  /** The start/length form with an array value is the slice assignment; with any other value
      it fails. */
  lemma ExecuteSliceUnfold(v: Variant, xs: seq<Value>, start: int, length: int, rhs: Rhs)
    ensures Execute(v, xs, IntIndex(start), IntLength(length), rhs)
            == if rhs.Scalar? then Failure else SliceAssign(v, xs, start, length, rhs.replacement)
  {
  }

  /** Argument shapes no specialization handles natively return FAILURE and leave the array
      to the generic node; every other shape assigns or raises. */
  lemma UnhandledShapesFail(v: Variant, xs: seq<Value>, index: IndexArg, length: LengthArg, rhs: Rhs)
    ensures Execute(v, xs, index, length, rhs) == Failure
      <==> index.OtherIndex? || index.OtherRangeIndex? || length.OtherLength?
           || (length.IntLength? && (rhs.Scalar? || !index.IntIndex?))
           || (index.IntRangeIndex? && rhs.Scalar? && NormalizeIndex(|xs|, index.begin) >= 0)
  {
  }

  // ---------------------------------------------------------------------------------------
  // Where the same-length specialization departs from Ruby
  // ---------------------------------------------------------------------------------------

  /** `a = [1,2,3]; a[1,3] = a` should leave `[1,1,2,3]`; reading the live array gives
      `[1,1,1,1]`. */
  lemma SelfAssignmentAsWrittenReadsOverwrittenElements()
    ensures var xs := [Integer(1), Integer(2), Integer(3)];
      var rhs := ArrayValue(Obj(0), Aliased);
      Execute(AsWritten, xs, IntIndex(1), IntLength(3), rhs) == Assigned([Integer(1), Integer(1), Integer(1), Integer(1)])
      && Execute(Corrected, xs, IntIndex(1), IntLength(3), rhs) == Assigned([Integer(1), Integer(1), Integer(2), Integer(3)])
      && RubySplice(xs, 1, 3, xs) == [Integer(1), Integer(1), Integer(2), Integer(3)]
  {
    var xs := [Integer(1), Integer(2), Integer(3)];
    var s1 := Write(xs, 1, Integer(1));
    assert s1 == [Integer(1), Integer(1), Integer(3)];
    var s2 := Write(s1, 2, Integer(1));
    assert s2 == [Integer(1), Integer(1), Integer(1)];
    var s3 := Write(s2, 3, Integer(1));
    assert s3 == [Integer(1), Integer(1), Integer(1), Integer(1)];
    assert CopyRangeLive(xs, 1, 0, 3) == s3;
    assert SliceAssign(AsWritten, xs, 1, 3, Aliased) == SetSameLengthAsWritten(xs, 1, 3, Aliased);
    assert SliceAssign(Corrected, xs, 1, 3, Aliased) == SetSameLength(xs, 1, 3, Aliased);
    SetSameLengthIsSplice(xs, 1, Aliased);
    assert RubySplice(xs, 1, 3, xs) == [Integer(1)] + xs + [];
  }

  /** `a = [1,2,3]; a[5,0] = []` should leave `[1,2,3,nil,nil]`, as `a[5,1] = []` does; with no
      element to write the same-length loop leaves the array as it was. The empty range
      `a[5..4] = []` takes the same path. */
  lemma EmptySameLengthAsWrittenDoesNotPad()
    ensures var xs := [Integer(1), Integer(2), Integer(3)];
      var rhs := ArrayValue(Obj(0), Separate([]));
      var padded := [Integer(1), Integer(2), Integer(3), Nil, Nil];
      Execute(AsWritten, xs, IntIndex(5), IntLength(0), rhs) == Assigned(xs)
      && Execute(Corrected, xs, IntIndex(5), IntLength(0), rhs) == Assigned(padded)
      && Execute(AsWritten, xs, IntRangeIndex(5, 4, false), NotProvided, rhs) == Assigned(xs)
      && Execute(Corrected, xs, IntRangeIndex(5, 4, false), NotProvided, rhs) == Assigned(padded)
  {
    var xs := [Integer(1), Integer(2), Integer(3)];
    SetSameLengthIsSplice(xs, 5, Separate([]));
    assert SliceAssign(AsWritten, xs, 5, 0, Separate([])) == SetSameLengthAsWritten(xs, 5, 0, Separate([]));
    assert SliceAssign(Corrected, xs, 5, 0, Separate([])) == SetSameLength(xs, 5, 0, Separate([]));
  }

  /** `a = [1,2,3]; a[0..2147483647] = [9]` should leave `[9]`. As written the length
      `2147483647 - 0 + 1` wraps to INT_MIN and is clamped to 0, so the value is inserted
      before the elements instead, leaving `[9,1,2,3]`. */
  lemma RangeToIntMaxAsWrittenInserts()
    ensures var xs := [Integer(1), Integer(2), Integer(3)];
      var rhs := ArrayValue(Obj(0), Separate([Integer(9)]));
      Execute(AsWritten, xs, IntRangeIndex(0, INT_MAX, false), NotProvided, rhs)
        == Assigned([Integer(9), Integer(1), Integer(2), Integer(3)])
      && Execute(Corrected, xs, IntRangeIndex(0, INT_MAX, false), NotProvided, rhs) == Assigned([Integer(9)])
      && RubySplice(xs, 0, INT_MAX + 1, [Integer(9)]) == [Integer(9)]
  {
    var xs := [Integer(1), Integer(2), Integer(3)];
    var rhs := ArrayValue(Obj(0), Separate([Integer(9)]));
    RangeLengthAsWritten(3, 0, INT_MAX, false);
    assert RangeLength(AsWritten, 3, 0, INT_MAX, false) == 0;
    ExecuteSliceUnfold(AsWritten, xs, 0, 0, rhs);
    SliceAssignIsSpliceAway(AsWritten, xs, 0, 0, Separate([Integer(9)]));
    assert RubySplice(xs, 0, 0, [Integer(9)]) == [Integer(9)] + xs;
    SetRangeIsSlice(Corrected, xs, 0, INT_MAX, false, rhs);
    assert RubySplice(xs, 0, INT_MAX + 1, [Integer(9)]) == [Integer(9)];
  }

  /** Away from those two inputs the written code agrees with the corrected one: a separate
      replacement, or the array itself assigned at index 0, gives the same result whenever
      something is written. */
  lemma {:induction false} SameLengthAsWrittenAgrees(xs: seq<Value>, rawStart: int, r: Replacement)
    requires r.Aliased? ==> NormalizeIndex(|xs|, rawStart) == 0
    requires |ReplacementElements(xs, r)| > 0
    ensures var n := |ReplacementElements(xs, r)|;
      SetSameLengthAsWritten(xs, rawStart, n, r) == SetSameLength(xs, rawStart, n, r)
  {
    if r.Aliased? && NormalizeIndex(|xs|, rawStart) >= 0 {
      CopyRangeLiveAtZero(xs, 0, |xs|);
      SameLengthSplice(xs, 0, xs);
      assert RubySplice(xs, 0, |xs|, xs) == xs;
    }
  }

  /** Copying an array onto itself at offset 0 reads only elements not yet written. */
  lemma {:induction false} CopyRangeLiveAtZero(xs: seq<Value>, lo: nat, hi: nat)
    requires lo <= hi == |xs|
    ensures CopyRangeLive(xs, 0, lo, hi) == xs
    decreases hi - lo
  {
    if lo < hi {
      assert Write(xs, lo, Read(xs, lo)) == xs;
      CopyRangeLiveAtZero(xs, lo + 1, hi);
    }
  }

  /** The array after the first `k` steps of the live copy of `xs` onto itself at `start`. */
  function LiveCopyState(xs: seq<Value>, start: nat, k: nat): seq<Value>
    requires start > 0
  {
    var len := if k == 0 then |xs| else Max(|xs|, start + k);
    seq(len, j requires 0 <= j < len =>
      if start <= j < start + k then Cycle(xs, start, j - start) else if j < |xs| then xs[j] else Nil)
  }

  /** One step of the live copy: element `k` is read (the original element, or one the copy
      wrote `start` steps earlier, which is the same element of the cycle) and written at
      `start + k`. */
  lemma LiveCopyStep(xs: seq<Value>, start: nat, k: nat)
    requires 0 < start && k < |xs|
    ensures Write(LiveCopyState(xs, start, k), start + k, Read(LiveCopyState(xs, start, k), k))
            == LiveCopyState(xs, start, k + 1)
  {
    var ys := LiveCopyState(xs, start, k);
    assert Read(ys, k) == Cycle(xs, start, k);
    var a := Write(ys, start + k, Cycle(xs, start, k));
    var b := LiveCopyState(xs, start, k + 1);
    assert |a| == |b|;
    forall j | 0 <= j < |a|
      ensures a[j] == b[j]
    {
    }
  }

  lemma {:induction false} LiveCopyFrom(xs: seq<Value>, start: nat, k: nat)
    requires 0 < start && k <= |xs|
    ensures CopyRangeLive(LiveCopyState(xs, start, k), start, k, |xs|) == LiveCopyState(xs, start, |xs|)
    decreases |xs| - k
  {
    if k < |xs| {
      LiveCopyStep(xs, start, k);
      LiveCopyFrom(xs, start, k + 1);
    }
  }

  /** The same-length loop as written, assigning a non-empty array into itself at `start > 0`,
      leaves the array that repeats its first `start` elements from `start` on. */
  lemma SelfAssignmentAsWrittenRepeats(xs: seq<Value>, start: nat)
    requires 0 < start && 0 < |xs|
    ensures CopyRangeLive(xs, start, 0, |xs|) == SelfOverlap(xs, start)
  {
    assert LiveCopyState(xs, start, 0) == xs;
    LiveCopyFrom(xs, start, 0);
    assert LiveCopyState(xs, start, |xs|) == SelfOverlap(xs, start);
  }
}
