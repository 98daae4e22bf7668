# Concurrent arrays and hashes of TruffleRuby, modelled in Dafny

This project models the thread-safe collections experiment of TruffleRuby. It also models
the integer part of the random number generator of its benchmarks (`bench/random.rb`).

On the array side it models:

- the storage strategies (`ArrayStrategy`): which Java array backs a Ruby array, what values
  it accepts, and how two strategies generalize to one that holds both;
- the concurrent strategies, which wrap a type strategy together with a lock kind;
- the wrappers a shared array keeps in its store field (`ConcurrentArray`);
- the guards the array nodes dispatch on (`ArrayGuards`);
- element and slice assignment on a concurrent array (`ConcurrentArrayIndexSetNode`);
- appending one element (`ConcurrentArrayAppendOneNode`);
- the stand-alone append experiment (`ConcurrentArrayAppend`);
- the `Truffle::Array` primitives `steal_storage` and `set_strategy` (`TruffleArrayNodes`);
- the per-thread state slots (`ThreadStateProvider`).

On the hash side it models:

- the entries of bucket and concurrent hashes (`Entry`, `ConcurrentEntry`);
- the bucket array (`AtomicReferenceArray`);
- the concurrent store with its head and tail sentinels (`ConcurrentHash`);
- the concurrent bucket strategy: insertion, walks, `resize`, `copyInto`, `fromBuckets`
  (`ConcurrentBucketsStrategy`);
- key lookup (`ConcurrentLookupEntryNode`);
- `SetNode` on empty, packed, bucket and concurrent hashes;
- the promotion of a bucket hash to a concurrent one (`BucketsPromotionResult`).

Each operation runs as one atomic step of one thread. Every Java exception and every Java
`assert` that can fail is a `Raise` of a `Result`. A loop whose termination the code does
not ensure takes a `fuel` argument and reports `Stuck` when the fuel runs out.

Entries of a hash live in a heap, a `map` from identities to entries, and their links are
identities. The chains, the insertion-order sequence and the buckets are `seq`
abstractions. They are tied to the links by predicates (`Links.Chain`, `Rebuild.Sequence`).

The source relies on some helpers that are not part of this model. `HashConfig` takes them
as parameters, and each parameter carries only the bounds its callers need. They are:

- the bucket index of a hash;
- the capacity for a size;
- key hashing and key equality;
- `INITIAL_CAPACITY`, `OVERALLOCATE_FACTOR`, `HASH_PACKED_ARRAY_MAX` and the load factor.

Where the code departs from what its comments or its design describe, the model keeps both
forms: a member for the code as written and a member for the corrected behaviour. Each such
place is a row of "## Findings". The operations run the code as written:

- `IndexSet.Execute` and the slice assignments take a `Variant`, and `AsWritten` is the code;
- `SetNodes.Set` runs `ConcurrentSets.SetConcurrentAsWritten`;
- `AppendOne.AppendOneNode` includes the cast at `ConcurrentArrayAppendOneNode.java` line 61.

The properties about Ruby's semantics are proved of the corrected forms, and their rows in
the table say "corrected". Some departures are followed as written without a finding:

- The int strategy's `generalize` overrides the general rule: null is not its right identity.
- `IntToObject#generalize` throws for every strategy other than itself and null.

One departure cannot be followed. `SetNode#setConcurrent` creates a plain `Entry` where the
concurrent hash holds `ConcurrentEntry` objects, and the model builds an unpublished
concurrent entry there.

## Model

Source paths in the table are relative to the root of the repository.

| member | source | states |
|---|---|---|
| ArrayStrategy.ForValue | truffleruby/src/main/java/org/truffleruby/core/array/ArrayStrategy.java:195-206 | The strategy chosen for a value is one of the four type strategies. It accepts the value and specializes for it. It is Object[] exactly when the value is not an Integer, a Long or a Double. |
| ArrayStrategy.Unsupported | truffleruby/src/main/java/org/truffleruby/core/array/ArrayStrategy.java:131-133 | The exception raised is UnsupportedOperationException, carrying the strategy's name. |
| ArrayStrategy.FirstStoring | truffleruby/src/main/java/org/truffleruby/core/array/ArrayStrategy.java:109-114 | A strategy found by the search is one of the candidates. |
| ArrayStrategy.FirstStoringIsFirst | truffleruby/src/main/java/org/truffleruby/core/array/ArrayStrategy.java:109-114 | The search succeeds exactly when some candidate can store both types. It then returns the first such candidate: none before it can store both. |
| ArrayStrategy.FirstStoringRaises | truffleruby/src/main/java/org/truffleruby/core/array/ArrayStrategy.java:109-114 | The search raises exactly when no candidate can store both types. |
| ArrayStrategy.FirstStoringIndex | truffleruby/src/main/java/org/truffleruby/core/array/ArrayStrategy.java:109-113 | A successful search returns the candidate at some index. That candidate stores both types and no earlier one does. |
| ArrayStrategy.LocalGeneralize | truffleruby/src/main/java/org/truffleruby/core/array/ArrayStrategy.java:92-115 | Generalizing a local strategy yields a local strategy. This holds when the other strategy is local, and whenever the strategy is not the fallback. |
| ArrayStrategy.Generalize | truffleruby/src/main/java/org/truffleruby/core/array/ArrayStrategy.java:549-561 | A concurrent strategy generalizes to a concurrent one. Its lock kind is the one the lock rules give, for example FixedSize with Synchronized gives Synchronized. A local strategy other than the fallback generalizes to a local one. |
| ArrayStrategy.GeneralizeNew | truffleruby/src/main/java/org/truffleruby/core/array/ArrayStrategy.java:566-568 | `generalizeNew` of a concurrent strategy yields a local strategy, because a new array is not shared yet. |
| ArrayStrategy.GeneralizeIsLeastCommon | truffleruby/src/main/java/org/truffleruby/core/array/ArrayStrategy.java:109-113 | For long, double and Object[], generalizing with any type strategy gives the first strategy in TYPE_STRATEGIES that stores both. So the result is the least common strategy of the two. |
| ArrayStrategy.IntGeneralizeOverride | truffleruby/src/main/java/org/truffleruby/core/array/ArrayStrategy.java:245-255 | The int strategy's override is pinned down. int with long gives long. int with a shared long gives IntToObject, because the shared argument is not reduced. int with double gives IntToObject, but double with int gives Object[]. int with null gives IntToObject. |
| ArrayStrategy.GeneralizeReflexive | truffleruby/src/main/java/org/truffleruby/core/array/ArrayStrategy.java:94-96 | Every strategy generalizes to itself. |
| ArrayStrategy.GeneralizeNullRight | truffleruby/src/main/java/org/truffleruby/core/array/ArrayStrategy.java:98-104 | Null is the right identity of generalization, with two exceptions. The int strategy goes to IntToObject. The fallback strategy goes to null. |
| ArrayStrategy.GeneralizeNullLeft | truffleruby/src/main/java/org/truffleruby/core/array/ArrayStrategy.java:98-107 | The null strategy generalizes to the other strategy's type strategy, as a local strategy. |
| ArrayStrategy.SharedGeneralizesTypeStrategy | truffleruby/src/main/java/org/truffleruby/core/array/ArrayStrategy.java:549-561 | A concurrent strategy succeeds exactly when its type strategy generalizes locally. The result keeps the generalized type strategy under the combined lock kind. A failure carries the same exception as the local failure. |
| ArrayStrategy.IntToObjectDoesNotGeneralize | truffleruby/src/main/java/org/truffleruby/core/array/ArrayStrategy.java:427-458 | IntToObject does not override `type()`. So generalizing it with any strategy other than itself or null throws UnsupportedOperationException("Object[] (not accepting long)"), in both directions. The int strategy's override is the one exception. |
| ArrayStrategy.GeneralizeFor | truffleruby/src/main/java/org/truffleruby/core/array/ArrayStrategy.java:121-123 | `generalizeFor(v)` keeps the sharing, and a concurrent strategy keeps its lock kind. |
| ArrayStrategy.GeneralizeForAccepts | truffleruby/src/main/java/org/truffleruby/core/array/ArrayStrategy.java:121-123 | `generalizeFor(v)` yields a strategy that accepts `v` in every case but two. From long it accepts `v` exactly when `v` is not an Integer. From IntToObject it raises. |
| ArrayStrategy.Of | truffleruby/src/main/java/org/truffleruby/core/array/ArrayStrategy.java:160-170 | `of` succeeds only when the strategy is concurrent exactly for a shared object (the assert at line 162), and the strategy of an array matches it. An object that is not an array gets the fallback strategy, and the assert fails when such an object is shared. |
| ArrayStrategy.OfStore | truffleruby/src/main/java/org/truffleruby/core/array/ArrayStrategy.java:142-158 | Classifying a store succeeds unless the store is an array of another reference class. In that case it raises UnsupportedOperationException with the class name. |
| ArrayStrategy.OfMatches | truffleruby/src/main/java/org/truffleruby/core/array/ArrayStrategy.java:160-193 | `of(array)` succeeds exactly when three things hold: the array is shared iff its store is a wrapper, the wrapper is one of the six known kinds, and the inner store is classifiable. The strategy it returns matches the array and is concurrent iff the array is shared. |
| ArrayStrategy.KindOfWrapper | truffleruby/src/main/java/org/truffleruby/core/array/ArrayStrategy.java:173-189 | The lock kind recognised from a wrapper class is the kind whose wrapper class it is. |
| ArrayStrategy.MatchingStrategyIsUnique | truffleruby/src/main/java/org/truffleruby/core/array/ArrayStrategy.java:609-612 | Two strategies other than IntToObject that both match a store are equal. So `of` can return only one strategy for a store. |
| ArrayStrategy.Wrap | truffleruby/src/main/java/org/truffleruby/core/array/ArrayStrategy.java:599-601 | A successful wrap turns a bare store into the wrapper class of the lock kind, holding that store. |
| ArrayStrategy.Unwrap | truffleruby/src/main/java/org/truffleruby/core/array/ArrayStrategy.java:604-607 | Unwrapping succeeds exactly when the store is a wrapper of the strategy's own class. Otherwise it is a ClassCastException. |
| ArrayStrategy.UnwrapWrap | truffleruby/src/main/java/org/truffleruby/core/array/ArrayStrategy.java:675-686 | Wrapping succeeds for FixedSize, Synchronized and LayoutLock. The other lock kinds also need the array's current store to be their wrapper, whose lock they reuse. Unwrapping gives back the store, and the wrapper matches exactly when the store matches the type strategy. |
| ArrayStrategy.SetStore | truffleruby/src/main/java/org/truffleruby/core/array/ArrayStrategy.java:78-82 | Setting the store keeps the array's size and sharing. It succeeds only when the array's sharing is that of the strategy: the asserts at lines 80 and 545. |
| ArrayStrategy.SetStoreAndSize | truffleruby/src/main/java/org/truffleruby/core/array/ArrayStrategy.java:84-87 | The array gets the given size and keeps its sharing. |
| ArrayStrategy.SetStoreKeepsMatching | truffleruby/src/main/java/org/truffleruby/core/array/ArrayStrategy.java:543-547 | After setting a store that matches the type strategy, the strategy matches the array. Its mirror sees exactly that store, wrapped or not. |
| ArrayStrategy.MirrorOfMatchingStore | truffleruby/src/main/java/org/truffleruby/core/array/ArrayStrategy.java:577-579 | The mirror of a matching store is the store itself for a local strategy and the wrapped store for a concurrent one. |
| ArrayStrategy.NewArray | truffleruby/src/main/java/org/truffleruby/core/array/ArrayStrategy.java:570-574 | A new store has the requested capacity, for a concurrent strategy as well. |
| ArrayStrategy.NewArrayIsDefault | truffleruby/src/main/java/org/truffleruby/core/array/ArrayStrategy.java:256-259 | A new store of a type strategy matches that strategy, and every slot holds its default value. |
| ArrayStrategy.DefaultValueIsDefault | truffleruby/src/main/java/org/truffleruby/core/array/ArrayStrategy.java:235-238 | `isDefaultValue` holds exactly for the zero or null that fills a new store of the strategy's kind. |
| ArrayStrategy.ToStringNamesSharing | truffleruby/src/main/java/org/truffleruby/core/array/ArrayStrategy.java:626-628 | A strategy's name starts with a lock-kind initial exactly when it is concurrent, for example "Synchronized(Object[])". |
| ConcurrentArray.NewWrapper | truffleruby/src/main/java/org/truffleruby/core/array/ConcurrentArray.java:32-35 | A wrapper can be built only around a store that is not itself a wrapper; otherwise the assert fails. It holds that store and its kind, and keeps the lock only for the lock-carrying kinds. |
| ConcurrentArray.StoreRoundTrip | truffleruby/src/main/java/org/truffleruby/core/array/ConcurrentArray.java:32-39 | `getStore` of a new wrapper gives back the store it was built with, for every kind. |
| ConcurrentArray.NoNestedWrappers | truffleruby/src/main/java/org/truffleruby/core/array/ConcurrentArray.java:33 | Wrapping a wrapper fails the assert, for every kind. |
| ConcurrentArray.LockRoundTrip | truffleruby/src/main/java/org/truffleruby/core/array/ConcurrentArray.java:68-79 | `getLock` of a lock-carrying wrapper gives back the lock it was built with. |
| ConcurrentArray.FastAppendTagsMatchStore | truffleruby/src/main/java/org/truffleruby/core/array/ConcurrentArray.java:148-160 | A new FastAppendArray has one tag per slot of its store and none for a null store. Every tag starts unset. |
| ConcurrentArray.SetTags | truffleruby/src/main/java/org/truffleruby/core/array/ConcurrentArray.java:166-172 | `setTags` replaces the tags and leaves the store, kind and lock as they were. |
| ConcurrentArray.GetSizeAndIncrement | truffleruby/src/main/java/org/truffleruby/core/array/ConcurrentArray.java:25-28 | The size field grows by one and nothing else of the array changes. The old size is returned whenever it is in the int range. |
| ArrayGuards.StorageGuardsAreMatches | truffleruby/src/main/java/org/truffleruby/core/array/ArrayGuards.java:30-54 | Each storage guard holds exactly when the local strategy of that type matches the array. `isConcurrentArray` holds exactly when the store is some wrapper. |
| ArrayGuards.WrapperGuardsAreMatches | truffleruby/src/main/java/org/truffleruby/core/array/ArrayGuards.java:56-89 | A concurrent strategy matches an array exactly when its wrapper guard holds and the wrapped store matches the type strategy. |
| ArrayGuards.AtMostOneStorageGuard | truffleruby/src/main/java/org/truffleruby/core/array/ArrayGuards.java:30-54 | At most one of the five storage guards holds for any array. |
| ArrayGuards.OfArrayHasOneGuard | truffleruby/src/main/java/org/truffleruby/core/array/ArrayGuards.java:30-54 | Every array that `of` classifies passes one of the five storage guards, unless its store is null. |
| ArrayGuards.ArrayStrategiesCoverPairs | truffleruby/src/main/java/org/truffleruby/core/array/ArrayGuards.java:25-26 | The ordered pairs of a type strategy or the null strategy number exactly ARRAY_STRATEGIES. Every such pair is in the enumeration, and none is listed twice. |
| ThreadState.NewProvider | truffleruby/src/main/java/org/truffleruby/core/array/layout/ThreadStateProvider.java:10-11 | A new provider starts at index 0 of a fresh store and is valid. |
| ThreadState.NewThreadStateReference | truffleruby/src/main/java/org/truffleruby/core/array/layout/ThreadStateProvider.java:13-21 | The reference handed out is the current index in the current store, and that index is at most 48. The index then advances by one. Past 64 - 16 it restarts at 0 in a fresh store. |
| ThreadState.NextPosition | truffleruby/src/main/java/org/truffleruby/core/array/layout/ThreadStateProvider.java:13-21 | From slot `r` of store `q`, the next provider is at slot `r + 1`, or at slot 0 of store `q + 1` after slot 48. |
| ThreadState.AfterIsPosition | truffleruby/src/main/java/org/truffleruby/core/array/layout/ThreadStateProvider.java:13-21 | After `n` calls the provider is at slot `n % 49` of its `n / 49`-th store. |
| ThreadState.NthReference | truffleruby/src/main/java/org/truffleruby/core/array/layout/ThreadStateProvider.java:13-21 | The `n`-th reference is slot `n % 49` of the `n / 49`-th store. So no two references share a slot. |
| ArrayNodes.StealStorage | truffleruby/src/main/java/org/truffleruby/core/array/TruffleArrayNodes.java:35-50 | `steal_storage` changes at most the two arrays involved. |
| ArrayNodes.StealFromSelf | truffleruby/src/main/java/org/truffleruby/core/array/TruffleArrayNodes.java:35-38 | Stealing from the array itself changes nothing. |
| ArrayNodes.StealMovesStorage | truffleruby/src/main/java/org/truffleruby/core/array/TruffleArrayNodes.java:40-50 | For two local arrays, the target gets the other's store and size. The other is left empty, with a null store that the null strategy matches. |
| ArrayNodes.StealBetweenSharedArraysAsserts | truffleruby/src/main/java/org/truffleruby/core/array/TruffleArrayNodes.java:44-47 | Between two shared arrays the concurrent `setStore` wraps the store it is handed. That store is already a wrapper, so the assert of the wrapper constructor fails. |
| ArrayNodes.SetStrategy | truffleruby/src/main/java/org/truffleruby/core/array/TruffleArrayNodes.java:58-79 | `set_strategy` changes at most the target array. |
| ArrayNodes.SetStrategyRefuses | truffleruby/src/main/java/org/truffleruby/core/array/TruffleArrayNodes.java:61-75 | A local array raises UnsupportedOperationException, and so does any strategy name other than "StampedLock". |
| ArrayNodes.SetStrategyKeepsStore | truffleruby/src/main/java/org/truffleruby/core/array/TruffleArrayNodes.java:64-72 | On a shared array, "StampedLock" installs a StampedLockArray holding the same store with the new lock, and the size is kept. `of` then gives StampedLock over the same type strategy. |
| IndexSet.Write | truffleruby/src/main/java/org/truffleruby/core/array/ConcurrentArrayIndexSetNode.java:214-220 | Writing element `i` sets that element and keeps the others. A write past the end first fills the gap with nil. |
| IndexSet.Resize | truffleruby/src/main/java/org/truffleruby/core/array/ConcurrentArrayIndexSetNode.java:140-145 | Setting the size to `n` keeps the first `n` elements, or all of them when there are fewer. |
| IndexSet.RubySplice | truffleruby/src/main/java/org/truffleruby/core/array/ConcurrentArrayIndexSetNode.java:129-132 | The reference for Ruby's `a[start, length] = rep`: the elements before `start`, then `rep` at `start`, then the elements after `start + length`, with the expected length. The comment at line 132 gives the case `a[5,1] = []`. |
| IndexSet.SetElement | truffleruby/src/main/java/org/truffleruby/core/array/ConcurrentArrayIndexSetNode.java:46-52 | `a[i] = v` raises IndexError exactly when the normalized index is negative. Otherwise element `i` becomes `v`, the size becomes the larger of the old size and `i + 1`, and every other element reads as before, nil past the old end. |
| IndexSet.SetSameLengthAsWritten | truffleruby/src/main/java/org/truffleruby/core/array/ConcurrentArrayIndexSetNode.java:70-83 | As written, the same-length case raises IndexError exactly for a negative normalized start. It keeps the elements before the start. The size grows to cover `start + length`, except for an empty replacement, which keeps the old size. |
| IndexSet.SetSameLength | truffleruby/src/main/java/org/truffleruby/core/array/ConcurrentArrayIndexSetNode.java:70-83 | Corrected, the same-length case raises exactly as written, keeps the elements before the start, and always grows the size to cover `start + length`. |
| IndexSet.SliceAssign | truffleruby/src/main/java/org/truffleruby/core/array/ConcurrentArrayIndexSetNode.java:68-148 | Both variants of `a[start, length] = other` raise exactly when the length is negative (NegativeLength) or the normalized start is (IndexError). They never fall back to the generic node. |
| IndexSet.SetOtherArray | truffleruby/src/main/java/org/truffleruby/core/array/ConcurrentArrayIndexSetNode.java:87-109 | The other-length case checks the length first, then the normalized start, and raises exactly in those two cases with those errors. It never falls back. |
| IndexSet.SetRange | truffleruby/src/main/java/org/truffleruby/core/array/ConcurrentArrayIndexSetNode.java:159-179 | `a[range] = v` raises RangeError exactly when the normalized begin is negative. It falls back exactly when the begin is valid and the value is not an array. |
| IndexSet.Execute | truffleruby/src/main/java/org/truffleruby/core/array/ConcurrentArrayIndexSetNode.java:42-184 | `executeSet`, as written or corrected, returns FAILURE exactly on the shapes no specialization handles. It raises only IndexError, NegativeLength or RangeError. |
| IndexSet.SetElementIsSplice | truffleruby/src/main/java/org/truffleruby/core/array/ConcurrentArrayIndexSetNode.java:46-52 | `a[i] = v` raises IndexError when the normalized index is negative. Otherwise it is the splice of `[v]` over one element at the normalized index. |
| IndexSet.SetSameLengthIsSplice | truffleruby/src/main/java/org/truffleruby/core/array/ConcurrentArrayIndexSetNode.java:70-83 | Corrected, the same-length case is Ruby's splice: it reads a self-assignment from a copy and pads with nil past the end. |
| IndexSet.SameLengthAsWrittenAgrees | truffleruby/src/main/java/org/truffleruby/core/array/ConcurrentArrayIndexSetNode.java:70-83 | The loop as written agrees with the corrected one whenever the replacement is not empty and is not the array itself, or is the array itself and starts at 0. |
| IndexSet.SetOtherArraySeparateIsSplice | truffleruby/src/main/java/org/truffleruby/core/array/ConcurrentArrayIndexSetNode.java:111-145 | For a replacement other than the array, the loop that saves the tail, writes the replacement, writes the tail back, pads an empty replacement past the end and then sets the size is Ruby's splice. |
| IndexSet.SetOtherArrayWithTail | truffleruby/src/main/java/org/truffleruby/core/array/ConcurrentArrayIndexSetNode.java:111-142 | With a tail after `start + length`, writing the replacement then the saved tail and setting the size is the splice. |
| IndexSet.SetOtherArrayWithoutTail | truffleruby/src/main/java/org/truffleruby/core/array/ConcurrentArrayIndexSetNode.java:119-144 | Without a tail, writing a non-empty replacement, or any replacement from inside the array, and setting the size is the splice. |
| IndexSet.SetOtherArrayPadding | truffleruby/src/main/java/org/truffleruby/core/array/ConcurrentArrayIndexSetNode.java:129-137 | An empty replacement past the end pads with nil up to `start`, as the splice does. |
| IndexSet.OtherLengthCaseIsSplice | truffleruby/src/main/java/org/truffleruby/core/array/ConcurrentArrayIndexSetNode.java:87-148 | The other-length case with a non-negative normalized start is Ruby's splice, both as written and corrected. A self-assignment goes through the copy taken at line 107. |
| IndexSet.SameLengthCaseIsSplice | truffleruby/src/main/java/org/truffleruby/core/array/ConcurrentArrayIndexSetNode.java:68-83 | Corrected, the same-length case with a non-negative normalized start is Ruby's splice. |
| IndexSet.CorrectedSliceAssignIsSplice | truffleruby/src/main/java/org/truffleruby/core/array/ConcurrentArrayIndexSetNode.java:68-148 | Corrected (the same-length loop reads a copy and pads): `a[start, length] = other` raises for a negative length (only on the other-length path, as the same-length case has length equal to a size) and IndexError for a negative normalized start. Otherwise it is Ruby's splice of the replacement's elements as they were before the call, the array itself included. |
| IndexSet.SliceAssignResult | truffleruby/src/main/java/org/truffleruby/core/array/ConcurrentArrayIndexSetNode.java:68-148 | As written: the same two errors. Ruby's splice except on the two inputs where the same-length loop departs. There, an empty replacement past the end leaves the array as it was, and the array assigned into itself at a start after 0 repeats its first `start` elements from `start` on. |
| IndexSet.SliceAssignSize | truffleruby/src/main/java/org/truffleruby/core/array/ConcurrentArrayIndexSetNode.java:79-145 | As written, a slice assignment always assigns. The size is `start + |replacement|` plus what is left after `start + length`. The exception is an empty same-length replacement past the end, which keeps the old size. |
| IndexSet.EmptyReplacementPastTheEndPads | truffleruby/src/main/java/org/truffleruby/core/array/ConcurrentArrayIndexSetNode.java:129-137 | As written, `a = [1,2,3]; a[5,1] = []` gives `[1,2,3,nil,nil]`, the example of the comment at line 132. |
| IndexSet.SelfAssignmentIsCopy | truffleruby/src/main/java/org/truffleruby/core/array/ConcurrentArrayIndexSetNode.java:74-109 | Assigning the array to a slice of itself behaves as assigning a copy of it in four cases: always when corrected, and as written on the other-length path (which takes the copy at line 107), at index 0, or for the empty array. |
| IndexSet.SetRangeIsSlice | truffleruby/src/main/java/org/truffleruby/core/array/ConcurrentArrayIndexSetNode.java:159-179 | `a[range] = rhs` raises RangeError when the normalized begin is negative and fails for a value that is not an array. Otherwise it is the slice assignment from `start` with the length of lines 171-177. Corrected, that is Ruby's splice with length `max(0, last - start + 1)`, `last` being the normalized end less one when excluded. As written it is the same splice for Java int arguments, away from the two same-length departures and the two ranges whose length wraps at line 176. |
| IndexSet.RangeLength | truffleruby/src/main/java/org/truffleruby/core/array/ConcurrentArrayIndexSetNode.java:171-177 | Corrected, the length from a valid start is `max(0, last - start + 1)`. Clamping the inclusive end to -1 changes nothing. The form as written computes `end - 1` and `inclusiveEnd - start + 1` in Java int arithmetic. |
| IndexSet.RangeLengthAsWritten | truffleruby/src/main/java/org/truffleruby/core/array/ConcurrentArrayIndexSetNode.java:171-177 | For Java int arguments, the length as written differs from the exact one on exactly two inputs. The first is a range from 0 whose inclusive end is INT_MAX: `inclusiveEnd - start + 1` wraps to INT_MIN and the length becomes 0. The second is an excluded end of INT_MIN on an empty array with a start above 0: `end - 1` wraps to INT_MAX. |
| IndexSet.RangeToIntMaxAsWrittenInserts | truffleruby/src/main/java/org/truffleruby/core/array/ConcurrentArrayIndexSetNode.java:171-178 | As written, `a = [1,2,3]; a[0..2147483647] = [9]` inserts and gives `[9,1,2,3]`. Ruby and the corrected model give `[9]`. |
| IndexSet.UnhandledShapesFail | truffleruby/src/main/java/org/truffleruby/core/array/ConcurrentArrayIndexSetNode.java:54-66 | The primitive returns FAILURE, so that the generic node takes over, exactly on these shapes: a non-int index, a non-int range, a non-int start or length, a non-array value with a length, or a non-array value for an int range with a valid begin (lines 152-155 and 181-184). |
| IndexSet.SelfAssignmentAsWrittenReadsOverwrittenElements | truffleruby/src/main/java/org/truffleruby/core/array/ConcurrentArrayIndexSetNode.java:74-83 | As written, `a = [1,2,3]; a[1,3] = a` reads elements it has already overwritten and gives `[1,1,1,1]`. Ruby and the corrected model give `[1,1,2,3]`. |
| IndexSet.EmptySameLengthAsWrittenDoesNotPad | truffleruby/src/main/java/org/truffleruby/core/array/ConcurrentArrayIndexSetNode.java:70-83 | As written, `a = [1,2,3]; a[5,0] = []` leaves `[1,2,3]`, because the loop runs zero times. Ruby and the corrected model give `[1,2,3,nil,nil]`. |
| IndexSet.SelfAssignmentAsWrittenRepeats | truffleruby/src/main/java/org/truffleruby/core/array/ConcurrentArrayIndexSetNode.java:79-81 | As written, the same-length loop that assigns a non-empty array into itself at a start after 0 leaves an array that repeats its first `start` elements from `start` on. |
| IndexSet.SliceAssignIsSpliceAway | truffleruby/src/main/java/org/truffleruby/core/array/ConcurrentArrayIndexSetNode.java:68-148 | At a valid start, the corrected slice assignment is Ruby's splice, and so is the one as written away from its two departures. |
| AppendOne.WriteSlot | truffleruby/src/main/java/org/truffleruby/core/array/ConcurrentArrayAppendOneNode.java:100-104 | `appendInBounds` writes slot `index` of the inner store and leaves the size and sharing alone. It succeeds exactly when the store holds values of that kind and the index is within its capacity. |
| AppendOne.CopyTo | truffleruby/src/main/java/org/truffleruby/core/array/ConcurrentArrayAppendOneNode.java:122-123 | `copyTo` of the first `n` slots succeeds exactly when both stores have at least `n` slots and every copied value, converted, fits the destination. A misfit raises ClassCastException. An Integer copied into a long[] becomes the equal long, a value the destination already holds is copied unchanged, and the rest of the destination stays the same. A destination that held only values of its kind still does. |
| AppendOne.Widen | truffleruby/src/main/java/org/truffleruby/core/array/ConcurrentArrayAppendOneNode.java:45-49 | The corrected append offers a long[] store the Long equal to an Integer value. Every other value is offered unchanged. |
| AppendOne.AcceptedIsHeld | truffleruby/src/main/java/org/truffleruby/core/array/ConcurrentArrayAppendOneNode.java:69-72 | A value that a type strategy accepts can be stored in a store of that strategy's kind. |
| AppendOne.OfArrayIsTypeStrategy | truffleruby/src/main/java/org/truffleruby/core/array/ConcurrentArrayAppendOneNode.java:45-47 | The strategy `of` caches for an array has a storable type, matches the array, and is concurrent iff the array is shared. |
| AppendOne.WriteClaimedSlot | truffleruby/src/main/java/org/truffleruby/core/array/ConcurrentArrayAppendOneNode.java:65-72 | Writing the slot claimed by the size increment appends the value to the elements. |
| AppendOne.AppendInPlace | truffleruby/src/main/java/org/truffleruby/core/array/ConcurrentArrayAppendOneNode.java:64-73 | When the strategy accepts the value and the claimed slot is within capacity, the fast path appends the value. |
| AppendOne.AppendGrowing | truffleruby/src/main/java/org/truffleruby/core/array/ConcurrentArrayAppendOneNode.java:108-116 | When the strategy accepts the value and the store is full, the slow path copies into a store of the same kind with exactly `capacityForOneMore(size)` slots, installs it and appends the value. |
| AppendOne.AppendGeneralizing | truffleruby/src/main/java/org/truffleruby/core/array/ConcurrentArrayAppendOneNode.java:117-125 | When only the generalized strategy accepts the value, the slow path moves the elements into a store of that strategy's kind, growing it if needed, and appends the value. The elements are converted to that kind, so an int[]'s Integers become the equal longs of a long[]. Every slot of the result holds a value of its kind. |
| AppendOne.SlowPathGeneralizes | truffleruby/src/main/java/org/truffleruby/core/array/ConcurrentArrayAppendOneNode.java:117-125 | The generalizing branch produces an array whose store has the generalized strategy's kind and holds only values of that kind. It starts with the current elements converted to that kind. It has room for the claimed slot unless `newSize = size + 1` wraps around as a Java int (line 119), in which case the old capacity is kept. It then writes the value there. |
| AppendOne.GeneralizedStoreWidens | truffleruby/src/main/java/org/truffleruby/core/array/ConcurrentArrayAppendOneNode.java:117-123 | The store kind the generalized strategy allocates can take, converted, every value of the current store's kind: the same kind, int[] into long[], or Object[]. |
| AppendOne.CopyWidened | truffleruby/src/main/java/org/truffleruby/core/array/ConcurrentArrayAppendOneNode.java:122-123 | Copying a typed store into a fresh store of a wider kind succeeds. It converts each element and leaves a store that holds only values of its kind. |
| AppendOne.SlowPathAppend | truffleruby/src/main/java/org/truffleruby/core/array/ConcurrentArrayAppendOneNode.java:106-131 | As written: when the slow path succeeds it keeps the size and sharing, and the claimed slot of a plain store within its capacity holds the value. |
| AppendOne.StrategyChanged | truffleruby/src/main/java/org/truffleruby/core/array/ConcurrentArrayAppendOneNode.java:133-137 | As written: it succeeds only when `of` classifies the array and the value generalizes that strategy. It then keeps the size and sharing and leaves the value in the claimed slot. |
| AppendOne.AppendOneSameType | truffleruby/src/main/java/org/truffleruby/core/array/ConcurrentArrayAppendOneNode.java:62-98 | As written past the cast at line 61: success needs `generalizeFor(value)` to succeed. It grows the size by one, keeps the sharing, and leaves the value in the slot at the old size. |
| AppendOne.AppendOne | truffleruby/src/main/java/org/truffleruby/core/array/ConcurrentArrayAppendOneNode.java:45-98 | Corrected (an Integer is widened to Long for a long[] store): a success grows the size by one, keeps the sharing, and leaves the widened value in the slot at the old size. |
| AppendOne.AppendOneNode | truffleruby/src/main/java/org/truffleruby/core/array/ConcurrentArrayAppendOneNode.java:45-98 | As written, including the cast at line 61: a success is possible only when the store field holds a FastAppendArray. |
| AppendOne.AppendCastFails | truffleruby/src/main/java/org/truffleruby/core/array/ConcurrentArrayAppendOneNode.java:45-61 | As written, every append that reaches the specialization fails at the cast of line 61. It raises ClassCastException, or NullPointerException for the null store, because no store that `strategy.matches` admits is a FastAppendArray. |
| AppendOne.AppendOneAppends | truffleruby/src/main/java/org/truffleruby/core/array/ConcurrentArrayAppendOneNode.java:45-137 | For every array that `of` classifies and every value, the corrected append succeeds. The size grows by one and the sharing is kept. The elements are the old ones, converted to the kind of the store they end in (unchanged when the kind stays), followed by the value, widened for a long[] store. Every slot holds a value of its kind. |
| AppendOne.IntsMoveToLongs | truffleruby/src/main/java/org/truffleruby/core/array/ConcurrentArrayAppendOneNode.java:117-125 | A full int[] array `[1]` that receives the Long 2^40 moves to a long[] store holding `[1L, 2^40]`. |
| AppendOne.AppendOneAgreesAsWritten | truffleruby/src/main/java/org/truffleruby/core/array/ConcurrentArrayAppendOneNode.java:45-98 | Past the cast at line 61, the corrected append is the code as written for every case other than an Integer into a long[] store. |
| AppendOne.IntegerIntoLongOverflows | truffleruby/src/main/java/org/truffleruby/core/array/ConcurrentArrayAppendOneNode.java:106-137 | Latent behind the cast at line 61: past that cast, an Integer appended to a local long[] array is refused by long and again by its generalization, which is long. `strategyChanged` then recomputes the same two strategies and recurses without end, ending in a StackOverflowError. The corrected append succeeds. |
| AppendExperiment.CopyOf | truffleruby/src/main/java/org/javaexperiments/ConcurrentArrayAppend.java:42-43 | `Arrays.copyOf` keeps the elements that fit and pads with the default up to the new length. |
| AppendExperiment.New | truffleruby/src/main/java/org/javaexperiments/ConcurrentArrayAppend.java:15-17 | A new array is valid and empty, with 16 slots. |
| AppendExperiment.Append | truffleruby/src/main/java/org/javaexperiments/ConcurrentArrayAppend.java:21-50 | `append` on a valid array adds the value at the end and keeps it valid. The store keeps its length when there is room and doubles otherwise. When a full store has more than 2^30 slots, the doubled `int` length is negative and `Arrays.copyOf` throws NegativeArraySizeException. |
| AppendExperiment.DoubledLength | truffleruby/src/main/java/org/javaexperiments/ConcurrentArrayAppend.java:41 | `currentStore.length * 2` in Java `int` arithmetic: the double when it fits, otherwise the wrapped-around negative value. |
| AppendExperiment.AtReadsElements | truffleruby/src/main/java/org/javaexperiments/ConcurrentArrayAppend.java:58-71 | `at(i)` gives the element below the size and NIL at or past it. A negative index throws. |
| AppendExperiment.Set | truffleruby/src/main/java/org/javaexperiments/ConcurrentArrayAppend.java:73-88 | `set(i, v)` below the size replaces that element only. At or past the size it throws Error. |
| AppendExperiment.Pop | truffleruby/src/main/java/org/javaexperiments/ConcurrentArrayAppend.java:90-101 | `pop` on a non-empty array returns the last element and removes it, keeping the store. On an empty array it throws. |
| AppendExperiment.PopUndoesAppend | truffleruby/src/main/java/org/javaexperiments/ConcurrentArrayAppend.java:21-101 | Popping right after a successful append of `v` returns `v` and restores the elements. |
| AppendExperiment.AppendKeepsPrefix | truffleruby/src/main/java/org/javaexperiments/ConcurrentArrayAppend.java:21-71 | After a successful append, `at` reads the old elements unchanged and the new one at the old size. |
| HashEntries.NewEntry | truffleruby/src/main/java/org/truffleruby/core/hash/Entry.java:32-36 | A new entry carries the given hash, key and value, and all three of its links are null. |
| HashEntries.Apply | truffleruby/src/main/java/org/truffleruby/core/hash/Entry.java:42-84 | Each setter writes its own field and leaves the others, the key included, as they were. |
| HashEntries.CompareAndSetNextInLookup | truffleruby/src/main/java/org/truffleruby/core/hash/Entry.java:66-68 | The compare-and-set succeeds exactly when the lookup link is the expected entry. Only on success does it write the new link. |
| HashEntries.CompareAndSetNextInSequence | truffleruby/src/main/java/org/truffleruby/core/hash/Entry.java:86-88 | The compare-and-set succeeds exactly when the sequence link is the expected entry. Only on success does it write the new link. |
| HashEntries.KeyIsFinal | truffleruby/src/main/java/org/truffleruby/core/hash/Entry.java:21 | No sequence of writes changes an entry's key. |
| ConcurrentEntries.DataEntry | truffleruby/src/main/java/org/truffleruby/core/hash/ConcurrentEntry.java:41-48 | A data entry carries the given hash, key, value and published flag. It is neither a removed marker nor a lock marker, and it starts unlinked. |
| ConcurrentEntries.MarkerEntry | truffleruby/src/main/java/org/truffleruby/core/hash/ConcurrentEntry.java:50-60 | A marker has a null key and value, hash 0, is unpublished, and carries the given flags and links. |
| ConcurrentEntries.Apply | truffleruby/src/main/java/org/truffleruby/core/hash/ConcurrentEntry.java:86-135 | A setter fails its assertion exactly when it writes a sequence link of a removed marker. Otherwise it writes its one field and nothing else. |
| ConcurrentEntries.CompareAndSetNextInLookup | truffleruby/src/main/java/org/truffleruby/core/hash/ConcurrentEntry.java:110-112 | The lookup compare-and-set succeeds, and writes, exactly when the link is the expected entry. It has no assertion. |
| ConcurrentEntries.CompareAndSetPreviousInSequence | truffleruby/src/main/java/org/truffleruby/core/hash/ConcurrentEntry.java:123-126 | The call fails its assertion exactly on a removed marker. Otherwise it succeeds, and writes, exactly when the link is the expected entry. |
| ConcurrentEntries.CompareAndSetNextInSequence | truffleruby/src/main/java/org/truffleruby/core/hash/ConcurrentEntry.java:137-140 | The call fails its assertion exactly on a removed marker. Otherwise it succeeds, and writes, exactly when the link is the expected entry. |
| ConcurrentEntries.RawWritesAreSetters | truffleruby/src/main/java/org/truffleruby/core/hash/ConcurrentEntry.java:106-135 | On an entry that is not a removed marker, each link setter succeeds and writes exactly its link. |
| ConcurrentEntries.LabelsClassify | truffleruby/src/main/java/org/truffleruby/core/hash/ConcurrentEntry.java:142-157 | `toString` prints HEAD for a keyless data entry with nothing before it and TAIL once it has something before it. A removed marker prints "removed", a lock marker prints "lock", and an entry with a key prints the key. A fresh keyless data entry is a tail sentinel (line 78) and a removed marker is not. |
| AtomicArrays.New | truffleruby/src/main/java/org/truffleruby/core/hash/AtomicReferenceArray.java:49-51 | A new array of a non-negative length has that many null slots. A negative length throws NegativeArraySizeException. |
| AtomicArrays.CheckIndex | truffleruby/src/main/java/org/truffleruby/core/hash/AtomicReferenceArray.java:36-43 | The offset check passes exactly for `0 <= i < length` and otherwise throws IndexOutOfBoundsException for `i`. |
| AtomicArrays.Get | truffleruby/src/main/java/org/truffleruby/core/hash/AtomicReferenceArray.java:57-59 | `get` succeeds exactly inside the bounds and throws IndexOutOfBoundsException outside them. |
| AtomicArrays.Set | truffleruby/src/main/java/org/truffleruby/core/hash/AtomicReferenceArray.java:66-68 | `set` succeeds exactly inside the bounds, keeps the length, and throws outside them. |
| AtomicArrays.LazySet | truffleruby/src/main/java/org/truffleruby/core/hash/AtomicReferenceArray.java:70-72 | `lazySet` succeeds exactly inside the bounds and throws IndexOutOfBoundsException for `i` outside them. On success slot `i` holds `v` and every other slot is unchanged, which is the effect of `set`; only the memory ordering differs. |
| AtomicArrays.GetAndSet | truffleruby/src/main/java/org/truffleruby/core/hash/AtomicReferenceArray.java:74-77 | `getAndSet` succeeds exactly inside the bounds, returns what `get` returned and leaves what `set` leaves. |
| AtomicArrays.CompareAndSet | truffleruby/src/main/java/org/truffleruby/core/hash/AtomicReferenceArray.java:79-85 | `compareAndSet` succeeds exactly when the slot holds the expected entry, and then stores the update. Otherwise the array is unchanged. Out of bounds it throws. |
| AtomicArrays.GetAfterSet | truffleruby/src/main/java/org/truffleruby/core/hash/AtomicReferenceArray.java:57-68 | After `set(i, v)`, slot `i` reads `v` and every other index reads as before, an out-of-bounds index included. |
| AtomicArrays.GetFromNew | truffleruby/src/main/java/org/truffleruby/core/hash/AtomicReferenceArray.java:49-59 | Every slot of a new array reads null, and every index outside it throws. |
| ConcurrentHashes.NewConcurrentHash | truffleruby/src/main/java/org/truffleruby/core/hash/ConcurrentHash.java:35-39 | Construction succeeds exactly when the initial capacity is not negative; a negative one raises NegativeArraySizeException with that size. On success it adds two fresh keyless sentinels as head and tail, leaves every other entry alone, and allocates that many buckets, all empty. |
| ConcurrentHashes.BucketsReadBack | truffleruby/src/main/java/org/truffleruby/core/hash/ConcurrentHash.java:41-47 | Reading the buckets back after setting them gives what was set, and setting the buckets just read changes nothing. |
| ConcurrentHashes.SetLink | truffleruby/src/main/java/org/truffleruby/core/hash/ConcurrentEntry.java:106-140 | A link write on an entry of the heap replaces that entry with the setter's result and nothing else. It fails its assertion exactly when the entry is a removed marker and the write is a sequence link. |
| ConcurrentHashes.LinkFirstLast | truffleruby/src/main/java/org/truffleruby/core/hash/ConcurrentHash.java:22-33 | Linking keeps the set of entries. A non-null first with a null last dereferences null. When head, tail, first and last are live entries, linking succeeds exactly when first is null or last is not. |
| ConcurrentHashes.LinkFirstLastLinks | truffleruby/src/main/java/org/truffleruby/core/hash/ConcurrentHash.java:22-33 | Linking a well-formed sequence between fresh sentinels gives a doubly linked hash whose sequence is exactly that order, from head to tail. |
| ConcurrentHashes.Live | truffleruby/src/main/java/org/truffleruby/core/hash/ConcurrentHash.java:61-69 | The live entries of a walk are exactly its entries that are not removed markers. |
| ConcurrentHashes.GetFirstEntry | truffleruby/src/main/java/org/truffleruby/core/hash/ConcurrentHash.java:61-69 | The first entry returned is an entry of the heap and never a removed marker. |
| ConcurrentHashes.GetFirstOfLinked | truffleruby/src/main/java/org/truffleruby/core/hash/ConcurrentHash.java:61-69 | On a linked hash where no two removed markers are adjacent, the first entry is the first live entry after the head, the tail when there is none. |
| Lookup.FirstMatch | truffleruby/src/main/java/org/truffleruby/core/hash/ConcurrentLookupEntryNode.java:61-68 | The position returned is the first one in the chain whose entry holds the key: no entry before it matches, and the entry there matches unless the position is the chain's end. |
| Lookup.FoundIffPresent | truffleruby/src/main/java/org/truffleruby/core/hash/ConcurrentLookupEntryNode.java:61-70 | The walk stops before the chain's end exactly when some entry of the chain holds the key. |
| Lookup.DoLookup | truffleruby/src/main/java/org/truffleruby/core/hash/ConcurrentLookupEntryNode.java:50-71 | The result carries the key's hash and its bucket index, which lies within the buckets. When the key is absent the previous entry reported is the bucket's first entry; a found entry is in the heap. |
| Lookup.DoLookupFinds | truffleruby/src/main/java/org/truffleruby/core/hash/ConcurrentLookupEntryNode.java:50-71 | On a well-formed bucket chain the lookup returns the first entry holding the key with the entry before it, null for the bucket's head. When no entry holds the key it returns the bucket's head and no entry. |
| Lookup.LookupEntry | truffleruby/src/main/java/org/truffleruby/core/hash/SetNode.java:139-140 | The bucket-hash lookup reports the key's hash and an index within the buckets; a found entry is in the heap. |
| Lookup.LookupEntryFinds | truffleruby/src/main/java/org/truffleruby/core/hash/SetNode.java:139-151 | On a well-formed bucket chain the bucket-hash lookup returns the first entry holding the key and the one before it. When no entry holds the key it returns the chain's last entry, null for an empty bucket, so that an insertion links after it. |
| ConcurrentBuckets.InsertInLookup | truffleruby/src/main/java/org/truffleruby/core/hash/ConcurrentBucketsStrategy.java:147-153 | The three assertions fail exactly when the bucket head is a removed marker or the new entry or the head belongs to another bucket. Otherwise the new entry links to the expected head, and the compare-and-set installs it in the bucket exactly when the bucket still holds that head. |
| ConcurrentBuckets.InsertInLookupPrepends | truffleruby/src/main/java/org/truffleruby/core/hash/ConcurrentBucketsStrategy.java:147-153 | On well-formed chains, inserting an outside entry before the current head of its bucket succeeds and prepends it to that bucket's chain, leaving every other chain as it was. |
| ConcurrentBuckets.Walk | truffleruby/src/main/java/org/truffleruby/core/hash/ConcurrentBucketsStrategy.java:383-399 | The iterator's walk yields nothing exactly when it starts at the tail. Otherwise it yields its starting entry first, then only entries of the heap, and never the tail. |
| ConcurrentBuckets.IterateEntries | truffleruby/src/main/java/org/truffleruby/core/hash/ConcurrentBucketsStrategy.java:373-408 | Iterating the entries fails when `getFirstEntry` does. Every entry yielded is in the heap, the tail is never yielded, and the first entry yielded is the live first entry `getFirstEntry` found. |
| ConcurrentBuckets.IterateLive | truffleruby/src/main/java/org/truffleruby/core/hash/ConcurrentBucketsStrategy.java:373-408 | On a linked hash where no two removed markers are adjacent, iterating the entries yields exactly the live entries of the sequence, in order. |
| ConcurrentBuckets.KeyValues | truffleruby/src/main/java/org/truffleruby/core/hash/ConcurrentBucketsStrategy.java:347-359 | One key-value pair per entry, in order, each holding that entry's key and value. |
| ConcurrentBuckets.IterateKeyValues | truffleruby/src/main/java/org/truffleruby/core/hash/ConcurrentBucketsStrategy.java:332-367 | Iterating the key-value pairs succeeds exactly when iterating the entries does. It yields one pair per entry yielded, in order, holding that entry's key and value. |
| ConcurrentBuckets.IterateKeyValuesLive | truffleruby/src/main/java/org/truffleruby/core/hash/ConcurrentBucketsStrategy.java:332-367 | On a linked hash where no two removed markers are adjacent, iterating the key-value pairs yields those of the live entries, in sequence order. |
| ConcurrentBuckets.IteratorRemove | truffleruby/src/main/java/org/truffleruby/core/hash/ConcurrentBucketsStrategy.java:361-364 | Removing through either iterator always throws UnsupportedOperationException. |
| ConcurrentBuckets.BucketsCount | truffleruby/src/main/java/org/truffleruby/core/hash/ConcurrentBucketsStrategy.java:238 | The bucket count always lies in the range of a 32-bit Java int: the product of capacity and over-allocation factor wraps. |
| ConcurrentBuckets.Resize | truffleruby/src/main/java/org/truffleruby/core/hash/ConcurrentBucketsStrategy.java:232-250 | Resizing keeps the set of entries and the sentinels, and installs as many buckets as the bucket count for the new size. |
| ConcurrentBuckets.RehashOnlyLookup | truffleruby/src/main/java/org/truffleruby/core/hash/ConcurrentBucketsStrategy.java:241-246 | Rehashing writes only lookup links: keys, values, hashes and sequence links are all as they were. |
| ConcurrentBuckets.ResizeRehashes | truffleruby/src/main/java/org/truffleruby/core/hash/ConcurrentBucketsStrategy.java:232-250 | On a linked hash, resizing keeps the sequence and the live order. Each new bucket chains the live entries of that bucket, newest in sequence first. |
| ConcurrentBuckets.CopyInto | truffleruby/src/main/java/org/truffleruby/core/hash/ConcurrentBucketsStrategy.java:252-291 | The assertions fail when the source is not concurrent or the target is concurrent or shared. On success the target gets a bucket store of the source's bucket count and the source's size, keeps its identity flag and sharing, and no existing entry disappears. |
| ConcurrentBuckets.CopyIntoCopies | truffleruby/src/main/java/org/truffleruby/core/hash/ConcurrentBucketsStrategy.java:252-291 | On a linked source, the copy makes one fresh entry per live entry, in sequence order, holding the same hash, key and value. The new sequence links them first to last, each bucket chains its copies newest first, and entries that already existed are untouched. |
| ConcurrentBuckets.FromBuckets | truffleruby/src/main/java/org/truffleruby/core/hash/ConcurrentBucketsStrategy.java:293-330 | A promotion result without buckets dereferences null. On success the hash is concurrent with the promoted size and the same sentinels, and its bucket count is the larger of the old count and the initial capacity. |
| ConcurrentBuckets.FromBucketsRebuilds | truffleruby/src/main/java/org/truffleruby/core/hash/ConcurrentBucketsStrategy.java:293-330 | Promoting a well-formed bucket sequence succeeds. The hash is linked with one fresh entry per old entry, in order, the promoted size is kept, and iterating it yields exactly the fresh entries. |
| ConcurrentBuckets.FromBucketsCopies | truffleruby/src/main/java/org/truffleruby/core/hash/ConcurrentBucketsStrategy.java:304-325 | Each fresh entry holds the hash, key and value of the old entry at its position and is marked published. |
| ConcurrentBuckets.FromBucketsChains | truffleruby/src/main/java/org/truffleruby/core/hash/ConcurrentBucketsStrategy.java:296-325 | Each new bucket chains the fresh entries whose hash maps to it, newest first. |
| ConcurrentBuckets.FromBucketsFrame | truffleruby/src/main/java/org/truffleruby/core/hash/ConcurrentBucketsStrategy.java:293-330 | Promotion leaves every entry other than the sentinels as it was. |
| Rebuild.Rehash | truffleruby/src/main/java/org/truffleruby/core/hash/ConcurrentBucketsStrategy.java:241-246 | Rehashing keeps the set of entries and the bucket count, and leaves every entry outside the walk untouched. |
| Rebuild.RehashChains | truffleruby/src/main/java/org/truffleruby/core/hash/ConcurrentBucketsStrategy.java:241-246 | Prepending each entry to the chain of its bucket grows every chain by the entries of that bucket, in reverse order of the walk. |
| Rebuild.Build | truffleruby/src/main/java/org/truffleruby/core/hash/ConcurrentBucketsStrategy.java:299-325 | Building adds exactly the fresh entries and keeps the bucket count. The last entry becomes the last fresh one. The first entry becomes the first fresh one unless there already was a first entry. |
| Rebuild.BuildChains | truffleruby/src/main/java/org/truffleruby/core/hash/ConcurrentBucketsStrategy.java:304-325 | Building fresh entries from items grows every bucket chain by the new entries of that bucket, newest first. |
| Rebuild.BuildSequence | truffleruby/src/main/java/org/truffleruby/core/hash/ConcurrentBucketsStrategy.java:304-325 | Building appends the fresh entries to the sequence, in the order of the items. |
| Rebuild.BuildItems | truffleruby/src/main/java/org/truffleruby/core/hash/ConcurrentBucketsStrategy.java:304-325 | Each fresh entry holds its item, and the existing entries keep theirs. |
| Rebuild.BuildFresh | truffleruby/src/main/java/org/truffleruby/core/hash/ConcurrentBucketsStrategy.java:296-325 | From empty buckets, building yields a sequence of exactly the fresh entries holding the items in order, and bucket chains holding each bucket's entries, newest first. |
| Rebuild.BuildKeepsOld | truffleruby/src/main/java/org/truffleruby/core/hash/ConcurrentBucketsStrategy.java:304-325 | Building changes no existing entry except the old last one, whose sequence link it writes. |
| PackedSets.PackedFind | truffleruby/src/main/java/org/truffleruby/core/hash/SetNode.java:96-110 | The scan stops at the first packed item holding the key: no item before it matches, and the item there matches unless the scan ran past the end. |
| PackedSets.ScanPacked | truffleruby/src/main/java/org/truffleruby/core/hash/SetNode.java:96-110 | The loop over the packed slots finds the same position as the first-match definition. |
| PackedSets.SetNull | truffleruby/src/main/java/org/truffleruby/core/hash/SetNode.java:61-79 | Setting a key in a hash with no store always stores and returns the value. The hash gets a packed store of exactly that one item, size 1, null sequence ends, and keeps its identity flag and sharing. |
| PackedSets.SetNullStores | truffleruby/src/main/java/org/truffleruby/core/hash/SetNode.java:61-79 | After setting a key in an empty hash, the packed store is well formed and looking the key up yields the value. |
| PackedSets.SetPackedArray | truffleruby/src/main/java/org/truffleruby/core/hash/SetNode.java:81-126 | A packed set fails its assertion exactly when the store is malformed, and a stored result is well formed again. A promotion hands over all the packed items, which fill the store, together with the new item, and leaves the hash as it was. A plain set returns the value. |
| PackedSets.SetPackedFound | truffleruby/src/main/java/org/truffleruby/core/hash/SetNode.java:96-108 | When the key is present, an only-if-absent set returns the value found and changes nothing. Otherwise the set keeps the size, makes the key map to the new value, and leaves every other key's value alone. |
| PackedSets.SetPackedAppends | truffleruby/src/main/java/org/truffleruby/core/hash/SetNode.java:112-117 | When the key is absent and the store has room, the item is appended and the size grows by one. The key then maps to the value, and every key the new item does not match keeps its value. |
| PackedSets.SetPackedPromotes | truffleruby/src/main/java/org/truffleruby/core/hash/SetNode.java:112-121 | When the key is absent and the store is full, the set promotes to buckets, carrying all packed items and the new item. |
| PackedSets.FindAfterAppend | truffleruby/src/main/java/org/truffleruby/core/hash/SetNode.java:96-117 | Appending an item moves no earlier match. An absent key is found at the new item exactly when that item matches it. |
| BucketSets.SetBuckets | truffleruby/src/main/java/org/truffleruby/core/hash/SetNode.java:128-184 | A bucket set adds at most the new entry and keeps the bucket count, the identity flag and sharing. An insertion grows the size by one (as a Java int) and returns the value. A found key leaves the hash and asks for no resize. A plain set returns the value. |
| BucketSets.Found | truffleruby/src/main/java/org/truffleruby/core/hash/SetNode.java:173-179 | On a found entry, an only-if-absent set returns its value and changes nothing. Otherwise it writes the value into that entry alone. |
| BucketSets.Insert | truffleruby/src/main/java/org/truffleruby/core/hash/SetNode.java:142-166 | An insertion adds exactly the new entry, which becomes the last in sequence, grows the size by one and returns the value. |
| BucketSets.LinkInBucket | truffleruby/src/main/java/org/truffleruby/core/hash/SetNode.java:147-151 | With no previous entry the new entry becomes the bucket's head, failing outside the buckets. Otherwise the previous entry's lookup link points at the new entry and the buckets stay. No other entry changes. |
| BucketSets.AppendInSequence | truffleruby/src/main/java/org/truffleruby/core/hash/SetNode.java:153-162 | With no last entry the new entry becomes the first. Otherwise the last entry's sequence link points at the new entry, the new entry's previous link at the last entry, and the first entry stays. No other entry changes. |
| BucketSets.LinkInBucketExtends | truffleruby/src/main/java/org/truffleruby/core/hash/SetNode.java:147-151 | Linking a new entry after the last entry of its bucket's chain, or as the head of an empty bucket, appends it to that chain and to no other. Items and sequence links are untouched. |
| BucketSets.AppendInSequenceExtends | truffleruby/src/main/java/org/truffleruby/core/hash/SetNode.java:153-162 | Appending a new entry to a well-formed sequence extends the sequence by that entry, leaving items and lookup links untouched. |
| BucketSets.SetBucketsInserts | truffleruby/src/main/java/org/truffleruby/core/hash/SetNode.java:139-162 | When no entry of the bucket holds the key, the set inserts after the last entry of the bucket's chain. |
| BucketSets.InsertLinks | truffleruby/src/main/java/org/truffleruby/core/hash/SetNode.java:142-166 | On well-formed chains and sequence, an insertion appends the new entry, holding the item, to its bucket's chain and to the sequence, and every old entry keeps its item. |
| BucketSets.SetBucketsFound | truffleruby/src/main/java/org/truffleruby/core/hash/SetNode.java:139-179 | When the bucket holds the key, the set acts on the first entry holding it: an only-if-absent set returns its value, a plain set writes the value into it, and neither changes the hash or asks for a resize. |
| BucketSets.ValueWriteKeeps | truffleruby/src/main/java/org/truffleruby/core/hash/SetNode.java:177 | Writing a value keeps the bucket chains and the sequence well formed and changes no other entry. |
| ConcurrentSets.SpliceBeforeSentinel | truffleruby/src/main/java/org/truffleruby/core/hash/SetNode.java:232-240 | The splice keeps the set of entries and every entry's item and lookup link, and a null sentinel dereferences null. |
| ConcurrentSets.SpliceAppends | truffleruby/src/main/java/org/truffleruby/core/hash/SetNode.java:232-240 | On a linked hash, splicing a new entry that points at the tail, when the entry before the tail is live, links the sequence through the new entry just before the tail. It writes sequence links only. |
| ConcurrentSets.InsertedEntry | truffleruby/src/main/java/org/truffleruby/core/hash/SetNode.java:212-214 | The new entry holds the key's hash, key and value, is neither a marker nor published, points its lookup link at the bucket head and its sequence link at the sentinel, and has no predecessor. |
| ConcurrentSets.LinkNew | truffleruby/src/main/java/org/truffleruby/core/hash/SetNode.java:210-240 | The insertion's links fail unless the bucket still holds the head read by the lookup. Then a null sentinel dereferences null. On success the new entry heads the bucket, holds the item, links to the old head, and is the only entry added. |
| ConcurrentSets.Grow | truffleruby/src/main/java/org/truffleruby/core/hash/SetNode.java:242-269 | Growth keeps the entries, returns the value, and grows the size by one as a Java int, keeping the sentinels, the identity flag and sharing. Below the load threshold it only installs the buckets and the size. |
| ConcurrentSets.GrowResizes | truffleruby/src/main/java/org/truffleruby/core/hash/SetNode.java:247-269 | Above the load threshold, growth installs the result of resizing to the new size. |
| ConcurrentSets.Insert | truffleruby/src/main/java/org/truffleruby/core/hash/SetNode.java:207-269 | An insertion adds exactly the new entry, returns the value, and grows the size by one. |
| ConcurrentSets.Found | truffleruby/src/main/java/org/truffleruby/core/hash/SetNode.java:270-279 | On a found entry, an only-if-absent set returns its value and changes nothing. Otherwise it writes the value into that entry alone. |
| ConcurrentSets.SetConcurrent | truffleruby/src/main/java/org/truffleruby/core/hash/SetNode.java:186-284 | Corrected (the splice goes before the store's tail sentinel, not the hash's own last entry read at line 211): a concurrent set keeps the hash concurrent with the same sentinels, adds at most the new entry, keeps the identity flag and sharing, and a plain set returns the value. |
| ConcurrentSets.SetConcurrentInserts | truffleruby/src/main/java/org/truffleruby/core/hash/SetNode.java:204-214 | Corrected: when no entry of the bucket holds the key, the set inserts before the bucket head and splices before the store's tail sentinel. |
| ConcurrentSets.SetConcurrentFound | truffleruby/src/main/java/org/truffleruby/core/hash/SetNode.java:204-207 | Corrected, and as written too, since the found path does not read the sentinel: when the bucket holds the key, the set acts on the first entry holding it. |
| ConcurrentSets.InsertWithoutResize | truffleruby/src/main/java/org/truffleruby/core/hash/SetNode.java:207-258 | Corrected (splicing before the store's tail sentinel): below the load threshold an insertion succeeds. It returns the value, grows the size by one, and prepends the entry holding the item to its bucket's chain. It also appends the entry to the sequence, and every old entry keeps its item. |
| ConcurrentSets.InsertWithResize | truffleruby/src/main/java/org/truffleruby/core/hash/SetNode.java:207-269 | Corrected (splicing before the store's tail sentinel): above the load threshold an insertion succeeds and appends the new entry to the sequence. The hash ends with as many buckets as the bucket count for the new size, and every entry keeps its item. |
| ConcurrentSets.ResizeKeeps | truffleruby/src/main/java/org/truffleruby/core/hash/ConcurrentBucketsStrategy.java:232-250 | Resizing a linked hash keeps the sequence, the entries and their items, and installs the bucket count for the new size. |
| ConcurrentSets.ValueWriteKeeps | truffleruby/src/main/java/org/truffleruby/core/hash/SetNode.java:277 | Writing a value keeps the sequence and the bucket chains well formed. |
| ConcurrentSets.SetConcurrentAsWritten | truffleruby/src/main/java/org/truffleruby/core/hash/SetNode.java:186-284 | As written, with the sentinel read from the hash's own last entry (line 211): a set keeps the hash concurrent with the same sentinels, adds at most the new entry, keeps the identity flag and sharing, and a plain set returns the value. This is the form `SetNodes.Set` runs. |
| ConcurrentSets.AsWrittenDereferencesNullLast | truffleruby/src/main/java/org/truffleruby/core/hash/SetNode.java:211-236 | When the hash's own last entry is null, the insertion as written dereferences null where the corrected one succeeds. |
| ConcurrentSets.AsWrittenAgreesWithTailLast | truffleruby/src/main/java/org/truffleruby/core/hash/SetNode.java:204-214 | When the hash's own last entry is the store's tail sentinel, the set as written is the corrected one. |
| Promotions.Empty | truffleruby/src/main/java/org/truffleruby/core/hash/BucketsPromotionResult.java:25-27 | The empty promotion has 268 empty buckets, size 0 and null sequence ends. |
| Promotions.FromBucketHash | truffleruby/src/main/java/org/truffleruby/core/hash/BucketsPromotionResult.java:29-32 | Reading a promotion fails the cast exactly when the store is packed or concurrent. Otherwise it carries the hash's size and sequence ends, and buckets exactly when the store is a bucket array. |
| Promotions.Apply | truffleruby/src/main/java/org/truffleruby/core/hash/BucketsPromotionResult.java:57-64 | Applying fails its assertion exactly when the hash is concurrent. Otherwise it installs the size and sequence ends, keeping the identity flag and sharing, and leaves a non-packed, non-concurrent store. |
| Promotions.ApplyFromBucketHash | truffleruby/src/main/java/org/truffleruby/core/hash/BucketsPromotionResult.java:29-64 | Reading a bucket or empty hash's promotion and applying it to the same hash gives back that hash. |
| Promotions.FromBucketHashApply | truffleruby/src/main/java/org/truffleruby/core/hash/BucketsPromotionResult.java:29-64 | Applying a promotion to a non-concurrent hash and reading it back gives back the promotion. |
| Promotions.ApplyConcurrent | truffleruby/src/main/java/org/truffleruby/core/hash/BucketsPromotionResult.java:66-69 | Applying concurrently fails its assertion when the hash is not shared, and dereferences null without buckets. On success the hash is concurrent with the promoted size. |
| Promotions.ApplyConcurrentRebuilds | truffleruby/src/main/java/org/truffleruby/core/hash/BucketsPromotionResult.java:66-69 | Applying a well-formed promotion to a shared concurrent hash succeeds. The hash is linked with one fresh entry per old entry, its iteration yields exactly those, and the size is kept. |
| Promotions.EmptyPromotesToEmpty | truffleruby/src/main/java/org/truffleruby/core/hash/BucketsPromotionResult.java:25-27 | Applying the empty promotion concurrently yields an empty linked hash of size 0 with the larger of 268 buckets and the initial capacity. |
| SetNodes.Set | truffleruby/src/main/java/org/truffleruby/core/hash/SetNode.java:59-284 | Each store shape takes its own specialization. An empty hash is always set. A packed set succeeds exactly when the store is well formed. A plain set returns the value, and the identity flag and sharing are kept. |
| RandomGenerator.InitialScramble | bench/random.rb:19-21 | The scrambled seed is a 48-bit number: the seed xored with the multiplier, reduced modulo 2^48, for negative seeds too. |
| RandomGenerator.MaskIsLow48 | bench/random.rb:5 | Masking with `(1 << 48) - 1` is reduction modulo 2^48, for negative numbers too. |
| RandomGenerator.NextUniquifier | bench/random.rb:15-17 | The uniquifier answered is the old uniquifier times 181783497276652981, with no wrap-around since Ruby integers are unbounded. It is also the one stored afterwards, and nothing else changes. |
| RandomGenerator.NewRandom | bench/random.rb:9-13 | A new generator has a 48-bit seed and no pending Gaussian. With a seed it holds the scrambled seed and the initial uniquifier. Without one it advances the uniquifier once and holds it xored with the clock's nanoseconds, modulo 2^48. |
| RandomGenerator.SetSeed | bench/random.rb:23-26 | Setting the seed stores the scrambled seed and clears the pending Gaussian; the uniquifier is kept. |
| RandomGenerator.ScrambleTwice | bench/random.rb:19-21 | Scrambling twice gives back the low 48 bits of the seed, so the scramble is its own inverse on 48-bit seeds. |
| RandomGenerator.Lcg | bench/random.rb:31 | One step of the generator always gives a 48-bit seed. |
| RandomGenerator.Rand | bench/random.rb:28-34 | A draw steps the seed once and changes nothing else. For 0 to 48 bits it answers the top `bits` bits of the new seed, a number below 2^bits. |
| RandomGenerator.Reject | bench/random.rb:44-48 | When the rejection loop ends, its answer lies within the bound: from 0 up to a positive bound, or from a negative bound up to 0. It only runs out of fuel otherwise. |
| RandomGenerator.NextInt | bench/random.rb:36-50 | Without a bound the answer is a 32-bit draw. With a negative bound, an answer lies between the bound and 0. |
| RandomGenerator.NextIntBounded | bench/random.rb:36-50 | With a non-negative bound the call always answers after exactly one 31-bit draw `u`. For a power of two `b` it answers `(b * u) >> 31`, otherwise `u % b`. The answer is below a positive bound, and 0 for bound 0. |
| RandomGenerator.RejectOnce | bench/random.rb:45 | With a positive bound and a non-negative draw the rejection test never holds: the loop answers the first remainder without drawing again. |
| RandomGenerator.NextLong | bench/random.rb:52-54 | `nextLong` consumes exactly two 32-bit draws. |
| RandomGenerator.NextLongHalves | bench/random.rb:52-54 | The answer is a 64-bit number whose high 32 bits are the first draw and whose low 32 bits are the second. |
| RandomGenerator.DrawsFromSeed | bench/random.rb:28-37 | The i-th unbounded draw is the top 32 bits of the seed after i + 1 steps, so the draws depend on the seed alone. |
| RandomGenerator.SetSeedRestarts | bench/random.rb:9-26 | After setting a seed, a generator draws the same numbers as a new generator created with that seed, whatever its earlier state. |
| RubyInteger.And | bench/random.rb:20 | The bitwise and is negative exactly when both operands are, and is at most each non-negative operand. |
| RubyInteger.Xor | bench/random.rb:20 | The bitwise xor is negative exactly when the operands' signs differ. |
| RubyInteger.Shr | bench/random.rb:33 | A right shift of a non-negative number by a non-negative count is non-negative, and a non-positive count shifts left, multiplying by a power of two. |
| RubyInteger.FloorMod | bench/random.rb:45 | The remainder takes the sign of the divisor: within `[0, b)` for a positive divisor and `(b, 0]` for a negative one. |
| RubyInteger.FloorModResidue | bench/random.rb:45 | The remainder differs from the dividend by a multiple of the divisor. |
| RubyInteger.AndMask | bench/random.rb:5-20 | Masking with `2^n - 1` keeps the low n bits: it is the remainder modulo 2^n, for negative numbers too. |
| RubyInteger.XorInvolution | bench/random.rb:20 | Xoring twice with the same number gives back the original. |
| RubyInteger.XorLowBits | bench/random.rb:20 | The low n bits of an xor depend only on the low n bits of the operands. |
| RubyInteger.PowerOfTwoTest | bench/random.rb:41 | For a positive bound, `b & (b - 1) == 0` holds exactly when `b` is a power of two. It also holds for 0 and never for a negative number. |

## Left out

- Lock protocols: the layout locks, biased, reentrant, stamped and custom locks, and their start-write, layout-change and accessor nodes are not modelled. Each lock-protected section is one atomic step.
- Compare-and-set retry loops and dirty-flag retries are concurrent by design. This covers the retry in `ConcurrentLookupEntryNode.lookup` (lines 37-45) and the dirty-flag loop of `setConcurrent` (lines 248-256). The re-entry of `setConcurrent` after a lost bucket compare-and-set (lines 225-229) and a lost splice are `Stuck`, because one thread alone never takes them.
- `appendInSequence`, `removeFromSequence`, `removeFirstFromSequence`, `removeFromLookup` and `searchPreviousLookupEntry` of `ConcurrentBucketsStrategy` are lock-free algorithms whose correctness is about interleavings. They are not modelled.
- The stderr prints in `resize` and `searchPreviousLookupEntry` are I/O and are dropped.
- `getAdjacentObjects` of `ConcurrentArray` and `ConcurrentHash` feeds the object graph walk of the sharing machinery, which is not part of this model.
- The Unsafe-based size and compare-by-identity accessors of `ConcurrentHash` are modelled as plain fields of the hash. `ConcurrentHash.java` declares neither `compareAndSetSize` nor the static `getFirstEntry(hash)`, `getLastInSequence(hash)` and `linkFirstLast(hash, first, last)` that `ConcurrentBucketsStrategy` calls (lines 329, 334-335 and 375-376). The model takes them as the size field, `getFirstEntry` of the store, the store's tail sentinel, and the store's own `linkFirstLast`. `SetNode.java` line 211 reads the hash's last-in-sequence field instead, which `ConcurrentSets.SetConcurrentAsWritten` follows.
- The write barriers, the freezing of string keys and `HashOperations.verifyStore` are not part of this model, and neither are their asserts. The one store check the model does make is `PackedSets.PackedShape`, the shape of a packed store that the assert at `SetNode.java` line 87 relies on.
- `HashConfig`: bucket index, capacity, key hashing and equality, `INITIAL_CAPACITY`, `OVERALLOCATE_FACTOR` and `HASH_PACKED_ARRAY_MAX` are parameters. They carry only the bounds the callers rely on.
- BucketSets.OverLoaded: the load-factor test of `setBuckets` (`SetNode.java` line 170) divides Java doubles, and the model compares exact reals, so a quotient within rounding of the load factor may be judged differently. The model returns a `resize` flag and does not perform the bucket hash's own `BucketsStrategy.resize`, which is not part of this model.
- Lookup.LookupEntry: the bucket hash's `LookupEntryNode` is not part of this model. Its result for an absent key, the last entry of the chain, is inferred from the way `setBuckets` links a new entry after it (`SetNode.java` lines 147-151).
- `PackedArrayStrategy.promoteToBuckets` and `BucketsStrategy.addNewEntry` are not part of this model. A full packed hash returns its items and the new item as a `Promoted` outcome.
- `ArrayStrategy.of` has no branch for `FastAppendArray` or `FastLayoutLockArray`, and the LayoutLock `wrap` calls a constructor that `ConcurrentArray.java` does not declare. The model follows `of` as written and builds the LayoutLock wrapper without a lock.
- The cast of the store to `FastAppendArray` at `ConcurrentArrayAppendOneNode.java` line 61 can never succeed for a store `of` classifies. `AppendOne.AppendOneNode` models it, and the other append members describe the code past that cast.
- `ArrayMirror`, `capacityForOneMore` and `ArrayOperations.normalizeIndex` are not part of this model. They are modelled as follows:
  - The mirror is a `seq` of slots.
  - Its `copyTo` is modelled as one `set` per slot of the destination. That `set` stores an Integer as the equal long in a long[] and raises ClassCastException for any other value the destination's kind cannot hold (`AppendOne.CopyTo`).
  - `capacityForOneMore` is a parameter that grows the capacity.
  - `normalizeIndex` adds the size to a negative index.
- Partial effects before an exception are not kept. A `Raise` carries no state, so the size increment before a failing append is discarded.
- Java's 32-bit `int` is modelled where these sums and products can overflow:
  - in the hash: the hash size, the bucket count and the resize test;
  - in the append node: `newSize = size + 1` of the generalizing slow path;
  - in the range form of `[]=` as written: `end - 1` and the range length `inclusiveEnd - start + 1`;
  - in the append experiment: the doubled store length and the size increment.

  Other indices and sizes are unbounded integers.
- IndexSet.SetOtherArray: the sums `start + length`, `start + replacementSize` and `endOfReplacementInArray + tailSize` are unbounded integers (`ConcurrentArrayIndexSetNode.java` lines 98-101 and 140-144). Java wraps them once they pass 2^31 - 1. A large start, length or replacement size gets there. So does a range ending at INT_MAX from a start above 0, whose length makes `start + length` exactly 2^31 (`a[1..2147483647] = [9]`). The model does not follow that wrap-around.
- ConcurrentArray.GetSizeAndIncrement: states the old size only when it is within the `int` range, because the cast of the wrapped-around size is not followed further.
- ArrayGuards.IsEmptyArray is a predicate, `size == 0`, with no contract of its own.
- `isConcurrent`, `newMirror` and `createWriteBarrier` of the array strategies are not modelled. They are reflective helpers of the sharing machinery.
- `ArrayEachNode`, the array sync nodes and the linked-list experiments are not part of this model.
- RandomGenerator: the floating-point methods `nextFloat`, `nextDouble` and `nextGaussian`, and the field `@nextNextGaussian`, are not modelled. The second `nextFloat` and `nextDouble` also call an undefined `next_`.
- RandomGenerator.NewRandom: the clock's nanoseconds are a parameter.
- RandomGenerator.Reject: the rejection loop of `next_int` runs on fuel and is `Stuck` when the fuel runs out. The loop ends at once for any bound of at least one (`RejectOnce`), so this only limits negative bounds.
- RandomGenerator.NextInt: for a negative bound only the range of an answer is stated. The loop's draws are not followed.
- ConcurrentSets.SetConcurrent: splices before the store's tail sentinel, where `SetNode.java` line 211 reads the hash's own last-in-sequence field. It is the corrected form. `SetNodes.Set` runs `ConcurrentSets.SetConcurrentAsWritten`, of which only the frame is stated (sentinels, entries added, identity flag, sharing, value returned). The insertion into the bucket chain and the sequence is proved of the corrected form only (`SetConcurrentInserts`, `InsertWithoutResize`, `InsertWithResize`).
- AppendExperiment.PopUndoesAppend and AppendExperiment.AppendKeepsPrefix: speak of a successful append only. The append of a full store of more than 2^30 slots throws, as `AppendExperiment.Append` states.
- The walks over a heap run on fuel equal to the heap's size. A cyclic sequence or chain is `Stuck` rather than a loop that never ends.

## Findings

| source | as written | input that shows it | evidently intended | confidence | as-written member | corrected member |
|---|---|---|---|---|---|---|
| truffleruby/src/main/java/org/truffleruby/core/array/ConcurrentArrayIndexSetNode.java:74-83 | The same-length slice assignment copies the replacement element by element from the live array, so an array assigned into itself reads elements it has already overwritten. | `a = [1,2,3]; a[1,3] = a` gives `[1,1,1,1]` | `[1,1,2,3]`, as Ruby's slice assignment and the general case give | not executed; high | IndexSet.SelfAssignmentAsWrittenReadsOverwrittenElements | IndexSet.SetSameLengthIsSplice |
| truffleruby/src/main/java/org/truffleruby/core/array/ConcurrentArrayIndexSetNode.java:70-83 | An empty replacement with length 0 takes the same-length path, which writes nothing, even past the end of the array. | `a = [1,2,3]; a[5,0] = []` gives `[1,2,3]` | `[1,2,3,nil,nil]`, the nil padding the general case applies (lines 129-138) | not executed; high | IndexSet.EmptySameLengthAsWrittenDoesNotPad | IndexSet.SetSameLengthIsSplice |
| truffleruby/src/main/java/org/truffleruby/core/array/ConcurrentArrayAppendOneNode.java:106-137 | Appending an Integer to a `long[]` store generalizes long with int to long, which does not accept an Integer. So `strategyChanged` recomputes the same strategies and recurses. The recursion is latent: the cast at line 61 (the next row) throws first, so it shows only once that cast is fixed. | with the cast at line 61 fixed, `a` with a `long[]` store, `a << 1` (an Integer) gives StackOverflowError | the Integer stored as the equal Long | not executed; latent behind line 61 | AppendOne.IntegerIntoLongOverflows | AppendOne.AppendOneAppends |
| truffleruby/src/main/java/org/truffleruby/core/array/ConcurrentArrayAppendOneNode.java:60-61 | The specialization takes its lock by casting the store field to `FastAppendArray`. No store that `strategy.matches(array)` admits is one, because `ArrayStrategy.of` has no strategy for it. | any append that reaches the specialization, on any store `of` classifies, gives ClassCastException (NullPointerException for a null store) | the lock of the store's own wrapper, or a `FastAppendArray` strategy | not executed; medium | AppendOne.AppendCastFails | AppendOne.AppendOneAppends |
| truffleruby/src/main/java/org/truffleruby/core/hash/SetNode.java:211-236 | `setConcurrent` takes the sentinel to splice before from the hash object's own last-in-sequence field. A concurrent hash keeps its tail sentinel in its store, and `fromBuckets` never writes that field. | a concurrent hash whose last-in-sequence field is null, setting an absent key, dereferences null | splicing before the store's tail sentinel, as `iterateEntries` expects | not executed; medium | ConcurrentSets.AsWrittenDereferencesNullLast | ConcurrentSets.InsertWithoutResize |
| truffleruby/src/main/java/org/truffleruby/core/array/ConcurrentArrayIndexSetNode.java:171-178 | The range length `inclusiveEnd - start + 1` is a Java int. A range from 0 to an inclusive end of INT_MAX makes it 2^31, which wraps to INT_MIN. Line 177 then clamps it to 0, so the value is inserted before the elements instead of replacing them. | `a = [1,2,3]; a[0..2147483647] = [9]` gives `[9,1,2,3]` | `[9]`, as Ruby's range assignment gives | not executed; high | IndexSet.RangeToIntMaxAsWrittenInserts | IndexSet.SetRangeIsSlice |
