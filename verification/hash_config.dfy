/** The helpers of the hash code that this model does not define, as parameters carrying only
    the bounds their callers rely on: the bucket index of a hash for a bucket count, the
    capacity chosen for a size, key hashing and key equality, and four tuning constants. */
module HashConfig {
  import opened Values

  datatype Config = Config(
    /** `BucketsStrategy.getBucketIndex(hashed, bucketsCount)`. */
    bucketIndex: (int, int) -> int,
    /** `BucketsStrategy.capacityGreaterThan(size)`. */
    capacityGreaterThan: int -> int,
    /** The hash of a key, by identity or not. */
    hashKey: (Value, bool) -> int,
    /** `equalKeys(compareByIdentity, key, hashed, otherKey, otherHashed)`. */
    equalKeys: (bool, Value, int, Value, int) -> bool,
    /** `BucketsStrategy.INITIAL_CAPACITY`. */
    initialCapacity: int,
    /** `BucketsStrategy.OVERALLOCATE_FACTOR`. */
    overallocateFactor: int,
    /** The `HASH_PACKED_ARRAY_MAX` option. */
    packedArrayMax: int,
    /** `BucketsStrategy.LOAD_FACTOR`. */
    loadFactor: real)

  /** A bucket index lies inside the buckets (the assertion of `insertInLookup`); a capacity
      exceeds the size asked for; the constants are positive. */
  ghost predicate Valid(c: Config) {
    (forall h, n {:trigger c.bucketIndex(h, n)} :: n > 0 ==> 0 <= c.bucketIndex(h, n) < n)
    && (forall n {:trigger c.capacityGreaterThan(n)} :: c.capacityGreaterThan(n) > n)
    && c.initialCapacity > 0 && c.overallocateFactor > 0 && c.packedArrayMax > 0
  }
}
