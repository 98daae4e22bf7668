/** The integer part of the benchmark's random number generator: the 48-bit linear
    congruential generator of `java.util.Random` (Knuth, The Art of Computer Programming,
    Vol. 2, section 3.2.1), written with Ruby's unbounded integers. */
module RandomGenerator {
  import opened Values
  import opened RubyInteger

  const MULTIPLIER: int := 0x5DEECE66D
  const ADDEND: int := 0xB
  const TWO_48: int := 0x1_0000_0000_0000
  const TWO_64: int := 0x1_0000_0000_0000_0000
  /** `(1 << 48) - 1`. */
  const MASK: int := TWO_48 - 1
  /** The value `initialize` stores in `@seedUniquifier`. */
  const SEED_UNIQUIFIER: int := 8682522807148012
  /** The factor `seedUniquifier` multiplies it by. */
  const UNIQUIFIER_MULTIPLIER: int := 181783497276652981

  /** A generator. Its `@nextNextGaussian` is a float and is not part of this model. */
  datatype Random = Random(seed: int, seedUniquifier: int, haveNextNextGaussian: bool)

  lemma MaskIsLow48(x: int)
    ensures And(x, MASK) == x % TWO_48
  {
    Pow2Constants();
    AndMask(x, 48);
  }

  /** `initialScramble`: the seed xored with the multiplier, reduced to 48 bits. */
  function InitialScramble(seed: int): (r: int)
    ensures 0 <= r < TWO_48
    ensures r == Xor(seed, MULTIPLIER) % TWO_48
  {
    MaskIsLow48(Xor(seed, MULTIPLIER));
    And(Xor(seed, MULTIPLIER), MASK)
  }

  /** `seedUniquifier`: multiplies the stored uniquifier and answers the product. */
  function NextUniquifier(g: Random): (r: (int, Random))
    ensures r.0 == g.seedUniquifier * UNIQUIFIER_MULTIPLIER
    ensures r.1 == g.(seedUniquifier := r.0)
  {
    var u := g.seedUniquifier * UNIQUIFIER_MULTIPLIER;
    (u, g.(seedUniquifier := u))
  }

  /** `initialize(seed)`. Without a seed, the uniquifier is advanced and xored with the
      nanoseconds of the clock, which the caller passes as `nsec`. */
  function NewRandom(seed: Option<int>, nsec: int): (r: Random)
    ensures 0 <= r.seed < TWO_48 && !r.haveNextNextGaussian
    ensures seed.Some? ==> r.seed == InitialScramble(seed.value) && r.seedUniquifier == SEED_UNIQUIFIER
    ensures seed.None? ==> r.seed == Xor(SEED_UNIQUIFIER * UNIQUIFIER_MULTIPLIER, nsec) % TWO_48
                           && r.seedUniquifier == SEED_UNIQUIFIER * UNIQUIFIER_MULTIPLIER
  {
    var g := Random(0, SEED_UNIQUIFIER, false);
    match seed
    case Some(s) => g.(seed := InitialScramble(s))
    case None =>
      var (u, g') := NextUniquifier(g);
      MaskIsLow48(Xor(u, nsec));
      g'.(seed := And(Xor(u, nsec), MASK))
  }

  /** `setSeed`. */
  function SetSeed(g: Random, seed: int): (r: Random)
    ensures r.seed == InitialScramble(seed) && !r.haveNextNextGaussian && r.seedUniquifier == g.seedUniquifier
  {
    g.(seed := InitialScramble(seed), haveNextNextGaussian := false)
  }

  /** One step of the generator on a seed: `(seed * MULTIPLIER + ADDEND) mod 2^48`. */
  function Lcg(seed: int): (r: int)
    ensures 0 <= r < TWO_48
  {
    (seed * MULTIPLIER + ADDEND) % TWO_48
  }

  /** `rand(bits)`: steps the seed and answers its top `bits` bits. */
  function Rand(g: Random, bits: int): (r: (int, Random))
    ensures r.1 == g.(seed := Lcg(g.seed))
    ensures 0 <= bits <= 48 ==> 0 <= r.0 < Pow2(bits) && r.0 == Lcg(g.seed) / Pow2(48 - bits)
  {
    MaskIsLow48(g.seed * MULTIPLIER + ADDEND);
    var next := And(g.seed * MULTIPLIER + ADDEND, MASK);
    if 0 <= bits <= 48 then
      TopBits(next, bits);
      (Shr(next, 48 - bits), g.(seed := next))
    else
      (Shr(next, 48 - bits), g.(seed := next))
  }

  /** The top `bits` of a 48-bit number are below `2^bits`. */
  lemma TopBits(x: int, bits: int)
    requires 0 <= x < TWO_48 && 0 <= bits <= 48
    ensures 0 <= Shr(x, 48 - bits) < Pow2(bits) && Shr(x, 48 - bits) == x / Pow2(48 - bits)
  {
    Pow2Add(48 - bits, bits);
    Pow2Constants();
    DivBelow(x, Pow2(48 - bits), Pow2(bits));
  }

  /** The rejection loop of `next_int`: `u` is the latest draw, and the loop draws again
      while `u - u % bound + bound - 1` is negative. The loop ends with probability 1 but not
      surely, so it runs on `fuel`. */
  function Reject(g: Random, u: int, bound: int, fuel: nat): (r: Result<(int, Random)>)
    requires bound != 0
    ensures r.Ok? && bound > 0 ==> 0 <= r.value.0 < bound
    ensures r.Ok? && bound < 0 ==> bound < r.value.0 <= 0
    ensures r.Raise? ==> r.exception == Stuck
    decreases fuel
  {
    var m := FloorMod(u, bound);
    if u - m + (bound - 1) < 0 then
      if fuel == 0 then Raise(Stuck)
      else
        var (u', g') := Rand(g, 31);
        Reject(g', u', bound, fuel - 1)
    else Ok((m, g))
  }

  /** `next_int(bound)`. */
  function NextInt(g: Random, bound: Option<int>, fuel: nat): (r: Result<(int, Random)>)
    ensures bound.None? ==> r.Ok? && 0 <= r.value.0 < Pow2(32)
    ensures r.Ok? && bound.Some? && bound.value < 0 ==> bound.value < r.value.0 <= 0
  {
    match bound
    case None => Ok(Rand(g, 32))
    case Some(b) =>
      var (r, g') := Rand(g, 31);
      if And(b, b - 1) == 0 then Ok((Shr(b * r, 31), g'))
      else
        PowerOfTwoTest(b);
        Reject(g', r, b, fuel)
  }

  /** `nextLong`: two draws of 32 bits, the first shifted above the second. */
  function NextLong(g: Random): (r: (int, Random))
    ensures r.1 == Rand(Rand(g, 32).1, 32).1
  {
    var (hi, g1) := Rand(g, 32);
    var (lo, g2) := Rand(g1, 32);
    (Shl(hi, 32) + lo, g2)
  }

  // ---------------------------------------------------------------------------------------
  // Properties
  // ---------------------------------------------------------------------------------------

  /** Scrambling twice gives back the low 48 bits of the seed: the scramble is its own
      inverse on seeds below `2^48`. */
  lemma ScrambleTwice(s: int)
    ensures InitialScramble(InitialScramble(s)) == s % TWO_48
  {
    var a := Xor(s, MULTIPLIER) % TWO_48;
    Pow2Constants();
    XorLowBits(a, MULTIPLIER, 48);
    XorLowBits(Xor(s, MULTIPLIER), MULTIPLIER, 48);
    XorInvolution(s, MULTIPLIER);
  }

  /** `next_int` with a positive bound draws once and answers a number below the bound: the
      top bits of the product for a power of two, the remainder otherwise. Bound 0 answers 0. */
  lemma NextIntBounded(g: Random, b: int, fuel: nat)
    requires b >= 0
    ensures var r := NextInt(g, Some(b), fuel);
      var (u, g') := Rand(g, 31);
      r.Ok? && r.value.1 == g'
      && (b > 0 ==> 0 <= r.value.0 < b)
      && (IsPowerOfTwo(b) ==> r.value.0 == (b * u) / Pow2(31))
      && (b > 0 && !IsPowerOfTwo(b) ==> r.value.0 == u % b)
      && (b == 0 ==> r.value.0 == 0)
  {
    var (u, g') := Rand(g, 31);
    PowerOfTwoTest(b);
    if IsPowerOfTwo(b) {
      assert 0 <= u < Pow2(31);
      ProductTopBits(b, u, Pow2(31));
    } else if b > 0 {
      RejectOnce(g', u, b, fuel);
    }
  }

  /** A draw below `2^31` scaled by `b` keeps below `b` after the shift by 31. */
  lemma ProductTopBits(b: int, u: int, p: int)
    requires b >= 1 && 0 <= u < p
    ensures 0 <= (b * u) / p < b
  {
    MulGap(b, p, u);
    DivBelow(b * u, p, b);
  }

  /** With a positive bound and a non-negative draw the loop test never holds: the remainder
      is answered without another draw. */
  lemma RejectOnce(g: Random, u: int, b: int, fuel: nat)
    requires b > 0 && u >= 0
    ensures Reject(g, u, b, fuel) == Ok((u % b, g))
  {
    assert u - u % b >= 0;
  }

  /** `nextLong` answers a number below `2^64` whose high and low 32 bits are the two draws,
      in order. */
  lemma NextLongHalves(g: Random)
    ensures var v := NextLong(g).0;
      var hi := Rand(g, 32).0;
      var lo := Rand(Rand(g, 32).1, 32).0;
      Halves64(v, hi, lo)
  {
    NextLongValue(g);
    Pow2Constants();
    Concat32(Rand(g, 32).0, Rand(Rand(g, 32).1, 32).0);
  }

  /** The shift by 32 of `nextLong` is a multiplication by `2^32`. */
  lemma NextLongValue(g: Random)
    ensures NextLong(g).0 == Rand(g, 32).0 * TWO_32 + Rand(Rand(g, 32).1, 32).0
  {
    var (hi, g1) := Rand(g, 32);
    Pow2Constants();
    assert Shl(hi, 32) == hi * TWO_32;
  }

  /** `v` is a 64-bit number whose high 32 bits are `hi` and whose low 32 bits are `lo`. */
  predicate Halves64(v: int, hi: int, lo: int) {
    0 <= v < TWO_64 && v / TWO_32 == hi && v % TWO_32 == lo
  }

  /** Two 32-bit halves side by side. */
  lemma Concat32(hi: int, lo: int)
    requires 0 <= hi < TWO_32 && 0 <= lo < TWO_32
    ensures Halves64(hi * TWO_32 + lo, hi, lo)
  {
    DivModUnique(hi * TWO_32 + lo, TWO_32, hi, lo);
  }

  /** The seed after `n` steps. */
  function SeedAfter(seed: int, n: nat): int
    decreases n
  {
    if n == 0 then seed else SeedAfter(Lcg(seed), n - 1)
  }

  /** The first `n` numbers `next_int` without a bound answers. */
  function Draws(g: Random, n: nat): (r: seq<int>)
    ensures |r| == n
    decreases n
  {
    if n == 0 then [] else
      var (u, g') := Rand(g, 32);
      [u] + Draws(g', n - 1)
  }

  /** The `i`-th draw is the top 32 bits of the seed after `i + 1` steps: the draws depend on
      the seed alone. */
  lemma {:induction false} DrawsFromSeed(g: Random, n: nat)
    ensures forall i :: 0 <= i < n ==> Draws(g, n)[i] == SeedAfter(g.seed, i + 1) / 0x1_0000
    decreases n
  {
    if n > 0 {
      var g' := Rand(g, 32).1;
      DrawsUnfold(g, n);
      DrawsFromSeed(g', n - 1);
      forall i | 0 <= i < n
        ensures Draws(g, n)[i] == SeedAfter(g.seed, i + 1) / 0x1_0000
      {
        assert SeedAfter(g.seed, i + 1) == SeedAfter(g'.seed, i);
        if i > 0 {
          assert Draws(g, n)[i] == Draws(g', n - 1)[i - 1];
        }
      }
    }
  }

  /** The first draw, then the draws of the stepped generator. */
  lemma DrawsUnfold(g: Random, n: nat)
    requires n > 0
    ensures Draws(g, n)[0] == Lcg(g.seed) / 0x1_0000 && Draws(g, n)[1..] == Draws(Rand(g, 32).1, n - 1)
    ensures Rand(g, 32).1.seed == Lcg(g.seed)
  {
    Pow2Constants();
  }

  /** Setting the seed restarts the sequence a new generator with that seed draws, whatever
      the generator drew before. */
  lemma SetSeedRestarts(g: Random, seed: int, nsec: int, n: nat)
    ensures Draws(SetSeed(g, seed), n) == Draws(NewRandom(Some(seed), nsec), n)
  {
    DrawsFromSeed(SetSeed(g, seed), n);
    DrawsFromSeed(NewRandom(Some(seed), nsec), n);
  }
}
