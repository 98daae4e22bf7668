/** Ruby Integer arithmetic the random number generator relies on: integers are unbounded, `&`
    and `^` act on the infinite two's-complement representation, `>>` floors and shifts left for
    a negative count, and `%` takes the sign of the divisor. */
module RubyInteger {

  /** 2 to the power `n`. */
  function Pow2(n: nat): (r: nat)
    ensures r >= 1
  {
    if n == 0 then 1 else 2 * Pow2(n - 1)
  }

  /** The number of bits below the sign: 0 for 0 and -1, halved by each arithmetic shift. */
  function Size(x: int): nat {
    if x >= 0 then x else -x - 1
  }

  lemma HalfSize(x: int)
    ensures Size(x / 2) == Size(x) / 2
  {
  }

  /** `x & y`: bit `i` of the result is set when it is set in both. */
  function And(x: int, y: int): (r: int)
    ensures r < 0 <==> x < 0 && y < 0
    ensures x >= 0 ==> r <= x
    ensures y >= 0 ==> r <= y
    decreases Size(x) + Size(y)
  {
    if Size(x) == 0 && Size(y) == 0 then (if x == -1 && y == -1 then -1 else 0)
    else
      HalfSize(x);
      HalfSize(y);
      2 * And(x / 2, y / 2) + (if x % 2 == 1 && y % 2 == 1 then 1 else 0)
  }

  /** `x ^ y`: bit `i` of the result is set when it is set in exactly one. */
  function Xor(x: int, y: int): (r: int)
    ensures r < 0 <==> (x < 0) != (y < 0)
    decreases Size(x) + Size(y)
  {
    if Size(x) == 0 && Size(y) == 0 then (if x == y then 0 else -1)
    else
      HalfSize(x);
      HalfSize(y);
      2 * Xor(x / 2, y / 2) + (if x % 2 != y % 2 then 1 else 0)
  }

  /** `x >> n`: the floor of `x / 2^n`; a negative count shifts left. */
  function Shr(x: int, n: int): (r: int)
    ensures n >= 0 && x >= 0 ==> 0 <= r
    ensures n <= 0 ==> r == x * Pow2(-n)
  {
    if n > 0 then x / Pow2(n) else x * Pow2(-n)
  }

  /** `x << n`, which Ruby defines as `x >> -n`. */
  function Shl(x: int, n: int): (r: int)
    ensures n >= 0 ==> r == x * Pow2(n)
  {
    Shr(x, -n)
  }

  /** `a % b`: the remainder whose sign is that of the divisor. */
  function FloorMod(a: int, b: int): (r: int)
    requires b != 0
    ensures b > 0 ==> 0 <= r < b
    ensures b < 0 ==> b < r <= 0
  {
    if b > 0 then a % b
    else
      var m := a % -b;
      if m == 0 then 0 else m + b
  }

  /** A power of two, 1, 2, 4, ... */
  predicate IsPowerOfTwo(b: int)
    decreases if b > 0 then b else 0
  {
    b == 1 || (b > 1 && b % 2 == 0 && IsPowerOfTwo(b / 2))
  }

  // ---------------------------------------------------------------------------------------
  // Bitwise steps
  // ---------------------------------------------------------------------------------------

  /** Both bitwise operations split off the lowest bit of every pair of operands, including
      the two-sign-bit case their definition answers directly. */
  lemma AndStep(x: int, y: int)
    ensures And(x, y) == 2 * And(x / 2, y / 2) + (if x % 2 == 1 && y % 2 == 1 then 1 else 0)
  {
  }

  lemma XorStep(x: int, y: int)
    ensures Xor(x, y) == 2 * Xor(x / 2, y / 2) + (if x % 2 != y % 2 then 1 else 0)
  {
  }

  /** Splitting `2 * k + b` into its halves. */
  lemma Halves(k: int, b: int)
    requires b == 0 || b == 1
    ensures (2 * k + b) / 2 == k && (2 * k + b) % 2 == b
  {
  }

  // ---------------------------------------------------------------------------------------
  // Arithmetic
  // ---------------------------------------------------------------------------------------

  /** Quotient and remainder are determined by any decomposition. */
  lemma DivModUnique(n: int, d: int, q: int, r: int)
    requires d > 0 && n == d * q + r && 0 <= r < d
    ensures n / d == q && n % d == r
  {
    var q', r' := n / d, n % d;
    assert n == d * q' + r';
    if q' < q {
      MulGap(d, q, q');
    } else if q' > q {
      MulGap(d, q', q);
    }
  }

  /** Multiples of `d` that differ differ by at least `d`. */
  lemma MulGap(d: int, p: int, q: int)
    requires d > 0 && p > q
    ensures d * p >= d * q + d
  {
    assert d * p - d * q == d * (p - q - 1) + d;
    assert d * (p - q - 1) >= 0;
  }

  /** A multiple of `d` leaves no remainder. */
  lemma MultipleMod(d: int, k: int)
    requires d > 0
    ensures (d * k) % d == 0
  {
    DivModUnique(d * k, d, k, 0);
  }

  /** The remainder by `2 * q` of `2 * k + b` keeps the low bit `b` above the remainder of `k`
      by `q`. */
  lemma ModDouble(k: int, b: int, q: int)
    requires q >= 1 && (b == 0 || b == 1)
    ensures (2 * k + b) % (2 * q) == 2 * (k % q) + b
  {
    var a, t := k / q, k % q;
    assert k == q * a + t;
    assert 2 * k + b == (2 * q) * a + (2 * t + b);
    DivModUnique(2 * k + b, 2 * q, a, 2 * t + b);
  }

  /** Reducing modulo `2 * q` then halving is halving then reducing modulo `q`. */
  lemma HalfMod(x: int, q: int)
    requires q >= 1
    ensures (x % (2 * q)) / 2 == (x / 2) % q && (x % (2 * q)) % 2 == x % 2
  {
    assert x == 2 * (x / 2) + x % 2;
    ModDouble(x / 2, x % 2, q);
    Halves((x / 2) % q, x % 2);
  }

  lemma Pow2Add(a: nat, b: nat)
    ensures Pow2(a + b) == Pow2(a) * Pow2(b)
  {
    if a > 0 {
      Pow2Add(a - 1, b);
    }
  }

  /** The powers of two the generator uses. */
  lemma Pow2Constants()
    ensures Pow2(16) == 0x1_0000 && Pow2(31) == 0x8000_0000 && Pow2(32) == 0x1_0000_0000
    ensures Pow2(48) == 0x1_0000_0000_0000 && Pow2(64) == 0x1_0000_0000_0000_0000
  {
    assert Pow2(8) == 0x100;
    Pow2Add(8, 8);
    Pow2Add(16, 15);
    Pow2Add(16, 16);
    Pow2Add(32, 16);
    Pow2Add(32, 32);
  }

  /** `a % b` differs from `a` by a multiple of `b`. */
  lemma FloorModResidue(a: int, b: int)
    requires b != 0
    ensures (a - FloorMod(a, b)) % (if b > 0 then b else -b) == 0
  {
    if b > 0 {
      assert a - a % b == b * (a / b);
      MultipleMod(b, a / b);
    } else if a % -b == 0 {
      assert a == -b * (a / -b);
      MultipleMod(-b, a / -b);
    } else {
      assert a - (a % -b + b) == -b * (a / -b + 1);
      MultipleMod(-b, a / -b + 1);
    }
  }

  /** A number below `a * b` has a quotient by `a` below `b`. */
  lemma DivBelow(x: int, a: int, b: int)
    requires a > 0 && 0 <= x < a * b
    ensures 0 <= x / a < b
  {
    if x / a > b - 1 {
      MulGap(a, x / a, b - 1);
    }
  }

  // ---------------------------------------------------------------------------------------
  // Properties
  // ---------------------------------------------------------------------------------------

  /** Masking with `2^n - 1` keeps the low `n` bits: it is the remainder by `2^n`, for negative
      numbers too. */
  lemma {:induction false} AndMask(x: int, n: nat)
    ensures And(x, Pow2(n) - 1) == x % Pow2(n)
    decreases n
  {
    if n > 0 {
      var q := Pow2(n - 1);
      AndLowStep(x, q);
      AndMask(x / 2, n - 1);
      HalfMod(x, q);
      ModLowBit(x, q);
    }
  }

  /** Masking with `2 * q - 1` masks the half with `q - 1` and keeps the low bit. */
  lemma AndLowStep(x: int, q: int)
    requires q >= 1
    ensures And(x, 2 * q - 1) == 2 * And(x / 2, q - 1) + x % 2
  {
    AndStep(x, 2 * q - 1);
    Halves(q - 1, 1);
  }

  /** The remainder by `2 * q` is the remainder of the half by `q` above the low bit. */
  lemma ModLowBit(x: int, q: int)
    requires q >= 1
    ensures x % (2 * q) == 2 * ((x / 2) % q) + x % 2
  {
    assert x == 2 * (x / 2) + x % 2;
    ModDouble(x / 2, x % 2, q);
  }

  /** `x ^ y ^ y == x`. */
  lemma {:induction false} XorInvolution(x: int, y: int)
    ensures Xor(Xor(x, y), y) == x
    decreases Size(x) + Size(y)
  {
    if Size(x) != 0 || Size(y) != 0 {
      var b := if x % 2 != y % 2 then 1 else 0;
      XorStep(x, y);
      Halves(Xor(x / 2, y / 2), b);
      XorStep(Xor(x, y), y);
      HalfSize(x);
      HalfSize(y);
      XorInvolution(x / 2, y / 2);
    }
  }

  /** The low `n` bits of `x ^ y` depend only on the low `n` bits of `x` and `y`. */
  lemma {:induction false} XorLowBits(x: int, y: int, n: nat)
    ensures Xor(x, y) % Pow2(n) == Xor(x % Pow2(n), y % Pow2(n)) % Pow2(n)
    decreases n
  {
    if n > 0 {
      var q := Pow2(n - 1);
      HalfMod(x, q);
      HalfMod(y, q);
      XorLowStep(x, y, q);
      XorLowStep(x % (2 * q), y % (2 * q), q);
      XorLowBits(x / 2, y / 2, n - 1);
    }
  }

  /** The remainder of `x ^ y` by `2 * q`: the remainder by `q` of the xor of the halves, above
      the xor of the low bits. */
  lemma XorLowStep(x: int, y: int, q: int)
    requires q >= 1
    ensures Xor(x, y) % (2 * q) == 2 * (Xor(x / 2, y / 2) % q) + (if x % 2 != y % 2 then 1 else 0)
  {
    XorStep(x, y);
    ModDouble(Xor(x / 2, y / 2), if x % 2 != y % 2 then 1 else 0, q);
  }

  /** `x & x == x`. */
  lemma {:induction false} AndSelf(x: int)
    ensures And(x, x) == x
    decreases Size(x)
  {
    if Size(x) != 0 {
      AndStep(x, x);
      HalfSize(x);
      AndSelf(x / 2);
    }
  }

  /** `b & (b - 1) == 0`, the test `next_int` uses, holds for a positive `b` exactly when it
      is a power of two; it holds for 0 too and never for a negative `b`. */
  lemma {:induction false} PowerOfTwoTest(b: int)
    ensures b >= 1 ==> (And(b, b - 1) == 0 <==> IsPowerOfTwo(b))
    ensures b == 0 ==> And(b, b - 1) == 0
    ensures b < 0 ==> And(b, b - 1) != 0
    decreases if b > 0 then b else 0
  {
    if b > 1 {
      AndStep(b, b - 1);
      if b % 2 == 0 {
        assert (b - 1) / 2 == b / 2 - 1;
        PowerOfTwoTest(b / 2);
      } else {
        assert (b - 1) / 2 == b / 2;
        AndSelf(b / 2);
      }
    }
  }
}
