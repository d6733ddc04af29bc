/** The kernel's index arithmetic on size_t values: powers of two, the
    64-bit wrap-around of size_t, and the bitwise-and mask that the
    kernel uses in place of a modulo (linear.hpp, INDEX HELPER). */
module Index {

  /** 2^w. */
  function Pow2(w: nat): (r: nat)
    ensures r >= 1
  {
    if w == 0 then 1 else 2 * Pow2(w - 1)
  }

  /** n is a power of two: 1, 2, 4, 8, ... */
  predicate IsPow2(n: nat)
    decreases n
  {
    n == 1 || (n >= 2 && n % 2 == 0 && IsPow2(n / 2))
  }

  /** Number of distinct size_t values, 2^64. */
  const SizeModulus: nat := 0x1_0000_0000_0000_0000

  /** An integer reduced to size_t, as unsigned C++ arithmetic does. */
  function Wrap(x: int): (r: nat)
    ensures r < SizeModulus
    ensures 0 <= x < SizeModulus ==> r == x
  {
    x % SizeModulus
  }

  /** Bitwise and of two non-negative integers, bit by bit from the least
      significant end. */
  function BitAnd(a: nat, b: nat): nat
    decreases a
  {
    if a == 0 || b == 0 then 0
    else 2 * BitAnd(a / 2, b / 2) + (if a % 2 == 1 && b % 2 == 1 then 1 else 0)
  }

  lemma {:induction false} Pow2Doubles(n: nat)
    requires IsPow2(n)
    ensures IsPow2(2 * n) && (2 * n) / 2 == n
  {
  }

  /** Every power of two is 2^w for some w. */
  lemma {:induction false} Pow2Exponent(n: nat) returns (w: nat)
    requires IsPow2(n)
    ensures Pow2(w) == n
    decreases n
  {
    if n == 1 {
      w := 0;
    } else {
      var v := Pow2Exponent(n / 2);
      w := v + 1;
    }
  }

  lemma {:induction false} Pow2Split(a: nat, b: nat)
    ensures Pow2(a + b) == Pow2(a) * Pow2(b)
    decreases a
  {
    if a > 0 {
      Pow2Split(a - 1, b);
    }
  }

  lemma {:induction false} Pow2Monotone(a: nat, b: nat)
    requires a < b
    ensures Pow2(a) < Pow2(b)
    decreases b
  {
    if a < b - 1 {
      Pow2Monotone(a, b - 1);
    }
  }

  lemma Pow2Sixty4()
    ensures Pow2(64) == SizeModulus
  {
    Pow2Split(32, 32);
    Pow2Split(16, 16);
    Pow2Split(8, 8);
    Pow2Split(4, 4);
    Pow2Split(2, 2);
  }

  lemma {:induction false} MulAtLeast(n: int, d: int)
    requires n > 0 && d >= 1
    ensures n * d >= n
    decreases d
  {
    if d > 1 {
      MulAtLeast(n, d - 1);
      assert n * d == n * (d - 1) + n;
    }
  }

  /** The remainder of x modulo n is the unique r in [0, n) with x = n * q + r. */
  lemma ModUnique(x: int, n: int, q: int, r: int)
    requires n > 0 && 0 <= r < n && x == n * q + r
    ensures x % n == r && x / n == q
  {
    var q', r' := x / n, x % n;
    assert x == n * q' + r';
    if q' < q {
      assert n * (q - q') == n * q - n * q';
      MulAtLeast(n, q - q');
    } else if q' > q {
      assert n * (q' - q) == n * q' - n * q;
      MulAtLeast(n, q' - q);
    }
  }

  /** A power of two below 2^64 is at most 2^63. */
  lemma Pow2BelowModulus(n: nat)
    requires IsPow2(n) && n < SizeModulus
    ensures n <= SizeModulus / 2
  {
    var w := Pow2Exponent(n);
    Pow2Sixty4();
    if w >= 64 {
      if w > 64 {
        Pow2Monotone(64, w);
      }
      assert false;
    }
    if w < 63 {
      Pow2Monotone(w, 63);
    }
    assert Pow2(64) == 2 * Pow2(63);
  }

  /** A power of two no larger than 2^64 divides 2^64. */
  lemma Pow2DividesModulus(n: nat) returns (c: nat)
    requires IsPow2(n) && n <= SizeModulus
    ensures SizeModulus == n * c
  {
    var w := Pow2Exponent(n);
    Pow2Sixty4();
    if w > 64 {
      Pow2Monotone(64, w);
    }
    var rest: nat := 64 - w;
    Pow2Split(w, rest);
    assert w + rest == 64;
    c := Pow2(rest);
  }

  /** Reducing to size_t first does not change the remainder modulo a power
      of two that fits in size_t. */
  lemma WrapThenMod(x: int, n: nat)
    requires IsPow2(n) && n <= SizeModulus
    ensures Wrap(x) % n == x % n
  {
    var c := Pow2DividesModulus(n);
    var k := x / SizeModulus;
    var y := Wrap(x);
    assert x == SizeModulus * k + y;
    var t, rem := y / n, y % n;
    assert y == n * t + rem;
    assert (n * c) * k == n * (c * k);
    assert x == n * (c * k + t) + rem;
    ModUnique(x, n, c * k + t, rem);
  }

  /** The remainder modulo 2 * half from the remainder of x / 2 modulo
      half and the lowest bit of x: one step of the induction below. */
  lemma HalveMod(x: nat, half: nat)
    requires half > 0
    ensures x % (2 * half) == 2 * ((x / 2) % half) + x % 2
  {
    var q, r := (x / 2) / half, (x / 2) % half;
    assert x / 2 == half * q + r;
    assert x == (2 * half) * q + (2 * r + x % 2);
    ModUnique(x, 2 * half, q, 2 * r + x % 2);
  }

  /** Masking with n - 1 is reduction modulo n when n is a power of two. */
  lemma {:induction false} MaskIsMod(x: nat, n: nat)
    requires IsPow2(n)
    ensures BitAnd(x, n - 1) == x % n
    decreases n
  {
    if n == 1 {
    } else if x == 0 {
    } else {
      var half := n / 2;
      assert n == 2 * half && (n - 1) / 2 == half - 1 && (n - 1) % 2 == 1;
      MaskIsMod(x / 2, half);
      HalveMod(x, half);
    }
  }

  /** index_from_key: the ideal index of a hash value, hash & (n - 1). */
  function IndexFromKey(h: nat, n: nat): (r: nat)
    requires IsPow2(n)
    ensures r == h % n && r < n
  {
    MaskIsMod(h, n);
    BitAnd(h, n - 1)
  }

  /** index_add: (i + x) & (n - 1) on size_t. */
  function IndexAdd(i: nat, x: nat, n: nat): (r: nat)
    requires IsPow2(n) && n <= SizeModulus
    ensures r == (i + x) % n && r < n
  {
    MaskIsMod(Wrap(i + x), n);
    WrapThenMod(i + x, n);
    BitAnd(Wrap(i + x), n - 1)
  }

  /** index_sub: (i - x) & (n - 1) on size_t; the unsigned wrap-around of
      i - x makes the result the non-negative remainder. */
  function IndexSub(i: nat, x: nat, n: nat): (r: nat)
    requires IsPow2(n) && n <= SizeModulus
    ensures r == (i - x) % n && r < n
  {
    MaskIsMod(Wrap(i - x), n);
    WrapThenMod(i - x, n);
    BitAnd(Wrap(i - x), n - 1)
  }
}
