/**
 * Go's fixed-width unsigned integer operators, as the expander uses them on
 * `uint32` values, written over mathematical integers.
 *
 * A `uint32` is an integer in [0, 2^32); every operator that can leave that
 * range wraps modulo 2^32 exactly as Go does. The bitwise `&` and `|` are
 * defined bit by bit on naturals; the lemmas at the end give their arithmetic
 * meaning for the masks the expander builds.
 */
module GoInts {

  /** 2^n. */
  function Pow2(n: nat): (r: nat)
    ensures r >= 1
  {
    if n == 0 then 1 else 2 * Pow2(n - 1)
  }

  const U32Modulus: nat := 0x1_0000_0000

  /** Go's `uint32`. */
  type U32 = x: int | 0 <= x < 0x1_0000_0000

  /** Go's `byte` (`uint8`). */
  type Byte = x: int | 0 <= x < 0x100

  /** `x << k` on a `uint32`: the bits shifted past bit 31 are lost. */
  function Shl32(x: U32, k: nat): (r: U32)
  {
    (x * Pow2(k)) % U32Modulus
  }

  /** `x >> k` on an unsigned value: k halvings, each dropping the lowest bit. */
  function Shr(x: nat, k: nat): (r: nat)
    ensures r <= x
  {
    if k == 0 then x else Shr(x / 2, k - 1)
  }

  /** `^x` on a `uint32`: every one of the 32 bits flipped. */
  function Not32(x: U32): (r: U32)
    ensures x + r == U32Modulus - 1
  {
    0xFFFF_FFFF - x
  }

  /** `x + y` on `uint32`, wrapping. */
  function Add32(x: U32, y: U32): (r: U32)
    ensures x + y < U32Modulus ==> r == x + y
    ensures x + y >= U32Modulus ==> r == x + y - U32Modulus
  {
    (x + y) % U32Modulus
  }

  /** `x - y` on `uint32`, wrapping. */
  function Sub32(x: U32, y: U32): (r: U32)
    ensures y <= x ==> r == x - y
    ensures x < y ==> r == x - y + U32Modulus
  {
    (x - y) % U32Modulus
  }

  /** `byte(x)`: Go's conversion keeps the low eight bits. */
  function ToByte(x: nat): (r: Byte)
    ensures x < 0x100 ==> r == x
  {
    x % 0x100
  }

  /** Bitwise `x & y`. */
  function And(x: nat, y: nat): (r: nat)
    ensures r <= x && r <= y
  {
    if x == 0 || y == 0 then 0
    else 2 * And(x / 2, y / 2) + (if x % 2 == 1 && y % 2 == 1 then 1 else 0)
  }

  /** Bitwise `x | y`: never below either operand, never above their sum. */
  function Or(x: nat, y: nat): (r: nat)
    ensures x <= r && y <= r && r <= x + y
    decreases x + y
  {
    if x == 0 then y
    else if y == 0 then x
    else 2 * Or(x / 2, y / 2) + (if x % 2 == 1 || y % 2 == 1 then 1 else 0)
  }

  // ---------------------------------------------------------------------
  // Arithmetic helpers

  lemma {:induction false} Pow2Add(a: nat, b: nat)
    ensures Pow2(a + b) == Pow2(a) * Pow2(b)
  {
    if a > 0 {
      Pow2Add(a - 1, b);
      assert Pow2(a + b) == 2 * Pow2(a - 1 + b);
    }
  }

  /** Pow2Add with the exponent of the product named. */
  lemma Pow2Sum(a: nat, b: nat, c: nat)
    requires a + b == c
    ensures Pow2(c) == Pow2(a) * Pow2(b)
  {
    Pow2Add(a, b);
  }

  /** One more bit doubles the range of values. */
  lemma Pow2Succ(g: nat, h: nat)
    requires h == g + 1
    ensures Pow2(h) == 2 * Pow2(g)
  {
  }

  /** One more byte multiplies the range of values by 256. */
  lemma Pow2NextByte(m: nat, k: nat)
    requires m == k + 1
    ensures Pow2(8 * m) == 256 * Pow2(8 * k)
  {
    assert Pow2(8) == 256;
    Pow2Sum(8, 8 * k, 8 * m);
  }

  /** The powers the 32-bit code shifts and wraps by. */
  lemma Pow2Bytes()
    ensures Pow2(8) == 0x100 && Pow2(16) == 0x1_0000 && Pow2(24) == 0x100_0000
    ensures Pow2(32) == U32Modulus
  {
    assert Pow2(8) == 0x100;
    Pow2Add(8, 8);
    Pow2Add(16, 8);
    Pow2Add(24, 8);
  }

  lemma {:induction false} Pow2Monotone(a: nat, b: nat)
    requires a <= b
    ensures Pow2(a) <= Pow2(b)
  {
    if a < b {
      Pow2Monotone(a, b - 1);
    }
  }

  lemma MulAtLeast(k: int, d: int)
    requires k >= 1 && d > 0
    ensures k * d >= d
    decreases k
  {
    if k > 1 {
      MulAtLeast(k - 1, d);
      assert k * d == (k - 1) * d + d;
    }
  }

  /** Euclidean division is determined by its quotient and remainder. */
  lemma DivModUnique(x: int, d: int, q: int, r: int)
    requires d > 0 && 0 <= r < d && x == q * d + r
    ensures x / d == q && x % d == r
  {
    var q', r' := x / d, x % d;
    assert x == q' * d + r';
    if q > q' {
      assert q * d - q' * d == (q - q') * d;
      MulAtLeast(q - q', d);
    } else if q < q' {
      assert q' * d - q * d == (q' - q) * d;
      MulAtLeast(q' - q, d);
    }
  }

  /** Dividing by a * p is dividing by a and then by p. */
  lemma ModMul(x: nat, a: nat, p: nat)
    requires a > 0 && p > 0
    ensures x % (a * p) == a * ((x / a) % p) + x % a
    ensures x / (a * p) == (x / a) / p
  {
    var h := x / a;
    var q, r := h / p, h % p;
    assert h == q * p + r;
    assert x == a * h + x % a;
    assert a * h == q * (a * p) + a * r;
    assert a * r + x % a < a * p by {
      assert r <= p - 1;
      assert a * r <= a * (p - 1);
    }
    DivModUnique(x, a * p, q, a * r + x % a);
  }

  /** Adding a multiple of d does not change the remainder modulo d. */
  lemma ModAddMultiple(q: nat, r: nat, d: nat)
    requires d > 0 && r < d
    ensures (q * d + r) % d == r && (q * d + r) / d == q
  {
    DivModUnique(q * d + r, d, q, r);
  }

  /** Shifting right by k is dividing by 2^k. */
  lemma {:induction false} ShrIsDiv(x: nat, k: nat)
    ensures Shr(x, k) == x / Pow2(k)
  {
    if k > 0 {
      ShrIsDiv(x / 2, k - 1);
      ModMul(x, 2, Pow2(k - 1));
    }
  }

  /** A block of 2^h values starting at a multiple of 2^h inside [0, 2^n) ends inside it too. */
  lemma AlignedBlockFits(start: nat, h: nat, n: nat)
    requires h <= n && start < Pow2(n) && start % Pow2(h) == 0
    ensures start + Pow2(h) <= Pow2(n)
  {
    var m := n - h;
    var p, k := Pow2(h), Pow2(m);
    assert Pow2(n) == p * k by {
      Pow2Add(h, m);
    }
    AlignedFits(start, p, k);
  }

  lemma AlignedFits(start: nat, p: nat, k: nat)
    requires p > 0 && start < p * k && start % p == 0
    ensures start + p <= p * k
  {
    var q := start / p;
    assert start == p * q;
    if q >= k {
      MulMonotone(p, k, q);
    }
    MulMonotone(p, q + 1, k);
    assert p * (q + 1) == p * q + p;
  }

  lemma MulMonotone(p: nat, a: nat, b: nat)
    requires a <= b
    ensures p * a <= p * b
  {
    var d := b - a;
    assert p * b == p * a + p * d;
  }

  /** Every value of a block of 2^h values starting at a multiple of 2^h has that start as its base. */
  lemma BlockBase(start: nat, r: nat, h: nat)
    requires start % Pow2(h) == 0 && r < Pow2(h)
    ensures (start + r) % Pow2(h) == r
    ensures (start + r) - (start + r) % Pow2(h) == start
  {
    var p := Pow2(h);
    var q := start / p;
    assert start == q * p;
    ModAddMultiple(q, r, p);
  }

  /** Clearing the low bits below p leaves a multiple of p. */
  lemma ClearedIsAligned(x: nat, p: nat)
    requires p > 0
    ensures (x - x % p) % p == 0
  {
    var q := x / p;
    assert x - x % p == q * p;
    ModAddMultiple(q, 0, p);
  }

  // ---------------------------------------------------------------------
  // The meaning of the masks

  /** An `|` of two values below 2^n stays below 2^n: `|` never leaves a `uint32`. */
  lemma {:induction false} OrBelow(x: nat, y: nat, n: nat)
    requires x < Pow2(n) && y < Pow2(n)
    ensures Or(x, y) < Pow2(n)
    decreases x + y
  {
    if x != 0 && y != 0 {
      assert n > 0;
      OrBelow(x / 2, y / 2, n - 1);
    }
  }

  /** Halving: x is twice x / 2 plus its low bit, and so is its remainder modulo 2p. */
  lemma Halve(x: nat, a: nat, p: nat, q: nat)
    requires p > 0 && a == x / 2 && q == 2 * p
    ensures x == 2 * a + x % 2
    ensures x % q == 2 * (a % p) + x % 2
  {
    ModMul(x, 2, p);
  }

  /**
   * The induction steps of the bitwise lemmas below are split off into
   * `…Rec` and `…Step` lemmas that take every power of two and mask as a
   * separate parameter: with the terms `Pow2(h) - 1` or `Pow2(n) - Pow2(h)`
   * inside the recursive call, the solver runs out of resource relating
   * them, while over plain integers each step is linear arithmetic.
   */

  /** Two values whose sum is 2^n - 1 share no bit and together cover all n bits. */
  lemma {:induction false} Complement(x: nat, y: nat, n: nat)
    requires x < Pow2(n) && x + y == Pow2(n) - 1
    ensures And(x, y) == 0 && Or(x, y) == Pow2(n) - 1
  {
    if n > 0 && x > 0 && y > 0 {
      var a, b, k := x / 2, y / 2, n - 1;
      var p := Pow2(k);
      Pow2Succ(k, n);
      assert x % 2 + y % 2 == 1 && a + b == p - 1;
      Complement(a, b, k);
    }
  }

  /** `^x` flips every one of the 32 bits of x: x & ^x is 0 and x | ^x is all ones. */
  lemma Not32Flips(x: U32)
    ensures And(x, Not32(x)) == 0 && Or(x, Not32(x)) == 0xFFFF_FFFF
  {
    Pow2Bytes();
    Complement(x, Not32(x), 32);
  }

  /** Or-ing the low h bits all to one keeps the high bits and fills the low ones. */
  lemma {:induction false} OrLowOnes(x: nat, h: nat, ones: nat)
    requires ones + 1 == Pow2(h)
    ensures Or(x, ones) == x - x % Pow2(h) + ones
  {
    if h == 0 {
      assert Pow2(0) == 1;
      assert Or(x, 0) == x;
    } else if x == 0 {
      assert 0 % Pow2(h) == 0;
    } else {
      var a, g := x / 2, h - 1;
      var o := Pow2(g) - 1;
      OrLowOnes(a, g, o);
      OrLowRec(x, a, h, g, ones, o);
    }
  }

  /** The inductive step of OrLowOnes, from x / 2 and h - 1 to x and h. */
  lemma OrLowRec(x: nat, a: nat, h: nat, g: nat, ones: nat, o: nat)
    requires x > 0 && h > 0 && a == x / 2 && g == h - 1
    requires ones + 1 == Pow2(h) && o + 1 == Pow2(g)
    requires Or(a, o) == a - a % Pow2(g) + o
    ensures Or(x, ones) == x - x % Pow2(h) + ones
  {
    var p, q := Pow2(g), Pow2(h);
    Pow2Succ(g, h);
    Halve(x, a, p, q);
    OrLowStep(x, a, x % 2, p, q, a % p, x % q, ones, o);
  }

  /** One bit of OrLowOnes: x = 2a + b, whose remainder modulo 2p is 2(a mod p) + b. */
  lemma OrLowStep(x: nat, a: nat, b: nat, p: nat, q: nat, am: nat, xm: nat, ones: nat, o: nat)
    requires x > 0 && p > 0 && q == 2 * p && x == 2 * a + b && b < 2 && xm == 2 * am + b
    requires ones == q - 1 && o == p - 1
    requires Or(a, o) == a - am + o
    ensures Or(x, ones) == x - xm + ones
  {
    assert x / 2 == a && x % 2 == b;
    assert ones / 2 == o && ones % 2 == 1;
  }

  /** `|` of a value whose low h bits are zero with one below 2^h is their sum. */
  lemma {:induction false} OrDisjoint(q: nat, y: nat, h: nat)
    requires y < Pow2(h)
    ensures Or(q * Pow2(h), y) == q * Pow2(h) + y
  {
    if h > 0 && q != 0 && y != 0 {
      var m := q * Pow2(h - 1);
      assert q * Pow2(h) == 2 * m;
      OrDisjoint(q, y / 2, h - 1);
    }
  }

  /** `&` with the low h bits all one keeps the remainder modulo 2^h. */
  lemma {:induction false} AndLowOnes(x: nat, h: nat, ones: nat)
    requires ones + 1 == Pow2(h)
    ensures And(x, ones) == x % Pow2(h)
  {
    if h == 0 {
      assert Pow2(0) == 1;
    } else if x == 0 {
      assert 0 % Pow2(h) == 0;
    } else {
      var a, g := x / 2, h - 1;
      var o := Pow2(g) - 1;
      AndLowOnes(a, g, o);
      AndLowRec(x, a, h, g, ones, o);
    }
  }

  /** The inductive step of AndLowOnes, from x / 2 and h - 1 to x and h. */
  lemma AndLowRec(x: nat, a: nat, h: nat, g: nat, ones: nat, o: nat)
    requires x > 0 && h > 0 && a == x / 2 && g == h - 1
    requires ones + 1 == Pow2(h) && o + 1 == Pow2(g)
    requires And(a, o) == a % Pow2(g)
    ensures And(x, ones) == x % Pow2(h)
  {
    var p, q := Pow2(g), Pow2(h);
    Pow2Succ(g, h);
    Halve(x, a, p, q);
    AndLowStep(x, a, x % 2, p, q, a % p, x % q, ones, o);
  }

  /** One bit of AndLowOnes: x = 2a + b, whose remainder modulo 2p is 2(a mod p) + b. */
  lemma AndLowStep(x: nat, a: nat, b: nat, p: nat, q: nat, am: nat, xm: nat, ones: nat, o: nat)
    requires x > 0 && p > 0 && q == 2 * p && x == 2 * a + b && b < 2 && xm == 2 * am + b
    requires ones == q - 1 && o == p - 1
    requires And(a, o) == am
    ensures And(x, ones) == xm
  {
    assert x / 2 == a && x % 2 == b;
    assert ones / 2 == o && ones % 2 == 1;
  }

  /**
   * `&` with a mask whose top n - h bits (of n) are one and whose low h bits
   * are zero clears the low h bits of a value below 2^n.
   */
  lemma {:induction false} AndHighMask(x: nat, n: nat, h: nat, mask: nat)
    requires h <= n && x < Pow2(n) && mask + Pow2(h) == Pow2(n)
    ensures And(x, mask) == x - x % Pow2(h)
  {
    var t := Pow2(n);
    if h == 0 {
      assert Pow2(h) == 1;
      AndLowOnes(x, n, mask);
      DivModUnique(x, t, 0, x);
    } else if x == 0 {
      assert 0 % Pow2(h) == 0;
    } else if h == n {
      DivModUnique(x, t, 0, x);
    } else {
      var a, g, k := x / 2, h - 1, n - 1;
      Pow2Succ(k, n);
      Pow2Monotone(g, k);
      var m := Pow2(k) - Pow2(g);
      AndHighMask(a, k, g, m);
      AndHighRec(n, h, k, g, mask, m);
      AndHighStep(x, a, Pow2(g), Pow2(h), mask, m);
    }
  }

  /** The masks and block sizes of AndHighMask from n - 1, h - 1 to n, h: both double. */
  lemma AndHighRec(n: nat, h: nat, k: nat, g: nat, mask: nat, m: nat)
    requires 0 < h < n && g == h - 1 && k == n - 1
    requires mask + Pow2(h) == Pow2(n) && m + Pow2(g) == Pow2(k)
    ensures Pow2(h) == 2 * Pow2(g) && mask == 2 * m
  {
    var p, q, r, t := Pow2(g), Pow2(h), Pow2(k), Pow2(n);
    Pow2Succ(g, h);
    Pow2Succ(k, n);
    DoubleMask(p, q, r, t, mask, m);
  }

  /** When block size and range both double, so does their difference. */
  lemma DoubleMask(p: int, q: int, r: int, t: int, mask: int, m: int)
    requires q == 2 * p && t == 2 * r && mask + q == t && m + p == r
    ensures mask == 2 * m
  {
  }

  /** One bit of AndHighMask: x = 2a + b, whose remainder modulo 2p is 2(a mod p) + b. */
  lemma AndHighStep(x: nat, a: nat, p: nat, q: nat, mask: nat, m: nat)
    requires x > 0 && p > 0 && a == x / 2 && q == 2 * p && mask == 2 * m
    requires And(a, m) == a - a % p
    ensures And(x, mask) == x - x % q
  {
    Halve(x, a, p, q);
    assert mask / 2 == m && mask % 2 == 0;
  }

  /**
   * A value below 2^n is in the aligned block of 2^h values at start exactly
   * when `&` with the mask of the top n - h bits gives start back.
   */
  lemma InBlock(x: nat, start: nat, n: nat, h: nat, mask: nat)
    requires h <= n && x < Pow2(n) && start % Pow2(h) == 0 && mask + Pow2(h) == Pow2(n)
    ensures And(x, mask) == start <==> start <= x < start + Pow2(h)
  {
    AndHighMask(x, n, h, mask);
    if start <= x < start + Pow2(h) {
      BlockBase(start, x - start, h);
    }
  }
}
