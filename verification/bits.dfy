/** Unsigned-integer arithmetic of the generated shader code, on naturals.
    The generated code works on 32-bit `uint` values: `x << s` drops every bit
    at position 32 or above, `x >> s` drops the low `s` bits, `|` and `&` are
    bitwise. Here they are `Shl`, `Shr`, `BitOr` and `BitAnd`. */
module Bits {

  /** Width of the shader's `uint` type. */
  const UintBits: nat := 32

  function Pow2(n: nat): (r: nat)
    ensures r >= 1
  {
    if n == 0 then 1 else 2 * Pow2(n - 1)
  }

  /** `2^n - 1`: the mask of the `n` low bits and the largest `n`-bit code. */
  function Mask(n: nat): nat
  {
    Pow2(n) - 1
  }

  /** `x >> s` on an unsigned integer: the low `s` bits are dropped, one at a time. */
  function Shr(x: nat, s: nat): nat
  {
    if s == 0 then x else Shr(x / 2, s - 1)
  }

  /** `x << s` on a 32-bit unsigned integer, one bit at a time: bits shifted
      past position 31 are lost. */
  function Shl(x: nat, s: nat): nat
    decreases s
  {
    if s == 0 then x % 0x1_0000_0000 else Shl(2 * x, s - 1)
  }

  /** Bitwise OR of two naturals, one bit at a time from the least significant. */
  function BitOr(a: nat, b: nat): nat
    decreases a + b
  {
    if a == 0 then b
    else if b == 0 then a
    else 2 * BitOr(a / 2, b / 2) + (if a % 2 == 1 || b % 2 == 1 then 1 else 0)
  }

  /** Bitwise AND of two naturals, one bit at a time from the least significant. */
  function BitAnd(a: nat, b: nat): nat
    decreases a + b
  {
    if a == 0 || b == 0 then 0
    else 2 * BitAnd(a / 2, b / 2) + (if a % 2 == 1 && b % 2 == 1 then 1 else 0)
  }

  // ---------------------------------------------------------------------------
  // Multiplication, division and remainder (positive divisors)

  lemma {:induction false} MulNonneg(k: nat, c: nat)
    ensures k * c >= 0
  {
    if c > 0 {
      MulNonneg(k, c - 1);
      assert k * c == k * (c - 1) + k;
    }
  }

  lemma MulLe(a: int, b: int, c: nat)
    requires a <= b
    ensures a * c <= b * c
  {
    assert b * c == a * c + (b - a) * c;
    MulNonneg(b - a, c);
  }

  lemma MulBelow(x: nat, p: nat, q: nat)
    requires x < p && q > 0
    ensures x * q < q * p
  {
    MulLe(x, p - 1, q);
    assert (p - 1) * q == q * p - q;
  }

  /** Euclidean division is determined by quotient and remainder. */
  lemma DivModUnique(x: int, d: int, q: int, r: int)
    requires d > 0 && 0 <= r < d && x == q * d + r
    ensures x / d == q && x % d == r
  {
    var q0, r0 := x / d, x % d;
    assert x == q0 * d + r0;
    assert (q - q0) * d == r0 - r;
    if q > q0 {
      MulLe(1, q - q0, d);
    } else if q < q0 {
      MulLe(1, q0 - q, d);
    }
  }

  lemma Split(a: int, y: int, p: int)
    requires 0 <= a < p
    ensures (a + y * p) / p == y && (a + y * p) % p == a
  {
    DivModUnique(a + y * p, p, y, a);
  }

  lemma DivModMul(x: nat, p: nat, q: nat)
    requires p > 0 && q > 0
    ensures p * q > 0
    ensures x % (p * q) == x % p + (x / p) % q * p
    ensures x / (p * q) == x / p / q
  {
    MulLe(1, q, p);
    var q1, r1 := x / p, x % p;
    var q2, r2 := q1 / q, q1 % q;
    assert x == q1 * p + r1;
    assert q1 == q2 * q + r2;
    assert q1 * p == q2 * (p * q) + r2 * p by {
      assert q1 * p == (q2 * q + r2) * p;
    }
    assert r2 * p + r1 < p * q by {
      MulLe(r2, q - 1, p);
      assert (q - 1) * p == p * q - p;
    }
    MulNonneg(r2, p);
    DivModUnique(x, p * q, q2, r2 * p + r1);
  }

  lemma DivOfDisjointSum(a: nat, c: nat, p: nat)
    requires a < p && c % p == 0
    ensures (a + c) / p == c / p
  {
    var q := c / p;
    assert c == q * p;
    Split(a, q, p);
  }

  lemma ModLe(x: nat, p: nat)
    requires p > 0
    ensures x % p <= x
  {
  }

  lemma DivBoundMul(x: nat, p: nat, q: nat)
    requires p > 0 && x < p * q
    ensures x / p < q
  {
    var d := x / p;
    assert d * p <= x;
    if d >= q {
      MulLe(q, d, p);
    }
  }

  lemma DisjointSumBoundMul(a: nat, c: nat, p: nat, r: nat)
    requires a < p && c % p == 0 && c < p * r
    ensures a + c < p * r
  {
    var q := c / p;
    assert c == q * p;
    DivBoundMul(c, p, r);
    MulLe(q, r - 1, p);
    assert (r - 1) * p == p * r - p;
  }

  lemma MulKeepsLow(x: nat, pr: nat, ps: nat)
    requires pr > 0 && ps > 0
    ensures pr * ps > 0 && (x * ps) % (pr * ps) == (x % pr) * ps
  {
    MulLe(1, ps, pr);
    var lo, hi := x % pr, x / pr;
    assert x == hi * pr + lo;
    assert x * ps == hi * (pr * ps) + lo * ps by {
      assert x * ps == (hi * pr + lo) * ps;
    }
    assert lo * ps < pr * ps by {
      MulLe(lo, pr - 1, ps);
      assert (pr - 1) * ps == pr * ps - ps;
    }
    MulNonneg(lo, ps);
    DivModUnique(x * ps, pr * ps, hi, lo * ps);
  }

  lemma FieldIgnoresHigh(x: nat, y: nat, pm: nat, pl: nat)
    requires pm > 0 && pl > 0 && y % (pm * pl) == 0
    ensures pm * pl > 0 && ((x + y) / pm) % pl == (x / pm) % pl
  {
    MulLe(1, pl, pm);
    var k := y / (pm * pl);
    assert y == k * (pm * pl);
    var lo, hi := x % pm, x / pm;
    assert x + y == lo + (hi + k * pl) * pm by {
      assert x == hi * pm + lo;
      assert k * (pm * pl) == (k * pl) * pm;
    }
    Split(lo, hi + k * pl, pm);
    Split(hi % pl, hi / pl + k, pl);
    assert hi + k * pl == hi % pl + (hi / pl + k) * pl;
  }

  // ---------------------------------------------------------------------------
  // Powers of two

  lemma {:induction false} Pow2Add(a: nat, b: nat)
    ensures Pow2(a + b) == Pow2(a) * Pow2(b)
  {
    if a > 0 {
      Pow2Add(a - 1, b);
      assert Pow2(a + b) == 2 * Pow2(a - 1 + b);
    }
  }

  lemma Pow2Monotone(a: nat, b: nat)
    requires a <= b
    ensures Pow2(a) <= Pow2(b)
  {
    Pow2Add(a, b - a);
    MulLe(1, Pow2(b - a), Pow2(a));
  }

  lemma Pow2Uint()
    ensures Pow2(UintBits) == 0x1_0000_0000
  {
    assert Pow2(8) == 256 by {
      assert Pow2(4) == 16;
    }
    assert Pow2(16) == 65536 by {
      Pow2Add(8, 8);
    }
    Pow2Add(16, 16);
  }

  /** `Shr` divides by `2^s`. */
  lemma {:induction false} ShrIsDiv(x: nat, s: nat)
    ensures Shr(x, s) == x / Pow2(s)
  {
    if s > 0 {
      ShrIsDiv(x / 2, s - 1);
      DivModMul(x, 2, Pow2(s - 1));
    }
  }

  /** `Shl` multiplies by `2^s` modulo `2^32`. */
  lemma {:induction false} ShlIsMul(x: nat, s: nat)
    ensures Shl(x, s) == (x * Pow2(s)) % Pow2(UintBits)
    decreases s
  {
    Pow2Uint();
    if s > 0 {
      ShlIsMul(2 * x, s - 1);
      assert (2 * x) * Pow2(s - 1) == x * Pow2(s);
    }
  }

  /** Taking the low `a + b` bits is taking the low `a` bits and then `b` bits of the rest. */
  lemma DivModPow2Add(x: nat, a: nat, b: nat)
    ensures x % Pow2(a + b) == x % Pow2(a) + (x / Pow2(a)) % Pow2(b) * Pow2(a)
    ensures x / Pow2(a + b) == x / Pow2(a) / Pow2(b)
  {
    Pow2Add(a, b);
    DivModMul(x, Pow2(a), Pow2(b));
  }

  lemma ModOfMod(x: nat, l: nat, m: nat)
    requires l <= m
    ensures (x % Pow2(m)) % Pow2(l) == x % Pow2(l)
  {
    DivModPow2Add(x, l, m - l);
    Split(x % Pow2(l), (x / Pow2(l)) % Pow2(m - l), Pow2(l));
  }

  /** A quotient by `2^k` of an `n`-bit number has `n - k` bits. */
  lemma ShrBound(x: nat, k: nat, n: nat)
    requires x < Pow2(n) && k <= n
    ensures Shr(x, k) < Pow2(n - k)
  {
    ShrIsDiv(x, k);
    Pow2Add(k, n - k);
    DivBoundMul(x, Pow2(k), Pow2(n - k));
  }

  /** A 32-bit left shift by `s` keeps the low `32 - s` bits of `x`, moved up by `s`. */
  lemma ShlKeepsLowBits(x: nat, s: nat)
    requires s <= UintBits
    ensures Shl(x, s) == (x % Pow2(UintBits - s)) * Pow2(s)
  {
    ShlIsMul(x, s);
    Pow2Add(UintBits - s, s);
    MulKeepsLow(x, Pow2(UintBits - s), Pow2(s));
  }

  /** A value that still fits in 32 bits after a left shift is not truncated by it. */
  lemma ShlNoWrap(x: nat, s: nat, n: nat)
    requires x < Pow2(n) && s + n <= UintBits
    ensures Shl(x, s) == x * Pow2(s)
    ensures Shl(x, s) < Pow2(s + n)
  {
    ShlKeepsLowBits(x, s);
    Pow2Monotone(n, UintBits - s);
    Split(x, 0, Pow2(UintBits - s));
    Pow2Add(s, n);
    MulBelow(x, Pow2(n), Pow2(s));
  }

  // ---------------------------------------------------------------------------
  // Multiples of powers of two

  predicate MultipleOfPow2(x: nat, m: nat)
  {
    x % Pow2(m) == 0
  }

  lemma MultipleOfPow2Weaken(x: nat, m: nat, l: nat)
    requires MultipleOfPow2(x, m) && l <= m
    ensures MultipleOfPow2(x, l)
  {
    ModOfMod(x, l, m);
    var pl := Pow2(l);
    assert x % pl == 0 % pl;
  }

  lemma MultipleOfPow2Times(y: nat, m: nat)
    ensures MultipleOfPow2(y * Pow2(m), m)
  {
    Split(0, y, Pow2(m));
  }

  /** A number below `2^m` plus a multiple of `2^m` below `2^n` stays below `2^n`. */
  lemma DisjointSumBound(a: nat, c: nat, m: nat, n: nat)
    requires a < Pow2(m) && MultipleOfPow2(c, m) && c < Pow2(n) && m <= n
    ensures a + c < Pow2(n)
  {
    Pow2Add(m, n - m);
    DisjointSumBoundMul(a, c, Pow2(m), Pow2(n - m));
  }

  /** Bits at or above position `m` added to a number below `2^m`: shifting
      right by `m` sees only the added bits. */
  lemma ShrOfDisjointSum(a: nat, c: nat, m: nat)
    requires a < Pow2(m) && MultipleOfPow2(c, m)
    ensures Shr(a + c, m) == Shr(c, m)
  {
    ShrIsDiv(a + c, m);
    ShrIsDiv(c, m);
    DivOfDisjointSum(a, c, Pow2(m));
  }

  /** Bits added at or above position `m + l` do not disturb the field of `l` bits at `m`. */
  lemma FieldIgnoresHighBits(x: nat, y: nat, m: nat, l: nat)
    requires MultipleOfPow2(y, m + l)
    ensures Shr(x + y, m) % Pow2(l) == Shr(x, m) % Pow2(l)
  {
    ShrIsDiv(x + y, m);
    ShrIsDiv(x, m);
    Pow2Add(m, l);
    FieldIgnoresHigh(x, y, Pow2(m), Pow2(l));
  }

  // ---------------------------------------------------------------------------
  // Bitwise OR and AND

  /** OR of two bit-disjoint numbers, one below `2^m` and the other a multiple
      of `2^m`, is their sum: no bit is lost or merged. */
  lemma {:induction false} BitOrDisjoint(a: nat, b: nat, m: nat)
    requires a < Pow2(m) && MultipleOfPow2(b, m)
    ensures BitOr(a, b) == a + b
    decreases m
  {
    if a != 0 && b != 0 {
      assert m > 0;
      var k := b / Pow2(m);
      assert b == k * Pow2(m);
      assert b == (k * Pow2(m - 1)) * 2;
      Split(0, k * Pow2(m - 1), 2);
      MultipleOfPow2Times(k, m - 1);
      BitOrDisjoint(a / 2, b / 2, m - 1);
    }
  }

  /** AND with `2^n - 1` keeps exactly the `n` low bits. */
  lemma {:induction false} BitAndMask(x: nat, n: nat)
    ensures BitAnd(x, Mask(n)) == x % Pow2(n)
  {
    if n > 0 && x != 0 {
      var m1 := Mask(n - 1);
      assert Mask(n) == 2 * m1 + 1;
      assert BitAnd(x, Mask(n)) == 2 * BitAnd(x / 2, m1) + x % 2;
      BitAndMask(x / 2, n - 1);
      Pow2Add(1, n - 1);
      assert Pow2(1) == 2;
      DivModMul(x, 2, Pow2(n - 1));
    }
  }
}
