/** Shifts and masks on unbounded naturals. `x << s`, `x >> s` and
    `x & (2**s - 1)` are defined by recursion on the shift amount, doubling or
    halving one step at a time, so that reasoning about them stays linear. */
module Arith {

  function Pow2(n: nat): (r: nat)
    ensures r >= 1
  {
    if n == 0 then 1 else 2 * Pow2(n - 1)
  }

  /** The powers of two up to a byte. */
  lemma Pow2Byte()
    ensures Pow2(0) == 1 && Pow2(1) == 2 && Pow2(2) == 4 && Pow2(3) == 8 && Pow2(4) == 16
    ensures Pow2(5) == 32 && Pow2(6) == 64 && Pow2(7) == 128 && Pow2(8) == 256
  {
  }

  /** `x << s` */
  function Shl(x: nat, s: nat): nat
  {
    if s == 0 then x else 2 * Shl(x, s - 1)
  }

  /** `x >> s` */
  function Shr(x: nat, s: nat): nat
  {
    if s == 0 then x else Shr(x / 2, s - 1)
  }

  /** `x & (2**e - 1)`: the low e bits of x. */
  function Mask(x: nat, e: nat): nat
  {
    if e == 0 then 0 else 2 * Mask(x / 2, e - 1) + x % 2
  }

  /** `x & (1 << k)` is non-zero: bit k of x is set. */
  predicate FlagSet(x: nat, k: nat)
  {
    Shr(x, k) % 2 == 1
  }

  /** The l bits of a byte x that start m bits below its top bit:
      `(x & (2**(8 - m) - 1)) >> (8 - m - l)`. */
  function ByteBits(x: nat, m: nat, l: nat): nat
    requires m + l <= 8
  {
    Shr(Mask(x, 8 - m), 8 - m - l)
  }

  /** All eight bits of a byte are the byte. */
  lemma ByteBitsAll(x: nat)
    requires x < 256
    ensures ByteBits(x, 0, 8) == x
  {
    MaskIsMod(x, 8);
    Pow2Byte();
    DivModUnique(x, 256, 0, x);
  }

  lemma {:induction false} Pow2Add(a: nat, b: nat)
    ensures Pow2(a + b) == Pow2(a) * Pow2(b)
    decreases b
  {
    if b > 0 {
      Pow2Add(a, b - 1);
      calc {
        Pow2(a + b);
        2 * Pow2(a + b - 1);
        2 * (Pow2(a) * Pow2(b - 1));
        Pow2(a) * (2 * Pow2(b - 1));
        Pow2(a) * Pow2(b);
      }
    }
  }

  /** The shift is multiplication by a power of two. */
  lemma {:induction false} ShlIsMul(x: nat, s: nat)
    ensures Shl(x, s) == x * Pow2(s)
    decreases s
  {
    if s > 0 {
      ShlIsMul(x, s - 1);
      assert x * (2 * Pow2(s - 1)) == 2 * (x * Pow2(s - 1));
    }
  }

  lemma {:induction false} MaskBound(x: nat, e: nat)
    ensures Mask(x, e) < Pow2(e)
    decreases e
  {
    if e > 0 {
      MaskBound(x / 2, e - 1);
    }
  }

  /** Shifting right by j + 1 is shifting right by j and halving. */
  lemma {:induction false} ShrHalf(x: nat, j: nat, j1: nat)
    requires j1 == j + 1
    ensures Shr(x, j1) == Shr(x, j) / 2
    decreases j
  {
    if j > 0 {
      ShrHalf(x / 2, j - 1, j);
    }
  }

  /** A value below 2^k has nothing left after a shift by k. */
  lemma {:induction false} ShrSmall(y: nat, k: nat)
    requires y < Pow2(k)
    ensures Shr(y, k) == 0
    decreases k
  {
    if k > 0 {
      ShrSmall(y / 2, k - 1);
    }
  }

  /** Masking to the low k bits leaves bit j < k unchanged. */
  lemma {:induction false} MaskKeepsBit(x: nat, k: nat, j: nat)
    requires j < k
    ensures Shr(Mask(x, k), j) % 2 == Shr(x, j) % 2
    decreases j
  {
    if j > 0 {
      MaskKeepsBit(x / 2, k - 1, j - 1);
      assert Mask(x, k) / 2 == Mask(x / 2, k - 1);
    }
  }

  /** Shifting a value up by s and adding something narrower than s bits can be
      undone: for x = (hi << s) + lo, the shift right by s recovers the high
      part and the mask the low. */
  lemma {:induction false} ShlAddParts(hi: nat, lo: nat, s: nat, x: nat)
    requires lo < Pow2(s) && x == Shl(hi, s) + lo
    ensures Shr(x, s) == hi
    ensures Mask(x, s) == lo
    decreases s
  {
    if s > 0 {
      ShlAddParts(hi, lo / 2, s - 1, x / 2);
    }
  }

  /** Multiplication as repeated addition, `a * b` as b copies of a; kept
      linear so that sizes built from it stay cheap to reason about. */
  function Mul(a: nat, b: nat): nat
  {
    if b == 0 then 0 else Mul(a, b - 1) + a
  }

  lemma {:induction false} MulIsTimes(a: nat, b: nat)
    ensures Mul(a, b) == a * b
    decreases b
  {
    if b > 0 {
      MulIsTimes(a, b - 1);
    }
  }

  lemma {:induction false} MulGrows(a: nat, b: nat, c: nat)
    requires b <= c
    ensures Mul(a, b) <= Mul(a, c)
    decreases c
  {
    if b < c {
      MulGrows(a, b, c - 1);
    }
  }

  lemma {:induction false} MulOne(b: nat)
    ensures Mul(1, b) == b
    decreases b
  {
    if b > 0 {
      MulOne(b - 1);
    }
  }

  lemma {:induction false} MulZero(b: nat)
    ensures Mul(0, b) == 0
    decreases b
  {
    if b > 0 {
      MulZero(b - 1);
    }
  }

  /** The order of two factors applied to x does not matter. */
  lemma MulSwap(x: nat, a: nat, b: nat)
    ensures Mul(Mul(x, a), b) == Mul(Mul(x, b), a)
  {
    MulIsTimes(x, a);
    MulIsTimes(x, b);
    MulIsTimes(x * a, b);
    MulIsTimes(x * b, a);
    assert (x * a) * b == (x * b) * a;
  }

  /** Dividing by 2p is halving and then dividing by p; the remainder is
      rebuilt from the two remainders. */
  lemma DivTwice(x: nat, p: nat)
    requires p >= 1
    ensures x / (2 * p) == (x / 2) / p
    ensures x % (2 * p) == 2 * ((x / 2) % p) + x % 2
  {
    var q := (x / 2) / p;
    var r1 := (x / 2) % p;
    assert x / 2 == p * q + r1;
    assert x == (2 * p) * q + (2 * r1 + x % 2);
    DivModUnique(x, 2 * p, q, 2 * r1 + x % 2);
  }

  /** `x >> s` is x divided by 2^s. */
  lemma {:induction false} ShrIsDiv(x: nat, s: nat)
    ensures Shr(x, s) == x / Pow2(s)
    decreases s
  {
    if s > 0 {
      ShrIsDiv(x / 2, s - 1);
      DivTwice(x, Pow2(s - 1));
    }
  }

  /** The low e bits of x are x modulo 2^e. */
  lemma {:induction false} MaskIsMod(x: nat, e: nat)
    ensures Mask(x, e) == x % Pow2(e)
    decreases e
  {
    if e > 0 {
      MaskIsMod(x / 2, e - 1);
      DivTwice(x, Pow2(e - 1));
    }
  }

  /** Quotient and remainder are determined by the division equation. */
  lemma DivModUnique(x: int, d: int, q: int, r: int)
    requires d > 0 && 0 <= r < d && x == d * q + r
    ensures x / d == q && x % d == r
  {
    var q' := x / d;
    var r' := x % d;
    assert (q' - q) * d == r - r';
    if q' > q {
      MulMono(1, q' - q, d);
      assert false;
    } else if q' < q {
      MulMono(1, q - q', d);
      assert false;
    }
  }

  lemma {:induction false} MulMono(a: nat, b: nat, c: nat)
    requires a <= b
    ensures a * c <= b * c
    decreases c
  {
    if c > 0 {
      MulMono(a, b, c - 1);
      assert a * c == a * (c - 1) + a;
      assert b * c == b * (c - 1) + b;
    }
  }
}
