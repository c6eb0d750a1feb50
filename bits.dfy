/** Bitwise arithmetic on non-negative integers.

    Java's `int` bit operations used by the hash table (`&` for the bucket
    index and the resize split bit, `|` and `>>>` for rounding a capacity up to
    a power of two) are modelled here on the unsigned value of the 32-bit
    pattern, so that the rest of the model can reason about them with ordinary
    arithmetic. */
module Bits {

  /** 2^k. */
  function Pow2(k: nat): (r: nat)
    ensures r >= 1
  {
    if k == 0 then 1 else 2 * Pow2(k - 1)
  }

  /** Java `a & b` for non-negative operands. */
  function And(a: nat, b: nat): nat
    decreases a
  {
    if a == 0 || b == 0 then 0
    else 2 * And(a / 2, b / 2) + (if a % 2 == 1 && b % 2 == 1 then 1 else 0)
  }

  /** Java `a | b` for non-negative operands. */
  function Or(a: nat, b: nat): nat
    decreases a
  {
    if a == 0 then b
    else if b == 0 then a
    else 2 * Or(a / 2, b / 2) + (if a % 2 == 1 || b % 2 == 1 then 1 else 0)
  }

  /** Java `a ^ b` for non-negative operands. */
  function Xor(a: nat, b: nat): nat
    decreases a
  {
    if a == 0 then b
    else if b == 0 then a
    else 2 * Xor(a / 2, b / 2) + (if a % 2 != b % 2 then 1 else 0)
  }

  /** n is a power of two. */
  predicate IsPow2(n: int)
    decreases if n > 0 then n else 0
  {
    n == 1 || (n >= 2 && n % 2 == 0 && IsPow2(n / 2))
  }

  /** Number of significant bits of n (0 for 0). */
  function BitLen(n: nat): nat
  {
    if n == 0 then 0 else 1 + BitLen(n / 2)
  }

  // ---------------------------------------------------------------------
  // Arithmetic helpers

  lemma {:induction false} Pow2Add(a: nat, b: nat)
    ensures Pow2(a + b) == Pow2(a) * Pow2(b)
  {
    if a > 0 {
      Pow2Add(a - 1, b);
    }
  }

  lemma {:induction false} Pow2Mono(a: nat, b: nat)
    requires a <= b
    ensures Pow2(a) <= Pow2(b)
  {
    if a < b {
      Pow2Mono(a, b - 1);
    }
  }

  lemma {:induction false} Pow2IsPow2(k: nat)
    ensures IsPow2(Pow2(k))
  {
    if k > 0 {
      Pow2IsPow2(k - 1);
      assert Pow2(k) / 2 == Pow2(k - 1);
    }
  }

  /** Between powers of two a < b there is room for 2a. */
  lemma {:induction false} Pow2Gap(a: int, b: int)
    requires IsPow2(a) && IsPow2(b) && a < b
    ensures 2 * a <= b
    decreases a
  {
    if a >= 2 {
      Pow2Gap(a / 2, b / 2);
    }
  }

  /** A power of two strictly above 2^(k-1) is at least 2^k. */
  lemma {:induction false} Pow2Above(p: int, k: nat)
    requires IsPow2(p) && k >= 1 && p > Pow2(k - 1)
    ensures p >= Pow2(k)
  {
    if k >= 2 {
      assert p != 1;
      Pow2Above(p / 2, k - 1);
    }
  }

  /** x % n is determined by any decomposition x == q*n + r with 0 <= r < n. */
  lemma ModUnique(x: nat, n: nat, q: nat, r: nat)
    requires n >= 1 && x == q * n + r && r < n
    ensures x % n == r && x / n == q
  {
    var q' := x / n;
    var r' := x % n;
    assert x == q' * n + r';
    assert q' < q ==> (q' + 1) * n <= q * n;
    assert q' > q ==> (q + 1) * n <= q' * n;
  }

  /** Peeling the lowest bit: x mod 2m from x/2 mod m. */
  lemma ModDouble(x: nat, m: nat)
    requires m >= 1
    ensures x % (2 * m) == 2 * ((x / 2) % m) + x % 2
  {
    var h := x / 2;
    var q := h / m;
    var s := h % m;
    assert h == q * m + s;
    assert x == 2 * h + x % 2;
    assert x == q * (2 * m) + (2 * s + x % 2);
    ModUnique(x, 2 * m, q, 2 * s + x % 2);
  }

  // ---------------------------------------------------------------------
  // The bucket index: for a power of two n, (n - 1) & h is h mod n.

  lemma {:induction false} MaskIsRemainder(n: int, x: nat)
    requires IsPow2(n)
    ensures And(n - 1, x) == x % n
    decreases n
  {
    if n >= 2 && x != 0 {
      var m := n / 2;
      MaskIsRemainder(m, x / 2);
      assert (n - 1) / 2 == m - 1 && (n - 1) % 2 == 1;
      assert And(n - 1, x) == 2 * And(m - 1, x / 2) + x % 2;
      ModDouble(x, m);
    }
  }

  /** For a power of two n, `x & n` is either 0 or n, and it is the one bit that
      separates x mod 2n from x mod n. */
  lemma {:induction false} SplitBit(n: int, x: nat)
    requires IsPow2(n)
    ensures And(x, n) == 0 || And(x, n) == n
    ensures x % (2 * n) == x % n + (if And(x, n) == 0 then 0 else n)
    decreases n
  {
    if n == 1 {
      if x != 0 {
        assert And(x, 1) == 2 * And(x / 2, 0) + (if x % 2 == 1 then 1 else 0);
      }
      ModDouble(x, 1);
    } else {
      var m := n / 2;
      SplitBit(m, x / 2);
      if x != 0 {
        assert And(x, n) == 2 * And(x / 2, m);
      }
      ModDouble(x, n);
      ModDouble(x, m);
    }
  }

  // ---------------------------------------------------------------------
  // Or and the bit smearing of tableSizeFor

  /** Java `x >>> k` for the unsigned value x of a 32-bit pattern. */
  function Shr(x: nat, k: nat): nat
  {
    if k == 0 then x else Shr(x / 2, k - 1)
  }

  /** Bit i of x is set. */
  predicate Bit(x: nat, i: nat)
  {
    Shr(x, i) % 2 == 1
  }

  lemma {:induction false} OrBound(a: nat, b: nat, j: nat)
    requires a < Pow2(j) && b < Pow2(j)
    ensures Or(a, b) < Pow2(j)
    decreases a
  {
    if a != 0 && b != 0 {
      OrBound(a / 2, b / 2, j - 1);
    }
  }

  lemma {:induction false} OrAtLeastLeft(a: nat, b: nat)
    ensures Or(a, b) >= a
    decreases a
  {
    if a != 0 && b != 0 {
      OrAtLeastLeft(a / 2, b / 2);
    }
  }

  lemma {:induction false} ShrBelow(x: nat, k: nat)
    ensures Shr(x, k) <= x
  {
    if k > 0 {
      ShrBelow(x / 2, k - 1);
    }
  }

  lemma {:induction false} ShrFits(x: nat, k: nat, n: nat)
    requires x < Pow2(n + k)
    ensures Shr(x, k) < Pow2(n)
  {
    if k > 0 {
      ShrFits(x / 2, k - 1, n);
    }
  }

  lemma {:induction false} ShrShr(x: nat, a: nat, b: nat)
    ensures Shr(Shr(x, a), b) == Shr(x, a + b)
  {
    if a > 0 {
      ShrShr(x / 2, a - 1, b);
    }
  }

  /** Every bit set in either operand is set in the Or. */
  lemma {:induction false} OrBit(a: nat, b: nat, i: nat)
    requires Bit(a, i) || Bit(b, i)
    ensures Bit(Or(a, b), i)
  {
    if a != 0 && b != 0 {
      var o := Or(a, b);
      assert o == 2 * Or(a / 2, b / 2) + (if a % 2 == 1 || b % 2 == 1 then 1 else 0);
      if i > 0 {
        assert o / 2 == Or(a / 2, b / 2);
        OrBit(a / 2, b / 2, i - 1);
      }
    } else {
      ShrZero(i);
    }
  }

  lemma {:induction false} ShrZero(k: nat)
    ensures Shr(0, k) == 0
  {
    if k > 0 {
      ShrZero(k - 1);
    }
  }

  /** The bits L-w .. L-1 of x are all set. */
  predicate OnesBelow(x: nat, L: nat, w: nat)
  {
    forall i: nat :: L - w <= i < L ==> Bit(x, i)
  }

  /** One step `x |= x >>> w` doubles a run of w ones ending at bit L-1. */
  lemma SmearStep(x: nat, L: nat, w: nat)
    requires OnesBelow(x, L, w)
    ensures OnesBelow(Or(x, Shr(x, w)), L, 2 * w)
  {
    forall i: nat | L - 2 * w <= i < L
      ensures Bit(Or(x, Shr(x, w)), i)
    {
      if i < L - w {
        ShrShr(x, w, i);
        assert Bit(Shr(x, w), i) == Bit(x, w + i);
      }
      OrBit(x, Shr(x, w), i);
    }
  }

  /** A number below 2^L with its L low bits set is 2^L - 1. */
  lemma {:induction false} AllOnes(x: nat, L: nat)
    requires x < Pow2(L) && OnesBelow(x, L, L)
    ensures x == Pow2(L) - 1
  {
    if L > 0 {
      assert Bit(x, 0);
      forall i: nat | L - 1 - (L - 1) <= i < L - 1
        ensures Bit(x / 2, i)
      {
        assert Bit(x, i + 1);
      }
      AllOnes(x / 2, L - 1);
    }
  }

  lemma {:induction false} BitLenAtMost(n: nat, k: nat)
    requires n < Pow2(k)
    ensures BitLen(n) <= k
  {
    if n > 0 {
      BitLenAtMost(n / 2, k - 1);
    }
  }

  lemma {:induction false} BitLenBounds(n: nat)
    ensures n < Pow2(BitLen(n))
    ensures n >= 1 ==> Pow2(BitLen(n) - 1) <= n
  {
    if n > 0 {
      BitLenBounds(n / 2);
    }
  }

  /** The top bit of a positive number is set. */
  lemma {:induction false} TopBit(n: nat)
    requires n >= 1
    ensures Bit(n, BitLen(n) - 1)
  {
    if n / 2 != 0 {
      TopBit(n / 2);
      assert BitLen(n) - 1 == BitLen(n / 2);
    }
  }

  /** The smearing steps `n |= n >>> s` for s = 1, 2, 4, 8, 16. */
  function SmearFrom(n: nat, s: nat): nat
    requires s >= 1
    decreases 32 - s
  {
    if s > 16 then n else SmearFrom(Or(n, Shr(n, s)), 2 * s)
  }

  /** The five smearing steps of tableSizeFor on the unsigned value of n. */
  function Smear(n: nat): nat
  {
    SmearFrom(n, 1)
  }

  /** The remaining steps keep a number below 2^L, never lower it, and
      extend a run of s ones below bit L to the whole of bits 0 .. L-1. */
  lemma {:induction false} SmearFromSpec(n: nat, s: nat, L: nat)
    requires s >= 1 && n < Pow2(L) && OnesBelow(n, L, s)
    requires s == 1 || s == 2 || s == 4 || s == 8 || s == 16 || s == 32
    ensures SmearFrom(n, s) < Pow2(L) && OnesBelow(SmearFrom(n, s), L, 32)
    decreases 32 - s
  {
    if s <= 16 {
      SmearStep(n, L, s);
      ShrBelow(n, s);
      OrBound(n, Shr(n, s), L);
      SmearFromSpec(Or(n, Shr(n, s)), 2 * s, L);
    }
  }

  lemma {:induction false} SmearFromAtLeast(n: nat, s: nat)
    requires s >= 1
    ensures SmearFrom(n, s) >= n
    decreases 32 - s
  {
    if s <= 16 {
      OrAtLeastLeft(n, Shr(n, s));
      SmearFromAtLeast(Or(n, Shr(n, s)), 2 * s);
    }
  }

  /** Smearing never lowers a number. */
  lemma SmearAtLeast(n: nat)
    ensures Smear(n) >= n
  {
    SmearFromAtLeast(n, 1);
  }

  /** Smearing a number below 2^32 sets every bit below its highest one. */
  lemma SmearAllOnes(n: nat)
    requires n < Pow2(32)
    ensures Smear(n) == Pow2(BitLen(n)) - 1
  {
    var L := BitLen(n);
    BitLenBounds(n);
    BitLenAtMost(n, 32);
    if n >= 1 {
      TopBit(n);
    }
    assert OnesBelow(n, L, 1);
    SmearFromSpec(n, 1, L);
    AllOnes(Smear(n), L);
  }

  // ---------------------------------------------------------------------
  // Xor and shifts

  /** The recursion of Xor also holds when an operand is zero. */
  lemma XorStep(a: nat, b: nat)
    ensures Xor(a, b) == 2 * Xor(a / 2, b / 2) + (if a % 2 != b % 2 then 1 else 0)
  {
    if a == 0 {
      assert Xor(a / 2, b / 2) == b / 2;
    } else if b == 0 {
      assert Xor(a / 2, b / 2) == a / 2;
    }
  }

  lemma {:induction false} XorCancel(a: nat, b: nat)
    ensures Xor(Xor(a, b), b) == a
    decreases a + b
  {
    if a + b > 0 {
      var x := Xor(a, b);
      XorStep(a, b);
      XorStep(x, b);
      XorCancel(a / 2, b / 2);
      assert x / 2 == Xor(a / 2, b / 2);
    } else {
      assert Xor(0, 0) == 0;
    }
  }

  lemma {:induction false} XorBound(a: nat, b: nat, j: nat)
    requires a < Pow2(j) && b < Pow2(j)
    ensures Xor(a, b) < Pow2(j)
    decreases a
  {
    if a != 0 && b != 0 {
      XorBound(a / 2, b / 2, j - 1);
    }
  }

  lemma {:induction false} ShrXor(a: nat, b: nat, k: nat)
    ensures Shr(Xor(a, b), k) == Xor(Shr(a, k), Shr(b, k))
  {
    if k > 0 {
      XorStep(a, b);
      assert Xor(a, b) / 2 == Xor(a / 2, b / 2);
      ShrXor(a / 2, b / 2, k - 1);
    }
  }

  /** The low k bits of a ^ b are the xor of the low k bits of a and b. */
  lemma {:induction false} XorLow(a: nat, b: nat, k: nat)
    ensures Xor(a, b) % Pow2(k) == Xor(a % Pow2(k), b % Pow2(k))
    decreases k
  {
    if k == 0 {
      assert Xor(0, 0) == 0;
    } else {
      var q := Pow2(k - 1);
      var a', b' := a % (2 * q), b % (2 * q);
      ModDouble(a, q);
      ModDouble(b, q);
      ModDouble(Xor(a, b), q);
      XorStep(a, b);
      XorStep(a', b');
      XorLow(a / 2, b / 2, k - 1);
      assert a' / 2 == (a / 2) % q && a' % 2 == a % 2;
      assert b' / 2 == (b / 2) % q && b' % 2 == b % 2;
      var x := Xor(a, b);
      assert x / 2 == Xor(a / 2, b / 2) && x % 2 == (if a % 2 != b % 2 then 1 else 0);
      calc {
        x % Pow2(k);
        x % (2 * q);
        2 * ((x / 2) % q) + x % 2;
        2 * Xor(a' / 2, b' / 2) + (if a' % 2 != b' % 2 then 1 else 0);
        Xor(a', b');
      }
    }
  }

  lemma {:induction false} ShrSmall(x: nat, k: nat)
    requires x < Pow2(k)
    ensures Shr(x, k) == 0
  {
    if k > 0 {
      ShrSmall(x / 2, k - 1);
    }
  }
}
