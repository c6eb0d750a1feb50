/** Hash spreading, bucket indexing and table-size rounding of the hash table
    (HashMap.java lines 170-340, 1256-1261, 1569-1572). */
module Hashing {
  import opened Bits

  /** The default initial capacity; must be a power of two. */
  const DEFAULT_INITIAL_CAPACITY: int := 16
  /** The largest capacity, 1 << 30. */
  const MAXIMUM_CAPACITY: int := 0x4000_0000
  /** The load factor used when none is given (0.75f, without float rounding). */
  const DEFAULT_LOAD_FACTOR: real := 0.75
  /** A bin with at least this many nodes is converted to a tree on insertion. */
  const TREEIFY_THRESHOLD: int := 8
  /** A tree bin split by a resize with at most this many nodes becomes a list. */
  const UNTREEIFY_THRESHOLD: int := 6
  /** Below this capacity, a long bin triggers a resize instead of a tree. */
  const MIN_TREEIFY_CAPACITY: int := 64
  /** Integer.MAX_VALUE. */
  const INT_MAX: int := 0x7FFF_FFFF

  /** Java's `int`. */
  newtype int32 = x: int | -0x8000_0000 <= x < 0x8000_0000

  /** The value of a Java `int` computation reduced to 32 bits (two's complement). */
  function Wrap32(x: int): (r: int32)
    ensures (r as int - x) % 0x1_0000_0000 == 0
  {
    ((x + 0x8000_0000) % 0x1_0000_0000 - 0x8000_0000) as int32
  }

  lemma Pow2Values()
    ensures Pow2(4) == 16 && Pow2(6) == 64 && Pow2(30) == MAXIMUM_CAPACITY
    ensures Pow2(31) == 0x8000_0000 && Pow2(32) == 0x1_0000_0000
  {
    assert Pow2(4) == 16;
    assert Pow2(6) == 64;
    assert Pow2(8) == 256 by { Pow2Add(4, 4); }
    assert Pow2(16) == 65536 by { Pow2Add(8, 8); }
    assert Pow2(32) == 0x1_0000_0000 by { Pow2Add(16, 16); }
    assert Pow2(30) == 0x4000_0000 by { Pow2Add(16, 14); Pow2Add(8, 6); }
  }

  // ---------------------------------------------------------------------
  // hash(key)

  /** The bit pattern of a Java `int` hash, read as an unsigned number. */
  type u32 = x: nat | x < 0x1_0000_0000

  /** The value a Java `int` comparison sees for the pattern h. */
  function Signed(h: u32): int
  {
    if h < 0x8000_0000 then h else h - 0x1_0000_0000
  }

  /** `h ^ (h >>> 16)`: the high half of the key's hash code is folded into
      the low half, which is all that small tables index by. */
  function Spread(h: u32): u32
  {
    Pow2Values();
    ShrBelow(h, 16);
    XorBound(h, Shr(h, 16), 32);
    Xor(h, Shr(h, 16))
  }

  /** The upper 16 bits pass through unchanged. */
  lemma SpreadKeepsHigh(h: u32)
    ensures Shr(Spread(h), 16) == Shr(h, 16)
  {
    Pow2Values();
    ShrXor(h, Shr(h, 16), 16);
    ShrShr(h, 16, 16);
    ShrSmall(h, 32);
    assert Xor(Shr(h, 16), 0) == Shr(h, 16);
  }

  /** The lower 16 bits are the xor of the two halves of h. */
  lemma SpreadLowHalf(h: u32)
    ensures Spread(h) % 0x1_0000 == Xor(h % 0x1_0000, Shr(h, 16))
  {
    var x := Shr(h, 16);
    var p := Pow2(16);
    assert p == 0x1_0000 && Pow2(32) == 0x1_0000_0000 by { Pow2Values(); }
    ShrFits(h, 16, 16);
    assert x % p == x;
    XorLow(h, x, 16);
    assert Spread(h) == Xor(h, x);
  }

  /** Spreading is its own inverse, so distinct hash codes stay distinct. */
  lemma SpreadInvolution(h: u32)
    ensures Spread(Spread(h)) == h
  {
    SpreadKeepsHigh(h);
    XorCancel(h, Shr(h, 16));
  }

  lemma SpreadInjective(a: u32, b: u32)
    ensures Spread(a) == Spread(b) <==> a == b
  {
    SpreadInvolution(a);
    SpreadInvolution(b);
  }

  /** hash(key): 0 for the null key, the spread hash code otherwise. */
  function Hash<K>(key: Option<K>, hashCode: K -> u32): u32
  {
    match key
    case None => 0
    case Some(k) => Spread(hashCode(k))
  }

  /** The null key hashes to 0; any other key keeps the upper half of its
      hash code and gets the xor of both halves as its lower half. */
  lemma HashHalves<K>(key: Option<K>, hashCode: K -> u32)
    ensures key.None? ==> Hash(key, hashCode) == 0
    ensures key.Some? ==>
              var h := hashCode(key.value);
              Shr(Hash(key, hashCode), 16) == Shr(h, 16) &&
              Hash(key, hashCode) % 0x1_0000 == Xor(h % 0x1_0000, Shr(h, 16))
  {
    if key.Some? {
      SpreadKeepsHigh(hashCode(key.value));
      SpreadLowHalf(hashCode(key.value));
    }
  }

  /** Keys whose hash codes differ have different hashes. */
  lemma HashSeparates<K>(a: K, b: K, hashCode: K -> u32)
    requires hashCode(a) != hashCode(b)
    ensures Hash(Some(a), hashCode) != Hash(Some(b), hashCode)
  {
    SpreadInjective(hashCode(a), hashCode(b));
  }

  datatype Option<T> = None | Some(value: T)

  // ---------------------------------------------------------------------
  // Bucket index: (n - 1) & hash

  /** The bucket of a node with hash h in a table of n slots. */
  function IndexFor(h: u32, n: int): int
    requires n >= 1
  {
    And(n - 1, h)
  }

  /** In a power-of-two table the mask is the remainder, so every hash lands
      in a slot of the table. */
  lemma IndexInRange(h: u32, n: int)
    requires IsPow2(n)
    ensures IndexFor(h, n) == (h) % n
    ensures 0 <= IndexFor(h, n) < n
  {
    MaskIsRemainder(n, h);
  }

  /** `(e.hash & oldCap) != 0`: the node moves to the upper half on resize. */
  predicate MovesUp(h: u32, oldCap: int)
    requires oldCap >= 0
  {
    And(h, oldCap) != 0
  }

  /** Doubling a power-of-two table keeps a node at index j or moves it to
      j + oldCap, as the split bit says. */
  lemma ResizeIndex(h: u32, oldCap: int)
    requires IsPow2(oldCap)
    ensures IndexFor(h, 2 * oldCap) ==
            IndexFor(h, oldCap) + (if MovesUp(h, oldCap) then oldCap else 0)
  {
    assert IsPow2(2 * oldCap) by { assert (2 * oldCap) / 2 == oldCap; }
    IndexInRange(h, oldCap);
    IndexInRange(h, 2 * oldCap);
    SplitBit(oldCap, h);
    var r, r' := h % oldCap, h % (2 * oldCap);
    assert IndexFor(h, 2 * oldCap) == r' && IndexFor(h, oldCap) == r;
  }

  // ---------------------------------------------------------------------
  // tableSizeFor(cap)

  /** The 32-bit pattern of a Java int, read unsigned. */
  function Unsigned(x: int): nat
  {
    x % 0x1_0000_0000
  }

  /** The power of two the table is created with for a requested capacity:
      cap - 1 with every bit below its highest set bit also set (the five
      `n |= n >>> k` steps), plus one, clamped to [1, MAXIMUM_CAPACITY]. */
  function TableSizeFor(cap: int32): int
  {
    Clamp(Smear(Unsigned(cap as int - 1)))
  }

  /** The final step of tableSizeFor on the unsigned pattern n of the
      smeared int: 1 when the int is negative, MAXIMUM_CAPACITY when it is at
      least that, and n + 1 otherwise. */
  function Clamp(n: nat): int
  {
    if n >= 0x8000_0000 then 1
    else if n >= MAXIMUM_CAPACITY then MAXIMUM_CAPACITY
    else n + 1
  }

  /** The smeared value is 2^L - 1 for the bit length L of cap - 1. */
  lemma TableSizeForShape(cap: int32) returns (L: nat)
    ensures var u := Unsigned(cap as int - 1);
            L == BitLen(u) && TableSizeFor(cap) == Clamp(Pow2(L) - 1) &&
            u < Pow2(L) && L <= 32 && (u >= 1 ==> Pow2(L - 1) <= u)
  {
    var u := Unsigned(cap as int - 1);
    assert TableSizeFor(cap) == Clamp(Smear(u));
    Pow2Values();
    SmearAllOnes(u);
    L := BitLen(u);
    BitLenBounds(u);
    BitLenAtMost(u, 32);
  }

  lemma ClampPow2(L: nat)
    requires L <= 30
    ensures Clamp(Pow2(L) - 1) == Pow2(L)
  {
    Pow2Values();
    Pow2Mono(L, 30);
  }

  /** The result is a power of two no larger than MAXIMUM_CAPACITY. */
  lemma TableSizeForRange(cap: int32)
    ensures IsPow2(TableSizeFor(cap)) && 1 <= TableSizeFor(cap) <= MAXIMUM_CAPACITY
  {
    var L := TableSizeForShape(cap);
    if L <= 30 {
      ClampPow2(L);
      Pow2IsPow2(L);
      Pow2Values();
      Pow2Mono(L, 30);
    } else {
      ClampLarge(L);
    }
  }

  /** Smeared values of 31 or 32 bits clamp to MAXIMUM_CAPACITY or to 1. */
  lemma ClampLarge(L: nat)
    requires 31 <= L <= 32
    ensures IsPow2(Clamp(Pow2(L) - 1)) && 1 <= Clamp(Pow2(L) - 1) <= MAXIMUM_CAPACITY
  {
    Pow2Values();
    Pow2IsPow2(30);
    Pow2IsPow2(0);
  }

  /** The result is at least the requested capacity, when that is attainable. */
  lemma TableSizeForAtLeast(cap: int32)
    requires cap as int <= MAXIMUM_CAPACITY
    ensures cap as int <= TableSizeFor(cap)
  {
    if 1 <= cap {
      var L := InRangeShape(cap);
    } else {
      TableSizeForRange(cap);
    }
  }

  /** For 1 <= cap <= MAXIMUM_CAPACITY the result is 2^L for the bit length
      L of cap - 1. */
  lemma InRangeShape(cap: int32) returns (L: nat)
    requires 1 <= cap as int <= MAXIMUM_CAPACITY
    ensures TableSizeFor(cap) == Pow2(L) && cap as int - 1 < Pow2(L)
    ensures cap >= 2 ==> L >= 1 && Pow2(L - 1) <= cap as int - 1
  {
    var u := cap as int - 1;
    assert Unsigned(u) == u;
    L := TableSizeForShape(cap);
    BitLenBelowMax(u);
    ClampPow2(L);
  }

  /** No smaller power of two would do. */
  lemma TableSizeForSmallest(cap: int32, p: int)
    requires 0 <= cap && IsPow2(p) && cap as int <= p
    ensures TableSizeFor(cap) <= p
  {
    if cap == 0 {
      TableSizeForZero();
    } else if cap as int <= MAXIMUM_CAPACITY {
      TableSizeForSmallestInRange(cap, p);
    } else {
      TableSizeForRange(cap);
    }
  }

  /** tableSizeFor(0) is 1: 0 - 1 smears to all ones, which reads as -1. */
  lemma TableSizeForZero()
    ensures TableSizeFor(0) == 1
  {
    assert Unsigned(-1) == 0xFFFF_FFFF;
    SmearAtLeast(0xFFFF_FFFF);
  }

  /** A negative capacity other than Integer.MIN_VALUE gives 1: cap - 1 is
      still negative, and its smeared pattern has the sign bit set. */
  lemma TableSizeForNegative(cap: int32)
    requires -0x8000_0000 < cap < 0
    ensures TableSizeFor(cap) == 1
  {
    SmearAtLeast(Unsigned(cap as int - 1));
  }

  /** Integer.MIN_VALUE gives MAXIMUM_CAPACITY: cap - 1 wraps around to
      Integer.MAX_VALUE, whose bit length is 31. */
  lemma TableSizeForMinValue(cap: int32)
    requires cap as int == -0x8000_0000
    ensures TableSizeFor(cap) == MAXIMUM_CAPACITY
  {
    var L := TableSizeForShape(cap);
    UnsignedWraps(cap as int - 1);
    BitLenOfMaxInt(L);
  }

  /** A negative int's unsigned pattern is the int plus 2^32. */
  lemma UnsignedWraps(x: int)
    requires -0x1_0000_0000 <= x < 0
    ensures Unsigned(x) == x + 0x1_0000_0000
  {
  }

  /** The only bit length that fits Integer.MAX_VALUE is 31, and its
      all-ones pattern clamps to MAXIMUM_CAPACITY. */
  lemma BitLenOfMaxInt(L: nat)
    requires 1 <= L <= 32 && Pow2(L - 1) <= 0x7FFF_FFFF < Pow2(L)
    ensures L == 31 && Clamp(Pow2(L) - 1) == MAXIMUM_CAPACITY
  {
    Pow2Values();
    if L <= 30 {
      Pow2Mono(L, 30);
    }
  }

  lemma TableSizeForSmallestInRange(cap: int32, p: int)
    requires 1 <= cap as int <= MAXIMUM_CAPACITY && IsPow2(p) && cap as int <= p
    ensures TableSizeFor(cap) <= p
  {
    var L := InRangeShape(cap);
    if cap >= 2 {
      Pow2Above(p, L);
    }
  }

  lemma BitLenBelowMax(x: nat)
    requires x < MAXIMUM_CAPACITY
    ensures BitLen(x) <= 30
  {
    Pow2Values();
    BitLenAtMost(x, 30);
  }

  /** A power of two in range is returned unchanged, so rounding is idempotent. */
  lemma TableSizeForFixpoint(cap: int32)
    requires 0 <= cap && IsPow2(cap as int) && cap as int <= MAXIMUM_CAPACITY
    ensures TableSizeFor(cap) == cap as int
    ensures TableSizeFor(TableSizeFor(cap) as int32) == TableSizeFor(cap)
  {
    TableSizeForAtLeast(cap);
    TableSizeForSmallest(cap, cap as int);
  }
}
