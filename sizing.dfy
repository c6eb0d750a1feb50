/** The capacity and threshold arithmetic of resize() (HashMap.java lines
    1491-1528) and capacity() (lines 1705-1715). */
module Sizing {
  import opened Bits
  import opened Hashing

  /** What resize() decides about the table before moving any node: either the
      table is already at MAXIMUM_CAPACITY and only the threshold is raised to
      Integer.MAX_VALUE, or a table of newCap slots is allocated with the new
      threshold newThr. */
  datatype Sizing = Pinned | Grow(newCap: int, newThr: int32)

  /** The threshold computed from the load factor: newCap * loadFactor,
      truncated, while both newCap and that product are below
      MAXIMUM_CAPACITY; Integer.MAX_VALUE otherwise. */
  function LoadThreshold(newCap: int, loadFactor: real): int32
    requires newCap >= 1 && loadFactor > 0.0
  {
    var ft := newCap as real * loadFactor;
    if newCap < MAXIMUM_CAPACITY && ft < MAXIMUM_CAPACITY as real then ft.Floor as int32
    else INT_MAX as int32
  }

  /** A threshold of 0 means "not yet computed": derive it from the load factor. */
  function Finish(newCap: int, newThr: int32, loadFactor: real): Sizing
    requires newCap >= 1 && loadFactor > 0.0
  {
    Grow(newCap, if newThr == 0 then LoadThreshold(newCap, loadFactor) else newThr)
  }

  /** The sizes a table of oldCap slots (0: not allocated yet) with threshold
      oldThr moves to. Before the first allocation a positive threshold holds
      the initial capacity. */
  function NextSizing(oldCap: int, oldThr: int32, loadFactor: real): (s: Sizing)
    requires oldCap >= 0 && loadFactor > 0.0
  {
    if oldCap > 0 then
      if oldCap >= MAXIMUM_CAPACITY then Pinned
      else
        var newCap := 2 * oldCap;
        if newCap < MAXIMUM_CAPACITY && oldCap >= DEFAULT_INITIAL_CAPACITY then
          Finish(newCap, Wrap32(2 * oldThr as int), loadFactor)
        else
          Finish(newCap, 0, loadFactor)
    else if oldThr > 0 then
      Finish(oldThr as int, 0, loadFactor)
    else
      Grow(DEFAULT_INITIAL_CAPACITY, (DEFAULT_LOAD_FACTOR * DEFAULT_INITIAL_CAPACITY as real).Floor as int32)
  }

  /** The table length and threshold resize() leaves behind: the new ones,
      or at MAXIMUM_CAPACITY the old length with threshold Integer.MAX_VALUE. */
  function AfterResize(oldCap: int, oldThr: int32, loadFactor: real): (r: (int, int32))
    requires oldCap >= 0 && loadFactor > 0.0
    ensures r.0 >= 1 && r.0 >= oldCap
  {
    match NextSizing(oldCap, oldThr, loadFactor)
    case Pinned => (oldCap, INT_MAX as int32)
    case Grow(c, t) => (c, t)
  }

  /** What a table size may be: a power of two up to MAXIMUM_CAPACITY. */
  predicate ValidCapacity(n: int)
  {
    IsPow2(n) && n <= MAXIMUM_CAPACITY
  }

  /** Before the first allocation the threshold is 0 or the initial capacity. */
  predicate ValidInitialThreshold(thr: int32)
  {
    thr == 0 || ValidCapacity(thr as int)
  }

  /** A fresh table defaults to 16 slots and threshold 12. */
  lemma DefaultSizing(loadFactor: real)
    requires loadFactor > 0.0
    ensures NextSizing(0, 0, loadFactor) == Grow(16, 12)
  {
  }

  /** resize() pins the table exactly when it is already at MAXIMUM_CAPACITY,
      and otherwise doubles an allocated table. */
  lemma SizingDoublesOrPins(oldCap: int, oldThr: int32, loadFactor: real)
    requires oldCap > 0 && loadFactor > 0.0
    ensures NextSizing(oldCap, oldThr, loadFactor).Pinned? <==> oldCap >= MAXIMUM_CAPACITY
    ensures oldCap < MAXIMUM_CAPACITY ==> NextSizing(oldCap, oldThr, loadFactor).newCap == 2 * oldCap
  {
  }

  /** Table sizes stay powers of two within MAXIMUM_CAPACITY. */
  lemma SizingKeepsCapacityValid(oldCap: int, oldThr: int32, loadFactor: real)
    requires oldCap >= 0 && loadFactor > 0.0
    requires oldCap > 0 ==> ValidCapacity(oldCap)
    requires oldCap == 0 ==> ValidInitialThreshold(oldThr)
    ensures var s := NextSizing(oldCap, oldThr, loadFactor);
            s.Grow? ==> ValidCapacity(s.newCap)
  {
    Pow2Values();
    Pow2IsPow2(30);
    if oldCap == 0 && oldThr == 0 {
      Pow2IsPow2(4);
    } else if 0 < oldCap < MAXIMUM_CAPACITY {
      assert IsPow2(2 * oldCap) by { assert (2 * oldCap) / 2 == oldCap; }
      Pow2Gap(oldCap, MAXIMUM_CAPACITY);
    }
  }

  /** The threshold a table of n slots has under the default load factor. */
  function DefaultThreshold(n: int): int
  {
    if n < MAXIMUM_CAPACITY then (3 * n) / 4 else INT_MAX
  }

  lemma ThreeQuarters(n: int)
    requires 1 <= n < MAXIMUM_CAPACITY
    ensures LoadThreshold(n, DEFAULT_LOAD_FACTOR) as int == (3 * n) / 4
  {
    var ft := n as real * 0.75;
    assert ft == (3 * n) as real / 4.0;
    var q := (3 * n) / 4;
    assert q as real <= ft < q as real + 1.0;
  }

  lemma ThreeQuartersDouble(n: int)
    requires IsPow2(n) && n >= DEFAULT_INITIAL_CAPACITY
    ensures 2 * ((3 * n) / 4) == (3 * (2 * n)) / 4
  {
    var m := Quarter(n);
    assert (3 * n) / 4 == 3 * m;
    assert (3 * (2 * n)) / 4 == 6 * m;
  }

  /** A power of two of at least 4 is four times a whole number. */
  lemma Quarter(n: int) returns (m: int)
    requires IsPow2(n) && n >= 4
    ensures n == 4 * m
  {
    var h := n / 2;
    assert n == 2 * h && IsPow2(h) && h >= 2;
    assert h % 2 == 0;
    m := h / 2;
  }

  /** Under the default load factor the threshold stays capacity * 0.75 (and
      Integer.MAX_VALUE once the table is at MAXIMUM_CAPACITY). */
  lemma SizingKeepsDefaultThreshold(oldCap: int, oldThr: int32)
    requires oldCap > 0 ==> ValidCapacity(oldCap) && oldThr as int == DefaultThreshold(oldCap)
    requires oldCap == 0 ==> ValidInitialThreshold(oldThr)
    requires oldCap >= 0
    ensures var s := NextSizing(oldCap, oldThr, DEFAULT_LOAD_FACTOR);
            s.Grow? ==> s.newThr as int == DefaultThreshold(s.newCap)
  {
    SizingKeepsCapacityValid(oldCap, oldThr, DEFAULT_LOAD_FACTOR);
    if oldCap >= DEFAULT_INITIAL_CAPACITY {
      DefaultThresholdDoubles(oldCap, oldThr);
    } else {
      DefaultThresholdRecomputed(oldCap, oldThr);
    }
  }

  /** A table of at least 16 slots doubles its threshold with its capacity. */
  lemma DefaultThresholdDoubles(oldCap: int, oldThr: int32)
    requires ValidCapacity(oldCap) && oldCap >= DEFAULT_INITIAL_CAPACITY
    requires oldThr as int == DefaultThreshold(oldCap)
    ensures var s := NextSizing(oldCap, oldThr, DEFAULT_LOAD_FACTOR);
            s.Grow? ==> s.newThr as int == DefaultThreshold(s.newCap)
  {
    if 2 * oldCap < MAXIMUM_CAPACITY {
      ThreeQuartersDouble(oldCap);
    }
  }

  /** Below 16 slots the threshold is computed afresh from the new capacity. */
  lemma DefaultThresholdRecomputed(oldCap: int, oldThr: int32)
    requires 0 <= oldCap < DEFAULT_INITIAL_CAPACITY
    requires oldCap > 0 ==> ValidCapacity(oldCap)
    requires oldCap == 0 ==> ValidInitialThreshold(oldThr)
    ensures var s := NextSizing(oldCap, oldThr, DEFAULT_LOAD_FACTOR);
            s.Grow? ==> s.newThr as int == DefaultThreshold(s.newCap)
  {
    var s := NextSizing(oldCap, oldThr, DEFAULT_LOAD_FACTOR);
    SizingKeepsCapacityValid(oldCap, oldThr, DEFAULT_LOAD_FACTOR);
    if (oldCap > 0 || oldThr > 0) && s.newCap < MAXIMUM_CAPACITY {
      ThreeQuarters(s.newCap);
    }
  }
}
