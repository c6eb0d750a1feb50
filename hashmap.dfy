/** The hash table object (HashMap.java lines 474-541 and 584-1094,
    1200-1715): its fields, its constructors, lookup, insertion, deletion,
    resizing and bulk traversal. */
module HashMaps {
  import opened Bits
  import opened Hashing
  import opened Nodes
  import opened RedBlack
  import opened Bins
  import opened TreeBins
  import opened Sizing
  import opened Tables

  /** The exceptions the modelled operations throw. */
  datatype Thrown = IllegalArgument | IllegalState | NoSuchElement | ConcurrentModification

  datatype Result<T> = Ok(value: T) | Err(thrown: Thrown)

  /** The loop of resize() over the old slots: each non-empty old slot j
      is emptied and its nodes are split between slots j and j + oldCap of
      the new table, a chain keeping its order in both halves. */
  method TransferAll<K(==,!new), V>(ops: KeyOps<K>, oldTab: array<Bucket<K, V>>, newTab: array<Bucket<K, V>>)
    requires ValidOps(ops) && oldTab != newTab && TableOk(ops, oldTab[..])
    requires newTab.Length == 2 * oldTab.Length
    requires forall i :: 0 <= i < newTab.Length ==> newTab[i] == Empty
    modifies oldTab, newTab
    ensures forall j :: 0 <= j < oldTab.Length ==> oldTab[j] == Empty
    ensures SplitUpTo(ops, old(oldTab[..]), newTab[..], oldTab.Length)
  {
    var oldCap := oldTab.Length;
    ghost var t0 := oldTab[..];
    ghost var nt := newTab[..];
    var j := 0;
    while j < oldCap
      invariant 0 <= j <= oldCap == |t0|
      invariant forall i :: 0 <= i < j ==> oldTab[i] == Empty
      invariant forall i :: j <= i < oldCap ==> oldTab[i] == t0[i]
      invariant newTab[..] == nt
      invariant SplitUpTo(ops, t0, nt, j)
    {
      nt := MoveSlot(ops, oldTab, newTab, j, t0, nt);
      j := j + 1;
    }
  }

  /** One iteration of the loop of resize(): old slot j is emptied and its
      nodes are split between slots j and j + oldCap of the new table. */
  method MoveSlot<K(==,!new), V>(ops: KeyOps<K>, oldTab: array<Bucket<K, V>>, newTab: array<Bucket<K, V>>, j: int,
                                 ghost t0: seq<Bucket<K, V>>, ghost nt: seq<Bucket<K, V>>)
    returns (ghost nt': seq<Bucket<K, V>>)
    requires ValidOps(ops) && oldTab != newTab && TableOk(ops, t0) && |t0| == oldTab.Length
    requires 0 <= j < oldTab.Length && oldTab[j] == t0[j]
    requires newTab[..] == nt && SplitUpTo(ops, t0, nt, j)
    modifies oldTab, newTab
    ensures oldTab[..] == old(oldTab[..])[j := Empty]
    ensures newTab[..] == nt' && SplitUpTo(ops, t0, nt', j + 1)
  {
    var oldCap := oldTab.Length;
    var e := oldTab[j];
    if e != Empty {
      oldTab[j] := Empty;
      var lo, hi := SplitSlot(ops, t0, nt, j, oldCap, e);
      nt' := nt[j := lo][j + |t0| := hi];
      newTab[j] := lo;
      newTab[j + oldCap] := hi;
    } else {
      SplitEmpty(ops, t0, nt, j);
      nt' := nt;
    }
  }

  /** The table length and threshold putVal leaves behind when it adds a
      new entry and the map then holds newSize entries. oldCap is the old
      table's length (0 before the first allocation), oldThr its threshold
      and bin the old content of the key's slot. A missing table is first
      allocated; a chain of at least TREEIFY_THRESHOLD nodes in a table below
      MIN_TREEIFY_CAPACITY slots makes treeifyBin resize instead of
      treeifying; and then the table is resized once more if newSize exceeds
      the threshold in force. */
  function InsertSizing<K, V>(oldCap: int, oldThr: int32, loadFactor: real, bin: Bucket<K, V>, newSize: int)
    : (int, int32)
    requires oldCap >= 0 && loadFactor > 0.0
  {
    var start := if oldCap == 0 then AfterResize(0, oldThr, loadFactor) else (oldCap, oldThr);
    var mid := if 0 < oldCap < MIN_TREEIFY_CAPACITY && bin.Chain? && |bin.nodes| >= TREEIFY_THRESHOLD
               then AfterResize(start.0, start.1, loadFactor) else start;
    if newSize > mid.1 as int then AfterResize(mid.0, mid.1, loadFactor) else mid
  }

  /** Under the default sizing the first put allocates 16 slots with
      threshold 12, the table keeps that size through the 12th entry and
      doubles to 32 slots with threshold 24 at the 13th, unless the key's
      slot held a chain long enough to make treeifyBin resize first. */
  lemma DefaultGrowth<K, V>(bin: Bucket<K, V>)
    requires !bin.Chain? || |bin.nodes| < TREEIFY_THRESHOLD
    ensures InsertSizing<K, V>(0, 0, DEFAULT_LOAD_FACTOR, Empty, 1) == (16, 12)
    ensures InsertSizing(16, 12, DEFAULT_LOAD_FACTOR, bin, 12) == (16, 12)
    ensures InsertSizing(16, 12, DEFAULT_LOAD_FACTOR, bin, 13) == (32, 24)
  {
  }

  /** A hash map: `table` is null until the first insertion; before that,
      a positive `threshold` holds the initial capacity. The ghost field
      Contents is the map the table stands for. */
  class HashMap<K(==,!new), V(==)> {
    var table: array?<Bucket<K, V>>
    var size: int
    var modCount: int
    var threshold: int32
    const loadFactor: real
    const ops: KeyOps<K>
    ghost var Contents: map<Option<K>, Option<V>>

    /** The table's shape, which holds even between the steps of putVal:
        every slot is well formed and the slots together stand for
        Contents, one node per entry. */
    ghost predicate Shape()
      reads this`table, this`threshold, this`Contents, table
    {
      ValidOps(ops) && loadFactor > 0.0 &&
      (table == null ==> ValidInitialThreshold(threshold) && Contents == map[]) &&
      (table != null ==>
         TableOk(ops, table[..]) && Represents(ops, table[..], Contents) &&
         TotalNodes(table[..]) == |Contents|)
    }

    /** Between operations `size` also counts the entries. */
    ghost predicate Valid()
      reads this`table, this`threshold, this`Contents, this`size, table
    {
      Shape() && size == |Contents|
    }

    // -------------------------------------------------------------------
    // Construction

    /** The field assignments of HashMap(int, float) once its arguments
        have been accepted. */
    constructor Init(ops: KeyOps<K>, initialCapacity: int32, loadFactor: real)
      requires ValidOps(ops) && 0 <= initialCapacity as int <= MAXIMUM_CAPACITY && loadFactor > 0.0
      ensures Valid() && Contents == map[] && table == null && size == 0 && modCount == 0
      ensures this.ops == ops && this.loadFactor == loadFactor
      ensures threshold as int == TableSizeFor(initialCapacity)
    {
      TableSizeForRange(initialCapacity);
      this.ops := ops;
      this.loadFactor := loadFactor;
      threshold := TableSizeFor(initialCapacity) as int32;
      table := null;
      size := 0;
      modCount := 0;
      Contents := map[];
    }

    /** HashMap(): the default load factor and no initial capacity. */
    constructor (ops: KeyOps<K>)
      requires ValidOps(ops)
      ensures Valid() && Contents == map[] && table == null && size == 0 && modCount == 0
      ensures this.ops == ops && loadFactor == DEFAULT_LOAD_FACTOR && threshold == 0
    {
      this.ops := ops;
      loadFactor := DEFAULT_LOAD_FACTOR;
      threshold := 0;
      table := null;
      size := 0;
      modCount := 0;
      Contents := map[];
    }

    /** HashMap(int initialCapacity, float loadFactor): a negative capacity
        or a load factor that is not positive is rejected; a capacity above
        MAXIMUM_CAPACITY is clamped to it; the table is not allocated yet. */
    static method New(ops: KeyOps<K>, initialCapacity: int32, loadFactor: real) returns (r: Result<HashMap<K, V>>)
      requires ValidOps(ops)
      ensures r.Err? <==> initialCapacity < 0 || loadFactor <= 0.0
      ensures r.Err? ==> r.thrown == IllegalArgument
      ensures r.Ok? ==> fresh(r.value) && r.value.Valid() && r.value.Contents == map[] &&
                        r.value.table == null && r.value.size == 0 && r.value.modCount == 0 &&
                        r.value.loadFactor == loadFactor &&
                        r.value.threshold as int ==
                          TableSizeFor(if initialCapacity as int > MAXIMUM_CAPACITY then MAXIMUM_CAPACITY as int32
                                       else initialCapacity)
    {
      if initialCapacity < 0 {
        return Err(IllegalArgument);
      }
      var cap := initialCapacity;
      if cap as int > MAXIMUM_CAPACITY {
        cap := MAXIMUM_CAPACITY as int32;
      }
      if loadFactor <= 0.0 {
        return Err(IllegalArgument);
      }
      var m := new HashMap.Init(ops, cap, loadFactor);
      return Ok(m);
    }

    /** HashMap(int initialCapacity): the same with the default load factor. */
    static method WithCapacity(ops: KeyOps<K>, initialCapacity: int32) returns (r: Result<HashMap<K, V>>)
      requires ValidOps(ops)
      ensures r.Err? <==> initialCapacity < 0
      ensures r.Ok? ==> fresh(r.value) && r.value.Valid() && r.value.Contents == map[] &&
                        r.value.table == null && r.value.size == 0 && r.value.modCount == 0 &&
                        r.value.loadFactor == DEFAULT_LOAD_FACTOR &&
                        r.value.threshold as int ==
                          TableSizeFor(if initialCapacity as int > MAXIMUM_CAPACITY then MAXIMUM_CAPACITY as int32
                                       else initialCapacity)
    {
      r := New(ops, initialCapacity, DEFAULT_LOAD_FACTOR);
    }

    /** capacity(): the table's length, or before the first allocation the
        capacity that allocation will have. */
    function Capacity(): (c: int)
      reads this`table, this`threshold, this`Contents, table
      requires Shape()
      ensures ValidCapacity(c)
      ensures table != null ==> c == table.Length
      ensures table == null ==> NextSizing(0, threshold, loadFactor).Grow? &&
                                NextSizing(0, threshold, loadFactor).newCap == c
    {
      Pow2Values();
      Pow2IsPow2(4);
      if table != null then table.Length
      else if threshold > 0 then threshold as int
      else DEFAULT_INITIAL_CAPACITY
    }

    // -------------------------------------------------------------------
    // Lookup

    /** getNode(hash, key): the node holding key, if any. */
    method GetNode(h: u32, key: Option<K>) returns (r: Option<Node<K, V>>)
      requires Shape() && h == KeyHash(ops, key)
      ensures r == Entry(ops, Contents, key)
    {
      var tab := table;
      if tab == null {
        return None;
      }
      var i := SlotOf(h, tab.Length);
      SlotLookup(ops, tab[..], Contents, key);
      r := GetFromBin(ops, tab[i], h, key);
    }

    /** get(key): the value of key, or null when it is absent. */
    method Get(key: Option<K>) returns (r: Option<V>)
      requires Valid()
      ensures r == if key in Contents then Contents[key] else None
    {
      var e := GetNode(KeyHash(ops, key), key);
      r := if e.None? then None else e.value.value;
    }

    /** containsKey(key). */
    method ContainsKey(key: Option<K>) returns (r: bool)
      requires Valid()
      ensures r <==> key in Contents
    {
      var e := GetNode(KeyHash(ops, key), key);
      r := e.Some?;
    }

    /** containsValue(value): a scan of every slot along its `next` list. */
    method ContainsValue(value: Option<V>) returns (r: bool)
      requires Valid()
      ensures r <==> exists k :: k in Contents && Contents[k] == value
    {
      var tab := table;
      if tab != null && size > 0 {
        ghost var t := tab[..];
        var i := 0;
        while i < tab.Length
          invariant 0 <= i <= tab.Length
          invariant forall x :: x in AllNodes(t[..i]) ==> x.value != value
        {
          var s := BinNodes(tab[i]);
          var p := 0;
          while p < |s|
            invariant 0 <= p <= |s|
            invariant forall q :: 0 <= q < p ==> s[q].value != value
          {
            if s[p].value == value {
              assert AllNodes(t[..i + 1]) == AllNodes(t[..i]) + s by {
                assert t[..i + 1][..i] == t[..i];
              }
              assert s[p] in AllNodes(t[..i + 1]);
              AllNodesPrefix(t, i + 1);
              ValueInTable(ops, t, Contents, value);
              return true;
            }
            p := p + 1;
          }
          assert AllNodes(t[..i + 1]) == AllNodes(t[..i]) + s by {
            assert t[..i + 1][..i] == t[..i];
          }
          i := i + 1;
        }
        assert t[..i] == t;
        ValueInTable(ops, t, Contents, value);
      }
      return false;
    }

    // -------------------------------------------------------------------
    // Resizing

    /** resize(): allocates the first table, doubles it, or at
        MAXIMUM_CAPACITY only raises the threshold to Integer.MAX_VALUE.
        Each old slot j is emptied and its nodes go to slots j and
        j + oldCap, chains keeping their order. The number of entries is
        not consulted. */
    method Resize() returns (tab: array<Bucket<K, V>>)
      requires Shape()
      modifies this, table
      ensures Shape() && Contents == old(Contents) && size == old(size) && modCount == old(modCount)
      ensures old(Valid()) ==> Valid()
      ensures tab == table
      ensures var s := NextSizing(if old(table) == null then 0 else old(table).Length, old(threshold), loadFactor);
              if s.Pinned? then
                table == old(table) && threshold as int == INT_MAX && table[..] == old(table[..])
              else
                fresh(table) && table.Length == s.newCap && threshold == s.newThr
      ensures (table.Length, threshold) ==
                AfterResize(if old(table) == null then 0 else old(table).Length, old(threshold), loadFactor)
      ensures old(table) == null ==> forall j :: 0 <= j < table.Length ==> table[j] == Empty
      ensures old(table) != null && table != old(table) ==>
                (forall j :: 0 <= j < old(table).Length ==> old(table)[j] == Empty) &&
                SplitUpTo(ops, old(table[..]), table[..], old(table).Length)
    {
      var oldTab := table;
      var oldCap := if oldTab == null then 0 else oldTab.Length;
      var oldThr := threshold;
      SizingKeepsCapacityValid(oldCap, oldThr, loadFactor);
      var s := NextSizing(oldCap, oldThr, loadFactor);
      if s.Pinned? {
        threshold := INT_MAX as int32;
        return oldTab;
      }
      threshold := s.newThr;
      var newTab := new Bucket<K, V>[s.newCap](_ => Empty);
      table := newTab;
      if oldTab == null {
        EmptyTable(ops, newTab[..]);
        return newTab;
      }
      SizingDoublesOrPins(oldCap, oldThr, loadFactor);
      ghost var t0 := oldTab[..];
      ghost var c := Contents;
      assert TableOk(ops, t0) && Represents(ops, t0, c) && TotalNodes(t0) == |c|;
      TransferAll(ops, oldTab, newTab);
      ResizeTable(ops, t0, newTab[..], c);
      return newTab;
    }

    /** treeifyBin(tab, hash) on the current table: a table below
        MIN_TREEIFY_CAPACITY slots is resized instead; otherwise a non-empty
        slot of the hash becomes a tree bin of the same nodes. */
    method TreeifyBin(h: u32)
      requires Shape() && table != null
      modifies this, table
      ensures Shape() && Contents == old(Contents) && size == old(size) && modCount == old(modCount)
      ensures table != null
      ensures old(table.Length) < MIN_TREEIFY_CAPACITY ==>
                fresh(table) && table.Length == 2 * old(table.Length) &&
                (table.Length, threshold) == AfterResize(old(table.Length), old(threshold), loadFactor)
      ensures old(table.Length) >= MIN_TREEIFY_CAPACITY ==>
                table == old(table) && threshold == old(threshold) &&
                var i := SlotOf(h, table.Length);
                (forall j :: 0 <= j < table.Length && j != i ==> table[j] == old(table[j])) &&
                (old(table[i]) == Empty ==> table[i] == Empty) &&
                (old(table[i]) != Empty ==>
                   table[i].TreeBin? && SameNodes(BinNodes(table[i]), BinNodes(old(table[i]))))
    {
      var tab := table;
      var n := tab.Length;
      var index := SlotOf(h, n);
      var e := tab[index];
      if n < MIN_TREEIFY_CAPACITY {
        Pow2Values();
        SizingDoublesOrPins(n, threshold, loadFactor);
        var _ := Resize();
      } else if e != Empty {
        assert BinOk(ops, e, index, n);
        assert |BinNodes(e)| > 0 by {
          if e.TreeBin? {
            assert e.root.node in Inorder(e.root);
          }
        }
        var root, order := Treeify(ops, BinNodes(e));
        TreeifySlot(ops, tab[..], Contents, index, root, order);
        tab[index] := TreeBin(root, order);
      }
    }

    // -------------------------------------------------------------------
    // Insertion

    /** putVal(hash, key, value, onlyIfAbsent, evict). An existing key keeps
        its node: its value is overwritten unless onlyIfAbsent is set and the
        value is non-null, the old value is returned, and neither size nor
        modCount changes. A new key is appended to its slot (a long chain is
        then treeified), modCount and size go up by one, and the table is
        resized exactly when the new size exceeds the threshold. */
    method PutVal(h: u32, key: Option<K>, value: Option<V>, onlyIfAbsent: bool) returns (r: Option<V>)
      requires Valid() && h == KeyHash(ops, key)
      modifies this, table
      ensures Valid() && table != null
      ensures key in old(Contents) ==>
                r == old(Contents)[key] && size == old(size) && modCount == old(modCount) &&
                table == old(table) && threshold == old(threshold) &&
                Contents == old(Contents)[key := if onlyIfAbsent && r.Some? then r else value]
      ensures key !in old(Contents) ==>
                r == None && Contents == old(Contents)[key := value] &&
                size == old(size) + 1 && modCount == old(modCount) + 1 &&
                (table.Length, threshold) ==
                  InsertSizing(if old(table) == null then 0 else old(table).Length, old(threshold), loadFactor,
                               if old(table) == null then Empty else old(table[Slot(ops, key, table.Length)]), size)
    {
      if table == null {
        ghost var thr0 := threshold;
        var _ := Resize();
        assert table[Slot(ops, key, table.Length)] == Empty;
        assert forall n :: InsertSizing<K, V>(0, thr0, loadFactor, Empty, n) ==
                           InsertSizing<K, V>(table.Length, threshold, loadFactor, Empty, n);
      }
      r := PutInTable(h, key, value, onlyIfAbsent);
    }

    /** putVal once the table is allocated: the node of the key is found in
        its slot and overwritten, or a new node is added to the slot. */
    method PutInTable(h: u32, key: Option<K>, value: Option<V>, onlyIfAbsent: bool) returns (r: Option<V>)
      requires Valid() && table != null && h == KeyHash(ops, key)
      modifies this, table
      ensures Valid() && table != null
      ensures key in old(Contents) ==>
                r == old(Contents)[key] && size == old(size) && modCount == old(modCount) &&
                table == old(table) && threshold == old(threshold) &&
                Contents == old(Contents)[key := if onlyIfAbsent && r.Some? then r else value]
      ensures key !in old(Contents) ==>
                r == None && Contents == old(Contents)[key := value] &&
                size == old(size) + 1 && modCount == old(modCount) + 1 &&
                (table.Length, threshold) ==
                  InsertSizing(old(table.Length), old(threshold), loadFactor,
                               old(table[Slot(ops, key, table.Length)]), size)
    {
      var tab := table;
      var i := SlotOf(h, tab.Length);
      SlotLookup(ops, tab[..], Contents, key);
      var e, b, treeify := PutInBin(ops, tab[i], h, key, value);
      if e.Some? {
        r := UpdateExisting(i, key, e.value.value, value, onlyIfAbsent);
      } else {
        AddEntry(h, key, value, i, b, treeify);
        r := None;
      }
    }

    /** The existing-key tail of putVal: the value of the key's node, found
        in slot i, is overwritten unless onlyIfAbsent is set and it is
        non-null; the old value is returned. */
    method UpdateExisting(i: int, key: Option<K>, oldValue: Option<V>, value: Option<V>, onlyIfAbsent: bool)
      returns (r: Option<V>)
      requires Valid() && table != null && key in Contents && i == Slot(ops, key, table.Length)
      requires oldValue == Contents[key]
      modifies this`Contents, table
      ensures Valid() && r == old(Contents)[key]
      ensures Contents == old(Contents)[key := if onlyIfAbsent && r.Some? then r else value]
    {
      if !onlyIfAbsent || oldValue.None? {
        SetValue(i, key, value);
      }
      return oldValue;
    }

    /** The new-key tail of putVal: link the bin b holding the new node into
        slot i, treeify the bin when PutInBin asks for it, count the
        modification and the entry, and resize once size exceeds the
        threshold. */
    method AddEntry(h: u32, key: Option<K>, value: Option<V>, i: int, b: Bucket<K, V>, treeify: bool)
      requires Valid() && table != null && h == KeyHash(ops, key) && key !in Contents
      requires i == Slot(ops, key, table.Length)
      requires BinShape(ops, b) && SameNodes(BinNodes(b), BinNodes(table[i]) + [Node(h, key, value)])
      requires treeify <==> table[i].Chain? && |table[i].nodes| >= TREEIFY_THRESHOLD
      modifies this, table
      ensures Valid() && table != null && Contents == old(Contents)[key := value]
      ensures size == old(size) + 1 && modCount == old(modCount) + 1
      ensures (table.Length, threshold) == InsertSizing(old(table.Length), old(threshold), loadFactor, old(table[i]), size)
      ensures (!treeify || old(table.Length) >= MIN_TREEIFY_CAPACITY) && size <= old(threshold) as int ==>
                table == old(table)
    {
      InsertNode(i, key, value, b);
      if treeify {
        TreeifyBin(h);
      }
      modCount := modCount + 1;
      size := size + 1;
      if size > threshold as int {
        var _ := Resize();
      }
    }

    /** Sets the value of the node of a present key in place (the
        `e.value = value` of putVal, replace and iterator setValue). */
    method SetValue(i: int, key: Option<K>, value: Option<V>)
      requires Valid() && table != null && key in Contents && i == Slot(ops, key, table.Length)
      modifies this`Contents, table
      ensures Valid() && Contents == old(Contents)[key := value]
      ensures table[..] == old(table[..])[i := RevalueBin(old(table[i]), SetTo(key, value))]
    {
      var tab := table;
      ghost var t := tab[..];
      SetSlot(ops, t, Contents, key, value);
      tab[i] := RevalueBin(tab[i], SetTo(key, value));
      assert tab[..] == t[Slot(ops, key, |t|) := RevalueBin(t[Slot(ops, key, |t|)], SetTo(key, value))];
      Contents := Contents[key := value];
    }

    /** Stores the bin b, which holds the nodes of slot i and a new node
        for key, in slot i. */
    method InsertNode(i: int, key: Option<K>, value: Option<V>, b: Bucket<K, V>)
      requires Shape() && table != null && key !in Contents && i == Slot(ops, key, table.Length)
      requires BinShape(ops, b) && SameNodes(BinNodes(b), BinNodes(table[i]) + [Node(KeyHash(ops, key), key, value)])
      modifies this`Contents, table
      ensures Shape() && Contents == old(Contents)[key := value]
      ensures table[..] == old(table[..])[i := b]
    {
      var tab := table;
      ghost var t := tab[..];
      PutSlot(ops, t, Contents, key, value, b);
      tab[i] := b;
      assert tab[..] == t[Slot(ops, key, |t|) := b];
      Contents := Contents[key := value];
    }

    /** put(key, value): the previous value, or null. */
    method Put(key: Option<K>, value: Option<V>) returns (r: Option<V>)
      requires Valid()
      modifies this, table
      ensures Valid() && table != null
      ensures r == (if key in old(Contents) then old(Contents)[key] else None)
      ensures Contents == old(Contents)[key := value]
      ensures key in old(Contents) ==>
                table == old(table) && threshold == old(threshold) && size == old(size) && modCount == old(modCount)
      ensures key !in old(Contents) ==>
                size == old(size) + 1 && modCount == old(modCount) + 1 &&
                (table.Length, threshold) ==
                  InsertSizing(if old(table) == null then 0 else old(table).Length, old(threshold), loadFactor,
                               if old(table) == null then Empty else old(table[Slot(ops, key, table.Length)]), size)
    {
      r := PutVal(KeyHash(ops, key), key, value, false);
    }

    /** putIfAbsent(key, value): a present non-null value is kept. */
    method PutIfAbsent(key: Option<K>, value: Option<V>) returns (r: Option<V>)
      requires Valid()
      modifies this, table
      ensures Valid() && table != null
      ensures r == (if key in old(Contents) then old(Contents)[key] else None)
      ensures Contents == old(Contents)[key := if r.Some? then r else value]
      ensures key in old(Contents) ==>
                table == old(table) && threshold == old(threshold) && size == old(size) && modCount == old(modCount)
      ensures key !in old(Contents) ==>
                size == old(size) + 1 && modCount == old(modCount) + 1 &&
                (table.Length, threshold) ==
                  InsertSizing(if old(table) == null then 0 else old(table).Length, old(threshold), loadFactor,
                               if old(table) == null then Empty else old(table[Slot(ops, key, table.Length)]), size)
    {
      r := PutVal(KeyHash(ops, key), key, value, true);
    }

    /** replace(key, value): overwrites the value of a present key only. */
    method Replace(key: Option<K>, value: Option<V>) returns (r: Option<V>)
      requires Valid()
      modifies this, table
      ensures Valid() && table == old(table) && threshold == old(threshold)
      ensures size == old(size) && modCount == old(modCount)
      ensures key in old(Contents) ==> r == old(Contents)[key] && Contents == old(Contents)[key := value]
      ensures key !in old(Contents) ==> r == None && Contents == old(Contents)
    {
      var h := KeyHash(ops, key);
      var e := GetNode(h, key);
      if e.None? {
        return None;
      }
      SetValue(SlotOf(h, table.Length), key, value);
      return e.value.value;
    }

    /** replace(key, oldValue, newValue): overwrites only a present key
        whose value equals oldValue. */
    method ReplaceIf(key: Option<K>, oldValue: Option<V>, newValue: Option<V>) returns (r: bool)
      requires Valid()
      modifies this, table
      ensures Valid() && table == old(table) && threshold == old(threshold)
      ensures size == old(size) && modCount == old(modCount)
      ensures r <==> key in old(Contents) && old(Contents)[key] == oldValue
      ensures Contents == if r then old(Contents)[key := newValue] else old(Contents)
    {
      var h := KeyHash(ops, key);
      var e := GetNode(h, key);
      if e.None? || e.value.value != oldValue {
        return false;
      }
      SetValue(SlotOf(h, table.Length), key, newValue);
      return true;
    }

    // -------------------------------------------------------------------
    // Deletion

    /** removeNode(hash, key, value, matchValue, movable): when key is
        present and, if matchValue is set, holds value, its node is unlinked
        and returned, size goes down and modCount up by one; otherwise null
        is returned and nothing changes. */
    method RemoveNode(h: u32, key: Option<K>, value: Option<V>, matchValue: bool, movable: bool)
      returns (r: Option<Node<K, V>>)
      requires Valid() && h == KeyHash(ops, key)
      modifies this, table
      ensures Valid() && table == old(table) && threshold == old(threshold)
      ensures r.Some? <==> key in old(Contents) && (!matchValue || old(Contents)[key] == value)
      ensures r.Some? ==>
                r == Entry(ops, old(Contents), key) && Contents == old(Contents) - {key} &&
                size == old(size) - 1 && modCount == old(modCount) + 1
      ensures r.None? ==>
                Contents == old(Contents) && size == old(size) && modCount == old(modCount) &&
                (table != null ==> table[..] == old(table[..]))
      ensures r.Some? ==>
                var i := Slot(ops, key, table.Length);
                (forall j :: 0 <= j < table.Length && j != i ==> table[j] == old(table[j])) &&
                SameNodes(BinNodes(table[i]), Without(BinNodes(old(table[i])), key))
      ensures r.Some? && !movable ==>
                var i := Slot(ops, key, table.Length);
                BinNodes(table[i]) == Without(BinNodes(old(table[i])), key)
    {
      var tab := table;
      if tab == null {
        return None;
      }
      var index := SlotOf(h, tab.Length);
      SlotLookup(ops, tab[..], Contents, key);
      var p := tab[index];
      var node := GetFromBin(ops, p, h, key);
      if node.Some? && (!matchValue || node.value.value == value) {
        HasKeyIn(BinNodes(p), node.value);
        var b := UnlinkFromBin(ops, p, key, movable);
        RemoveEntry(index, key, b);
        return node;
      }
      return None;
    }

    /** The tail of removeNode once the node of key has been unlinked into
        the bin b: store b in slot i, count the modification and the
        removed entry. */
    method RemoveEntry(i: int, key: Option<K>, b: Bucket<K, V>)
      requires Valid() && table != null && key in Contents && i == Slot(ops, key, table.Length)
      requires BinShape(ops, b) && SameNodes(BinNodes(b), Without(BinNodes(table[i]), key))
      modifies this, table
      ensures Valid() && table == old(table) && threshold == old(threshold)
      ensures Contents == old(Contents) - {key}
      ensures size == old(size) - 1 && modCount == old(modCount) + 1
      ensures table[..] == old(table[..])[i := b]
    {
      DeleteNode(i, key, b);
      modCount := modCount + 1;
      size := size - 1;
    }

    /** Stores the bin b, which holds the nodes of slot i but the one of
        key, in slot i. */
    method DeleteNode(i: int, key: Option<K>, b: Bucket<K, V>)
      requires Shape() && table != null && key in Contents && i == Slot(ops, key, table.Length)
      requires BinShape(ops, b) && SameNodes(BinNodes(b), Without(BinNodes(table[i]), key))
      modifies this`Contents, table
      ensures Shape() && Contents == old(Contents) - {key}
      ensures table[..] == old(table[..])[i := b]
    {
      var tab := table;
      ghost var t := tab[..];
      RemoveSlot(ops, t, Contents, key, b);
      tab[i] := b;
      assert tab[..] == t[Slot(ops, key, |t|) := b];
      Contents := Contents - {key};
    }

    /** remove(key): the removed value, or null. */
    method Remove(key: Option<K>) returns (r: Option<V>)
      requires Valid()
      modifies this, table
      ensures Valid() && table == old(table) && threshold == old(threshold)
      ensures r == (if key in old(Contents) then old(Contents)[key] else None)
      ensures Contents == old(Contents) - {key}
      ensures size == |Contents| && modCount == old(modCount) + (if key in old(Contents) then 1 else 0)
    {
      var e := RemoveNode(KeyHash(ops, key), key, None, false, true);
      r := if e.None? then None else e.value.value;
    }

    /** remove(key, value): removes key only while it holds value. */
    method RemoveIf(key: Option<K>, value: Option<V>) returns (r: bool)
      requires Valid()
      modifies this, table
      ensures Valid() && table == old(table) && threshold == old(threshold)
      ensures r <==> key in old(Contents) && old(Contents)[key] == value
      ensures Contents == if r then old(Contents) - {key} else old(Contents)
      ensures size == |Contents| && modCount == old(modCount) + (if r then 1 else 0)
    {
      var e := RemoveNode(KeyHash(ops, key), key, value, true, true);
      r := e.Some?;
    }

    /** clear(): counts as a modification even when the map is empty; a
        non-empty table keeps its length with every slot emptied. */
    method Clear()
      requires Valid()
      modifies this, table
      ensures Valid() && Contents == map[] && size == 0 && modCount == old(modCount) + 1
      ensures table == old(table) && threshold == old(threshold)
      ensures table != null ==> forall i :: 0 <= i < table.Length ==> table[i] == Empty
    {
      var tab := table;
      modCount := modCount + 1;
      if tab != null && size > 0 {
        size := 0;
        var i := 0;
        while i < tab.Length
          modifies tab
          invariant 0 <= i <= tab.Length
          invariant forall j :: 0 <= j < i ==> tab[j] == Empty
        {
          tab[i] := Empty;
          i := i + 1;
        }
        EmptyTable(ops, tab[..]);
        Contents := map[];
      } else if tab != null {
        assert TotalNodes(tab[..]) == 0;
        EmptySlots(ops, tab[..]);
      }
    }

    // -------------------------------------------------------------------
    // Bulk traversal

    /** forEach(action): the nodes handed to the action, slot by slot along
        each `next` list. Every entry of the map is visited exactly once. */
    method ForEach() returns (visited: seq<Node<K, V>>)
      requires Valid()
      ensures KeysDistinct(visited) && |visited| == size
      ensures forall k :: Lookup(visited, k) == Entry(ops, Contents, k)
      ensures table != null && size > 0 ==> visited == AllNodes(table[..])
    {
      visited := [];
      var tab := table;
      if size > 0 && tab != null {
        ghost var t := tab[..];
        var i := 0;
        while i < tab.Length
          invariant 0 <= i <= tab.Length
          invariant visited == AllNodes(t[..i])
        {
          var s := BinNodes(tab[i]);
          var p := 0;
          while p < |s|
            invariant 0 <= p <= |s|
            invariant visited == AllNodes(t[..i]) + s[..p]
          {
            visited := visited + [s[p]];
            p := p + 1;
          }
          assert s[..p] == s;
          assert t[..i + 1][..i] == t[..i];
          i := i + 1;
        }
        assert t[..i] == t;
        Traversal(ops, t, Contents);
        AllNodesCount(t);
      }
    }

    /** replaceAll(function): every node's value becomes
        function(key, value); the nodes stay where they are. */
    method ReplaceAll(f: (Option<K>, Option<V>) -> Option<V>)
      requires Valid()
      modifies this, table
      ensures Valid() && table == old(table) && threshold == old(threshold)
      ensures size == old(size) && modCount == old(modCount)
      ensures Contents == MapValues(old(Contents), f)
      ensures table != null && size > 0 ==>
                forall i :: 0 <= i < table.Length ==> table[i] == RevalueBin(old(table[i]), f)
    {
      var tab := table;
      if size > 0 && tab != null {
        ghost var t := tab[..];
        var i := 0;
        while i < tab.Length
          modifies tab
          invariant 0 <= i <= tab.Length
          invariant forall j :: 0 <= j < i ==> tab[j] == RevalueBin(t[j], f)
          invariant forall j :: i <= j < tab.Length ==> tab[j] == t[j]
        {
          tab[i] := RevalueBin(tab[i], f);
          i := i + 1;
        }
        RevalueTable(ops, t, tab[..], Contents, f);
        MapValuesKeys(Contents, f);
        Contents := MapValues(Contents, f);
      } else {
        assert Contents == map[];
        assert MapValues(Contents, f) == map[];
      }
    }
  }
}
