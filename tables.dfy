/** The bucket table as a whole: what each slot may hold, which map a table
    stands for, and the per-bin steps of getNode, putVal, removeNode and
    resize (HashMap.java lines 1200-1244, 1256-1335, 1401-1479, 1548-1628). */
module Tables {
  import opened Bits
  import opened Hashing
  import opened Nodes
  import opened RedBlack
  import opened Bins
  import opened TreeBins
  import opened TreeRemoval
  import opened TreeSplit
  import opened Sizing

  // ---------------------------------------------------------------------
  // Well-formed bins and tables

  /** A bin on its own: distinct keys carrying their own hashes, a chain is
      never empty (an empty slot is null), and a tree bin is a search tree
      over the nodes of its list. */
  ghost predicate BinShape<K, V>(ops: KeyOps<K>, b: Bucket<K, V>)
  {
    KeysDistinct(BinNodes(b)) && HashesOk(ops, BinNodes(b)) &&
    (b.Chain? ==> |b.nodes| > 0) &&
    (b.TreeBin? ==> TreeOk(ops, b.root, b.order))
  }

  /** Slot i of a table of n slots: every node in it has `(n - 1) & hash == i`. */
  ghost predicate BinOk<K, V>(ops: KeyOps<K>, b: Bucket<K, V>, i: int, n: int)
    requires n >= 1
  {
    BinShape(ops, b) && forall x :: x in BinNodes(b) ==> IndexFor(x.hash, n) == i
  }

  /** An allocated table: a power-of-two number of well-formed slots. */
  ghost predicate TableOk<K, V>(ops: KeyOps<K>, t: seq<Bucket<K, V>>)
  {
    ValidCapacity(|t|) && forall i {:trigger BinOk(ops, t[i], i, |t|)} :: 0 <= i < |t| ==> BinOk(ops, t[i], i, |t|)
  }

  /** The slot of hash h in a table of n slots, `(n - 1) & h`. */
  function SlotOf(h: u32, n: int): (i: int)
    requires IsPow2(n)
    ensures 0 <= i < n
  {
    IndexInRange(h, n);
    IndexFor(h, n)
  }

  /** The slot of key k in a table of n slots. */
  function Slot<K>(ops: KeyOps<K>, k: Option<K>, n: int): (i: int)
    requires IsPow2(n)
    ensures 0 <= i < n
  {
    SlotOf(KeyHash(ops, k), n)
  }

  /** The node for k in table t: the first node with key k in k's slot. */
  function FindIn<K(==), V>(ops: KeyOps<K>, t: seq<Bucket<K, V>>, k: Option<K>): Option<Node<K, V>>
    requires ValidCapacity(|t|)
  {
    Lookup(BinNodes(t[Slot(ops, k, |t|)]), k)
  }

  /** The node a map with contents c holds for k. */
  function Entry<K(==), V>(ops: KeyOps<K>, c: map<Option<K>, Option<V>>, k: Option<K>): Option<Node<K, V>>
  {
    if k in c then Some(Node(KeyHash(ops, k), k, c[k])) else None
  }

  /** Table t stands for the map c: looking any key up in its slot finds
      exactly c's entry for it. */
  ghost predicate Represents<K(!new), V>(ops: KeyOps<K>, t: seq<Bucket<K, V>>, c: map<Option<K>, Option<V>>)
    requires ValidCapacity(|t|)
  {
    forall k :: FindIn(ops, t, k) == Entry(ops, c, k)
  }

  /** The number of nodes in the table. */
  function TotalNodes<K, V>(t: seq<Bucket<K, V>>): nat
  {
    if |t| == 0 then 0 else TotalNodes(t[..|t| - 1]) + |BinNodes(t[|t| - 1])|
  }

  /** The nodes in the order a traversal of the table meets them: slot by
      slot, each bin along its `next` list. */
  function AllNodes<K, V>(t: seq<Bucket<K, V>>): seq<Node<K, V>>
  {
    if |t| == 0 then [] else AllNodes(t[..|t| - 1]) + BinNodes(t[|t| - 1])
  }

  // ---------------------------------------------------------------------
  // Sequence facts

  /** Two key-distinct lists of the same nodes agree on every lookup. */
  lemma LookupSame<K, V>(a: seq<Node<K, V>>, b: seq<Node<K, V>>, k: Option<K>)
    requires SameNodes(a, b) && KeysDistinct(a) && KeysDistinct(b)
    ensures Lookup(a, k) == Lookup(b, k)
  {
    if Lookup(a, k).Some? {
      LookupUnique(b, Lookup(a, k).value);
    } else if Lookup(b, k).Some? {
      LookupUnique(a, Lookup(b, k).value);
    }
  }

  lemma {:induction false} LookupAppend<K, V>(a: seq<Node<K, V>>, b: seq<Node<K, V>>, k: Option<K>)
    ensures Lookup(a + b, k) == if Lookup(a, k).Some? then Lookup(a, k) else Lookup(b, k)
  {
    if |a| > 0 {
      assert (a + b)[1..] == a[1..] + b;
      LookupAppend(a[1..], b, k);
    } else {
      assert a + b == b;
    }
  }

  /** Removing k hides k and nothing else. */
  lemma LookupWithout<K, V>(s: seq<Node<K, V>>, k: Option<K>, k': Option<K>)
    requires KeysDistinct(s)
    ensures Lookup(Without(s, k), k') == if k' == k then None else Lookup(s, k')
  {
    var r := Without(s, k);
    if k' != k && Lookup(s, k').Some? {
      WithoutDistinct(s, k);
      LookupUnique(r, Lookup(s, k').value);
    } else {
      forall i | 0 <= i < |r| ensures r[i].key != k' {
        assert r[i] in r;
        if k' != k {
          var j :| 0 <= j < |s| && s[j] == r[i];
        }
      }
    }
  }

  /** A key-distinct list whose nodes all occur in another key-distinct
      list is no longer than it. */
  lemma {:induction false} SubsetLength<K, V>(a: seq<Node<K, V>>, b: seq<Node<K, V>>)
    requires (forall y :: y in a ==> y in b) && KeysDistinct(a) && KeysDistinct(b)
    ensures |a| <= |b|
  {
    if |a| > 0 {
      var x := a[0];
      assert x in a;
      HasKeyIn(b, x);
      WithoutLength(b, x.key);
      WithoutDistinct(b, x.key);
      DistinctTail(a);
      forall y | y in a[1..] ensures y in Without(b, x.key) {
        var j :| 0 <= j < |a[1..]| && a[1..][j] == y;
        assert a[j + 1] == y;
      }
      SubsetLength(a[1..], Without(b, x.key));
    }
  }

  /** Key-distinct lists of the same nodes have the same length. */
  lemma SameNodesLength<K, V>(a: seq<Node<K, V>>, b: seq<Node<K, V>>)
    requires SameNodes(a, b) && KeysDistinct(a) && KeysDistinct(b)
    ensures |a| == |b|
  {
    SubsetLength(a, b);
    SubsetLength(b, a);
  }

  lemma DistinctSnoc<K, V>(s: seq<Node<K, V>>, x: Node<K, V>)
    requires KeysDistinct(s) && Lookup(s, x.key).None?
    ensures KeysDistinct(s + [x])
  {
  }

  /** Concatenated key-distinct lists that share no key stay key-distinct. */
  lemma DistinctAppend<K, V>(a: seq<Node<K, V>>, b: seq<Node<K, V>>)
    requires KeysDistinct(a) && KeysDistinct(b)
    requires forall x, y :: x in a && y in b ==> x.key != y.key
    ensures KeysDistinct(a + b)
  {
    var s := a + b;
    forall i, j | 0 <= i < j < |s| ensures s[i].key != s[j].key {
      if i < |a| && j >= |a| {
        assert s[i] in a && s[j] == b[j - |a|];
        assert s[j] in b;
      }
    }
  }

  // ---------------------------------------------------------------------
  // Counting

  lemma {:induction false} TotalUpdate<K, V>(t: seq<Bucket<K, V>>, i: int, b: Bucket<K, V>)
    requires 0 <= i < |t|
    ensures TotalNodes(t[i := b]) == TotalNodes(t) - |BinNodes(t[i])| + |BinNodes(b)|
  {
    var n := |t|;
    if i == n - 1 {
      assert t[i := b][..n - 1] == t[..n - 1];
    } else {
      assert t[i := b][..n - 1] == t[..n - 1][i := b];
      TotalUpdate(t[..n - 1], i, b);
    }
  }

  lemma {:induction false} TotalAppend<K, V>(a: seq<Bucket<K, V>>, b: seq<Bucket<K, V>>)
    ensures TotalNodes(a + b) == TotalNodes(a) + TotalNodes(b)
  {
    if |b| == 0 {
      assert a + b == a;
    } else {
      var m := |b| - 1;
      assert (a + b)[..|a + b| - 1] == a + b[..m];
      TotalAppend(a, b[..m]);
    }
  }

  lemma TotalHalves<K, V>(t: seq<Bucket<K, V>>, n: int)
    requires |t| == 2 * n && n >= 0
    ensures TotalNodes(t) == TotalNodes(t[..n]) + TotalNodes(t[n..][..n])
  {
    TotalAppend(t[..n], t[n..]);
    assert t[..n] + t[n..] == t;
    assert t[n..][..n] == t[n..];
  }

  lemma TotalPrefix<K, V>(t: seq<Bucket<K, V>>, j: int)
    requires 0 <= j < |t|
    ensures TotalNodes(t[..j + 1]) == TotalNodes(t[..j]) + |BinNodes(t[j])|
  {
    assert t[..j + 1][..j] == t[..j];
  }

  lemma {:induction false} TotalEmpty<K, V>(t: seq<Bucket<K, V>>)
    requires forall i :: 0 <= i < |t| ==> t[i] == Empty
    ensures TotalNodes(t) == 0
  {
    if |t| > 0 {
      TotalEmpty(t[..|t| - 1]);
    }
  }

  lemma {:induction false} TotalZero<K, V>(t: seq<Bucket<K, V>>)
    requires TotalNodes(t) == 0
    ensures forall i :: 0 <= i < |t| ==> BinNodes(t[i]) == []
  {
    if |t| > 0 {
      TotalZero(t[..|t| - 1]);
      forall i | 0 <= i < |t| - 1 ensures BinNodes(t[i]) == [] {
        assert t[i] == t[..|t| - 1][i];
      }
    }
  }

  /** A well-formed table without nodes has only empty slots. */
  lemma EmptySlots<K, V>(ops: KeyOps<K>, t: seq<Bucket<K, V>>)
    requires TableOk(ops, t) && TotalNodes(t) == 0
    ensures forall i :: 0 <= i < |t| ==> t[i] == Empty
  {
    TotalZero(t);
    forall i | 0 <= i < |t| ensures t[i] == Empty {
      assert BinOk(ops, t[i], i, |t|);
      if t[i].TreeBin? {
        assert t[i].root.node in Inorder(t[i].root);
      }
    }
  }

  /** A traversal lists as many nodes as the table holds. */
  lemma {:induction false} AllNodesCount<K, V>(t: seq<Bucket<K, V>>)
    ensures |AllNodes(t)| == TotalNodes(t)
  {
    if |t| > 0 {
      AllNodesCount(t[..|t| - 1]);
    }
  }

  /** An empty table stands for the empty map. */
  lemma EmptyTable<K(!new), V>(ops: KeyOps<K>, t: seq<Bucket<K, V>>)
    requires ValidCapacity(|t|) && forall i :: 0 <= i < |t| ==> t[i] == Empty
    ensures TableOk(ops, t) && Represents(ops, t, map[]) && TotalNodes(t) == 0
  {
    TotalEmpty(t);
  }

  // ---------------------------------------------------------------------
  // Changing one slot

  /** Replacing slot i by b changes the represented map from c to c' when b
      answers for the keys of slot i as c' does and c' agrees with c
      elsewhere. */
  lemma UpdateSlot<K(!new), V>(ops: KeyOps<K>, t: seq<Bucket<K, V>>, i: int, b: Bucket<K, V>,
                               c: map<Option<K>, Option<V>>, c': map<Option<K>, Option<V>>)
    requires TableOk(ops, t) && Represents(ops, t, c) && 0 <= i < |t| && BinOk(ops, b, i, |t|)
    requires forall k :: Slot(ops, k, |t|) == i ==> Lookup(BinNodes(b), k) == Entry(ops, c', k)
    requires forall k :: Slot(ops, k, |t|) != i ==> Entry(ops, c', k) == Entry(ops, c, k)
    ensures TableOk(ops, t[i := b]) && Represents(ops, t[i := b], c')
  {
    var t' := t[i := b];
    forall k ensures FindIn(ops, t', k) == Entry(ops, c', k) {
      if Slot(ops, k, |t|) != i {
        assert FindIn(ops, t, k) == Entry(ops, c, k);
      }
    }
  }

  /** Linking a node for a new key k into its slot adds k to the map. */
  lemma PutSlot<K(!new), V>(ops: KeyOps<K>, t: seq<Bucket<K, V>>, c: map<Option<K>, Option<V>>,
                            k: Option<K>, v: Option<V>, b: Bucket<K, V>)
    requires TableOk(ops, t) && Represents(ops, t, c) && k !in c && BinShape(ops, b)
    requires SameNodes(BinNodes(b), BinNodes(t[Slot(ops, k, |t|)]) + [Node(KeyHash(ops, k), k, v)])
    ensures TableOk(ops, t[Slot(ops, k, |t|) := b]) && Represents(ops, t[Slot(ops, k, |t|) := b], c[k := v])
    ensures TotalNodes(t[Slot(ops, k, |t|) := b]) == TotalNodes(t) + 1
  {
    var i := Slot(ops, k, |t|);
    PutLookup(ops, t, c, k, v, b);
    UpdateSlot(ops, t, i, b, c, c[k := v]);
    assert FindIn(ops, t, k) == Entry(ops, c, k);
    PutCount(ops, t, k, v, b);
  }

  /** After linking a node for the new key k into slot i, the slot answers
      for its keys as the map with k does, and the bin belongs in slot i. */
  lemma PutLookup<K(!new), V>(ops: KeyOps<K>, t: seq<Bucket<K, V>>, c: map<Option<K>, Option<V>>,
                              k: Option<K>, v: Option<V>, b: Bucket<K, V>)
    requires TableOk(ops, t) && Represents(ops, t, c) && k !in c && BinShape(ops, b)
    requires SameNodes(BinNodes(b), BinNodes(t[Slot(ops, k, |t|)]) + [Node(KeyHash(ops, k), k, v)])
    ensures BinOk(ops, b, Slot(ops, k, |t|), |t|)
    ensures forall k' :: Slot(ops, k', |t|) == Slot(ops, k, |t|) ==> Lookup(BinNodes(b), k') == Entry(ops, c[k := v], k')
  {
    var i := Slot(ops, k, |t|);
    var x := Node(KeyHash(ops, k), k, v);
    var s := BinNodes(t[i]);
    assert BinOk(ops, t[i], i, |t|);
    assert FindIn(ops, t, k) == Entry(ops, c, k);
    DistinctSnoc(s, x);
    assert x in s + [x];
    forall y | y in BinNodes(b) ensures IndexFor(y.hash, |t|) == i {
      assert y in s + [x];
    }
    forall k' | Slot(ops, k', |t|) == i ensures Lookup(BinNodes(b), k') == Entry(ops, c[k := v], k') {
      LookupSame(BinNodes(b), s + [x], k');
      LookupSnoc(s, x, k');
      assert FindIn(ops, t, k') == Entry(ops, c, k');
    }
  }

  /** Linking a node for a new key adds one node to the count. */
  lemma PutCount<K(!new), V>(ops: KeyOps<K>, t: seq<Bucket<K, V>>, k: Option<K>, v: Option<V>, b: Bucket<K, V>)
    requires TableOk(ops, t) && KeysDistinct(BinNodes(b)) && Lookup(BinNodes(t[Slot(ops, k, |t|)]), k).None?
    requires SameNodes(BinNodes(b), BinNodes(t[Slot(ops, k, |t|)]) + [Node(KeyHash(ops, k), k, v)])
    ensures TotalNodes(t[Slot(ops, k, |t|) := b]) == TotalNodes(t) + 1
  {
    var i := Slot(ops, k, |t|);
    var x := Node(KeyHash(ops, k), k, v);
    var s := BinNodes(t[i]);
    assert BinOk(ops, t[i], i, |t|);
    DistinctSnoc(s, x);
    SameNodesLength(BinNodes(b), s + [x]);
    TotalUpdate(t, i, b);
  }

  lemma {:induction false} LookupSnoc<K, V>(s: seq<Node<K, V>>, x: Node<K, V>, k: Option<K>)
    ensures Lookup(s + [x], k) == if Lookup(s, k).Some? then Lookup(s, k) else if x.key == k then Some(x) else None
  {
    LookupAppend(s, [x], k);
  }

  /** A list with the nodes of s but the one of key k finds what s finds,
      except for k. */
  lemma UnlinkedLookup<K, V>(s: seq<Node<K, V>>, r: seq<Node<K, V>>, k: Option<K>, k': Option<K>)
    requires KeysDistinct(s) && KeysDistinct(r) && SameNodes(r, Without(s, k))
    ensures Lookup(r, k') == if k' == k then None else Lookup(s, k')
  {
    WithoutDistinct(s, k);
    LookupSame(r, Without(s, k), k');
    LookupWithout(s, k, k');
  }

  /** After unlinking k from slot i, the slot answers for its keys as the
      map without k does. */
  lemma RemoveLookup<K(!new), V>(ops: KeyOps<K>, t: seq<Bucket<K, V>>, c: map<Option<K>, Option<V>>,
                                 k: Option<K>, b: Bucket<K, V>, i: int)
    requires TableOk(ops, t) && Represents(ops, t, c) && i == Slot(ops, k, |t|)
    requires KeysDistinct(BinNodes(b)) && SameNodes(BinNodes(b), Without(BinNodes(t[i]), k))
    ensures forall k' :: Slot(ops, k', |t|) == i ==> Lookup(BinNodes(b), k') == Entry(ops, c - {k}, k')
  {
    assert BinOk(ops, t[i], i, |t|);
    forall k' | Slot(ops, k', |t|) == i ensures Lookup(BinNodes(b), k') == Entry(ops, c - {k}, k') {
      RemoveLookupAt(ops, t, c, k, b, i, k');
    }
  }

  /** RemoveLookup for one key k' of slot i. */
  lemma RemoveLookupAt<K, V>(ops: KeyOps<K>, t: seq<Bucket<K, V>>, c: map<Option<K>, Option<V>>,
                             k: Option<K>, b: Bucket<K, V>, i: int, k': Option<K>)
    requires ValidCapacity(|t|) && i == Slot(ops, k', |t|) && FindIn(ops, t, k') == Entry(ops, c, k')
    requires KeysDistinct(BinNodes(t[i])) && KeysDistinct(BinNodes(b))
    requires SameNodes(BinNodes(b), Without(BinNodes(t[i]), k))
    ensures Lookup(BinNodes(b), k') == Entry(ops, c - {k}, k')
  {
    UnlinkedLookup(BinNodes(t[i]), BinNodes(b), k, k');
  }

  /** Unlinking the node of key k from its slot removes k from the map. */
  lemma RemoveSlot<K(!new), V>(ops: KeyOps<K>, t: seq<Bucket<K, V>>, c: map<Option<K>, Option<V>>,
                               k: Option<K>, b: Bucket<K, V>)
    requires TableOk(ops, t) && Represents(ops, t, c) && k in c && BinShape(ops, b)
    requires SameNodes(BinNodes(b), Without(BinNodes(t[Slot(ops, k, |t|)]), k))
    ensures TableOk(ops, t[Slot(ops, k, |t|) := b]) && Represents(ops, t[Slot(ops, k, |t|) := b], c - {k})
    ensures TotalNodes(t[Slot(ops, k, |t|) := b]) == TotalNodes(t) - 1
  {
    var i := Slot(ops, k, |t|);
    RemoveBinOk(ops, t, k, b);
    RemoveLookup(ops, t, c, k, b, i);
    UpdateSlot(ops, t, i, b, c, c - {k});
    RemoveCount(ops, t, c, k, b);
  }

  /** A bin holding some of the nodes of k's slot belongs in that slot. */
  lemma RemoveBinOk<K(!new), V>(ops: KeyOps<K>, t: seq<Bucket<K, V>>, k: Option<K>, b: Bucket<K, V>)
    requires TableOk(ops, t) && BinShape(ops, b)
    requires SameNodes(BinNodes(b), Without(BinNodes(t[Slot(ops, k, |t|)]), k))
    ensures BinOk(ops, b, Slot(ops, k, |t|), |t|)
  {
    var i := Slot(ops, k, |t|);
    assert BinOk(ops, t[i], i, |t|);
    forall y | y in BinNodes(b) ensures IndexFor(y.hash, |t|) == i {
      assert y in BinNodes(t[i]);
    }
  }

  /** Unlinking a present key takes one node off the count. */
  lemma RemoveCount<K(!new), V>(ops: KeyOps<K>, t: seq<Bucket<K, V>>, c: map<Option<K>, Option<V>>,
                                k: Option<K>, b: Bucket<K, V>)
    requires TableOk(ops, t) && Represents(ops, t, c) && k in c && KeysDistinct(BinNodes(b))
    requires SameNodes(BinNodes(b), Without(BinNodes(t[Slot(ops, k, |t|)]), k))
    ensures TotalNodes(t[Slot(ops, k, |t|) := b]) == TotalNodes(t) - 1
  {
    var i := Slot(ops, k, |t|);
    var s := BinNodes(t[i]);
    assert KeysDistinct(s) by {
      assert BinOk(ops, t[i], i, |t|);
    }
    assert HasKey(s, k) by {
      assert FindIn(ops, t, k) == Entry(ops, c, k);
      HasKeyIn(s, Lookup(s, k).value);
    }
    WithoutLength(s, k);
    WithoutDistinct(s, k);
    SameNodesLength(BinNodes(b), Without(s, k));
    TotalUpdate(t, i, b);
  }

  // ---------------------------------------------------------------------
  // Writing values in place

  /** The bin with `e.value = f(e.key, e.value)` done on each of its nodes. */
  function RevalueBin<K, V>(b: Bucket<K, V>, f: (Option<K>, Option<V>) -> Option<V>): Bucket<K, V>
  {
    match b
    case Empty => Empty
    case Chain(s) => Chain(Revalue(s, f))
    case TreeBin(root, order) => TreeBin(RevalueTree(root, f), Revalue(order, f))
  }

  /** Writing values keeps a bin well formed and every node in its slot. */
  lemma RevalueBinOk<K, V>(ops: KeyOps<K>, b: Bucket<K, V>, i: int, n: int, f: (Option<K>, Option<V>) -> Option<V>)
    requires n >= 1 && BinOk(ops, b, i, n)
    ensures BinOk(ops, RevalueBin(b, f), i, n)
    ensures BinNodes(RevalueBin(b, f)) == Revalue(BinNodes(b), f)
  {
    RevalueKeeps(ops, BinNodes(b), f);
    if b.TreeBin? {
      RevalueInorder(b.root, f);
      RevalueKeeps(ops, Inorder(b.root), f);
      RevalueSameNodes(Inorder(b.root), b.order, f);
    }
  }

  /** `e.value = v` on the node of key k (putVal on a present key,
      replace) changes the map at k and nothing else. */
  lemma SetSlot<K(!new), V>(ops: KeyOps<K>, t: seq<Bucket<K, V>>, c: map<Option<K>, Option<V>>,
                            k: Option<K>, v: Option<V>)
    requires TableOk(ops, t) && Represents(ops, t, c) && k in c
    ensures TableOk(ops, t[Slot(ops, k, |t|) := RevalueBin(t[Slot(ops, k, |t|)], SetTo(k, v))])
    ensures Represents(ops, t[Slot(ops, k, |t|) := RevalueBin(t[Slot(ops, k, |t|)], SetTo(k, v))], c[k := v])
    ensures TotalNodes(t[Slot(ops, k, |t|) := RevalueBin(t[Slot(ops, k, |t|)], SetTo(k, v))]) == TotalNodes(t)
  {
    var i := Slot(ops, k, |t|);
    var f := SetTo(k, v);
    var b := RevalueBin(t[i], f);
    RevalueBinOk(ops, t[i], i, |t|, f);
    forall k' | Slot(ops, k', |t|) == i ensures Lookup(BinNodes(b), k') == Entry(ops, c[k := v], k') {
      RevalueLookup(BinNodes(t[i]), f, k');
      assert FindIn(ops, t, k') == Entry(ops, c, k');
    }
    UpdateSlot(ops, t, i, b, c, c[k := v]);
    TotalUpdate(t, i, b);
  }

  /** The map whose every value v at key k is replaced by f(k, v). */
  function MapValues<K(==), V>(c: map<Option<K>, Option<V>>, f: (Option<K>, Option<V>) -> Option<V>): (r: map<Option<K>, Option<V>>)
  {
    map k | k in c :: f(k, c[k])
  }

  /** Rewriting values keeps the keys. */
  lemma MapValuesKeys<K, V>(c: map<Option<K>, Option<V>>, f: (Option<K>, Option<V>) -> Option<V>)
    ensures MapValues(c, f).Keys == c.Keys && |MapValues(c, f)| == |c|
  {
    assert MapValues(c, f).Keys == c.Keys;
    assert |MapValues(c, f).Keys| == |c.Keys|;
  }

  lemma {:induction false} TotalSameSizes<K, V>(t: seq<Bucket<K, V>>, t': seq<Bucket<K, V>>)
    requires |t| == |t'| && forall i :: 0 <= i < |t| ==> |BinNodes(t[i])| == |BinNodes(t'[i])|
    ensures TotalNodes(t) == TotalNodes(t')
  {
    if |t| > 0 {
      TotalSameSizes(t[..|t| - 1], t'[..|t| - 1]);
    }
  }

  /** Applying f to the value of every node (replaceAll) applies it to every
      value of the map. */
  lemma RevalueTable<K(!new), V>(ops: KeyOps<K>, t: seq<Bucket<K, V>>, t': seq<Bucket<K, V>>,
                                 c: map<Option<K>, Option<V>>, f: (Option<K>, Option<V>) -> Option<V>)
    requires TableOk(ops, t) && Represents(ops, t, c)
    requires |t'| == |t| && forall i :: 0 <= i < |t| ==> t'[i] == RevalueBin(t[i], f)
    ensures TableOk(ops, t') && Represents(ops, t', MapValues(c, f)) && TotalNodes(t') == TotalNodes(t)
  {
    forall i | 0 <= i < |t| ensures BinOk(ops, t'[i], i, |t|) && |BinNodes(t'[i])| == |BinNodes(t[i])| {
      RevalueBinOk(ops, t[i], i, |t|, f);
    }
    forall k ensures FindIn(ops, t', k) == Entry(ops, MapValues(c, f), k) {
      var i := Slot(ops, k, |t|);
      RevalueBinOk(ops, t[i], i, |t|, f);
      RevalueLookup(BinNodes(t[i]), f, k);
      assert FindIn(ops, t, k) == Entry(ops, c, k);
    }
    TotalSameSizes(t, t');
  }

  // ---------------------------------------------------------------------
  // Per-bin steps of getNode, putVal and removeNode

  /** The bin part of getNode: the first node is checked on its own; when it
      is not the one and has a successor, a tree bin is searched as a tree
      and a chain is walked along `next`. */
  method GetFromBin<K(==,!new), V>(ops: KeyOps<K>, b: Bucket<K, V>, h: u32, k: Option<K>)
    returns (r: Option<Node<K, V>>)
    requires ValidOps(ops) && BinShape(ops, b) && h == KeyHash(ops, k)
    ensures r == Lookup(BinNodes(b), k)
  {
    if b.Empty? {
      return None;
    }
    var s := BinNodes(b);
    if b.TreeBin? {
      assert b.root.node in Inorder(b.root);
    }
    var first := s[0];
    assert first in s;
    if first.hash == h && first.key == k {
      LookupUnique(s, first);
      return Some(first);
    }
    if |s| > 1 {
      if b.TreeBin? {
        r := GetTreeNode(ops, b.root, b.order, h, k);
        return;
      }
      r := FindInChain(ops, s, h, k);
      return;
    }
    return None;
  }

  /** The walk of getNode along the `next` links of a
      chain whose first node has been checked. */
  method FindInChain<K(==), V>(ops: KeyOps<K>, s: seq<Node<K, V>>, h: u32, k: Option<K>)
    returns (r: Option<Node<K, V>>)
    requires KeysDistinct(s) && HashesOk(ops, s) && h == KeyHash(ops, k)
    requires |s| >= 1 && s[0].key != k
    ensures r == Lookup(s, k)
  {
    var i := 1;
    while i < |s|
      invariant 1 <= i <= |s|
      invariant forall j :: 0 <= j < i ==> s[j].key != k
    {
      assert s[i] in s;
      if s[i].hash == h && s[i].key == k {
        LookupUnique(s, s[i]);
        return Some(s[i]);
      }
      i := i + 1;
    }
    return None;
  }

  /** The bin part of putVal for a key k of hash h: an empty slot gets a
      one-node chain; a first node with key k is the existing node; a tree
      bin goes through putTreeVal; a chain is walked and, when k is not
      found, the new node is appended at its end, and treeify is asked for
      when the chain already held TREEIFY_THRESHOLD nodes. */
  method PutInBin<K(==,!new), V>(ops: KeyOps<K>, b: Bucket<K, V>, h: u32, k: Option<K>, v: Option<V>)
    returns (e: Option<Node<K, V>>, b': Bucket<K, V>, treeify: bool)
    requires ValidOps(ops) && BinShape(ops, b) && h == KeyHash(ops, k)
    ensures e == Lookup(BinNodes(b), k)
    ensures e.Some? ==> b' == b && !treeify
    ensures e.None? ==> BinShape(ops, b') && SameNodes(BinNodes(b'), BinNodes(b) + [Node(h, k, v)])
    ensures e.None? && !b.TreeBin? ==> b' == Chain(BinNodes(b) + [Node(h, k, v)])
    ensures treeify <==> e.None? && b.Chain? && |b.nodes| >= TREEIFY_THRESHOLD
  {
    var x := Node(h, k, v);
    if b.Empty? {
      return None, Chain([x]), false;
    }
    var s := BinNodes(b);
    if b.TreeBin? {
      assert b.root.node in Inorder(b.root);
    }
    var p := s[0];
    assert p in s;
    if p.hash == h && p.key == k {
      LookupUnique(s, p);
      return Some(p), b, false;
    }
    if b.TreeBin? {
      var root', order';
      e, root', order' := PutTreeVal(ops, b.root, b.order, h, k, v);
      return e, TreeBin(root', order'), false;
    }
    var s';
    e, s', treeify := PutInChain(ops, s, h, k, v);
    b' := if e.Some? then b else Chain(s');
  }

  /** The chain walk of putVal past a first node that is not k's: the node
      of key k when there is one; otherwise the chain with the new node
      appended, and whether binCount had reached TREEIFY_THRESHOLD - 1. */
  method PutInChain<K(==), V>(ops: KeyOps<K>, s: seq<Node<K, V>>, h: u32, k: Option<K>, v: Option<V>)
    returns (e: Option<Node<K, V>>, s': seq<Node<K, V>>, treeify: bool)
    requires KeysDistinct(s) && HashesOk(ops, s) && h == KeyHash(ops, k)
    requires |s| >= 1 && s[0].key != k
    ensures e == Lookup(s, k)
    ensures e.None? ==> s' == s + [Node(h, k, v)] && KeysDistinct(s')
    ensures treeify <==> e.None? && |s| >= TREEIFY_THRESHOLD
  {
    var x := Node(h, k, v);
    var binCount := 0;
    while true
      invariant 0 <= binCount < |s|
      invariant forall j :: 0 <= j <= binCount ==> s[j].key != k
      decreases |s| - binCount
    {
      if binCount + 1 == |s| {
        DistinctSnoc(s, x);
        return None, s + [x], binCount >= TREEIFY_THRESHOLD - 1;
      }
      var next := s[binCount + 1];
      assert next in s;
      if next.hash == h && next.key == k {
        LookupUnique(s, next);
        return Some(next), s, false;
      }
      binCount := binCount + 1;
    }
  }

  /** The unlinking step of removeNode for the node of key k: in a tree bin
      it is removed as a tree node (the bin may become a chain or empty); in
      a chain the slot takes the node's successor when it is first, and its
      predecessor's `next` skips it otherwise. */
  method UnlinkFromBin<K(==,!new), V>(ops: KeyOps<K>, b: Bucket<K, V>, k: Option<K>, movable: bool)
    returns (b': Bucket<K, V>)
    requires BinShape(ops, b) && HasKey(BinNodes(b), k)
    ensures BinShape(ops, b') && SameNodes(BinNodes(b'), Without(BinNodes(b), k))
    ensures !b.TreeBin? || !movable ==> BinNodes(b') == Without(BinNodes(b), k)
  {
    WithoutDistinct(BinNodes(b), k);
    WithoutLength(BinNodes(b), k);
    if b.TreeBin? {
      b' := RemoveTreeNode(ops, b.root, b.order, k, movable);
      if b'.Empty? {
        assert |Without(b.order, k)| == 0;
      }
    } else {
      var rest := Without(b.nodes, k);
      b' := if |rest| == 0 then Empty else Chain(rest);
    }
  }

  // ---------------------------------------------------------------------
  // The per-bin step of resize

  /** The do-while loop of resize over a chain: each node is appended to
      the lo list when `(e.hash & oldCap) == 0` and to the hi list
      otherwise. */
  method SplitChain<K, V>(nodes: seq<Node<K, V>>, oldCap: nat)
    returns (lo: seq<Node<K, V>>, hi: seq<Node<K, V>>)
    ensures lo == StayNodes(nodes, oldCap) && hi == MoveNodes(nodes, oldCap)
  {
    lo, hi := [], [];
    var i := 0;
    while i < |nodes|
      invariant 0 <= i <= |nodes|
      invariant lo == StayNodes(nodes[..i], oldCap) && hi == MoveNodes(nodes[..i], oldCap)
    {
      var e := nodes[i];
      if !MovesUp(e.hash, oldCap) {
        lo := lo + [e];
      } else {
        hi := hi + [e];
      }
      StayMoveSnoc(nodes[..i], e, oldCap);
      assert nodes[..i + 1] == nodes[..i] + [e];
      i := i + 1;
    }
    assert nodes[..i] == nodes;
  }

  /** The nodes of b that land in the lower (up = false) or upper half. */
  function SplitHalf<K, V>(b: Bucket<K, V>, oldCap: nat, up: bool): seq<Node<K, V>>
  {
    if up then MoveNodes(BinNodes(b), oldCap) else StayNodes(BinNodes(b), oldCap)
  }

  /** A bin holding one half of old slot j is well formed in slot j (lower
      half) or j + oldCap (upper half) of the doubled table. */
  lemma HalfBinOk<K, V>(ops: KeyOps<K>, b: Bucket<K, V>, j: int, oldCap: int, up: bool, h: Bucket<K, V>)
    requires IsPow2(oldCap) && BinOk(ops, b, j, oldCap)
    requires SameNodes(BinNodes(h), SplitHalf(b, oldCap, up)) && KeysDistinct(BinNodes(h))
    requires (h.Chain? ==> |h.nodes| > 0) && (h.TreeBin? ==> TreeOk(ops, h.root, h.order))
    ensures BinOk(ops, h, j + (if up then oldCap else 0), 2 * oldCap)
    ensures |BinNodes(h)| == |SplitHalf(b, oldCap, up)|
  {
    var s := BinNodes(b);
    StayMoveMembers(s, oldCap);
    StayMoveDistinct(s, oldCap);
    forall y | y in BinNodes(h) ensures y in s && IndexFor(y.hash, 2 * oldCap) == j + (if up then oldCap else 0) {
      ResizeIndex(y.hash, oldCap);
    }
    SameNodesLength(BinNodes(h), SplitHalf(b, oldCap, up));
  }

  /** What resize does with old slot j of a table of oldCap slots: a lone
      node goes to its index in the doubled table; a tree bin is split; a
      chain is split into the nodes that stay at j and those that move to
      j + oldCap, each list in chain order. Returns the new slots j and
      j + oldCap. */
  method TransferBin<K(==,!new), V>(ops: KeyOps<K>, b: Bucket<K, V>, j: int, oldCap: int)
    returns (lo: Bucket<K, V>, hi: Bucket<K, V>)
    requires ValidOps(ops) && IsPow2(oldCap) && BinOk(ops, b, j, oldCap)
    ensures BinOk(ops, lo, j, 2 * oldCap) && BinOk(ops, hi, j + oldCap, 2 * oldCap)
    ensures SameNodes(BinNodes(lo), StayNodes(BinNodes(b), oldCap))
    ensures SameNodes(BinNodes(hi), MoveNodes(BinNodes(b), oldCap))
    ensures |BinNodes(lo)| + |BinNodes(hi)| == |BinNodes(b)|
    ensures !b.TreeBin? ==> BinNodes(lo) == StayNodes(BinNodes(b), oldCap)
    ensures !b.TreeBin? ==> BinNodes(hi) == MoveNodes(BinNodes(b), oldCap)
  {
    if b.Empty? {
      return Empty, Empty;
    } else if |BinNodes(b)| == 1 {
      lo, hi := LoneHalves(ops, b, j, oldCap);
    } else if b.TreeBin? {
      lo, hi := TreeHalves(ops, b, j, oldCap);
    } else {
      lo, hi := ChainHalves(ops, b, j, oldCap);
    }
  }

  /** TransferBin for a tree bin of several nodes: TreeNode.split. */
  method TreeHalves<K(==,!new), V>(ops: KeyOps<K>, b: Bucket<K, V>, j: int, oldCap: int)
    returns (lo: Bucket<K, V>, hi: Bucket<K, V>)
    requires ValidOps(ops) && IsPow2(oldCap) && BinOk(ops, b, j, oldCap) && b.TreeBin?
    ensures oldCap >= 1 && SplitOk(ops, b, lo, hi, j, oldCap)
  {
    StayMoveDistinct(b.order, oldCap);
    lo, hi := Split(ops, b.root, b.order, oldCap);
    HalvesOk(ops, b, j, oldCap, lo, hi);
  }

  /** TransferBin for a chain of several nodes: the loHead/hiHead loop. */
  method ChainHalves<K, V>(ops: KeyOps<K>, b: Bucket<K, V>, j: int, oldCap: int)
    returns (lo: Bucket<K, V>, hi: Bucket<K, V>)
    requires IsPow2(oldCap) && BinOk(ops, b, j, oldCap) && b.Chain?
    ensures oldCap >= 1 && SplitOk(ops, b, lo, hi, j, oldCap)
  {
    StayMoveDistinct(b.nodes, oldCap);
    var l, h := SplitChain(b.nodes, oldCap);
    lo := if |l| == 0 then Empty else Chain(l);
    hi := if |h| == 0 then Empty else Chain(h);
    HalvesOk(ops, b, j, oldCap, lo, hi);
  }

  /** Two bins holding the staying and the moving nodes of old slot j are
      well formed in slots j and j + oldCap of the doubled table, and hold
      the old slot's nodes between them. */
  lemma HalvesOk<K, V>(ops: KeyOps<K>, b: Bucket<K, V>, j: int, oldCap: int, lo: Bucket<K, V>, hi: Bucket<K, V>)
    requires IsPow2(oldCap) && BinOk(ops, b, j, oldCap)
    requires SameNodes(BinNodes(lo), StayNodes(BinNodes(b), oldCap)) && KeysDistinct(BinNodes(lo))
    requires SameNodes(BinNodes(hi), MoveNodes(BinNodes(b), oldCap)) && KeysDistinct(BinNodes(hi))
    requires (lo.Chain? ==> |lo.nodes| > 0) && (lo.TreeBin? ==> TreeOk(ops, lo.root, lo.order))
    requires (hi.Chain? ==> |hi.nodes| > 0) && (hi.TreeBin? ==> TreeOk(ops, hi.root, hi.order))
    ensures BinOk(ops, lo, j, 2 * oldCap) && BinOk(ops, hi, j + oldCap, 2 * oldCap)
    ensures |BinNodes(lo)| + |BinNodes(hi)| == |BinNodes(b)|
  {
    StayMoveMembers(BinNodes(b), oldCap);
    HalfBinOk(ops, b, j, oldCap, false, lo);
    HalfBinOk(ops, b, j, oldCap, true, hi);
  }

  /** The `e.next == null` case of resize: the lone node of old slot j goes
      to its index in the doubled table, which is j or j + oldCap. */
  method LoneHalves<K, V>(ops: KeyOps<K>, b: Bucket<K, V>, j: int, oldCap: int)
    returns (lo: Bucket<K, V>, hi: Bucket<K, V>)
    requires IsPow2(oldCap) && BinOk(ops, b, j, oldCap) && |BinNodes(b)| == 1
    ensures (lo == b && hi == Empty) || (lo == Empty && hi == b)
    ensures oldCap >= 1 && SplitOk(ops, b, lo, hi, j, oldCap)
  {
    var s := BinNodes(b);
    var e := s[0];
    assert e in s && s == [e];
    ResizeIndex(e.hash, oldCap);
    LoneStayMove(e, oldCap);
    var index := IndexFor(e.hash, 2 * oldCap);
    if index == j {
      lo, hi := b, Empty;
    } else {
      lo, hi := Empty, b;
    }
    HalvesOk(ops, b, j, oldCap, lo, hi);
  }

  lemma LoneStayMove<K, V>(e: Node<K, V>, oldCap: nat)
    ensures StayNodes([e], oldCap) == if MovesUp(e.hash, oldCap) then [] else [e]
    ensures MoveNodes([e], oldCap) == if MovesUp(e.hash, oldCap) then [e] else []
  {
    assert [e][1..] == [];
  }

  /** Splitting a bin loses no entry: a key whose hash has the split bit
      clear is found in the staying half as in the bin, and otherwise in
      the moving half. */
  lemma LookupHalves<K, V>(ops: KeyOps<K>, s: seq<Node<K, V>>, oldCap: nat, k: Option<K>)
    requires KeysDistinct(s) && HashesOk(ops, s)
    ensures Lookup(StayNodes(s, oldCap), k) == if MovesUp(KeyHash(ops, k), oldCap) then None else Lookup(s, k)
    ensures Lookup(MoveNodes(s, oldCap), k) == if MovesUp(KeyHash(ops, k), oldCap) then Lookup(s, k) else None
  {
    StayMoveMembers(s, oldCap);
    StayMoveDistinct(s, oldCap);
    var lo, hi := StayNodes(s, oldCap), MoveNodes(s, oldCap);
    var r := Lookup(s, k);
    if r.Some? {
      if MovesUp(KeyHash(ops, k), oldCap) {
        LookupUnique(hi, r.value);
      } else {
        LookupUnique(lo, r.value);
      }
    }
    forall i | 0 <= i < |lo| && lo[i].key == k ensures r.Some? && !MovesUp(KeyHash(ops, k), oldCap) {
      assert lo[i] in lo;
      LookupUnique(s, lo[i]);
    }
    forall i | 0 <= i < |hi| && hi[i].key == k ensures r.Some? && MovesUp(KeyHash(ops, k), oldCap) {
      assert hi[i] in hi;
      LookupUnique(s, hi[i]);
    }
  }

  /** A key is found in the half of a split bin its hash selects as in
      the bin itself. */
  lemma HalvesKeep<K, V>(ops: KeyOps<K>, s: seq<Node<K, V>>, lo: seq<Node<K, V>>, hi: seq<Node<K, V>>,
                         n: nat, k: Option<K>)
    requires KeysDistinct(s) && HashesOk(ops, s) && KeysDistinct(lo) && KeysDistinct(hi)
    requires SameNodes(lo, StayNodes(s, n)) && SameNodes(hi, MoveNodes(s, n))
    ensures Lookup(if MovesUp(KeyHash(ops, k), n) then hi else lo, k) == Lookup(s, k)
  {
    StayMoveDistinct(s, n);
    LookupHalves(ops, s, n, k);
    LookupSame(lo, StayNodes(s, n), k);
    LookupSame(hi, MoveNodes(s, n), k);
  }

  /** The slot of a key in a doubled table is its old slot, or that plus
      the old size when the split bit of its hash is set. */
  lemma SlotDoubles<K>(ops: KeyOps<K>, k: Option<K>, n: int)
    requires IsPow2(n)
    ensures IsPow2(2 * n)
    ensures Slot(ops, k, 2 * n) == Slot(ops, k, n) + (if MovesUp(KeyHash(ops, k), n) then n else 0)
  {
    ResizeIndex(KeyHash(ops, k), n);
  }

  /** lo and hi hold the nodes of b that stay and those that move up when
      a table of n slots doubles. */
  ghost predicate SplitInto<K, V>(b: Bucket<K, V>, lo: Bucket<K, V>, hi: Bucket<K, V>, n: nat)
  {
    SameNodes(BinNodes(lo), StayNodes(BinNodes(b), n)) && SameNodes(BinNodes(hi), MoveNodes(BinNodes(b), n))
  }

  /** Old bin b and the two bins it was split into, all well formed. */
  ghost predicate PairOk<K, V>(ops: KeyOps<K>, b: Bucket<K, V>, lo: Bucket<K, V>, hi: Bucket<K, V>, n: nat)
  {
    BinShape(ops, b) && BinShape(ops, lo) && BinShape(ops, hi) && SplitInto(b, lo, hi, n)
  }

  /** One key of a doubled table: it is found in the half of its old bin
      that its hash selects, as it was in the old bin. */
  lemma PairKey<K, V>(ops: KeyOps<K>, b: Bucket<K, V>, lo: Bucket<K, V>, hi: Bucket<K, V>, n: nat, k: Option<K>)
    requires PairOk(ops, b, lo, hi, n)
    ensures Lookup(BinNodes(if MovesUp(KeyHash(ops, k), n) then hi else lo), k) == Lookup(BinNodes(b), k)
  {
    assert KeysDistinct(BinNodes(b)) && HashesOk(ops, BinNodes(b)) by { assert BinShape(ops, b); }
    assert KeysDistinct(BinNodes(lo)) && KeysDistinct(BinNodes(hi)) by {
      assert BinShape(ops, lo) && BinShape(ops, hi);
    }
    assert SameNodes(BinNodes(lo), StayNodes(BinNodes(b), n)) by { assert SplitInto(b, lo, hi, n); }
    assert SameNodes(BinNodes(hi), MoveNodes(BinNodes(b), n)) by { assert SplitInto(b, lo, hi, n); }
    HalvesKeep(ops, BinNodes(b), BinNodes(lo), BinNodes(hi), n, k);
  }

  /** Old slot j of t and the pair of slots j, j + |t| of t' it was split
      into, all well formed. */
  ghost predicate PairAt<K, V>(ops: KeyOps<K>, t: seq<Bucket<K, V>>, t': seq<Bucket<K, V>>, j: int)
    requires 0 <= j < |t| && |t'| == 2 * |t|
  {
    PairOk(ops, t[j], t'[j], t'[j + |t|], |t|)
  }

  /** A key's slot in the doubled table finds it as its old slot did. */
  lemma PairFind<K, V>(ops: KeyOps<K>, t: seq<Bucket<K, V>>, t': seq<Bucket<K, V>>, j: int, k: Option<K>)
    requires IsPow2(|t|) && |t'| == 2 * |t| && j == Slot(ops, k, |t|) && PairAt(ops, t, t', j)
    ensures Lookup(BinNodes(t'[Slot(ops, k, 2 * |t|)]), k) == Lookup(BinNodes(t[j]), k)
  {
    SlotDoubles(ops, k, |t|);
    PairFindAt(ops, t[j], t', j, |t|, Slot(ops, k, 2 * |t|), k);
  }

  /** PairFind with the slot arithmetic done: i is the new slot of k. */
  lemma PairFindAt<K, V>(ops: KeyOps<K>, b: Bucket<K, V>, t': seq<Bucket<K, V>>, j: int, n: nat, i: int, k: Option<K>)
    requires 0 <= j < n && |t'| == 2 * n && PairOk(ops, b, t'[j], t'[j + n], n)
    requires i == j + (if MovesUp(KeyHash(ops, k), n) then n else 0)
    ensures Lookup(BinNodes(t'[i]), k) == Lookup(BinNodes(b), k)
  {
    PairKey(ops, b, t'[j], t'[j + n], n, k);
    PickHalf(t', j, n, i, MovesUp(KeyHash(ops, k), n), k);
  }

  /** Slot j + n of a doubled table is the one of the keys whose hash moves
      up, slot j the one of the others. */
  lemma PickHalf<K, V>(t': seq<Bucket<K, V>>, j: int, n: int, i: int, up: bool, k: Option<K>)
    requires 0 <= j < n && |t'| == 2 * n && i == j + (if up then n else 0)
    ensures Lookup(BinNodes(t'[i]), k) == Lookup(BinNodes(if up then t'[j + n] else t'[j]), k)
  {
  }

  /** A doubled table whose slots j and j + n hold the halves of old slot j
      stands for the same map. */
  lemma ResizeRepresents<K(!new), V>(ops: KeyOps<K>, t: seq<Bucket<K, V>>, t': seq<Bucket<K, V>>,
                                     c: map<Option<K>, Option<V>>)
    requires ValidCapacity(|t|) && ValidCapacity(|t'|) && |t'| == 2 * |t| && Represents(ops, t, c)
    requires forall j :: 0 <= j < |t| ==> PairAt(ops, t, t', j)
    ensures Represents(ops, t', c)
  {
    var n := |t|;
    forall k ensures FindIn(ops, t', k) == Entry(ops, c, k) {
      var j := Slot(ops, k, n);
      assert PairAt(ops, t, t', j);
      PairFind(ops, t, t', j, k);
      assert FindIn(ops, t, k) == Entry(ops, c, k);
    }
  }

  /** Old slot j of a table of n slots went to slots j and j + n of the
      doubled table, each well formed there. */
  ghost predicate SplitOk<K, V>(ops: KeyOps<K>, b: Bucket<K, V>, lo: Bucket<K, V>, hi: Bucket<K, V>, j: int, n: int)
    requires n >= 1
  {
    BinOk(ops, lo, j, 2 * n) && BinOk(ops, hi, j + n, 2 * n) && SplitInto(b, lo, hi, n) &&
    |BinNodes(lo)| + |BinNodes(hi)| == |BinNodes(b)| &&
    (!b.TreeBin? ==> BinNodes(lo) == StayNodes(BinNodes(b), n) && BinNodes(hi) == MoveNodes(BinNodes(b), n))
  }

  /** SplitOk for old slot j of t and slots j, j + |t| of t'. */
  ghost predicate SplitAt<K, V>(ops: KeyOps<K>, t: seq<Bucket<K, V>>, t': seq<Bucket<K, V>>, j: int)
    requires 0 <= j < |t| && |t'| == 2 * |t|
  {
    SplitOk(ops, t[j], t'[j], t'[j + |t|], j, |t|)
  }

  /** The first j old slots of t have been split into the doubled table
      t' (chains in order), and the pairs of the rest are still empty. */
  ghost predicate SplitUpTo<K, V>(ops: KeyOps<K>, t: seq<Bucket<K, V>>, t': seq<Bucket<K, V>>, j: int)
  {
    |t| >= 1 && |t'| == 2 * |t| && 0 <= j <= |t| &&
    (forall i :: 0 <= i < j ==> SplitAt(ops, t, t', i)) &&
    (forall i :: j <= i < |t| ==> t'[i] == Empty) &&
    (forall i :: |t| + j <= i < 2 * |t| ==> t'[i] == Empty)
  }

  /** SplitAt only looks at the two slots of the pair. */
  lemma SplitAtSame<K, V>(ops: KeyOps<K>, t: seq<Bucket<K, V>>, t': seq<Bucket<K, V>>, t'': seq<Bucket<K, V>>, i: int)
    requires 0 <= i < |t| && |t'| == 2 * |t| && |t''| == |t'|
    requires t''[i] == t'[i] && t''[i + |t|] == t'[i + |t|]
    ensures SplitAt(ops, t, t'', i) == SplitAt(ops, t, t', i)
  {
  }

  /** Splitting old slot j into slots j and j + |t| extends the split. */
  lemma SplitStep<K, V>(ops: KeyOps<K>, t: seq<Bucket<K, V>>, t': seq<Bucket<K, V>>, j: int,
                        lo: Bucket<K, V>, hi: Bucket<K, V>)
    requires SplitUpTo(ops, t, t', j) && j < |t| && SplitOk(ops, t[j], lo, hi, j, |t|)
    ensures SplitUpTo(ops, t, t'[j := lo][j + |t| := hi], j + 1)
  {
    SplitPairsStep(ops, t, t', t'[j := lo][j + |t| := hi], j, lo, hi);
    PairsStillEmpty(t', t'[j := lo][j + |t| := hi], |t|, j);
  }

  /** The pairs split so far stay split when pair j is written. */
  lemma SplitPairsStep<K, V>(ops: KeyOps<K>, t: seq<Bucket<K, V>>, t': seq<Bucket<K, V>>, t'': seq<Bucket<K, V>>,
                             j: int, lo: Bucket<K, V>, hi: Bucket<K, V>)
    requires |t'| == 2 * |t| && 0 <= j < |t| && SplitOk(ops, t[j], lo, hi, j, |t|)
    requires t'' == t'[j := lo][j + |t| := hi]
    requires forall i :: 0 <= i < j ==> SplitAt(ops, t, t', i)
    ensures forall i :: 0 <= i < j + 1 ==> SplitAt(ops, t, t'', i)
  {
    var n := |t|;
    forall i | 0 <= i < j + 1 ensures SplitAt(ops, t, t'', i) {
      if i < j {
        SplitAtSame(ops, t, t', t'', i);
      } else {
        assert t''[j] == lo && t''[j + n] == hi;
      }
    }
  }

  /** Writing pair j leaves the pairs after it empty. */
  lemma PairsStillEmpty<K, V>(t': seq<Bucket<K, V>>, t'': seq<Bucket<K, V>>, n: int, j: int)
    requires |t'| == |t''| == 2 * n && 0 <= j < n
    requires forall i :: 0 <= i < 2 * n && i != j && i != j + n ==> t''[i] == t'[i]
    requires forall i :: j <= i < n ==> t'[i] == Empty
    requires forall i :: n + j <= i < 2 * n ==> t'[i] == Empty
    ensures forall i :: j + 1 <= i < n ==> t''[i] == Empty
    ensures forall i :: n + j + 1 <= i < 2 * n ==> t''[i] == Empty
  {
  }

  /** One step of the transfer loop: the halves lo and hi of old slot j,
      as TransferBin returns them, extend the split and the count. */
  lemma TransferStep<K, V>(ops: KeyOps<K>, t: seq<Bucket<K, V>>, t': seq<Bucket<K, V>>, j: int,
                           b: Bucket<K, V>, lo: Bucket<K, V>, hi: Bucket<K, V>)
    requires SplitUpTo(ops, t, t', j) && j < |t| && t[j] == b
    requires BinOk(ops, lo, j, 2 * |t|) && BinOk(ops, hi, j + |t|, 2 * |t|)
    requires SameNodes(BinNodes(lo), StayNodes(BinNodes(b), |t|))
    requires SameNodes(BinNodes(hi), MoveNodes(BinNodes(b), |t|))
    requires |BinNodes(lo)| + |BinNodes(hi)| == |BinNodes(b)|
    requires !b.TreeBin? ==> BinNodes(lo) == StayNodes(BinNodes(b), |t|)
    requires !b.TreeBin? ==> BinNodes(hi) == MoveNodes(BinNodes(b), |t|)
    ensures SplitUpTo(ops, t, t'[j := lo][j + |t| := hi], j + 1)
  {
    assert SplitOk(ops, t[j], lo, hi, j, |t|);
    SplitStep(ops, t, t', j, lo, hi);
  }

  /** Old slot j of t split by TransferBin extends the split of t into t'
      by one pair. */
  method SplitSlot<K(==,!new), V>(ops: KeyOps<K>, ghost t: seq<Bucket<K, V>>, ghost t': seq<Bucket<K, V>>,
                                  j: int, oldCap: int, b: Bucket<K, V>)
    returns (lo: Bucket<K, V>, hi: Bucket<K, V>)
    requires ValidOps(ops) && TableOk(ops, t) && SplitUpTo(ops, t, t', j)
    requires j < |t| == oldCap && t[j] == b
    ensures SplitUpTo(ops, t, t'[j := lo][j + |t| := hi], j + 1)
  {
    assert BinOk(ops, t[j], j, |t|);
    lo, hi := TransferBin(ops, b, j, oldCap);
    TransferStep(ops, t, t', j, b, lo, hi);
  }

  /** An empty old slot leaves its pair empty. */
  lemma SplitEmpty<K, V>(ops: KeyOps<K>, t: seq<Bucket<K, V>>, t': seq<Bucket<K, V>>, j: int)
    requires SplitUpTo(ops, t, t', j) && j < |t| && t[j] == Empty
    ensures SplitUpTo(ops, t, t', j + 1)
  {
    assert SplitAt(ops, t, t', j);
  }

  /** When each slot pair i, i + |t| of t' holds as many nodes as old slot
      i of t, the first j pairs hold as many nodes as the first j old
      slots. */
  lemma {:induction false} SplitTotal<K, V>(t: seq<Bucket<K, V>>, t': seq<Bucket<K, V>>, j: int)
    requires |t'| == 2 * |t| && 0 <= j <= |t|
    requires forall i :: 0 <= i < j ==> |BinNodes(t'[i])| + |BinNodes(t'[i + |t|])| == |BinNodes(t[i])|
    ensures TotalNodes(t'[..j]) + TotalNodes(t'[|t|..][..j]) == TotalNodes(t[..j])
  {
    if j == 0 {
      assert t'[..0] == [] && t'[|t|..][..0] == [] && t[..0] == [];
    } else {
      var u := t'[|t|..];
      SplitTotal(t, t', j - 1);
      TotalPrefix(t, j - 1);
      TotalPrefix(t', j - 1);
      TotalPrefix(u, j - 1);
      assert u[j - 1] == t'[j - 1 + |t|];
    }
  }

  /** A finished split holds as many nodes as the old table. */
  lemma SplitKeepsTotal<K, V>(ops: KeyOps<K>, t: seq<Bucket<K, V>>, t': seq<Bucket<K, V>>)
    requires SplitUpTo(ops, t, t', |t|)
    ensures TotalNodes(t') == TotalNodes(t)
  {
    SplitSizes(ops, t, t');
    PairSizesTotal(t, t');
  }

  /** Each slot pair of a finished split holds as many nodes as its old
      slot. */
  lemma SplitSizes<K, V>(ops: KeyOps<K>, t: seq<Bucket<K, V>>, t': seq<Bucket<K, V>>)
    requires SplitUpTo(ops, t, t', |t|)
    ensures forall i :: 0 <= i < |t| ==> |BinNodes(t'[i])| + |BinNodes(t'[i + |t|])| == |BinNodes(t[i])|
  {
    forall i | 0 <= i < |t| ensures |BinNodes(t'[i])| + |BinNodes(t'[i + |t|])| == |BinNodes(t[i])| {
      assert SplitAt(ops, t, t', i);
    }
  }

  /** Slot pairs holding as many nodes as their old slots make a doubled
      table holding as many nodes as the old one. */
  lemma PairSizesTotal<K, V>(t: seq<Bucket<K, V>>, t': seq<Bucket<K, V>>)
    requires |t'| == 2 * |t|
    requires forall i :: 0 <= i < |t| ==> |BinNodes(t'[i])| + |BinNodes(t'[i + |t|])| == |BinNodes(t[i])|
    ensures TotalNodes(t') == TotalNodes(t)
  {
    var n := |t|;
    SplitTotal(t, t', n);
    TotalHalves(t', n);
    assert t[..n] == t;
  }

  /** A doubled table built slot pair by slot pair from the halves of the
      old slots is well formed and stands for the same map. */
  lemma ResizeTable<K(!new), V>(ops: KeyOps<K>, t: seq<Bucket<K, V>>, t': seq<Bucket<K, V>>,
                                c: map<Option<K>, Option<V>>)
    requires TableOk(ops, t) && Represents(ops, t, c) && ValidCapacity(|t'|)
    requires SplitUpTo(ops, t, t', |t|)
    ensures TableOk(ops, t') && Represents(ops, t', c) && TotalNodes(t') == TotalNodes(t)
  {
    var n := |t|;
    SplitKeepsTotal(ops, t, t');
    forall i | 0 <= i < 2 * n ensures BinOk(ops, t'[i], i, 2 * n) {
      if i < n {
        assert SplitAt(ops, t, t', i);
      } else {
        assert SplitAt(ops, t, t', i - n);
      }
    }
    forall j | 0 <= j < n ensures PairAt(ops, t, t', j) {
      assert SplitAt(ops, t, t', j);
      assert BinOk(ops, t[j], j, n);
    }
    ResizeRepresents(ops, t, t', c);
  }

  /** Replacing slot i by a tree bin of the same nodes keeps the table well
      formed, its map and its node count. */
  lemma TreeifySlot<K(!new), V>(ops: KeyOps<K>, t: seq<Bucket<K, V>>, c: map<Option<K>, Option<V>>,
                                i: int, root: Tree<K, V>, order: seq<Node<K, V>>)
    requires TableOk(ops, t) && Represents(ops, t, c) && 0 <= i < |t|
    requires TreeOk(ops, root, order) && SameNodes(order, BinNodes(t[i]))
    ensures TableOk(ops, t[i := TreeBin(root, order)]) && Represents(ops, t[i := TreeBin(root, order)], c)
    ensures TotalNodes(t[i := TreeBin(root, order)]) == TotalNodes(t)
  {
    var b := TreeBin(root, order);
    var s := BinNodes(t[i]);
    assert BinOk(ops, t[i], i, |t|);
    assert BinOk(ops, b, i, |t|);
    forall k | Slot(ops, k, |t|) == i ensures Lookup(order, k) == Entry(ops, c, k) {
      LookupSame(order, s, k);
      assert FindIn(ops, t, k) == Entry(ops, c, k);
    }
    UpdateSlot(ops, t, i, b, c, c);
    SameNodesLength(order, s);
    TotalUpdate(t, i, b);
  }

  // ---------------------------------------------------------------------
  // Traversal

  /** The slot of key k is well formed and looking k up in it finds c's
      entry for k. */
  lemma SlotLookup<K(!new), V>(ops: KeyOps<K>, t: seq<Bucket<K, V>>, c: map<Option<K>, Option<V>>, k: Option<K>)
    requires TableOk(ops, t) && Represents(ops, t, c)
    ensures BinShape(ops, t[Slot(ops, k, |t|)])
    ensures Lookup(BinNodes(t[Slot(ops, k, |t|)]), k) == Entry(ops, c, k)
  {
    var i := Slot(ops, k, |t|);
    assert BinOk(ops, t[i], i, |t|);
    assert FindIn(ops, t, k) == Entry(ops, c, k);
  }

  /** What one slot of a well-formed table holds: distinct keys, all of
      that slot, each with the map's entry. */
  lemma SlotFacts<K(!new), V>(ops: KeyOps<K>, t: seq<Bucket<K, V>>, c: map<Option<K>, Option<V>>, i: int)
    requires TableOk(ops, t) && Represents(ops, t, c) && 0 <= i < |t|
    ensures KeysDistinct(BinNodes(t[i]))
    ensures forall x :: x in BinNodes(t[i]) ==> Slot(ops, x.key, |t|) == i
    ensures forall k :: Slot(ops, k, |t|) == i ==> Lookup(BinNodes(t[i]), k) == Entry(ops, c, k)
  {
    assert BinOk(ops, t[i], i, |t|);
    forall k | Slot(ops, k, |t|) == i ensures Lookup(BinNodes(t[i]), k) == Entry(ops, c, k) {
      assert FindIn(ops, t, k) == Entry(ops, c, k);
    }
  }

  /** The traversal step: the slots below i followed by slot i list the
      entries whose slot is at most i. */
  lemma TraversalStep<K(!new), V>(ops: KeyOps<K>, n: int, c: map<Option<K>, Option<V>>,
                                  a: seq<Node<K, V>>, b: seq<Node<K, V>>, i: int)
    requires IsPow2(n) && KeysDistinct(a) && KeysDistinct(b)
    requires forall x :: x in a ==> Slot(ops, x.key, n) < i
    requires forall k :: Lookup(a, k) == if Slot(ops, k, n) < i then Entry(ops, c, k) else None
    requires forall x :: x in b ==> Slot(ops, x.key, n) == i
    requires forall k :: Slot(ops, k, n) == i ==> Lookup(b, k) == Entry(ops, c, k)
    ensures KeysDistinct(a + b)
    ensures forall x :: x in a + b ==> Slot(ops, x.key, n) < i + 1
    ensures forall k :: Lookup(a + b, k) == if Slot(ops, k, n) < i + 1 then Entry(ops, c, k) else None
  {
    DistinctAppend(a, b);
    forall k ensures Lookup(a + b, k) == if Slot(ops, k, n) < i + 1 then Entry(ops, c, k) else None {
      LookupAppend(a, b, k);
      if Slot(ops, k, n) != i && Lookup(b, k).Some? {
        LookupUnique(b, Lookup(b, k).value);
      }
    }
  }

  /** The first j slots list, without repeating a key, exactly the entries
      whose slot is below j. */
  lemma {:induction false} TraversalPrefix<K(!new), V>(ops: KeyOps<K>, t: seq<Bucket<K, V>>,
                                                       c: map<Option<K>, Option<V>>, j: int)
    requires TableOk(ops, t) && Represents(ops, t, c) && 0 <= j <= |t|
    ensures KeysDistinct(AllNodes(t[..j]))
    ensures forall x :: x in AllNodes(t[..j]) ==> Slot(ops, x.key, |t|) < j
    ensures forall k :: Lookup(AllNodes(t[..j]), k) == if Slot(ops, k, |t|) < j then Entry(ops, c, k) else None
  {
    if j > 0 {
      TraversalPrefix(ops, t, c, j - 1);
      assert AllNodes(t[..j]) == AllNodes(t[..j - 1]) + BinNodes(t[j - 1]) by {
        assert t[..j][..j - 1] == t[..j - 1];
      }
      SlotFacts(ops, t, c, j - 1);
      TraversalStep(ops, |t|, c, AllNodes(t[..j - 1]), BinNodes(t[j - 1]), j - 1);
    }
  }

  /** A traversal of the table (forEach, the iterators) meets every entry of
      the map exactly once: no key is listed twice, and the node listed for
      a key is the map's entry for it. */
  lemma Traversal<K(!new), V>(ops: KeyOps<K>, t: seq<Bucket<K, V>>, c: map<Option<K>, Option<V>>)
    requires TableOk(ops, t) && Represents(ops, t, c)
    ensures KeysDistinct(AllNodes(t))
    ensures forall k :: Lookup(AllNodes(t), k) == Entry(ops, c, k)
  {
    TraversalPrefix(ops, t, c, |t|);
    assert t[..|t|] == t;
  }

  lemma {:induction false} AllNodesPrefix<K, V>(t: seq<Bucket<K, V>>, j: int)
    requires 0 <= j <= |t|
    ensures forall x :: x in AllNodes(t[..j]) ==> x in AllNodes(t)
  {
    if j < |t| {
      AllNodesPrefix(t[..|t| - 1], j);
      assert t[..|t| - 1][..j] == t[..j];
    } else {
      assert t[..j] == t;
    }
  }

  /** Some key of the map holds v exactly when some node of the table does. */
  lemma ValueInTable<K(!new), V>(ops: KeyOps<K>, t: seq<Bucket<K, V>>, c: map<Option<K>, Option<V>>, v: Option<V>)
    requires TableOk(ops, t) && Represents(ops, t, c)
    ensures (exists k :: k in c && c[k] == v) <==> (exists x :: x in AllNodes(t) && x.value == v)
  {
    Traversal(ops, t, c);
    var all := AllNodes(t);
    if exists k :: k in c && c[k] == v {
      var k :| k in c && c[k] == v;
      assert Lookup(all, k) == Entry(ops, c, k);
    }
    if exists x :: x in all && x.value == v {
      var x :| x in all && x.value == v;
      LookupUnique(all, x);
      assert Lookup(all, x.key) == Entry(ops, c, x.key);
    }
  }
}
