/** Map entries, the key operations the table relies on, and the order tree
    bins keep (HashMap.java lines 262-317, 354-459, 2578-2586). */
module Nodes {
  import opened Hashing

  /** A map entry: the spread hash of its key, the key and the value (either
      may be null). Nodes are values here; the links between them are
      represented by the sequences and trees that hold them. */
  datatype Node<K, V> = Node(hash: u32, key: Option<K>, value: Option<V>)

  /** What the table needs to know about keys besides equality:
      `hashCode`; `compare`, which stands for comparableClassFor together with
      compareComparables (0 when the keys are not mutually comparable); and
      `tieBreak`, which stands for tieBreakOrder. */
  datatype KeyOps<!K> = KeyOps(
    hashCode: K -> u32,
    compare: (Option<K>, Option<K>) -> int,
    tieBreak: (Option<K>, Option<K>) -> int)

  function KeyHash<K>(ops: KeyOps<K>, k: Option<K>): u32
  {
    Hash(k, ops.hashCode)
  }

  /** The direction tree insertion takes for key a at a node with key b among
      equal hashes: the comparison if it decides, the tie-break otherwise. */
  function Dir<K>(ops: KeyOps<K>, a: Option<K>, b: Option<K>): int
  {
    if ops.compare(a, b) != 0 then ops.compare(a, b) else ops.tieBreak(a, b)
  }

  /** compareTo is antisymmetric in sign, and comparison with tie-breaking
      orders keys totally. */
  ghost predicate ValidOps<K(!new)>(ops: KeyOps<K>)
  {
    (forall a, b :: ops.compare(a, b) < 0 <==> ops.compare(b, a) > 0) &&
    (forall a, b :: Dir(ops, a, b) <= 0 || Dir(ops, b, a) <= 0) &&
    (forall a, b, c :: Dir(ops, a, b) <= 0 && Dir(ops, b, c) <= 0 ==> Dir(ops, a, c) <= 0)
  }

  /** x may stand before y in a tree bin: by signed hash, then by Dir. */
  predicate Precedes<K, V>(ops: KeyOps<K>, x: Node<K, V>, y: Node<K, V>)
  {
    Signed(x.hash) < Signed(y.hash) ||
    (Signed(x.hash) == Signed(y.hash) && Dir(ops, x.key, y.key) <= 0)
  }

  lemma PrecedesTrans<K(!new), V>(ops: KeyOps<K>, x: Node<K, V>, y: Node<K, V>, z: Node<K, V>)
    requires ValidOps(ops) && Precedes(ops, x, y) && Precedes(ops, y, z)
    ensures Precedes(ops, x, z)
  {
    if Signed(x.hash) == Signed(y.hash) == Signed(z.hash) {
      assert Dir(ops, x.key, y.key) <= 0 && Dir(ops, y.key, z.key) <= 0;
    }
  }

  lemma PrecedesTotal<K(!new), V>(ops: KeyOps<K>, x: Node<K, V>, y: Node<K, V>)
    requires ValidOps(ops)
    ensures Precedes(ops, x, y) || Precedes(ops, y, x)
  {
    assert Dir(ops, x.key, y.key) <= 0 || Dir(ops, y.key, x.key) <= 0;
  }

  /** The in-order sequence of a tree bin respects Precedes. */
  predicate Sorted<K, V>(ops: KeyOps<K>, s: seq<Node<K, V>>)
  {
    forall i, j :: 0 <= i < j < |s| ==> Precedes(ops, s[i], s[j])
  }

  /** No key occurs twice. */
  predicate KeysDistinct<K(==), V>(s: seq<Node<K, V>>)
  {
    forall i, j :: 0 <= i < j < |s| ==> s[i].key != s[j].key
  }

  /** Every node carries the hash of its own key. */
  ghost predicate HashesOk<K, V>(ops: KeyOps<K>, s: seq<Node<K, V>>)
  {
    forall x :: x in s ==> x.hash == KeyHash(ops, x.key)
  }

  /** The first node with key k. */
  function Lookup<K(==), V>(s: seq<Node<K, V>>, k: Option<K>): (r: Option<Node<K, V>>)
    ensures r.Some? ==> r.value in s && r.value.key == k
    ensures r.None? <==> forall i :: 0 <= i < |s| ==> s[i].key != k
  {
    if |s| == 0 then None
    else if s[0].key == k then Some(s[0])
    else
      var r := Lookup(s[1..], k);
      assert forall i :: 1 <= i < |s| ==> s[i] == s[1..][i - 1];
      r
  }

  /** With distinct keys, the node found is the only one with its key. */
  lemma LookupUnique<K, V>(s: seq<Node<K, V>>, x: Node<K, V>)
    requires KeysDistinct(s) && x in s
    ensures Lookup(s, x.key) == Some(x)
  {
    if s[0] != x {
      assert s[0].key != x.key by {
        var i :| 0 <= i < |s| && s[i] == x;
      }
      assert KeysDistinct(s[1..]) by {
        forall i, j | 0 <= i < j < |s[1..]| ensures s[1..][i].key != s[1..][j].key {
          assert s[1..][i] == s[i + 1] && s[1..][j] == s[j + 1];
        }
      }
      assert x in s[1..];
      LookupUnique(s[1..], x);
    }
  }

  /** Two key-distinct sequences with the same nodes agree on every lookup. */
  lemma LookupSameNodes<K, V>(a: seq<Node<K, V>>, b: seq<Node<K, V>>, k: Option<K>)
    requires KeysDistinct(a) && KeysDistinct(b) && Elems(a) == Elems(b)
    ensures Lookup(a, k) == Lookup(b, k)
  {
    var r := Lookup(a, k);
    if r.Some? {
      assert r.value in Elems(a);
      LookupUnique(b, r.value);
    } else if Lookup(b, k).Some? {
      var y := Lookup(b, k).value;
      assert y in Elems(b);
      LookupUnique(a, y);
    }
  }

  /** The nodes of s other than the one with key k, in their order. */
  function Without<K(==), V>(s: seq<Node<K, V>>, k: Option<K>): (r: seq<Node<K, V>>)
    ensures forall x :: x in r ==> x in s && x.key != k
    ensures forall x :: x in s && x.key != k ==> x in r
    ensures |r| <= |s|
  {
    if |s| == 0 then []
    else if s[0].key == k then Without(s[1..], k)
    else [s[0]] + Without(s[1..], k)
  }

  /** The set of nodes of a sequence. */
  function Elems<K(==), V(==)>(s: seq<Node<K, V>>): set<Node<K, V>>
  {
    set x | x in s
  }

  /** Some node of s has key k. */
  ghost predicate HasKey<K, V>(s: seq<Node<K, V>>, k: Option<K>)
  {
    exists i :: 0 <= i < |s| && s[i].key == k
  }

  lemma HasKeyIn<K, V>(s: seq<Node<K, V>>, x: Node<K, V>)
    requires x in s
    ensures HasKey(s, x.key)
  {
    var i :| 0 <= i < |s| && s[i] == x;
  }

  /** A node whose key is new can be put anywhere without repeating a key. */
  lemma DistinctInsert<K, V>(a: seq<Node<K, V>>, x: Node<K, V>, b: seq<Node<K, V>>)
    requires KeysDistinct(a + b) && !HasKey(a + b, x.key)
    ensures KeysDistinct(a + [x] + b)
  {
    var s, t := a + [x] + b, a + b;
    forall i, j | 0 <= i < j < |s| ensures s[i].key != s[j].key {
      if i == |a| {
        assert s[j] == t[j - 1];
      } else if j == |a| {
        assert s[i] == t[i];
      } else {
        var i', j' := if i < |a| then i else i - 1, if j < |a| then j else j - 1;
        assert s[i] == t[i'] && s[j] == t[j'];
      }
    }
  }

  /** A node that follows everything before its place and precedes everything
      after it keeps a sorted sequence sorted. */
  lemma SortedInsert<K, V>(ops: KeyOps<K>, a: seq<Node<K, V>>, x: Node<K, V>, b: seq<Node<K, V>>)
    requires Sorted(ops, a + b)
    requires forall y :: y in a ==> Precedes(ops, y, x)
    requires forall y :: y in b ==> Precedes(ops, x, y)
    ensures Sorted(ops, a + [x] + b)
  {
    var s, t := a + [x] + b, a + b;
    forall i, j | 0 <= i < j < |s| ensures Precedes(ops, s[i], s[j]) {
      if i == |a| {
        assert s[j] == b[j - |a| - 1];
      } else if j == |a| {
        assert s[i] == a[i];
      } else {
        var i', j' := if i < |a| then i else i - 1, if j < |a| then j else j - 1;
        assert s[i] == t[i'] && s[j] == t[j'];
      }
    }
  }

  lemma {:induction false} WithoutAppend<K, V>(a: seq<Node<K, V>>, b: seq<Node<K, V>>, k: Option<K>)
    ensures Without(a + b, k) == Without(a, k) + Without(b, k)
  {
    if |a| > 0 {
      assert (a + b)[1..] == a[1..] + b;
      WithoutAppend(a[1..], b, k);
    } else {
      assert a + b == b;
    }
  }

  lemma {:induction false} WithoutAbsent<K, V>(s: seq<Node<K, V>>, k: Option<K>)
    requires !HasKey(s, k)
    ensures Without(s, k) == s
  {
    if |s| > 0 {
      assert forall i :: 0 <= i < |s[1..]| ==> s[1..][i] == s[i + 1];
      WithoutAbsent(s[1..], k);
    }
  }

  lemma SortedTail<K, V>(ops: KeyOps<K>, s: seq<Node<K, V>>)
    requires Sorted(ops, s) && |s| > 0
    ensures Sorted(ops, s[1..]) && forall y :: y in s[1..] ==> Precedes(ops, s[0], y)
  {
    assert forall i :: 0 <= i < |s[1..]| ==> s[1..][i] == s[i + 1];
  }

  lemma SortedCons<K, V>(ops: KeyOps<K>, x: Node<K, V>, w: seq<Node<K, V>>)
    requires Sorted(ops, w) && forall y :: y in w ==> Precedes(ops, x, y)
    ensures Sorted(ops, [x] + w)
  {
    var r := [x] + w;
    forall i, j | 0 <= i < j < |r| ensures Precedes(ops, r[i], r[j]) {
      assert r[j] == w[j - 1];
      if i > 0 {
        assert r[i] == w[i - 1];
      }
    }
  }

  lemma DistinctTail<K, V>(s: seq<Node<K, V>>)
    requires KeysDistinct(s) && |s| > 0
    ensures KeysDistinct(s[1..]) && forall y :: y in s[1..] ==> y.key != s[0].key
  {
    assert forall i :: 0 <= i < |s[1..]| ==> s[1..][i] == s[i + 1];
  }

  lemma DistinctCons<K, V>(x: Node<K, V>, w: seq<Node<K, V>>)
    requires KeysDistinct(w) && forall y :: y in w ==> y.key != x.key
    ensures KeysDistinct([x] + w)
  {
    var r := [x] + w;
    forall i, j | 0 <= i < j < |r| ensures r[i].key != r[j].key {
      assert r[j] == w[j - 1];
      if i > 0 {
        assert r[i] == w[i - 1];
      }
    }
  }

  /** Removing a key keeps the remaining nodes in their order: a sorted
      sequence stays sorted. */
  lemma {:induction false} WithoutSorted<K, V>(ops: KeyOps<K>, s: seq<Node<K, V>>, k: Option<K>)
    requires Sorted(ops, s)
    ensures Sorted(ops, Without(s, k))
  {
    if |s| > 0 {
      SortedTail(ops, s);
      WithoutSorted(ops, s[1..], k);
      if s[0].key != k {
        SortedCons(ops, s[0], Without(s[1..], k));
      }
    }
  }

  /** Removing a key keeps the other keys distinct. */
  lemma {:induction false} WithoutDistinct<K, V>(s: seq<Node<K, V>>, k: Option<K>)
    requires KeysDistinct(s)
    ensures KeysDistinct(Without(s, k))
  {
    if |s| > 0 {
      DistinctTail(s);
      WithoutDistinct(s[1..], k);
      if s[0].key != k {
        DistinctCons(s[0], Without(s[1..], k));
      }
    }
  }

  /** With distinct keys a node is determined by its key. */
  lemma SameKeySame<K, V>(s: seq<Node<K, V>>, x: Node<K, V>, y: Node<K, V>)
    requires KeysDistinct(s) && x in s && y in s && x.key == y.key
    ensures x == y
  {
    var i :| 0 <= i < |s| && s[i] == x;
    var j :| 0 <= j < |s| && s[j] == y;
    assert i == j;
  }

  /** a and b hold the same nodes (in any order). */
  ghost predicate SameNodes<K, V>(a: seq<Node<K, V>>, b: seq<Node<K, V>>)
  {
    (forall y :: y in a ==> y in b) && (forall y :: y in b ==> y in a)
  }

  lemma SameNodesTrans<K, V>(a: seq<Node<K, V>>, b: seq<Node<K, V>>, c: seq<Node<K, V>>)
    requires SameNodes(a, b) && SameNodes(b, c)
    ensures SameNodes(a, c)
  {
  }

  lemma SameNodesSnoc<K, V>(a: seq<Node<K, V>>, b: seq<Node<K, V>>, x: Node<K, V>)
    requires SameNodes(a, b)
    ensures SameNodes(a + [x], b + [x])
  {
  }

  lemma DistinctParts<K, V>(a: seq<Node<K, V>>, m: Node<K, V>, b: seq<Node<K, V>>)
    requires KeysDistinct(a + [m] + b)
    ensures KeysDistinct(a) && KeysDistinct(b)
    ensures forall y :: y in a ==> y.key != m.key
    ensures forall y :: y in b ==> y.key != m.key
    ensures forall y, z :: y in a && z in b ==> y.key != z.key
  {
    var s := a + [m] + b;
    assert forall i :: 0 <= i < |a| ==> s[i] == a[i];
    assert forall i :: 0 <= i < |b| ==> s[|a| + 1 + i] == b[i];
    assert s[|a|] == m;
    forall y, z | y in a && z in b ensures y.key != z.key {
      var i :| 0 <= i < |a| && a[i] == y;
      var j :| 0 <= j < |b| && b[j] == z;
      assert s[i] == y && s[|a| + 1 + j] == z;
    }
  }

  /** Removing the key of a node that occurs once takes out exactly that
      node. */
  lemma WithoutOne<K, V>(a: seq<Node<K, V>>, x: Node<K, V>, b: seq<Node<K, V>>)
    requires KeysDistinct(a + [x] + b)
    ensures Without(a + [x] + b, x.key) == a + b
  {
    var k := x.key;
    DistinctParts(a, x, b);
    assert !HasKey(a, k) by {
      forall i | 0 <= i < |a| ensures a[i].key != k {
        assert a[i] in a;
      }
    }
    assert !HasKey(b, k) by {
      forall i | 0 <= i < |b| ensures b[i].key != k {
        assert b[i] in b;
      }
    }
    WithoutAbsent(a, k);
    WithoutAbsent(b, k);
    assert Without([x], k) == [] by {
      assert [x][1..] == [];
    }
    WithoutAppend(a, [x], k);
    WithoutAppend(a + [x], b, k);
    assert a + [] == a;
  }

  /** Swapping two neighbours keeps keys distinct. */
  lemma DistinctSwap<K, V>(a: seq<Node<K, V>>, x: Node<K, V>, y: Node<K, V>, b: seq<Node<K, V>>)
    requires KeysDistinct(a + [x] + [y] + b)
    ensures KeysDistinct(a + [y] + [x] + b)
  {
    var s, t := a + [x] + [y] + b, a + [y] + [x] + b;
    forall i, j | 0 <= i < j < |t| ensures t[i].key != t[j].key {
      var i' := if i == |a| then |a| + 1 else if i == |a| + 1 then |a| else i;
      var j' := if j == |a| then |a| + 1 else if j == |a| + 1 then |a| else j;
      assert t[i] == s[i'] && t[j] == s[j'];
    }
  }

  // ---------------------------------------------------------------------
  // Value updates: `e.value = ...` on nodes that stay where they are

  /** x with its value replaced by f(key, value). */
  function WithValue<K, V>(x: Node<K, V>, f: (Option<K>, Option<V>) -> Option<V>): Node<K, V>
  {
    Node(x.hash, x.key, f(x.key, x.value))
  }

  /** Every node of s with its value replaced by f(key, value), in place. */
  function Revalue<K, V>(s: seq<Node<K, V>>, f: (Option<K>, Option<V>) -> Option<V>): (r: seq<Node<K, V>>)
    ensures |r| == |s| && forall i :: 0 <= i < |s| ==> r[i] == WithValue(s[i], f)
  {
    seq(|s|, i requires 0 <= i < |s| => WithValue(s[i], f))
  }

  /** The update that `e.value = v` makes on the node with key k. */
  function SetTo<K(==), V>(k: Option<K>, v: Option<V>): (Option<K>, Option<V>) -> Option<V>
  {
    (k', v') => if k' == k then v else v'
  }

  lemma RevalueAppend<K, V>(a: seq<Node<K, V>>, b: seq<Node<K, V>>, f: (Option<K>, Option<V>) -> Option<V>)
    ensures Revalue(a + b, f) == Revalue(a, f) + Revalue(b, f)
  {
  }

  /** Updating values keeps hashes, keys and therefore every ordering and
      distinctness fact about a sequence. */
  lemma RevalueKeeps<K, V>(ops: KeyOps<K>, s: seq<Node<K, V>>, f: (Option<K>, Option<V>) -> Option<V>)
    ensures KeysDistinct(s) ==> KeysDistinct(Revalue(s, f))
    ensures HashesOk(ops, s) ==> HashesOk(ops, Revalue(s, f))
    ensures Sorted(ops, s) ==> Sorted(ops, Revalue(s, f))
    ensures forall y :: y in Revalue(s, f) ==> exists x :: x in s && y == WithValue(x, f)
    ensures forall x :: x in s ==> WithValue(x, f) in Revalue(s, f)
  {
    var r := Revalue(s, f);
    forall y | y in r ensures exists x :: x in s && y == WithValue(x, f) {
      var i :| 0 <= i < |r| && r[i] == y;
      assert s[i] in s;
    }
    forall x | x in s ensures WithValue(x, f) in r {
      var i :| 0 <= i < |s| && s[i] == x;
      assert r[i] == WithValue(x, f);
    }
  }

  /** The node found after an update is the updated node found before. */
  lemma {:induction false} RevalueLookup<K, V>(s: seq<Node<K, V>>, f: (Option<K>, Option<V>) -> Option<V>, k: Option<K>)
    ensures Lookup(Revalue(s, f), k) == if Lookup(s, k).Some? then Some(WithValue(Lookup(s, k).value, f)) else None
  {
    if |s| > 0 {
      assert Revalue(s, f)[1..] == Revalue(s[1..], f);
      RevalueLookup(s[1..], f, k);
    }
  }

  lemma RevalueSameNodes<K, V>(a: seq<Node<K, V>>, b: seq<Node<K, V>>, f: (Option<K>, Option<V>) -> Option<V>)
    requires SameNodes(a, b)
    ensures SameNodes(Revalue(a, f), Revalue(b, f))
  {
    forall y | y in Revalue(a, f) ensures y in Revalue(b, f) {
      var i :| 0 <= i < |a| && Revalue(a, f)[i] == y;
      assert a[i] in b;
      var j :| 0 <= j < |b| && b[j] == a[i];
      assert Revalue(b, f)[j] == y;
    }
    forall y | y in Revalue(b, f) ensures y in Revalue(a, f) {
      var i :| 0 <= i < |b| && Revalue(b, f)[i] == y;
      assert b[i] in a;
      var j :| 0 <= j < |a| && a[j] == b[i];
      assert Revalue(a, f)[j] == y;
    }
  }
}
