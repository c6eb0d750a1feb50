/** The tree-bin operations of TreeNode (HashMap.java lines 2484-3063):
    search, insertion, conversion between chains and trees, splitting on
    resize and removal. */
module TreeBins {
  import opened Bits
  import opened Hashing
  import opened Nodes
  import opened RedBlack
  import opened Bins

  function Size<K, V>(t: Tree<K, V>): nat
  {
    match t
    case Nil => 0
    case TreeNode(_, l, _, r) => Size(l) + 1 + Size(r)
  }

  /** What a search for key k with spread hash h may rely on. */
  ghost predicate SearchOk<K(!new), V>(ops: KeyOps<K>, t: Tree<K, V>, h: u32, k: Option<K>)
  {
    ValidOps(ops) && Sorted(ops, Inorder(t)) && HashesOk(ops, Inorder(t)) && h == KeyHash(ops, k)
  }

  lemma SortedParts<K, V>(ops: KeyOps<K>, a: seq<Node<K, V>>, n: Node<K, V>, b: seq<Node<K, V>>)
    requires Sorted(ops, a + [n] + b)
    ensures Sorted(ops, a) && Sorted(ops, b)
    ensures forall y :: y in a ==> Precedes(ops, y, n)
    ensures forall y :: y in b ==> Precedes(ops, n, y)
  {
    var s := a + [n] + b;
    assert forall i :: 0 <= i < |a| ==> s[i] == a[i];
    assert forall i :: 0 <= i < |b| ==> s[|a| + 1 + i] == b[i];
    assert s[|a|] == n;
  }

  lemma InorderParts<K, V>(t: Tree<K, V>)
    requires t.TreeNode?
    ensures Size(t.left) < Size(t) && Size(t.right) < Size(t)
    ensures forall y :: y in Inorder(t.left) ==> y in Inorder(t)
    ensures forall y :: y in Inorder(t.right) ==> y in Inorder(t)
    ensures t.node in Inorder(t)
  {
  }

  /** A node y with key k cannot follow p's node when the hash or the key
      comparison at p points left. */
  lemma NotAfter<K(!new), V>(ops: KeyOps<K>, n: Node<K, V>, y: Node<K, V>, h: u32, k: Option<K>)
    requires ValidOps(ops) && Precedes(ops, n, y) && y.key == k && y.hash == h
    ensures Signed(n.hash) <= Signed(h)
    ensures Signed(n.hash) == Signed(h) ==> ops.compare(k, n.key) >= 0
  {
    assert ops.compare(k, n.key) < 0 ==> ops.compare(n.key, k) > 0;
  }

  /** The mirror image of NotAfter. */
  lemma NotBefore<K(!new), V>(ops: KeyOps<K>, n: Node<K, V>, y: Node<K, V>, h: u32, k: Option<K>)
    requires ValidOps(ops) && Precedes(ops, y, n) && y.key == k && y.hash == h
    ensures Signed(n.hash) >= Signed(h)
    ensures Signed(n.hash) == Signed(h) ==> ops.compare(k, n.key) <= 0
  {
  }

  lemma HasKeyParts<K, V>(a: seq<Node<K, V>>, n: Node<K, V>, b: seq<Node<K, V>>, k: Option<K>)
    requires HasKey(a + [n] + b, k) && n.key != k
    ensures HasKey(a, k) || HasKey(b, k)
  {
    var s := a + [n] + b;
    var i :| 0 <= i < |s| && s[i].key == k;
    if i < |a| {
      assert a[i] == s[i];
    } else {
      assert b[i - |a| - 1] == s[i];
    }
  }

  /** Where a node with key k can be, seen from node p of a search tree: one of
      p's subtrees, and not the one the hash or the comparison points away
      from. */
  lemma SearchDirection<K(!new), V>(ops: KeyOps<K>, p: Tree<K, V>, h: u32, k: Option<K>)
    requires p.TreeNode? && SearchOk(ops, p, h, k) && p.node.key != k
    ensures SearchOk(ops, p.left, h, k) && SearchOk(ops, p.right, h, k)
    ensures HasKey(Inorder(p), k) ==> HasKey(Inorder(p.left), k) || HasKey(Inorder(p.right), k)
    ensures Signed(p.node.hash) > Signed(h) ==> !HasKey(Inorder(p.right), k)
    ensures Signed(p.node.hash) < Signed(h) ==> !HasKey(Inorder(p.left), k)
    ensures Signed(p.node.hash) == Signed(h) && ops.compare(k, p.node.key) < 0 ==> !HasKey(Inorder(p.right), k)
    ensures Signed(p.node.hash) == Signed(h) && ops.compare(k, p.node.key) > 0 ==> !HasKey(Inorder(p.left), k)
  {
    var l, n, r := Inorder(p.left), p.node, Inorder(p.right);
    SortedParts(ops, l, n, r);
    InorderParts(p);
    if HasKey(Inorder(p), k) {
      HasKeyParts(l, n, r, k);
    }
    if HasKey(r, k) {
      var i :| 0 <= i < |r| && r[i].key == k;
      assert r[i] in r;
      NotAfter(ops, n, r[i], h, k);
    }
    if HasKey(l, k) {
      var i :| 0 <= i < |l| && l[i].key == k;
      assert l[i] in l;
      NotBefore(ops, n, l[i], h, k);
    }
  }

  /** find(h, k, kc): descends by hash, then by key comparison; when the
      comparison cannot decide, searches the right subtree recursively and
      continues on the left. The node returned is in the tree and has key k;
      on a search tree none is returned only when no node has key k. */
  method Find<K(==,!new), V>(ops: KeyOps<K>, t: Tree<K, V>, h: u32, k: Option<K>) returns (r: Option<Node<K, V>>)
    ensures r.Some? ==> r.value in Inorder(t) && r.value.key == k
    ensures SearchOk(ops, t, h, k) ==> (r.Some? <==> HasKey(Inorder(t), k))
    decreases Size(t)
  {
    var p := t;
    while p.TreeNode?
      invariant Size(p) <= Size(t)
      invariant forall y :: y in Inorder(p) ==> y in Inorder(t)
      invariant SearchOk(ops, t, h, k) ==> SearchOk(ops, p, h, k) && (HasKey(Inorder(t), k) ==> HasKey(Inorder(p), k))
      decreases Size(p)
    {
      var pl, pr := p.left, p.right;
      InorderParts(p);
      if SearchOk(ops, p, h, k) && p.node.key != k {
        SearchDirection(ops, p, h, k);
      }
      if Signed(p.node.hash) > Signed(h) {
        p := pl;
      } else if Signed(p.node.hash) < Signed(h) {
        p := pr;
      } else if p.node.key == k {
        return Some(p.node);
      } else if pl.Nil? {
        p := pr;
      } else if pr.Nil? {
        p := pl;
      } else if ops.compare(k, p.node.key) != 0 {
        p := if ops.compare(k, p.node.key) < 0 then pl else pr;
      } else {
        var q := Find(ops, pr, h, k);
        if q.Some? {
          return q;
        }
        p := pl;
      }
    }
    return None;
  }

  /** The shape of a tree bin: a non-empty search tree without repeated keys
      whose nodes are exactly those of the bin's `next` list. */
  ghost predicate TreeOk<K, V>(ops: KeyOps<K>, root: Tree<K, V>, order: seq<Node<K, V>>)
  {
    root.TreeNode? && Sorted(ops, Inorder(root)) && HashesOk(ops, Inorder(root)) &&
    KeysDistinct(Inorder(root)) && KeysDistinct(order) &&
    SameNodes(Inorder(root), order)
  }

  /** checkInvariants(t), on the links a value tree still has: a left
      child's hash is not above its parent's, a right child's not below, and
      no red node has two red children; recursively. (The prev/next and
      parent links it also checks are implicit here.) */
  function CheckInvariants<K, V>(t: Tree<K, V>): bool
    requires t.TreeNode?
  {
    var tl, tr := t.left, t.right;
    if tl.TreeNode? && Signed(tl.node.hash) > Signed(t.node.hash) then false
    else if tr.TreeNode? && Signed(tr.node.hash) < Signed(t.node.hash) then false
    else if t.red && IsRed(tl) && IsRed(tr) then false
    else if tl.TreeNode? && !CheckInvariants(tl) then false
    else if tr.TreeNode? && !CheckInvariants(tr) then false
    else true
  }

  /** The red-black rule that a red node has no red child. */
  ghost predicate NoRedRed<K, V>(t: Tree<K, V>)
  {
    match t
    case Nil => true
    case TreeNode(c, l, _, r) => (c ==> !IsRed(l) && !IsRed(r)) && NoRedRed(l) && NoRedRed(r)
  }

  /** A search tree that keeps the red rule passes checkInvariants. */
  lemma {:induction false} SortedPassesCheck<K, V>(ops: KeyOps<K>, t: Tree<K, V>)
    requires t.TreeNode? && Sorted(ops, Inorder(t)) && NoRedRed(t)
    ensures CheckInvariants(t)
  {
    SortedParts(ops, Inorder(t.left), t.node, Inorder(t.right));
    if t.left.TreeNode? {
      InorderParts(t.left);
      SortedPassesCheck(ops, t.left);
    }
    if t.right.TreeNode? {
      InorderParts(t.right);
      SortedPassesCheck(ops, t.right);
    }
  }

  /** The position of the node with key k. */
  function KeyIndex<K(==), V>(s: seq<Node<K, V>>, k: Option<K>): (i: nat)
    requires HasKey(s, k)
    ensures i < |s| && s[i].key == k
  {
    if s[0].key == k then 0
    else
      assert HasKey(s[1..], k) by {
        var j :| 0 <= j < |s| && s[j].key == k;
        assert s[1..][j - 1] == s[j];
      }
      1 + KeyIndex(s[1..], k)
  }

  /** With distinct keys, removing a present key removes exactly one node. */
  lemma WithoutLength<K, V>(s: seq<Node<K, V>>, k: Option<K>)
    requires KeysDistinct(s) && HasKey(s, k)
    ensures |Without(s, k)| == |s| - 1
  {
    var i := KeyIndex(s, k);
    assert s == s[..i] + [s[i]] + s[i + 1..];
    WithoutOne(s[..i], s[i], s[i + 1..]);
  }

  /** moveRootToFront: the root becomes the first node of the bin's list and
      the other nodes keep their order. */
  function MoveRootToFront<K(==), V>(order: seq<Node<K, V>>, root: Node<K, V>): (r: seq<Node<K, V>>)
    requires root in order && KeysDistinct(order)
    ensures |r| == |order| && r[0] == root
    ensures SameNodes(r, order)
    ensures KeysDistinct(r)
    ensures Without(r, root.key) == Without(order, root.key)
  {
    if order[0].key == root.key then
      SameKeySame(order, order[0], root);
      order
    else
      FrontFacts(order, root);
      [root] + Without(order, root.key)
  }

  lemma FrontFacts<K, V>(order: seq<Node<K, V>>, root: Node<K, V>)
    requires root in order && KeysDistinct(order)
    ensures KeysDistinct([root] + Without(order, root.key))
    ensures |Without(order, root.key)| == |order| - 1
    ensures SameNodes([root] + Without(order, root.key), order)
    ensures Without(Without(order, root.key), root.key) == Without(order, root.key)
  {
    var w := Without(order, root.key);
    HasKeyIn(order, root);
    WithoutLength(order, root.key);
    WithoutDistinct(order, root.key);
    DistinctCons(root, w);
    assert forall i :: 0 <= i < |w| ==> w[i] in w;
    WithoutAbsent(w, root.key);
    forall y | y in order ensures y in [root] + w {
      if y.key == root.key {
        SameKeySame(order, y, root);
      }
    }
  }

  /** The descent of putTreeVal and treeify may go left at p exactly when the
      new node may stand before p's node. */
  lemma DescendLeft<K(!new), V>(ops: KeyOps<K>, p: Tree<K, V>, path: seq<Frame<K, V>>, x: Node<K, V>)
    requires ValidOps(ops) && p.TreeNode? && Sorted(ops, Inorder(p))
    requires forall y :: y in After(path) ==> Precedes(ops, x, y)
    requires Precedes(ops, x, p.node)
    ensures forall y :: y in After(path + [LeftOf(p.red, p.node, p.right)]) ==> Precedes(ops, x, y)
    ensures Before(path + [LeftOf(p.red, p.node, p.right)]) == Before(path)
    ensures Plug(p.left, path + [LeftOf(p.red, p.node, p.right)]) == Plug(p, path)
  {
    var f := LeftOf(p.red, p.node, p.right);
    BeforeAfterSnoc(path, f);
    PlugSnoc(p.left, path, f);
    SortedParts(ops, Inorder(p.left), p.node, Inorder(p.right));
    forall y | y in Inorder(p.right) ensures Precedes(ops, x, y) {
      PrecedesTrans(ops, x, p.node, y);
    }
  }

  lemma DescendRight<K(!new), V>(ops: KeyOps<K>, p: Tree<K, V>, path: seq<Frame<K, V>>, x: Node<K, V>)
    requires ValidOps(ops) && p.TreeNode? && Sorted(ops, Inorder(p))
    requires forall y :: y in Before(path) ==> Precedes(ops, y, x)
    requires Precedes(ops, p.node, x)
    ensures forall y :: y in Before(path + [RightOf(p.red, p.left, p.node)]) ==> Precedes(ops, y, x)
    ensures After(path + [RightOf(p.red, p.left, p.node)]) == After(path)
    ensures Plug(p.right, path + [RightOf(p.red, p.left, p.node)]) == Plug(p, path)
  {
    var f := RightOf(p.red, p.left, p.node);
    BeforeAfterSnoc(path, f);
    PlugSnoc(p.right, path, f);
    SortedParts(ops, Inorder(p.left), p.node, Inorder(p.right));
    forall y | y in Inorder(p.left) ensures Precedes(ops, y, x) {
      PrecedesTrans(ops, y, p.node, x);
    }
  }

  /** The direction the descent takes at node p for a new node x: by hash,
      then by comparison, then by tie-break (negative or zero: left). */
  function Direction<K(!new), V>(ops: KeyOps<K>, p: Node<K, V>, x: Node<K, V>): (dir: int)
    ensures dir <= 0 ==> Precedes(ops, x, p)
    ensures ValidOps(ops) && dir > 0 ==> Precedes(ops, p, x)
  {
    if Signed(p.hash) > Signed(x.hash) then -1
    else if Signed(p.hash) < Signed(x.hash) then 1
    else Dir(ops, x.key, p.key)
  }

  /** A new node with a new key and its own hash, put anywhere into a
      sequence without repeated keys, keeps it so. */
  lemma InsertedOk<K, V>(ops: KeyOps<K>, s: seq<Node<K, V>>, pos: nat, x: Node<K, V>)
    requires pos <= |s| && HashesOk(ops, s) && KeysDistinct(s)
    requires x.hash == KeyHash(ops, x.key) && !HasKey(s, x.key)
    ensures HashesOk(ops, s[..pos] + [x] + s[pos..]) && KeysDistinct(s[..pos] + [x] + s[pos..])
    ensures SameNodes(s[..pos] + [x] + s[pos..], s + [x])
  {
    InsertedDistinct(s, pos, x);
  }

  lemma InsertedDistinct<K, V>(s: seq<Node<K, V>>, pos: nat, x: Node<K, V>)
    requires pos <= |s| && KeysDistinct(s) && !HasKey(s, x.key)
    ensures KeysDistinct(s[..pos] + [x] + s[pos..])
    ensures SameNodes(s[..pos] + [x] + s[pos..], s + [x])
  {
    assert s == s[..pos] + s[pos..];
    DistinctInsert(s[..pos], x, s[pos..]);
  }

  lemma AbsentFromList<K, V>(root: Tree<K, V>, order: seq<Node<K, V>>, k: Option<K>)
    requires SameNodes(Inorder(root), order) && !HasKey(Inorder(root), k)
    ensures !HasKey(order, k) && Lookup(order, k) == None
  {
    forall j | 0 <= j < |order| ensures order[j].key != k {
      assert order[j] in Inorder(root);
      HasKeyIn(Inorder(root), order[j]);
    }
  }

  /** `xp.next = x`: the new node follows its tree parent in the bin's list. */
  function LinkAfter<K(==), V>(order: seq<Node<K, V>>, xp: Node<K, V>, x: Node<K, V>): (r: seq<Node<K, V>>)
    requires xp in order && KeysDistinct(order) && !HasKey(order, x.key)
    ensures KeysDistinct(r) && SameNodes(r, order + [x])
    ensures exists i :: 0 <= i < |order| && order[i] == xp && r == order[..i + 1] + [x] + order[i + 1..]
  {
    HasKeyIn(order, xp);
    var i := KeyIndex(order, xp.key);
    SameKeySame(order, order[i], xp);
    InsertedDistinct(order, i + 1, x);
    order[..i + 1] + [x] + order[i + 1..]
  }

  /** The end of putTreeVal's descent: the new node x becomes a leaf under
      the last frame of path (its parent xp), follows xp in the bin's list,
      the tree is rebalanced and the new root moved to the front. */
  method LinkNew<K(==,!new), V>(ops: KeyOps<K>, root: Tree<K, V>, order: seq<Node<K, V>>,
                                path: seq<Frame<K, V>>, xp: Node<K, V>, x: Node<K, V>)
    returns (root': Tree<K, V>, order': seq<Node<K, V>>)
    requires TreeOk(ops, root, order) && Plug(Nil, path) == root && xp in Inorder(root)
    requires x.hash == KeyHash(ops, x.key) && !HasKey(Inorder(root), x.key)
    requires forall y :: y in Before(path) ==> Precedes(ops, y, x)
    requires forall y :: y in After(path) ==> Precedes(ops, x, y)
    ensures TreeOk(ops, root', order') && |order'| > 0 && order'[0] == root'.node
    ensures SameNodes(order', order + [x])
    ensures xp in order && !HasKey(order, x.key) && root'.node in LinkAfter(order, xp, x) &&
            order' == MoveRootToFront(LinkAfter(order, xp, x), root'.node)
  {
    var xt := TreeNode(false, Nil, x, Nil);
    ghost var pos := PlaceLeaf(ops, root, path, x);
    ghost var s := Inorder(root);
    InsertedOk(ops, s, pos, x);
    root' := BalanceInsertion(xt, path);
    InorderParts(root');
    AbsentFromList(root, order, x.key);
    var o := LinkAfter(order, xp, x);
    SameNodesSnoc(s, order, x);
    SameNodesTrans(Inorder(root'), s + [x], order + [x]);
    SameNodesTrans(Inorder(root'), order + [x], o);
    order' := MoveRootToFront(o, root'.node);
    SameNodesTrans(Inorder(root'), o, order');
    SameNodesTrans(order', o, order + [x]);
  }

  /** putTreeVal(map, tab, h, k, v): descends like find, choosing a side by
      hash, comparison and, when those tie, tie-break, after searching both
      subtrees once for k. Returns the node holding k, leaving the bin
      unchanged, or links a new node for (k, v) and returns none. */
  method PutTreeVal<K(==,!new), V>(ops: KeyOps<K>, root: Tree<K, V>, order: seq<Node<K, V>>,
                                   h: u32, k: Option<K>, v: Option<V>)
    returns (existing: Option<Node<K, V>>, root': Tree<K, V>, order': seq<Node<K, V>>)
    requires ValidOps(ops) && TreeOk(ops, root, order) && h == KeyHash(ops, k)
    ensures existing == Lookup(order, k)
    ensures existing.Some? ==> root' == root && order' == order
    ensures existing.None? ==> TreeOk(ops, root', order') && |order'| > 0 && order'[0] == root'.node
    ensures existing.None? ==> SameNodes(order', order + [Node(h, k, v)])
    ensures existing.None? ==>
              !HasKey(order, k) &&
              exists xp :: xp in order && root'.node in LinkAfter(order, xp, Node(h, k, v)) &&
                           order' == MoveRootToFront(LinkAfter(order, xp, Node(h, k, v)), root'.node)
  {
    var x := Node(h, k, v);
    var searched := false;
    var p := root;
    var path: seq<Frame<K, V>> := [];
    while true
      invariant p.TreeNode? && Plug(p, path) == root
      invariant forall y :: y in Before(path) ==> Precedes(ops, y, x)
      invariant forall y :: y in After(path) ==> Precedes(ops, x, y)
      invariant forall y :: y in Inorder(p) ==> y in Inorder(root)
      invariant SearchOk(ops, p, h, k)
      invariant HasKey(Inorder(root), k) ==> !searched && HasKey(Inorder(p), k)
      decreases Size(p)
    {
      InorderParts(p);
      var pk := p.node.key;
      if pk != k {
        SearchDirection(ops, p, h, k);
      }
      var dir: int;
      if Signed(p.node.hash) > Signed(h) {
        dir := -1;
      } else if Signed(p.node.hash) < Signed(h) {
        dir := 1;
      } else if pk == k {
        LookupUnique(order, p.node);
        return Some(p.node), root, order;
      } else if ops.compare(k, pk) == 0 {
        if !searched {
          searched := true;
          var q: Option<Node<K, V>> := None;
          if p.left.TreeNode? {
            q := Find(ops, p.left, h, k);
          }
          if q.None? && p.right.TreeNode? {
            q := Find(ops, p.right, h, k);
          }
          if q.Some? {
            LookupUnique(order, q.value);
            return q, root, order;
          }
        }
        dir := ops.tieBreak(k, pk);
      } else {
        dir := ops.compare(k, pk);
      }
      assert dir == Direction(ops, p.node, x);
      var xp := p;
      if dir <= 0 {
        DescendLeft(ops, p, path, x);
        path, p := path + [LeftOf(p.red, p.node, p.right)], p.left;
      } else {
        DescendRight(ops, p, path, x);
        path, p := path + [RightOf(p.red, p.left, p.node)], p.right;
      }
      if p.Nil? {
        root', order' := LinkNew(ops, root, order, path, xp.node, x);
        AbsentFromList(root, order, k);
        return None, root', order';
      }
    }
  }

  /** One round of treeify's inner loop: x descends from the root by hash,
      comparison and tie-break, is linked in as a leaf and the tree is
      rebalanced. x lands between the nodes that may precede it and those
      it may precede. */
  method InsertLeaf<K(!new), V>(ops: KeyOps<K>, root: Tree<K, V>, x: Node<K, V>)
    returns (root': Tree<K, V>, ghost pos: nat)
    requires ValidOps(ops) && root.TreeNode? && Sorted(ops, Inorder(root))
    ensures root'.TreeNode? && pos <= |Inorder(root)|
    ensures Inorder(root') == Inorder(root)[..pos] + [x] + Inorder(root)[pos..]
    ensures Sorted(ops, Inorder(root'))
  {
    var p := root;
    var path: seq<Frame<K, V>> := [];
    while true
      invariant p.TreeNode? && Plug(p, path) == root && Sorted(ops, Inorder(p))
      invariant forall y :: y in Before(path) ==> Precedes(ops, y, x)
      invariant forall y :: y in After(path) ==> Precedes(ops, x, y)
      decreases Size(p)
    {
      InorderParts(p);
      SortedParts(ops, Inorder(p.left), p.node, Inorder(p.right));
      var dir := Direction(ops, p.node, x);
      if dir <= 0 {
        DescendLeft(ops, p, path, x);
        path, p := path + [LeftOf(p.red, p.node, p.right)], p.left;
      } else {
        DescendRight(ops, p, path, x);
        path, p := path + [RightOf(p.red, p.left, p.node)], p.right;
      }
      if p.Nil? {
        var xt := TreeNode(false, Nil, x, Nil);
        pos := PlaceLeaf(ops, root, path, x);
        root' := BalanceInsertion(xt, path);
        return;
      }
    }
  }

  /** Where the descent ends, a leaf for x fits between the nodes before and
      after the empty spot. */
  lemma PlaceLeaf<K, V>(ops: KeyOps<K>, root: Tree<K, V>, path: seq<Frame<K, V>>, x: Node<K, V>)
    returns (pos: nat)
    requires Plug(Nil, path) == root && Sorted(ops, Inorder(root))
    requires forall y :: y in Before(path) ==> Precedes(ops, y, x)
    requires forall y :: y in After(path) ==> Precedes(ops, x, y)
    ensures pos <= |Inorder(root)|
    ensures Inorder(Plug(TreeNode(false, Nil, x, Nil), path)) == Inorder(root)[..pos] + [x] + Inorder(root)[pos..]
    ensures Sorted(ops, Inorder(root)[..pos] + [x] + Inorder(root)[pos..])
  {
    EmptySpot(path);
    LeafSpot(path, x);
    pos := |Before(path)|;
    InsertAtSeam(ops, Inorder(root), Before(path), After(path), x);
  }

  /** The tree with an empty spot at the end of a path lists the nodes
      before the path, then those after it. */
  lemma EmptySpot<K, V>(path: seq<Frame<K, V>>)
    ensures Inorder(Plug(Nil, path)) == Before(path) + After(path)
  {
    PlugInorder(Nil, path);
    DropEmpty(Before(path), Inorder<K, V>(Nil), After(path));
  }

  lemma DropEmpty<T>(b: seq<T>, e: seq<T>, a: seq<T>)
    requires e == []
    ensures b + e + a == b + a
  {
  }

  /** A leaf for x plugged at the end of a path sits between the nodes
      before the path and those after it. */
  lemma LeafSpot<K, V>(path: seq<Frame<K, V>>, x: Node<K, V>)
    ensures Inorder(Plug(TreeNode(false, Nil, x, Nil), path)) == Before(path) + [x] + After(path)
  {
    PlugInorder(TreeNode(false, Nil, x, Nil), path);
    assert Inorder(TreeNode(false, Nil, x, Nil)) == [x];
  }

  /** Inserting x into the sorted list b + a at the seam, where it fits
      after b and before a, puts it between b and a and keeps the list
      sorted. */
  lemma InsertAtSeam<K, V>(ops: KeyOps<K>, s: seq<Node<K, V>>, b: seq<Node<K, V>>, a: seq<Node<K, V>>, x: Node<K, V>)
    requires s == b + a && Sorted(ops, s)
    requires forall y :: y in b ==> Precedes(ops, y, x)
    requires forall y :: y in a ==> Precedes(ops, x, y)
    ensures |b| <= |s| && s[..|b|] + [x] + s[|b|..] == b + [x] + a
    ensures Sorted(ops, s[..|b|] + [x] + s[|b|..])
  {
    assert s[..|b|] == b && s[|b|..] == a;
    SortedInsert(ops, b, x, a);
  }

  /** treeify: builds a red-black tree from a bin's nodes by inserting them in
      list order, then moves the root to the front of the list. */
  method Treeify<K(==,!new), V>(ops: KeyOps<K>, nodes: seq<Node<K, V>>)
    returns (root: Tree<K, V>, order: seq<Node<K, V>>)
    requires ValidOps(ops) && |nodes| > 0 && KeysDistinct(nodes) && HashesOk(ops, nodes)
    ensures TreeOk(ops, root, order) && SameNodes(order, nodes)
    ensures |order| > 0 && order[0] == root.node
    ensures Without(order, root.node.key) == Without(nodes, root.node.key)
  {
    root := TreeNode(false, Nil, nodes[0], Nil);
    var i := 1;
    while i < |nodes|
      invariant 1 <= i <= |nodes| && root.TreeNode?
      invariant Sorted(ops, Inorder(root)) && KeysDistinct(Inorder(root))
      invariant SameNodes(Inorder(root), nodes[..i])
      decreases |nodes| - i
    {
      ghost var s := Inorder(root);
      ghost var pos;
      root, pos := InsertLeaf(ops, root, nodes[i]);
      TreeifyStep(nodes, i, s, pos, Inorder(root));
      i := i + 1;
    }
    assert nodes[..i] == nodes;
    InorderParts(root);
    order := MoveRootToFront(nodes, root.node);
    SameNodesTrans(Inorder(root), nodes, order);
  }

  /** Inserting the next node of the bin keeps the tree's keys distinct and
      its nodes those of the prefix treeified so far. */
  lemma TreeifyStep<K, V>(nodes: seq<Node<K, V>>, i: int, s: seq<Node<K, V>>, pos: int, s': seq<Node<K, V>>)
    requires KeysDistinct(nodes) && 0 <= i < |nodes| && KeysDistinct(s) && SameNodes(s, nodes[..i])
    requires 0 <= pos <= |s| && s' == s[..pos] + [nodes[i]] + s[pos..]
    ensures KeysDistinct(s') && SameNodes(s', nodes[..i + 1])
  {
    var x := nodes[i];
    forall j | 0 <= j < |s| ensures s[j].key != x.key {
      assert s[j] in nodes[..i];
      var j' :| 0 <= j' < i && nodes[j'] == s[j];
    }
    assert s == s[..pos] + s[pos..];
    DistinctInsert(s[..pos], x, s[pos..]);
    assert nodes[..i + 1] == nodes[..i] + [x];
  }
}
