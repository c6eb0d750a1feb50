/** Removal from a tree bin (HashMap.java lines 2698-2806) and the lookup
    that precedes it (getTreeNode, lines 2565-2567). */
module TreeRemoval {
  import opened Hashing
  import opened Nodes
  import opened RedBlack
  import opened Bins
  import opened TreeBins

  lemma HasKeySplit<K, V>(a: seq<Node<K, V>>, n: Node<K, V>, b: seq<Node<K, V>>, k: Option<K>)
    ensures HasKey(a + [n] + b, k) <==> HasKey(a, k) || n.key == k || HasKey(b, k)
  {
    var s := a + [n] + b;
    if HasKey(s, k) && n.key != k {
      HasKeyParts(a, n, b, k);
    }
    if HasKey(a, k) {
      var i :| 0 <= i < |a| && a[i].key == k;
      assert s[i] == a[i];
    }
    if HasKey(b, k) {
      var i :| 0 <= i < |b| && b[i].key == k;
      assert s[|a| + 1 + i] == b[i];
    }
    assert s[|a|] == n;
  }

  /** Whether some node of t has key k. The tree is searched exhaustively:
      this stands for the node reference that removeTreeNode is called on. */
  function KeyInTree<K(==), V>(t: Tree<K, V>, k: Option<K>): (b: bool)
    ensures b <==> HasKey(Inorder(t), k)
  {
    match t
    case Nil => false
    case TreeNode(_, l, n, r) =>
      HasKeySplit(Inorder(l), n, Inorder(r), k);
      n.key == k || KeyInTree(l, k) || KeyInTree(r, k)
  }

  /** The position of the node with key k: the subtree it roots and the path
      of frames above it. */
  method Locate<K(==), V>(t: Tree<K, V>, k: Option<K>) returns (path: seq<Frame<K, V>>, p: Tree<K, V>)
    requires HasKey(Inorder(t), k)
    ensures p.TreeNode? && p.node.key == k && Plug(p, path) == t
  {
    p, path := t, [];
    while p.node.key != k
      invariant HasKey(Inorder(p), k) && p.TreeNode? && Plug(p, path) == t
      decreases Size(p)
    {
      InorderParts(p);
      if KeyInTree(p.left, k) {
        PlugSnoc(p.left, path, LeftOf(p.red, p.node, p.right));
        path, p := path + [LeftOf(p.red, p.node, p.right)], p.left;
      } else {
        HasKeySplit(Inorder(p.left), p.node, Inorder(p.right), k);
        PlugSnoc(p.right, path, RightOf(p.red, p.left, p.node));
        path, p := path + [RightOf(p.red, p.left, p.node)], p.right;
      }
    }
  }

  /** The successor loop of removeTreeNode: from a non-empty subtree, follow
      left children to its first node s. */
  method Leftmost<K, V>(t: Tree<K, V>) returns (q: seq<Frame<K, V>>, s: Tree<K, V>)
    requires t.TreeNode?
    ensures s.TreeNode? && s.left.Nil? && Plug(s, q) == t && Before(q) == []
    ensures Inorder(t) == [s.node] + Inorder(s.right) + After(q)
  {
    s, q := t, [];
    while s.left.TreeNode?
      invariant s.TreeNode? && Plug(s, q) == t && Before(q) == []
      decreases Size(s)
    {
      var f := LeftOf(s.red, s.node, s.right);
      LeftStep(s, q, f);
      q, s := q + [f], s.left;
    }
    LeftmostInorder(s, q);
  }

  /** Stepping to the left child adds a frame with nothing before it. */
  lemma LeftStep<K, V>(s: Tree<K, V>, q: seq<Frame<K, V>>, f: Frame<K, V>)
    requires s.TreeNode? && f == LeftOf(s.red, s.node, s.right) && Before(q) == []
    ensures Plug(s.left, q + [f]) == Plug(s, q) && Before(q + [f]) == []
  {
    PlugSnoc(s.left, q, f);
    BeforeAfterSnoc(q, f);
  }

  /** A focus without left child and with nothing before it comes first. */
  lemma LeftmostInorder<K, V>(s: Tree<K, V>, q: seq<Frame<K, V>>)
    requires s.TreeNode? && s.left.Nil? && Before(q) == []
    ensures Inorder(Plug(s, q)) == [s.node] + Inorder(s.right) + After(q)
  {
    PlugInorder(s, q);
    EmptyFront(Before(q), Inorder(s.left), [s.node], Inorder(s.right), After(q));
  }

  /** Empty pieces in front drop out: kept apart from the tree facts, where
      the solver proves it at once. */
  lemma EmptyFront<T>(e1: seq<T>, e2: seq<T>, x: seq<T>, r: seq<T>, a: seq<T>)
    requires e1 == [] && e2 == []
    ensures e1 + (e2 + x + r) + a == x + r + a
  {
  }

  /** Unlinking the removed node from its parent when it stayed in the tree
      as its own replacement, a leaf. */
  function DetachLeaf<K(==), V>(t: Tree<K, V>, k: Option<K>): Tree<K, V>
  {
    match t
    case Nil => Nil
    case TreeNode(c, l, n, r) =>
      if l.Nil? && r.Nil? && n.key == k then Nil
      else TreeNode(c, DetachLeaf(l, k), n, DetachLeaf(r, k))
  }

  lemma {:induction false} DetachAbsent<K, V>(t: Tree<K, V>, k: Option<K>)
    requires !HasKey(Inorder(t), k)
    ensures DetachLeaf(t, k) == t
  {
    if t.TreeNode? {
      HasKeySplit(Inorder(t.left), t.node, Inorder(t.right), k);
      DetachAbsent(t.left, k);
      DetachAbsent(t.right, k);
    }
  }

  lemma NoKeyIn<K, V>(s: seq<Node<K, V>>, k: Option<K>)
    requires forall y :: y in s ==> y.key != k
    ensures !HasKey(s, k)
  {
    forall i | 0 <= i < |s| ensures s[i].key != k {
      assert s[i] in s;
    }
  }

  /** Removing a key that the middle node does not carry. */
  lemma {:induction false} WithoutAround<K, V>(a: seq<Node<K, V>>, m: Node<K, V>, b: seq<Node<K, V>>, k: Option<K>)
    requires m.key != k
    ensures Without(a + [m] + b, k) == Without(a, k) + [m] + Without(b, k)
  {
    var mb := [m] + b;
    calc {
      Without(a + [m] + b, k);
      { assert a + [m] + b == a + mb; }
      Without(a + mb, k);
      { WithoutAppend(a, mb, k); }
      Without(a, k) + Without(mb, k);
      { assert mb[0] == m && mb[1..] == b; }
      Without(a, k) + ([m] + Without(b, k));
      Without(a, k) + [m] + Without(b, k);
    }
  }

  /** Detaching a leaf takes exactly its node out of the in-order sequence. */
  lemma {:induction false} DetachLeafInorder<K, V>(t: Tree<K, V>, n: Node<K, V>)
    requires HasLeaf(t, n) && KeysDistinct(Inorder(t))
    ensures Inorder(DetachLeaf(t, n.key)) == Without(Inorder(t), n.key)
  {
    var l, m, r := t.left, t.node, t.right;
    var a, b, k := Inorder(l), Inorder(r), n.key;
    DistinctParts(a, m, b);
    if l.Nil? && r.Nil? && m == n {
      assert Inorder(t) == [n];
      assert [n][1..] == [];
    } else if HasLeaf(l, n) {
      HasLeafIn(l, n);
      assert m.key != k;
      NoKeyIn(b, k);
      DetachLeafInorder(l, n);
      DetachAbsent(r, k);
      WithoutAbsent(b, k);
      WithoutAround(a, m, b, k);
    } else {
      HasLeafIn(r, n);
      assert m.key != k;
      NoKeyIn(a, k);
      DetachLeafInorder(r, n);
      DetachAbsent(l, k);
      WithoutAbsent(a, k);
      WithoutAround(a, m, b, k);
    }
  }

  /** A removed node left in the tree as a leaf is detached, leaving the
      nodes around it in order. */
  lemma {:induction false} LeafRemoval<K, V>(t: Tree<K, V>, p: Node<K, V>, a: seq<Node<K, V>>, b: seq<Node<K, V>>)
    requires HasLeaf(t, p) && Inorder(t) == a + [p] + b && KeysDistinct(a + [p] + b)
    ensures Inorder(DetachLeaf(t, p.key)) == a + b
  {
    DetachLeafInorder(t, p);
    WithoutOne(a, p, b);
  }

  /** After p swaps places with its successor s, the nodes along the new path
      to s's old position. */
  lemma {:induction false} PlugThrough<K, V>(y: Tree<K, V>, path: seq<Frame<K, V>>, f: Frame<K, V>, q: seq<Frame<K, V>>)
    ensures Plug(y, path + [f] + q) == Plug(Fill(f, Plug(y, q)), path)
  {
    assert path + [f] + q == path + ([f] + q);
    PlugAppend(y, path, [f] + q);
    PlugAppend(y, [f], q);
    assert [f][..0] == [];
  }

  lemma {:induction false} SwapInorder<K, V>(path: seq<Frame<K, V>>, pt: Tree<K, V>, q: seq<Frame<K, V>>, s: Tree<K, V>, y: Tree<K, V>)
    requires pt.TreeNode? && s.TreeNode? && Before(q) == []
    ensures Inorder(Plug(y, path + [RightOf(pt.red, pt.left, s.node)] + q)) ==
            Before(path) + Inorder(pt.left) + [s.node] + Inorder(y) + After(q) + After(path)
  {
    var f := RightOf(pt.red, pt.left, s.node);
    var yq := Plug(y, q);
    PlugThrough(y, path, f, q);
    PlugInorder(y, q);
    PlugInorder(Fill(f, yq), path);
    assert Inorder(Fill(f, yq)) == Inorder(pt.left) + [s.node] + Inorder(yq);
    SwapRegroup(Before(path), Inorder(pt.left), [s.node], Before(q), Inorder(y), After(q), After(path));
  }

  /** The regroupings of the in-order pieces around a swap with the
      successor: kept apart from the tree facts, where the solver proves
      them at once. */
  lemma SwapRegroup<T>(bp: seq<T>, l: seq<T>, sn: seq<T>, bq: seq<T>, iy: seq<T>, aq: seq<T>, ap: seq<T>)
    requires bq == []
    ensures bp + (l + sn + (bq + iy + aq)) + ap == bp + l + sn + iy + aq + ap
  {
  }

  lemma Flatten<T>(a: seq<T>, b: seq<T>, c: seq<T>, d: seq<T>, e: seq<T>, f: seq<T>)
    ensures a + b + c + d + e + f == (a + b) + (c + d) + (e + f) == (a + b) + c + d + (e + f)
  {
  }

  lemma Regroup<T>(a: seq<T>, b: seq<T>, c: seq<T>, d: seq<T>, e: seq<T>, f: seq<T>)
    ensures a + (b + c + (d + e)) + f == a + b + c + d + e + f == (a + b) + c + d + (e + f)
  {
  }

  /** For a removed node p with two children: p and its successor s swap
      places and colours, p keeping no left child and taking s's old right
      child sr; p's replacement is sr, or p itself (a leaf) when sr is null.
      red is p's colour after the swap. In-order, p stood before m, the
      successor and its right subtree, which now take its place. */
  method SwapWithSuccessor<K, V>(root: Tree<K, V>, path: seq<Frame<K, V>>, pt: Tree<K, V>)
    returns (x: Tree<K, V>, xpath: seq<Frame<K, V>>, red: bool, leaf: bool,
             ghost a: seq<Node<K, V>>, ghost m: seq<Node<K, V>>, ghost b: seq<Node<K, V>>)
    requires pt.TreeNode? && pt.left.TreeNode? && pt.right.TreeNode? && Plug(pt, path) == root
    ensures x.TreeNode? && Inorder(root) == a + [pt.node] + m + b && |m| > 0
    ensures leaf ==> HasLeaf(x, pt.node) && Inorder(Plug(x, xpath)) == a + m + [pt.node] + b && |m| == 1
    ensures !leaf ==> Inorder(Plug(x, xpath)) == a + m + b
  {
    var p := pt.node;
    var q, s := Leftmost(pt.right);
    xpath := path + [RightOf(pt.red, pt.left, s.node)] + q;
    red := s.red;
    ghost var bp, l, sn, sr, aq, ap := Before(path), Inorder(pt.left), [s.node], Inorder(s.right), After(q), After(path);
    a, m, b := bp + l, sn + sr, aq + ap;
    assert Inorder(root) == bp + (l + [p] + (sn + sr + aq)) + ap by {
      PlugInorder(pt, path);
    }
    Regroup(bp, l, [p], sn + sr, aq, ap);
    if s.right.TreeNode? {
      x, leaf := s.right, false;
      assert Inorder(Plug(x, xpath)) == a + m + b by {
        SwapInorder(path, pt, q, s, x);
        Flatten(bp, l, sn, sr, aq, ap);
      }
    } else {
      x, leaf := TreeNode(s.red, Nil, p, Nil), true;
      assert Inorder(Plug(x, xpath)) == a + m + [p] + b by {
        SwapInorder(path, pt, q, s, x);
        assert Inorder(x) == [p] && m == sn;
        Flatten(bp, l, sn, [p], aq, ap);
      }
    }
  }

  /** For a removed node p with at most one child: the child replaces p, or
      p itself (a leaf) when it has none. */
  method ReplaceByChild<K, V>(root: Tree<K, V>, path: seq<Frame<K, V>>, pt: Tree<K, V>)
    returns (x: Tree<K, V>, leaf: bool, ghost a: seq<Node<K, V>>, ghost b: seq<Node<K, V>>)
    requires pt.TreeNode? && (pt.left.Nil? || pt.right.Nil?) && Plug(pt, path) == root
    ensures x.TreeNode? && Inorder(root) == a + [pt.node] + b
    ensures leaf ==> HasLeaf(x, pt.node) && Inorder(Plug(x, path)) == a + [pt.node] + b
    ensures !leaf ==> Inorder(Plug(x, path)) == a + b
  {
    a, b := Before(path) + Inorder(pt.left), Inorder(pt.right) + After(path);
    FocusInorder(pt, path);
    if pt.left.TreeNode? {
      x, leaf := pt.left, false;
      ChildInorder(pt, path, x);
    } else if pt.right.TreeNode? {
      x, leaf := pt.right, false;
      ChildInorder(pt, path, x);
    } else {
      x, leaf := pt, true;
    }
  }

  /** The nodes before and after the focus pt of a zipper, in order. */
  lemma FocusInorder<K, V>(pt: Tree<K, V>, path: seq<Frame<K, V>>)
    requires pt.TreeNode?
    ensures Inorder(Plug(pt, path)) ==
            (Before(path) + Inorder(pt.left)) + [pt.node] + (Inorder(pt.right) + After(path))
  {
    PlugInorder(pt, path);
  }

  /** Plugging the only child x of pt in pt's place drops pt from the
      order. */
  lemma ChildInorder<K, V>(pt: Tree<K, V>, path: seq<Frame<K, V>>, x: Tree<K, V>)
    requires pt.TreeNode? && ((x == pt.left && pt.right.Nil?) || (x == pt.right && pt.left.Nil?))
    ensures Inorder(Plug(x, path)) == (Before(path) + Inorder(pt.left)) + (Inorder(pt.right) + After(path))
  {
    PlugInorder(x, path);
  }

  /** p, followed in-order by m, leaves: the others keep their order, and
      when at most one node passes p, moving p after it keeps keys
      distinct. */
  lemma {:induction false} RemovalOrder<K, V>(s: seq<Node<K, V>>, a: seq<Node<K, V>>, p: Node<K, V>, m: seq<Node<K, V>>, b: seq<Node<K, V>>)
    requires KeysDistinct(s) && s == a + [p] + m + b
    ensures Without(s, p.key) == a + m + b && |a + m + b| == |s| - 1
    ensures |m| <= 1 ==> KeysDistinct(a + m + [p] + b)
  {
    SplitAround(s, a, p, m, b);
    WithoutOne(a, p, m + b);
    if |m| == 1 {
      DistinctSwap(a, p, m[0], b);
    }
  }

  /** The regroupings of a sequence around one element p followed by a
      short run m: kept apart from the key facts, where the solver proves
      them at once. */
  lemma SplitAround<T>(s: seq<T>, a: seq<T>, p: T, m: seq<T>, b: seq<T>)
    requires s == a + [p] + m + b
    ensures s == a + [p] + (m + b) && a + (m + b) == a + m + b && |a + m + b| == |s| - 1
    ensures |m| == 0 ==> a + m + [p] + b == s
    ensures |m| == 1 ==> s == a + [p] + [m[0]] + b && a + m + [p] + b == a + [m[0]] + [p] + b
  {
  }

  /** The tree part of removeTreeNode: the node p with key k leaves the tree.
      Its replacement takes its place (see SwapWithSuccessor and
      ReplaceByChild); the tree is rebalanced unless p's colour, after any
      swap, is red; and p is detached when it was its own replacement. The
      other nodes keep their order. */
  method TreeRemove<K(==), V>(root: Tree<K, V>, k: Option<K>) returns (r: Tree<K, V>)
    requires KeysDistinct(Inorder(root)) && HasKey(Inorder(root), k) && |Inorder(root)| > 1
    ensures r.TreeNode? && Inorder(r) == Without(Inorder(root), k)
  {
    var path, pt := Locate(root, k);
    var p := pt.node;
    var x: Tree<K, V>;
    var xpath: seq<Frame<K, V>>;
    var red, leaf: bool;
    ghost var a, m, b: seq<Node<K, V>>;
    if pt.left.TreeNode? && pt.right.TreeNode? {
      x, xpath, red, leaf, a, m, b := SwapWithSuccessor(root, path, pt);
    } else {
      x, leaf, a, b := ReplaceByChild(root, path, pt);
      xpath, red, m := path, pt.red, [];
      assert a + [p] + m + b == a + [p] + b && a + m + [p] + b == a + [p] + b && a + m + b == a + b;
    }
    RemovalOrder(Inorder(root), a, p, m, b);
    var t: Tree<K, V>;
    if red {
      t := Plug(x, xpath);
      PlugNonEmpty(x, xpath);
      if leaf {
        HasLeafPlug(x, xpath, p);
      }
    } else {
      t := BalanceDeletion(x, xpath, p);
    }
    if leaf {
      LeafRemoval(t, p, a + m, b);
      r := DetachLeaf(t, k);
    } else {
      r := t;
    }
  }

  /** getTreeNode(h, k): a search from the root of the bin. On a
      well-formed tree bin it finds the bin's node with key k, if any. */
  method GetTreeNode<K(==,!new), V>(ops: KeyOps<K>, root: Tree<K, V>, order: seq<Node<K, V>>, h: u32, k: Option<K>)
    returns (r: Option<Node<K, V>>)
    requires ValidOps(ops) && TreeOk(ops, root, order) && h == KeyHash(ops, k)
    ensures r == Lookup(order, k)
  {
    r := Find(ops, root, h, k);
    if r.Some? {
      LookupUnique(order, r.value);
    } else {
      AbsentFromList(root, order, k);
    }
  }

  /** untreeify: the bin's nodes become a plain chain in list order. */
  function Untreeify<K, V>(b: Bucket<K, V>): (c: Bucket<K, V>)
    requires b.TreeBin?
    ensures c.Chain? && BinNodes(c) == BinNodes(b)
  {
    Chain(b.order)
  }

  /** The size test of removeTreeNode, made on the root before the removal:
      no right child, no left child, or a left child without a left child. */
  predicate TooSmall<K, V>(root: Tree<K, V>)
    requires root.TreeNode?
  {
    root.right.Nil? || root.left.Nil? || root.left.left.Nil?
  }

  /** Removing a key from two sequences with the same nodes. */
  lemma WithoutSameNodes<K, V>(a: seq<Node<K, V>>, b: seq<Node<K, V>>, k: Option<K>)
    requires SameNodes(a, b)
    ensures SameNodes(Without(a, k), Without(b, k))
  {
  }

  lemma HasKeySameNodes<K, V>(a: seq<Node<K, V>>, b: seq<Node<K, V>>, k: Option<K>)
    requires SameNodes(a, b) && HasKey(a, k)
    ensures HasKey(b, k)
  {
    var i :| 0 <= i < |a| && a[i].key == k;
    assert a[i] in b;
    HasKeyIn(b, a[i]);
  }

  /** The tree of a bin after a removal, with its list: a well-formed bin
      again. */
  lemma {:induction false} RemovedTreeOk<K, V>(ops: KeyOps<K>, root: Tree<K, V>, order: seq<Node<K, V>>, k: Option<K>, r: Tree<K, V>)
    requires TreeOk(ops, root, order) && r.TreeNode? && Inorder(r) == Without(Inorder(root), k)
    ensures TreeOk(ops, r, Without(order, k))
  {
    WithoutSorted(ops, Inorder(root), k);
    WithoutDistinct(Inorder(root), k);
    WithoutDistinct(order, k);
    WithoutSameNodes(Inorder(root), order, k);
  }

  /** removeTreeNode(map, tab, movable) on the bin holding the node with key
      k. The node leaves the bin's list first; an emptied list empties the
      slot. Otherwise, when movable and the tree looked too small before the
      removal, the remaining list becomes a plain chain (untreeify). Otherwise
      the node leaves the tree as well, and when movable the new root is
      moved to the front of the list. */
  method RemoveTreeNode<K(==,!new), V>(ops: KeyOps<K>, root: Tree<K, V>, order: seq<Node<K, V>>,
                                       k: Option<K>, movable: bool)
    returns (b: Bucket<K, V>)
    requires TreeOk(ops, root, order) && HasKey(order, k)
    ensures |BinNodes(b)| == |order| - 1
    ensures SameNodes(BinNodes(b), Without(order, k))
    ensures b.Empty? <==> |order| == 1
    ensures b.Chain? <==> |order| > 1 && movable && TooSmall(root)
    ensures b.Chain? ==> b.nodes == Without(order, k)
    ensures b.TreeBin? ==> TreeOk(ops, b.root, b.order) && Inorder(b.root) == Without(Inorder(root), k)
    ensures b.TreeBin? && !movable ==> b.order == Without(order, k)
    ensures b.TreeBin? && movable ==> b.order[0] == b.root.node
    ensures b.TreeBin? && movable ==> Without(b.order, b.root.node.key) == Without(Without(order, k), b.root.node.key)
  {
    var rest := Without(order, k);
    WithoutLength(order, k);
    WithoutDistinct(order, k);
    if |rest| == 0 {
      return Empty;
    }
    if movable && TooSmall(root) {
      return Untreeify(TreeBin(root, rest));
    }
    HasKeySameNodes(order, Inorder(root), k);
    var y := Lookup(Inorder(root), k).value;
    assert rest[0] in rest && rest[0].key != k;
    assert |Inorder(root)| > 1;
    var r := TreeRemove(root, k);
    RemovedTreeOk(ops, root, order, k, r);
    InorderParts(r);
    if movable {
      var o := MoveRootToFront(rest, r.node);
      SameNodesTrans(Inorder(r), rest, o);
      b := TreeBin(r, o);
    } else {
      b := TreeBin(r, rest);
    }
  }
}
