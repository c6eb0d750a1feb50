/** The red-black trees of tree bins: rotations and the CLR fix-up loops after
    insertion and deletion (HashMap.java lines 2866-3040).

    A tree is a value; a node's parent link is represented by a path of frames
    from the root down to the subtree in focus (a zipper), so "x = xp" in the
    source is a step up the path and `root` is the tree the path plugs into. */
module RedBlack {
  import opened Hashing
  import opened Nodes

  datatype Tree<K, V> =
    | Nil
    | TreeNode(red: bool, left: Tree<K, V>, node: Node<K, V>, right: Tree<K, V>)

  /** The nodes of a tree from left to right. */
  function Inorder<K, V>(t: Tree<K, V>): seq<Node<K, V>>
  {
    match t
    case Nil => []
    case TreeNode(_, l, n, r) => Inorder(l) + [n] + Inorder(r)
  }

  predicate IsRed<K, V>(t: Tree<K, V>)
  {
    t.TreeNode? && t.red
  }

  function Blacken<K, V>(t: Tree<K, V>): Tree<K, V>
  {
    if t.TreeNode? then t.(red := false) else t
  }

  /** A parent seen from one of its children: its colour, its node and its other
      child. LeftOf means the focus is the parent's left child. */
  datatype Frame<K, V> =
    | LeftOf(red: bool, node: Node<K, V>, right: Tree<K, V>)
    | RightOf(red: bool, left: Tree<K, V>, node: Node<K, V>)

  function Paint<K, V>(f: Frame<K, V>, red: bool): Frame<K, V>
  {
    match f
    case LeftOf(_, n, r) => LeftOf(red, n, r)
    case RightOf(_, l, n) => RightOf(red, l, n)
  }

  function Fill<K, V>(f: Frame<K, V>, t: Tree<K, V>): Tree<K, V>
  {
    match f
    case LeftOf(c, n, r) => TreeNode(c, t, n, r)
    case RightOf(c, l, n) => TreeNode(c, l, n, t)
  }

  /** The whole tree, given the subtree in focus and the path of frames from
      the root (first) down to the focus's parent (last). */
  function Plug<K, V>(t: Tree<K, V>, path: seq<Frame<K, V>>): Tree<K, V>
    decreases |path|
  {
    if |path| == 0 then t else Plug(Fill(path[|path| - 1], t), path[..|path| - 1])
  }

  function FrameBefore<K, V>(f: Frame<K, V>): seq<Node<K, V>>
  {
    match f
    case LeftOf(_, _, _) => []
    case RightOf(_, l, n) => Inorder(l) + [n]
  }

  function FrameAfter<K, V>(f: Frame<K, V>): seq<Node<K, V>>
  {
    match f
    case LeftOf(_, n, r) => [n] + Inorder(r)
    case RightOf(_, _, _) => []
  }

  /** The nodes left of the focus. */
  function Before<K, V>(path: seq<Frame<K, V>>): seq<Node<K, V>>
    decreases |path|
  {
    if |path| == 0 then [] else Before(path[..|path| - 1]) + FrameBefore(path[|path| - 1])
  }

  /** The nodes right of the focus. */
  function After<K, V>(path: seq<Frame<K, V>>): seq<Node<K, V>>
    decreases |path|
  {
    if |path| == 0 then [] else FrameAfter(path[|path| - 1]) + After(path[..|path| - 1])
  }

  lemma FillInorder<K, V>(f: Frame<K, V>, t: Tree<K, V>)
    ensures Inorder(Fill(f, t)) == FrameBefore(f) + Inorder(t) + FrameAfter(f)
  {
  }

  /** The in-order sequence of a plugged tree is the focus's, framed by the
      nodes before and after it. */
  lemma {:induction false} PlugInorder<K, V>(t: Tree<K, V>, path: seq<Frame<K, V>>)
    ensures Inorder(Plug(t, path)) == Before(path) + Inorder(t) + After(path)
    decreases |path|
  {
    if |path| > 0 {
      var f, rest := path[|path| - 1], path[..|path| - 1];
      PlugInorder(Fill(f, t), rest);
      FillInorder(f, t);
      Reassociate(Before(rest), FrameBefore(f), Inorder(t), FrameAfter(f), After(rest));
    }
  }

  lemma Reassociate<T>(a: seq<T>, b: seq<T>, c: seq<T>, d: seq<T>, e: seq<T>)
    ensures a + (b + c + d) + e == (a + b) + c + (d + e)
  {
  }

  /** Replacing the focus by a subtree with the same nodes in the same order
      keeps the whole tree's order. */
  lemma PlugSame<K, V>(t1: Tree<K, V>, t2: Tree<K, V>, path: seq<Frame<K, V>>)
    requires Inorder(t1) == Inorder(t2)
    ensures Inorder(Plug(t1, path)) == Inorder(Plug(t2, path))
  {
    PlugInorder(t1, path);
    PlugInorder(t2, path);
  }

  lemma PlugSnoc<K, V>(t: Tree<K, V>, path: seq<Frame<K, V>>, f: Frame<K, V>)
    ensures Plug(t, path + [f]) == Plug(Fill(f, t), path)
  {
    assert (path + [f])[..|path|] == path;
  }

  lemma BeforeAfterSnoc<K, V>(path: seq<Frame<K, V>>, f: Frame<K, V>)
    ensures Before(path + [f]) == Before(path) + FrameBefore(f)
    ensures After(path + [f]) == FrameAfter(f) + After(path)
  {
    assert (path + [f])[..|path|] == path;
  }

  lemma {:induction false} PlugAppend<K, V>(t: Tree<K, V>, p1: seq<Frame<K, V>>, p2: seq<Frame<K, V>>)
    ensures Plug(t, p1 + p2) == Plug(Plug(t, p2), p1)
    decreases |p2|
  {
    if |p2| == 0 {
      assert p1 + p2 == p1;
    } else {
      var f, init := p2[|p2| - 1], p2[..|p2| - 1];
      assert Plug(t, p1 + p2) == Plug(Fill(f, t), p1 + init) by {
        assert p1 + p2 == (p1 + init) + [f];
        PlugSnoc(t, p1 + init, f);
      }
      assert Plug(t, p2) == Plug(Fill(f, t), init) by {
        assert p2 == init + [f];
        PlugSnoc(t, init, f);
      }
      PlugAppend(Fill(f, t), p1, init);
    }
  }

  /** The root of a plugged tree is the first frame's node. */
  lemma {:induction false} PlugRoot<K, V>(t: Tree<K, V>, path: seq<Frame<K, V>>)
    requires |path| > 0
    ensures Plug(t, path).TreeNode?
    ensures Plug(t, path).red == path[0].red && Plug(t, path).node == path[0].node
    decreases |path|
  {
    if |path| > 1 {
      PlugRoot(Fill(path[|path| - 1], t), path[..|path| - 1]);
    }
  }

  // ---------------------------------------------------------------------
  // Rotations

  /** rotateLeft(root, p): p's right child r takes p's place, p becomes r's
      left child and r's old left child becomes p's right child; r is
      blackened when it becomes the root. */
  function RotateLeft<K, V>(p: Tree<K, V>, atRoot: bool): (t: Tree<K, V>)
    requires p.TreeNode? && p.right.TreeNode?
    ensures Inorder(t) == Inorder(p)
    ensures t.TreeNode? && t.node == p.right.node && t.left.TreeNode? && t.left.node == p.node
    ensures atRoot ==> !t.red
  {
    var r := p.right;
    TreeNode(if atRoot then false else r.red, TreeNode(p.red, p.left, p.node, r.left), r.node, r.right)
  }

  /** rotateRight(root, p): the mirror image of rotateLeft. */
  function RotateRight<K, V>(p: Tree<K, V>, atRoot: bool): (t: Tree<K, V>)
    requires p.TreeNode? && p.left.TreeNode?
    ensures Inorder(t) == Inorder(p)
    ensures t.TreeNode? && t.node == p.left.node && t.right.TreeNode? && t.right.node == p.node
    ensures atRoot ==> !t.red
  {
    var l := p.left;
    TreeNode(if atRoot then false else l.red, l.left, l.node, TreeNode(p.red, l.right, p.node, p.right))
  }

  // ---------------------------------------------------------------------
  // Fix-up after insertion

  /** One level of balanceInsertion: x is red under a red parent xp whose
      parent is xpp. If the uncle is red, colours are pushed up and the
      returned subtree replaces xpp's (up is true, the loop continues from
      it); otherwise one or two rotations make the returned subtree's root
      black, with x's former grandparent subtree now under it. */
  method FixRedRed<K, V>(xpp: Frame<K, V>, xp: Frame<K, V>, x: Tree<K, V>, atRoot: bool)
    returns (y: Tree<K, V>, up: bool)
    requires x.TreeNode?
    ensures y.TreeNode? && Inorder(y) == Inorder(Fill(xpp, Fill(xp, x)))
    ensures up ==> y.red && y.node == xpp.node
    ensures !up ==> (if xpp.LeftOf? then y.left.TreeNode? else y.right.TreeNode?)
    ensures !up && atRoot ==> !y.red
  {
    var x, xp := x, xp;
    if xpp.LeftOf? {
      var uncle := xpp.right;
      if IsRed(uncle) {
        y := TreeNode(true, Fill(Paint(xp, false), x), xpp.node, uncle.(red := false));
        return y, true;
      }
      if xp.RightOf? {
        var sub := RotateLeft(Fill(xp, x), false);
        x, xp := sub.left, LeftOf(sub.red, sub.node, sub.right);
        assert Fill(xp, x) == sub;
      }
      y := RotateRight(Fill(Paint(xpp, true), Fill(Paint(xp, false), x)), atRoot);
    } else {
      var uncle := xpp.left;
      if IsRed(uncle) {
        y := TreeNode(true, uncle.(red := false), xpp.node, Fill(Paint(xp, false), x));
        return y, true;
      }
      if xp.LeftOf? {
        var sub := RotateRight(Fill(xp, x), false);
        x, xp := sub.right, RightOf(sub.red, sub.left, sub.node);
        assert Fill(xp, x) == sub;
      }
      y := RotateLeft(Fill(Paint(xpp, true), Fill(Paint(xp, false), x)), atRoot);
    }
    up := false;
  }

  /** balanceInsertion(root, x): x, just linked in as a leaf, is coloured red
      and red-red violations are repaired upwards by recolouring and
      rotations. The result is the new root; the tree keeps its nodes in
      order, and a black root stays black (a red root, which a removal can
      leave behind, is tolerated). */
  method BalanceInsertion<K, V>(x0: Tree<K, V>, path0: seq<Frame<K, V>>) returns (root: Tree<K, V>)
    requires x0.TreeNode?
    ensures root.TreeNode? && Inorder(root) == Inorder(Plug(x0, path0))
    ensures (|path0| == 0 || !path0[0].red) ==> !root.red
  {
    var x := x0.(red := true);
    var path := path0;
    PlugSame(x, x0, path);
    while true
      invariant x.TreeNode?
      invariant Inorder(Plug(x, path)) == Inorder(Plug(x0, path0))
      invariant (|path0| == 0 || !path0[0].red) ==> (|path| == 0 || !path[0].red)
      decreases |path|
    {
      if |path| == 0 {
        root := x.(red := false);
        return;
      }
      var xp := path[|path| - 1];
      if !xp.red || |path| == 1 {
        root := Plug(x, path);
        PlugRoot(x, path);
        return;
      }
      var xpp := path[|path| - 2];
      var rest := path[..|path| - 2];
      assert path == rest + [xpp] + [xp];
      PlugSnoc(x, rest + [xpp], xp);
      PlugSnoc(Fill(xp, x), rest, xpp);
      var y, up := FixRedRed(xpp, xp, x, |rest| == 0);
      PlugSame(y, Fill(xpp, Fill(xp, x)), rest);
      if up {
        x, path := y, rest;
      } else if xpp.LeftOf? {
        x, path := y.left, rest + [LeftOf(y.red, y.node, y.right)];
        PlugSnoc(x, rest, LeftOf(y.red, y.node, y.right));
      } else {
        x, path := y.right, rest + [RightOf(y.red, y.left, y.node)];
        PlugSnoc(x, rest, RightOf(y.red, y.left, y.node));
      }
    }
  }

  // ---------------------------------------------------------------------
  // Fix-up after deletion

  /** n sits in t as a node without children. */
  ghost predicate HasLeaf<K, V>(t: Tree<K, V>, n: Node<K, V>)
  {
    match t
    case Nil => false
    case TreeNode(_, l, m, r) => (l.Nil? && r.Nil? && m == n) || HasLeaf(l, n) || HasLeaf(r, n)
  }

  lemma {:induction false} HasLeafIn<K, V>(t: Tree<K, V>, n: Node<K, V>)
    requires HasLeaf(t, n)
    ensures n in Inorder(t)
  {
    if !(t.left.Nil? && t.right.Nil? && t.node == n) {
      if HasLeaf(t.left, n) {
        HasLeafIn(t.left, n);
      } else {
        HasLeafIn(t.right, n);
      }
    }
  }

  lemma {:induction false} HasLeafPlug<K, V>(t: Tree<K, V>, path: seq<Frame<K, V>>, n: Node<K, V>)
    requires HasLeaf(t, n)
    ensures HasLeaf(Plug(t, path), n)
    decreases |path|
  {
    if |path| > 0 {
      HasLeafPlug(Fill(path[|path| - 1], t), path[..|path| - 1], n);
    }
  }

  lemma PlugNonEmpty<K, V>(t: Tree<K, V>, path: seq<Frame<K, V>>)
    requires t.TreeNode?
    ensures Plug(t, path).TreeNode?
  {
    if |path| > 0 {
      PlugRoot(t, path);
    }
  }

  /** The part of a balanceDeletion level after any red sibling has been
      rotated away, for x a left child under p: with no sibling, or a sibling
      whose children are both black, the subtree is only recoloured and the
      repair moves up (done is false); otherwise one or two rotations finish
      it. */
  method LeftSiblingCase<K, V>(p: Frame<K, V>, x: Tree<K, V>, atRoot: bool, ghost n: Node<K, V>)
    returns (z: Tree<K, V>, done: bool)
    requires p.LeftOf? && x.TreeNode?
    ensures z.TreeNode? && Inorder(z) == Inorder(Fill(p, x))
    ensures !done ==> z.red == p.red
    ensures HasLeaf(x, n) ==> HasLeaf(z, n)
  {
    var s := p.right;
    if s.Nil? {
      return Fill(p, x), false;
    } else if !IsRed(s.left) && !IsRed(s.right) {
      return TreeNode(p.red, x, p.node, s.(red := true)), false;
    }
    if !IsRed(s.right) {
      s := RotateRight(TreeNode(true, Blacken(s.left), s.node, s.right), false);
    }
    assert Inorder(s) == Inorder(p.right);
    s := TreeNode(p.red, s.left, s.node, Blacken(s.right));
    assert Inorder(s) == Inorder(p.right);
    z := RotateLeft(TreeNode(false, x, p.node, s), atRoot);
    assert z.left == TreeNode(false, x, p.node, s.left);
    done := true;
  }

  /** The mirror image of LeftSiblingCase, for x a right child. */
  method RightSiblingCase<K, V>(p: Frame<K, V>, x: Tree<K, V>, atRoot: bool, ghost n: Node<K, V>)
    returns (z: Tree<K, V>, done: bool)
    requires p.RightOf? && x.TreeNode?
    ensures z.TreeNode? && Inorder(z) == Inorder(Fill(p, x))
    ensures !done ==> z.red == p.red
    ensures HasLeaf(x, n) ==> HasLeaf(z, n)
  {
    var s := p.left;
    if s.Nil? {
      return Fill(p, x), false;
    } else if !IsRed(s.right) && !IsRed(s.left) {
      return TreeNode(p.red, s.(red := true), p.node, x), false;
    }
    if !IsRed(s.left) {
      s := RotateLeft(TreeNode(true, s.left, s.node, Blacken(s.right)), false);
    }
    assert Inorder(s) == Inorder(p.left);
    s := TreeNode(p.red, Blacken(s.left), s.node, s.right);
    assert Inorder(s) == Inorder(p.left);
    z := RotateRight(TreeNode(false, s, p.node, x), atRoot);
    assert z.right == TreeNode(false, s.right, p.node, x);
    done := true;
  }

  /** One level of balanceDeletion, for a black x (the removed position)
      under the parent frame xp. The returned subtree replaces Fill(xp, x).
      kind 0: the parent's subtree is the new focus (the loop moves up);
      kind 1: a red sibling was rotated above the parent, which is now red
      and the new focus, one level below the returned subtree's root;
      kind 2: rotations ended the repair. */
  method DeletionLevel<K, V>(xp: Frame<K, V>, x: Tree<K, V>, atRoot: bool, ghost n: Node<K, V>)
    returns (y: Tree<K, V>, kind: nat)
    requires x.TreeNode?
    ensures y.TreeNode? && Inorder(y) == Inorder(Fill(xp, x))
    ensures kind <= 2
    ensures kind == 1 ==> IsRed(if xp.LeftOf? then y.left else y.right)
    ensures HasLeaf(x, n) ==> HasLeaf(if kind == 1 then (if xp.LeftOf? then y.left else y.right) else y, n)
  {
    if !(xp.LeftOf? && IsRed(xp.right)) && !(xp.RightOf? && IsRed(xp.left)) {
      var z, done;
      if xp.LeftOf? {
        z, done := LeftSiblingCase(xp, x, atRoot, n);
      } else {
        z, done := RightSiblingCase(xp, x, atRoot, n);
      }
      return z, if done then 2 else 0;
    }
    var upper, p := RotateRedSibling(xp, x, atRoot);
    var z, done;
    if xp.LeftOf? {
      z, done := LeftSiblingCase(p, x, false, n);
    } else {
      z, done := RightSiblingCase(p, x, false, n);
    }
    FillInorder(upper, z);
    FillInorder(upper, Fill(p, x));
    y := Fill(upper, z);
    kind := if done then 2 else 1;
  }

  /** The red-sibling step of balanceDeletion: the sibling is blackened and
      rotated above the parent, which turns red and stays x's parent, one
      level further down on the same side. */
  method RotateRedSibling<K, V>(xp: Frame<K, V>, x: Tree<K, V>, atRoot: bool)
    returns (upper: Frame<K, V>, p: Frame<K, V>)
    requires (xp.LeftOf? && IsRed(xp.right)) || (xp.RightOf? && IsRed(xp.left))
    ensures upper.LeftOf? == xp.LeftOf? && p.LeftOf? == xp.LeftOf? && p.red
    ensures Inorder(Fill(upper, Fill(p, x))) == Inorder(Fill(xp, x))
  {
    var g: Tree<K, V>;
    if xp.LeftOf? {
      g := RotateLeft(TreeNode(true, x, xp.node, Blacken(xp.right)), atRoot);
      upper, p := LeftOf(g.red, g.node, g.right), LeftOf(g.left.red, g.left.node, g.left.right);
    } else {
      g := RotateRight(TreeNode(true, Blacken(xp.left), xp.node, x), atRoot);
      upper, p := RightOf(g.red, g.left, g.node), RightOf(g.right.red, g.right.left, g.right.node);
    }
    assert Fill(upper, Fill(p, x)) == g;
  }

  /** balanceDeletion(root, x): repairs the black height after the node at
      x's position lost its place; x is either the node that replaces the
      removed one or the removed leaf itself, still linked. The tree keeps its
      nodes in order, and a leaf stays a leaf, so the removed leaf can be
      detached afterwards. */
  method BalanceDeletion<K, V>(x0: Tree<K, V>, path0: seq<Frame<K, V>>, ghost n: Node<K, V>)
    returns (root: Tree<K, V>)
    requires x0.TreeNode?
    ensures root.TreeNode?
    ensures Inorder(root) == Inorder(Plug(x0, path0))
    ensures HasLeaf(x0, n) ==> HasLeaf(root, n)
  {
    var x, path := x0, path0;
    while true
      invariant x.TreeNode?
      invariant Inorder(Plug(x, path)) == Inorder(Plug(x0, path0))
      invariant HasLeaf(x0, n) ==> HasLeaf(x, n)
      decreases |path| + (if x.red then 0 else 1)
    {
      if |path| == 0 {
        return x;
      }
      if x.red {
        var b := x.(red := false);
        PlugSame(b, x, path);
        PlugNonEmpty(b, path);
        if HasLeaf(x0, n) {
          HasLeafPlug(b, path, n);
        }
        return Plug(b, path);
      }
      var xp := path[|path| - 1];
      var rest := path[..|path| - 1];
      PlugSnoc(x, rest, xp);
      assert path == rest + [xp];
      var y, kind := DeletionLevel(xp, x, |rest| == 0, n);
      PlugSame(y, Fill(xp, x), rest);
      if kind == 0 {
        x, path := y, rest;
      } else if kind == 1 {
        if xp.LeftOf? {
          x, path := y.left, rest + [LeftOf(y.red, y.node, y.right)];
          PlugSnoc(x, rest, LeftOf(y.red, y.node, y.right));
        } else {
          x, path := y.right, rest + [RightOf(y.red, y.left, y.node)];
          PlugSnoc(x, rest, RightOf(y.red, y.left, y.node));
        }
      } else {
        PlugNonEmpty(y, rest);
        if HasLeaf(x0, n) {
          HasLeafPlug(y, rest, n);
        }
        x, path := Plug(y, rest), [];
      }
    }
  }

  // ---------------------------------------------------------------------
  // Value updates

  /** The tree with every node's value replaced by f(key, value); the shape
      and colours stay. */
  function RevalueTree<K, V>(t: Tree<K, V>, f: (Option<K>, Option<V>) -> Option<V>): Tree<K, V>
  {
    match t
    case Nil => Nil
    case TreeNode(c, l, n, r) => TreeNode(c, RevalueTree(l, f), WithValue(n, f), RevalueTree(r, f))
  }

  lemma {:induction false} RevalueInorder<K, V>(t: Tree<K, V>, f: (Option<K>, Option<V>) -> Option<V>)
    ensures Inorder(RevalueTree(t, f)) == Revalue(Inorder(t), f)
    ensures t.TreeNode? ==> RevalueTree(t, f).TreeNode? && RevalueTree(t, f).node == WithValue(t.node, f)
  {
    if t.TreeNode? {
      RevalueInorder(t.left, f);
      RevalueInorder(t.right, f);
      RevalueAround(Inorder(t.left), t.node, Inorder(t.right), f);
    }
  }

  lemma RevalueAround<K, V>(a: seq<Node<K, V>>, n: Node<K, V>, b: seq<Node<K, V>>, f: (Option<K>, Option<V>) -> Option<V>)
    ensures Revalue(a + [n] + b, f) == Revalue(a, f) + [WithValue(n, f)] + Revalue(b, f)
  {
    RevalueAppend(a + [n], b, f);
    RevalueAppend(a, [n], f);
    assert Revalue([n], f) == [WithValue(n, f)];
  }
}
