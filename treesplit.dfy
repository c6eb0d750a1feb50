/** Splitting a tree bin when the table doubles (HashMap.java lines
    2807-2861). */
module TreeSplit {
  import opened Hashing
  import opened Nodes
  import opened RedBlack
  import opened Bins
  import opened TreeBins
  import opened TreeRemoval

  /** A half of a split bin as a sequence with the bin's guarantees. */
  lemma HalfOk<K, V>(ops: KeyOps<K>, order: seq<Node<K, V>>, half: seq<Node<K, V>>)
    requires KeysDistinct(order) && HashesOk(ops, order)
    requires forall y :: y in half ==> y in order
    ensures HashesOk(ops, half)
  {
  }

  /** What becomes of one half of a split tree bin, of `count` nodes: none
      leaves the slot empty; at most UNTREEIFY_THRESHOLD become a plain
      chain; otherwise, when the other half is empty the half is the whole
      bin and keeps its tree, and else its nodes are treeified. */
  method Half<K(==,!new), V>(ops: KeyOps<K>, root: Tree<K, V>, order: seq<Node<K, V>>,
                             half: seq<Node<K, V>>, count: int, otherEmpty: bool)
    returns (b: Bucket<K, V>)
    requires ValidOps(ops) && TreeOk(ops, root, order) && count == |half| && KeysDistinct(half)
    requires forall y :: y in half ==> y in order
    requires otherEmpty ==> half == order
    ensures SameNodes(BinNodes(b), half)
    ensures b.Empty? <==> |half| == 0
    ensures b.Chain? <==> 0 < |half| <= UNTREEIFY_THRESHOLD
    ensures b.Chain? ==> b.nodes == half
    ensures b.TreeBin? ==> TreeOk(ops, b.root, b.order)
    ensures b.TreeBin? && otherEmpty ==> b == TreeBin(root, order)
    ensures b.TreeBin? && !otherEmpty ==> |b.order| > 0 && b.order[0] == b.root.node
    ensures b.TreeBin? && !otherEmpty ==> Without(b.order, b.root.node.key) == Without(half, b.root.node.key)
  {
    if count == 0 {
      b := Empty;
    } else if count <= UNTREEIFY_THRESHOLD {
      b := Untreeify(TreeBin(root, half));
    } else if otherEmpty {
      b := TreeBin(root, order);
    } else {
      HalfOk(ops, order, half);
      var r, o := Treeify(ops, half);
      b := TreeBin(r, o);
    }
  }

  /** The relinking loop of split: the bin's list is walked once and each
      node appended to the lo list (split bit clear) or the hi list, each
      counted. */
  method Relink<K, V>(order: seq<Node<K, V>>, bit: nat)
    returns (loList: seq<Node<K, V>>, hiList: seq<Node<K, V>>, lc: int, hc: int)
    ensures loList == StayNodes(order, bit) && hiList == MoveNodes(order, bit)
    ensures lc == |loList| && hc == |hiList|
  {
    loList, hiList := [], [];
    lc, hc := 0, 0;
    var i := 0;
    while i < |order|
      invariant 0 <= i <= |order|
      invariant loList == StayNodes(order[..i], bit) && hiList == MoveNodes(order[..i], bit)
      invariant lc == |loList| && hc == |hiList|
    {
      var e := order[i];
      if !MovesUp(e.hash, bit) {
        loList, lc := loList + [e], lc + 1;
      } else {
        hiList, hc := hiList + [e], hc + 1;
      }
      StayMoveSnoc(order[..i], e, bit);
      assert order[..i + 1] == order[..i] + [e];
      i := i + 1;
    }
    assert order[..i] == order;
  }

  /** split(map, tab, index, bit): the bin's list is relinked into the nodes
      that stay at index and those that move to index + bit, both in list
      order; each half then becomes a bin as Half describes. */
  method Split<K(==,!new), V>(ops: KeyOps<K>, root: Tree<K, V>, order: seq<Node<K, V>>, bit: nat)
    returns (lo: Bucket<K, V>, hi: Bucket<K, V>)
    requires ValidOps(ops) && TreeOk(ops, root, order)
    ensures SameNodes(BinNodes(lo), StayNodes(order, bit)) && SameNodes(BinNodes(hi), MoveNodes(order, bit))
    ensures lo.Empty? <==> |StayNodes(order, bit)| == 0
    ensures hi.Empty? <==> |MoveNodes(order, bit)| == 0
    ensures lo.Chain? <==> 0 < |StayNodes(order, bit)| <= UNTREEIFY_THRESHOLD
    ensures hi.Chain? <==> 0 < |MoveNodes(order, bit)| <= UNTREEIFY_THRESHOLD
    ensures lo.Chain? ==> lo.nodes == StayNodes(order, bit)
    ensures hi.Chain? ==> hi.nodes == MoveNodes(order, bit)
    ensures lo.TreeBin? ==> TreeOk(ops, lo.root, lo.order)
    ensures hi.TreeBin? ==> TreeOk(ops, hi.root, hi.order)
    ensures lo.TreeBin? && |MoveNodes(order, bit)| == 0 ==> lo == TreeBin(root, order)
    ensures hi.TreeBin? && |StayNodes(order, bit)| == 0 ==> hi == TreeBin(root, order)
  {
    var loList, hiList, lc, hc := Relink(order, bit);
    StayMoveMembers(order, bit);
    StayMoveDistinct(order, bit);
    if hc == 0 {
      AllStay(order, bit);
    }
    if lc == 0 {
      AllMove(order, bit);
    }
    lo := Half(ops, root, order, loList, lc, hc == 0);
    hi := Half(ops, root, order, hiList, hc, lc == 0);
  }
}
