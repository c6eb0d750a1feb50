/** The contents of one table slot (HashMap.java lines 393-405 and 2484-2488):
    empty, a chain of plain nodes linked by `next`, or a tree bin whose nodes
    form a red-black tree and, through `next`/`prev`, a list as well. */
module Bins {
  import opened Hashing
  import opened Nodes
  import opened RedBlack

  datatype Bucket<K, V> =
    | Empty
    | Chain(nodes: seq<Node<K, V>>)
    | TreeBin(root: Tree<K, V>, order: seq<Node<K, V>>)

  /** The nodes of a bin in the order `next` visits them. */
  function BinNodes<K, V>(b: Bucket<K, V>): seq<Node<K, V>>
  {
    match b
    case Empty => []
    case Chain(nodes) => nodes
    case TreeBin(_, order) => order
  }

  /** The nodes of s that stay at their index when a table of oldCap slots
      doubles (`(e.hash & oldCap) == 0`), in their order. */
  function StayNodes<K, V>(s: seq<Node<K, V>>, oldCap: nat): seq<Node<K, V>>
  {
    if |s| == 0 then []
    else (if MovesUp(s[0].hash, oldCap) then [] else [s[0]]) + StayNodes(s[1..], oldCap)
  }

  /** The nodes of s that move up by oldCap, in their order. */
  function MoveNodes<K, V>(s: seq<Node<K, V>>, oldCap: nat): seq<Node<K, V>>
  {
    if |s| == 0 then []
    else (if MovesUp(s[0].hash, oldCap) then [s[0]] else []) + MoveNodes(s[1..], oldCap)
  }

  lemma {:induction false} StayMoveSnoc<K, V>(s: seq<Node<K, V>>, x: Node<K, V>, oldCap: nat)
    ensures StayNodes(s + [x], oldCap) == StayNodes(s, oldCap) + (if MovesUp(x.hash, oldCap) then [] else [x])
    ensures MoveNodes(s + [x], oldCap) == MoveNodes(s, oldCap) + (if MovesUp(x.hash, oldCap) then [x] else [])
  {
    if |s| > 0 {
      assert (s + [x])[0] == s[0] && (s + [x])[1..] == s[1..] + [x];
      StayMoveSnoc(s[1..], x, oldCap);
      var up := MovesUp(s[0].hash, oldCap);
      var e := if MovesUp(x.hash, oldCap) then [] else [x];
      var a := if up then [] else [s[0]];
      assert a + (StayNodes(s[1..], oldCap) + e) == (a + StayNodes(s[1..], oldCap)) + e;
      e := if MovesUp(x.hash, oldCap) then [x] else [];
      a := if up then [s[0]] else [];
      assert a + (MoveNodes(s[1..], oldCap) + e) == (a + MoveNodes(s[1..], oldCap)) + e;
    } else {
      assert s + [x] == [x];
    }
  }

  /** Every node lands in exactly one of the two halves. */
  lemma {:induction false} StayMoveMembers<K, V>(s: seq<Node<K, V>>, oldCap: nat)
    ensures forall y :: y in StayNodes(s, oldCap) ==> y in s && !MovesUp(y.hash, oldCap)
    ensures forall y :: y in MoveNodes(s, oldCap) ==> y in s && MovesUp(y.hash, oldCap)
    ensures forall y :: y in s ==> y in StayNodes(s, oldCap) || y in MoveNodes(s, oldCap)
    ensures |StayNodes(s, oldCap)| + |MoveNodes(s, oldCap)| == |s|
  {
    if |s| > 0 {
      StayMoveMembers(s[1..], oldCap);
      assert s == [s[0]] + s[1..];
    }
  }

  /** Both halves keep the nodes' relative order, so keys stay distinct. */
  lemma {:induction false} StayMoveDistinct<K, V>(s: seq<Node<K, V>>, oldCap: nat)
    requires KeysDistinct(s)
    ensures KeysDistinct(StayNodes(s, oldCap)) && KeysDistinct(MoveNodes(s, oldCap))
  {
    if |s| > 0 {
      DistinctTail(s);
      StayMoveDistinct(s[1..], oldCap);
      StayMoveMembers(s[1..], oldCap);
      forall y | y in MoveNodes(s[1..], oldCap) ensures y.key != s[0].key {
        assert y in s[1..];
      }
      forall y | y in StayNodes(s[1..], oldCap) ensures y.key != s[0].key {
        assert y in s[1..];
      }
      if MovesUp(s[0].hash, oldCap) {
        DistinctCons(s[0], MoveNodes(s[1..], oldCap));
      } else {
        DistinctCons(s[0], StayNodes(s[1..], oldCap));
      }
    }
  }

  /** When no node moves, all of them stay, in order. */
  lemma {:induction false} AllStay<K, V>(s: seq<Node<K, V>>, oldCap: nat)
    requires |MoveNodes(s, oldCap)| == 0
    ensures StayNodes(s, oldCap) == s
  {
    if |s| > 0 {
      assert !MovesUp(s[0].hash, oldCap);
      AllStay(s[1..], oldCap);
      assert s == [s[0]] + s[1..];
    }
  }

  /** When no node stays, all of them move, in order. */
  lemma {:induction false} AllMove<K, V>(s: seq<Node<K, V>>, oldCap: nat)
    requires |StayNodes(s, oldCap)| == 0
    ensures MoveNodes(s, oldCap) == s
  {
    if |s| > 0 {
      assert MovesUp(s[0].hash, oldCap);
      AllMove(s[1..], oldCap);
      assert s == [s[0]] + s[1..];
    }
  }
}
