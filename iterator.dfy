/** HashIterator (HashMap.java lines 1864-1910): the fail-fast walk over
    the table, slot by slot along each bin's `next` list. Java's `next`
    and `current` are node references; here the next node is named by its
    slot and its position in that slot's list, and is read from the live
    table. */
module Iterators {
  import opened Hashing
  import opened Nodes
  import opened RedBlack
  import opened Bins
  import opened TreeBins
  import opened Tables
  import opened HashMaps

  /** The nodes a walk still returns once it stands at position pos of
      slot i: the rest of that slot's list, then every later slot. */
  function Rest<K, V>(t: seq<Bucket<K, V>>, i: int, pos: int): seq<Node<K, V>>
    requires 0 <= i < |t| && 0 <= pos <= |BinNodes(t[i])|
  {
    BinNodes(t[i])[pos..] + AllNodes(t[i + 1..])
  }

  /** The scan for the next node: the first non-empty slot from `from` on,
      if any, and the index after it. Skipping empty slots skips no node. */
  method Scan<K, V>(t: array<Bucket<K, V>>, from: int) returns (found: bool, slot: int, index: int)
    requires 0 <= from <= t.Length
    ensures found ==> from <= slot < t.Length && index == slot + 1 && t[slot] != Empty &&
                      AllNodes(t[..][from..]) == AllNodes(t[..][slot..])
    ensures !found ==> index == t.Length && AllNodes(t[..][from..]) == []
  {
    ghost var ts := t[..];
    found, slot, index := false, from, from;
    while index < t.Length && !found
      invariant from <= index <= t.Length
      invariant found ==> from <= slot < t.Length && index == slot + 1 && t[slot] != Empty
      invariant AllNodes(ts[from..]) == AllNodes(ts[if found then slot else index..])
    {
      slot := index;
      index := index + 1;
      found := t[slot] != Empty;
      if !found {
        AllNodesFrom(ts, slot);
      }
    }
    if !found {
      assert ts[index..] == [];
    }
  }

  /** The nodes of a table listed slot by slot split at any slot boundary. */
  lemma {:induction false} AllNodesAppend<K, V>(a: seq<Bucket<K, V>>, b: seq<Bucket<K, V>>)
    ensures AllNodes(a + b) == AllNodes(a) + AllNodes(b)
  {
    if |b| == 0 {
      assert a + b == a;
    } else {
      var m := |b| - 1;
      assert (a + b)[..|a + b| - 1] == a + b[..m];
      assert (a + b)[|a + b| - 1] == b[m];
      AllNodesAppend(a, b[..m]);
      assert AllNodes(a) + (AllNodes(b[..m]) + BinNodes(b[m])) == (AllNodes(a) + AllNodes(b[..m])) + BinNodes(b[m]);
    }
  }

  /** From slot i on, the walk lists slot i's nodes, then the later slots'. */
  lemma AllNodesFrom<K, V>(t: seq<Bucket<K, V>>, i: int)
    requires 0 <= i < |t|
    ensures AllNodes(t[i..]) == BinNodes(t[i]) + AllNodes(t[i + 1..])
  {
    assert t[i..] == [t[i]] + t[i + 1..];
    AllNodesAppend([t[i]], t[i + 1..]);
    assert [t[i]][..0] == [];
  }

  /** A non-empty slot of a well-formed table holds at least one node. */
  lemma OccupiedSlot<K, V>(ops: KeyOps<K>, t: seq<Bucket<K, V>>, i: int)
    requires TableOk(ops, t) && 0 <= i < |t| && t[i] != Empty
    ensures |BinNodes(t[i])| > 0
  {
    assert BinOk(ops, t[i], i, |t|);
    if t[i].TreeBin? {
      assert t[i].root.node in Inorder(t[i].root);
    }
  }

  /** A node the walk has reached is an entry of the map, in its key's slot. */
  lemma NodeInSlot<K(!new), V>(ops: KeyOps<K>, t: seq<Bucket<K, V>>, c: map<Option<K>, Option<V>>, i: int, p: int)
    requires TableOk(ops, t) && Represents(ops, t, c) && 0 <= i < |t| && 0 <= p < |BinNodes(t[i])|
    ensures BinNodes(t[i])[p].key in c && Slot(ops, BinNodes(t[i])[p].key, |t|) == i
  {
    var x := BinNodes(t[i])[p];
    assert BinOk(ops, t[i], i, |t|);
    assert x in BinNodes(t[i]);
    assert FindIn(ops, t, x.key) == Entry(ops, c, x.key);
  }

  /** Unlinking the node at position p of a key-distinct list takes out
      exactly that node, so the nodes after it move down by one. */
  lemma WithoutAt<K, V>(s: seq<Node<K, V>>, p: int)
    requires KeysDistinct(s) && 0 <= p < |s|
    ensures Without(s, s[p].key) == s[..p] + s[p + 1..]
  {
    var a, x, b := s[..p], s[p], s[p + 1..];
    assert s == a + [x] + b;
    WithoutOne(a, x, b);
  }

  /** After unlinking the current node, at position cp of slot cs, the walk
      that stood at position pos of slot i goes on with the same nodes; its
      position moves down by one when the current node was in the same slot. */
  lemma RestAfterRemove<K, V>(ops: KeyOps<K>, t: seq<Bucket<K, V>>, t': seq<Bucket<K, V>>,
                              cs: int, cp: int, i: int, pos: int)
    requires TableOk(ops, t) && |t'| == |t| && 0 <= cs <= i < |t|
    requires 0 <= cp < |BinNodes(t[cs])| && 0 <= pos < |BinNodes(t[i])| && (cs == i ==> cp + 1 == pos)
    requires BinNodes(t'[cs]) == Without(BinNodes(t[cs]), BinNodes(t[cs])[cp].key)
    requires forall j :: 0 <= j < |t| && j != cs ==> t'[j] == t[j]
    ensures var pos' := if cs == i then pos - 1 else pos;
            0 <= pos' < |BinNodes(t'[i])| && Rest(t', i, pos') == Rest(t, i, pos)
  {
    if cs == i {
      assert BinOk(ops, t[i], i, |t|);
      RestAfterUnlink(t, t', i, pos);
    } else {
      RestAfterEarlierUnlink(t, t', i, pos, cs);
    }
  }

  /** After unlinking the node just before position pos of slot i, the walk
      from position pos - 1 returns what it returned from pos. */
  lemma RestAfterUnlink<K, V>(t: seq<Bucket<K, V>>, t': seq<Bucket<K, V>>, i: int, pos: int)
    requires 0 <= i < |t| == |t'| && 1 <= pos < |BinNodes(t[i])| && KeysDistinct(BinNodes(t[i]))
    requires BinNodes(t'[i]) == Without(BinNodes(t[i]), BinNodes(t[i])[pos - 1].key)
    requires forall j :: 0 <= j < |t| && j != i ==> t'[j] == t[j]
    ensures pos - 1 < |BinNodes(t'[i])| && Rest(t', i, pos - 1) == Rest(t, i, pos)
  {
    var s := BinNodes(t[i]);
    WithoutAt(s, pos - 1);
    assert (s[..pos - 1] + s[pos..])[pos - 1..] == s[pos..];
    assert t'[i + 1..] == t[i + 1..];
  }

  /** After unlinking a node of an earlier slot, the walk from position pos
      of slot i is unchanged. */
  lemma RestAfterEarlierUnlink<K, V>(t: seq<Bucket<K, V>>, t': seq<Bucket<K, V>>, i: int, pos: int, c: int)
    requires 0 <= c < i < |t| == |t'| && 0 <= pos <= |BinNodes(t[i])|
    requires forall j :: 0 <= j < |t| && j != c ==> t'[j] == t[j]
    ensures t'[i] == t[i] && Rest(t', i, pos) == Rest(t, i, pos)
  {
    assert t'[i + 1..] == t[i + 1..];
  }

  /** The walk from position pos of slot i, one node on. */
  lemma RestStep<K, V>(t: seq<Bucket<K, V>>, i: int, pos: int)
    requires 0 <= i < |t| && 0 <= pos < |BinNodes(t[i])|
    ensures Rest(t, i, pos) == [BinNodes(t[i])[pos]] + Rest(t, i, pos + 1)
  {
    var s := BinNodes(t[i]);
    assert s[pos..] == [s[pos]] + s[pos + 1..];
    assert [s[pos]] + (s[pos + 1..] + AllNodes(t[i + 1..])) == ([s[pos]] + s[pos + 1..]) + AllNodes(t[i + 1..]);
  }

  /** A walk over table t: the next node, if any, is at position pos of
      slot i, and index is the slot after it; the current node, if any, is
      at position cp of slot cs, before the next node. */
  ghost predicate WalkAt<K, V>(t: seq<Bucket<K, V>>, hasNext: bool, i: int, pos: int, index: int,
                               current: Option<Node<K, V>>, cs: int, cp: int)
  {
    (hasNext ==> 0 <= i < |t| && index == i + 1 && 0 <= pos < |BinNodes(t[i])|) &&
    (current.Some? ==>
       0 <= cs < |t| && 0 <= cp < |BinNodes(t[cs])| && BinNodes(t[cs])[cp].key == current.value.key &&
       (hasNext ==> cs < i || (cs == i && cp + 1 == pos)))
  }

  /** The step of nextNode past the node at position pos of slot i:
      `next = e.next`, and at the end of the slot's list the scan for the
      next non-empty slot from index. The walk loses exactly that node. */
  method Advance<K, V>(ghost ops: KeyOps<K>, t: array<Bucket<K, V>>, i: int, pos: int, index: int)
    returns (hasNext: bool, i': int, pos': int, index': int)
    requires TableOk(ops, t[..]) && 0 <= i < t.Length && index == i + 1 && 0 <= pos < |BinNodes(t[i])|
    ensures WalkAt(t[..], hasNext, i', pos', index', Some(BinNodes(t[i])[pos]), i, pos)
    ensures (if hasNext then Rest(t[..], i', pos') else []) == Rest(t[..], i, pos)[1..]
  {
    if pos + 1 < |BinNodes(t[i])| {
      RestStep(t[..], i, pos);
      return true, i, pos + 1, index;
    }
    var found, s, next := Scan(t, index);
    ScanRest(ops, t[..], i, pos, found, s, next);
    return found, s, 0, next;
  }

  /** The end of a slot's list: the walk goes on at the head of the next
      non-empty slot the scan found, or ends when there is none. */
  lemma ScanRest<K, V>(ops: KeyOps<K>, t: seq<Bucket<K, V>>, i: int, pos: int, found: bool, s: int, next: int)
    requires TableOk(ops, t) && 0 <= i < |t| && 0 <= pos && pos + 1 == |BinNodes(t[i])|
    requires found ==> i + 1 <= s < |t| && next == s + 1 && t[s] != Empty && AllNodes(t[i + 1..]) == AllNodes(t[s..])
    requires !found ==> next == |t| && AllNodes(t[i + 1..]) == []
    ensures WalkAt(t, found, s, 0, next, Some(BinNodes(t[i])[pos]), i, pos)
    ensures (if found then Rest(t, s, 0) else []) == Rest(t, i, pos)[1..]
  {
    RestStep(t, i, pos);
    assert BinNodes(t[i])[pos + 1..] == [];
    if found {
      OccupiedSlot(ops, t, s);
      AllNodesFrom(t, s);
    }
  }

  /** The removeNode call of remove(), which neither matches the value nor
      moves a tree bin's root, for the current node p, at position cp of
      slot cs: the map loses p's key,
      and the walk, standing at position pos of slot i, goes on with the
      nodes it had still to return. */
  method UnlinkCurrent<K(==,!new), V(==)>(m: HashMap<K, V>, p: Option<Node<K, V>>, cs: int, ghost cp: int,
                                          hasNext: bool, i: int, pos: int, index: int)
    returns (pos': int)
    requires m.Valid() && m.table != null && p.Some?
    requires WalkAt(m.table[..], hasNext, i, pos, index, p, cs, cp)
    modifies m, m.table
    ensures m.Valid() && m.table == old(m.table)
    ensures m.Contents == old(m.Contents) - {p.value.key} && m.modCount == old(m.modCount) + 1
    ensures WalkAt(m.table[..], hasNext, i, pos', index, None, cs, cp)
    ensures hasNext ==> Rest(m.table[..], i, pos') == old(Rest(m.table[..], i, pos))
  {
    var key := p.value.key;
    ghost var t := m.table[..];
    NodeInSlot(m.ops, t, m.Contents, cs, cp);
    var _ := m.RemoveNode(KeyHash(m.ops, key), key, None, false, false);
    ghost var t' := m.table[..];
    assert BinNodes(t'[cs]) == Without(BinNodes(t[cs]), key);
    assert forall j :: 0 <= j < |t| && j != cs ==> t'[j] == t[j];
    pos' := if hasNext && cs == i then pos - 1 else pos;
    WalkAfterRemove(m.ops, t, t', hasNext, i, pos, index, p, cs, cp, pos');
  }

  /** The walk after the current node is unlinked from table t, giving t'. */
  lemma WalkAfterRemove<K, V>(ops: KeyOps<K>, t: seq<Bucket<K, V>>, t': seq<Bucket<K, V>>, hasNext: bool,
                              i: int, pos: int, index: int, p: Option<Node<K, V>>, cs: int, cp: int, pos': int)
    requires TableOk(ops, t) && |t'| == |t| && p.Some? && WalkAt(t, hasNext, i, pos, index, p, cs, cp)
    requires BinNodes(t'[cs]) == Without(BinNodes(t[cs]), p.value.key)
    requires forall j :: 0 <= j < |t| && j != cs ==> t'[j] == t[j]
    requires pos' == if hasNext && cs == i then pos - 1 else pos
    ensures WalkAt(t', hasNext, i, pos', index, None, cs, cp)
    ensures hasNext ==> Rest(t', i, pos') == Rest(t, i, pos)
  {
    if hasNext {
      RestAfterRemove(ops, t, t', cs, cp, i, pos);
    }
  }

  class HashIterator<K(==,!new), V(==)> {
    const owner: HashMap<K, V>
    var hasNext: bool
    var slot: int
    var pos: int
    var index: int
    var current: Option<Node<K, V>>
    var currentSlot: int
    ghost var currentPos: int
    var expectedModCount: int

    /** Where the walk stands while the map has not been structurally
        modified behind its back. */
    ghost predicate Positioned()
      reads this, owner, owner.table
    {
      if owner.table == null then !hasNext && current.None?
      else WalkAt(owner.table[..], hasNext, slot, pos, index, current, currentSlot, currentPos)
    }

    ghost predicate Valid()
      reads this, owner, owner.table
    {
      owner.Valid() && (owner.modCount == expectedModCount ==> Positioned())
    }

    /** The nodes the walk has still to return, in order. */
    ghost function Remaining(): seq<Node<K, V>>
      reads this, owner, owner.table
      requires Valid() && owner.modCount == expectedModCount
    {
      if hasNext then Rest(owner.table[..], slot, pos) else []
    }

    /** HashIterator(): records modCount and advances to the first node; the
        walk will return every node of the table, slot by slot. */
    constructor (owner: HashMap<K, V>)
      requires owner.Valid()
      ensures Valid() && this.owner == owner && expectedModCount == owner.modCount && current.None?
      ensures Remaining() == if owner.table == null then [] else AllNodes(owner.table[..])
    {
      this.owner := owner;
      expectedModCount := owner.modCount;
      var t := owner.table;
      current := None;
      hasNext := false;
      index := 0;
      if t != null && owner.size > 0 {
        var found, s, i := Scan(t, 0);
        hasNext, index := found, i;
        assert t[..][0..] == t[..];
        if found {
          OccupiedSlot(owner.ops, t[..], s);
          AllNodesFrom(t[..], s);
          slot, pos := s, 0;
        }
      } else if t != null {
        AllNodesCount(t[..]);
      }
    }

    /** hasNext(). */
    function HasNext(): (r: bool)
      reads this, owner, owner.table
      requires Valid() && owner.modCount == expectedModCount
      ensures r <==> Remaining() != []
    {
      hasNext
    }

    /** nextNode(): fails fast when the map was structurally modified since
        the walk began or last removed, fails when the walk is over, and
        otherwise returns the next node and moves past it. */
    method NextNode() returns (r: Result<Node<K, V>>)
      requires Valid()
      modifies this
      ensures Valid() && expectedModCount == old(expectedModCount)
      ensures owner.modCount != expectedModCount ==> r == Err(ConcurrentModification) && unchanged(this)
      ensures owner.modCount == expectedModCount && old(Remaining()) == [] ==>
                r == Err(NoSuchElement) && unchanged(this)
      ensures owner.modCount == expectedModCount && old(Remaining()) != [] ==>
                r == Ok(old(Remaining())[0]) && current == Some(r.value) &&
                Remaining() == old(Remaining())[1..]
    {
      if owner.modCount != expectedModCount {
        return Err(ConcurrentModification);
      }
      if !hasNext {
        return Err(NoSuchElement);
      }
      var t := owner.table;
      ghost var rest := Rest(t[..], slot, pos);
      var e := BinNodes(t[slot])[pos];
      var cs, cp := slot, pos;
      hasNext, slot, pos, index := Advance(owner.ops, t, slot, pos, index);
      current, currentSlot, currentPos := Some(e), cs, cp;
      assert Positioned();
      assert Remaining() == rest[1..];
      return Ok(e);
    }

    /** remove(): fails without a current node, fails fast after a foreign
        modification, and otherwise removes the current node's key without
        moving other tree nodes and takes the new modCount as its own. The
        walk goes on with the nodes it had still to return. */
    method Remove() returns (r: Result<()>)
      requires Valid()
      modifies this, owner, owner.table
      ensures Valid()
      ensures old(current).None? ==> r == Err(IllegalState) && unchanged(this) && unchanged(owner)
      ensures old(current).Some? && old(owner.modCount) != old(expectedModCount) ==>
                r == Err(ConcurrentModification) && unchanged(this) && unchanged(owner)
      ensures old(current).Some? && old(owner.modCount) == old(expectedModCount) ==>
                r.Ok? && current.None? && expectedModCount == owner.modCount &&
                owner.Contents == old(owner.Contents) - {old(current).value.key} &&
                owner.modCount == old(owner.modCount) + 1 && Remaining() == old(Remaining())
    {
      var p := current;
      if p.None? {
        return Err(IllegalState);
      }
      if owner.modCount != expectedModCount {
        return Err(ConcurrentModification);
      }
      current := None;
      pos := UnlinkCurrent(owner, p, currentSlot, currentPos, hasNext, slot, pos, index);
      expectedModCount := owner.modCount;
      return Ok(());
    }
  }
}
