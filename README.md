# HashMap: a verified model of the hash table, its tree bins and its iterator

This project models the core of the JDK's `java.util.HashMap`, as it appears in
`src/main/java/xyz/lixiangyu/source/jdk/java/util/HashMap.java`. It covers:

- how a key's hash code is spread and a slot chosen;
- how the table is sized (`tableSizeFor`, `resize`);
- lookup, insertion and removal (`getNode`, `putVal`, `removeNode`) with their
  public wrappers;
- the conversion of long chains into red-black tree bins and back (`treeifyBin`,
  `TreeNode.treeify`, `putTreeVal`, `removeTreeNode`, `split`, `untreeify`),
  including the rotations and rebalancing;
- the bulk operations `clear`, `containsValue`, `forEach` and `replaceAll`;
- the fail-fast `HashIterator`.

## How the model is built

- **Hashes** are unsigned 32-bit patterns (`u32`, a natural below 2^32).
  `&`, `|`, `^` and `>>>` are arithmetic functions in module `Bits`. Java's
  signed view of a hash (`Signed`) is used where the source compares hashes as
  `int`s (tree order, `checkInvariants`). `int` fields are the `int32` newtype.
  Where the source can overflow (doubling a threshold), `Wrap32` writes the
  two's-complement wrap-around out.
- **Keys and values** are `Option<K>` and `Option<V>`; `None` is Java's `null`.
  A key's `hashCode`, `comparableClassFor` with `compareComparables` (0 for keys
  that are not mutually comparable), and `tieBreakOrder` are the functions of a
  `KeyOps` value. `ValidOps` states what the tree code relies on: comparison is
  antisymmetric in sign, and comparison followed by the tie-break orders keys
  totally and transitively.
- **A node** (`Node(hash, key, value)`) is a value. The `next` links of a chain
  are its position in a sequence.
- **A bin** is `Empty`, a `Chain` of nodes, or a `TreeBin(root, order)`. In a
  tree bin, `root` is the red-black tree (left/right links and colours) and
  `order` is the `next`/`prev` list that a `TreeNode` bin keeps beside the tree.
  The first node of `order` is the root, as `moveRootToFront` ensures.
- **Parent links** are replaced by a zipper. The insertion and deletion repairs
  (`balanceInsertion`, `balanceDeletion`) walk up from a focus subtree along a
  path of frames. Each step that re-colours or rotates one level is a method,
  and each is proved to keep the in-order sequence of nodes.
- **`HashMap` is a class.** Its fields are `table` (an `array?` of bins, null
  until the first allocation), `size`, `modCount`, `threshold`, `loadFactor`
  and the key operations. The ghost field `Contents` is the map the table
  stands for. `Shape()` ties the table to `Contents`:
  - every slot is well formed;
  - every node in slot `i` has `(n - 1) & hash == i`;
  - looking up any key in its slot finds exactly `Contents`' entry;
  - the node count equals the number of entries.

  `Valid()` adds `size == |Contents|`. Every public operation is proved against
  `Contents`.
- **Resize** doubles the table slot pair by slot pair. The invariant `SplitUpTo`
  says that old slots below `j` have been split into slots `j` and `j + oldCap`,
  and that later pairs are still empty. `ResizeTable` proves that the finished
  table stands for the same map.
- **The load factor** is a `real`. `(float)newCap * loadFactor` and its `(int)`
  cast become multiplication and `Floor`.
- **`HashIterator` is a class.** It holds the iterator's fields, with `(slot,
  position in the bin)` standing for the `next` and `current` node references.
  Its ghost function `Remaining()` lists the nodes the walk has still to return.

Points of the source's behaviour that the model keeps as written:

- `resize` leaves `modCount` unchanged; only insertion of a new key, removal
  and `clear` count as modifications.
- A chain is treeified when a new node is appended to a chain that already held
  `TREEIFY_THRESHOLD` (8) nodes (`binCount >= TREEIFY_THRESHOLD - 1`), that is
  when the chain grows to 9 nodes, and only when the table has at least
  `MIN_TREEIFY_CAPACITY` slots (smaller tables are resized instead).
- When the table grows from 16 slots or more, the new threshold is the old one
  shifted left (`oldThr << 1`), not `newCap * loadFactor`. That rule is applied
  as written, with the `int` wrap-around.
- `removeNode` converts a small tree bin back to a chain only when `movable` is
  set.
- `treeifyBin`'s `tab == null` test comes after `tab.length` has been read and
  can never hold. The model requires a non-null table.
- `tableSizeFor` of a negative capacity is 1, except for `Integer.MIN_VALUE`:
  there `cap - 1` wraps around to `Integer.MAX_VALUE` and the result is
  `MAXIMUM_CAPACITY`. The public constructors reject negative capacities
  before calling it.

## Model

| member | source | states |
|---|---|---|
| Hashing.HashHalves | src/main/java/xyz/lixiangyu/source/jdk/java/util/HashMap.java:253-256 | `hash(null)` is 0. For any other key, the upper 16 bits of `hash(key)` are those of `key.hashCode()` and the lower 16 bits are the XOR of its two halves. |
| Hashing.SpreadKeepsHigh | src/main/java/xyz/lixiangyu/source/jdk/java/util/HashMap.java:255 | `h ^ (h >>> 16)` keeps the upper 16 bits of `h`. |
| Hashing.SpreadLowHalf | src/main/java/xyz/lixiangyu/source/jdk/java/util/HashMap.java:255 | The lower 16 bits of `h ^ (h >>> 16)` are the XOR of `h`'s lower and upper halves. |
| Hashing.SpreadInvolution | src/main/java/xyz/lixiangyu/source/jdk/java/util/HashMap.java:255 | Spreading twice gives back the original hash code, so no information is lost. |
| Hashing.SpreadInjective | src/main/java/xyz/lixiangyu/source/jdk/java/util/HashMap.java:255 | Two hash codes spread to the same value exactly when they are equal. |
| Hashing.HashSeparates | src/main/java/xyz/lixiangyu/source/jdk/java/util/HashMap.java:253-256 | Keys with different hash codes get different spread hashes. |
| Hashing.IndexInRange | src/main/java/xyz/lixiangyu/source/jdk/java/util/HashMap.java:1270 | `(n - 1) & hash` for a power-of-two `n` is `hash mod n`, a valid slot. |
| Hashing.ResizeIndex | src/main/java/xyz/lixiangyu/source/jdk/java/util/HashMap.java:1591-1623 | In the doubled table, a hash's slot is its old slot `j` when `hash & oldCap` is 0, and `j + oldCap` otherwise. |
| Hashing.TableSizeForShape | src/main/java/xyz/lixiangyu/source/jdk/java/util/HashMap.java:332-340 | The five shift-or steps turn `cap - 1` into all ones below its highest set bit. |
| Hashing.TableSizeForRange | src/main/java/xyz/lixiangyu/source/jdk/java/util/HashMap.java:332-340 | For every `int` argument, `tableSizeFor` returns a power of two between 1 and `MAXIMUM_CAPACITY`. |
| Hashing.TableSizeForAtLeast | src/main/java/xyz/lixiangyu/source/jdk/java/util/HashMap.java:332-340 | For `cap <= MAXIMUM_CAPACITY`, the result is at least `cap`. |
| Hashing.TableSizeForSmallest | src/main/java/xyz/lixiangyu/source/jdk/java/util/HashMap.java:332-340 | For `cap >= 0`, no power of two that is at least `cap` is smaller than the result. |
| Hashing.TableSizeForSmallestInRange | src/main/java/xyz/lixiangyu/source/jdk/java/util/HashMap.java:332-340 | The same for `1 <= cap <= MAXIMUM_CAPACITY`. |
| Hashing.TableSizeForZero | src/main/java/xyz/lixiangyu/source/jdk/java/util/HashMap.java:332-340 | `tableSizeFor(0)` is 1. |
| Hashing.TableSizeForNegative | src/main/java/xyz/lixiangyu/source/jdk/java/util/HashMap.java:332-340 | A negative capacity other than `Integer.MIN_VALUE` gives 1. |
| Hashing.TableSizeForMinValue | src/main/java/xyz/lixiangyu/source/jdk/java/util/HashMap.java:332-340 | `tableSizeFor(Integer.MIN_VALUE)` is `MAXIMUM_CAPACITY`, because `cap - 1` wraps around to `Integer.MAX_VALUE`. |
| Hashing.TableSizeForFixpoint | src/main/java/xyz/lixiangyu/source/jdk/java/util/HashMap.java:332-340 | A power of two up to `MAXIMUM_CAPACITY` is returned unchanged, so `tableSizeFor` is idempotent. |
| Hashing.Wrap32 | src/main/java/xyz/lixiangyu/source/jdk/java/util/HashMap.java:1513 | The `int` a value wraps to differs from it by a multiple of 2^32. |
| Sizing.DefaultSizing | src/main/java/xyz/lixiangyu/source/jdk/java/util/HashMap.java:1522-1525 | The first table of a map built with no capacity has 16 slots and threshold 12. |
| HashMaps.DefaultGrowth | src/main/java/xyz/lixiangyu/source/jdk/java/util/HashMap.java:1342-1344 | With the default sizing, the first insertion allocates 16 slots with threshold 12, the 12th entry keeps them, and the 13th doubles the table to 32 slots with threshold 24. |
| Sizing.SizingDoublesOrPins | src/main/java/xyz/lixiangyu/source/jdk/java/util/HashMap.java:1505-1515 | A table that already has slots is pinned exactly when it is at `MAXIMUM_CAPACITY`; otherwise its capacity doubles. |
| Sizing.SizingKeepsCapacityValid | src/main/java/xyz/lixiangyu/source/jdk/java/util/HashMap.java:1505-1539 | Every sizing step yields a power-of-two capacity no larger than `MAXIMUM_CAPACITY`, from any valid state. |
| Sizing.ThreeQuarters | src/main/java/xyz/lixiangyu/source/jdk/java/util/HashMap.java:1530-1532 | `(int)(n * 0.75f)` is `3n/4` for capacities below the maximum. |
| Sizing.SizingKeepsDefaultThreshold | src/main/java/xyz/lixiangyu/source/jdk/java/util/HashMap.java:1505-1539 | With the default load factor, the threshold stays three quarters of the capacity across every resize. |
| Sizing.DefaultThresholdDoubles | src/main/java/xyz/lixiangyu/source/jdk/java/util/HashMap.java:1512-1513 | The shifted threshold `oldThr << 1` of a table of 16 or more slots is three quarters of the new capacity. |
| Sizing.DefaultThresholdRecomputed | src/main/java/xyz/lixiangyu/source/jdk/java/util/HashMap.java:1529-1536 | Below 16 slots, the recomputed threshold is three quarters of the new capacity. |
| Nodes.PrecedesTrans | src/main/java/xyz/lixiangyu/source/jdk/java/util/HashMap.java:2607-2614 | The tree order (signed hash, then `compareComparables`, then `tieBreakOrder`) is transitive. |
| Nodes.PrecedesTotal | src/main/java/xyz/lixiangyu/source/jdk/java/util/HashMap.java:2607-2614 | The tree order relates any two nodes. |
| Nodes.Lookup | src/main/java/xyz/lixiangyu/source/jdk/java/util/HashMap.java:1231-1238 | The first node of a list with the given key, found when it is in the list, and absent exactly when no node has that key. |
| Nodes.LookupUnique | src/main/java/xyz/lixiangyu/source/jdk/java/util/HashMap.java:1231-1238 | In a list of distinct keys, looking up a node's key finds that node. |
| Nodes.Without | src/main/java/xyz/lixiangyu/source/jdk/java/util/HashMap.java:1456-1461 | Unlinking a key keeps exactly the nodes with the other keys. |
| Nodes.WithoutOne | src/main/java/xyz/lixiangyu/source/jdk/java/util/HashMap.java:1456-1461 | Unlinking the key of a node that occurs once removes exactly that node and keeps the order of the rest. |
| Nodes.WithoutSorted | src/main/java/xyz/lixiangyu/source/jdk/java/util/HashMap.java:2716-2724 | Unlinking a node from a list sorted in tree order keeps it sorted. |
| Nodes.WithoutDistinct | src/main/java/xyz/lixiangyu/source/jdk/java/util/HashMap.java:2716-2724 | Unlinking a node keeps the keys distinct. |
| Nodes.Revalue | src/main/java/xyz/lixiangyu/source/jdk/java/util/HashMap.java:1087-1089 | Rewriting values changes every node's value by the function and nothing else. |
| Nodes.RevalueLookup | src/main/java/xyz/lixiangyu/source/jdk/java/util/HashMap.java:1087-1089 | After values are rewritten, a key is found exactly when it was before, with the rewritten value. |
| Nodes.RevalueKeeps | src/main/java/xyz/lixiangyu/source/jdk/java/util/HashMap.java:1087-1089 | Rewriting values keeps keys distinct, hashes in place and tree order sorted. |
| Bins.StayMoveSnoc | src/main/java/xyz/lixiangyu/source/jdk/java/util/HashMap.java:1594-1609 | Appending a node to a chain appends it to exactly one of the lo/hi lists, chosen by `hash & oldCap`. |
| Bins.StayMoveMembers | src/main/java/xyz/lixiangyu/source/jdk/java/util/HashMap.java:1591-1609 | Every node of a split chain goes to exactly one half, the one selected by its split bit, and the halves' lengths add up. |
| Bins.StayMoveDistinct | src/main/java/xyz/lixiangyu/source/jdk/java/util/HashMap.java:1591-1609 | Both halves of a split keep distinct keys. |
| Bins.AllStay | src/main/java/xyz/lixiangyu/source/jdk/java/util/HashMap.java:2843-2851 | When no node moves, the lo list is the whole bin. |
| Bins.AllMove | src/main/java/xyz/lixiangyu/source/jdk/java/util/HashMap.java:2852-2860 | When every node moves, the hi list is the whole bin. |
| RedBlack.RotateLeft | src/main/java/xyz/lixiangyu/source/jdk/java/util/HashMap.java:2866-2882 | A left rotation keeps the in-order sequence of nodes, lifts the right child, and blackens it at the root. |
| RedBlack.RotateRight | src/main/java/xyz/lixiangyu/source/jdk/java/util/HashMap.java:2884-2900 | A right rotation keeps the in-order sequence of nodes, lifts the left child, and blackens it at the root. |
| RedBlack.FixRedRed | src/main/java/xyz/lixiangyu/source/jdk/java/util/HashMap.java:2911-2948 | One level of insertion repair (recolour, or one or two rotations) keeps the in-order sequence of the grandparent's subtree. |
| RedBlack.BalanceInsertion | src/main/java/xyz/lixiangyu/source/jdk/java/util/HashMap.java:2902-2951 | Insertion repair keeps the in-order sequence of the whole tree, and a tree whose root was black keeps a black root. |
| RedBlack.RotateRedSibling | src/main/java/xyz/lixiangyu/source/jdk/java/util/HashMap.java:2965-2970 | The red-sibling case of deletion repair rotates the parent and leaves a red parent with a black sibling, keeping the in-order sequence. |
| RedBlack.LeftSiblingCase | src/main/java/xyz/lixiangyu/source/jdk/java/util/HashMap.java:2971-2998 | The repair step for a node with a right sibling keeps the in-order sequence, and a leaf to be detached stays a leaf. |
| RedBlack.RightSiblingCase | src/main/java/xyz/lixiangyu/source/jdk/java/util/HashMap.java:3007-3034 | The mirror step for a node with a left sibling, with the same guarantees. |
| RedBlack.DeletionLevel | src/main/java/xyz/lixiangyu/source/jdk/java/util/HashMap.java:2964-3036 | One level of deletion repair keeps the in-order sequence and keeps the leaf to be detached a leaf. |
| RedBlack.BalanceDeletion | src/main/java/xyz/lixiangyu/source/jdk/java/util/HashMap.java:2953-3038 | Deletion repair keeps the in-order sequence of the whole tree, and the leaf to be detached stays a leaf. |
| RedBlack.RevalueInorder | src/main/java/xyz/lixiangyu/source/jdk/java/util/HashMap.java:1087-1089 | Rewriting the values of a tree bin's nodes keeps the tree's shape and its in-order keys. |
| TreeBins.SearchDirection | src/main/java/xyz/lixiangyu/source/jdk/java/util/HashMap.java:2542-2555 | In a search tree, the branch `find` takes by hash or comparison is the only one that can hold the key. When it cannot choose, the key can be in either subtree. |
| TreeBins.Find | src/main/java/xyz/lixiangyu/source/jdk/java/util/HashMap.java:2536-2562 | A node returned is in the tree and has the key. In a tree sorted by the tree order, a node is returned exactly when the key is present. |
| TreeBins.SortedPassesCheck | src/main/java/xyz/lixiangyu/source/jdk/java/util/HashMap.java:3043-3063 | A tree sorted in tree order with no red node having red children passes `checkInvariants`. |
| TreeBins.MoveRootToFront | src/main/java/xyz/lixiangyu/source/jdk/java/util/HashMap.java:2509-2529 | The root becomes the first node of the list. The list keeps the same nodes, and the rest keeps its order. |
| TreeBins.Direction | src/main/java/xyz/lixiangyu/source/jdk/java/util/HashMap.java:2607-2614 | The direction of a descent puts the new node on the correct side of the tree order. |
| TreeBins.DescendLeft | src/main/java/xyz/lixiangyu/source/jdk/java/util/HashMap.java:2617-2622 | Stepping into a left subtree keeps the new node after every node before the path and before every node after it. |
| TreeBins.InsertLeaf | src/main/java/xyz/lixiangyu/source/jdk/java/util/HashMap.java:2600-2626 | Linking a node as a leaf and rebalancing inserts it into the in-order sequence, keeping it sorted. |
| TreeBins.PlaceLeaf | src/main/java/xyz/lixiangyu/source/jdk/java/util/HashMap.java:2616-2625 | A leaf placed where the descent ends lands at its sorted position in the in-order sequence. |
| TreeBins.Treeify | src/main/java/xyz/lixiangyu/source/jdk/java/util/HashMap.java:2591-2630 | The bin becomes a search tree over the chain's nodes, with the root first in the list and the other nodes kept in chain order. |
| TreeBins.TreeifyStep | src/main/java/xyz/lixiangyu/source/jdk/java/util/HashMap.java:2593-2628 | Each inserted node extends the tree to the first `i + 1` nodes of the chain. |
| TreeBins.LinkAfter | src/main/java/xyz/lixiangyu/source/jdk/java/util/HashMap.java:2683-2692 | A new node is linked into the list right after its tree parent. |
| TreeBins.LinkNew | src/main/java/xyz/lixiangyu/source/jdk/java/util/HashMap.java:2681-2695 | A new node is linked into the tree and the list, and the tree is rebalanced. The result is a valid tree bin holding the old nodes and the new one, and its list is the old list with the new node right after its tree parent, the new root then moved to the front. |
| TreeBins.PutTreeVal | src/main/java/xyz/lixiangyu/source/jdk/java/util/HashMap.java:2652-2697 | Returns the existing node for the key, if any, and leaves the bin unchanged. Otherwise the bin is a valid tree bin with the new node added, and its list is the old list with the new node right after a node of the old list, the new root then moved to the front. |
| TreeRemoval.KeyInTree | src/main/java/xyz/lixiangyu/source/jdk/java/util/HashMap.java:2735 | A search of the whole tree finds a key exactly when a node with that key is in it. |
| TreeRemoval.Locate | src/main/java/xyz/lixiangyu/source/jdk/java/util/HashMap.java:2735 | Finds the node being removed and its path from the root. |
| TreeRemoval.Leftmost | src/main/java/xyz/lixiangyu/source/jdk/java/util/HashMap.java:2737-2739 | The successor search reaches the leftmost node of the right subtree, which comes first in that subtree's in-order sequence. |
| TreeRemoval.SwapWithSuccessor | src/main/java/xyz/lixiangyu/source/jdk/java/util/HashMap.java:2736-2773 | Swapping a node that has two children with its successor moves it past exactly one node in the in-order sequence, so it then has at most one child. |
| TreeRemoval.ReplaceByChild | src/main/java/xyz/lixiangyu/source/jdk/java/util/HashMap.java:2774-2789 | A node with at most one child is replaced by that child, or stays as a leaf to be detached. |
| TreeRemoval.DetachLeafInorder | src/main/java/xyz/lixiangyu/source/jdk/java/util/HashMap.java:2793-2802 | Detaching a leaf removes exactly its node from the in-order sequence. |
| TreeRemoval.RemovalOrder | src/main/java/xyz/lixiangyu/source/jdk/java/util/HashMap.java:2736-2802 | Moving the removed node past its successor and then dropping it leaves the in-order sequence without it. |
| TreeRemoval.TreeRemove | src/main/java/xyz/lixiangyu/source/jdk/java/util/HashMap.java:2735-2802 | The tree after removal holds exactly the old in-order sequence without the key. |
| TreeRemoval.GetTreeNode | src/main/java/xyz/lixiangyu/source/jdk/java/util/HashMap.java:2567-2569 | Returns exactly the bin's node for the key. |
| TreeRemoval.Untreeify | src/main/java/xyz/lixiangyu/source/jdk/java/util/HashMap.java:2636-2647 | The bin becomes a chain of the same nodes in list order. |
| TreeRemoval.RemovedTreeOk | src/main/java/xyz/lixiangyu/source/jdk/java/util/HashMap.java:2709-2805 | A tree holding the old in-order sequence without the key, with the key unlinked from the list, is a valid tree bin. |
| TreeRemoval.RemoveTreeNode | src/main/java/xyz/lixiangyu/source/jdk/java/util/HashMap.java:2709-2805 | The bin loses exactly the key's node. It is empty exactly when that was the last node, and becomes a chain exactly when `movable` is set and the tree is too small. Otherwise it stays a valid tree bin whose list keeps order, with the root moved to the front only when `movable` is set. |
| TreeSplit.Relink | src/main/java/xyz/lixiangyu/source/jdk/java/util/HashMap.java:2823-2841 | The lo and hi lists of `split` are the nodes that stay and the nodes that move, in list order, with their counts. |
| TreeSplit.Half | src/main/java/xyz/lixiangyu/source/jdk/java/util/HashMap.java:2843-2851 | A half is empty when it has no nodes. It becomes a chain in list order when it has at most `UNTREEIFY_THRESHOLD` nodes. Otherwise it is a valid tree bin, and it is the old tree itself when the other half is empty. |
| TreeSplit.Split | src/main/java/xyz/lixiangyu/source/jdk/java/util/HashMap.java:2817-2861 | Splitting a tree bin yields lo and hi bins holding exactly the staying and the moving nodes, each empty, a chain or a tree bin by its size. |
| Tables.SlotOf | src/main/java/xyz/lixiangyu/source/jdk/java/util/HashMap.java:1270 | `(n - 1) & hash` is a slot of the table. |
| Tables.GetFromBin | src/main/java/xyz/lixiangyu/source/jdk/java/util/HashMap.java:1215-1239 | The bin part of `getNode` finds exactly the bin's node for the key. |
| Tables.FindInChain | src/main/java/xyz/lixiangyu/source/jdk/java/util/HashMap.java:1231-1238 | The chain walk past the first node finds exactly the chain's node for the key. |
| Tables.PutInBin | src/main/java/xyz/lixiangyu/source/jdk/java/util/HashMap.java:1276-1319 | Returns the existing node for the key and leaves the bin alone if there is one. Otherwise the bin has the new node appended, or added to its tree. Treeify is requested exactly when a new node joins a chain of at least `TREEIFY_THRESHOLD` nodes. |
| Tables.PutInChain | src/main/java/xyz/lixiangyu/source/jdk/java/util/HashMap.java:1298-1318 | The chain walk finds the key's node, or appends the new node at the end. |
| Tables.UnlinkFromBin | src/main/java/xyz/lixiangyu/source/jdk/java/util/HashMap.java:1450-1462 | Unlinking leaves a valid bin with exactly the nodes of the other keys, in the same order unless a movable tree bin is rebuilt. |
| Tables.SplitChain | src/main/java/xyz/lixiangyu/source/jdk/java/util/HashMap.java:1581-1613 | The lo/hi loop builds exactly the staying and the moving nodes, each in chain order. |
| Tables.TransferBin | src/main/java/xyz/lixiangyu/source/jdk/java/util/HashMap.java:1555-1625 | Old slot `j` becomes valid bins for slots `j` and `j + oldCap` of the doubled table, holding the staying and the moving nodes (chains in order) with no node lost. |
| Tables.LoneHalves | src/main/java/xyz/lixiangyu/source/jdk/java/util/HashMap.java:1560-1565 | A lone node goes to slot `j` or slot `j + oldCap`, as its hash says. |
| Tables.TreeHalves | src/main/java/xyz/lixiangyu/source/jdk/java/util/HashMap.java:1567-1569 | A tree bin is split into two valid halves. |
| Tables.ChainHalves | src/main/java/xyz/lixiangyu/source/jdk/java/util/HashMap.java:1571-1624 | A chain is split into two valid halves. |
| Tables.LookupHalves | src/main/java/xyz/lixiangyu/source/jdk/java/util/HashMap.java:1591-1624 | A key is found in the half its hash selects, as it was in the old bin, and is absent from the other half. |
| Tables.SlotDoubles | src/main/java/xyz/lixiangyu/source/jdk/java/util/HashMap.java:1563 | A key's slot in the doubled table is its old slot, or that plus the old size. |
| Tables.ResizeRepresents | src/main/java/xyz/lixiangyu/source/jdk/java/util/HashMap.java:1548-1628 | A doubled table holding the halves of every old slot stands for the same map. |
| Tables.ResizeTable | src/main/java/xyz/lixiangyu/source/jdk/java/util/HashMap.java:1548-1628 | A completed transfer yields a valid table for the same map with the same number of nodes. |
| Tables.SplitKeepsTotal | src/main/java/xyz/lixiangyu/source/jdk/java/util/HashMap.java:1548-1628 | A completed transfer loses no node. |
| Tables.TreeifySlot | src/main/java/xyz/lixiangyu/source/jdk/java/util/HashMap.java:1655-1688 | Replacing a slot by a tree bin of its nodes keeps the table valid, the same map and the same count. |
| Tables.PutSlot | src/main/java/xyz/lixiangyu/source/jdk/java/util/HashMap.java:1276-1304 | Linking a new key's node into its slot adds exactly that key to the map and one node to the count. |
| Tables.RemoveSlot | src/main/java/xyz/lixiangyu/source/jdk/java/util/HashMap.java:1450-1467 | Unlinking a present key's node removes exactly that key and one node. |
| Tables.LookupWithout | src/main/java/xyz/lixiangyu/source/jdk/java/util/HashMap.java:1456-1461 | After a key is unlinked from a list, the key is absent and every other key is found as before. |
| Tables.SetSlot | src/main/java/xyz/lixiangyu/source/jdk/java/util/HashMap.java:1322-1328 | Overwriting a present key's value changes the map at that key only. |
| Tables.RevalueBinOk | src/main/java/xyz/lixiangyu/source/jdk/java/util/HashMap.java:1087-1089 | Rewriting values keeps a bin valid in its slot. |
| Tables.RevalueTable | src/main/java/xyz/lixiangyu/source/jdk/java/util/HashMap.java:1084-1090 | Rewriting every node's value rewrites every value of the map, keeping the table valid. |
| Tables.EmptyTable | src/main/java/xyz/lixiangyu/source/jdk/java/util/HashMap.java:699-701 | A table of empty slots stands for the empty map. |
| Tables.SlotLookup | src/main/java/xyz/lixiangyu/source/jdk/java/util/HashMap.java:1213-1244 | A key's slot finds exactly the map's entry for it. |
| Tables.Traversal | src/main/java/xyz/lixiangyu/source/jdk/java/util/HashMap.java:1068-1073 | A slot-by-slot traversal lists each entry of the map exactly once. |
| Tables.ValueInTable | src/main/java/xyz/lixiangyu/source/jdk/java/util/HashMap.java:712-730 | Some key holds a value exactly when some node in the table does. |
| HashMaps.TransferAll | src/main/java/xyz/lixiangyu/source/jdk/java/util/HashMap.java:1548-1628 | Every old slot is emptied and split into its pair of new slots. |
| HashMaps.MoveSlot | src/main/java/xyz/lixiangyu/source/jdk/java/util/HashMap.java:1550-1627 | One old slot is emptied and split into its pair of new slots. |
| HashMaps.HashMap.Init | src/main/java/xyz/lixiangyu/source/jdk/java/util/HashMap.java:538-540 | A map with an accepted capacity starts empty, with no table and threshold `tableSizeFor(capacity)`. |
| HashMaps.HashMap.constructor | src/main/java/xyz/lixiangyu/source/jdk/java/util/HashMap.java:556-558 | `HashMap()` starts empty, with the default load factor and threshold 0. |
| HashMaps.HashMap.New | src/main/java/xyz/lixiangyu/source/jdk/java/util/HashMap.java:524-541 | Throws `IllegalArgumentException` exactly for a negative capacity or a load factor that is not positive. Otherwise the map starts empty, with the capacity clamped to `MAXIMUM_CAPACITY` and threshold `tableSizeFor` of it. |
| HashMaps.HashMap.WithCapacity | src/main/java/xyz/lixiangyu/source/jdk/java/util/HashMap.java:549-551 | Throws `IllegalArgumentException` exactly for a negative capacity. Otherwise the map starts empty, with size and modCount 0, no table, the default load factor 0.75 and threshold `tableSizeFor` of the capacity clamped to `MAXIMUM_CAPACITY`. |
| HashMaps.HashMap.Capacity | src/main/java/xyz/lixiangyu/source/jdk/java/util/HashMap.java:1705-1715 | The table length, or before allocation the capacity the first resize will allocate. It is always a valid power of two. |
| HashMaps.HashMap.GetNode | src/main/java/xyz/lixiangyu/source/jdk/java/util/HashMap.java:1200-1244 | Returns exactly the map's node for the key. |
| HashMaps.HashMap.Get | src/main/java/xyz/lixiangyu/source/jdk/java/util/HashMap.java:614-619 | The value of the key, or null when it is absent. |
| HashMaps.HashMap.ContainsKey | src/main/java/xyz/lixiangyu/source/jdk/java/util/HashMap.java:655-657 | True exactly when the key is present. |
| HashMaps.HashMap.ContainsValue | src/main/java/xyz/lixiangyu/source/jdk/java/util/HashMap.java:712-730 | True exactly when some key holds the value. |
| HashMaps.HashMap.Resize | src/main/java/xyz/lixiangyu/source/jdk/java/util/HashMap.java:1491-1632 | The map, size and modCount are unchanged. The new length and threshold are those of the sizing rule: pinned at the maximum with threshold `Integer.MAX_VALUE`, or a fresh table of the next capacity and threshold into which every old slot was split. A first allocation leaves every slot empty. |
| HashMaps.HashMap.TreeifyBin | src/main/java/xyz/lixiangyu/source/jdk/java/util/HashMap.java:1641-1689 | The map is unchanged. A table below `MIN_TREEIFY_CAPACITY` doubles, with the length and threshold of the sizing rule. Otherwise only the hash's slot changes, becoming a tree bin of the same nodes when it is not empty. |
| HashMaps.HashMap.PutVal | src/main/java/xyz/lixiangyu/source/jdk/java/util/HashMap.java:1256-1352 | For a present key: returns the old value, keeps the table, threshold, size and modCount, and overwrites the value unless `onlyIfAbsent` is set and the old value is non-null. For a new key: returns null, adds the entry, increments size and modCount, and leaves exactly the table length and threshold of the sizing rule: a first allocation, a resize by `treeifyBin` when a long chain sits in a small table, and a resize when the new size exceeds the threshold. |
| HashMaps.HashMap.PutInTable | src/main/java/xyz/lixiangyu/source/jdk/java/util/HashMap.java:1269-1351 | The same as `PutVal` on an allocated table, stated against the old table's length, threshold and key slot. |
| HashMaps.HashMap.UpdateExisting | src/main/java/xyz/lixiangyu/source/jdk/java/util/HashMap.java:1321-1334 | Returns the present key's old value, and overwrites it unless `onlyIfAbsent` is set and the old value is non-null. Only the map and the table's slots may change, so size, modCount, threshold and the table array stay. |
| HashMaps.HashMap.AddEntry | src/main/java/xyz/lixiangyu/source/jdk/java/util/HashMap.java:1307-1351 | The new key's bin is stored, size and modCount go up by one, and the table length and threshold are those of the sizing rule for the old slot. The table array is kept when there is neither a treeify-resize nor a size above the threshold. |
| HashMaps.HashMap.SetValue | src/main/java/xyz/lixiangyu/source/jdk/java/util/HashMap.java:1322-1328 | The present key's value is overwritten in its slot. |
| HashMaps.HashMap.InsertNode | src/main/java/xyz/lixiangyu/source/jdk/java/util/HashMap.java:1276-1304 | The new key's bin is stored in its slot and the key is added to the map. |
| HashMaps.HashMap.Put | src/main/java/xyz/lixiangyu/source/jdk/java/util/HashMap.java:635-637 | Returns the previous value or null, and the key then maps to the value. A present key keeps table, threshold, size and modCount. A new key adds one to size and modCount and leaves the sizing rule's table length and threshold. |
| HashMaps.HashMap.PutIfAbsent | src/main/java/xyz/lixiangyu/source/jdk/java/util/HashMap.java:816-818 | Returns the previous value or null, and a present non-null value is kept. Size, modCount, table and threshold change as for `put`. |
| HashMaps.HashMap.Replace | src/main/java/xyz/lixiangyu/source/jdk/java/util/HashMap.java:859-870 | Only a present key's value is overwritten, and the old value is returned. Table, threshold, size and modCount are unchanged. |
| HashMaps.HashMap.ReplaceIf | src/main/java/xyz/lixiangyu/source/jdk/java/util/HashMap.java:832-845 | Succeeds exactly when the key holds the old value, and then sets the new one. Table, threshold, size and modCount are unchanged. |
| HashMaps.HashMap.RemoveNode | src/main/java/xyz/lixiangyu/source/jdk/java/util/HashMap.java:1401-1479 | Removes and returns the key's node exactly when the key is present and, if `matchValue` is set, holds the value. Size then goes down and modCount up by one, and only the key's slot changes, keeping the same other nodes. Otherwise nothing changes. Table and threshold are never replaced. When not `movable`, the slot keeps the other nodes in their order. |
| HashMaps.HashMap.RemoveEntry | src/main/java/xyz/lixiangyu/source/jdk/java/util/HashMap.java:1450-1467 | The unlinked bin is stored, the key is gone, size goes down and modCount up. Table and threshold are kept. |
| HashMaps.HashMap.DeleteNode | src/main/java/xyz/lixiangyu/source/jdk/java/util/HashMap.java:1452-1462 | The unlinked bin is stored and the key is removed from the map. |
| HashMaps.HashMap.Remove | src/main/java/xyz/lixiangyu/source/jdk/java/util/HashMap.java:666-669 | Returns the removed value or null, and the key is absent afterwards. modCount goes up exactly when the key was present; table and threshold are kept. |
| HashMaps.HashMap.RemoveIf | src/main/java/xyz/lixiangyu/source/jdk/java/util/HashMap.java:679-681 | Removes the key exactly when it holds the value, and modCount goes up exactly then. Table and threshold are kept. |
| HashMaps.HashMap.Clear | src/main/java/xyz/lixiangyu/source/jdk/java/util/HashMap.java:686-703 | The map is empty, modCount goes up, and the table keeps its length with every slot empty. |
| HashMaps.HashMap.ForEach | src/main/java/xyz/lixiangyu/source/jdk/java/util/HashMap.java:1064-1077 | The action is handed every entry exactly once, in table order. |
| HashMaps.HashMap.ReplaceAll | src/main/java/xyz/lixiangyu/source/jdk/java/util/HashMap.java:1080-1094 | Every value becomes `function(key, value)`. The table and threshold stay, and size and modCount are unchanged. |
| Iterators.Scan | src/main/java/xyz/lixiangyu/source/jdk/java/util/HashMap.java:1876-1877 | The scan stops at the first non-empty slot, and the slots it skips hold no node. |
| Iterators.Advance | src/main/java/xyz/lixiangyu/source/jdk/java/util/HashMap.java:1892-1895 | Moving past the returned node leaves exactly the nodes after it still to come. |
| Iterators.ScanRest | src/main/java/xyz/lixiangyu/source/jdk/java/util/HashMap.java:1892-1895 | At the end of a bin, the next non-empty slot starts the rest of the walk. |
| Iterators.UnlinkCurrent | src/main/java/xyz/lixiangyu/source/jdk/java/util/HashMap.java:1905-1907 | Removing the current node deletes its key and counts one modification, and the walk still has the same nodes to come. |
| Iterators.WalkAfterRemove | src/main/java/xyz/lixiangyu/source/jdk/java/util/HashMap.java:1905-1907 | Unlinking the last returned node leaves the position of the walk valid, with the same nodes to come. |
| Iterators.HashIterator.constructor | src/main/java/xyz/lixiangyu/source/jdk/java/util/HashMap.java:1870-1879 | A new iterator records modCount and will return every node of the table, slot by slot. |
| Iterators.HashIterator.HasNext | src/main/java/xyz/lixiangyu/source/jdk/java/util/HashMap.java:1881-1883 | True exactly when nodes remain. |
| Iterators.HashIterator.NextNode | src/main/java/xyz/lixiangyu/source/jdk/java/util/HashMap.java:1885-1897 | Throws `ConcurrentModificationException` after a foreign modification, and `NoSuchElementException` at the end. Otherwise it returns the next remaining node and drops it from the remaining ones. |
| Iterators.HashIterator.Remove | src/main/java/xyz/lixiangyu/source/jdk/java/util/HashMap.java:1899-1909 | Throws `IllegalStateException` without a current node and `ConcurrentModificationException` after a foreign modification. Otherwise it removes the current key, adopts the new modCount, and keeps the nodes still to come. |

## Left out

- Serialization (`writeObject`, `readObject`, `internalWriteEntries`), `clone`,
  `getMapInfo` and other debugging output are not modelled: they are I/O, or
  copies that add no behaviour of the table.
- `putAll`/`putMapEntries`, the `compute*` and `merge` families, `getOrDefault`
  and the key, value and entry views with their spliterators are not modelled.
  They are built from the modelled operations, and their callbacks are foreign
  code.
- The `KeyIterator`, `ValueIterator` and `EntryIterator` subclasses are not
  modelled: each only projects `nextNode()`.
- `Object.java` and the other supporting classes are not part of this model.
  The key's `hashCode`, `comparableClassFor` with `compareComparables`, and
  `tieBreakOrder` are the `KeyOps` functions. Key equality (`==` or
  `equals`) and value equality are Dafny equality on `K` and `V`.
- The load factor is a mathematical real. Float rounding of `newCap * loadFactor`
  and the NaN check of the constructor are not modelled (NaN cannot occur).
- `size` and `modCount` are unbounded integers. Their 32-bit wrap-around after
  2^31 operations is not modelled.
- Nulls passed for `action` or `function` (the `NullPointerException` of
  `forEach` and `replaceAll`) are not modelled. The callbacks are pure
  functions, so the `modCount` check after the loop cannot fail and is left
  out too.
- The `newNode`/`replacementNode`/`newTreeNode` factories and the
  `afterNodeAccess`/`afterNodeInsertion`/`afterNodeRemoval` hooks are left out.
  They exist for `LinkedHashMap` and do nothing in `HashMap`; `evict` is
  therefore not a parameter of `PutVal`.
- `TreeNode.root()` and all `parent` links are replaced by the root value and
  the zipper path. Aliasing between node objects is not modelled: a node is a
  value, and a key's node is identified by its key.
- TreeBins.CheckInvariants models only the ordering and red-children checks of
  `checkInvariants`. The `prev`/`next`/`parent` agreement it also checks holds
  by construction.
- RedBlack.BalanceInsertion and RedBlack.BalanceDeletion keep the in-order
  sequence, a black root and the leaf to be detached. That red nodes have no
  red children and that black heights stay equal is not proved: lookups and
  the map's contents depend only on the order.
- TreeBins.Find is proved complete only for a tree sorted in tree order, with
  hashes matching their keys. On other trees it is proved only sound.
- Hashing.TableSizeForSmallest requires `cap >= 0`. A negative capacity gives
  1 (`TableSizeForNegative`), except `Integer.MIN_VALUE`, which gives
  `MAXIMUM_CAPACITY` (`TableSizeForMinValue`).
- Iterators.HashIterator.Remove is proved to keep the walk positioned. Other
  map operations that leave `modCount` unchanged (`replace`, an overwriting
  `put`) are not proved to keep a live iterator positioned. They do not move
  nodes, but that proof is left out.
- HashMaps.HashMap.TreeifyBin requires a non-null table, because the source's
  `tab == null` test is unreachable.
- HashMaps.HashMap.RemoveNode: that a second identical call returns null is
  not stated separately. It follows from the first call's `Contents - {key}`
  and the `r.Some?` condition.
