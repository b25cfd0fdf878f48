/**
 * The B-tree sort validator: a node holds keys and a list of possibly-null
 * children; the tree is valid exactly when its keys, read in order, are
 * strictly increasing.
 */
module AmazonBTree {
  import opened Wrappers
  import opened StrictOrder

  /** A node: its keys in left-to-right order and its child slots (`None` for a null child). */
  datatype Node = Node(keys: seq<int>, children: seq<Option<Node>>)

  /** The tree object: a root that may be null. */
  datatype Tree = Tree(root: Option<Node>)

  // ---------------------------------------------------------------------------
  // Child lookups
  // ---------------------------------------------------------------------------

  /** getLeftSubtree: the child left of key `index`, absent past the end of the children list. */
  function LeftSubtree(n: Node, index: nat): (r: Option<Node>)
    ensures r.Some? <==> index < |n.children| && n.children[index].Some?
    ensures r.Some? ==> r == n.children[index]
  {
    if index >= |n.children| then None else n.children[index]
  }

  /**
   * The indices for which getRightSubtree does not fault. Its guard tests
   * `index > children.size()` but then reads slot `index + 1`, so it faults
   * when the list has exactly `index` or `index + 1` entries.
   */
  predicate RightDefined(n: Node, index: int) {
    index > |n.children| || 0 <= index + 1 < |n.children|
  }

  /** getRightSubtree: wherever it does not fault, the right subtree of key `index` is the left subtree of key `index + 1`. */
  function RightSubtree(n: Node, index: int): (r: Option<Node>)
    requires RightDefined(n, index)
    ensures index >= -1 && r == LeftSubtree(n, index + 1)
  {
    if index > |n.children| then None else n.children[index + 1]
  }

  // ---------------------------------------------------------------------------
  // The in-order key sequence (what "sorted" means)
  // ---------------------------------------------------------------------------

  /** All keys of the subtree at `n` in order: child 0, key 0, child 1, ..., key m-1, child m (m = |keys|). */
  function InOrder(n: Node): seq<int>
    decreases n, 2, 0
  {
    InOrderFrom(n, 0)
  }

  /** The in-order keys of child slots `i`..m and keys `i`..m-1; slots beyond m are never visited. */
  function InOrderFrom(n: Node, i: nat): seq<int>
    requires i <= |n.keys|
    decreases n, 1, |n.keys| - i
  {
    SlotInOrder(n, i) + (if i == |n.keys| then [] else [n.keys[i]] + InOrderFrom(n, i + 1))
  }

  /** The in-order keys of child slot `i`: nothing for a missing or null child. */
  function SlotInOrder(n: Node, i: nat): seq<int>
    decreases n, 0, 0
  {
    match LeftSubtree(n, i)
    case None => []
    case Some(c) => InOrder(c)
  }

  // ---------------------------------------------------------------------------
  // First and last key
  // ---------------------------------------------------------------------------

  /** getFirstKey does not fault: the left-most spine ends at a node that has a key. */
  predicate FirstKeyDefined(n: Node)
    decreases n
  {
    match LeftSubtree(n, 0)
    case Some(c) => FirstKeyDefined(c)
    case None => |n.keys| > 0
  }

  /** getFirstKey: follow child 0 while it is present, then take key 0; this is the first in-order key. */
  function FirstKey(n: Node): (r: int)
    requires FirstKeyDefined(n)
    ensures |InOrder(n)| > 0 && r == InOrder(n)[0]
    decreases n
  {
    var rest := if |n.keys| == 0 then [] else [n.keys[0]] + InOrderFrom(n, 1);
    assert InOrder(n) == SlotInOrder(n, 0) + rest;
    match LeftSubtree(n, 0)
    case Some(c) => FirstKey(c)
    case None => n.keys[0]
  }

  /**
   * getLastKey does not fault: every lookup of the right subtree of the last
   * key (index -1 on a node without keys) is in range, and the right-most
   * spine ends at a node that has a key.
   */
  predicate LastKeyDefined(n: Node)
    decreases n
  {
    RightDefined(n, |n.keys| - 1) &&
    match RightSubtree(n, |n.keys| - 1)
    case Some(c) => LastKeyDefined(c)
    case None => |n.keys| > 0
  }

  /** getLastKey: follow the right subtree of the last key while present, then take the last key; this is the last in-order key. */
  function LastKey(n: Node): (r: int)
    requires LastKeyDefined(n)
    ensures |InOrder(n)| > 0 && r == InOrder(n)[|InOrder(n)| - 1]
    decreases n
  {
    match RightSubtree(n, |n.keys| - 1)
    case Some(c) =>
      (if |n.keys| == 0 then
         assert InOrder(n) == SlotInOrder(n, 0) + [];
         LastKey(c)
       else
         InOrderEndsWithLastSlot(n, 0);
         assert SlotInOrder(n, |n.keys|) == InOrder(c);
         LastKey(c))
    case None =>
      InOrderEndsWithLastSlot(n, 0);
      n.keys[|n.keys| - 1]
  }

  /** For a node with keys, every suffix of its in-order sequence ends like `[last key] + last slot`. */
  lemma {:induction false} InOrderEndsWithLastSlot(n: Node, i: nat)
    requires i < |n.keys|
    ensures var s := InOrderFrom(n, i);
      var t := [n.keys[|n.keys| - 1]] + SlotInOrder(n, |n.keys|);
      |s| >= |t| && s[|s| - |t|..] == t
    decreases |n.keys| - i
  {
    var m := |n.keys|;
    var t := [n.keys[m - 1]] + SlotInOrder(n, m);
    if i == m - 1 {
      assert InOrderFrom(n, m) == SlotInOrder(n, m);
      assert InOrderFrom(n, i) == SlotInOrder(n, i) + t;
    } else {
      InOrderEndsWithLastSlot(n, i + 1);
      var r := InOrderFrom(n, i + 1);
      var p := SlotInOrder(n, i) + [n.keys[i]];
      assert InOrderFrom(n, i) == p + r;
      assert (p + r)[|p + r| - |t|..] == r[|r| - |t|..];
    }
  }

  // ---------------------------------------------------------------------------
  // When validation cannot fault
  // ---------------------------------------------------------------------------

  /**
   * isSorted on `n` raises no exception: if `n` has keys, the right-subtree
   * lookup of its last key is in range, and every child it visits (slots
   * 0..|keys|) supports getFirstKey, getLastKey and, recursively, isSorted.
   * A node without keys visits nothing.
   */
  predicate Checkable(n: Node)
    decreases n
  {
    (|n.keys| > 0 ==> RightDefined(n, |n.keys| - 1)) &&
    forall i :: 0 <= i < |n.children| && i <= |n.keys| && |n.keys| > 0 && n.children[i].Some? ==>
      Checkable(n.children[i].value) && FirstKeyDefined(n.children[i].value) && LastKeyDefined(n.children[i].value)
  }

  /** Every node the validation visits, the root included, has at least one key. */
  predicate KeyedNodes(n: Node)
    decreases n
  {
    |n.keys| > 0 &&
    forall i :: 0 <= i < |n.children| && i <= |n.keys| && n.children[i].Some? ==> KeyedNodes(n.children[i].value)
  }

  /** The trees about which isSorted is meant to answer "is the in-order sequence increasing". */
  predicate WellFormed(n: Node) {
    Checkable(n) && KeyedNodes(n)
  }

  // ---------------------------------------------------------------------------
  // The validation, as `Node.isSorted`'s loop computes it
  // ---------------------------------------------------------------------------

  /** What isSorted returns for `n`. */
  predicate Sorted(n: Node)
    requires Checkable(n)
    decreases n, 2, 0
  {
    SortedFrom(n, 0)
  }

  /** The loop of isSorted run from key index `i` to the end. */
  predicate SortedFrom(n: Node, i: nat)
    requires Checkable(n) && i <= |n.keys|
    decreases n, 1, |n.keys| - i
  {
    i == |n.keys| || (KeyChecks(n, i) && SortedFrom(n, i + 1))
  }

  /** The checks one iteration of the loop makes at key index `i`. */
  predicate KeyChecks(n: Node, i: nat)
    requires Checkable(n) && i < |n.keys|
    decreases n, 0, 1
  {
    LeftChecks(n, i) && (i == |n.keys| - 1 ==> RightChecks(n))
  }

  /** The checks against the left subtree of key `i`, or against key `i - 1` when there is none. */
  predicate LeftChecks(n: Node, i: nat)
    requires Checkable(n) && i < |n.keys|
    decreases n, 0, 0
  {
    match LeftSubtree(n, i)
    case Some(left) =>
      Sorted(left) && LastKey(left) < n.keys[i] && (i > 0 ==> FirstKey(left) > n.keys[i - 1])
    case None =>
      i > 0 ==> n.keys[i] > n.keys[i - 1]
  }

  /** The checks against the right subtree of the last key, when there is one. */
  predicate RightChecks(n: Node)
    requires Checkable(n) && |n.keys| > 0
    decreases n, 0, 0
  {
    match RightSubtree(n, |n.keys| - 1)
    case Some(right) => Sorted(right) && FirstKey(right) > n.keys[|n.keys| - 1]
    case None => true
  }

  /** Node.isSorted: scan the keys left to right and return false at the first failed check. */
  method IsSorted(n: Node) returns (sorted: bool)
    requires Checkable(n)
    ensures sorted == Sorted(n)
    ensures WellFormed(n) ==> (sorted <==> StrictlyIncreasing(InOrder(n)))
    decreases n
  {
    assert WellFormed(n) ==> (Sorted(n) <==> StrictlyIncreasing(InOrder(n))) by {
      if WellFormed(n) {
        SortedIffInOrderIncreasing(n);
      }
    }
    var i := 0;
    while i < |n.keys|
      invariant 0 <= i <= |n.keys|
      invariant Sorted(n) == SortedFrom(n, i)
    {
      assert SortedFrom(n, i) ==
        (LeftChecks(n, i) && (i == |n.keys| - 1 ==> RightChecks(n)) && SortedFrom(n, i + 1));
      var thisKey := n.keys[i];
      var leftSubtree := LeftSubtree(n, i);
      if leftSubtree.Some? {
        var leftSorted := IsSorted(leftSubtree.value);
        if !leftSorted {
          return false;
        } else if LastKey(leftSubtree.value) >= thisKey {
          return false;
        } else if i > 0 && FirstKey(leftSubtree.value) <= n.keys[i - 1] {
          return false;
        }
      } else {
        if i > 0 && thisKey <= n.keys[i - 1] {
          return false;
        }
      }
      if i == |n.keys| - 1 {
        var rightSubtree := RightSubtree(n, i);
        if rightSubtree.Some? {
          var rightSorted := IsSorted(rightSubtree.value);
          if !rightSorted {
            return false;
          } else if FirstKey(rightSubtree.value) <= thisKey {
            return false;
          }
        }
      }
      i := i + 1;
    }
    return true;
  }

  /** The in-order keys of a tree; an empty tree has none. */
  function TreeInOrder(t: Tree): seq<int> {
    match t.root
    case None => []
    case Some(n) => InOrder(n)
  }

  /** AmazonBTree.IsSorted: a null root is sorted; otherwise ask the root. */
  method TreeIsSorted(t: Tree) returns (sorted: bool)
    requires t.root.Some? ==> Checkable(t.root.value)
    ensures t.root.None? ==> sorted
    ensures t.root.Some? ==> sorted == Sorted(t.root.value)
    ensures (t.root.Some? ==> WellFormed(t.root.value)) ==> (sorted <==> StrictlyIncreasing(TreeInOrder(t)))
  {
    if t.root.None? {
      return true;
    } else {
      sorted := IsSorted(t.root.value);
    }
  }

  // ---------------------------------------------------------------------------
  // Soundness and completeness
  // ---------------------------------------------------------------------------

  /** On a well-formed tree, isSorted holds exactly when the in-order keys strictly increase. */
  lemma {:induction false} SortedIffInOrderIncreasing(n: Node)
    requires WellFormed(n)
    ensures Sorted(n) <==> StrictlyIncreasing(InOrder(n))
    decreases n, 1, 0, 0
  {
    SortedFromIffSuffixIncreasing(n, 0);
  }

  /**
   * The loop from key `i` succeeds exactly when the in-order keys from slot
   * `i` on strictly increase and start above key `i - 1`.
   */
  lemma {:induction false} SortedFromIffSuffixIncreasing(n: Node, i: nat)
    requires WellFormed(n) && i < |n.keys|
    ensures |InOrderFrom(n, i)| > 0
    ensures SortedFrom(n, i) <==>
      StrictlyIncreasing(InOrderFrom(n, i)) && (i > 0 ==> n.keys[i - 1] < InOrderFrom(n, i)[0])
    decreases n, 0, |n.keys| - i, 1
  {
    var k := n.keys[i];
    var s := SlotInOrder(n, i);
    var r := InOrderFrom(n, i + 1);
    assert InOrderFrom(n, i) == s + ([k] + r);
    SplitAtKey(s, k, r);
    LeftChecksIffSlotIncreasing(n, i);
    RestOfScanIffTailIncreasing(n, i);
  }

  /**
   * After the checks against the left slot of key `i`, the scan goes on to
   * key `i + 1`, or at the last key checks the right subtree; that succeeds
   * exactly when the in-order keys after key `i` increase and lie above it.
   */
  lemma {:induction false} RestOfScanIffTailIncreasing(n: Node, i: nat)
    requires WellFormed(n) && i < |n.keys|
    ensures var r := InOrderFrom(n, i + 1);
      SortedFrom(n, i) == (LeftChecks(n, i) && (if i < |n.keys| - 1 then SortedFrom(n, i + 1) else RightChecks(n))) &&
      ((if i < |n.keys| - 1 then SortedFrom(n, i + 1) else RightChecks(n)) <==>
         StrictlyIncreasing(r) && (|r| > 0 ==> n.keys[i] < r[0]))
    decreases n, 0, |n.keys| - i, 0
  {
    var m := |n.keys|;
    var r := InOrderFrom(n, i + 1);
    if i < m - 1 {
      SortedFromIffSuffixIncreasing(n, i + 1);
      assert |r| > 0 && (SortedFrom(n, i + 1) <==> StrictlyIncreasing(r) && n.keys[i] < r[0]);
    } else {
      RightChecksIffLastSlotIncreasing(n);
      assert r == SlotInOrder(n, m);
    }
  }

  /** The checks at key `i` against its left slot hold exactly when that slot's keys increase and fit between keys `i - 1` and `i`. */
  lemma {:induction false} LeftChecksIffSlotIncreasing(n: Node, i: nat)
    requires WellFormed(n) && i < |n.keys|
    ensures var s := SlotInOrder(n, i);
      LeftChecks(n, i) <==>
        StrictlyIncreasing(s) && (|s| > 0 ==> s[|s| - 1] < n.keys[i]) &&
        (i > 0 ==> n.keys[i - 1] < (if |s| > 0 then s[0] else n.keys[i]))
    decreases n, 0, 0, 0
  {
    match LeftSubtree(n, i) {
      case Some(c) =>
        ChildWellFormed(n, i);
        SortedIffInOrderIncreasing(c);
      case None =>
    }
  }

  /** The checks against the right subtree of the last key hold exactly when the last slot's keys increase and lie above that key. */
  lemma {:induction false} RightChecksIffLastSlotIncreasing(n: Node)
    requires WellFormed(n)
    ensures var r := SlotInOrder(n, |n.keys|);
      RightChecks(n) <==> StrictlyIncreasing(r) && (|r| > 0 ==> n.keys[|n.keys| - 1] < r[0])
    decreases n, 0, 0, 0
  {
    var m := |n.keys|;
    assert RightSubtree(n, m - 1) == LeftSubtree(n, m);
    match LeftSubtree(n, m) {
      case Some(c) =>
        ChildWellFormed(n, m);
        SortedIffInOrderIncreasing(c);
      case None =>
    }
  }

  /** A child that the validation visits is well-formed when its parent is. */
  lemma ChildWellFormed(n: Node, i: nat)
    requires WellFormed(n) && i <= |n.keys| && LeftSubtree(n, i).Some?
    ensures WellFormed(LeftSubtree(n, i).value)
  {
  }

  /** On a well-formed sorted tree the first key is at most the last key. */
  lemma FirstKeyAtMostLastKey(n: Node)
    requires WellFormed(n) && Sorted(n)
    ensures FirstKeyDefined(n) && LastKeyDefined(n)
    ensures FirstKey(n) <= LastKey(n)
  {
    SortedIffInOrderIncreasing(n);
  }

  /**
   * Where key `i` has a left subtree, isSorted never compares key `i` with key
   * `i - 1` directly; the subtree checks already force them into order.
   */
  lemma PresentLeftSubtreeOrdersKeys(n: Node, i: nat)
    requires WellFormed(n) && 0 < i < |n.keys| && LeftSubtree(n, i).Some?
    requires Sorted(LeftSubtree(n, i).value)
    requires LastKey(LeftSubtree(n, i).value) < n.keys[i]
    requires FirstKey(LeftSubtree(n, i).value) > n.keys[i - 1]
    ensures n.keys[i - 1] < n.keys[i]
  {
    ChildWellFormed(n, i);
    FirstKeyAtMostLastKey(LeftSubtree(n, i).value);
  }

  /** On a well-formed sorted tree the first key is the smallest key of the subtree and the last key the largest. */
  lemma FirstAndLastKeyBound(n: Node)
    requires WellFormed(n) && Sorted(n)
    ensures FirstKeyDefined(n) && LastKeyDefined(n)
    ensures forall x :: x in InOrder(n) ==> FirstKey(n) <= x <= LastKey(n)
  {
    SortedIffInOrderIncreasing(n);
    var s := InOrder(n);
    forall x | x in s ensures FirstKey(n) <= x <= LastKey(n) {
      var j :| 0 <= j < |s| && s[j] == x;
      assert s[0] <= s[j] <= s[|s| - 1];
    }
  }

  // ---------------------------------------------------------------------------
  // The checks one at a time
  // ---------------------------------------------------------------------------

  /** isSorted succeeds exactly when every key index passes its checks. */
  lemma SortedIffEveryKeyPasses(n: Node)
    requires Checkable(n)
    ensures Sorted(n) <==> forall i: nat :: i < |n.keys| ==> KeyChecks(n, i)
  {
    SortedFromIffRestPass(n, 0);
  }

  /** The loop from key `i` succeeds exactly when every later key index passes its checks. */
  lemma {:induction false} SortedFromIffRestPass(n: Node, i: nat)
    requires Checkable(n) && i <= |n.keys|
    ensures SortedFrom(n, i) <==> forall j: nat :: i <= j < |n.keys| ==> KeyChecks(n, j)
    decreases |n.keys| - i
  {
    if SortedFrom(n, i) {
      forall j: nat | i <= j < |n.keys|
        ensures KeyChecks(n, j)
      {
        SortedFromPasses(n, i, j);
      }
    } else if KeyChecks(n, i) {
      SortedFromIffRestPass(n, i + 1);
      var j: nat :| i + 1 <= j < |n.keys| && !KeyChecks(n, j);
      assert i <= j < |n.keys| && !KeyChecks(n, j);
    } else {
      var j: nat := i;
      assert i <= j < |n.keys| && !KeyChecks(n, j);
    }
  }

  /** A successful loop from key `j` passes the checks of every key index from `j` on. */
  lemma {:induction false} SortedFromPasses(n: Node, j: nat, i: nat)
    requires Checkable(n) && j <= i < |n.keys| && SortedFrom(n, j)
    ensures KeyChecks(n, i)
    decreases i - j
  {
    if j < i {
      SortedFromPasses(n, j + 1, i);
    }
  }

  /** A present left subtree that is unsorted, reaches up to key `i`, or reaches down to key `i - 1` makes the node unsorted. */
  lemma FailsOnBadLeftSubtree(n: Node, i: nat)
    requires Checkable(n) && i < |n.keys| && LeftSubtree(n, i).Some?
    requires var c := LeftSubtree(n, i).value;
      !Sorted(c) || LastKey(c) >= n.keys[i] || (i > 0 && FirstKey(c) <= n.keys[i - 1])
    ensures !Sorted(n)
  {
    if Sorted(n) {
      SortedFromPasses(n, 0, i);
    }
  }

  /** Without a left subtree, a key not above its predecessor makes the node unsorted. */
  lemma FailsOnOutOfOrderKey(n: Node, i: nat)
    requires Checkable(n) && 0 < i < |n.keys| && LeftSubtree(n, i).None?
    requires n.keys[i] <= n.keys[i - 1]
    ensures !Sorted(n)
  {
    if Sorted(n) {
      SortedFromPasses(n, 0, i);
    }
  }

  /** A present right subtree of the last key that is unsorted or reaches down to that key makes the node unsorted. */
  lemma FailsOnBadRightSubtree(n: Node)
    requires Checkable(n) && |n.keys| > 0 && RightSubtree(n, |n.keys| - 1).Some?
    requires var c := RightSubtree(n, |n.keys| - 1).value;
      !Sorted(c) || FirstKey(c) <= n.keys[|n.keys| - 1]
    ensures !Sorted(n)
  {
    if Sorted(n) {
      SortedFromPasses(n, 0, |n.keys| - 1);
    }
  }

  // ---------------------------------------------------------------------------
  // Special shapes
  // ---------------------------------------------------------------------------

  /** A node without keys is sorted: the loop never runs, whatever its children. */
  lemma KeylessNodeSorted(n: Node)
    requires |n.keys| == 0
    ensures Checkable(n) && Sorted(n)
  {
  }

  /** A leaf (no child present) that does not fault is sorted exactly when its keys strictly increase. */
  lemma LeafSortedIffKeysIncreasing(n: Node)
    requires forall i :: 0 <= i < |n.children| ==> n.children[i].None?
    requires |n.keys| > 0 ==> RightDefined(n, |n.keys| - 1)
    ensures Checkable(n)
    ensures Sorted(n) <==> StrictlyIncreasing(n.keys)
  {
    if |n.keys| > 0 {
      assert WellFormed(n);
      SortedIffInOrderIncreasing(n);
      LeafInOrder(n, 0);
      assert n.keys[0..] == n.keys;
    }
  }

  /** The in-order keys of a leaf are its own keys. */
  lemma {:induction false} LeafInOrder(n: Node, i: nat)
    requires forall j :: 0 <= j < |n.children| ==> n.children[j].None?
    requires i <= |n.keys|
    ensures InOrderFrom(n, i) == n.keys[i..]
    decreases |n.keys| - i
  {
    assert SlotInOrder(n, i) == [];
    if i < |n.keys| {
      LeafInOrder(n, i + 1);
      assert n.keys[i..] == [n.keys[i]] + n.keys[i + 1..];
    }
  }
}
