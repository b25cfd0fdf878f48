/** The trees the Java `main` builds, with the answers it expects. */
module Scenarios {
  import opened Wrappers
  import opened AmazonBTree

  /** A leaf as the Java `main` builds it: its keys and three null children. */
  function HarnessLeaf(keys: seq<int>): Node {
    Node(keys, [None, None, None])
  }

  /** The tree of keys {1, 3}: one node with three null children is sorted. */
  lemma TwoKeyLeafSorted()
    ensures Checkable(HarnessLeaf([1, 3])) && Sorted(HarnessLeaf([1, 3]))
  {
  }

  /** The top two levels of the sample B-tree: root 13 over leaves 4, 7 and 17, 24 is sorted. */
  lemma SampleTreeSorted()
    ensures var root := Node([13], [Some(HarnessLeaf([4, 7])), Some(HarnessLeaf([17, 24]))]);
      Checkable(root) && Sorted(root)
  {
  }

  /** The same tree with transposed keys (leaves 4, 13 and 7, 24) is not sorted. */
  lemma TransposedTreeNotSorted()
    ensures var root := Node([13], [Some(HarnessLeaf([4, 13])), Some(HarnessLeaf([7, 24]))]);
      Checkable(root) && !Sorted(root)
  {
  }

  /** A single key with an empty children list makes the right-subtree lookup read past the end. */
  lemma OneKeyEmptyChildrenFaults()
    ensures !RightDefined(Node([5], []), 0)
    ensures !Checkable(Node([5], []))
  {
  }

  /** Two keys with only two (null) children also make the right-subtree lookup read past the end. */
  lemma TwoKeysTwoChildrenFaults()
    ensures !RightDefined(Node([1, 3], [None, None]), 1)
    ensures !Checkable(Node([1, 3], [None, None]))
  {
  }
}
