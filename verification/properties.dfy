/** Properties of whole call sequences on the tree. */
module BstProperties {
  import opened BstTree
  import opened BstSearch
  import opened BstDelete
  import opened BstLifecycle

  /** A repeated insertion of the same value fails and leaves the tree, and
      so its size, as the first insertion left it. */
  lemma AddNodeTwice(t: Tree, v: int)
    requires Ordered(t)
    ensures var t1 := AddNode(t, v).0;
      AddNode(t1, v) == (t1, false) && Size(t1) == Size(t) + (if v in Values(t) then 0 else 1)
  {
  }

  /** After a successful deletion the value can no longer be found. */
  lemma DeleteThenAbsent(t: Tree, v: int)
    requires Ordered(t)
    ensures FindNode(DeleteNode(t, v).0, v).None?
  {
  }

  /** The tree [25, 10, 50, 7, 15, 53] builds by successive insertion. */
  function ScenarioTree(): Tree {
    Node(Node(Node(Leaf, 7, Leaf), 10, Node(Leaf, 15, Leaf)), 25, Node(Leaf, 50, Node(Leaf, 53, Leaf)))
  }

  /** Inserting 25, 10, 50, 7, 15, 53 in turn builds `ScenarioTree`. */
  lemma BuildScenario()
    ensures FromList([25, 10, 50, 7, 15, 53]) == ScenarioTree()
    ensures Size(ScenarioTree()) == 6
  {
    var t1 := Node(Leaf, 25, Leaf);
    var t2 := Node(Node(Leaf, 10, Leaf), 25, Leaf);
    var t3 := Node(Node(Leaf, 10, Leaf), 25, Node(Leaf, 50, Leaf));
    var t4 := Node(Node(Node(Leaf, 7, Leaf), 10, Leaf), 25, Node(Leaf, 50, Leaf));
    var t5 := Node(Node(Node(Leaf, 7, Leaf), 10, Node(Leaf, 15, Leaf)), 25, Node(Leaf, 50, Leaf));
    assert AddNode(t1, 10).0 == t2 by { AddNodeStep(Leaf, 25, Leaf, 10); }
    assert AddNode(t2, 50).0 == t3 by { AddNodeStep(Node(Leaf, 10, Leaf), 25, Leaf, 50); }
    assert AddNode(t3, 7).0 == t4 by {
      AddNodeStep(Node(Leaf, 10, Leaf), 25, Node(Leaf, 50, Leaf), 7);
      AddNodeStep(Leaf, 10, Leaf, 7);
    }
    assert AddNode(t4, 15).0 == t5 by {
      AddNodeStep(Node(Node(Leaf, 7, Leaf), 10, Leaf), 25, Node(Leaf, 50, Leaf), 15);
      AddNodeStep(Node(Leaf, 7, Leaf), 10, Leaf, 15);
    }
    assert AddNode(t5, 53).0 == ScenarioTree() by {
      AddNodeStep(t5.left, 25, Node(Leaf, 50, Leaf), 53);
      AddNodeStep(Leaf, 50, Leaf, 53);
    }
    InsertAllFront(Leaf, 25, [10, 50, 7, 15, 53]);
    InsertAllFront(t1, 10, [50, 7, 15, 53]);
    InsertAllFront(t2, 50, [7, 15, 53]);
    InsertAllFront(t3, 7, [15, 53]);
    InsertAllFront(t4, 15, [53]);
    InsertAllFront(t5, 53, []);
  }

  /** In that tree the node promoted for 25 is 15, the rightmost node of the
      subtree rooted at 10; deleting 25 leaves 15 in the root, five nodes,
      and 25 no longer found. */
  lemma DeleteRootScenario()
    ensures FindSuccessor(ScenarioTree(), 25) == Some([Left, Right])
    ensures At(ScenarioTree(), [Left, Right]).value == 15
    ensures var t' := DeleteNode(ScenarioTree(), 25);
      && t'.1 && t'.0.value == 15 && Size(t'.0) == 5 && FindNode(t'.0, 25).None?
  {
    var t := ScenarioTree();
    assert FindNode(t, 25) == Some([]);
    assert RightSpine(t.left) == [Right];
    assert [] + ([Left] + [Right]) == [Left, Right];
    assert Remove(t, 25) == Node(Node(Node(Leaf, 7, Leaf), 10, Leaf), 15, t.right);
  }

  /** Deleting the only node empties the tree; the empty tree finds nothing
      and deletes nothing. */
  lemma SingleNodeScenario()
    ensures DeleteNode(FromList([5]), 5) == (Leaf, true)
    ensures FindNode(Empty(), 1).None? && DeleteNode(Empty(), 1) == (Leaf, false)
  {
    InsertAllFront(Leaf, 5, []);
  }
}
