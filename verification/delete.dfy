/** Deletion with the three-case policy of `delete_node`: a node with two
    children takes the value of its in-order predecessor (found by
    `FindSuccessor`) and the deletion moves on to the predecessor's slot; the
    final slot, holding a node with at most one child, is spliced by storing
    that node's left child if there is one, else its right child. */
module BstDelete {
  import opened BstTree
  import opened BstSearch

  /** The link that replaces node `n` when it is spliced out. */
  function Spliced(n: Tree): (r: Tree)
    requires n.Node?
    ensures (n.left.Leaf? || n.right.Leaf?) ==> Size(r) == Size(n) - 1
    ensures (n.left.Leaf? || n.right.Leaf?) && Ordered(n) ==>
      Ordered(r) && Values(r) == Values(n) - {n.value}
  {
    if n.left.Node? then n.left else n.right
  }

  /** `delete_node`, slot by slot as the source does it. */
  function DeleteNode(t: Tree, v: int): (r: (Tree, bool))
    ensures r.1 <==> FindNode(t, v).Some?
    ensures !r.1 ==> r.0 == t
    ensures r.0 == Remove(t, v)
    ensures Size(r.0) == if r.1 then Size(t) - 1 else Size(t)
    ensures Ordered(t) ==> (r.1 <==> v in Values(t))
    ensures Ordered(t) ==> Ordered(r.0) && Values(r.0) == Values(t) - {v}
  {
    match FindNode(t, v)
    case None => (t, false)
    case Some(p) =>
      var n := At(t, p);
      RemoveAtSlot(t, v);
      if n.left.Node? && n.right.Node? then
        var q := FindSuccessor(t, v).value;
        var n' := Node(n.left, At(t, q).value, n.right);
        var t1 := Replace(t, p, n');
        var q' := [Left] + RightSpine(n.left);
        assert q == p + q';
        AtAppend(t1, p, q');
        AtReplace(t, p, n');
        ReplaceAppend(t1, p, q', Spliced(At(t1, q)));
        ReplaceReplace(t, p, n', Replace(n', q', Spliced(At(n', q'))));
        AtAppend(t, p, q');
        SplicePredecessor(n);
        (Replace(t1, q, Spliced(At(t1, q))), true)
      else
        (Replace(t, p, Spliced(n)), true)
  }

  /** The reference definition: the recursive rebuild of the tree with the
      node holding `v` removed. */
  function Remove(t: Tree, v: int): (r: Tree)
    ensures FindNode(t, v).None? ==> r == t
    ensures FindNode(t, v).Some? ==> Size(r) == Size(t) - 1
    ensures Ordered(t) ==> Ordered(r) && Values(r) == Values(t) - {v}
  {
    match t
    case Leaf => Leaf
    case Node(l, x, r) =>
      if x == v then RemoveRoot(t)
      else if v < x then Node(Remove(l, v), x, r)
      else Node(l, x, Remove(r, v))
  }

  /** The subtree left when the root of `n` is deleted. */
  function RemoveRoot(n: Tree): (r: Tree)
    requires n.Node?
    ensures Size(r) == Size(n) - 1
    ensures Ordered(n) ==> Ordered(r) && Values(r) == Values(n) - {n.value}
  {
    if n.left.Node? && n.right.Node? then
      MaxIsGreatest(n.left);
      Node(RemoveMax(n.left), Max(n.left), n.right)
    else
      Spliced(n)
  }

  /** The subtree left when the rightmost node of `t` is spliced out. */
  function RemoveMax(t: Tree): (r: Tree)
    requires t.Node?
    ensures Size(r) == Size(t) - 1
    ensures Ordered(t) ==> Ordered(r) && Values(r) == Values(t) - {Max(t)}
  {
    if t.right.Leaf? then t.left
    else
      assert Max(t) == Max(t.right);
      MaxIsGreatest(t.right);
      Node(t.left, t.value, RemoveMax(t.right))
  }

  /** The recursive removal rebuilds only the slot `FindNode` returns. */
  lemma {:induction false} RemoveAtSlot(t: Tree, v: int)
    requires FindNode(t, v).Some?
    ensures Remove(t, v) == Replace(t, FindNode(t, v).value, RemoveRoot(At(t, FindNode(t, v).value)))
  {
    var Node(l, x, r) := t;
    if v < x {
      RemoveAtSlot(l, v);
    } else if v > x {
      RemoveAtSlot(r, v);
    }
  }

  /** Splicing the rightmost node of `t` out of its slot is `RemoveMax`. */
  lemma {:induction false} SpliceRightmost(t: Tree)
    requires t.Node?
    ensures Replace(t, RightSpine(t), Spliced(At(t, RightSpine(t)))) == RemoveMax(t)
  {
    if t.right.Node? {
      SpliceRightmost(t.right);
    }
  }

  /** The two-children case: copying the predecessor's value into `n` and
      splicing the predecessor out of its slot is `RemoveRoot`. */
  lemma SplicePredecessor(n: Tree)
    requires n.Node? && n.left.Node? && n.right.Node?
    ensures var q' := [Left] + RightSpine(n.left);
      var n' := Node(n.left, At(n, q').value, n.right);
      Replace(n', q', Spliced(At(n', q'))) == RemoveRoot(n)
  {
    SpliceRightmost(n.left);
  }
}
