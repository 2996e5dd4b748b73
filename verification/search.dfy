/** Lookups and insertion: the root-to-target walks of `find_node`,
    `find_parent`, `find_successor` and `add_node`. Each lookup returns a slot
    (a path from the root link) or `None` for the null pointer; insertion
    reports success as a `bool` beside the rebuilt tree. */
module BstSearch {
  import opened BstTree

  /** The slot holding the node with value `v`, found by the binary-search
      walk: stop on an equal value, go left on a smaller one, else go right. */
  function FindNode(t: Tree, v: int): (slot: Option<Path>)
    ensures slot.Some? ==> At(t, slot.value).Node? && At(t, slot.value).value == v
    ensures Ordered(t) ==> (slot.Some? <==> v in Values(t))
  {
    match t
    case Leaf => None
    case Node(l, x, r) =>
      if x == v then Some([])
      else if v < x then Prepend(Left, FindNode(l, v))
      else Prepend(Right, FindNode(r, v))
  }

  /** Whether a child link of node `n` holds a node with value `v`. */
  predicate HasChildWith(n: Tree, v: int)
    requires n.Node?
  {
    || (n.left.Node? && n.left.value == v)
    || (n.right.Node? && n.right.value == v)
  }

  /** The slot holding the parent of the node with value `v`: the same walk
      as `FindNode`, but each node first looks at its two children. */
  function FindParent(t: Tree, v: int): (slot: Option<Path>)
    ensures slot.Some? ==> At(t, slot.value).Node? && HasChildWith(At(t, slot.value), v)
  {
    match t
    case Leaf => None
    case Node(l, x, r) =>
      if HasChildWith(t, v) then Some([])
      else if v < x then Prepend(Left, FindParent(l, v))
      else Prepend(Right, FindParent(r, v))
  }

  /** In an ordered tree the parent lookup fails exactly when `v` is absent
      or sits in the root, and otherwise names the slot one step above the
      slot `FindNode` returns. */
  lemma {:induction false} FindParentIsParent(t: Tree, v: int)
    requires Ordered(t)
    ensures FindParent(t, v).Some? <==> v in Values(t) && v != t.value
    ensures FindParent(t, v).Some? ==>
      || FindNode(t, v) == Some(FindParent(t, v).value + [Left])
      || FindNode(t, v) == Some(FindParent(t, v).value + [Right])
  {
    match t
    case Leaf =>
    case Node(l, x, r) =>
      if HasChildWith(t, v) {
        if l.Node? && l.value == v {
          assert l.value in Values(l);
          assert FindNode(l, v) == Some([]);
          assert [Left] + [] == [] + [Left];
        } else {
          assert r.value in Values(r);
          assert FindNode(r, v) == Some([]);
          assert [Right] + [] == [] + [Right];
        }
      } else if v < x {
        FindParentIsParent(l, v);
        if FindParent(l, v).Some? {
          var p := FindParent(l, v).value;
          assert FindParent(t, v).value + [Left] == [Left] + (p + [Left]);
          assert FindParent(t, v).value + [Right] == [Left] + (p + [Right]);
        }
      } else {
        FindParentIsParent(r, v);
        if FindParent(r, v).Some? {
          var p := FindParent(r, v).value;
          assert FindParent(t, v).value + [Left] == [Right] + (p + [Left]);
          assert FindParent(t, v).value + [Right] == [Right] + (p + [Right]);
        }
      }
  }

  /** The path from a node down its chain of right children to the last one. */
  function RightSpine(t: Tree): (p: Path)
    ensures t.Node? ==> At(t, p).Node? && At(t, p).right.Leaf?
    ensures forall i :: 0 <= i < |p| ==> p[i] == Right
  {
    if t.Node? && t.right.Node? then [Right] + RightSpine(t.right) else []
  }

  /** The value of the rightmost node of a non-empty tree. */
  function Max(t: Tree): int
    requires t.Node?
  {
    At(t, RightSpine(t)).value
  }

  /** The rightmost node of an ordered tree holds its largest value. */
  lemma {:induction false} MaxIsGreatest(t: Tree)
    requires t.Node?
    ensures Max(t) in Values(t)
    ensures Ordered(t) ==> forall y <- Values(t) :: y <= Max(t)
  {
    if t.right.Node? {
      MaxIsGreatest(t.right);
      assert Max(t) == Max(t.right);
    }
  }

  /** The slot of the node `delete_node` promotes: from the node holding `v`,
      one step left and then right as far as possible. Despite the source's
      name this is the in-order predecessor. It is `None` when `v` is absent
      or its node has no left child. */
  function FindSuccessor(t: Tree, v: int): (slot: Option<Path>)
    ensures slot.None? <==> FindNode(t, v).None? || At(t, FindNode(t, v).value).left.Leaf?
    ensures slot.Some? ==> At(t, slot.value).Node? && At(t, slot.value).right.Leaf?
  {
    match FindNode(t, v)
    case None => None
    case Some(p) =>
      var n := At(t, p);
      if n.left.Node? then
        AtAppend(t, p, [Left] + RightSpine(n.left));
        assert At(n, [Left] + RightSpine(n.left)) == At(n.left, RightSpine(n.left));
        Some(p + ([Left] + RightSpine(n.left)))
      else None
  }

  /** Below the root the predecessor lookup is the lookup in the subtree the
      walk enters. */
  lemma FindSuccessorStep(t: Tree, v: int)
    requires t.Node? && t.value != v
    ensures FindSuccessor(t, v) ==
      if v < t.value then Prepend(Left, FindSuccessor(t.left, v))
      else Prepend(Right, FindSuccessor(t.right, v))
  {
    var c := if v < t.value then t.left else t.right;
    var d := if v < t.value then Left else Right;
    match FindNode(c, v)
    case None =>
    case Some(p) =>
      assert FindNode(t, v) == Some([d] + p);
      assert At(t, [d] + p) == At(c, p);
      var n := At(c, p);
      if n.left.Node? {
        var q := [Left] + RightSpine(n.left);
        assert ([d] + p) + q == [d] + (p + q);
      }
  }

  /** In an ordered tree the promoted node holds the largest value of the
      target's left subtree, and that value is the largest value of the whole
      tree below `v`: the in-order predecessor. */
  lemma {:induction false} FindSuccessorIsPredecessor(t: Tree, v: int)
    requires Ordered(t)
    requires FindSuccessor(t, v).Some?
    ensures var n := At(t, FindNode(t, v).value);
      var w := At(t, FindSuccessor(t, v).value).value;
      && w in Values(n.left) && (forall y <- Values(n.left) :: y <= w)
    ensures var w := At(t, FindSuccessor(t, v).value).value;
      && w in Values(t) && w < v
      && (forall y <- Values(t) :: y < v ==> y <= w)
  {
    var Node(l, x, r) := t;
    if x == v {
      var q := [Left] + RightSpine(l);
      assert [] + q == q;
      assert FindSuccessor(t, v) == Some(q);
      assert At(t, q) == At(l, RightSpine(l));
      MaxIsGreatest(l);
    } else if v < x {
      FindSuccessorStep(t, v);
      FindSuccessorIsPredecessor(l, v);
      var p := FindNode(l, v).value;
      var q := FindSuccessor(l, v).value;
      assert At(t, [Left] + p) == At(l, p);
      assert At(t, [Left] + q) == At(l, q);
    } else {
      FindSuccessorStep(t, v);
      FindSuccessorIsPredecessor(r, v);
      var p := FindNode(r, v).value;
      var q := FindSuccessor(r, v).value;
      assert At(t, [Right] + p) == At(r, p);
      assert At(t, [Right] + q) == At(r, q);
    }
  }

  /** The null slot the insertion walk of `add_node` reaches, or `None` when
      the walk meets a node already holding `v`. */
  function InsertionSlot(t: Tree, v: int): (slot: Option<Path>)
    ensures slot.Some? ==> At(t, slot.value) == Leaf
    ensures slot.None? ==> v in Values(t)
    ensures Ordered(t) ==> (slot.None? <==> v in Values(t))
  {
    match t
    case Leaf => Some([])
    case Node(l, x, r) =>
      if x == v then None
      else if v < x then Prepend(Left, InsertionSlot(l, v))
      else Prepend(Right, InsertionSlot(r, v))
  }

  /** Attaching a new leaf at the insertion slot adds exactly one node and
      one value, and keeps the ordering. */
  lemma {:induction false} AttachLeaf(t: Tree, v: int)
    requires InsertionSlot(t, v).Some?
    ensures var t' := Replace(t, InsertionSlot(t, v).value, Node(Leaf, v, Leaf));
      && Values(t') == Values(t) + {v}
      && Size(t') == Size(t) + 1
      && (Ordered(t) ==> Ordered(t'))
  {
    match t
    case Leaf =>
    case Node(l, x, r) =>
      if v < x {
        AttachLeaf(l, v);
      } else {
        AttachLeaf(r, v);
      }
  }

  /** `add_node`: walk to the null slot for `v` and store a new leaf there,
      or report `false` and change nothing when `v` is met on the way. */
  function AddNode(t: Tree, v: int): (r: (Tree, bool))
    ensures t == Leaf ==> r == (Node(Leaf, v, Leaf), true)
    ensures !r.1 ==> r.0 == t && v in Values(t)
    ensures Ordered(t) ==> (r.1 <==> v !in Values(t))
    ensures r.1 ==> Values(r.0) == Values(t) + {v} && Size(r.0) == Size(t) + 1
    ensures r.1 ==> InsertionSlot(t, v).Some? && At(r.0, InsertionSlot(t, v).value) == Node(Leaf, v, Leaf)
    ensures Ordered(t) ==> Ordered(r.0)
  {
    match InsertionSlot(t, v)
    case None => (t, false)
    case Some(p) =>
      AttachLeaf(t, v);
      var t' := Replace(t, p, Node(Leaf, v, Leaf));
      AtReplaceLeaf(t, v, p);
      (t', true)
  }

  /** The new leaf can be read back from the insertion slot. */
  lemma {:induction false} AtReplaceLeaf(t: Tree, v: int, p: Path)
    requires InsertionSlot(t, v) == Some(p)
    ensures At(Replace(t, p, Node(Leaf, v, Leaf)), p) == Node(Leaf, v, Leaf)
  {
    match t
    case Leaf =>
    case Node(l, x, r) =>
      if v < x {
        AtReplaceLeaf(l, v, p[1..]);
      } else {
        AtReplaceLeaf(r, v, p[1..]);
      }
  }

  /** Inserting below a node inserts into the subtree the walk enters. */
  lemma AddNodeStep(l: Tree, x: int, r: Tree, v: int)
    ensures AddNode(Node(l, x, r), v).0 ==
      if v == x then Node(l, x, r)
      else if v < x then Node(AddNode(l, v).0, x, r)
      else Node(l, x, AddNode(r, v).0)
  {
    var t := Node(l, x, r);
    if v != x {
      var c := if v < x then l else r;
      match InsertionSlot(c, v)
      case None =>
      case Some(p) =>
        var d := if v < x then Left else Right;
        assert InsertionSlot(t, v) == Some([d] + p);
        assert ([d] + p)[1..] == p;
    }
  }
}
