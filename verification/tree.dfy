/** The data layout of the binary search tree.

    A node carries exactly one `int` value and two nullable child links; there
    is no parent pointer and no cached size. The tree object's only state is
    its root link. A null link is `Leaf`, so a `Tree` value is at once a link
    and the whole subtree that link owns.

    A slot (a `Node**` in the source: the root field or a node's `left` or
    `right` field) is named by the path of directions that leads to it from
    the root link. `At` reads the link stored in a slot and `Replace` rebuilds
    the tree with another subtree stored there, which is how the in-place
    pointer surgery of insertion and deletion is expressed on immutable values.
 */
module BstTree {

  datatype Tree = Leaf | Node(left: Tree, value: int, right: Tree)

  /** A nullable result: `None` is the null pointer a lookup returns. */
  datatype Option<T> = None | Some(value: T)

  /** The two child links of a node. */
  datatype Dir = Left | Right

  /** A slot, named by the child links followed from the root link. */
  type Path = seq<Dir>

  /** The set of values stored in a tree. */
  function Values(t: Tree): set<int> {
    match t
    case Leaf => {}
    case Node(l, x, r) => Values(l) + {x} + Values(r)
  }

  /** The number of nodes of a tree. */
  function Size(t: Tree): nat {
    match t
    case Leaf => 0
    case Node(l, _, r) => Size(l) + 1 + Size(r)
  }

  /** The strict ordering invariant: at every node, every value of the left
      subtree is smaller and every value of the right subtree is larger. */
  predicate Ordered(t: Tree) {
    match t
    case Leaf => true
    case Node(l, x, r) =>
      && Ordered(l) && Ordered(r)
      && (forall y <- Values(l) :: y < x)
      && (forall y <- Values(r) :: x < y)
  }

  /** In an ordered tree every value sits in exactly one node. */
  lemma {:induction false} OrderedSizeIsCardinality(t: Tree)
    requires Ordered(t)
    ensures |Values(t)| == Size(t)
  {
    match t
    case Leaf =>
    case Node(l, x, r) =>
      OrderedSizeIsCardinality(l);
      OrderedSizeIsCardinality(r);
      var vl, vr := Values(l), Values(r);
      assert vl * vr == {} by {
        forall y | y in vl ensures y !in vr { }
      }
      var both := vl + vr;
      assert |both| == |vl| + |vr|;
      assert x !in both;
      assert Values(t) == both + {x};
  }

  /** The child link of a node in direction `d`. */
  function Child(n: Tree, d: Dir): Tree
    requires n.Node?
  {
    if d == Left then n.left else n.right
  }

  /** The link stored in slot `p`; a path that runs past a null link reads null. */
  function At(t: Tree, p: Path): Tree
    decreases p
  {
    if p == [] then t
    else match t
      case Leaf => Leaf
      case Node(_, _, _) => At(Child(t, p[0]), p[1..])
  }

  /** The tree with `s` stored in slot `p`; a path that runs past a null link
      names no slot and leaves the tree as it is. */
  function Replace(t: Tree, p: Path, s: Tree): Tree
    decreases p
  {
    if p == [] then s
    else match t
      case Leaf => Leaf
      case Node(l, x, r) =>
        if p[0] == Left then Node(Replace(l, p[1..], s), x, r)
        else Node(l, x, Replace(r, p[1..], s))
  }

  /** The slot one step further down from the slot a lookup returned. */
  function Prepend(d: Dir, slot: Option<Path>): Option<Path> {
    match slot
    case None => None
    case Some(p) => Some([d] + p)
  }

  /** Reading a slot below slot `p` is reading from the subtree stored at `p`. */
  lemma {:induction false} AtAppend(t: Tree, p: Path, q: Path)
    ensures At(t, p + q) == At(At(t, p), q)
    decreases p
  {
    if p == [] {
      assert p + q == q;
    } else if t.Node? {
      assert (p + q)[0] == p[0];
      assert (p + q)[1..] == p[1..] + q;
      AtAppend(Child(t, p[0]), p[1..], q);
    }
  }

  /** Storing into a slot below slot `p` rebuilds only the subtree at `p`. */
  lemma {:induction false} ReplaceAppend(t: Tree, p: Path, q: Path, s: Tree)
    ensures Replace(t, p + q, s) == Replace(t, p, Replace(At(t, p), q, s))
    decreases p
  {
    if p == [] {
      assert p + q == q;
    } else if t.Node? {
      assert (p + q)[0] == p[0];
      assert (p + q)[1..] == p[1..] + q;
      ReplaceAppend(Child(t, p[0]), p[1..], q, s);
    }
  }

  /** A slot holding a node reads back what was stored into it. */
  lemma {:induction false} AtReplace(t: Tree, p: Path, s: Tree)
    requires At(t, p).Node?
    ensures At(Replace(t, p, s), p) == s
    decreases p
  {
    if p != [] {
      AtReplace(Child(t, p[0]), p[1..], s);
    }
  }

  /** A second store into the same slot overrides the first. */
  lemma {:induction false} ReplaceReplace(t: Tree, p: Path, s: Tree, s': Tree)
    ensures Replace(Replace(t, p, s), p, s') == Replace(t, p, s')
    decreases p
  {
    if p != [] && t.Node? {
      ReplaceReplace(Child(t, p[0]), p[1..], s, s');
    }
  }
}
