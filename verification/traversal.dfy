/** Breadth-first traversal and `length`.

    `bfs` keeps a queue of non-null links: it starts with the root when the
    root is non-null, and each round pops the front node, visits it and pushes
    its non-null children, left before right. `BfsQueue` is that loop, giving
    the sequence of visited values. `BfsLevels` is an independent reference
    that lists the roots of a whole level before descending to the next. */
module BstTraversal {
  import opened BstTree

  /** The queue entry for a link: nothing for a null link. */
  function Link(t: Tree): seq<Tree> {
    if t.Leaf? then [] else [t]
  }

  /** The links a visited node pushes, left child first. */
  function Kids(n: Tree): seq<Tree> {
    match n
    case Leaf => []
    case Node(l, _, r) => Link(l) + Link(r)
  }

  /** The number of nodes owned by the links of a queue or forest. */
  function SizeSum(f: seq<Tree>): nat {
    if f == [] then 0 else Size(f[0]) + SizeSum(f[1..])
  }

  lemma {:induction false} SizeSumAppend(f: seq<Tree>, g: seq<Tree>)
    ensures SizeSum(f + g) == SizeSum(f) + SizeSum(g)
  {
    if f == [] {
      assert f + g == g;
    } else {
      assert (f + g)[1..] == f[1..] + g;
      SizeSumAppend(f[1..], g);
    }
  }

  /** The values held by the nodes of a forest. */
  function ForestValues(f: seq<Tree>): set<int> {
    if f == [] then {} else Values(f[0]) + ForestValues(f[1..])
  }

  /** The multiset of values held by the nodes of a tree, one per node. */
  function Bag(t: Tree): (b: multiset<int>)
    ensures |b| == Size(t)
    ensures forall y :: y in b <==> y in Values(t)
  {
    match t
    case Leaf => multiset{}
    case Node(l, x, r) => Bag(l) + multiset{x} + Bag(r)
  }

  /** The multiset of values held by the nodes of a forest. */
  function ForestBag(f: seq<Tree>): multiset<int> {
    if f == [] then multiset{} else Bag(f[0]) + ForestBag(f[1..])
  }

  lemma {:induction false} ForestBagAppend(f: seq<Tree>, g: seq<Tree>)
    ensures ForestBag(f + g) == ForestBag(f) + ForestBag(g)
  {
    if f == [] {
      assert f + g == g;
    } else {
      assert (f + g)[1..] == f[1..] + g;
      ForestBagAppend(f[1..], g);
    }
  }

  lemma {:induction false} ForestValuesAppend(f: seq<Tree>, g: seq<Tree>)
    ensures ForestValues(f + g) == ForestValues(f) + ForestValues(g)
  {
    if f == [] {
      assert f + g == g;
    } else {
      assert (f + g)[1..] == f[1..] + g;
      ForestValuesAppend(f[1..], g);
    }
  }

  /** The queue entry of a link owns exactly the nodes of that link. */
  lemma LinkOwns(t: Tree)
    ensures SizeSum(Link(t)) == Size(t)
    ensures ForestBag(Link(t)) == Bag(t)
    ensures ForestValues(Link(t)) == Values(t)
  {
    if t.Node? {
      assert Link(t)[1..] == [];
    }
  }

  /** The children a node pushes own all its nodes but itself. */
  lemma KidsOwn(n: Tree)
    requires n.Node?
    ensures SizeSum(Kids(n)) == Size(n) - 1
    ensures ForestBag(Kids(n)) + multiset{n.value} == Bag(n)
    ensures ForestValues(Kids(n)) + {n.value} == Values(n)
  {
    LinkOwns(n.left);
    LinkOwns(n.right);
    SizeSumAppend(Link(n.left), Link(n.right));
    ForestBagAppend(Link(n.left), Link(n.right));
    ForestValuesAppend(Link(n.left), Link(n.right));
  }

  lemma KidsSize(n: Tree)
    ensures SizeSum(Kids(n)) + (if n.Node? then 1 else 0) == Size(n)
  {
    if n.Node? {
      KidsOwn(n);
    }
  }

  /** One round of the loop removes one node from the queue's ownership. */
  lemma QueueStepShrinks(q: seq<Tree>)
    requires q != [] && q[0].Node?
    ensures SizeSum(q[1..] + Kids(q[0])) == SizeSum(q) - 1
  {
    KidsOwn(q[0]);
    SizeSumAppend(q[1..], Kids(q[0]));
  }

  /** The `bfs` loop run on queue `q`: the values in the order it visits them. */
  function BfsQueue(q: seq<Tree>): seq<int>
    decreases SizeSum(q), |q|
  {
    if q == [] then []
    else match q[0]
      case Leaf => BfsQueue(q[1..])
      case Node(_, x, _) =>
        QueueStepShrinks(q);
        [x] + BfsQueue(q[1..] + Kids(q[0]))
  }

  /** `bfs` on a whole tree: a no-op on a null root, otherwise the loop
      started with the root alone in the queue. */
  function Bfs(t: Tree): seq<int> {
    if t.Leaf? then [] else BfsQueue([t])
  }

  /** The loop visits every node in the queue exactly once. */
  lemma {:induction false} BfsQueueVisitsEachNodeOnce(q: seq<Tree>)
    ensures multiset(BfsQueue(q)) == ForestBag(q)
    decreases SizeSum(q), |q|
  {
    if q != [] {
      match q[0]
      case Leaf =>
        BfsQueueVisitsEachNodeOnce(q[1..]);
      case Node(_, x, _) =>
        QueueStepShrinks(q);
        BfsQueueVisitsEachNodeOnce(q[1..] + Kids(q[0]));
        ForestBagAppend(q[1..], Kids(q[0]));
        KidsOwn(q[0]);
        assert multiset([x] + BfsQueue(q[1..] + Kids(q[0])))
            == multiset{x} + multiset(BfsQueue(q[1..] + Kids(q[0])));
    }
  }

  /** `bfs` visits each node of the tree exactly once, and only those:
      the visited values are the tree's values, one per node. */
  lemma BfsVisitsEachNodeOnce(t: Tree)
    ensures multiset(Bfs(t)) == Bag(t)
    ensures |Bfs(t)| == Size(t)
    ensures forall y :: y in Bfs(t) <==> y in Values(t)
  {
    if t.Node? {
      BfsQueueVisitsEachNodeOnce([t]);
      LinkOwns(t);
    }
    assert |multiset(Bfs(t))| == |Bfs(t)|;
    forall y ensures y in Bfs(t) <==> y in Values(t) {
      assert y in Bfs(t) <==> y in multiset(Bfs(t));
    }
  }

  /** The values of the non-null roots of a forest, left to right. */
  function Roots(f: seq<Tree>): seq<int> {
    if f == [] then []
    else (if f[0].Node? then [f[0].value] else []) + Roots(f[1..])
  }

  /** The non-null children of the roots of a forest, left to right: the
      next level down. */
  function Children(f: seq<Tree>): (c: seq<Tree>)
    ensures c == [] || SizeSum(c) < SizeSum(f)
  {
    if f == [] then []
    else
      var c := Kids(f[0]) + Children(f[1..]);
      KidsSize(f[0]);
      SizeSumAppend(Kids(f[0]), Children(f[1..]));
      c
  }

  /** Level-order traversal, level by level: the roots of the current level,
      then the traversal of the level below. */
  function BfsLevels(f: seq<Tree>): seq<int>
    decreases SizeSum(f), |f|
  {
    if f == [] then [] else Roots(f) + BfsLevels(Children(f))
  }

  lemma {:induction false} RootsAppend(f: seq<Tree>, g: seq<Tree>)
    ensures Roots(f + g) == Roots(f) + Roots(g)
  {
    if f == [] {
      assert f + g == g;
    } else {
      var head := if f[0].Node? then [f[0].value] else [];
      assert (f + g)[0] == f[0];
      assert (f + g)[1..] == f[1..] + g;
      RootsAppend(f[1..], g);
      assert Roots(f + g) == head + (Roots(f[1..]) + Roots(g));
      ConcatAssoc(head, Roots(f[1..]), Roots(g));
    }
  }

  lemma {:induction false} ChildrenAppend(f: seq<Tree>, g: seq<Tree>)
    ensures Children(f + g) == Children(f) + Children(g)
  {
    if f == [] {
      assert f + g == g;
    } else {
      assert (f + g)[0] == f[0];
      assert (f + g)[1..] == f[1..] + g;
      ChildrenAppend(f[1..], g);
      assert Children(f + g) == Kids(f[0]) + (Children(f[1..]) + Children(g));
      ConcatAssoc(Kids(f[0]), Children(f[1..]), Children(g));
    }
  }

  /** All entries of a queue are non-null links. */
  predicate AllNodes(q: seq<Tree>) {
    forall i :: 0 <= i < |q| ==> q[i].Node?
  }

  /** The queue loop is the level-by-level traversal. */
  lemma {:induction false} BfsQueueIsLevels(q: seq<Tree>)
    requires AllNodes(q)
    ensures BfsQueue(q) == BfsLevels(q)
    decreases SizeSum(q), 1
  {
    if q != [] {
      BfsQueueIsLevelOrder(q, []);
      assert q + [] == q;
      assert [] + Children(q) == Children(q);
    }
  }

  /** When the queue holds the rest `a` of the current level followed by the
      children `b` already pushed for the earlier part of that level, the
      loop visits the roots of `a` and then the levels below. */
  lemma {:induction false} BfsQueueIsLevelOrder(a: seq<Tree>, b: seq<Tree>)
    requires a != [] && AllNodes(a) && AllNodes(b)
    ensures BfsQueue(a + b) == Roots(a) + BfsLevels(b + Children(a))
    decreases SizeSum(a) + SizeSum(b), 0
  {
    var n, a' := a[0], a[1..];
    LevelStepShrinks(a, b);
    KidsAreNodes(n);
    assert AllNodes(b + Kids(n));
    var rest := b + Kids(n);
    if a' == [] {
      BfsQueueIsLevels(rest);
      assert a' + rest == rest;
      assert rest + Children(a') == rest;
    } else {
      BfsQueueIsLevelOrder(a', rest);
    }
    LevelOrderStep(a, b);
  }

  /** The first round of the loop extends the level-order claim from the
      queue it leaves to the queue it starts from. */
  lemma LevelOrderStep(a: seq<Tree>, b: seq<Tree>)
    requires a != [] && a[0].Node?
    requires var rest := b + Kids(a[0]);
      BfsQueue(a[1..] + rest) == Roots(a[1..]) + BfsLevels(rest + Children(a[1..]))
    ensures BfsQueue(a + b) == Roots(a) + BfsLevels(b + Children(a))
  {
    var x, a', rest := a[0].value, a[1..], b + Kids(a[0]);
    var roots', below := Roots(a'), BfsLevels(rest + Children(a'));
    assert BfsQueue(a + b) == [x] + (roots' + below) by {
      QueueFront(a, b);
    }
    assert Roots(a) + BfsLevels(b + Children(a)) == ([x] + roots') + below by {
      QueueFront(a, b);
      assert b + Children(a) == rest + Children(a');
    }
    ConcatAssoc([x], roots', below);
  }

  lemma ConcatAssoc<T>(x: seq<T>, y: seq<T>, z: seq<T>)
    ensures x + (y + z) == (x + y) + z
  {
  }

  /** The first round of the loop on a queue whose front is node `a[0]`. */
  lemma QueueFront(a: seq<Tree>, b: seq<Tree>)
    requires a != [] && a[0].Node?
    ensures BfsQueue(a + b) == [a[0].value] + BfsQueue(a[1..] + (b + Kids(a[0])))
    ensures Roots(a) == [a[0].value] + Roots(a[1..])
    ensures Children(a) == Kids(a[0]) + Children(a[1..])
  {
    var q := a + b;
    assert q[0] == a[0] && q != [];
    assert q[1..] == a[1..] + b;
    assert q[1..] + Kids(q[0]) == a[1..] + (b + Kids(a[0]));
    assert BfsQueue(q) == [a[0].value] + BfsQueue(q[1..] + Kids(q[0]));
  }

  lemma KidsAreNodes(n: Tree)
    ensures AllNodes(Kids(n))
  {
  }

  /** Moving the front node of the level out of the queue, its children in. */
  lemma LevelStepShrinks(a: seq<Tree>, b: seq<Tree>)
    requires a != [] && a[0].Node?
    ensures SizeSum(a[1..]) + SizeSum(b + Kids(a[0])) < SizeSum(a) + SizeSum(b)
  {
    KidsOwn(a[0]);
    SizeSumAppend(b, Kids(a[0]));
  }

  /** `bfs` on a whole tree is level-order traversal. */
  lemma BfsIsLevelOrder(t: Tree)
    ensures Bfs(t) == BfsLevels(Link(t))
  {
    if t.Node? {
      BfsQueueIsLevels([t]);
    }
  }

  /** `length`: the `bfs` loop with a counting visitor. */
  method Length(t: Tree) returns (n: nat)
    ensures n == Size(t)
    ensures n == |Bfs(t)|
  {
    n := 0;
    if t.Leaf? {
      return;
    }
    var q := [t];
    ghost var visited: seq<int> := [];
    assert [t][1..] == [];
    while q != []
      invariant AllNodes(q)
      invariant n + SizeSum(q) == Size(t)
      invariant n == |visited|
      invariant visited + BfsQueue(q) == Bfs(t)
      decreases SizeSum(q)
    {
      var node := q[0];
      LoopRound(q);
      ConcatAssoc(visited, [node.value], BfsQueue(q[1..] + Kids(node)));
      visited := visited + [node.value];
      q := q[1..] + Kids(node);
      n := n + 1;
    }
  }

  /** One round of the `bfs` loop: the front node is visited, its children
      join the queue, and the queue owns one node fewer. */
  lemma LoopRound(q: seq<Tree>)
    requires q != [] && AllNodes(q)
    ensures BfsQueue(q) == [q[0].value] + BfsQueue(q[1..] + Kids(q[0]))
    ensures SizeSum(q[1..] + Kids(q[0])) == SizeSum(q) - 1
    ensures AllNodes(q[1..] + Kids(q[0]))
  {
    QueueStepShrinks(q);
    KidsAreNodes(q[0]);
  }
}
