/** Construction, copy, move and the two `++` operators.

    Self-assignment is decided in the source by comparing object addresses;
    here the caller states it with `aliased`, and an aliased call is one
    whose two operands are the same tree. Releasing the nodes a tree owned
    before an assignment is memory management and leaves no trace in the
    model. */
module BstLifecycle {
  import opened BstTree
  import opened BstSearch
  import opened BstTraversal

  /** The default constructor: a null root. */
  function Empty(): (t: Tree)
    ensures Size(t) == 0 && Values(t) == {} && Bfs(t) == []
    ensures Ordered(t)
  {
    Leaf
  }

  /** `add_node` applied to each value of `s` in turn, results ignored. */
  function InsertAll(t: Tree, s: seq<int>): (r: Tree)
    ensures forall y :: y in Values(r) <==> y in Values(t) || y in s
    ensures Ordered(t) ==> Ordered(r)
    decreases |s|
  {
    if s == [] then t else InsertAll(AddNode(t, s[0]).0, s[1..])
  }

  /** The initializer-list constructor. */
  function FromList(s: seq<int>): (t: Tree)
    ensures Ordered(t)
    ensures forall y :: y in Values(t) <==> y in s
  {
    InsertAll(Leaf, s)
  }

  /** Whether `y` belongs to the subtree on side `d` of a node holding `x`. */
  predicate OnSide(y: int, x: int, d: Dir) {
    if d == Left then y < x else x < y
  }

  /** The values of `s` that belong on side `d` of `x`, in order. */
  function Side(s: seq<int>, x: int, d: Dir): seq<int> {
    if s == [] then []
    else (if OnSide(s[0], x, d) then [s[0]] else []) + Side(s[1..], x, d)
  }

  lemma {:induction false} SideAppend(s: seq<int>, u: seq<int>, x: int, d: Dir)
    ensures Side(s + u, x, d) == Side(s, x, d) + Side(u, x, d)
  {
    if s == [] {
      assert s + u == u;
    } else {
      var head := if OnSide(s[0], x, d) then [s[0]] else [];
      assert (s + u)[0] == s[0];
      assert (s + u)[1..] == s[1..] + u;
      SideAppend(s[1..], u, x, d);
      assert Side(s + u, x, d) == head + (Side(s[1..], x, d) + Side(u, x, d));
      ConcatAssoc(head, Side(s[1..], x, d), Side(u, x, d));
    }
  }

  lemma {:induction false} SideKeepsAll(s: seq<int>, x: int, d: Dir)
    requires forall i :: 0 <= i < |s| ==> OnSide(s[i], x, d)
    ensures Side(s, x, d) == s
  {
    if s != [] {
      SideKeepsAll(s[1..], x, d);
    }
  }

  lemma {:induction false} SideDropsAll(s: seq<int>, x: int, d: Dir)
    requires forall i :: 0 <= i < |s| ==> !OnSide(s[i], x, d)
    ensures Side(s, x, d) == []
  {
    if s != [] {
      SideDropsAll(s[1..], x, d);
    }
  }

  lemma SideFront(s: seq<int>, x: int, d: Dir)
    requires s != []
    ensures Side(s, x, d) == if OnSide(s[0], x, d) then [s[0]] + Side(s[1..], x, d) else Side(s[1..], x, d)
  {
  }

  lemma InsertAllFront(t: Tree, y: int, s: seq<int>)
    ensures InsertAll(t, [y] + s) == InsertAll(AddNode(t, y).0, s)
  {
    assert ([y] + s)[0] == y;
    assert ([y] + s)[1..] == s;
  }

  /** Reinserting into a node sends each value to the side it belongs on. */
  lemma {:induction false} InsertAllSplits(l: Tree, x: int, r: Tree, s: seq<int>)
    ensures InsertAll(Node(l, x, r), s)
         == Node(InsertAll(l, Side(s, x, Left)), x, InsertAll(r, Side(s, x, Right)))
    decreases |s|
  {
    if s != [] {
      var y, s' := s[0], s[1..];
      assert InsertAll(Node(l, x, r), s) == InsertAll(AddNode(Node(l, x, r), y).0, s');
      AddNodeStep(l, x, r, y);
      SideFront(s, x, Left);
      SideFront(s, x, Right);
      if y == x {
        InsertAllSplits(l, x, r, s');
      } else if y < x {
        InsertAllSplits(AddNode(l, y).0, x, r, s');
        InsertAllFront(l, y, Side(s', x, Left));
      } else {
        InsertAllSplits(l, x, AddNode(r, y).0, s');
        InsertAllFront(r, y, Side(s', x, Right));
      }
    }
  }

  lemma {:induction false} RootsInForest(f: seq<Tree>)
    ensures forall i :: 0 <= i < |Roots(f)| ==> Roots(f)[i] in ForestValues(f)
  {
    if f != [] {
      RootsInForest(f[1..]);
    }
  }

  lemma {:induction false} ChildrenInForest(f: seq<Tree>)
    ensures ForestValues(Children(f)) <= ForestValues(f)
  {
    if f != [] {
      ChildrenInForest(f[1..]);
      ForestValuesAppend(Kids(f[0]), Children(f[1..]));
      if f[0].Node? {
        KidsOwn(f[0]);
      }
    }
  }

  /** Level by level, the values below `x` of a forest `f + g` whose left part
      lies below `x` and right part above are the traversal of `f`, and the
      values above `x` are the traversal of `g`. */
  lemma {:induction false} SideOfLevels(f: seq<Tree>, g: seq<Tree>, x: int)
    requires forall y <- ForestValues(f) :: y < x
    requires forall y <- ForestValues(g) :: x < y
    ensures Side(BfsLevels(f + g), x, Left) == BfsLevels(f)
    ensures Side(BfsLevels(f + g), x, Right) == BfsLevels(g)
    decreases SizeSum(f + g), |f + g|
  {
    if f + g == [] {
      assert f == [] && g == [];
    } else {
      var below := BfsLevels(Children(f) + Children(g));
      ChildrenAppend(f, g);
      assert BfsLevels(f + g) == (Roots(f) + Roots(g)) + below by {
        RootsAppend(f, g);
      }
      ChildrenInForest(f);
      ChildrenInForest(g);
      SideOfLevels(Children(f), Children(g), x);
      SideOfRoots(f, g, x);
      SideAppend(Roots(f) + Roots(g), below, x, Left);
      SideAppend(Roots(f) + Roots(g), below, x, Right);
      LevelsUnfold(f);
      LevelsUnfold(g);
    }
  }

  lemma LevelsUnfold(f: seq<Tree>)
    ensures BfsLevels(f) == Roots(f) + BfsLevels(Children(f))
  {
    if f == [] {
      assert Roots(f) == [] && Children(f) == [];
    }
  }

  /** The roots of a level split by `x` the same way. */
  lemma SideOfRoots(f: seq<Tree>, g: seq<Tree>, x: int)
    requires forall y <- ForestValues(f) :: y < x
    requires forall y <- ForestValues(g) :: x < y
    ensures Side(Roots(f) + Roots(g), x, Left) == Roots(f)
    ensures Side(Roots(f) + Roots(g), x, Right) == Roots(g)
  {
    RootsInForest(f);
    RootsInForest(g);
    SideAppend(Roots(f), Roots(g), x, Left);
    SideAppend(Roots(f), Roots(g), x, Right);
    SideKeepsAll(Roots(f), x, Left);
    SideDropsAll(Roots(g), x, Left);
    SideKeepsAll(Roots(g), x, Right);
    SideDropsAll(Roots(f), x, Right);
  }

  /** Reinserting the values of an ordered tree in level order rebuilds the
      very same tree: every value arrives after the values on its root path. */
  lemma {:induction false} LevelOrderReinsertion(t: Tree)
    requires Ordered(t)
    ensures InsertAll(Leaf, BfsLevels(Link(t))) == t
  {
    if t.Node? {
      var Node(l, x, r) := t;
      var rest := BfsLevels(Kids(t));
      assert BfsLevels(Link(t)) == [x] + rest by {
        assert Link(t) == [t];
        assert [t][1..] == [];
        assert Roots([t]) == [x];
        assert Children([t]) == Kids(t);
      }
      assert ([x] + rest)[1..] == rest;
      LinkOwns(l);
      LinkOwns(r);
      SideOfLevels(Link(l), Link(r), x);
      InsertAllSplits(Leaf, x, Leaf, rest);
      LevelOrderReinsertion(l);
      LevelOrderReinsertion(r);
    }
  }

  /** The copy constructor (and the body of copy assignment): reinsert the
      source's values in the order `bfs` visits them. */
  function Copy(t: Tree): (c: Tree)
    ensures Ordered(c)
    ensures Values(c) == Values(t)
    ensures Ordered(t) ==> c == t
  {
    BfsVisitsEachNodeOnce(t);
    BfsIsLevelOrder(t);
    assert Ordered(t) ==> InsertAll(Leaf, Bfs(t)) == t by {
      if Ordered(t) { LevelOrderReinsertion(t); }
    }
    InsertAll(Leaf, Bfs(t))
  }

  /** Copy assignment: nothing happens on self-assignment, otherwise the
      destination becomes a copy of the source. */
  function CopyAssign(dst: Tree, src: Tree, aliased: bool): (r: Tree)
    requires aliased ==> dst == src
    ensures aliased ==> r == dst
    ensures Values(r) == Values(src)
    ensures !aliased ==> Ordered(r)
    ensures Ordered(src) ==> r == src
  {
    if aliased then dst else Copy(src)
  }

  /** The move constructor: the new tree takes the root, the source is left
      with a null root. The result pairs the new tree with the source. */
  function MoveConstruct(src: Tree): (r: (Tree, Tree))
    ensures r.0 == src
    ensures Size(r.1) == 0 && Values(r.1) == {}
  {
    (src, Leaf)
  }

  /** Move assignment: nothing happens on self-assignment, otherwise the
      destination takes the source's root and the source is left empty.
      The result pairs the destination with the source. */
  function MoveAssign(dst: Tree, src: Tree, aliased: bool): (r: (Tree, Tree))
    requires aliased ==> dst == src
    ensures aliased ==> r.0 == dst && r.1 == src
    ensures !aliased ==> r.0 == src && Size(r.1) == 0 && Values(r.1) == {}
  {
    if aliased then (dst, src) else (src, Leaf)
  }

  /** Prefix `++`: one added to the value of every node, the shape kept. */
  function Increment(t: Tree): (r: Tree)
    ensures Size(r) == Size(t)
  {
    match t
    case Leaf => Leaf
    case Node(l, x, r) => Node(Increment(l), x + 1, Increment(r))
  }

  /** The set of successors of the values in `s`. */
  function ShiftUp(s: set<int>): set<int> {
    set y <- s :: y + 1
  }

  /** Shifting two sets and joining them is joining them and shifting. */
  lemma ShiftUpUnion(a: set<int>, b: set<int>)
    ensures ShiftUp(a + b) == ShiftUp(a) + ShiftUp(b)
  {
  }

  /** A bound that holds for every value in `s`, raised by one, holds for
      every shifted value, below and above. */
  lemma ShiftUpBounds(s: set<int>, x: int)
    ensures (forall y <- s :: y < x) ==> (forall y <- ShiftUp(s) :: y < x + 1)
    ensures (forall y <- s :: y > x) ==> (forall y <- ShiftUp(s) :: y > x + 1)
  {
  }

  /** The incremented tree holds exactly the successors of the old values. */
  lemma {:induction false} IncrementShiftsValues(t: Tree)
    ensures Values(Increment(t)) == ShiftUp(Values(t))
  {
    match t
    case Leaf =>
    case Node(l, x, r) =>
      IncrementShiftsValues(l);
      IncrementShiftsValues(r);
      ShiftUpUnion(Values(l) + {x}, Values(r));
      ShiftUpUnion(Values(l), {x});
      assert ShiftUp({x}) == {x + 1};
  }

  /** Every value moves up by the same amount, so the ordering stays. */
  lemma {:induction false} IncrementKeepsOrder(t: Tree)
    ensures Ordered(t) ==> Ordered(Increment(t))
  {
    match t
    case Leaf =>
    case Node(l, x, r) =>
      IncrementKeepsOrder(l);
      IncrementKeepsOrder(r);
      IncrementShiftsValues(l);
      IncrementShiftsValues(r);
      ShiftUpBounds(Values(l), x);
      ShiftUpBounds(Values(r), x);
  }

  /** Every slot of the incremented tree holds the incremented subtree of the
      same slot: the same nodes in the same places, each value one larger. */
  lemma {:induction false} IncrementAtSlot(t: Tree, p: Path)
    ensures At(Increment(t), p) == Increment(At(t, p))
    ensures At(t, p).Node? ==> At(Increment(t), p).value == At(t, p).value + 1
    decreases p
  {
    if p != [] && t.Node? {
      IncrementAtSlot(Child(t, p[0]), p[1..]);
    }
  }

  /** Each queue entry incremented. */
  function IncrementAll(q: seq<Tree>): (r: seq<Tree>)
    ensures |r| == |q|
  {
    if q == [] then [] else [Increment(q[0])] + IncrementAll(q[1..])
  }

  /** Each visited value plus one. */
  function PlusOne(s: seq<int>): seq<int> {
    if s == [] then [] else [s[0] + 1] + PlusOne(s[1..])
  }

  lemma {:induction false} IncrementAllAppend(f: seq<Tree>, g: seq<Tree>)
    ensures IncrementAll(f + g) == IncrementAll(f) + IncrementAll(g)
  {
    if f == [] {
      assert f + g == g;
    } else {
      assert (f + g)[1..] == f[1..] + g;
      IncrementAllAppend(f[1..], g);
    }
  }

  lemma KidsOfIncrement(n: Tree)
    ensures Kids(Increment(n)) == IncrementAll(Kids(n))
  {
    if n.Node? {
      IncrementAllAppend(Link(n.left), Link(n.right));
      assert IncrementAll(Link(n.left)) == Link(Increment(n.left));
      assert IncrementAll(Link(n.right)) == Link(Increment(n.right));
    }
  }

  /** The queue loop over incremented entries sees each value of the loop
      over the original entries, plus one, in the same order. */
  lemma {:induction false} BfsQueueOfIncrement(q: seq<Tree>)
    ensures BfsQueue(IncrementAll(q)) == PlusOne(BfsQueue(q))
    decreases SizeSum(q), |q|
  {
    if q != [] {
      var q' := IncrementAll(q);
      assert q'[0] == Increment(q[0]) && q'[1..] == IncrementAll(q[1..]);
      if q[0].Leaf? {
        BfsQueueOfIncrement(q[1..]);
      } else {
        var x := q[0].value;
        QueueStepShrinks(q);
        KidsOfIncrement(q[0]);
        IncrementAllAppend(q[1..], Kids(q[0]));
        BfsQueueOfIncrement(q[1..] + Kids(q[0]));
        var visited := BfsQueue(q[1..] + Kids(q[0]));
        assert BfsQueue(q) == [x] + visited;
        assert PlusOne([x] + visited) == [x + 1] + PlusOne(visited) by {
          assert ([x] + visited)[1..] == visited;
        }
      }
    }
  }

  /** Prefix `++` is `bfs` with a visitor that adds one to the visited node:
      the nodes are visited in the same order and each value is one larger. */
  lemma IncrementIsBfsVisit(t: Tree)
    ensures Bfs(Increment(t)) == PlusOne(Bfs(t))
  {
    if t.Node? {
      BfsQueueOfIncrement([t]);
      assert IncrementAll([t]) == [Increment(t)];
    }
  }

  /** Postfix `++`: the original is incremented and a copy taken before the
      increment is returned. The result pairs the incremented original with
      the returned copy. */
  function PostIncrement(t: Tree): (r: (Tree, Tree))
    ensures r.0 == Increment(t)
    ensures Ordered(r.1) && Values(r.1) == Values(t)
    ensures Ordered(t) ==> r.1 == t
    ensures Values(r.0) == ShiftUp(Values(t))
    ensures Size(r.0) == Size(t)
    ensures Ordered(t) ==> Ordered(r.0)
  {
    var before := Copy(t);
    IncrementShiftsValues(t);
    IncrementKeepsOrder(t);
    (Increment(t), before)
  }
}
