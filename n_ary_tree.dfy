/**
 * A ghost picture of an n-ary tree of `TreeNode`s, and what the tree
 * operations are specified against: the three traversal orders, the first
 * node in an order holding a payload, and the tree left after a node is
 * detached and its children handed to its parent.
 *
 * `Tree(node, subtrees)` draws a node and, in order, the trees under its
 * children. `Mirrors` says the heap's children lists are as drawn,
 * `Parents` that the parent fields point back up, and `Unique` that no node
 * is drawn twice.
 */
module NAryTrees {
  import opened Wrappers
  import opened Sequences
  import opened TreeNodes

  datatype Tree<T> = Tree(node: TreeNode<T>, subtrees: seq<Tree<T>>)

  /** The top nodes of a sequence of trees. */
  function Roots<T>(ts: seq<Tree<T>>): seq<TreeNode<T>>
  {
    seq(|ts|, i requires 0 <= i < |ts| => ts[i].node)
  }

  /** The payloads of a sequence of nodes, in order. */
  function DataOf<T>(ns: seq<TreeNode<T>>): seq<T>
  {
    seq(|ns|, i requires 0 <= i < |ns| => ns[i].data)
  }

  /** The nodes drawn in a tree. */
  ghost function Nodes<T>(t: Tree<T>): set<TreeNode<T>>
    decreases t
  {
    {t.node} + set i, m | 0 <= i < |t.subtrees| && m in Nodes(t.subtrees[i]) :: m
  }

  /** The nodes drawn in a sequence of trees. */
  ghost function NodesOf<T>(ts: seq<Tree<T>>): set<TreeNode<T>>
  {
    set i, m | 0 <= i < |ts| && m in Nodes(ts[i]) :: m
  }

  /** Every node's children list holds the top nodes of its subtrees, in order. */
  ghost predicate Mirrors<T>(t: Tree<T>)
    reads Nodes(t)
    decreases t
  {
    t.node.children == Roots(t.subtrees) &&
    forall i :: 0 <= i < |t.subtrees| ==> Mirrors(t.subtrees[i])
  }

  /** The top node's parent is `parent`, and every other node's parent is the node above it. */
  ghost predicate Parents<T>(t: Tree<T>, parent: TreeNode?<T>)
    reads Nodes(t)
    decreases t
  {
    t.node.parent == parent &&
    forall i :: 0 <= i < |t.subtrees| ==> Parents(t.subtrees[i], t.node)
  }

  /** No node is drawn twice: the top node is in no subtree and the subtrees share no node. */
  ghost predicate Unique<T>(t: Tree<T>)
    decreases t
  {
    t.node !in NodesOf(t.subtrees) && UniqueOf(t.subtrees)
  }

  /** Each tree draws no node twice, and no two trees share a node. */
  ghost predicate UniqueOf<T>(ts: seq<Tree<T>>)
    decreases ts
  {
    (forall i :: 0 <= i < |ts| ==> Unique(ts[i])) &&
    (forall i, j :: 0 <= i < j < |ts| ==> Nodes(ts[i]) !! Nodes(ts[j]))
  }

  /** A tree as the operations keep it: drawn faithfully, linked upwards to no parent, no node twice. */
  ghost predicate WellFormed<T>(t: Tree<T>)
    reads Nodes(t)
  {
    Mirrors(t) && Parents(t, null) && Unique(t)
  }

  /** Pre-order: a node, then the pre-orders of its subtrees, left to right. */
  ghost function PreOrder<T>(t: Tree<T>): seq<TreeNode<T>>
    decreases t
  {
    [t.node] + PreOrderOf(t.subtrees)
  }

  ghost function PreOrderOf<T>(ts: seq<Tree<T>>): seq<TreeNode<T>>
    decreases ts
  {
    if ts == [] then [] else PreOrder(ts[0]) + PreOrderOf(ts[1..])
  }

  /** Post-order: the post-orders of the subtrees, left to right, then the node. */
  ghost function PostOrder<T>(t: Tree<T>): seq<TreeNode<T>>
    decreases t
  {
    PostOrderOf(t.subtrees) + [t.node]
  }

  ghost function PostOrderOf<T>(ts: seq<Tree<T>>): seq<TreeNode<T>>
    decreases ts
  {
    if ts == [] then [] else PostOrder(ts[0]) + PostOrderOf(ts[1..])
  }

  lemma {:induction false} PreOrderOfConcat<T>(a: seq<Tree<T>>, b: seq<Tree<T>>)
    ensures PreOrderOf(a + b) == PreOrderOf(a) + PreOrderOf(b)
    decreases a
  {
    if a != [] {
      assert (a + b)[0] == a[0] && (a + b)[1..] == a[1..] + b;
      PreOrderOfConcat(a[1..], b);
    } else {
      assert a + b == b;
    }
  }

  lemma {:induction false} PostOrderOfConcat<T>(a: seq<Tree<T>>, b: seq<Tree<T>>)
    ensures PostOrderOf(a + b) == PostOrderOf(a) + PostOrderOf(b)
    decreases a
  {
    if a != [] {
      assert (a + b)[0] == a[0] && (a + b)[1..] == a[1..] + b;
      PostOrderOfConcat(a[1..], b);
    } else {
      assert a + b == b;
    }
  }

  /**
   * Level order, as a first-in first-out queue of trees produces it: the
   * front tree's node, then the level order of the rest of the queue with
   * the front tree's subtrees queued behind it.
   */
  ghost function LevelOrder<T>(queue: seq<Tree<T>>): seq<TreeNode<T>>
    decreases |PreOrderOf(queue)|
  {
    if queue == [] then []
    else
      PreOrderOfConcat(queue[1..], queue[0].subtrees);
      assert PreOrderOf(queue) == [queue[0].node] + PreOrderOf(queue[0].subtrees) + PreOrderOf(queue[1..]);
      [queue[0].node] + LevelOrder(queue[1..] + queue[0].subtrees)
  }

  /** The first node of `ns` holding `target`, or None. */
  function FirstWith<T(==)>(ns: seq<TreeNode<T>>, target: T): Option<TreeNode<T>>
  {
    if ns == [] then None
    else if ns[0].data == target then Some(ns[0])
    else FirstWith(ns[1..], target)
  }

  /** `FirstWith` finds a node exactly when one holds the target, and it is the earliest such node. */
  lemma {:induction false} FirstWithFinds<T>(ns: seq<TreeNode<T>>, target: T)
    ensures FirstWith(ns, target).Some? <==> target in DataOf(ns)
    ensures FirstWith(ns, target).Some? ==>
      exists i :: 0 <= i < |ns| && ns[i] == FirstWith(ns, target).value && ns[i].data == target &&
        forall j :: 0 <= j < i ==> ns[j].data != target
  {
    if ns != [] {
      FirstWithFinds(ns[1..], target);
      assert DataOf(ns) == [ns[0].data] + DataOf(ns[1..]);
      if ns[0].data != target && FirstWith(ns, target).Some? {
        var i :| 0 <= i < |ns[1..]| && ns[1..][i] == FirstWith(ns[1..], target).value && ns[1..][i].data == target &&
          forall j :: 0 <= j < i ==> ns[1..][j].data != target;
        assert ns[i + 1] == ns[1..][i];
        forall j | 0 <= j < i + 1 ensures ns[j].data != target {
          if j > 0 { assert ns[j] == ns[1..][j - 1]; }
        }
      }
    }
  }

  /** Searching a concatenation finds in the first part, or else in the second. */
  lemma {:induction false} FirstWithConcat<T>(a: seq<TreeNode<T>>, b: seq<TreeNode<T>>, target: T)
    ensures FirstWith(a + b, target) == if FirstWith(a, target).Some? then FirstWith(a, target) else FirstWith(b, target)
    decreases a
  {
    if a != [] {
      assert (a + b)[0] == a[0] && (a + b)[1..] == a[1..] + b;
      FirstWithConcat(a[1..], b, target);
    } else {
      assert a + b == b;
    }
  }

  /** The first index of `n` in `ns`, or `|ns|` when it is absent. */
  function IndexIn<T>(ns: seq<TreeNode<T>>, n: TreeNode<T>): (i: nat)
    ensures i <= |ns| && (i < |ns| ==> ns[i] == n) && forall j :: 0 <= j < i ==> ns[j] != n
  {
    if ns == [] then 0 else if ns[0] == n then 0 else 1 + IndexIn(ns[1..], n)
  }

  /** Python's `list.remove`: drops the first occurrence of `n`, if any. */
  function RemoveFirst<T>(ns: seq<TreeNode<T>>, n: TreeNode<T>): seq<TreeNode<T>>
  {
    var i := IndexIn(ns, n);
    if i < |ns| then ns[..i] + ns[i + 1..] else ns
  }

  /**
   * The tree after `n` is detached: the node whose children include `n`
   * loses it, and `n`'s subtrees are appended, in order, after that node's
   * remaining subtrees.
   */
  ghost function Detach<T>(t: Tree<T>, n: TreeNode<T>): Tree<T>
    decreases t
  {
    var i := IndexIn(Roots(t.subtrees), n);
    if i < |t.subtrees| then
      Tree(t.node, t.subtrees[..i] + t.subtrees[i + 1..] + t.subtrees[i].subtrees)
    else
      Tree(t.node, seq(|t.subtrees|, j requires 0 <= j < |t.subtrees| => Detach(t.subtrees[j], n)))
  }

  /** A tree's nodes are its top node and the nodes of its subtrees. */
  lemma {:induction false} NodesOfTree<T>(t: Tree<T>)
    ensures Nodes(t) == {t.node} + NodesOf(t.subtrees)
  {
  }

  /** The nodes of a nonempty sequence of trees are those of the first tree and those of the rest. */
  lemma {:induction false} NodesOfCons<T>(ts: seq<Tree<T>>)
    requires ts != []
    ensures NodesOf(ts) == Nodes(ts[0]) + NodesOf(ts[1..])
  {
    var rest := ts[1..];
    forall m | m in NodesOf(ts) ensures m in Nodes(ts[0]) + NodesOf(rest) {
      var k :| 0 <= k < |ts| && m in Nodes(ts[k]);
      if k > 0 { assert ts[k] == rest[k - 1]; }
    }
    forall m | m in NodesOf(rest) ensures m in NodesOf(ts) {
      var k :| 0 <= k < |rest| && m in Nodes(rest[k]);
      assert rest[k] == ts[k + 1];
    }
  }

  lemma {:induction false} DataOfConcat<T>(a: seq<TreeNode<T>>, b: seq<TreeNode<T>>)
    ensures DataOf(a + b) == DataOf(a) + DataOf(b)
  {
  }

  lemma {:induction false} RootsOfConcat<T>(a: seq<Tree<T>>, b: seq<Tree<T>>)
    ensures Roots(a + b) == Roots(a) + Roots(b)
  {
  }

  /** Pre-order visits exactly the nodes of the tree. */
  lemma {:induction false} PreOrderVisitsNodes<T>(t: Tree<T>)
    ensures forall m :: m in PreOrder(t) <==> m in Nodes(t)
    decreases t, 1
  {
    PreOrderOfVisitsNodes(t.subtrees);
    NodesOfTree(t);
  }

  lemma {:induction false} PreOrderOfVisitsNodes<T>(ts: seq<Tree<T>>)
    ensures forall m :: m in PreOrderOf(ts) <==> m in NodesOf(ts)
    decreases ts, 0
  {
    if ts != [] {
      PreOrderVisitsNodes(ts[0]);
      PreOrderOfVisitsNodes(ts[1..]);
      NodesOfCons(ts);
    }
  }

  /** Post-order visits the same nodes as pre-order, as often. */
  lemma {:induction false} PostOrderPermutesPreOrder<T>(t: Tree<T>)
    ensures multiset(PostOrder(t)) == multiset(PreOrder(t))
    decreases t, 1
  {
    PostOrderOfPermutesPreOrderOf(t.subtrees);
  }

  lemma {:induction false} PostOrderOfPermutesPreOrderOf<T>(ts: seq<Tree<T>>)
    ensures multiset(PostOrderOf(ts)) == multiset(PreOrderOf(ts))
    decreases ts, 0
  {
    if ts != [] {
      PostOrderPermutesPreOrder(ts[0]);
      PostOrderOfPermutesPreOrderOf(ts[1..]);
    }
  }

  /** Level order over a queue visits the same nodes as the pre-orders of the queued trees. */
  lemma {:induction false} LevelOrderPermutesPreOrderOf<T>(queue: seq<Tree<T>>)
    ensures multiset(LevelOrder(queue)) == multiset(PreOrderOf(queue))
    decreases |PreOrderOf(queue)|
  {
    if queue != [] {
      var rest := queue[1..] + queue[0].subtrees;
      PreOrderOfConcat(queue[1..], queue[0].subtrees);
      assert PreOrderOf(queue) == [queue[0].node] + PreOrderOf(queue[0].subtrees) + PreOrderOf(queue[1..]);
      LevelOrderPermutesPreOrderOf(rest);
    }
  }

  /**
   * The three traversals visit every node of the tree, each as often as the
   * others; pre-order and level order start at the top node and post-order
   * ends there.
   */
  lemma {:induction false} TraversalsVisitTheSameNodes<T>(t: Tree<T>)
    ensures multiset(PostOrder(t)) == multiset(PreOrder(t)) && multiset(LevelOrder([t])) == multiset(PreOrder(t))
    ensures forall m :: m in PreOrder(t) <==> m in Nodes(t)
    ensures PreOrder(t)[0] == t.node && LevelOrder([t])[0] == t.node && PostOrder(t)[|PostOrder(t)| - 1] == t.node
  {
    PostOrderPermutesPreOrder(t);
    LevelOrderPermutesPreOrderOf([t]);
    assert PreOrderOf([t]) == PreOrder(t) + PreOrderOf([]);
    PreOrderVisitsNodes(t);
  }

  lemma {:induction false} DataOfMembers<T>(ns: seq<TreeNode<T>>, target: T)
    ensures target in DataOf(ns) <==> exists m :: m in ns && m.data == target
  {
    if target in DataOf(ns) {
      var i :| 0 <= i < |ns| && DataOf(ns)[i] == target;
      assert ns[i] in ns;
    }
    if exists m :: m in ns && m.data == target {
      var m :| m in ns && m.data == target;
      var i :| 0 <= i < |ns| && ns[i] == m;
      assert DataOf(ns)[i] == target;
    }
  }

  /**
   * Depth-first and breadth-first search agree on whether the target is in
   * the tree, and then both find a node holding it.
   */
  lemma {:induction false} SearchesAgree<T>(t: Tree<T>, target: T)
    ensures FirstWith(PreOrder(t), target).Some? <==> FirstWith(LevelOrder([t]), target).Some?
    ensures FirstWith(PreOrder(t), target).Some? ==> FirstWith(PreOrder(t), target).value.data == target
    ensures FirstWith(LevelOrder([t]), target).Some? ==> FirstWith(LevelOrder([t]), target).value.data == target
  {
    TraversalsVisitTheSameNodes(t);
    assert forall m :: m in PreOrder(t) <==> m in multiset(PreOrder(t));
    assert forall m :: m in LevelOrder([t]) <==> m in multiset(LevelOrder([t]));
    FirstWithFinds(PreOrder(t), target);
    FirstWithFinds(LevelOrder([t]), target);
    DataOfMembers(PreOrder(t), target);
    DataOfMembers(LevelOrder([t]), target);
  }

  lemma {:induction false} NodesOfConcat<T>(a: seq<Tree<T>>, b: seq<Tree<T>>)
    ensures NodesOf(a + b) == NodesOf(a) + NodesOf(b)
  {
    forall m | m in NodesOf(a + b) ensures m in NodesOf(a) + NodesOf(b) {
      var k :| 0 <= k < |a + b| && m in Nodes((a + b)[k]);
      if k >= |a| { assert (a + b)[k] == b[k - |a|]; }
    }
    forall m | m in NodesOf(a) ensures m in NodesOf(a + b) {
      var k :| 0 <= k < |a| && m in Nodes(a[k]);
      assert (a + b)[k] == a[k];
    }
    forall m | m in NodesOf(b) ensures m in NodesOf(a + b) {
      var k :| 0 <= k < |b| && m in Nodes(b[k]);
      assert (a + b)[k + |a|] == b[k];
    }
  }

  /** Trees that draw no node twice together split into parts that do so and share no node. */
  lemma {:induction false} UniqueOfSplit<T>(a: seq<Tree<T>>, b: seq<Tree<T>>)
    requires UniqueOf(a + b)
    ensures UniqueOf(a) && UniqueOf(b) && NodesOf(a) !! NodesOf(b)
  {
    var ab := a + b;
    forall i | 0 <= i < |a| ensures Unique(a[i]) {
      assert ab[i] == a[i];
    }
    forall i, j | 0 <= i < j < |a| ensures Nodes(a[i]) !! Nodes(a[j]) {
      assert ab[i] == a[i] && ab[j] == a[j];
    }
    forall i | 0 <= i < |b| ensures Unique(b[i]) {
      assert ab[|a| + i] == b[i];
    }
    forall i, j | 0 <= i < j < |b| ensures Nodes(b[i]) !! Nodes(b[j]) {
      assert ab[|a| + i] == b[i] && ab[|a| + j] == b[j];
    }
    forall m | m in NodesOf(a) ensures m !in NodesOf(b) {
      var i :| 0 <= i < |a| && m in Nodes(a[i]);
      assert ab[i] == a[i];
      forall j | 0 <= j < |b| ensures m !in Nodes(b[j]) {
        assert ab[|a| + j] == b[j];
      }
    }
  }

  /** Parts that each draw no node twice and share no node draw no node twice together. */
  lemma {:induction false} UniqueOfJoin<T>(a: seq<Tree<T>>, b: seq<Tree<T>>)
    requires UniqueOf(a) && UniqueOf(b) && NodesOf(a) !! NodesOf(b)
    ensures UniqueOf(a + b)
  {
    var ab := a + b;
    forall i | 0 <= i < |ab| ensures Unique(ab[i]) {
      if i >= |a| { assert ab[i] == b[i - |a|]; }
    }
    forall i, j | 0 <= i < j < |ab| ensures Nodes(ab[i]) !! Nodes(ab[j]) {
      if j < |a| {
        assert ab[i] == a[i] && ab[j] == a[j];
      } else if i >= |a| {
        assert ab[i] == b[i - |a|] && ab[j] == b[j - |a|];
      } else {
        assert ab[i] == a[i] && ab[j] == b[j - |a|];
        assert Nodes(a[i]) <= NodesOf(a) && Nodes(b[j - |a|]) <= NodesOf(b);
      }
    }
  }

  /** A tree without `n` in it is left as it is by detaching `n`. */
  lemma {:induction false} DetachAbsent<T>(t: Tree<T>, n: TreeNode<T>)
    requires n !in Nodes(t)
    ensures Detach(t, n) == t
    decreases t
  {
    var ss := t.subtrees;
    forall j | 0 <= j < |ss| ensures Roots(ss)[j] != n && Detach(ss[j], n) == ss[j] {
      NodesOfTree(ss[j]);
      assert Nodes(ss[j]) <= Nodes(t);
      DetachAbsent(ss[j], n);
    }
    assert seq(|ss|, j requires 0 <= j < |ss| => Detach(ss[j], n)) == ss;
  }

  lemma {:induction false} NodesOfSingleton<T>(s: Tree<T>)
    ensures NodesOf([s]) == Nodes(s)
  {
    assert forall m :: m in Nodes(s) ==> m in Nodes([s][0]);
  }

  /**
   * Detaching a node below the top of a tree that draws no node twice keeps
   * the top node, removes exactly that node, and draws no node twice.
   */
  lemma {:induction false} DetachRemovesNode<T>(t: Tree<T>, n: TreeNode<T>)
    requires Unique(t) && n in Nodes(t) && n != t.node
    ensures Detach(t, n).node == t.node && Nodes(Detach(t, n)) == Nodes(t) - {n} && Unique(Detach(t, n))
    decreases t, 2
  {
    var i := IndexIn(Roots(t.subtrees), n);
    if i < |t.subtrees| {
      DetachChild(t, n, i);
      DetachAtChild(t, n, i);
    } else {
      DetachDeep(t, n);
    }
  }

  /** `DetachRemovesNode` where `n` is below the top of one of the subtrees. */
  lemma {:induction false} DetachDeep<T>(t: Tree<T>, n: TreeNode<T>)
    requires Unique(t) && n in Nodes(t) && n != t.node && IndexIn(Roots(t.subtrees), n) == |t.subtrees|
    ensures Detach(t, n).node == t.node && Nodes(Detach(t, n)) == Nodes(t) - {n} && Unique(Detach(t, n))
    decreases t, 1
  {
    var ss := t.subtrees;
    DetachBelow(t, n);
    var ts := Detach(t, n).subtrees;
    DetachEach(t, n);
    RemovedFromEach(ss, ts, n);
    NodesOfTree(t);
    NodesOfTree(Detach(t, n));
  }

  /** Detaching `n` from each subtree of `t` removes it from the one subtree that draws it. */
  lemma {:induction false} DetachEach<T>(t: Tree<T>, n: TreeNode<T>)
    requires Unique(t) && n in Nodes(t) && n != t.node && IndexIn(Roots(t.subtrees), n) == |t.subtrees|
    ensures forall j :: 0 <= j < |t.subtrees| ==>
      Unique(Detach(t.subtrees[j], n)) && Nodes(Detach(t.subtrees[j], n)) == Nodes(t.subtrees[j]) - {n}
    decreases t, 0
  {
    var ss := t.subtrees;
    NodesOfTree(t);
    var k :| 0 <= k < |ss| && n in Nodes(ss[k]);
    SubtreeNodes(t, k);
    assert n != ss[k].node by { assert Roots(ss)[k] != n; }
    forall j | 0 <= j < |ss| ensures Unique(Detach(ss[j], n)) && Nodes(Detach(ss[j], n)) == Nodes(ss[j]) - {n} {
      if j == k {
        DetachRemovesNode(ss[j], n);
      } else {
        DetachAbsent(ss[j], n);
      }
    }
  }

  /** Trees each drawn as before less `n` draw, together, what they drew less `n`, and still no node twice. */
  lemma {:induction false} RemovedFromEach<T>(ss: seq<Tree<T>>, ts: seq<Tree<T>>, n: TreeNode<T>)
    requires UniqueOf(ss) && |ts| == |ss|
    requires forall j :: 0 <= j < |ss| ==> Unique(ts[j]) && Nodes(ts[j]) == Nodes(ss[j]) - {n}
    ensures UniqueOf(ts) && NodesOf(ts) == NodesOf(ss) - {n}
  {
    forall j, l | 0 <= j < l < |ts| ensures Nodes(ts[j]) !! Nodes(ts[l]) {
      assert Nodes(ss[j]) !! Nodes(ss[l]);
    }
    forall m | m in NodesOf(ts) ensures m in NodesOf(ss) - {n} {
      var j :| 0 <= j < |ts| && m in Nodes(ts[j]);
    }
    forall m | m in NodesOf(ss) - {n} ensures m in NodesOf(ts) {
      var j :| 0 <= j < |ss| && m in Nodes(ss[j]);
      assert m in Nodes(ts[j]);
    }
  }

  /** `DetachRemovesNode` where `n` is the top of the `i`th subtree. */
  lemma {:induction false} DetachChild<T>(t: Tree<T>, n: TreeNode<T>, i: nat)
    requires Unique(t) && i < |t.subtrees| && i == IndexIn(Roots(t.subtrees), n)
    ensures Nodes(Detach(t, n)) == Nodes(t) - {n} && Unique(Detach(t, n))
  {
    var ss := t.subtrees;
    var a, s, b := ss[..i], ss[i], ss[i + 1..];
    assert ss == (a + [s]) + b;
    DetachAtChild(t, n, i);
    Splice(a, s, b);
    var ts := a + b + s.subtrees;
    assert Detach(t, n) == Tree(t.node, ts);
    assert t.node !in NodesOf(ts);
    NodesOfTree(s);
    assert n in NodesOf(ss) by { assert n in Nodes(ss[i]); }
    NodesOfTree(t);
    NodesOfTree(Tree(t.node, ts));
  }

  /** Replacing a tree by its subtrees keeps every node but its top, and still draws no node twice. */
  lemma {:induction false} Splice<T>(a: seq<Tree<T>>, s: Tree<T>, b: seq<Tree<T>>)
    requires UniqueOf(a + [s] + b)
    ensures UniqueOf(a + b + s.subtrees) && NodesOf(a + b + s.subtrees) == NodesOf(a + [s] + b) - {s.node}
  {
    UniqueOfSplit(a + [s], b);
    UniqueOfSplit(a, [s]);
    NodesOfConcat(a + [s], b);
    NodesOfConcat(a, [s]);
    NodesOfSingleton(s);
    assert Unique(s) by { assert [s][0] == s; }
    NodesOfTree(s);
    UniqueOfJoin(a, b);
    NodesOfConcat(a, b);
    UniqueOfJoin(a + b, s.subtrees);
    NodesOfConcat(a + b, s.subtrees);
  }

  /** No node drawn below the top of one tree is the top of any tree beside it. */
  lemma {:induction false} DeepNodesAreNotRoots<T>(ts: seq<Tree<T>>, k: nat)
    requires UniqueOf(ts) && k < |ts|
    ensures forall o :: o in NodesOf(ts[k].subtrees) ==> o !in Roots(ts)
  {
    NodesOfTree(ts[k]);
    forall o, j | o in NodesOf(ts[k].subtrees) && 0 <= j < |ts| ensures o != ts[j].node {
      NodesOfTree(ts[j]);
      if j != k {
        assert Nodes(ts[j]) !! Nodes(ts[k]) by {
          if j < k { } else { }
        }
      }
    }
  }

  /**
   * The links of some nodes at one moment: each node's children list and
   * parent, as maps. Lemmas about what an operation does to the links are
   * stated on two such snapshots.
   */
  datatype Links<T> = Links(children: map<TreeNode<T>, seq<TreeNode<T>>>, parent: map<TreeNode<T>, TreeNode?<T>>)

  /** The links of the nodes `ns` as the heap holds them now. */
  ghost function LinksOf<T>(ns: set<TreeNode<T>>): (l: Links<T>)
    reads ns
    ensures l.children.Keys == ns && l.parent.Keys == ns
  {
    Links(map o | o in ns :: o.children, map o | o in ns :: o.parent)
  }

  /** `Mirrors`, read from a snapshot. */
  ghost predicate MirrorsIn<T>(t: Tree<T>, l: Links<T>)
    decreases t
  {
    t.node in l.children && l.children[t.node] == Roots(t.subtrees) &&
    forall i :: 0 <= i < |t.subtrees| ==> MirrorsIn(t.subtrees[i], l)
  }

  /** `Parents`, read from a snapshot. */
  ghost predicate ParentsIn<T>(t: Tree<T>, l: Links<T>, parent: TreeNode?<T>)
    decreases t
  {
    t.node in l.parent && l.parent[t.node] == parent &&
    forall i :: 0 <= i < |t.subtrees| ==> ParentsIn(t.subtrees[i], l, t.node)
  }

  /** A snapshot of the heap mirrors a tree exactly when the heap does. */
  lemma {:induction false} MirrorsAsLinks<T>(t: Tree<T>, ns: set<TreeNode<T>>)
    requires Nodes(t) <= ns
    ensures Mirrors(t) <==> MirrorsIn(t, LinksOf(ns))
    decreases t
  {
    NodesOfTree(t);
    forall i | 0 <= i < |t.subtrees| ensures Mirrors(t.subtrees[i]) <==> MirrorsIn(t.subtrees[i], LinksOf(ns)) {
      MirrorsAsLinks(t.subtrees[i], ns);
    }
  }

  /** A snapshot of the heap links a tree upwards exactly when the heap does. */
  lemma {:induction false} ParentsAsLinks<T>(t: Tree<T>, ns: set<TreeNode<T>>, parent: TreeNode?<T>)
    requires Nodes(t) <= ns
    ensures Parents(t, parent) <==> ParentsIn(t, LinksOf(ns), parent)
    decreases t
  {
    NodesOfTree(t);
    forall i | 0 <= i < |t.subtrees| ensures Parents(t.subtrees[i], t.node) <==> ParentsIn(t.subtrees[i], LinksOf(ns), t.node) {
      ParentsAsLinks(t.subtrees[i], ns, t.node);
    }
  }

  /** The nodes `ns` have the same children in both snapshots. */
  ghost predicate SameChildren<T>(l: Links<T>, l': Links<T>, ns: set<TreeNode<T>>)
  {
    forall o :: o in ns ==> o in l.children && o in l'.children && l'.children[o] == l.children[o]
  }

  /** The nodes `ns` have the same parent in both snapshots. */
  ghost predicate SameParents<T>(l: Links<T>, l': Links<T>, ns: set<TreeNode<T>>)
  {
    forall o :: o in ns ==> o in l.parent && o in l'.parent && l'.parent[o] == l.parent[o]
  }

  /** Children lists nobody changed still mirror the tree. */
  lemma {:induction false} MirrorsInFrame<T>(t: Tree<T>, l: Links<T>, l': Links<T>)
    requires MirrorsIn(t, l) && SameChildren(l, l', Nodes(t))
    ensures MirrorsIn(t, l')
    decreases t
  {
    NodesOfTree(t);
    forall i | 0 <= i < |t.subtrees| ensures MirrorsIn(t.subtrees[i], l') {
      assert Nodes(t.subtrees[i]) <= Nodes(t);
      MirrorsInFrame(t.subtrees[i], l, l');
    }
  }

  /** Parent links nobody changed below the top still point up, whatever the top's parent now is. */
  lemma {:induction false} ParentsInFrame<T>(t: Tree<T>, l: Links<T>, l': Links<T>, parent: TreeNode?<T>, parent': TreeNode?<T>)
    requires ParentsIn(t, l, parent) && SameParents(l, l', NodesOf(t.subtrees))
    requires t.node in l'.parent && l'.parent[t.node] == parent'
    ensures ParentsIn(t, l', parent')
    decreases t
  {
    forall i | 0 <= i < |t.subtrees| ensures ParentsIn(t.subtrees[i], l', t.node) {
      var u := t.subtrees[i];
      NodesOfTree(u);
      assert Nodes(u) <= NodesOf(t.subtrees);
      ParentsInFrame(u, l, l', t.node, t.node);
    }
  }

  /** A node below the top has its parent drawn in the same tree. */
  lemma {:induction false} ParentWithin<T>(t: Tree<T>, l: Links<T>, parent: TreeNode?<T>, n: TreeNode<T>)
    requires ParentsIn(t, l, parent) && n in Nodes(t) && n != t.node
    ensures n in l.parent && l.parent[n] != null && l.parent[n] in Nodes(t)
    decreases t
  {
    NodesOfTree(t);
    var k :| 0 <= k < |t.subtrees| && n in Nodes(t.subtrees[k]);
    NodesOfTree(t.subtrees[k]);
    if n != t.subtrees[k].node {
      ParentWithin(t.subtrees[k], l, t.node, n);
    }
  }

  /** A node's children are drawn below the top of any tree the node is drawn in. */
  lemma {:induction false} ChildrenWithin<T>(t: Tree<T>, l: Links<T>, n: TreeNode<T>)
    requires MirrorsIn(t, l) && n in Nodes(t)
    ensures n in l.children && forall o :: o in l.children[n] ==> o in NodesOf(t.subtrees)
    decreases t
  {
    NodesOfTree(t);
    if n == t.node {
      forall o | o in l.children[n] ensures o in NodesOf(t.subtrees) {
        var j :| 0 <= j < |t.subtrees| && Roots(t.subtrees)[j] == o;
        NodesOfTree(t.subtrees[j]);
      }
    } else {
      var k :| 0 <= k < |t.subtrees| && n in Nodes(t.subtrees[k]);
      ChildrenWithin(t.subtrees[k], l, n);
      NodesOfTree(t.subtrees[k]);
    }
  }

  /**
   * Around a node of a tree linked as drawn: its children are other nodes
   * of the tree, none of them the top, and unless it is the top its parent
   * is another node of the tree.
   */
  lemma {:induction false} LinksAround<T>(t: Tree<T>, l: Links<T>, parent: TreeNode?<T>, n: TreeNode<T>)
    requires MirrorsIn(t, l) && ParentsIn(t, l, parent) && Unique(t) && n in Nodes(t)
    ensures n in l.children && forall o :: o in l.children[n] ==> o in Nodes(t) && o != n && o != t.node
    ensures n != t.node ==> n in l.parent && l.parent[n] != null && l.parent[n] in Nodes(t) && l.parent[n] != n
    decreases t
  {
    NodesOfTree(t);
    if n == t.node {
      ChildrenWithin(t, l, n);
    } else {
      var k :| 0 <= k < |t.subtrees| && n in Nodes(t.subtrees[k]);
      SubtreeNodes(t, k);
      LinksAround(t.subtrees[k], l, t.node, n);
    }
  }

  /**
   * The relinking that detaches `n`: the node `n`'s parent names loses `n`
   * from its children and gains `n`'s children after the rest, and those
   * children now name that node as parent. Every other link of the tree's
   * nodes, `n` aside, is as it was.
   */
  ghost predicate Reattached<T>(t: Tree<T>, n: TreeNode<T>, l: Links<T>, l': Links<T>)
  {
    n in l.children && n in l.parent && l.parent[n] != null &&
    var p: TreeNode<T> := l.parent[n];
    var moved := set o | o in l.children[n];
    p in l.children && p in l'.children && l'.children[p] == RemoveFirst(l.children[p], n) + l.children[n] &&
    (forall o :: o in l.children[n] ==> o in l'.parent && l'.parent[o] == p) &&
    SameChildren(l, l', Nodes(t) - {n, p}) &&
    SameParents(l, l', Nodes(t) - {n} - moved)
  }

  /** The relinking, seen from a subtree. */
  lemma {:induction false} ReattachedWithin<T>(t: Tree<T>, u: Tree<T>, n: TreeNode<T>, l: Links<T>, l': Links<T>)
    requires Reattached(t, n, l, l') && Nodes(u) <= Nodes(t)
    ensures Reattached(u, n, l, l')
  {
  }

  /**
   * Relinking as `Reattached` says keeps the links consistent with the tree
   * `Detach` draws: every children list and parent link of the remaining
   * nodes agrees with it.
   */
  lemma {:induction false} DetachKeepsLinks<T>(t: Tree<T>, n: TreeNode<T>, l: Links<T>, l': Links<T>, parent: TreeNode?<T>)
    requires MirrorsIn(t, l) && ParentsIn(t, l, parent) && Unique(t)
    requires n in Nodes(t) && n != t.node && Reattached(t, n, l, l')
    ensures MirrorsIn(Detach(t, n), l') && ParentsIn(Detach(t, n), l', parent)
    decreases t, 2
  {
    var i := IndexIn(Roots(t.subtrees), n);
    if i < |t.subtrees| {
      DetachChildKeepsLinks(t, n, i, l, l', parent);
    } else {
      DetachDeepKeepsLinks(t, n, l, l', parent);
    }
  }

  /** `DetachKeepsLinks` where `n` is below the top of one of the subtrees. */
  lemma {:induction false} DetachDeepKeepsLinks<T>(t: Tree<T>, n: TreeNode<T>, l: Links<T>, l': Links<T>, parent: TreeNode?<T>)
    requires MirrorsIn(t, l) && ParentsIn(t, l, parent) && Unique(t)
    requires n in Nodes(t) && n != t.node && Reattached(t, n, l, l')
    requires IndexIn(Roots(t.subtrees), n) == |t.subtrees|
    ensures MirrorsIn(Detach(t, n), l') && ParentsIn(Detach(t, n), l', parent)
    decreases t, 1
  {
    var ss := t.subtrees;
    DetachBelow(t, n);
    var ts := Detach(t, n).subtrees;
    SubtreesKeepLinks(t, n, l, l', parent);
    TopKeepsLinks(t, n, l, l', parent);
    assert Roots(ts) == Roots(ss);
    LinksOfTree(t.node, ts, l', parent);
  }

  /** Relinking as `Reattached` says keeps each subtree's links consistent with the subtree detaching `n` leaves. */
  lemma {:induction false} SubtreesKeepLinks<T>(t: Tree<T>, n: TreeNode<T>, l: Links<T>, l': Links<T>, parent: TreeNode?<T>)
    requires MirrorsIn(t, l) && ParentsIn(t, l, parent) && Unique(t)
    requires n in Nodes(t) && n != t.node && Reattached(t, n, l, l')
    requires IndexIn(Roots(t.subtrees), n) == |t.subtrees|
    ensures forall j :: 0 <= j < |t.subtrees| ==>
      MirrorsIn(Detach(t.subtrees[j], n), l') && ParentsIn(Detach(t.subtrees[j], n), l', t.node)
    decreases t, 0
  {
    var ss := t.subtrees;
    NodesOfTree(t);
    var k :| 0 <= k < |ss| && n in Nodes(ss[k]);
    SubtreeNodes(t, k);
    assert n != ss[k].node by { assert Roots(ss)[k] != n; }
    ParentWithin(ss[k], l, t.node, n);
    ChildrenWithin(ss[k], l, n);
    forall j | 0 <= j < |ss| ensures MirrorsIn(Detach(ss[j], n), l') && ParentsIn(Detach(ss[j], n), l', t.node) {
      if j == k {
        ReattachedWithin(t, ss[j], n, l, l');
        DetachKeepsLinks(ss[j], n, l, l', t.node);
      } else {
        DetachAbsent(ss[j], n);
        UntouchedKeepsLinks(t, n, l, l', ss[j], t.node);
      }
    }
  }

  /** Relinking as `Reattached` says leaves the top's own links alone when `n` is below the top of a subtree. */
  lemma {:induction false} TopKeepsLinks<T>(t: Tree<T>, n: TreeNode<T>, l: Links<T>, l': Links<T>, parent: TreeNode?<T>)
    requires MirrorsIn(t, l) && ParentsIn(t, l, parent) && Unique(t)
    requires n in Nodes(t) && n != t.node && Reattached(t, n, l, l')
    requires IndexIn(Roots(t.subtrees), n) == |t.subtrees|
    ensures t.node in l'.children && l'.children[t.node] == Roots(t.subtrees)
    ensures t.node in l'.parent && l'.parent[t.node] == parent
  {
    var ss := t.subtrees;
    NodesOfTree(t);
    var k :| 0 <= k < |ss| && n in Nodes(ss[k]);
    SubtreeNodes(t, k);
    assert n != ss[k].node by { assert Roots(ss)[k] != n; }
    ParentWithin(ss[k], l, t.node, n);
    ChildrenWithin(ss[k], l, n);
  }

  /** Where the nodes of the `k`th subtree are drawn, and that no other subtree shares them. */
  lemma {:induction false} SubtreeNodes<T>(t: Tree<T>, k: nat)
    requires Unique(t) && k < |t.subtrees|
    ensures Nodes(t.subtrees[k]) <= Nodes(t) && t.node !in Nodes(t.subtrees[k])
    ensures NodesOf(t.subtrees[k].subtrees) <= Nodes(t.subtrees[k])
    ensures forall j :: 0 <= j < |t.subtrees| && j != k ==>
      Nodes(t.subtrees[j]) !! Nodes(t.subtrees[k]) && Nodes(t.subtrees[j]) <= Nodes(t) && t.node !in Nodes(t.subtrees[j])
  {
    NodesOfTree(t);
    NodesOfTree(t.subtrees[k]);
    forall j | 0 <= j < |t.subtrees| && j != k
      ensures Nodes(t.subtrees[j]) !! Nodes(t.subtrees[k])
    {
      if j < k { } else { }
    }
  }

  /** A subtree holding none of the relinked nodes keeps its links. */
  lemma {:induction false} UntouchedKeepsLinks<T>(t: Tree<T>, n: TreeNode<T>, l: Links<T>, l': Links<T>, u: Tree<T>, top: TreeNode?<T>)
    requires Reattached(t, n, l, l') && Nodes(u) <= Nodes(t) && n !in Nodes(u) && l.parent[n] !in Nodes(u)
    requires forall o :: o in l.children[n] ==> o !in Nodes(u)
    requires MirrorsIn(u, l) && ParentsIn(u, l, top)
    ensures MirrorsIn(u, l') && ParentsIn(u, l', top)
  {
    NodesOfTree(u);
    assert Nodes(u) <= Nodes(t) - {n, l.parent[n]};
    assert Nodes(u) <= Nodes(t) - {n} - set o | o in l.children[n];
    MirrorsInFrame(u, l, l');
    ParentsInFrame(u, l, l', top, top);
  }

  /** `DetachKeepsLinks` where `n` is the top of the `i`th subtree. */
  lemma {:induction false} DetachChildKeepsLinks<T>(t: Tree<T>, n: TreeNode<T>, i: nat, l: Links<T>, l': Links<T>, parent: TreeNode?<T>)
    requires MirrorsIn(t, l) && ParentsIn(t, l, parent) && Unique(t)
    requires i < |t.subtrees| && i == IndexIn(Roots(t.subtrees), n) && Reattached(t, n, l, l')
    ensures MirrorsIn(Detach(t, n), l') && ParentsIn(Detach(t, n), l', parent)
  {
    var ss := t.subtrees;
    var s := ss[i];
    var rest := ss[..i] + ss[i + 1..];
    DetachAtChild(t, n, i);
    assert s.node == n && l.parent[n] == t.node && l.children[n] == Roots(s.subtrees);
    assert MirrorsIn(s, l) && ParentsIn(s, l, t.node);
    GrandchildrenAreNotTop(t, i);
    NodesOfTree(t);
    assert n in NodesOf(ss) by { NodesOfTree(s); assert n in Nodes(ss[i]); }
    ChildTopRelinked(t, n, i, l, l', parent);
    forall u | u in rest ensures MirrorsIn(u, l') && ParentsIn(u, l', t.node) {
      SiblingKeepsLinks(t, n, i, l, l', parent, u);
    }
    forall u | u in s.subtrees ensures MirrorsIn(u, l') && ParentsIn(u, l', t.node) {
      AdopteeKeepsLinks(t, n, i, l, l', u);
    }
    LinksOfTree(t.node, rest + s.subtrees, l', parent);
  }

  /** Detaching the top of the `i`th subtree splices its subtrees in after the remaining ones. */
  lemma {:induction false} DetachAtChild<T>(t: Tree<T>, n: TreeNode<T>, i: nat)
    requires i < |t.subtrees| && i == IndexIn(Roots(t.subtrees), n)
    ensures t.subtrees[i].node == n
    ensures Detach(t, n) == Tree(t.node, t.subtrees[..i] + t.subtrees[i + 1..] + t.subtrees[i].subtrees)
  {
  }

  /** Detaching a node that is not the top of any subtree detaches it from each subtree. */
  lemma {:induction false} DetachBelow<T>(t: Tree<T>, n: TreeNode<T>)
    requires IndexIn(Roots(t.subtrees), n) == |t.subtrees|
    ensures Detach(t, n).node == t.node && |Detach(t, n).subtrees| == |t.subtrees|
    ensures forall j :: 0 <= j < |t.subtrees| ==>
      Detach(t, n).subtrees[j] == Detach(t.subtrees[j], n) && Detach(t, n).subtrees[j].node == t.subtrees[j].node
  {
  }

  /** A node with given subtrees is mirrored and linked upwards when its own links and its subtrees' are. */
  lemma {:induction false} LinksOfTree<T>(top: TreeNode<T>, ts: seq<Tree<T>>, l: Links<T>, parent: TreeNode?<T>)
    requires top in l.children && l.children[top] == Roots(ts) && top in l.parent && l.parent[top] == parent
    requires forall u :: u in ts ==> MirrorsIn(u, l) && ParentsIn(u, l, top)
    ensures MirrorsIn(Tree(top, ts), l) && ParentsIn(Tree(top, ts), l, parent)
  {
    assert forall j :: 0 <= j < |ts| ==> ts[j] in ts;
  }

  /** Detaching the `i`th child relinks the top node as `Detach` draws it. */
  lemma {:induction false} ChildTopRelinked<T>(t: Tree<T>, n: TreeNode<T>, i: nat, l: Links<T>, l': Links<T>, parent: TreeNode?<T>)
    requires i < |t.subtrees| && i == IndexIn(Roots(t.subtrees), n) && Reattached(t, n, l, l')
    requires t.node in l.children && l.children[t.node] == Roots(t.subtrees) && t.node in l.parent && l.parent[t.node] == parent
    requires l.parent[n] == t.node && l.children[n] == Roots(t.subtrees[i].subtrees)
    requires t.node in Nodes(t) && t.node != n && forall o :: o in l.children[n] ==> o != t.node
    ensures t.node in l'.children && l'.children[t.node] == Roots(t.subtrees[..i] + t.subtrees[i + 1..] + t.subtrees[i].subtrees)
    ensures t.node in l'.parent && l'.parent[t.node] == parent
  {
    var ss := t.subtrees;
    var a, s, b := ss[..i], ss[i], ss[i + 1..];
    assert t.node in Nodes(t) - {n} - set o | o in l.children[n];
    assert RemoveFirst(Roots(ss), n) == Roots(ss)[..i] + Roots(ss)[i + 1..];
    assert Roots(ss)[..i] == Roots(a) && Roots(ss)[i + 1..] == Roots(b);
    RootsOfConcat(a, b);
    RootsOfConcat(a + b, s.subtrees);
  }

  /** The `i`th child's children are not the top node. */
  lemma {:induction false} GrandchildrenAreNotTop<T>(t: Tree<T>, i: nat)
    requires Unique(t) && i < |t.subtrees|
    ensures forall o :: o in Roots(t.subtrees[i].subtrees) ==> o != t.node
  {
    var s := t.subtrees[i];
    forall o | o in Roots(s.subtrees) ensures o != t.node {
      var j :| 0 <= j < |s.subtrees| && s.subtrees[j].node == o;
      NodesOfTree(s.subtrees[j]);
      NodesOfTree(s);
      assert o in Nodes(s);
    }
  }

  /** Where the nodes of a subtree of the `i`th child's are drawn. */
  lemma {:induction false} GrandchildNodes<T>(t: Tree<T>, i: nat, u: Tree<T>)
    requires Unique(t) && i < |t.subtrees| && u in t.subtrees[i].subtrees
    ensures Nodes(u) <= Nodes(t) && t.node !in Nodes(u) && t.subtrees[i].node !in Nodes(u)
    ensures NodesOf(u.subtrees) <= Nodes(u)
    ensures forall o :: o in NodesOf(u.subtrees) ==> o !in Roots(t.subtrees[i].subtrees)
  {
    var s := t.subtrees[i];
    var j :| 0 <= j < |s.subtrees| && s.subtrees[j] == u;
    NodesOfTree(t);
    NodesOfTree(s);
    NodesOfTree(u);
    assert Unique(s);
    assert Nodes(u) <= NodesOf(s.subtrees);
    assert Nodes(s) <= NodesOf(t.subtrees);
    DeepNodesAreNotRoots(s.subtrees, j);
  }

  /** A subtree under the detached child keeps its links, its top now naming the child's parent. */
  lemma {:induction false} AdopteeKeepsLinks<T>(t: Tree<T>, n: TreeNode<T>, i: nat, l: Links<T>, l': Links<T>, u: Tree<T>)
    requires i < |t.subtrees| && t.subtrees[i].node == n && Reattached(t, n, l, l') && Unique(t)
    requires MirrorsIn(t.subtrees[i], l) && ParentsIn(t.subtrees[i], l, t.node)
    requires u in t.subtrees[i].subtrees
    ensures MirrorsIn(u, l') && ParentsIn(u, l', t.node)
  {
    var s := t.subtrees[i];
    assert l.parent[n] == t.node && l.children[n] == Roots(s.subtrees);
    var j :| 0 <= j < |s.subtrees| && s.subtrees[j] == u;
    assert Roots(s.subtrees)[j] == u.node;
    assert MirrorsIn(u, l) && ParentsIn(u, l, n);
    GrandchildNodes(t, i, u);
    assert SameChildren(l, l', Nodes(u)) by {
      forall o | o in Nodes(u) ensures o in Nodes(t) - {n, t.node} { }
    }
    assert SameParents(l, l', NodesOf(u.subtrees)) by {
      forall o | o in NodesOf(u.subtrees) ensures o in Nodes(t) - {n} - set o | o in l.children[n] { }
    }
    MirrorsInFrame(u, l, l');
    ParentsInFrame(u, l, l', n, t.node);
  }

  /** A sibling of the detached child keeps its links. */
  lemma {:induction false} SiblingKeepsLinks<T>(t: Tree<T>, n: TreeNode<T>, i: nat, l: Links<T>, l': Links<T>, parent: TreeNode?<T>, u: Tree<T>)
    requires MirrorsIn(t, l) && ParentsIn(t, l, parent) && Unique(t)
    requires i < |t.subtrees| && t.subtrees[i].node == n && Reattached(t, n, l, l')
    requires u in t.subtrees[..i] + t.subtrees[i + 1..]
    ensures MirrorsIn(u, l') && ParentsIn(u, l', t.node)
  {
    var ss := t.subtrees;
    var j :| 0 <= j < |ss| && j != i && ss[j] == u by {
      if u in ss[..i] {
        var j :| 0 <= j < i && ss[..i][j] == u;
        assert ss[j] == u;
      } else {
        var j :| 0 <= j < |ss[i + 1..]| && ss[i + 1..][j] == u;
        assert ss[i + 1 + j] == u;
      }
    }
    SubtreeNodes(t, i);
    NodesOfTree(ss[i]);
    ChildrenWithin(ss[i], l, n);
    assert l.parent[n] == t.node;
    UntouchedKeepsLinks(t, n, l, l', u, t.node);
  }

  /** Python's `list.insert(i, x)` for an index that is not negative: past the end it appends. */
  function InsertAt<X>(s: seq<X>, i: nat, x: X): seq<X>
  {
    if i <= |s| then s[..i] + [x] + s[i..] else s + [x]
  }

  /** Where `InsertAt` puts `x`, and where every other element ends up. */
  lemma InsertAtIndex<X>(s: seq<X>, i: nat, x: X)
    ensures var k := if i <= |s| then i else |s|; var r := InsertAt(s, i, x);
      |r| == |s| + 1 && r[k] == x &&
      (forall j :: 0 <= j < k ==> r[j] == s[j]) &&
      (forall j :: k < j < |r| ==> r[j] == s[j - 1])
  {
  }

  lemma {:induction false} RootsOfInsertAt<T>(ts: seq<Tree<T>>, i: nat, u: Tree<T>)
    ensures Roots(InsertAt(ts, i, u)) == InsertAt(Roots(ts), i, u.node)
  {
    InsertAtIndex(ts, i, u);
    InsertAtIndex(Roots(ts), i, u.node);
  }

  /**
   * The tree after a new leaf `c` is inserted among the children of `p` at
   * index `i`, or after the last of them when `i` is past the end.
   */
  ghost function InsertLeaf<T>(t: Tree<T>, p: TreeNode<T>, i: nat, c: TreeNode<T>): Tree<T>
    decreases t
  {
    if t.node == p then
      Tree(p, InsertAt(t.subtrees, i, Tree(c, [])))
    else
      Tree(t.node, seq(|t.subtrees|, j requires 0 <= j < |t.subtrees| => InsertLeaf(t.subtrees[j], p, i, c)))
  }

  /** A tree without `p` in it is left as it is by inserting under `p`. */
  lemma {:induction false} InsertLeafAbsent<T>(t: Tree<T>, p: TreeNode<T>, i: nat, c: TreeNode<T>)
    requires p !in Nodes(t)
    ensures InsertLeaf(t, p, i, c) == t
    decreases t
  {
    var ss := t.subtrees;
    forall j | 0 <= j < |ss| ensures InsertLeaf(ss[j], p, i, c) == ss[j] {
      NodesOfTree(ss[j]);
      assert Nodes(ss[j]) <= Nodes(t);
      InsertLeafAbsent(ss[j], p, i, c);
    }
    assert seq(|ss|, j requires 0 <= j < |ss| => InsertLeaf(ss[j], p, i, c)) == ss;
  }

  /**
   * Inserting a leaf that is not yet drawn under a node of a tree that
   * draws no node twice keeps the top node, adds exactly the leaf, and
   * still draws no node twice.
   */
  lemma {:induction false} InsertLeafAddsNode<T>(t: Tree<T>, p: TreeNode<T>, i: nat, c: TreeNode<T>)
    requires Unique(t) && p in Nodes(t) && c !in Nodes(t)
    ensures InsertLeaf(t, p, i, c).node == t.node
    ensures Nodes(InsertLeaf(t, p, i, c)) == Nodes(t) + {c} && Unique(InsertLeaf(t, p, i, c))
    decreases t, 2
  {
    if t.node == p {
      InsertLeafTop(t, i, c);
    } else {
      InsertLeafDeep(t, p, i, c);
    }
  }

  /** `InsertLeafAddsNode` where the leaf goes under the top node. */
  lemma {:induction false} InsertLeafTop<T>(t: Tree<T>, i: nat, c: TreeNode<T>)
    requires Unique(t) && c !in Nodes(t)
    ensures Nodes(InsertLeaf(t, t.node, i, c)) == Nodes(t) + {c} && Unique(InsertLeaf(t, t.node, i, c))
  {
    NodesOfTree(t);
    LeafAmong(t.subtrees, i, c);
    NodesOfTree(InsertLeaf(t, t.node, i, c));
  }

  /** `InsertLeafAddsNode` where the leaf goes below the top of one of the subtrees. */
  lemma {:induction false} InsertLeafDeep<T>(t: Tree<T>, p: TreeNode<T>, i: nat, c: TreeNode<T>)
    requires Unique(t) && p in Nodes(t) && p != t.node && c !in Nodes(t)
    ensures Nodes(InsertLeaf(t, p, i, c)) == Nodes(t) + {c} && Unique(InsertLeaf(t, p, i, c))
    decreases t, 1
  {
    var ss := t.subtrees;
    var ts := InsertLeaf(t, p, i, c).subtrees;
    NodesOfTree(t);
    var k :| 0 <= k < |ss| && p in Nodes(ss[k]);
    InsertEach(t, p, i, c, k);
    AddedToOne(ss, ts, k, c);
    NodesOfTree(InsertLeaf(t, p, i, c));
  }

  /** Trees that draw no node twice still do so, and draw just one node more, with a new leaf among them. */
  lemma {:induction false} LeafAmong<T>(ss: seq<Tree<T>>, i: nat, c: TreeNode<T>)
    requires UniqueOf(ss) && c !in NodesOf(ss)
    ensures UniqueOf(InsertAt(ss, i, Tree(c, []))) && NodesOf(InsertAt(ss, i, Tree(c, []))) == NodesOf(ss) + {c}
  {
    var leaf := Tree(c, []);
    var k := if i <= |ss| then i else |ss|;
    var a, b := ss[..k], ss[k..];
    assert ss == a + b;
    assert InsertAt(ss, i, leaf) == a + [leaf] + b;
    UniqueOfSplit(a, b);
    NodesOfConcat(a, b);
    NodesOfTree(leaf);
    NodesOfSingleton(leaf);
    assert UniqueOf([leaf]) by { assert [leaf][0] == leaf; }
    UniqueOfJoin(a, [leaf]);
    NodesOfConcat(a, [leaf]);
    UniqueOfJoin(a + [leaf], b);
    NodesOfConcat(a + [leaf], b);
  }

  /** Inserting under `p` below the top changes the `k`th subtree, which draws `p`, and leaves the others. */
  lemma {:induction false} InsertEach<T>(t: Tree<T>, p: TreeNode<T>, i: nat, c: TreeNode<T>, k: nat)
    requires Unique(t) && p != t.node && c !in Nodes(t) && k < |t.subtrees| && p in Nodes(t.subtrees[k])
    ensures var ts := InsertLeaf(t, p, i, c).subtrees;
      |ts| == |t.subtrees| && Nodes(ts[k]) == Nodes(t.subtrees[k]) + {c} &&
      (forall j :: 0 <= j < |ts| && j != k ==> Nodes(ts[j]) == Nodes(t.subtrees[j])) &&
      (forall j :: 0 <= j < |ts| ==> Unique(ts[j]))
    decreases t, 0
  {
    var ss := t.subtrees;
    var ts := InsertLeaf(t, p, i, c).subtrees;
    SubtreeNodes(t, k);
    forall j | 0 <= j < |ss| ensures Unique(ts[j]) && Nodes(ts[j]) == Nodes(ss[j]) + (if j == k then {c} else {}) {
      if j == k {
        InsertLeafAddsNode(ss[j], p, i, c);
      } else {
        InsertLeafAbsent(ss[j], p, i, c);
      }
    }
  }

  /** Trees each drawn as before, the `k`th with a new node `c`, draw together what they drew and `c`. */
  lemma {:induction false} AddedToOne<T>(ss: seq<Tree<T>>, ts: seq<Tree<T>>, k: nat, c: TreeNode<T>)
    requires UniqueOf(ss) && |ts| == |ss| && k < |ss| && c !in NodesOf(ss)
    requires Nodes(ts[k]) == Nodes(ss[k]) + {c}
    requires forall j :: 0 <= j < |ss| && j != k ==> Nodes(ts[j]) == Nodes(ss[j])
    requires forall j :: 0 <= j < |ss| ==> Unique(ts[j])
    ensures UniqueOf(ts) && NodesOf(ts) == NodesOf(ss) + {c}
  {
    assert forall j :: 0 <= j < |ss| ==> c !in Nodes(ss[j]);
    forall j, m | 0 <= j < m < |ts| ensures Nodes(ts[j]) !! Nodes(ts[m]) {
      assert Nodes(ss[j]) !! Nodes(ss[m]);
    }
    forall m | m in NodesOf(ts) ensures m in NodesOf(ss) + {c} {
      var j :| 0 <= j < |ts| && m in Nodes(ts[j]);
    }
    forall m | m in NodesOf(ss) + {c} ensures m in NodesOf(ts) {
      if m == c {
        assert m in Nodes(ts[k]);
      } else {
        var j :| 0 <= j < |ss| && m in Nodes(ss[j]);
        assert m in Nodes(ts[j]);
      }
    }
  }

  /**
   * The relinking that inserts the leaf `c` under `p`: `p`'s children gain
   * `c` at index `i`, `c` has no children and names `p` as parent, and every
   * other link of the tree's nodes is as it was.
   */
  ghost predicate Inserted<T>(t: Tree<T>, p: TreeNode<T>, i: nat, c: TreeNode<T>, l: Links<T>, l': Links<T>)
  {
    p in l.children && p in l'.children && l'.children[p] == InsertAt(l.children[p], i, c) &&
    c in l'.children && l'.children[c] == [] && c in l'.parent && l'.parent[c] == p &&
    SameChildren(l, l', Nodes(t) - {p}) && SameParents(l, l', Nodes(t))
  }

  /**
   * Relinking as `Inserted` says keeps the links consistent with the tree
   * `InsertLeaf` draws.
   */
  lemma {:induction false} InsertLeafKeepsLinks<T>(t: Tree<T>, p: TreeNode<T>, i: nat, c: TreeNode<T>, l: Links<T>, l': Links<T>, parent: TreeNode?<T>)
    requires MirrorsIn(t, l) && ParentsIn(t, l, parent) && Unique(t)
    requires p in Nodes(t) && c !in Nodes(t) && Inserted(t, p, i, c, l, l')
    ensures MirrorsIn(InsertLeaf(t, p, i, c), l') && ParentsIn(InsertLeaf(t, p, i, c), l', parent)
    decreases t, 1
  {
    if t.node == p {
      InsertTopKeepsLinks(t, i, c, l, l', parent);
    } else {
      InsertDeepKeepsLinks(t, p, i, c, l, l', parent);
    }
  }

  /** `InsertLeafKeepsLinks` where the leaf goes under the top node. */
  lemma {:induction false} InsertTopKeepsLinks<T>(t: Tree<T>, i: nat, c: TreeNode<T>, l: Links<T>, l': Links<T>, parent: TreeNode?<T>)
    requires MirrorsIn(t, l) && ParentsIn(t, l, parent) && Unique(t)
    requires c !in Nodes(t) && Inserted(t, t.node, i, c, l, l')
    ensures MirrorsIn(InsertLeaf(t, t.node, i, c), l') && ParentsIn(InsertLeaf(t, t.node, i, c), l', parent)
  {
    var ss := t.subtrees;
    var leaf := Tree(c, []);
    var ts := InsertAt(ss, i, leaf);
    var k := if i <= |ss| then i else |ss|;
    InsertAtIndex(ss, i, leaf);
    forall j | 0 <= j < |ts| ensures MirrorsIn(ts[j], l') && ParentsIn(ts[j], l', t.node) {
      if j != k {
        SubtreeKeepsLinks(t, if j < k then j else j - 1, t.node, l, l', parent);
      }
    }
    RootsOfInsertAt(ss, i, leaf);
    NodesOfTree(t);
    LinksOfTree(t.node, ts, l', parent);
  }

  /** A subtree holding neither `p` nor the new leaf keeps its links. */
  lemma {:induction false} SubtreeKeepsLinks<T>(t: Tree<T>, j: nat, p: TreeNode<T>, l: Links<T>, l': Links<T>, parent: TreeNode?<T>)
    requires MirrorsIn(t, l) && ParentsIn(t, l, parent) && Unique(t) && j < |t.subtrees|
    requires p !in Nodes(t.subtrees[j])
    requires SameChildren(l, l', Nodes(t) - {p}) && SameParents(l, l', Nodes(t))
    ensures MirrorsIn(t.subtrees[j], l') && ParentsIn(t.subtrees[j], l', t.node)
  {
    var u := t.subtrees[j];
    SubtreeNodes(t, j);
    MirrorsInFrame(u, l, l');
    ParentsInFrame(u, l, l', t.node, t.node);
  }

  /** `InsertLeafKeepsLinks` where the leaf goes below the top of one of the subtrees. */
  lemma {:induction false} InsertDeepKeepsLinks<T>(t: Tree<T>, p: TreeNode<T>, i: nat, c: TreeNode<T>, l: Links<T>, l': Links<T>, parent: TreeNode?<T>)
    requires MirrorsIn(t, l) && ParentsIn(t, l, parent) && Unique(t)
    requires p in Nodes(t) && p != t.node && c !in Nodes(t) && Inserted(t, p, i, c, l, l')
    ensures MirrorsIn(InsertLeaf(t, p, i, c), l') && ParentsIn(InsertLeaf(t, p, i, c), l', parent)
    decreases t, 0
  {
    var ss := t.subtrees;
    var ts := InsertLeaf(t, p, i, c).subtrees;
    NodesOfTree(t);
    forall j | 0 <= j < |ss| ensures ts[j].node == ss[j].node && MirrorsIn(ts[j], l') && ParentsIn(ts[j], l', t.node) {
      if p in Nodes(ss[j]) {
        SubtreeNodes(t, j);
        InsertLeafKeepsLinks(ss[j], p, i, c, l, l', t.node);
      } else {
        InsertLeafAbsent(ss[j], p, i, c);
        SubtreeKeepsLinks(t, j, p, l, l', parent);
      }
    }
    assert Roots(ts) == Roots(ss);
    LinksOfTree(t.node, ts, l', parent);
  }

  /** Inserting right after a run placed between `pre` and `post` lengthens the run. */
  lemma InsertAfterRun<X>(pre: seq<X>, run: seq<X>, post: seq<X>, x: X)
    ensures InsertAt(pre + run + post, |pre| + |run|, x) == pre + (run + [x]) + post
  {
    var s := pre + run + post;
    assert s[..|pre| + |run|] == pre + run;
    assert s[|pre| + |run|..] == post;
  }
}
