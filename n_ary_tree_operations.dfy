/**
 * The n-ary tree operations: building a root, adding children, the three
 * traversals, the two searches and removing nodes. The operations walk and
 * update `TreeNode`s in the heap; the contracts say what they do in terms of
 * the ghost `Tree` a caller draws of the heap.
 */
module NAryTreeOperations {
  import opened Wrappers
  import opened Sequences
  import opened TreeNodes
  import opened NAryTrees

  /** Splitting the pre-order of a sequence of trees around its `j`th tree. */
  lemma {:induction false} PreOrderOfAt<T>(ts: seq<Tree<T>>, j: nat)
    requires j < |ts|
    ensures PreOrderOf(ts[..j + 1]) == PreOrderOf(ts[..j]) + PreOrder(ts[j])
    ensures PreOrderOf(ts) == PreOrderOf(ts[..j + 1]) + PreOrderOf(ts[j + 1..])
  {
    assert ts[..j + 1] == ts[..j] + [ts[j]];
    PreOrderOfConcat(ts[..j], [ts[j]]);
    assert PreOrderOf([ts[j]]) == PreOrder(ts[j]) + PreOrderOf([]);
    assert ts == ts[..j + 1] + ts[j + 1..];
    PreOrderOfConcat(ts[..j + 1], ts[j + 1..]);
  }

  /** Splitting the post-order of a sequence of trees after its `j`th tree. */
  lemma {:induction false} PostOrderOfAt<T>(ts: seq<Tree<T>>, j: nat)
    requires j < |ts|
    ensures PostOrderOf(ts[..j + 1]) == PostOrderOf(ts[..j]) + PostOrder(ts[j])
  {
    assert ts[..j + 1] == ts[..j] + [ts[j]];
    PostOrderOfConcat(ts[..j], [ts[j]]);
    assert PostOrderOf([ts[j]]) == PostOrder(ts[j]) + PostOrderOf([]);
  }

  /** The nodes a tree draws are allocated objects. */
  lemma {:induction false} NodesAllocated<T>(t: Tree<T>)
    ensures forall o :: o in Nodes(t) ==> allocated(o)
    decreases t
  {
    forall i | 0 <= i < |t.subtrees| ensures forall o :: o in Nodes(t.subtrees[i]) ==> allocated(o) {
      NodesAllocated(t.subtrees[i]);
    }
  }

  /** The front tree of a queue of mirrored trees lists its subtrees' tops, and the next queue is mirrored too. */
  lemma {:induction false} MirrorsFront<T>(trees: seq<Tree<T>>)
    requires trees != [] && forall u :: u in trees ==> Mirrors(u)
    ensures trees[0].node.children == Roots(trees[0].subtrees)
    ensures forall u :: u in trees[1..] + trees[0].subtrees ==> Mirrors(u)
  {
    assert trees[0] in trees;
    forall u | u in trees[1..] + trees[0].subtrees ensures Mirrors(u) {
      if u !in trees[1..] {
        var i :| 0 <= i < |trees[0].subtrees| && trees[0].subtrees[i] == u;
      }
    }
  }

  /** The front of the level-order queue is visited first, its subtrees queued behind the rest. */
  lemma {:induction false} LevelOrderStep<T>(queue: seq<Tree<T>>)
    requires queue != []
    ensures LevelOrder(queue) == [queue[0].node] + LevelOrder(queue[1..] + queue[0].subtrees)
    ensures |PreOrderOf(queue[1..] + queue[0].subtrees)| < |PreOrderOf(queue)|
  {
    PreOrderOfConcat(queue[1..], queue[0].subtrees);
  }

  /**
   * Trees that already hang as drawn, each below whatever parent its top
   * names, and share no node: what a caller can hand over as children.
   */
  ghost predicate Forest<T>(ss: seq<Tree<T>>)
    reads NodesOf(ss)
  {
    UniqueOf(ss) &&
    forall j :: 0 <= j < |ss| ==> Nodes(ss[j]) <= NodesOf(ss) && Mirrors(ss[j]) && Parents(ss[j], ss[j].node.parent)
  }

  /** The trees of a forest, read from a snapshot of their nodes. */
  lemma {:induction false} ForestAsLinks<T>(ss: seq<Tree<T>>, ns: set<TreeNode<T>>)
    requires Forest(ss) && NodesOf(ss) <= ns
    ensures forall j :: 0 <= j < |ss| ==>
      MirrorsIn(ss[j], LinksOf(ns)) && ss[j].node in LinksOf(ns).parent && ParentsIn(ss[j], LinksOf(ns), LinksOf(ns).parent[ss[j].node])
    ensures forall o :: o in NodesOf(ss) ==> allocated(o)
  {
    forall j | 0 <= j < |ss| ensures MirrorsIn(ss[j], LinksOf(ns)) && ss[j].node in LinksOf(ns).parent &&
      ParentsIn(ss[j], LinksOf(ns), LinksOf(ns).parent[ss[j].node]) && forall o :: o in Nodes(ss[j]) ==> allocated(o)
    {
      NodesOfTree(ss[j]);
      MirrorsAsLinks(ss[j], ns);
      ParentsAsLinks(ss[j], ns, ss[j].node.parent);
      NodesAllocated(ss[j]);
    }
  }

  /**
   * Trees linked as drawn in `l` hang, in `l'`, under a new top node
   * `root` that lists them as its children, when `l'` keeps every other
   * link of their nodes.
   */
  lemma {:induction false} AdoptedLinks<T>(root: TreeNode<T>, ss: seq<Tree<T>>, l: Links<T>, l': Links<T>)
    requires UniqueOf(ss) && root !in NodesOf(ss)
    requires forall j :: 0 <= j < |ss| ==> MirrorsIn(ss[j], l) && ss[j].node in l.parent && ParentsIn(ss[j], l, l.parent[ss[j].node])
    requires SameChildren(l, l', NodesOf(ss)) && SameParents(l, l', NodesOf(ss) - set o | o in Roots(ss))
    requires forall j :: 0 <= j < |ss| ==> ss[j].node in l'.parent && l'.parent[ss[j].node] == root
    requires root in l'.children && l'.children[root] == Roots(ss) && root in l'.parent && l'.parent[root] == null
    ensures MirrorsIn(Tree(root, ss), l') && ParentsIn(Tree(root, ss), l', null) && Unique(Tree(root, ss))
  {
    forall u | u in ss ensures MirrorsIn(u, l') && ParentsIn(u, l', root) {
      var j :| 0 <= j < |ss| && ss[j] == u;
      AdoptedTree(root, ss, j, l, l');
    }
    LinksOfTree(root, ss, l', null);
  }

  /** One of the adopted trees keeps its links, and now hangs below `root`. */
  lemma {:induction false} AdoptedTree<T>(root: TreeNode<T>, ss: seq<Tree<T>>, j: nat, l: Links<T>, l': Links<T>)
    requires UniqueOf(ss) && j < |ss|
    requires MirrorsIn(ss[j], l) && ss[j].node in l.parent && ParentsIn(ss[j], l, l.parent[ss[j].node])
    requires SameChildren(l, l', NodesOf(ss)) && SameParents(l, l', NodesOf(ss) - set o | o in Roots(ss))
    requires ss[j].node in l'.parent && l'.parent[ss[j].node] == root
    ensures MirrorsIn(ss[j], l') && ParentsIn(ss[j], l', root)
  {
    var u := ss[j];
    NodesOfTree(u);
    assert Nodes(u) <= NodesOf(ss);
    MirrorsInFrame(u, l, l');
    DeepNodesAreNotRoots(ss, j);
    assert NodesOf(u.subtrees) <= NodesOf(ss) - set o | o in Roots(ss);
    ParentsInFrame(u, l, l', l.parent[u.node], root);
  }

  /**
   * `create_root`: a new root holding `data` whose children list is the
   * list given; it is flagged a root, and a parent when the list is not
   * empty, and then every child names it as parent; no child's children or
   * flags change. Trees handed over as the children become one tree under
   * it.
   */
  method CreateRoot<T>(data: T, children: seq<TreeNode<T>>, ghost ss: seq<Tree<T>>) returns (root: TreeNode<T>)
    modifies set c | c in children
    ensures fresh(root) && root.data == data && root.parent == null && root.children == children
    ensures root.isRoot && (root.isParent <==> children != []) && !root.isLeft && !root.isRight && !root.isLeaf
    ensures forall c :: c in children ==> c.parent == root && c.children == old(c.children) && c.Flags() == old(c.Flags())
    ensures old(Roots(ss) == children && Forest(ss)) ==> WellFormed(Tree(root, ss))
  {
    ghost var ns := NodesOf(ss);
    ghost var l := LinksOf(ns);
    ghost var adopting := Roots(ss) == children && Forest(ss);
    if adopting {
      ForestAsLinks(ss, ns);
    }
    root := NewRoot(data, children);
    assert forall j :: 0 <= j < |children| ==> children[j].parent == root;
    if adopting {
      forall o | o in ns ensures o.children == l.children[o] && (o !in children ==> o.parent == l.parent[o]) {
        assert o != root;
      }
      forall j | 0 <= j < |ss| ensures ss[j].node.parent == root {
        assert ss[j].node == children[j];
      }
      AdoptedNow(root, ss, l);
    }
  }

  /** The heap part of `create_root`: the new node, its flags, and the parent link of every child. */
  method NewRoot<T>(data: T, children: seq<TreeNode<T>>) returns (root: TreeNode<T>)
    modifies set c | c in children
    ensures fresh(root) && root.data == data && root.parent == null && root.children == children
    ensures root.isRoot && (root.isParent <==> children != []) && !root.isLeft && !root.isRight && !root.isLeaf
    ensures forall c :: c in children ==> c.parent == root && c.children == old(c.children) && c.Flags() == old(c.Flags())
  {
    root := new TreeNode(data, null, Some(children));
    root.isRoot := true;
    if children != [] {
      root.isParent := true;
      SetParents(children, root, set c | c in children);
    }
  }

  /** The nodes of a list that may hold None, without the Nones, in order. */
  function NonNull<T>(nodes: seq<TreeNode?<T>>): (r: seq<TreeNode<T>>)
    ensures |r| <= |nodes|
    ensures forall k :: 0 <= k < |r| ==> r[k] in nodes
  {
    if nodes == [] then []
    else NonNull(nodes[..|nodes| - 1]) + (if nodes[|nodes| - 1] != null then [nodes[|nodes| - 1]] else [])
  }

  /** Every node of the list that is not None is kept. */
  lemma {:induction false} NonNullKeeps<T>(nodes: seq<TreeNode?<T>>, k: nat)
    requires k < |nodes| && nodes[k] != null
    ensures nodes[k] in NonNull(nodes)
  {
    if k < |nodes| - 1 {
      NonNullKeeps(nodes[..|nodes| - 1], k);
    }
  }

  /** With no None in the list, `NonNull` gives the list back. */
  lemma {:induction false} NonNullKeepsNodes<T>(nodes: seq<TreeNode<T>>)
    ensures NonNull(nodes) == nodes
  {
    if nodes != [] {
      NonNullKeepsNodes(nodes[..|nodes| - 1]);
      assert nodes[..|nodes| - 1] + [nodes[|nodes| - 1]] == nodes;
    }
  }

  /**
   * `create_root_with_children_nodes_list`: a new root, flagged a root and a
   * parent whatever the list holds, that takes every node of the list that
   * is not None, in order, as a child and becomes its parent; no child's
   * children or flags change. Trees handed over as those children become
   * one tree under it.
   */
  method CreateRootWithChildrenNodesList<T>(data: T, nodes: seq<TreeNode?<T>>, ghost ss: seq<Tree<T>>) returns (root: TreeNode<T>)
    modifies set c | c in nodes && c != null
    ensures fresh(root) && root.data == data && root.parent == null && root.children == NonNull(nodes)
    ensures root.isRoot && root.isParent && !root.isLeft && !root.isRight && !root.isLeaf
    ensures forall c :: c in nodes && c != null ==> c.parent == root && c.children == old(c.children) && c.Flags() == old(c.Flags())
    ensures old(Roots(ss) == NonNull(nodes) && Forest(ss)) ==> WellFormed(Tree(root, ss))
  {
    ghost var children := NonNull(nodes);
    ghost var ns := NodesOf(ss);
    ghost var l := LinksOf(ns);
    ghost var adopting := Roots(ss) == children && Forest(ss);
    if adopting {
      ForestAsLinks(ss, ns);
    }
    root := NewRootOf(data, nodes);
    assert forall j :: 0 <= j < |children| ==> children[j].parent == root;
    if adopting {
      forall o | o in ns ensures o.children == l.children[o] && (o !in children ==> o.parent == l.parent[o]) {
        assert o != root;
        if o in nodes {
          var k :| 0 <= k < |nodes| && nodes[k] == o;
          NonNullKeeps(nodes, k);
        }
      }
      forall j | 0 <= j < |ss| ensures ss[j].node.parent == root {
        assert ss[j].node == children[j];
      }
      AdoptedNow(root, ss, l);
    }
  }

  /** The heap part of `create_root_with_children_nodes_list`: the new node, its flags, and one child appended per node that is not None. */
  method NewRootOf<T>(data: T, nodes: seq<TreeNode?<T>>) returns (root: TreeNode<T>)
    modifies set c | c in nodes && c != null
    ensures fresh(root) && root.data == data && root.parent == null && root.children == NonNull(nodes)
    ensures root.isRoot && root.isParent && !root.isLeft && !root.isRight && !root.isLeaf
    ensures forall c :: c in nodes && c != null ==> c.parent == root && c.children == old(c.children) && c.Flags() == old(c.Flags())
  {
    root := new TreeNode(data, null, Some([]));
    root.isRoot := true;
    root.isParent := true;
    var i := 0;
    while i < |nodes|
      invariant 0 <= i <= |nodes|
      invariant fresh(root) && root.parent == null && root.isRoot && root.isParent && !root.isLeft && !root.isRight && !root.isLeaf
      invariant root.children == NonNull(nodes[..i])
      invariant forall k :: 0 <= k < i && nodes[k] != null ==> nodes[k].parent == root
      invariant forall c :: c in nodes && c != null ==> c.children == old(c.children) && c.Flags() == old(c.Flags())
    {
      assert nodes[..i + 1][..i] == nodes[..i];
      if nodes[i] != null {
        nodes[i].parent := root;
        root.children := root.children + [nodes[i]];
      }
      i := i + 1;
    }
    assert nodes[..i] == nodes;
  }

  /** The items the truth test keeps, in order. */
  function Filter<T>(items: seq<T>, keep: T -> bool): (r: seq<T>)
    ensures |r| <= |items|
    ensures forall k :: 0 <= k < |r| ==> keep(r[k]) && r[k] in items
  {
    if items == [] then []
    else Filter(items[..|items| - 1], keep) + (if keep(items[|items| - 1]) then [items[|items| - 1]] else [])
  }

  /** Filtering one more item keeps it exactly when the test does. */
  lemma FilterStep<T>(items: seq<T>, i: nat, keep: T -> bool)
    requires i < |items|
    ensures Filter(items[..i + 1], keep) == Filter(items[..i], keep) + (if keep(items[i]) then [items[i]] else [])
  {
    assert items[..i + 1][..i] == items[..i];
  }

  /** One childless tree per node. */
  ghost function Leaves<T>(cs: seq<TreeNode<T>>): (ts: seq<Tree<T>>)
    ensures Roots(ts) == cs
  {
    seq(|cs|, i requires 0 <= i < |cs| => Tree(cs[i], []))
  }

  /** A root over distinct childless nodes that name it as parent is a well-formed tree of those nodes. */
  lemma LeavesWellFormed<T>(root: TreeNode<T>, cs: seq<TreeNode<T>>)
    requires Distinct(cs) && root !in cs && root.children == cs && root.parent == null
    requires forall c :: c in cs ==> c.parent == root && c.children == []
    ensures WellFormed(Tree(root, Leaves(cs)))
    ensures Nodes(Tree(root, Leaves(cs))) == {root} + set c | c in cs
  {
    var ts := Leaves(cs);
    forall i | 0 <= i < |ts| ensures Nodes(ts[i]) == {cs[i]} && Mirrors(ts[i]) && Parents(ts[i], root) && Unique(ts[i]) {
      assert ts[i].subtrees == [];
      assert NodesOf(ts[i].subtrees) == {};
    }
    assert NodesOf(ts) == set c | c in cs;
    assert UniqueOf(ts);
    NodesOfTree(Tree(root, ts));
  }

  /**
   * `create_root_with_children_data_list`: a new root, flagged a root and a
   * parent whatever the list holds, with one new childless child per item
   * the truth test keeps, in order, each naming the root as its parent.
   * The root and its children form a well-formed tree.
   */
  method CreateRootWithChildrenDataList<T>(data: T, items: seq<T>, truthy: T -> bool) returns (root: TreeNode<T>)
    ensures fresh(root) && root.data == data && root.parent == null
    ensures root.isRoot && root.isParent && !root.isLeft && !root.isRight && !root.isLeaf
    ensures DataOf(root.children) == Filter(items, truthy)
    ensures forall c :: c in root.children ==> fresh(c) && c.parent == root && c.children == []
    ensures WellFormed(Tree(root, Leaves(root.children)))
  {
    root := new TreeNode(data, null, Some([]));
    root.isRoot := true;
    root.isParent := true;
    var i := 0;
    while i < |items|
      invariant 0 <= i <= |items|
      invariant fresh(root) && root.data == data && root.parent == null
      invariant root.isRoot && root.isParent && !root.isLeft && !root.isRight && !root.isLeaf
      invariant DataOf(root.children) == Filter(items[..i], truthy)
      invariant Distinct(root.children) && root !in root.children
      invariant forall c :: c in root.children ==> fresh(c) && c.parent == root && c.children == []
    {
      assert items[..i + 1][..i] == items[..i];
      if truthy(items[i]) {
        var child := new TreeNode(items[i], root, Some([]));
        root.children := root.children + [child];
      }
      i := i + 1;
    }
    assert items[..i] == items;
    LeavesWellFormed(root, root.children);
  }

  /**
   * A new leaf `c` in `p`'s children list, naming `p` as its parent, with
   * every other link as the snapshot `l` of a well-formed tree has it,
   * makes the well-formed tree that `InsertLeaf` draws.
   */
  lemma {:induction false} AttachedNow<T>(t: Tree<T>, p: TreeNode<T>, i: nat, c: TreeNode<T>, l: Links<T>)
    requires MirrorsIn(t, l) && ParentsIn(t, l, null) && Unique(t)
    requires p in Nodes(t) && c !in Nodes(t) && l.children.Keys == Nodes(t) && l.parent.Keys == Nodes(t)
    requires forall o :: o in Nodes(t) ==> o.parent == l.parent[o] && (o != p ==> o.children == l.children[o])
    requires p.children == InsertAt(l.children[p], i, c) && c.children == [] && c.parent == p
    ensures InsertLeaf(t, p, i, c).node == t.node
    ensures WellFormed(InsertLeaf(t, p, i, c)) && Nodes(InsertLeaf(t, p, i, c)) == Nodes(t) + {c}
  {
    var ns := Nodes(t) + {c};
    var l' := LinksOf(ns);
    assert Inserted(t, p, i, c, l, l');
    InsertLeafKeepsLinks(t, p, i, c, l, l', null);
    InsertLeafAddsNode(t, p, i, c);
    MirrorsAsLinks(InsertLeaf(t, p, i, c), ns);
    ParentsAsLinks(InsertLeaf(t, p, i, c), ns, null);
  }

  /**
   * The step `add_child_node` and its index variants share: a new
   * childless node holding `data` inserted at `index` into `parent`'s
   * children, naming `parent`, which is then flagged a parent; the
   * parent's own parent and its other flags are left alone. In a
   * well-formed tree this is inserting a leaf: the tree stays well formed
   * and gains exactly the new node.
   */
  method AttachLeaf<T>(parent: TreeNode<T>, data: T, index: nat, ghost t: Tree<T>) returns (c: TreeNode<T>)
    requires index <= |parent.children|
    modifies parent
    ensures fresh(c) && c.data == data && c.parent == parent && c.children == []
    ensures !c.isRoot && !c.isParent && !c.isLeft && !c.isRight && !c.isLeaf
    ensures parent.children == InsertAt(old(parent.children), index, c) && parent.isParent
    ensures parent.Place() == old(parent.Place())
    ensures old(parent in Nodes(t) && WellFormed(t)) ==>
      InsertLeaf(t, parent, index, c).node == t.node &&
      WellFormed(InsertLeaf(t, parent, index, c)) && Nodes(InsertLeaf(t, parent, index, c)) == Nodes(t) + {c}
  {
    ghost var ns := Nodes(t);
    ghost var l := LinksOf(ns);
    ghost var valid := parent in ns && WellFormed(t);
    if valid {
      MirrorsAsLinks(t, ns);
      ParentsAsLinks(t, ns, null);
      NodesAllocated(t);
    }
    c := new TreeNode(data, parent, Some([]));
    parent.children := InsertAt(parent.children, index, c);
    parent.isParent := true;
    if valid {
      AttachedNow(t, parent, index, c, l);
    }
  }

  /**
   * `add_child_node`: ValueError when there is no parent; otherwise, when
   * the payload is truthy, a new childless node holding it is appended to
   * the parent's children and returned, and the parent is flagged a
   * parent; a falsy payload changes nothing and gives None.
   */
  method AddChildNode<T>(parent: TreeNode?<T>, data: T, truthy: T -> bool, ghost t: Tree<T>) returns (r: Result<Option<TreeNode<T>>>)
    modifies parent
    ensures r.Err? <==> parent == null
    ensures r.Err? ==> r.error == ValueError
    ensures r.Ok? ==> (r.value.Some? <==> truthy(data))
    ensures r.Ok? && r.value.None? ==> unchanged(parent)
    ensures r.Ok? && r.value.Some? ==> var c := r.value.value;
      fresh(c) && c.data == data && c.parent == parent && c.children == [] &&
      parent.children == old(parent.children) + [c] && parent.isParent && parent.Place() == old(parent.Place()) &&
      (old(parent in Nodes(t) && WellFormed(t)) ==>
        InsertLeaf(t, parent, old(|parent.children|), c).node == t.node &&
        WellFormed(InsertLeaf(t, parent, old(|parent.children|), c)) &&
        Nodes(InsertLeaf(t, parent, old(|parent.children|), c)) == Nodes(t) + {c})
  {
    if parent == null {
      return Err(ValueError);
    }
    if truthy(data) {
      var c := AttachLeaf(parent, data, |parent.children|, t);
      assert old(parent.children)[..|old(parent.children)|] == old(parent.children);
      return Ok(Some(c));
    }
    return Ok(None);
  }

  /**
   * `add_child_node_at_index`: ValueError when there is no parent;
   * otherwise, when the payload is truthy and `0 <= index <= len(children)`,
   * a new childless node holding it is inserted at `index` and returned,
   * and the parent is flagged a parent; anything else changes nothing and
   * gives None.
   */
  method AddChildNodeAtIndex<T>(parent: TreeNode?<T>, data: T, index: int, truthy: T -> bool, ghost t: Tree<T>) returns (r: Result<Option<TreeNode<T>>>)
    modifies parent
    ensures r.Err? <==> parent == null
    ensures r.Err? ==> r.error == ValueError
    ensures r.Ok? ==> (r.value.Some? <==> truthy(data) && 0 <= index <= old(|parent.children|))
    ensures r.Ok? && r.value.None? ==> unchanged(parent)
    ensures r.Ok? && r.value.Some? ==> var c := r.value.value;
      fresh(c) && c.data == data && c.parent == parent && c.children == [] &&
      parent.children == old(parent.children)[..index] + [c] + old(parent.children)[index..] && parent.isParent &&
      parent.Place() == old(parent.Place()) &&
      (old(parent in Nodes(t) && WellFormed(t)) ==>
        InsertLeaf(t, parent, index, c).node == t.node &&
        WellFormed(InsertLeaf(t, parent, index, c)) && Nodes(InsertLeaf(t, parent, index, c)) == Nodes(t) + {c})
  {
    if parent == null {
      return Err(ValueError);
    }
    if truthy(data) && 0 <= index <= |parent.children| {
      var c := AttachLeaf(parent, data, index, t);
      return Ok(Some(c));
    }
    return Ok(None);
  }

  /** The values a list of optional values holds, in order. */
  function Present<X>(xs: seq<Option<X>>): (r: seq<X>)
    ensures |r| <= |xs|
  {
    if xs == [] then []
    else Present(xs[..|xs| - 1]) + (if xs[|xs| - 1].Some? then [xs[|xs| - 1].value] else [])
  }

  /** One more optional value adds its value, if any. */
  lemma PresentStep<X>(xs: seq<Option<X>>, o: Option<X>)
    ensures Present(xs + [o]) == Present(xs) + (if o.Some? then [o.value] else [])
  {
    assert (xs + [o])[..|xs|] == xs;
  }

  /**
   * When each optional node is present exactly for a truthy item and then
   * holds that item, the nodes present hold the truthy items, in order.
   */
  lemma {:induction false} PresentFilter<T>(items: seq<T>, truthy: T -> bool, added: seq<Option<TreeNode<T>>>)
    requires |added| == |items|
    requires forall k :: 0 <= k < |items| ==> (added[k].Some? <==> truthy(items[k]))
    requires forall k :: 0 <= k < |items| && added[k].Some? ==> added[k].value.data == items[k]
    ensures DataOf(Present(added)) == Filter(items, truthy)
    decreases |items|
  {
    if items != [] {
      var n := |items| - 1;
      PresentFilter(items[..n], truthy, added[..n]);
      if added[n].Some? {
        DataOfConcat(Present(added[..n]), [added[n].value]);
      }
    }
  }

  /**
   * `add_child_nodes`: `add_child_node` for each item in turn, collecting
   * what each returns (None for a falsy item). An empty list gives None
   * and changes nothing, whether or not there is a parent; a nonempty list
   * with no parent raises ValueError. The new children hold the truthy
   * items, in order, after the parent's old children, and a well-formed
   * tree stays well formed with exactly the new nodes added.
   */
  method AddChildNodes<T>(parent: TreeNode?<T>, items: seq<T>, truthy: T -> bool, ghost t: Tree<T>)
      returns (r: Result<Option<seq<Option<TreeNode<T>>>>>, ghost t': Tree<T>)
    modifies parent
    ensures r == Ok(None) <==> items == []
    ensures r.Err? <==> items != [] && parent == null
    ensures r.Err? ==> r.error == ValueError
    ensures r == Ok(None) && parent != null ==> unchanged(parent)
    ensures r.Ok? && r.value.Some? ==> var added := r.value.value;
      |added| == |items| && (forall k :: 0 <= k < |items| ==> (added[k].Some? <==> truthy(items[k]))) &&
      (forall k :: 0 <= k < |items| && added[k].Some? ==>
        fresh(added[k].value) && added[k].value.data == items[k] && added[k].value.parent == parent && added[k].value.children == []) &&
      DataOf(Present(added)) == Filter(items, truthy) &&
      parent.children == old(parent.children) + Present(added) &&
      parent.isParent == (old(parent.isParent) || Present(added) != []) && parent.Place() == old(parent.Place()) &&
      (old(parent in Nodes(t) && WellFormed(t)) ==>
        t'.node == t.node && WellFormed(t') && Nodes(t') == Nodes(t) + set c | c in Present(added))
  {
    t' := t;
    if parent == null {
      // The first call of `add_child_node` raises; with no items there is no call.
      if items == [] {
        return Ok(None), t';
      }
      return Err(ValueError), t';
    }
    if items == [] {
      return Ok(None), t';
    }
    var keeps := seq(|items|, k requires 0 <= k < |items| => truthy(items[k]));
    var added;
    added, t' := AddEach(parent, items, keeps, t);
    PresentFilter(items, truthy, added);
    return Ok(Some(added)), t';
  }

  /**
   * The loop of `add_child_nodes` once a parent is present: the step of
   * `add_child_node` for each item in turn, collecting what it returns;
   * `keeps[k]` is the truthiness of `items[k]`.
   */
  method AddEach<T>(parent: TreeNode<T>, items: seq<T>, keeps: seq<bool>, ghost t: Tree<T>)
      returns (added: seq<Option<TreeNode<T>>>, ghost t': Tree<T>)
    requires |keeps| == |items|
    modifies parent
    ensures |added| == |items| && forall k :: 0 <= k < |items| ==> (added[k].Some? <==> keeps[k])
    ensures forall k :: 0 <= k < |items| && added[k].Some? ==>
      fresh(added[k].value) && added[k].value.data == items[k] && added[k].value.parent == parent && added[k].value.children == []
    ensures parent.children == old(parent.children) + Present(added)
    ensures parent.isParent == (old(parent.isParent) || Present(added) != [])
    ensures parent.Place() == old(parent.Place())
    ensures old(parent in Nodes(t) && WellFormed(t)) ==>
      t'.node == t.node && WellFormed(t') && Nodes(t') == Nodes(t) + set c | c in Present(added)
  {
    t' := t;
    ghost var valid := parent in Nodes(t) && WellFormed(t);
    ghost var before := parent.children;
    added := [];
    var i := 0;
    while i < |items|
      invariant 0 <= i <= |items| && |added| == i
      invariant forall k :: 0 <= k < i ==> (added[k].Some? <==> keeps[k])
      invariant forall k :: 0 <= k < i && added[k].Some? ==> added[k].value.data == items[k]
      invariant forall k :: 0 <= k < i && added[k].Some? ==>
        fresh(added[k].value) && added[k].value.parent == parent && added[k].value.children == []
      invariant parent.children == before + Present(added)
      invariant parent.isParent == (old(parent.isParent) || Present(added) != [])
      invariant parent.Place() == old(parent.Place())
      invariant valid ==> t'.node == t.node && WellFormed(t') && Nodes(t') == Nodes(t) + set c | c in Present(added)
    {
      var o;
      o, t' := AddOne(parent, items[i], keeps[i], Present(added), valid, t, t');
      PresentStep(added, o);
      added := added + [o];
      i := i + 1;
    }
  }

  /**
   * One step of the loop of `add_child_nodes`: a new childless node for a
   * kept item, appended to the parent's children, or nothing for an item
   * left out. `news` are the nodes the earlier steps appended to `t`,
   * giving `u`.
   */
  method AddOne<T>(parent: TreeNode<T>, data: T, keep: bool, ghost news: seq<TreeNode<T>>, ghost valid: bool, ghost t: Tree<T>, ghost u: Tree<T>)
      returns (o: Option<TreeNode<T>>, ghost u': Tree<T>)
    requires valid ==> parent in Nodes(u) && u.node == t.node && WellFormed(u) && Nodes(u) == Nodes(t) + set c | c in news
    modifies parent
    ensures o.Some? <==> keep
    ensures o.Some? ==> fresh(o.value) && o.value.data == data && o.value.parent == parent && o.value.children == []
    ensures parent.children == old(parent.children) + (if o.Some? then [o.value] else [])
    ensures parent.isParent == (old(parent.isParent) || o.Some?) && parent.Place() == old(parent.Place())
    ensures valid ==> var news' := news + (if o.Some? then [o.value] else []);
      u'.node == t.node && WellFormed(u') && Nodes(u') == Nodes(t) + set c | c in news'
  {
    u' := u;
    o := None;
    if keep {
      ghost var kids := parent.children;
      var c := AttachLeaf(parent, data, |parent.children|, u);
      o := Some(c);
      u' := InsertLeaf(u, parent, |kids|, c);
      assert InsertAt(kids, |kids|, c) == kids + [c];
      assert (set x | x in news + [c]) == (set x | x in news) + {c};
    }
  }

  /**
   * `add_child_nodes_from_index`: ValueError when there is no parent;
   * otherwise, when the list is nonempty and `0 <= index <= len(children)`,
   * one new childless node per item, truthy or not, inserted in order from
   * `index` on, and the parent flagged a parent (the first insertion
   * already flags it, so the flag set after the loop is left to that);
   * anything else changes
   * nothing and gives None. A well-formed tree stays well formed with
   * exactly the new nodes added.
   */
  method AddChildNodesFromIndex<T>(parent: TreeNode?<T>, items: seq<T>, index: int, ghost t: Tree<T>)
      returns (r: Result<Option<seq<TreeNode<T>>>>, ghost t': Tree<T>)
    modifies parent
    ensures r.Err? <==> parent == null
    ensures r.Err? ==> r.error == ValueError
    ensures r.Ok? ==> (r.value.Some? <==> items != [] && 0 <= index <= old(|parent.children|))
    ensures r.Ok? && r.value.None? ==> unchanged(parent)
    ensures r.Ok? && r.value.Some? ==> var added := r.value.value;
      DataOf(added) == items && (forall c :: c in added ==> fresh(c) && c.parent == parent && c.children == []) &&
      parent.children == old(parent.children)[..index] + added + old(parent.children)[index..] && parent.isParent &&
      parent.Place() == old(parent.Place()) &&
      (old(parent in Nodes(t) && WellFormed(t)) ==>
        t'.node == t.node && WellFormed(t') && Nodes(t') == Nodes(t) + set c | c in added)
  {
    t' := t;
    if parent == null {
      return Err(ValueError), t';
    }
    if items == [] || !(0 <= index <= |parent.children|) {
      return Ok(None), t';
    }
    ghost var before := parent.children;
    ghost var valid := parent in Nodes(t) && WellFormed(t);
    var added: seq<TreeNode<T>> := [];
    var count := index;
    var i := 0;
    while i < |items|
      invariant 0 <= i <= |items| && |added| == i && count == index + i
      invariant DataOf(added) == items[..i]
      invariant forall c :: c in added ==> fresh(c) && c.parent == parent && c.children == []
      invariant parent.children == before[..index] + added + before[index..]
      invariant i > 0 ==> parent.isParent
      invariant parent.Place() == old(parent.Place())
      invariant valid ==> t'.node == t.node && WellFormed(t') && parent in Nodes(t') && Nodes(t') == Nodes(t) + set c | c in added
    {
      var c;
      c, t' := AddAt(parent, items[i], index, count, before, added, valid, t, t');
      DataOfConcat(added, [c]);
      assert items[..i + 1] == items[..i] + [items[i]];
      added := added + [c];
      count := count + 1;
      i := i + 1;
    }
    assert items[..i] == items;
    return Ok(Some(added)), t';
  }

  /**
   * One step of the loop of `add_child_nodes_from_index`: a new childless
   * node inserted at `count`, right after the run `added` the earlier steps
   * inserted from `index` on, giving `u` from `t`.
   */
  method AddAt<T>(parent: TreeNode<T>, data: T, index: nat, count: nat, ghost before: seq<TreeNode<T>>,
                  ghost added: seq<TreeNode<T>>, ghost valid: bool, ghost t: Tree<T>, ghost u: Tree<T>)
      returns (c: TreeNode<T>, ghost u': Tree<T>)
    requires index <= |before| && count == index + |added|
    requires parent.children == before[..index] + added + before[index..]
    requires valid ==> parent in Nodes(u) && u.node == t.node && WellFormed(u) && Nodes(u) == Nodes(t) + set x | x in added
    modifies parent
    ensures fresh(c) && c.data == data && c.parent == parent && c.children == []
    ensures parent.children == before[..index] + (added + [c]) + before[index..] && parent.isParent
    ensures parent.Place() == old(parent.Place())
    ensures valid ==> var added' := added + [c];
      parent in Nodes(u') && u'.node == t.node && WellFormed(u') && Nodes(u') == Nodes(t) + set x | x in added'
  {
    c := AttachLeaf(parent, data, count, u);
    InsertAfterRun(before[..index], added, before[index..], c);
    u' := InsertLeaf(u, parent, count, c);
    assert (set x | x in added + [c]) == (set x | x in added) + {c};
  }

  /**
   * A new node that lists the tops of a forest as its children, and that
   * they name as their parent, makes a well-formed tree with them, when
   * every other link of the forest is as the snapshot `l` has it.
   */
  lemma {:induction false} AdoptedNow<T>(root: TreeNode<T>, ss: seq<Tree<T>>, l: Links<T>)
    requires UniqueOf(ss) && root !in NodesOf(ss) && l.children.Keys == NodesOf(ss) && l.parent.Keys == NodesOf(ss)
    requires forall j :: 0 <= j < |ss| ==> MirrorsIn(ss[j], l) && ParentsIn(ss[j], l, l.parent[ss[j].node])
    requires forall o :: o in NodesOf(ss) ==> o.children == l.children[o] && (o !in Roots(ss) ==> o.parent == l.parent[o])
    requires forall j :: 0 <= j < |ss| ==> ss[j].node.parent == root
    requires root.children == Roots(ss) && root.parent == null
    ensures WellFormed(Tree(root, ss))
  {
    var ns := NodesOf(ss) + {root};
    AdoptSnapshot(root, ss, l);
    AdoptedLinks(root, ss, l, LinksOf(ns));
    NodesOfTree(Tree(root, ss));
    MirrorsAsLinks(Tree(root, ss), ns);
    ParentsAsLinks(Tree(root, ss), ns, null);
  }

  /** The snapshot of the forest and its new root agrees with `l` wherever the adoption did not relink. */
  lemma {:induction false} AdoptSnapshot<T>(root: TreeNode<T>, ss: seq<Tree<T>>, l: Links<T>)
    requires root !in NodesOf(ss) && l.children.Keys == NodesOf(ss) && l.parent.Keys == NodesOf(ss)
    requires forall o :: o in NodesOf(ss) ==> o.children == l.children[o] && (o !in Roots(ss) ==> o.parent == l.parent[o])
    requires forall j :: 0 <= j < |ss| ==> ss[j].node.parent == root
    requires root.children == Roots(ss) && root.parent == null
    ensures var l' := LinksOf(NodesOf(ss) + {root});
      SameChildren(l, l', NodesOf(ss)) && SameParents(l, l', NodesOf(ss) - set o | o in Roots(ss)) &&
      (forall j :: 0 <= j < |ss| ==> ss[j].node in l'.parent && l'.parent[ss[j].node] == root) &&
      root in l'.children && l'.children[root] == Roots(ss) && root in l'.parent && l'.parent[root] == null
  {
    forall j | 0 <= j < |ss| ensures ss[j].node in NodesOf(ss) {
      NodesOfTree(ss[j]);
    }
  }

  /**
   * `pre_order_traversal`: the payloads of the tree in pre-order, appended
   * to `result`; None when there is no root.
   */
  method PreOrderTraversal<T>(root: TreeNode?<T>, result: seq<T>, ghost t: Tree<T>) returns (r: Option<seq<T>>)
    requires root != null ==> root == t.node && Mirrors(t)
    ensures root == null ==> r == None
    ensures root != null ==> r == Some(result + DataOf(PreOrder(t)))
    decreases t
  {
    if root == null {
      return None;
    }
    var acc := result + [root.data];
    ghost var ss := t.subtrees;
    NodesAllocated(t);
    var j := 0;
    while j < |root.children|
      invariant 0 <= j <= |ss| == |root.children| && Mirrors(t)
      invariant acc == result + [root.data] + DataOf(PreOrderOf(ss[..j]))
    {
      assert root.children[j] == ss[j].node;
      var sub := PreOrderTraversal(root.children[j], acc, ss[j]);
      PreOrderOfAt(ss, j);
      DataOfConcat(PreOrderOf(ss[..j]), PreOrder(ss[j]));
      acc := sub.value;
      j := j + 1;
    }
    assert ss[..j] == ss;
    DataOfConcat([root], PreOrderOf(ss));
    assert DataOf([root]) == [root.data];
    assert acc == result + DataOf(PreOrder(t));
    return Some(acc);
  }

  /**
   * `post_order_traversal`: the payloads of the tree in post-order,
   * appended to `result`; None when there is no root.
   */
  method PostOrderTraversal<T>(root: TreeNode?<T>, result: seq<T>, ghost t: Tree<T>) returns (r: Option<seq<T>>)
    requires root != null ==> root == t.node && Mirrors(t)
    ensures root == null ==> r == None
    ensures root != null ==> r == Some(result + DataOf(PostOrder(t)))
    decreases t
  {
    if root == null {
      return None;
    }
    var acc := result;
    ghost var ss := t.subtrees;
    NodesAllocated(t);
    var j := 0;
    while j < |root.children|
      invariant 0 <= j <= |ss| == |root.children| && Mirrors(t)
      invariant acc == result + DataOf(PostOrderOf(ss[..j]))
    {
      assert root.children[j] == ss[j].node;
      var sub := PostOrderTraversal(root.children[j], acc, ss[j]);
      PostOrderOfAt(ss, j);
      DataOfConcat(PostOrderOf(ss[..j]), PostOrder(ss[j]));
      acc := sub.value;
      j := j + 1;
    }
    assert ss[..j] == ss;
    DataOfConcat(PostOrderOf(ss), [root]);
    assert DataOf([root]) == [root.data];
    acc := acc + [root.data];
    assert acc == result + DataOf(PostOrder(t));
    return Some(acc);
  }

  /**
   * `level_order_traversal`: the payloads of the tree level by level,
   * appended to `result`; None when there is no root. The queue is a list
   * popped at the front.
   */
  method LevelOrderTraversal<T>(root: TreeNode?<T>, result: seq<T>, ghost t: Tree<T>) returns (r: Option<seq<T>>)
    requires root != null ==> root == t.node && Mirrors(t)
    ensures root == null ==> r == None
    ensures root != null ==> r == Some(result + DataOf(LevelOrder([t])))
  {
    if root == null {
      return None;
    }
    var acc := result;
    var queue: seq<TreeNode<T>> := [root];
    ghost var trees := [t];
    while queue != []
      invariant queue == Roots(trees) && forall u :: u in trees ==> Mirrors(u)
      invariant acc + DataOf(LevelOrder(trees)) == result + DataOf(LevelOrder([t]))
      decreases |PreOrderOf(trees)|
    {
      var current := queue[0];
      queue := queue[1..];
      acc := acc + [current.data];
      LevelOrderStep(trees);
      MirrorsFront(trees);
      DataOfConcat([current], LevelOrder(trees[1..] + trees[0].subtrees));
      assert DataOf([current]) == [current.data];
      var j := 0;
      while j < |current.children|
        invariant 0 <= j <= |current.children| && queue == Roots(trees[1..]) + current.children[..j]
      {
        queue := queue + [current.children[j]];
        j := j + 1;
      }
      assert current.children[..j] == Roots(trees[0].subtrees);
      RootsOfConcat(trees[1..], trees[0].subtrees);
      trees := trees[1..] + trees[0].subtrees;
    }
    assert |trees| == |Roots(trees)| == 0;
    assert acc == result + DataOf(LevelOrder([t]));
    return Some(acc);
  }

  /**
   * `breadth_first_search`: the first node in level order holding the
   * target; None when there is none or no root.
   */
  method BreadthFirstSearch<T(==)>(root: TreeNode?<T>, target: T, ghost t: Tree<T>) returns (r: Option<TreeNode<T>>)
    requires root != null ==> root == t.node && Mirrors(t)
    ensures root == null ==> r == None
    ensures root != null ==> r == FirstWith(LevelOrder([t]), target)
  {
    if root == null {
      return None;
    }
    var queue: seq<TreeNode<T>> := [root];
    ghost var trees := [t];
    while queue != []
      invariant queue == Roots(trees) && forall u :: u in trees ==> Mirrors(u)
      invariant FirstWith(LevelOrder(trees), target) == FirstWith(LevelOrder([t]), target)
      decreases |PreOrderOf(trees)|
    {
      var current := queue[0];
      queue := queue[1..];
      LevelOrderStep(trees);
      MirrorsFront(trees);
      if current.data == target {
        return Some(current);
      }
      var j := 0;
      while j < |current.children|
        invariant 0 <= j <= |current.children| && queue == Roots(trees[1..]) + current.children[..j]
      {
        queue := queue + [current.children[j]];
        j := j + 1;
      }
      assert current.children[..j] == Roots(trees[0].subtrees);
      RootsOfConcat(trees[1..], trees[0].subtrees);
      trees := trees[1..] + trees[0].subtrees;
    }
    assert |trees| == |Roots(trees)| == 0;
    return None;
  }

  /**
   * `depth_first_search`: the first node in pre-order holding the target;
   * None when there is none or no root.
   */
  method DepthFirstSearch<T(==)>(root: TreeNode?<T>, target: T, ghost t: Tree<T>) returns (r: Option<TreeNode<T>>)
    requires root != null ==> root == t.node && Mirrors(t)
    ensures root == null ==> r == None
    ensures root != null ==> r == FirstWith(PreOrder(t), target)
    decreases t
  {
    if root == null {
      return None;
    }
    if root.data == target {
      return Some(root);
    }
    ghost var ss := t.subtrees;
    NodesAllocated(t);
    var j := 0;
    while j < |root.children|
      invariant 0 <= j <= |ss| == |root.children| && Mirrors(t)
      invariant FirstWith(PreOrderOf(ss[..j]), target) == None
    {
      assert root.children[j] == ss[j].node;
      r := DepthFirstSearch(root.children[j], target, ss[j]);
      PreOrderOfAt(ss, j);
      FirstWithConcat(PreOrderOf(ss[..j]), PreOrder(ss[j]), target);
      if r.Some? {
        FirstWithConcat(PreOrderOf(ss[..j + 1]), PreOrderOf(ss[j + 1..]), target);
        return;
      }
      j := j + 1;
    }
    assert ss[..j] == ss;
    return None;
  }

  /**
   * What `search_and_remove_node` does to the drawn tree: the first node in
   * pre-order holding the target is detached, its children handed to its
   * parent; when there is no such node, or it is the root, nothing changes.
   */
  ghost function RemoveTarget<T>(t: Tree<T>, target: T): (Option<TreeNode<T>>, Tree<T>)
  {
    var found := FirstWith(PreOrder(t), target);
    if found.Some? && found.value != t.node then (found, Detach(t, found.value)) else (None, t)
  }

  /**
   * A node is removed exactly when the root does not hold the target and
   * some node does; the removed node holds the target, and the tree keeps
   * its root, loses exactly that node and still draws no node twice.
   */
  lemma {:induction false} RemoveTargetRemoves<T>(t: Tree<T>, target: T)
    requires Unique(t)
    ensures RemoveTarget(t, target).0.Some? <==> t.node.data != target && target in DataOf(PreOrder(t))
    ensures RemoveTarget(t, target).0.None? ==> RemoveTarget(t, target).1 == t
    ensures RemoveTarget(t, target).1.node == t.node && Unique(RemoveTarget(t, target).1)
    ensures RemoveTarget(t, target).0.Some? ==>
      var n := RemoveTarget(t, target).0.value;
      n.data == target && n in Nodes(t) && n != t.node && Nodes(RemoveTarget(t, target).1) == Nodes(t) - {n}
  {
    var found := FirstWith(PreOrder(t), target);
    FirstWithFinds(PreOrder(t), target);
    PreOrderVisitsNodes(t);
    assert PreOrder(t)[0] == t.node;
    if t.node.data == target {
      assert found == Some(t.node);
    } else if found.Some? {
      var n := found.value;
      assert n in PreOrder(t) && n.data == target;
      assert n != t.node;
      DetachRemovesNode(t, n);
    }
  }

  /**
   * `search_and_remove_node`: detaches the first node in pre-order holding
   * the target, hands its children, in order, to its parent after that
   * parent's remaining children, and clears the removed node's links. The
   * root is never removed. The tree stays well formed, and no node's flags
   * change (every node of `t` already exists on entry, by `NodesAllocated`).
   */
  method SearchAndRemoveNode<T(==)>(root: TreeNode?<T>, target: T, ghost t: Tree<T>) returns (r: Option<TreeNode<T>>, ghost t': Tree<T>)
    requires root != null ==> root == t.node && WellFormed(t)
    modifies if root != null then Nodes(t) else {}
    ensures root == null ==> r == None && t' == t
    ensures root != null ==> (r, t') == RemoveTarget(t, target) && WellFormed(t')
    ensures r.Some? ==> r.value.parent == null && r.value.children == []
    ensures root != null ==> forall o :: o in Nodes(t) && old(allocated(o)) ==>
      o.isRoot == old(o.isRoot) && o.isParent == old(o.isParent) && o.isLeft == old(o.isLeft) && o.isRight == old(o.isRight) && o.isLeaf == old(o.isLeaf)
  {
    if root == null {
      return None, t;
    }
    ghost var ns := Nodes(t);
    ghost var l := LinksOf(ns);
    MirrorsAsLinks(t, ns);
    ParentsAsLinks(t, ns, null);
    NodesAllocated(t);
    var found := DepthFirstSearch(root, target, t);
    if found.Some? {
      FirstWithFinds(PreOrder(t), target);
      PreOrderVisitsNodes(t);
      assert found.value in PreOrder(t);
      LinksAround(t, l, null, found.value);
    }
    if found.Some? && found.value.parent != null {
      var n := found.value;
      Unlink(n, ns, l);
      assert Reattached(t, n, l, LinksOf(ns));
      r, t' := Some(n), Detach(t, n);
      DetachKeepsLinks(t, n, l, LinksOf(ns), null);
      DetachRemovesNode(t, n);
      MirrorsAsLinks(t', ns);
      ParentsAsLinks(t', ns, null);
    } else {
      r, t' := None, t;
    }
  }

  /**
   * What `search_and_remove_nodes` does to the drawn tree: each target in
   * turn is removed from the tree the previous ones left, and the nodes
   * removed are collected in order.
   */
  ghost function RemoveTargets<T>(t: Tree<T>, targets: seq<T>): (seq<TreeNode<T>>, Tree<T>)
    decreases |targets|
  {
    if targets == [] then ([], t)
    else
      var (removed, u) := RemoveTargets(t, targets[..|targets| - 1]);
      var (r, v) := RemoveTarget(u, targets[|targets| - 1]);
      (removed + (if r.Some? then [r.value] else []), v)
  }

  /** A node not among those removed so far extends them without repetition. */
  lemma AppendRemoved<T>(earlier: seq<TreeNode<T>>, n: TreeNode<T>)
    requires Distinct(earlier) && n !in set k | 0 <= k < |earlier| :: earlier[k]
    ensures Distinct(earlier + [n])
    ensures (set k | 0 <= k < |earlier + [n]| :: (earlier + [n])[k]) == (set k | 0 <= k < |earlier| :: earlier[k]) + {n}
  {
    var removed := earlier + [n];
    forall k | 0 <= k < |earlier| ensures removed[k] == earlier[k] { }
    assert removed[|earlier|] == n;
  }

  /**
   * Removing several targets one after another removes distinct nodes,
   * at most one per target, none of them the root and each holding one of
   * the targets; the tree keeps its root, loses exactly those nodes and
   * still draws no node twice.
   */
  lemma {:induction false} RemoveTargetsRemoves<T>(t: Tree<T>, targets: seq<T>)
    requires Unique(t)
    ensures var (removed, u) := RemoveTargets(t, targets);
      u.node == t.node && Unique(u) && |removed| <= |targets| && Distinct(removed) &&
      (forall k :: 0 <= k < |removed| ==> removed[k] in Nodes(t) && removed[k] != t.node && removed[k].data in targets) &&
      Nodes(u) == Nodes(t) - set k | 0 <= k < |removed| :: removed[k]
    decreases |targets|
  {
    if targets != [] {
      var init, last := targets[..|targets| - 1], targets[|targets| - 1];
      assert targets == init + [last];
      RemoveTargetsRemoves(t, init);
      var (earlier, u) := RemoveTargets(t, init);
      RemoveTargetRemoves(u, last);
      var (r, v) := RemoveTarget(u, last);
      var removed := earlier + (if r.Some? then [r.value] else []);
      assert RemoveTargets(t, targets) == (removed, v);
      forall k | 0 <= k < |earlier| ensures earlier[k].data in targets {
        assert earlier[k].data in init;
      }
      if r.Some? {
        AppendRemoved(earlier, r.value);
      } else {
        assert removed == earlier;
      }
    }
  }

  /** One round of `search_and_remove_nodes`: the nodes `gone` taken out by earlier rounds stay out. */
  method RemoveNext<T(==)>(root: TreeNode<T>, target: T, ghost t: Tree<T>, ghost gone: set<TreeNode<T>>) returns (r: Option<TreeNode<T>>, ghost t': Tree<T>)
    requires root == t.node && WellFormed(t)
    requires gone !! Nodes(t) && forall o :: o in gone ==> o.parent == null && o.children == []
    modifies Nodes(t)
    ensures (r, t') == RemoveTarget(t, target) && t'.node == root && WellFormed(t') && Nodes(t') <= Nodes(t)
    ensures r.Some? ==> r.value !in gone
    ensures var gone' := if r.Some? then gone + {r.value} else gone;
      gone' !! Nodes(t') && forall o :: o in gone' ==> o.parent == null && o.children == []
    ensures forall o :: o in Nodes(t) && old(allocated(o)) ==>
      o.isRoot == old(o.isRoot) && o.isParent == old(o.isParent) && o.isLeft == old(o.isLeft) && o.isRight == old(o.isRight) && o.isLeaf == old(o.isLeaf)
  {
    r, t' := SearchAndRemoveNode(root, target, t);
    RemoveTargetRemoves(t, target);
  }

  /**
   * `search_and_remove_nodes`: removes each target in turn as
   * `search_and_remove_node` does and returns the nodes removed, or None
   * when there is no root, no target or nothing was removed. The tree stays
   * well formed, every removed node ends unlinked and no node's flags change.
   */
  method SearchAndRemoveNodes<T(==)>(root: TreeNode?<T>, targets: seq<T>, ghost t: Tree<T>) returns (r: Option<seq<TreeNode<T>>>, ghost t': Tree<T>)
    requires root != null ==> root == t.node && WellFormed(t)
    modifies if root != null then Nodes(t) else {}
    ensures root == null || targets == [] ==> r == None && t' == t
    ensures root != null && targets != [] ==>
      t' == RemoveTargets(t, targets).1 && WellFormed(t') &&
      r == (if RemoveTargets(t, targets).0 == [] then None else Some(RemoveTargets(t, targets).0))
    ensures r.Some? ==> forall k :: 0 <= k < |r.value| ==> r.value[k].parent == null && r.value[k].children == []
    ensures root != null ==> forall o :: o in Nodes(t) && old(allocated(o)) ==>
      o.isRoot == old(o.isRoot) && o.isParent == old(o.isParent) && o.isLeft == old(o.isLeft) && o.isRight == old(o.isRight) && o.isLeaf == old(o.isLeaf)
  {
    if root == null || targets == [] {
      return None, t;
    }
    var removed: seq<TreeNode<T>> := [];
    ghost var gone: set<TreeNode<T>> := {};
    t' := t;
    var i := 0;
    while i < |targets|
      invariant 0 <= i <= |targets|
      invariant t'.node == root && WellFormed(t') && Nodes(t') <= Nodes(t)
      invariant (removed, t') == RemoveTargets(t, targets[..i])
      invariant forall k :: 0 <= k < |removed| ==> removed[k] in gone
      invariant gone !! Nodes(t') && forall o :: o in gone ==> o.parent == null && o.children == []
      invariant forall o :: o in Nodes(t) && old(allocated(o)) ==>
      o.isRoot == old(o.isRoot) && o.isParent == old(o.isParent) && o.isLeft == old(o.isLeft) && o.isRight == old(o.isRight) && o.isLeaf == old(o.isLeaf)
    {
      var x;
      ghost var u;
      x, u := RemoveNext(root, targets[i], t', gone);
      assert targets[..i + 1][..i] == targets[..i] && targets[..i + 1][i] == targets[i];
      ghost var next := targets[..i + 1];
      assert next[..|next| - 1] == targets[..i];
      if x.Some? {
        removed := removed + [x.value];
        gone := gone + {x.value};
      } else {
        assert removed + [] == removed;
      }
      t' := u;
      i := i + 1;
      assert targets[..i] == next;
    }
    assert targets[..i] == targets;
    r := if removed == [] then None else Some(removed);
  }

  /**
   * The relinking `search_and_remove_node` does once it has found `n` among
   * the nodes `ns`: `n`'s children are told their new parent, `n` leaves its
   * parent's children and they are appended there, and `n`'s own links are
   * cleared. Every other link of `ns` is left as it was, and no flag is written.
   */
  method Unlink<T>(n: TreeNode<T>, ghost ns: set<TreeNode<T>>, ghost l: Links<T>)
    requires l == LinksOf(ns) && n in ns && n.parent != null && n.parent in ns && n.parent != n
    requires forall o :: o in n.children ==> o in ns && o != n
    modifies ns
    ensures var p := l.parent[n]; var l' := LinksOf(ns);
      l'.children[p] == RemoveFirst(l.children[p], n) + l.children[n] &&
      (forall o :: o in l.children[n] ==> l'.parent[o] == p) &&
      SameChildren(l, l', ns - {n, p}) && SameParents(l, l', ns - {n} - set o | o in l.children[n])
    ensures n.parent == null && n.children == []
    ensures forall o :: o in ns ==> o.Flags() == old(o.Flags())
  {
    var p := n.parent;
    var moved := n.children;
    SetParents(moved, p, ns);
    Splice(n, p, moved);
  }

  /** The writes of `search_and_remove_node` after its loop: `n` leaves `p`'s children, `moved` joins them, and `n`'s links are cleared. */
  method Splice<T>(n: TreeNode<T>, p: TreeNode<T>, moved: seq<TreeNode<T>>)
    requires n != p
    modifies n, p
    ensures p.children == RemoveFirst(old(p.children), n) + moved && p.parent == old(p.parent)
    ensures n.parent == null && n.children == []
    ensures n.Flags() == old(n.Flags()) && p.Flags() == old(p.Flags())
  {
    p.children := RemoveFirst(p.children, n) + moved;
    n.parent := null;
    n.children := [];
  }

  /** The loop of `search_and_remove_node` that points each moved child at its new parent. */
  method SetParents<T>(moved: seq<TreeNode<T>>, p: TreeNode<T>, ghost ns: set<TreeNode<T>>)
    requires forall o :: o in moved ==> o in ns
    modifies ns
    ensures forall o :: o in moved ==> o.parent == p
    ensures forall o :: o in ns && o !in moved ==> o.parent == old(o.parent)
    ensures forall o :: o in ns ==> o.children == old(o.children)
    ensures forall o :: o in ns ==> o.Flags() == old(o.Flags())
  {
    var j := 0;
    while j < |moved|
      invariant 0 <= j <= |moved|
      invariant forall k :: 0 <= k < j ==> moved[k].parent == p
      invariant forall o :: o in ns && o !in moved[..j] ==> o.parent == old(o.parent)
      invariant forall o :: o in ns ==> o.children == old(o.children) && o.Flags() == old(o.Flags())
    {
      moved[j].parent := p;
      j := j + 1;
    }
    assert moved[..j] == moved;
  }
}
