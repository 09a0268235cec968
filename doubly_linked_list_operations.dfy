/**
 * The doubly linked list operations. Each one rewires `next` and `prev`
 * links and the container's fields in place; the contracts say how the
 * ghost sequence of linked nodes changes and, where the code leaves the
 * links inconsistent, exactly which links it wrote.
 */
module DoublyLinkedListOperations {
  import opened Wrappers
  import opened LinkedListUtilities
  import opened BatchSemantics
  import opened DoublyBatchSemantics
  import opened Sequences
  import opened DoublyLinkedList

  /** `initialize_dll`: the list becomes the one fresh node holding `data`. */
  method InitializeDll<T>(dll: List<T>, data: T) returns (node: Node<T>)
    modifies dll
    ensures fresh(node) && node.data == data && node.next == null && node.prev == null
    ensures dll.Valid() && dll.nodes == [node] && dll.repr == old(dll.repr) + {node}
    ensures dll.head == node && dll.tail == node && dll.size == 1 && dll.initialized
    ensures dll.dllNode == old(dll.dllNode)
  {
    node := new Node(data);
    dll.head := node;
    dll.tail := node;
    dll.size := 1;
    dll.initialized := true;
    dll.nodes := [node];
    dll.repr := dll.repr + {node};
  }

  /**
   * `insert_dll_element`: appends, linking the new node back to the old
   * tail; an uninitialized list is initialized instead. On a valid list the
   * source's check for a missing tail always passes.
   */
  method InsertDllElement<T>(dll: List<T>, data: T) returns (node: Node<T>)
    requires dll.Valid()
    modifies dll, dll.repr
    ensures dll.Valid() && fresh(node) && node.data == data && node.next == null
    ensures dll.nodes == old(dll.nodes) + [node] && dll.repr == old(dll.repr) + {node}
    ensures dll.tail == node && dll.size == old(dll.size) + 1
    ensures old(dll.initialized) ==> dll.head == old(dll.head) && node.prev == old(dll.tail) && old(dll.tail).next == node
    ensures dll.dllNode == old(dll.dllNode)
  {
    if !dll.initialized {
      node := InitializeDll(dll, data);
      return;
    }
    ghost var ns := dll.nodes;
    ghost var last := dll.tail;
    node := new Node(data);
    if dll.size == 1 && dll.head != null {
      dll.head.next := node;
      node.prev := dll.head;
    } else {
      dll.tail.next := node;
      node.prev := dll.tail;
    }
    dll.tail := node;
    dll.size := dll.size + 1;
    dll.nodes := ns + [node];
    dll.repr := dll.repr + {node};
    forall j | 0 <= j < |dll.nodes| - 1 ensures dll.nodes[j].next == dll.nodes[j + 1] {
      if j < |ns| - 1 {
        assert ns[j] != last;
      }
    }
    forall j | 1 <= j < |dll.nodes| ensures dll.nodes[j].prev == dll.nodes[j - 1] {
      if j < |ns| {
        assert ns[j] != node;
      }
    }
  }

  /**
   * `insert_dll_nth_element`: ValueError on an uninitialized list. There is
   * no bounds check: `max(index - 2, 0)` hops reach a node, and the new node
   * goes after it only if that node has a successor, so it lands at position
   * `max(index, 2)` and never becomes the head or the tail. Otherwise
   * nothing changes and the result is None.
   */
  method InsertDllNthElement<T>(dll: List<T>, data: T, index: int) returns (r: Result<Option<Node<T>>>)
    requires dll.Valid()
    modifies dll, dll.repr
    ensures dll.Valid()
    ensures r.Err? <==> !old(dll.initialized)
    ensures r.Err? ==> r.error == ValueError
    ensures r.Ok? ==> (r.value.Some? <==> 2 <= old(dll.size) && index <= old(dll.size))
    ensures !(r.Ok? && r.value.Some?) ==> unchanged(dll) && unchanged(dll.repr)
    ensures r.Ok? && r.value.Some? ==>
      var n := r.value.value;
      var p := if index < 2 then 2 else index;
      fresh(n) && n.data == data && dll.repr == old(dll.repr) + {n} &&
      dll.nodes == old(dll.nodes[..p - 1]) + [n] + old(dll.nodes[p - 1..]) &&
      n.prev == old(dll.nodes[p - 2]) && n.next == old(dll.nodes[p - 1]) &&
      n.prev.next == n && n.next.prev == n
    ensures dll.head == old(dll.head) && dll.tail == old(dll.tail) && dll.dllNode == old(dll.dllNode)
  {
    if !dll.initialized {
      return Err(ValueError);
    }
    ghost var ns := dll.nodes;
    ghost var h := if index < 2 then 0 else index - 2;
    var current := dll.head;
    var hops := 0;
    while hops < index - 2
      invariant 0 <= hops <= h
      invariant current == if hops < |ns| then ns[hops] else null
    {
      current := if current != null then current.next else null;
      hops := hops + 1;
    }
    if current != null && current.next != null {
      assert hops == h && h + 1 < |ns|;
      var node := SpliceAfter(dll, current, data, h);
      return Ok(Some(node));
    }
    return Ok(None);
  }

  /** The splice `insert_dll_nth_element` performs after node `h` (0-based), which has a successor. */
  method SpliceAfter<T>(dll: List<T>, current: Node<T>, data: T, ghost h: int) returns (node: Node<T>)
    requires dll.Valid() && 0 <= h < |dll.nodes| - 1 && current == dll.nodes[h]
    modifies dll, dll.repr
    ensures dll.Valid() && fresh(node) && node.data == data && dll.repr == old(dll.repr) + {node}
    ensures dll.nodes == old(dll.nodes[..h + 1]) + [node] + old(dll.nodes[h + 1..])
    ensures node.prev == current && node.next == old(dll.nodes[h + 1])
    ensures current.next == node && node.next.prev == node
    ensures dll.size == old(dll.size) + 1
    ensures dll.head == old(dll.head) && dll.tail == old(dll.tail) && dll.dllNode == old(dll.dllNode)
  {
    ghost var ns := dll.nodes;
    assert current.next == ns[h + 1];
    node := new Node(data);
    LinkAfter(ns, h, current, node);
    dll.size := dll.size + 1;
    dll.nodes := ns[..h + 1] + [node] + ns[h + 1..];
    dll.repr := dll.repr + {node};
    SpliceChains(ns, h, node);
    SpliceFrame(ns, h, node, dll.repr, dll.head.prev);
  }

  /**
   * The four link writes of the splice: `node` goes between `ns[h]` and
   * `ns[h + 1]`, and every other link along `ns` stays as it was.
   */
  method LinkAfter<T>(ghost ns: seq<Node<T>>, ghost h: int, current: Node<T>, node: Node<T>)
    requires Distinct(ns) && Linked(ns) && BackLinked(ns) && node !in ns
    requires 0 <= h < |ns| - 1 && current == ns[h]
    modifies current, current.next, node
    ensures forall j :: 0 <= j < |ns| - 1 && j != h ==> ns[j].next == ns[j + 1]
    ensures forall j :: 1 <= j < |ns| && j != h + 1 ==> ns[j].prev == ns[j - 1]
    ensures ns[h].next == node && node.next == ns[h + 1] && node.prev == ns[h] && ns[h + 1].prev == node
    ensures ns[|ns| - 1].next == old(ns[|ns| - 1].next) && ns[0].prev == old(ns[0].prev)
  {
    assert current.next == ns[h + 1];
    node.next := current.next;
    node.prev := current;
    current.next.prev := node;
    current.next := node;
  }

  /** Links around a node spliced in after position `h` join up both ways. */
  lemma SpliceChains<T>(ns: seq<Node<T>>, h: int, node: Node<T>)
    requires Distinct(ns) && node !in ns && 0 <= h < |ns| - 1
    requires forall j :: 0 <= j < |ns| - 1 && j != h ==> ns[j].next == ns[j + 1]
    requires forall j :: 1 <= j < |ns| && j != h + 1 ==> ns[j].prev == ns[j - 1]
    requires ns[h].next == node && node.next == ns[h + 1] && node.prev == ns[h] && ns[h + 1].prev == node
    ensures var ms := ns[..h + 1] + [node] + ns[h + 1..];
      Linked(ms) && BackLinked(ms) && Distinct(ms)
  {
    var ms := ns[..h + 1] + [node] + ns[h + 1..];
    DistinctSplice(ns, h + 1, node);
    forall j | 0 <= j < |ms| - 1 ensures ms[j].next == ms[j + 1] {
      if j < h {
        assert ms[j] == ns[j] && ms[j + 1] == ns[j + 1];
      } else if j > h + 1 {
        assert ms[j] == ns[j - 1] && ms[j + 1] == ns[j];
      }
    }
    forall j | 1 <= j < |ms| ensures ms[j].prev == ms[j - 1] {
      if j <= h {
        assert ms[j] == ns[j] && ms[j - 1] == ns[j - 1];
      } else if j > h + 2 {
        assert ms[j] == ns[j - 1] && ms[j - 1] == ns[j - 2];
      }
    }
  }

  /** The spliced sequence keeps its ends, stays inside `R` and still avoids `y`. */
  lemma SpliceFrame<T>(ns: seq<Node<T>>, h: int, node: Node<T>, R: set<Node<T>>, y: Node?<T>)
    requires 0 <= h < |ns| - 1 && node in R && node != y
    requires forall k :: 0 <= k < |ns| ==> ns[k] in R && ns[k] != y
    ensures var ms := ns[..h + 1] + [node] + ns[h + 1..];
      |ms| == |ns| + 1 && ms[0] == ns[0] && ms[|ms| - 1] == ns[|ns| - 1] &&
      forall k :: 0 <= k < |ms| ==> ms[k] in R && ms[k] != y
  {
    var ms := ns[..h + 1] + [node] + ns[h + 1..];
    forall k | 0 <= k < |ms| ensures ms[k] in R && ms[k] != y {
      if k <= h {
        assert ms[k] == ns[k];
      } else if k > h + 1 {
        assert ms[k] == ns[k - 1];
      }
    }
  }

  /** `get_element_at_index`: ValueError when uninitialized, None outside 1..size, else the node at `index`. */
  method GetElementAtIndex<T>(dll: List<T>, index: int) returns (r: Result<Option<Node<T>>>)
    requires dll.Valid()
    ensures !dll.initialized ==> r == Err(ValueError)
    ensures dll.initialized && (index < 1 || index > dll.size) ==> r == Ok(None)
    ensures dll.initialized && 1 <= index <= dll.size ==> r == Ok(Some(dll.nodes[index - 1]))
  {
    if !dll.initialized {
      return Err(ValueError);
    }
    if index < 1 || index > dll.size {
      return Ok(None);
    }
    var current := dll.head;
    var hops := 0;
    while hops < index - 1
      invariant 0 <= hops <= index - 1 && current == dll.nodes[hops]
    {
      if current != null {
        current := current.next;
      }
      hops := hops + 1;
    }
    return Ok(Some(current));
  }

  /** `shallow_clear_dll`: the container forgets its nodes; no link is touched. */
  method ShallowClearDll<T>(dll: List<T>)
    modifies dll
    ensures dll.Valid() && dll.nodes == [] && dll.repr == old(dll.repr)
    ensures dll.head == null && dll.tail == null && dll.size == 0 && !dll.initialized
    ensures dll.dllNode == old(dll.dllNode)
  {
    dll.head := null;
    dll.tail := null;
    dll.size := 0;
    dll.initialized := false;
    dll.nodes := [];
  }

  /** `deep_clear_dll`: walks the chain setting every `prev` and `next` to None, then empties the container. */
  method DeepClearDll<T>(dll: List<T>)
    requires dll.Valid()
    modifies dll, dll.repr
    ensures dll.Valid() && dll.nodes == [] && dll.repr == old(dll.repr)
    ensures dll.head == null && dll.tail == null && dll.size == 0 && !dll.initialized
    ensures forall n :: n in old(dll.nodes) ==> n.next == null && n.prev == null
    ensures dll.dllNode == old(dll.dllNode)
  {
    ghost var ns := dll.nodes;
    var current := dll.head;
    ghost var i := 0;
    while current != null
      invariant 0 <= i <= |ns| && current == (if i < |ns| then ns[i] else null)
      invariant forall j :: 0 <= j < i ==> ns[j].next == null && ns[j].prev == null
      invariant forall j :: i <= j < |ns| - 1 ==> ns[j].next == ns[j + 1]
      invariant |ns| > 0 ==> ns[|ns| - 1].next == null
      invariant unchanged(dll)
      decreases |ns| - i
    {
      var nextNode := current.next;
      current.prev := null;
      current.next := null;
      current := nextNode;
      i := i + 1;
    }
    dll.head := null;
    dll.tail := null;
    dll.size := 0;
    dll.initialized := false;
    dll.nodes := [];
  }

  /**
   * `delete_dll_tail_element`: ValueError on an empty list; a one-node list
   * becomes empty; otherwise the tail's predecessor becomes the tail and the
   * removed node's links are set to None.
   */
  method DeleteDllTailElement<T>(dll: List<T>) returns (r: Result<Node<T>>)
    requires dll.Valid()
    modifies dll, dll.repr
    ensures dll.Valid() && dll.repr == old(dll.repr)
    ensures r.Err? <==> old(dll.nodes) == []
    ensures r.Err? ==> r.error == ValueError && unchanged(dll)
    ensures r.Ok? ==> r.value == old(dll.tail) && dll.nodes == old(dll.nodes[..|dll.nodes| - 1])
    ensures r.Ok? && old(dll.size) >= 2 ==> r.value.next == null && r.value.prev == null
    ensures dll.dllNode == old(dll.dllNode)
  {
    if !dll.initialized || dll.size == 0 {
      return Err(ValueError);
    }
    if dll.size == 1 {
      var deleted := dll.head;
      dll.head := null;
      dll.tail := null;
      dll.size := 0;
      dll.initialized := false;
      dll.nodes := [];
      return Ok(deleted);
    }
    ghost var ns := dll.nodes;
    var deleted := dll.tail;
    assert deleted.prev == ns[|ns| - 2];
    var newTail := deleted.prev;
    newTail.next := null;
    deleted.prev := null;
    dll.tail := newTail;
    dll.size := dll.size - 1;
    dll.nodes := ns[..|ns| - 1];
    forall j | 1 <= j < |dll.nodes| ensures dll.nodes[j].prev == dll.nodes[j - 1] {
      assert dll.nodes[j] == ns[j] != ns[|ns| - 1];
    }
    return Ok(deleted);
  }

  /**
   * `delete_dll_head_element`: ValueError on an empty list; a one-node list
   * becomes empty; otherwise the head's successor becomes the head and the
   * removed node's links are set to None, but the new head's `prev` still
   * points at the removed node.
   */
  method DeleteDllHeadElement<T>(dll: List<T>) returns (r: Result<Node<T>>)
    requires dll.Valid()
    modifies dll, dll.repr
    ensures dll.Valid() && dll.repr == old(dll.repr)
    ensures r.Err? <==> old(dll.nodes) == []
    ensures r.Err? ==> r.error == ValueError && unchanged(dll)
    ensures r.Ok? ==> r.value == old(dll.head) && dll.nodes == old(dll.nodes[1..])
    ensures r.Ok? && old(dll.size) >= 2 ==> r.value.next == null && r.value.prev == null && dll.head.prev == r.value
    ensures dll.dllNode == old(dll.dllNode)
  {
    if !dll.initialized || dll.size == 0 {
      return Err(ValueError);
    }
    if dll.size == 1 {
      var deleted := dll.head;
      dll.head := null;
      dll.tail := null;
      dll.size := 0;
      dll.initialized := false;
      dll.nodes := [];
      return Ok(deleted);
    }
    ghost var ns := dll.nodes;
    DistinctDropFirst(ns);
    var deleted := dll.head;
    var newHead := deleted.next;
    deleted.prev := null;
    deleted.next := null;
    dll.size := dll.size - 1;
    dll.head := newHead;
    dll.nodes := ns[1..];
    forall j | 0 <= j < |dll.nodes| - 1 ensures dll.nodes[j].next == dll.nodes[j + 1] {
      assert dll.nodes[j] == ns[j + 1] != ns[0] && dll.nodes[j + 1] == ns[j + 2];
    }
    forall j | 1 <= j < |dll.nodes| ensures dll.nodes[j].prev == dll.nodes[j - 1] {
      assert dll.nodes[j] == ns[j + 1] != ns[0] && dll.nodes[j - 1] == ns[j];
    }
    return Ok(deleted);
  }

  /**
   * The four link writes that unlink `current`: its neighbours are joined
   * and its own links set to None. When `current` is the node at 0-based
   * position `i` strictly inside `ns`, every other link along `ns` stays.
   */
  method UnlinkNode<T>(ghost ns: seq<Node<T>>, ghost i: int, current: Node<T>)
    requires current.prev != null && current.next != null
    requires current.prev != current && current.next != current && current.prev != current.next
    requires 0 < i < |ns| - 1 ==> Distinct(ns) && Linked(ns) && BackLinked(ns) && current == ns[i]
    modifies current, current.prev, current.next
    ensures old(current.prev).next == old(current.next) && old(current.next).prev == old(current.prev)
    ensures old(current.prev).prev == old(current.prev.prev) && old(current.next).next == old(current.next.next)
    ensures current.next == null && current.prev == null
    ensures 0 < i < |ns| - 1 ==>
      (forall j :: 0 <= j < |ns| - 1 && j != i - 1 && j != i ==> ns[j].next == ns[j + 1]) &&
      (forall j :: 1 <= j < |ns| && j != i && j != i + 1 ==> ns[j].prev == ns[j - 1]) &&
      ns[0].prev == old(ns[0].prev) && ns[|ns| - 1].next == old(ns[|ns| - 1].next)
  {
    if 0 < i < |ns| - 1 {
      assert current.prev == ns[i - 1] && current.next == ns[i + 1];
    }
    current.prev.next := current.next;
    current.next.prev := current.prev;
    current.next := null;
    current.prev := null;
  }

  /** Links around position `i` (0-based) joined over it leave the rest of the chain linked both ways. */
  lemma RemoveChains<T>(ns: seq<Node<T>>, i: int, R: set<Node<T>>, y: Node?<T>)
    requires Distinct(ns) && 0 < i < |ns| - 1
    requires forall k :: 0 <= k < |ns| ==> ns[k] in R && ns[k] != y
    requires forall j :: 0 <= j < |ns| - 1 && j != i - 1 && j != i ==> ns[j].next == ns[j + 1]
    requires forall j :: 1 <= j < |ns| && j != i && j != i + 1 ==> ns[j].prev == ns[j - 1]
    requires ns[i - 1].next == ns[i + 1] && ns[i + 1].prev == ns[i - 1]
    ensures var ms := RemoveAt(ns, i + 1);
      Linked(ms) && BackLinked(ms) && Distinct(ms) && ns[i] !in ms &&
      |ms| == |ns| - 1 && ms[0] == ns[0] && ms[|ms| - 1] == ns[|ns| - 1] &&
      forall k :: 0 <= k < |ms| ==> ms[k] in R && ms[k] != y
  {
    var ms := RemoveAt(ns, i + 1);
    DistinctRemove(ns, i);
    forall k | 0 <= k < |ms| ensures ms[k] == (if k < i then ns[k] else ns[k + 1]) {
    }
    forall j | 0 <= j < |ms| - 1 ensures ms[j].next == ms[j + 1] {
      if j < i - 1 {
        assert ms[j] == ns[j] && ms[j + 1] == ns[j + 1];
      } else if j >= i {
        assert ms[j] == ns[j + 1] && ms[j + 1] == ns[j + 2];
      }
    }
    forall j | 1 <= j < |ms| ensures ms[j].prev == ms[j - 1] {
      if j < i {
        assert ms[j] == ns[j] && ms[j - 1] == ns[j - 1];
      } else if j > i {
        assert ms[j] == ns[j + 1] && ms[j - 1] == ns[j];
      }
    }
  }

  /** `delete_dll_nth_element` on a node strictly inside the list: it is unlinked and the list stays valid. */
  method DeleteInside<T>(dll: List<T>, current: Node<T>, ghost i: int)
    requires dll.Valid() && 0 < i < |dll.nodes| - 1 && current == dll.nodes[i]
    modifies dll, dll.repr
    ensures dll.Valid() && dll.repr == old(dll.repr) && dll.nodes == old(RemoveAt(dll.nodes, i + 1))
    ensures current.next == null && current.prev == null
    ensures dll.size == old(dll.size) - 1
    ensures dll.head == old(dll.head) && dll.tail == old(dll.tail) && dll.dllNode == old(dll.dllNode)
  {
    ghost var ns := dll.nodes;
    assert current.prev == ns[i - 1] && current.next == ns[i + 1];
    UnlinkNode(ns, i, current);
    dll.size := dll.size - 1;
    dll.nodes := RemoveAt(ns, i + 1);
    RemoveChains(ns, i, dll.repr, dll.head.prev);
  }

  /**
   * `delete_dll_nth_element`: ValueError on an empty list, IndexError
   * outside 1..size; a one-node list becomes empty. Otherwise the node at
   * `index` is returned, but it is unlinked only if both its links are set:
   * the tail, and a head whose `prev` is None, stay in the list. A head whose
   * `prev` still points at an earlier removed node is unlinked from that
   * node, while the list's `head` field keeps pointing at it.
   */
  method DeleteDllNthElement<T>(dll: List<T>, index: int) returns (r: Result<Node<T>>)
    requires dll.Valid()
    modifies dll, dll.repr
    ensures r.Err? <==> old(dll.nodes) == [] || index < 1 || index > old(dll.size)
    ensures old(dll.nodes) == [] ==> r == Err(ValueError)
    ensures old(dll.nodes) != [] && (index < 1 || index > old(dll.size)) ==> r == Err(IndexError)
    ensures r.Err? ==> unchanged(dll)
    ensures r.Ok? ==> r.value == old(dll.nodes[index - 1])
    ensures r.Ok? && old(dll.size) == 1 ==> dll.Valid() && dll.nodes == [] && !dll.initialized
    ensures r.Ok? && 1 < index < old(dll.size) ==>
      dll.Valid() && dll.nodes == old(RemoveAt(dll.nodes, index)) && r.value.next == null && r.value.prev == null
    ensures r.Ok? && old(dll.size) >= 2 && (index == old(dll.size) || (index == 1 && old(dll.head.prev) == null)) ==>
      unchanged(dll) && unchanged(dll.repr)
    ensures r.Ok? && old(dll.size) >= 2 && index == 1 && old(dll.head.prev) != null ==>
      var s := old(dll.head.prev);
      var n := old(dll.nodes[1]);
      s.next == n && n.prev == s && r.value.next == null && r.value.prev == null &&
      dll.head == r.value && dll.tail == old(dll.tail) && dll.size == old(dll.size) - 1
    ensures dll.repr == old(dll.repr) && dll.dllNode == old(dll.dllNode)
  {
    if !dll.initialized || dll.size == 0 {
      return Err(ValueError);
    }
    if index < 1 || index > dll.size {
      return Err(IndexError);
    }
    if dll.size == 1 {
      var deleted := dll.head;
      dll.head := null;
      dll.tail := null;
      dll.size := 0;
      dll.initialized := false;
      dll.nodes := [];
      return Ok(deleted);
    }
    ghost var ns := dll.nodes;
    // Inside the list the walk never meets None, so the source's guard on `current` always passes.
    var current: Node<T> := dll.head;
    var hops := 0;
    while hops < index - 1
      invariant 0 <= hops <= index - 1 && current == ns[hops]
    {
      current := current.next;
      hops := hops + 1;
    }
    if current.next != null && current.prev != null {
      if index > 1 {
        DeleteInside(dll, current, index - 1);
      } else {
        UnlinkNode(ns, 0, current);
        dll.size := dll.size - 1;
      }
    }
    return Ok(current);
  }

  /**
   * The four link writes with which the batch insertion puts `node` after
   * `current`, in the source's order: the successor's `prev` is set first,
   * so the new node's `next`, read back through it, is the new node itself.
   */
  method LinkBatchNode<T>(current: Node<T>, node: Node<T>)
    requires current.next != null && node != current && node != current.next
    modifies current, current.next, node
    ensures node.next == node && node.prev == current && current.next == node
    ensures old(current.next).prev == node
    ensures current != old(current.next) ==> current.prev == old(current.prev) && old(current.next).next == old(current.next.next)
  {
    current.next.prev := node;
    node.next := current.next.prev;
    current.next := node;
    node.prev := current;
  }

  /**
   * Where the batch insertion stands. Before its first insertion nothing
   * has changed and the cursor is `c` nodes past the head (None past the
   * tail). After it the cursor is on the newest inserted node, which links
   * to itself; the first one sits after the node at position `at`, whose
   * successor links back to it, and each later one after its predecessor.
   */
  ghost predicate InsertShape<T>(ns: seq<Node<T>>, started: bool, current: Node?<T>, c: int, inserted: seq<Node<T>>, at: int)
    reads ns, inserted
  {
    |ns| >= 1 &&
    (!started ==>
      inserted == [] && 0 <= c && current == (if c < |ns| then ns[c] else null) &&
      Linked(ns) && ns[|ns| - 1].next == null) &&
    (started ==>
      inserted != [] && 0 <= at < |ns| - 1 &&
      current == inserted[|inserted| - 1] && current.next == current &&
      current != ns[at] && current != ns[at + 1] &&
      ns[at].next == inserted[0] && ns[at + 1].prev == inserted[0] &&
      (|inserted| == 1 ==> current.prev == ns[at]) &&
      (|inserted| >= 2 ==>
         current.prev == inserted[|inserted| - 2] &&
         inserted[|inserted| - 2].next == current && inserted[|inserted| - 2].prev == current))
  }

  /**
   * One handler of `insert_dll_multiple_elements` within 1..size + 1:
   * before the first insertion the cursor advances `index - 1` nodes and
   * inserts if the node it reaches has a successor; after it, the cursor
   * stays on the self-linked newest node and the insertion always happens.
   */
  method InsertDllStep<T>(dll: List<T>, handler: MultipleElementsHandler<T>, current: Node?<T>, currentIndex: int,
                          started: bool, ghost ns: seq<Node<T>>, ghost c: int, ghost inserted: seq<Node<T>>, ghost at: int)
    returns (current': Node?<T>, currentIndex': int, started': bool, node: Option<Node<T>>, ghost c': int, ghost at': int)
    requires 1 <= handler.index && InsertShape(ns, started, current, c, inserted, at)
    requires forall n :: n in ns ==> n in dll.repr
    modifies dll, dll.repr, inserted
    ensures node.Some? <==> started || c + handler.index - 1 < |ns| - 1
    ensures started ==> c' == c && at' == at && started'
    ensures !started ==> c' == c + handler.index - 1 && started' == node.Some? && (node.Some? ==> at' == c')
    ensures node.None? ==> unchanged(dll) && unchanged(dll.repr) && InsertShape(ns, false, current', c', [], at')
    ensures node.Some? ==> fresh(node.value) && node.value.data == handler.element && dll.size == old(dll.size) + 1
    ensures node.Some? ==> InsertShape(ns, true, current', c', inserted + [node.value], at')
    ensures node.Some? ==> dll.head == old(dll.head) && dll.tail == old(dll.tail) && dll.initialized == old(dll.initialized)
    ensures node.Some? ==> dll.nodes == old(dll.nodes) && dll.repr == old(dll.repr) && dll.dllNode == old(dll.dllNode)
  {
    var newNode := new Node(handler.element);
    current' := current;
    currentIndex' := currentIndex;
    c' := c;
    at' := at;
    started' := started;
    if !started {
      var hops := 0;
      while hops < handler.index - 1
        invariant 0 <= hops <= handler.index - 1
        invariant current' == (if c + hops < |ns| then ns[c + hops] else null)
      {
        current' := if current' != null then current'.next else null;
        currentIndex' := currentIndex' + 1;
        hops := hops + 1;
      }
      c' := c + handler.index - 1;
      if current' != null && current'.next != null {
        assert current'.next == ns[c' + 1];
        LinkBatchNode(current', newNode);
        dll.size := dll.size + 1;
        started' := true;
        at' := c';
        current' := newNode;
        currentIndex' := currentIndex' + 1;
        return current', currentIndex', started', Some(newNode), c', at';
      }
      return current', currentIndex', started', None, c', at';
    } else {
      var hops := 0;
      while hops < handler.index - currentIndex'
        invariant current' == inserted[|inserted| - 1] && current'.next == current'
      {
        current' := if current' != null then current'.next else null;
        currentIndex' := currentIndex' + 1;
        hops := hops + 1;
      }
      if current' != null && current'.next != null {
        ghost var x := current';
        LinkBatchNode(current', newNode);
        dll.size := dll.size + 1;
        current' := newNode;
        currentIndex' := currentIndex' + 1;
        assert x.next == newNode && x.prev == newNode;
        return current', currentIndex', started', Some(newNode), c', at';
      }
      return current', currentIndex', started', None, c', at';
    }
  }

  /** One turn of the loop of `insert_dll_multiple_elements`: the handler is skipped or handed to `InsertDllStep`. */
  method InsertDllTurn<T>(dll: List<T>, sorted: seq<MultipleElementsHandler<T>>, p: int, current: Node?<T>, currentIndex: int,
                          started: bool, inserted: seq<Node<T>>, skipped: seq<int>, ghost ns: seq<Node<T>>, ghost k: int,
                          ghost c: int, ghost acted: seq<MultipleElementsHandler<T>>, ghost at: int)
    returns (current': Node?<T>, currentIndex': int, started': bool, inserted': seq<Node<T>>, skipped': seq<int>,
             ghost c': int, ghost acted': seq<MultipleElementsHandler<T>>, ghost at': int)
    requires 0 <= p < |sorted|
    requires InsertScanProgress(sorted, k, p, dll.size, c, started, skipped, acted, at)
    requires InsertShape(ns, started, current, c, inserted, at)
    requires k == |ns| && dll.size == k + |inserted| && dll.nodes == ns && forall n :: n in ns ==> n in dll.repr
    requires |inserted| == |acted| && forall i :: 0 <= i < |inserted| ==> inserted[i].data == acted[i].element
    modifies dll, dll.repr, inserted
    ensures InsertScanProgress(sorted, k, p + 1, dll.size, c', started', skipped', acted', at')
    ensures InsertShape(ns, started', current', c', inserted', at')
    ensures dll.size == k + |inserted'| && dll.nodes == ns && dll.repr == old(dll.repr)
    ensures dll.head == old(dll.head) && dll.tail == old(dll.tail) && dll.initialized == old(dll.initialized)
    ensures dll.dllNode == old(dll.dllNode)
    ensures |inserted'| == |acted'| && forall i :: 0 <= i < |inserted'| ==> inserted'[i].data == acted'[i].element
    ensures inserted' == inserted || (|inserted'| == |inserted| + 1 && inserted'[..|inserted|] == inserted && fresh(inserted'[|inserted|]))
    ensures !started' ==> unchanged(dll) && unchanged(dll.repr)
    ensures started ==> started'
  {
    var handler := sorted[p];
    InsertScanStep(sorted, k, p, dll.size, c, started, skipped, acted, at);
    current', currentIndex', started', inserted', skipped', c', acted', at' :=
      current, currentIndex, started, inserted, skipped, c, acted, at;
    if handler.index < 1 || handler.index > dll.size + 1 {
      skipped' := skipped + [handler.index];
    } else {
      assert !started ==> dll.size == |ns|;
      var node;
      current', currentIndex', started', node, c', at' :=
        InsertDllStep(dll, handler, current, currentIndex, started, ns, c, inserted, at);
      if node.Some? {
        inserted' := inserted + [node.value];
        acted' := acted + [handler];
        assert InsertScanProgress(sorted, k, p + 1, dll.size, c', true, skipped, acted', at');
      } else {
        assert InsertScanProgress(sorted, k, p + 1, dll.size, c', false, skipped, acted, at');
      }
    }
  }

  /** The loop of `insert_dll_multiple_elements`, over the sorted handlers of an initialized list. */
  method InsertDllLoop<T>(dll: List<T>, sorted: seq<MultipleElementsHandler<T>>)
    returns (inserted: seq<Node<T>>, skipped: seq<int>, ghost started: bool, ghost acted: seq<MultipleElementsHandler<T>>, ghost at: int)
    requires dll.Valid() && dll.initialized
    modifies dll, dll.repr
    ensures DoublyInsertScan(sorted, old(dll.size), 0, false) == DoublyBatch(skipped, acted, if started then at else -1)
    ensures started <==> inserted != []
    ensures exists current, c :: InsertShape(old(dll.nodes), started, current, c, inserted, at)
    ensures dll.size == old(dll.size) + |inserted| && dll.nodes == old(dll.nodes) && dll.repr == old(dll.repr)
    ensures dll.head == old(dll.head) && dll.tail == old(dll.tail) && dll.initialized && dll.dllNode == old(dll.dllNode)
    ensures |inserted| == |acted| && forall i :: 0 <= i < |inserted| ==> fresh(inserted[i]) && inserted[i].data == acted[i].element
    ensures !started ==> unchanged(dll) && unchanged(dll.repr)
  {
    ghost var ns := dll.nodes;
    ghost var k := |ns|;
    inserted := [];
    skipped := [];
    var current := dll.head;
    var currentIndex := 1;
    var firstInserted := false;
    ghost var c := 0;
    acted := [];
    at := -1;
    InsertScanStart(sorted, k);
    var p := 0;
    while p < |sorted|
      invariant 0 <= p <= |sorted|
      invariant InsertScanProgress(sorted, k, p, dll.size, c, firstInserted, skipped, acted, at)
      invariant InsertShape(ns, firstInserted, current, c, inserted, at)
      invariant dll.size == k + |inserted| && dll.nodes == ns && dll.repr == old(dll.repr)
      invariant dll.head == old(dll.head) && dll.tail == old(dll.tail) && dll.initialized && dll.dllNode == old(dll.dllNode)
      invariant |inserted| == |acted| && forall i :: 0 <= i < |inserted| ==> fresh(inserted[i]) && inserted[i].data == acted[i].element
      invariant !firstInserted ==> unchanged(dll) && unchanged(dll.repr)
    {
      current, currentIndex, firstInserted, inserted, skipped, c, acted, at :=
        InsertDllTurn(dll, sorted, p, current, currentIndex, firstInserted, inserted, skipped, ns, k, c, acted, at);
      p := p + 1;
    }
    InsertScanEnd(sorted, k, dll.size, c, firstInserted, skipped, acted, at);
    started := firstInserted;
  }

  /**
   * `insert_dll_multiple_elements`: ValueError on an uninitialized list;
   * otherwise the handlers are sorted by index and processed as
   * `DoublyInsertScan` says. The first insertion goes after the node at
   * position `at`, whose successor then links back to the new node, but
   * the new node links to itself and each later insertion goes after the
   * newest node, so the rest of the old chain is cut off. The result lists
   * the inserted nodes and the skipped indices.
   */
  method InsertDllMultipleElements<T>(dll: List<T>, handlers: seq<MultipleElementsHandler<T>>)
    returns (r: Result<(seq<Node<T>>, seq<int>)>)
    requires dll.Valid()
    modifies dll, dll.repr
    ensures r.Err? <==> !old(dll.initialized)
    ensures r.Err? ==> r.error == ValueError && unchanged(dll)
    ensures r.Ok? ==>
      var o := DoublyInsertScan(SortListMultipleElementsHandlers(handlers), old(dll.size), 0, false);
      var ins := r.value.0;
      r.value.1 == o.skipped && |ins| == |o.acted| && dll.size == old(dll.size) + |ins| &&
      (forall i :: 0 <= i < |ins| ==> fresh(ins[i]) && ins[i].data == o.acted[i].element)
    ensures r.Ok? && r.value.0 == [] ==> unchanged(dll) && unchanged(dll.repr)
    ensures r.Ok? && r.value.0 != [] ==>
      var o := DoublyInsertScan(SortListMultipleElementsHandlers(handlers), old(dll.size), 0, false);
      var ins := r.value.0;
      var last := ins[|ins| - 1];
      0 <= o.at < old(dll.size) - 1 &&
      old(dll.nodes[o.at]).next == ins[0] && old(dll.nodes[o.at + 1]).prev == ins[0] &&
      last.next == last &&
      (|ins| == 1 ==> last.prev == old(dll.nodes[o.at])) &&
      (|ins| >= 2 ==> last.prev == ins[|ins| - 2] && ins[|ins| - 2].next == last && ins[|ins| - 2].prev == last)
    ensures dll.head == old(dll.head) && dll.tail == old(dll.tail) && dll.initialized == old(dll.initialized)
    ensures dll.dllNode == old(dll.dllNode)
  {
    if !dll.initialized {
      return Err(ValueError);
    }
    var sorted := SortListMultipleElementsHandlers(handlers);
    var inserted, skipped, started, acted, at := InsertDllLoop(dll, sorted);
    return Ok((inserted, skipped));
  }

  /**
   * Where the batch deletion stands. Before its deletion nothing has
   * changed and the cursor is `c` nodes past the head (None past the tail);
   * `s` is the head's `prev`, set when an earlier removal left it behind.
   * After it the cursor is the unlinked node or None.
   */
  ghost predicate DeleteCursor<T>(dll: List<T>, ns: seq<Node<T>>, s: Node?<T>, started: bool, current: Node?<T>,
                                  currentIndex: int, c: int, deleted: seq<Node<T>>, at: int)
    reads dll, dll.repr
  {
    |ns| >= 1 &&
    (!started ==>
      deleted == [] && 0 <= c && currentIndex == c + 1 && current == (if c < |ns| then ns[c] else null) &&
      dll.Valid() && dll.nodes == ns && dll.head.prev == s) &&
    (started ==> |deleted| == 1 && (current == null || current == deleted[0]) && DeletedShape(dll, ns, s, at, deleted[0]))
  }

  /**
   * The one node the batch deletion removes, `ns[at]`, has both links
   * cleared and the size dropped by one. Inside the list the list stays
   * valid without it; at the head, the stale node `s` and the second node
   * are linked to each other while the list's `head` keeps the removed node.
   */
  ghost predicate DeletedShape<T>(dll: List<T>, ns: seq<Node<T>>, s: Node?<T>, at: int, d: Node<T>)
    reads dll, dll.repr
  {
    0 <= at < |ns| - 1 && d == ns[at] && d in dll.repr && d.next == null && d.prev == null &&
    dll.size == |ns| - 1 &&
    (at > 0 ==> dll.Valid() && dll.nodes == RemoveAt(ns, at + 1)) &&
    (at == 0 ==> s != null && s in dll.repr && ns[1] in dll.repr && s.next == ns[1] && ns[1].prev == s && dll.head == d)
  }

  /**
   * One handler of `delete_dll_multiple_elements` within 1..size, before
   * the deletion: the cursor advances `index - 1` nodes and the node it
   * reaches is unlinked if both its links are set, which holds strictly
   * before the tail and past the head, or at the head when its `prev` is stale.
   */
  method DeleteDllBefore<T>(dll: List<T>, handler: MultipleElementsHandler<T>, current: Node?<T>, currentIndex: int,
                            ghost ns: seq<Node<T>>, ghost s: Node?<T>, ghost c: int)
    returns (current': Node?<T>, currentIndex': int, deleted: Option<Node<T>>)
    requires 1 <= handler.index && DeleteCursor(dll, ns, s, false, current, currentIndex, c, [], -1)
    modifies dll, dll.repr
    ensures var c' := c + handler.index - 1;
      (deleted.Some? <==> c' < |ns| - 1 && (c' > 0 || s != null)) &&
      (deleted.None? ==> unchanged(dll) && unchanged(dll.repr) && DeleteCursor(dll, ns, s, false, current', currentIndex', c', [], -1)) &&
      (deleted.Some? ==> DeleteCursor(dll, ns, s, true, current', currentIndex', c', [deleted.value], c'))
    ensures dll.head == old(dll.head) && dll.tail == old(dll.tail) && dll.repr == old(dll.repr)
    ensures dll.dllNode == old(dll.dllNode)
  {
    current' := current;
    currentIndex' := currentIndex;
    var hops := 0;
    while hops < handler.index - 1
      invariant 0 <= hops <= handler.index - 1 && currentIndex' == currentIndex + hops
      invariant current' == (if c + hops < |ns| then ns[c + hops] else null)
    {
      current' := if current' != null then current'.next else null;
      currentIndex' := currentIndex' + 1;
      hops := hops + 1;
    }
    ghost var i := c + handler.index - 1;
    if current' != null && current'.prev != null && current'.next != null {
      UnlinkNode(ns, i, current');
      dll.size := dll.size - 1;
      if i > 0 {
        dll.nodes := RemoveAt(ns, i + 1);
        RemoveChains(ns, i, dll.repr, dll.head.prev);
      }
      return current', currentIndex', Some(current');
    }
    return current', currentIndex', None;
  }

  /**
   * One handler within 1..size after the deletion: the cursor moves
   * `index - current_index` times from the unlinked node, whose links are
   * None, so it ends on that node or None and nothing more is unlinked.
   */
  method DeleteDllAfter<T>(handler: MultipleElementsHandler<T>, current: Node?<T>, currentIndex: int, ghost d: Node<T>)
    returns (current': Node?<T>, currentIndex': int, unlinked: bool)
    requires d.next == null && d.prev == null && (current == null || current == d)
    ensures current' == null || current' == d
    ensures !unlinked
  {
    current' := current;
    currentIndex' := currentIndex;
    var hops := 0;
    while hops < handler.index - currentIndex
      invariant current' == null || current' == d
    {
      current' := if current' != null then current'.next else null;
      currentIndex' := currentIndex' + 1;
      hops := hops + 1;
    }
    unlinked := Interior(current');
  }

  /** The test the deletion loop makes before unlinking the node under the cursor: it has both neighbours. */
  predicate Interior<T>(n: Node?<T>)
    reads n
  {
    n != null && n.prev != null && n.next != null
  }

  /** One turn of the loop of `delete_dll_multiple_elements`: the handler is skipped or handed to a step. */
  method DeleteDllTurn<T>(dll: List<T>, sorted: seq<MultipleElementsHandler<T>>, p: int, current: Node?<T>, currentIndex: int,
                          started: bool, deleted: seq<Node<T>>, skipped: seq<int>, ghost ns: seq<Node<T>>, ghost s: Node?<T>,
                          ghost c: int, ghost acted: seq<MultipleElementsHandler<T>>, ghost at: int)
    returns (current': Node?<T>, currentIndex': int, started': bool, deleted': seq<Node<T>>, skipped': seq<int>,
             ghost c': int, ghost acted': seq<MultipleElementsHandler<T>>, ghost at': int)
    requires 0 <= p < |sorted|
    requires DeleteScanProgress(sorted, |ns|, s != null, p, dll.size, c, started, skipped, acted, at)
    requires DeleteCursor(dll, ns, s, started, current, currentIndex, c, deleted, at)
    requires started == (deleted != [])
    modifies dll, dll.repr
    ensures DeleteScanProgress(sorted, |ns|, s != null, p + 1, dll.size, c', started', skipped', acted', at')
    ensures DeleteCursor(dll, ns, s, started', current', currentIndex', c', deleted', at')
    ensures started' == (deleted' != []) && (started ==> started')
    ensures dll.head == old(dll.head) && dll.tail == old(dll.tail) && dll.repr == old(dll.repr)
    ensures dll.dllNode == old(dll.dllNode)
    ensures (!started' || started) ==> unchanged(dll) && unchanged(dll.repr)
  {
    var handler := sorted[p];
    DeleteScanStep(sorted, |ns|, s != null, p, dll.size, c, started, skipped, acted, at);
    current', currentIndex', started', deleted', skipped', c', acted', at' :=
      current, currentIndex, started, deleted, skipped, c, acted, at;
    if handler.index < 1 || handler.index > dll.size {
      skipped' := skipped + [handler.index];
    } else if !started {
      var d;
      current', currentIndex', d := DeleteDllBefore(dll, handler, current, currentIndex, ns, s, c);
      c' := c + handler.index - 1;
      if d.Some? {
        started' := true;
        deleted' := [d.value];
        acted' := acted + [handler];
        at' := c';
      }
    } else {
      var unlinked;
      current', currentIndex', unlinked := DeleteDllAfter(handler, current, currentIndex, deleted[0]);
    }
  }

  /** The loop of `delete_dll_multiple_elements`, over the sorted handlers of a non-empty list. */
  method DeleteDllLoop<T>(dll: List<T>, sorted: seq<MultipleElementsHandler<T>>)
    returns (deleted: seq<Node<T>>, skipped: seq<int>, ghost acted: seq<MultipleElementsHandler<T>>, ghost at: int)
    requires dll.Valid() && dll.nodes != []
    modifies dll, dll.repr
    ensures DoublyDeleteScan(sorted, old(dll.size), 0, false, old(dll.head.prev) != null) ==
      DoublyBatch(skipped, acted, if deleted != [] then at else -1)
    ensures |deleted| == |acted|
    ensures deleted == [] ==> unchanged(dll) && unchanged(dll.repr)
    ensures deleted != [] ==> |deleted| == 1 && DeletedShape(dll, old(dll.nodes), old(dll.head.prev), at, deleted[0])
    ensures dll.head == old(dll.head) && dll.tail == old(dll.tail) && dll.repr == old(dll.repr)
    ensures dll.dllNode == old(dll.dllNode)
  {
    ghost var ns := dll.nodes;
    ghost var s := dll.head.prev;
    deleted := [];
    skipped := [];
    var current := dll.head;
    var currentIndex := 1;
    var firstDeleted := false;
    ghost var c := 0;
    acted := [];
    at := -1;
    DeleteScanStart(sorted, |ns|, s != null);
    var p := 0;
    while p < |sorted|
      invariant 0 <= p <= |sorted|
      invariant DeleteScanProgress(sorted, |ns|, s != null, p, dll.size, c, firstDeleted, skipped, acted, at)
      invariant DeleteCursor(dll, ns, s, firstDeleted, current, currentIndex, c, deleted, at)
      invariant firstDeleted == (deleted != [])
      invariant dll.head == old(dll.head) && dll.tail == old(dll.tail) && dll.repr == old(dll.repr)
      invariant dll.dllNode == old(dll.dllNode)
      invariant !firstDeleted ==> unchanged(dll) && unchanged(dll.repr)
    {
      current, currentIndex, firstDeleted, deleted, skipped, c, acted, at :=
        DeleteDllTurn(dll, sorted, p, current, currentIndex, firstDeleted, deleted, skipped, ns, s, c, acted, at);
      p := p + 1;
    }
    DeleteScanEnd(sorted, |ns|, s != null, dll.size, c, firstDeleted, skipped, acted, at);
    DeleteScanActs(sorted, |ns|, s != null, firstDeleted, skipped, acted, at);
  }

  /**
   * `delete_dll_multiple_elements`: ValueError on an empty list; otherwise
   * the handlers are sorted by index and processed as `DoublyDeleteScan`
   * says. Only the first node the cursor reaches with both links set is
   * unlinked: that clears its links, so every later handler finds None.
   * The result lists the deleted nodes and the skipped indices.
   */
  method DeleteDllMultipleElements<T>(dll: List<T>, handlers: seq<MultipleElementsHandler<T>>)
    returns (r: Result<(seq<Node<T>>, seq<int>)>)
    requires dll.Valid()
    modifies dll, dll.repr
    ensures r.Err? <==> old(dll.nodes) == []
    ensures r.Err? ==> r.error == ValueError && unchanged(dll)
    ensures r.Ok? ==>
      var o := DoublyDeleteScan(SortListMultipleElementsHandlers(handlers), old(dll.size), 0, false, old(dll.head.prev) != null);
      r.value.1 == o.skipped && |r.value.0| == |o.acted| && dll.size == old(dll.size) - |r.value.0|
    ensures r.Ok? && r.value.0 == [] ==> unchanged(dll) && unchanged(dll.repr)
    ensures r.Ok? && r.value.0 != [] ==>
      var o := DoublyDeleteScan(SortListMultipleElementsHandlers(handlers), old(dll.size), 0, false, old(dll.head.prev) != null);
      var d := r.value.0[0];
      |r.value.0| == 1 && 0 <= o.at < old(|dll.nodes|) - 1 && d == old(dll.nodes)[o.at] &&
      d.next == null && d.prev == null &&
      (o.at > 0 ==> dll.Valid() && dll.nodes == RemoveAt(old(dll.nodes), o.at + 1)) &&
      (o.at == 0 ==> old(dll.head.prev) != null && old(dll.head.prev).next == old(dll.nodes)[1] &&
                     old(dll.nodes)[1].prev == old(dll.head.prev) && dll.head == d)
    ensures dll.head == old(dll.head) && dll.tail == old(dll.tail) && dll.repr == old(dll.repr)
    ensures dll.dllNode == old(dll.dllNode)
  {
    if !dll.initialized || dll.size == 0 {
      return Err(ValueError);
    }
    var sorted := SortListMultipleElementsHandlers(handlers);
    var deleted, skipped, acted, at := DeleteDllLoop(dll, sorted);
    return Ok((deleted, skipped));
  }
}
