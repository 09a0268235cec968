/**
 * The singly linked list operations. Each one rewires `next` links and
 * the container's `head`, `tail`, `size` and `initialized` fields in place;
 * the contracts say how the ghost sequence of linked nodes changes.
 */
module SinglyLinkedListOperations {
  import opened Wrappers
  import opened LinkedListUtilities
  import opened BatchSemantics
  import opened Sequences
  import opened SinglyLinkedList

  lemma InsertedPayloads<T>(ns: seq<Node<T>>, n: Node<T>, i: int)
    requires 0 <= i <= |ns|
    ensures Payloads(ns[..i] + [n] + ns[i..]) == Payloads(ns)[..i] + [n.data] + Payloads(ns)[i..]
  {
    PayloadsOfConcat(ns[..i] + [n], ns[i..]);
    PayloadsOfConcat(ns[..i], [n]);
    PayloadsOfSlices(ns, 0, i);
    PayloadsOfSlices(ns, i, |ns|);
  }

  lemma RemovedPayloads<T>(ns: seq<Node<T>>, i: int)
    requires 1 <= i <= |ns|
    ensures Payloads(RemoveAt(ns, i)) == RemoveAt(Payloads(ns), i)
  {
    PayloadsOfConcat(ns[..i - 1], ns[i..]);
    PayloadsOfSlices(ns, 0, i - 1);
    PayloadsOfSlices(ns, i, |ns|);
  }

  /** `initialize_sll`: the list becomes the one fresh node holding `data`. */
  method InitializeSll<T>(sll: List<T>, data: T) returns (node: Node<T>)
    modifies sll
    ensures fresh(node) && node.data == data && node.next == null
    ensures sll.Valid() && sll.nodes == [node]
    ensures sll.head == node && sll.tail == node && sll.size == 1 && sll.initialized
    ensures sll.sllNode == old(sll.sllNode)
  {
    node := new Node(data);
    sll.head := node;
    sll.initialized := true;
    sll.tail := sll.head;
    sll.size := 1;
    sll.nodes := [node];
  }

  /** `insert_sll_element`: appends; an uninitialized list is initialized instead. */
  method InsertSllElement<T>(sll: List<T>, element: T) returns (node: Node<T>)
    requires sll.Valid()
    modifies sll, sll.Repr()
    ensures sll.Valid() && fresh(node) && node.data == element
    ensures sll.nodes == old(sll.nodes) + [node]
    ensures sll.tail == node && sll.size == old(sll.size) + 1
    ensures old(sll.initialized) ==> sll.head == old(sll.head) && old(sll.tail).next == node
    ensures sll.sllNode == old(sll.sllNode)
  {
    if !sll.initialized {
      node := InitializeSll(sll, element);
    } else {
      node := new Node(element);
      sll.tail.next := node;
      sll.tail := node;
      sll.size := sll.size + 1;
      sll.nodes := sll.nodes + [node];
    }
  }

  /** `insert_sll_first_element`: prepends; an uninitialized list is initialized instead. */
  method InsertSllFirstElement<T>(sll: List<T>, element: T) returns (node: Node<T>)
    requires sll.Valid()
    modifies sll, sll.Repr()
    ensures sll.Valid() && fresh(node) && node.data == element
    ensures sll.nodes == [node] + old(sll.nodes)
    ensures sll.head == node && sll.size == old(sll.size) + 1
    ensures sll.sllNode == old(sll.sllNode)
  {
    if !sll.initialized {
      node := InitializeSll(sll, element);
      return;
    }
    node := new Node(element);
    node.next := sll.head;
    sll.head := node;
    sll.size := sll.size + 1;
    sll.nodes := [node] + sll.nodes;
  }

  /**
   * The shared middle case of the nth and batch insertions: `index - 2` hops
   * from the head reach the predecessor, and the new node goes after it.
   */
  method InsertAfterHops<T>(sll: List<T>, element: T, index: int) returns (node: Node<T>)
    requires sll.Valid() && 2 <= index <= sll.size
    modifies sll, sll.Repr()
    ensures sll.Valid() && fresh(node) && node.data == element
    ensures sll.nodes == old(sll.nodes[..index - 1]) + [node] + old(sll.nodes[index - 1..])
    ensures sll.Repr() == old(sll.Repr()) + {node}
    ensures sll.head == old(sll.head) && sll.tail == old(sll.tail) && sll.size == old(sll.size) + 1
    ensures sll.initialized && sll.sllNode == old(sll.sllNode)
  {
    var current: Node<T> := sll.head;
    var hops := 0;
    while hops < index - 2
      invariant 0 <= hops <= index - 2 && current == sll.nodes[hops]
    {
      assert current.next == sll.nodes[hops + 1];
      current := current.next;
      hops := hops + 1;
    }
    node := new Node(element);
    node.next := current.next;
    current.next := node;
    sll.size := sll.size + 1;
    ghost var ns := sll.nodes;
    sll.nodes := ns[..index - 1] + [node] + ns[index - 1..];
    DistinctSplice(ns, index - 1, node);
    forall j | 0 <= j < |sll.nodes| - 1 ensures sll.nodes[j].next == sll.nodes[j + 1] {
      if j < index - 2 {
        assert sll.nodes[j] == ns[j] != ns[index - 2] && sll.nodes[j + 1] == ns[j + 1];
      } else if j >= index {
        assert sll.nodes[j] == ns[j - 1] != ns[index - 2] && sll.nodes[j + 1] == ns[j];
      }
    }
  }

  /**
   * `insert_sll_nth_element`: IndexError unless 1 <= index <= size + 1;
   * otherwise the new node is at position `index`.
   */
  method InsertSllNthElement<T>(sll: List<T>, element: T, index: int) returns (r: Result<Node<T>>)
    requires sll.Valid()
    modifies sll, sll.Repr()
    ensures sll.Valid()
    ensures r.Err? <==> index <= 0 || index > old(sll.size) + 1
    ensures r.Err? ==> r.error == IndexError && unchanged(sll) && unchanged(sll.nodes)
    ensures r.Ok? ==> fresh(r.value) && r.value.data == element
    ensures r.Ok? ==> sll.nodes == old(sll.nodes[..index - 1]) + [r.value] + old(sll.nodes[index - 1..])
    ensures sll.sllNode == old(sll.sllNode)
  {
    if index <= 0 || index > sll.size + 1 {
      return Err(IndexError);
    }
    ghost var ns := sll.nodes;
    var node;
    if index == 1 {
      node := InsertSllFirstElement(sll, element);
      assert ns[..0] + [node] + ns[0..] == [node] + ns;
    } else if index == sll.size + 1 {
      node := InsertSllElement(sll, element);
      assert ns[..index - 1] + [node] + ns[index - 1..] == ns + [node];
    } else {
      node := InsertAfterHops(sll, element, index);
    }
    r := Ok(node);
  }

  /** `delete_sll_first_element`: None on an empty list; otherwise the head leaves. */
  method DeleteSllFirstElement<T>(sll: List<T>) returns (deleted: Node?<T>)
    requires sll.Valid()
    modifies sll
    ensures sll.Valid()
    ensures old(sll.nodes) == [] ==> deleted == null && unchanged(sll)
    ensures old(sll.nodes) != [] ==> deleted == old(sll.head) && sll.nodes == old(sll.nodes[1..])
    ensures deleted != null ==> deleted.next == if sll.nodes == [] then null else sll.nodes[0]
    ensures sll.sllNode == old(sll.sllNode)
  {
    if !sll.initialized || sll.head == null {
      return null;
    }
    deleted := sll.head;
    sll.head := sll.head.next;
    sll.size := sll.size - 1;
    if sll.size == 0 {
      sll.tail := null;
      sll.initialized := false;
    }
    sll.nodes := sll.nodes[1..];
  }

  /**
   * `delete_sll_last_element`: None on an empty list, a one-node list becomes
   * empty, and otherwise the walk to the second-to-last node makes it the tail.
   */
  method DeleteSllLastElement<T>(sll: List<T>) returns (deleted: Node?<T>)
    requires sll.Valid()
    modifies sll, sll.Repr()
    ensures sll.Valid()
    ensures old(sll.nodes) == [] ==> deleted == null && unchanged(sll)
    ensures old(sll.nodes) != [] ==> deleted == old(sll.tail) && deleted.next == null
    ensures old(sll.nodes) != [] ==> sll.nodes == old(sll.nodes[..|sll.nodes| - 1])
    ensures sll.sllNode == old(sll.sllNode)
  {
    if !sll.initialized || sll.head == null {
      return null;
    }
    if sll.size == 1 {
      deleted := sll.head;
      sll.head := null;
      sll.tail := null;
      sll.size := 0;
      sll.initialized := false;
      sll.nodes := [];
      return;
    }
    var current: Node<T> := sll.head;
    ghost var i := 0;
    while current.next != sll.tail
      invariant 0 <= i <= |sll.nodes| - 2 && current == sll.nodes[i]
      decreases |sll.nodes| - i
    {
      assert current.next == sll.nodes[i + 1];
      current := current.next;
      i := i + 1;
    }
    assert sll.nodes[i + 1] == sll.nodes[|sll.nodes| - 1];
    assert i == |sll.nodes| - 2;
    deleted := sll.tail;
    current.next := null;
    sll.tail := current;
    sll.size := sll.size - 1;
    sll.nodes := sll.nodes[..|sll.nodes| - 1];
  }

  /**
   * The shared middle case of the nth and batch deletions: `index - 2` hops
   * reach the predecessor, which is linked past the node at `index`.
   */
  method DeleteAfterHops<T>(sll: List<T>, index: int) returns (deleted: Node<T>)
    requires sll.Valid() && 2 <= index < sll.size
    modifies sll, sll.Repr()
    ensures sll.Valid()
    ensures deleted == old(sll.nodes[index - 1]) && sll.nodes == old(RemoveAt(sll.nodes, index))
    ensures deleted.next == sll.nodes[index - 1]
    ensures sll.head == old(sll.head) && sll.tail == old(sll.tail) && sll.size == old(sll.size) - 1
    ensures sll.initialized && sll.sllNode == old(sll.sllNode)
  {
    var current: Node<T> := sll.head;
    var hops := 0;
    while hops < index - 2
      invariant 0 <= hops <= index - 2 && current == sll.nodes[hops]
    {
      assert current.next == sll.nodes[hops + 1];
      current := current.next;
      hops := hops + 1;
    }
    ghost var ns := sll.nodes;
    assert current.next == ns[index - 1] && ns[index - 1].next == ns[index];
    deleted := current.next;
    current.next := deleted.next;
    sll.size := sll.size - 1;
    sll.nodes := RemoveAt(ns, index);
    DistinctRemove(ns, index - 1);
    forall j | 0 <= j < |sll.nodes| - 1 ensures sll.nodes[j].next == sll.nodes[j + 1] {
      if j < index - 2 {
        assert sll.nodes[j] == ns[j] != ns[index - 2] && sll.nodes[j + 1] == ns[j + 1];
      } else if j >= index - 1 {
        assert sll.nodes[j] == ns[j + 1] != ns[index - 2] && sll.nodes[j + 1] == ns[j + 2];
      }
    }
  }

  /** `delete_sll_nth_element`: IndexError outside 1..size; otherwise the node at `index` leaves. */
  method DeleteSllNthElement<T>(sll: List<T>, index: int) returns (r: Result<Node<T>>)
    requires sll.Valid()
    modifies sll, sll.Repr()
    ensures sll.Valid()
    ensures r.Err? <==> index <= 0 || index > old(sll.size)
    ensures r.Err? ==> r.error == IndexError && unchanged(sll)
    ensures r.Ok? ==> r.value == old(sll.nodes[index - 1]) && sll.nodes == old(RemoveAt(sll.nodes, index))
    ensures sll.sllNode == old(sll.sllNode)
  {
    if index <= 0 || index > sll.size {
      return Err(IndexError);
    }
    if index == 1 {
      var node := DeleteSllFirstElement(sll);
      r := Ok(node);
    } else if index == sll.size {
      var node := DeleteSllLastElement(sll);
      r := Ok(node);
    } else {
      var node := DeleteAfterHops(sll, index);
      r := Ok(node);
    }
  }

  /** Splicing a node in as a batch insertion does splices its payload into the payloads. */
  lemma InsertAtPayloads<T>(ns: seq<Node<T>>, node: Node<T>, i: int)
    requires 1 <= i <= |ns|
    ensures Payloads(InsertAt(ns, MultipleElementsHandler(i, node))) == InsertAt(Payloads(ns), MultipleElementsHandler(i, node.data))
  {
    if i == 1 {
      PayloadsOfConcat([node], ns);
    } else if i == |ns| {
      PayloadsOfConcat(ns, [node]);
    } else {
      InsertedPayloads(ns, node, i - 1);
    }
  }

  lemma InsertProgressNodes<T>(start: seq<T>, hs: seq<MultipleElementsHandler<T>>, p: int, ns: seq<Node<T>>, node: Node<T>,
                               inserted: seq<MultipleElementsHandler<T>>, skipped: seq<MultipleElementsHandler<T>>)
    requires 0 <= p < |hs| && InsertProgress(start, hs, p, Payloads(ns), inserted, skipped)
    requires 1 <= hs[p].index <= |ns| && node.data == hs[p].element
    ensures InsertProgress(start, hs, p + 1, Payloads(InsertAt(ns, MultipleElementsHandler(hs[p].index, node))), inserted + [hs[p]], skipped)
  {
    InsertAtPayloads(ns, node, hs[p].index);
    InsertProgressApply(start, hs, p, Payloads(ns), inserted, skipped);
  }

  /**
   * One in-range handler of `insert_sll_multiple_elements`: index 1 prepends,
   * an index equal to the size appends, any other index splices at that position.
   */
  method InsertHandler<T>(sll: List<T>, h: MultipleElementsHandler<T>) returns (node: Node<T>)
    requires sll.Valid() && 1 <= h.index <= sll.size
    modifies sll, sll.Repr()
    ensures sll.Valid() && fresh(node) && node.data == h.element
    ensures sll.nodes == InsertAt(old(sll.nodes), MultipleElementsHandler(h.index, node))
    ensures forall n :: n in sll.nodes <==> n in old(sll.nodes) || n == node
    ensures sll.sllNode == old(sll.sllNode)
  {
    ghost var ns := sll.nodes;
    if h.index == 1 {
      node := InsertSllFirstElement(sll, h.element);
      assert InsertAt(ns, MultipleElementsHandler(h.index, node)) == [node] + ns;
    } else if h.index == sll.size {
      node := InsertSllElement(sll, h.element);
      assert InsertAt(ns, MultipleElementsHandler(h.index, node)) == ns + [node];
    } else {
      node := InsertAfterHops(sll, h.element, h.index);
      assert InsertAt(ns, MultipleElementsHandler(h.index, node)) == ns[..h.index - 1] + [node] + ns[h.index - 1..];
    }
    InsertAtPlaces(ns, MultipleElementsHandler(h.index, node));
  }

  /**
   * One turn of the loop of `insert_sll_multiple_elements`: a handler outside 1..size is
   * skipped, any other is inserted and its new node returned.
   */
  method InsertStep<T>(sll: List<T>, ghost start: seq<T>, sorted: seq<MultipleElementsHandler<T>>, p: int,
                       skipped: seq<MultipleElementsHandler<T>>, ghost inserted: seq<MultipleElementsHandler<T>>)
    returns (node: Option<Node<T>>, skipped': seq<MultipleElementsHandler<T>>, ghost inserted': seq<MultipleElementsHandler<T>>)
    requires sll.Valid() && 0 <= p < |sorted|
    requires InsertProgress(start, sorted, p, Payloads(sll.nodes), inserted, skipped)
    modifies sll, sll.Repr()
    ensures sll.Valid() && sll.sllNode == old(sll.sllNode)
    ensures forall n :: n in sll.nodes ==> n in old(sll.nodes) || fresh(n)
    ensures forall n :: n in old(sll.nodes) ==> n in sll.nodes
    ensures InsertProgress(start, sorted, p + 1, Payloads(sll.nodes), inserted', skipped')
    ensures node.None? ==> inserted' == inserted
    ensures node.Some? ==> fresh(node.value) && node.value in sll.nodes && node.value.data == sorted[p].element
    ensures node.Some? ==> inserted' == inserted + [sorted[p]]
  {
    var h := sorted[p];
    if h.index <= 0 || h.index > sll.size {
      InsertProgressSkip(start, sorted, p, Payloads(sll.nodes), inserted, skipped);
      return None, skipped + [h], inserted;
    }
    ghost var ns := sll.nodes;
    var n := InsertHandler(sll, h);
    InsertProgressNodes(start, sorted, p, ns, n, inserted, skipped);
    node, skipped', inserted' := Some(n), skipped, inserted + [h];
  }

  /**
   * `insert_sll_multiple_elements`: ValueError on an empty list; otherwise the
   * handlers, sorted by index, are applied as `InsertMany` describes, and the
   * nodes returned are the new ones, holding the inserted elements.
   */
  method InsertSllMultipleElements<T>(sll: List<T>, handlers: seq<MultipleElementsHandler<T>>)
    returns (r: Result<(seq<Node<T>>, seq<MultipleElementsHandler<T>>)>)
    requires sll.Valid()
    modifies sll, sll.Repr()
    ensures sll.Valid()
    ensures r.Err? <==> old(sll.nodes) == []
    ensures r.Err? ==> r.error == ValueError && unchanged(sll)
    ensures r.Ok? ==>
      var o := InsertMany(old(sll.Elements()), SortListMultipleElementsHandlers(handlers));
      r.value.1 == o.skipped && sll.Elements() == o.elements && Payloads(r.value.0) == ElementsOf(o.inserted)
    ensures r.Ok? ==> forall n :: n in r.value.0 ==> fresh(n) && n in sll.Repr()
    ensures sll.sllNode == old(sll.sllNode)
  {
    if sll.head == null {
      return Err(ValueError);
    }
    ghost var start := sll.Elements();
    var sorted := SortListMultipleElementsHandlers(handlers);
    var results: seq<Node<T>> := [];
    var skipped: seq<MultipleElementsHandler<T>> := [];
    ghost var inserted: seq<MultipleElementsHandler<T>> := [];
    InsertProgressStart(start, sorted);
    var p := 0;
    while p < |sorted|
      invariant 0 <= p <= |sorted|
      invariant sll.Valid() && sll.sllNode == old(sll.sllNode)
      invariant forall n :: n in sll.nodes ==> n in old(sll.nodes) || fresh(n)
      invariant forall n :: n in results ==> fresh(n) && n in sll.nodes
      invariant |results| == |inserted| && forall k :: 0 <= k < |results| ==> results[k].data == inserted[k].element
      invariant InsertProgress(start, sorted, p, Payloads(sll.nodes), inserted, skipped)
    {
      var node;
      node, skipped, inserted := InsertStep(sll, start, sorted, p, skipped, inserted);
      if node.Some? {
        results := results + [node.value];
      }
      p := p + 1;
    }
    InsertProgressEnd(start, sorted, Payloads(sll.nodes), inserted, skipped);
    assert Payloads(results) == ElementsOf(inserted);
    r := Ok((results, skipped));
  }

  /** `DeleteProgressApply` stated on the linked nodes rather than on their payloads. */
  lemma DeleteProgressNodes<T>(start: seq<T>, idx: seq<int>, p: int, ns: seq<Node<T>>,
                               deleted: seq<MultipleElementsHandler<T>>, skipped: seq<int>)
    requires 0 <= p < |idx| && DeleteProgress(start, idx, p, Payloads(ns), deleted, skipped)
    requires 1 <= idx[p] <= |ns|
    ensures DeleteProgress(start, idx, p + 1, Payloads(RemoveAt(ns, idx[p])),
      deleted + [MultipleElementsHandler(idx[p], ns[idx[p] - 1].data)], skipped)
  {
    RemovedPayloads(ns, idx[p]);
    DeleteProgressApply(start, idx, p, Payloads(ns), deleted, skipped);
  }

  /**
   * One in-range index of `delete_sll_multiple_elements`: index 1 deletes the
   * head, an index equal to the size the tail, any other the node at that position.
   */
  method DeleteIndex<T>(sll: List<T>, index: int) returns (result: MultipleElementsHandler<T>)
    requires sll.Valid() && 1 <= index <= sll.size
    modifies sll, sll.Repr()
    ensures sll.Valid() && sll.nodes == RemoveAt(old(sll.nodes), index)
    ensures result == MultipleElementsHandler(index, old(sll.nodes)[index - 1].data)
    ensures sll.sllNode == old(sll.sllNode)
  {
    ghost var ns := sll.nodes;
    var node: Node?<T>;
    if index == 1 {
      node := DeleteSllFirstElement(sll);
      assert RemoveAt(ns, 1) == ns[1..];
    } else if index == sll.size {
      node := DeleteSllLastElement(sll);
      assert RemoveAt(ns, index) == ns[..index - 1];
    } else {
      node := DeleteAfterHops(sll, index);
    }
    result := MultipleElementsHandler(index, node.data);
  }

  /** One turn of the loop of `delete_sll_multiple_elements`: skip the index or delete at it. */
  method DeleteStep<T>(sll: List<T>, ghost start: seq<T>, sorted: seq<int>, p: int,
                       results: seq<MultipleElementsHandler<T>>, skipped: seq<int>)
    returns (results': seq<MultipleElementsHandler<T>>, skipped': seq<int>)
    requires sll.Valid() && 0 <= p < |sorted|
    requires DeleteProgress(start, sorted, p, Payloads(sll.nodes), results, skipped)
    modifies sll, sll.Repr()
    ensures sll.Valid() && sll.sllNode == old(sll.sllNode)
    ensures forall n :: n in sll.nodes ==> n in old(sll.nodes)
    ensures DeleteProgress(start, sorted, p + 1, Payloads(sll.nodes), results', skipped')
  {
    var index := sorted[p];
    if index <= 0 || index > sll.size {
      DeleteProgressSkip(start, sorted, p, Payloads(sll.nodes), results, skipped);
      return results, skipped + [index];
    }
    ghost var ns := sll.nodes;
    var result := DeleteIndex(sll, index);
    DeleteProgressNodes(start, sorted, p, ns, results, skipped);
    RemoveAtMembers(ns, index);
    results' := results + [result];
    skipped' := skipped;
  }

  /**
   * `delete_sll_multiple_elements`: ValueError on an empty list; otherwise the
   * indices, sorted, are applied as `DeleteMany` describes, each result
   * pairing an index with the payload deleted at it.
   */
  method DeleteSllMultipleElements<T>(sll: List<T>, indices: seq<int>)
    returns (r: Result<(seq<MultipleElementsHandler<T>>, seq<int>)>)
    requires sll.Valid()
    modifies sll, sll.Repr()
    ensures sll.Valid()
    ensures r.Err? <==> old(sll.nodes) == []
    ensures r.Err? ==> r.error == ValueError && unchanged(sll)
    ensures r.Ok? ==>
      var o := DeleteMany(old(sll.Elements()), SortIndices(indices));
      r.value.0 == o.deleted && r.value.1 == o.skipped && sll.Elements() == o.elements
    ensures sll.sllNode == old(sll.sllNode)
  {
    if sll.head == null {
      return Err(ValueError);
    }
    ghost var start := sll.Elements();
    var sorted := SortIndices(indices);
    var results: seq<MultipleElementsHandler<T>> := [];
    var skipped: seq<int> := [];
    DeleteProgressStart(start, sorted);
    var p := 0;
    while p < |sorted|
      invariant 0 <= p <= |sorted|
      invariant sll.Valid() && sll.sllNode == old(sll.sllNode)
      invariant forall n :: n in sll.nodes ==> n in old(sll.nodes)
      invariant DeleteProgress(start, sorted, p, Payloads(sll.nodes), results, skipped)
    {
      results, skipped := DeleteStep(sll, start, sorted, p, results, skipped);
      p := p + 1;
    }
    DeleteProgressEnd(start, sorted, Payloads(sll.nodes), results, skipped);
    r := Ok((results, skipped));
  }

  /** `get_element_at_index`: None when uninitialized, IndexError outside 1..size, else the node at `index`. */
  method GetElementAtIndex<T>(index: int, sll: List<T>) returns (r: Result<Option<Node<T>>>)
    requires sll.Valid()
    ensures !sll.initialized ==> r == Ok(None)
    ensures sll.initialized && (index < 1 || index > sll.size) ==> r == Err(IndexError)
    ensures sll.initialized && 1 <= index <= sll.size ==> r == Ok(Some(sll.nodes[index - 1]))
  {
    if !sll.initialized || sll.head == null {
      return Ok(None);
    }
    if index < 1 || index > sll.size {
      return Err(IndexError);
    }
    var current: Node<T> := sll.head;
    var hops := 0;
    while hops < index - 1
      invariant 0 <= hops <= index - 1 && current == sll.nodes[hops]
    {
      assert current.next == sll.nodes[hops + 1];
      current := current.next;
      hops := hops + 1;
    }
    r := Ok(Some(current));
  }

  /** `shallow_clear_singly_linked_list`: the container forgets its nodes; no link is touched. */
  method ShallowClearSinglyLinkedList<T>(sll: List<T>)
    modifies sll
    ensures sll.Valid() && sll.nodes == []
    ensures sll.head == null && sll.tail == null && sll.size == 0 && !sll.initialized
    ensures sll.sllNode == old(sll.sllNode)
  {
    sll.head := null;
    sll.tail := null;
    sll.size := 0;
    sll.initialized := false;
    sll.nodes := [];
  }

  /** `deep_clear_singly_linked_list`: walks the chain setting every `next` to None, then empties the container. */
  method DeepClearSinglyLinkedList<T>(sll: List<T>)
    requires sll.Valid()
    modifies sll, sll.Repr()
    ensures sll.Valid() && sll.nodes == []
    ensures sll.head == null && sll.tail == null && sll.size == 0 && !sll.initialized
    ensures forall n :: n in old(sll.nodes) ==> n.next == null
    ensures sll.sllNode == old(sll.sllNode)
  {
    ghost var ns := sll.nodes;
    var current := sll.head;
    ghost var i := 0;
    while current != null
      invariant 0 <= i <= |ns| && current == (if i < |ns| then ns[i] else null)
      invariant forall j :: 0 <= j < i ==> ns[j].next == null
      invariant forall j :: i <= j < |ns| - 1 ==> ns[j].next == ns[j + 1]
      invariant |ns| > 0 ==> ns[|ns| - 1].next == null
      invariant unchanged(sll)
      decreases |ns| - i
    {
      var nextNode := current.next;
      current.next := null;
      current := nextNode;
      i := i + 1;
    }
    sll.head := null;
    sll.tail := null;
    sll.size := 0;
    sll.initialized := false;
    sll.nodes := [];
  }
}
