/**
 * The circular singly linked list operations. Appending and prepending close
 * the ring (the tail links to the head); removing the head leaves the tail
 * linking to the removed node, which the contracts record rather than hide.
 */
module CircularSinglyLinkedListOperations {
  import opened Wrappers
  import opened LinkedListUtilities
  import opened BatchSemantics
  import opened Sequences
  import opened CircularSinglyLinkedList

  lemma InsertedPayloads<T>(ns: seq<Node<T>>, n: Node<T>, i: int)
    requires 0 <= i <= |ns|
    ensures Payloads(ns[..i] + [n] + ns[i..]) == Payloads(ns)[..i] + [n.data] + Payloads(ns)[i..]
  {
    PayloadsOfConcat(ns[..i] + [n], ns[i..]);
    PayloadsOfConcat(ns[..i], [n]);
    PayloadsOfSlices(ns, 0, i);
    PayloadsOfSlices(ns, i, |ns|);
  }

  lemma RemovedPayloads<T>(ns: seq<Node<T>>, i: int)
    requires 1 <= i <= |ns|
    ensures Payloads(RemoveAt(ns, i)) == RemoveAt(Payloads(ns), i)
  {
    PayloadsOfConcat(ns[..i - 1], ns[i..]);
    PayloadsOfSlices(ns, 0, i - 1);
    PayloadsOfSlices(ns, i, |ns|);
  }

  /** `initialize_csll`: the list becomes the one fresh node holding `data`, linking to None. */
  method InitializeCsll<T>(csll: List<T>, data: T) returns (node: Node<T>)
    modifies csll
    ensures fresh(node) && node.data == data && node.next == null
    ensures csll.Ring() && csll.nodes == [node]
    ensures csll.head == node && csll.tail == node && csll.size == 1 && csll.initialized
  {
    node := new Node(data);
    csll.head := node;
    csll.initialized := true;
    csll.tail := csll.head;
    csll.size := 1;
    csll.nodes := [node];
  }

  /** `insert_csll_element`: appends and closes the ring; an uninitialized list is initialized instead. */
  method InsertCsllElement<T>(csll: List<T>, element: T) returns (node: Node<T>)
    requires csll.Valid()
    modifies csll, csll.Repr()
    ensures csll.Ring() && fresh(node) && node.data == element
    ensures csll.nodes == old(csll.nodes) + [node]
    ensures csll.tail == node && csll.size == old(csll.size) + 1
    ensures old(csll.initialized) ==> csll.head == old(csll.head) && old(csll.tail).next == node
  {
    if !csll.initialized {
      node := InitializeCsll(csll, element);
    } else {
      node := new Node(element);
      csll.tail.next := node;
      node.next := csll.head;
      csll.tail := node;
      csll.size := csll.size + 1;
      csll.nodes := csll.nodes + [node];
    }
  }

  /** `insert_csll_first_element`: prepends and closes the ring; an uninitialized list is initialized instead. */
  method InsertCsllFirstElement<T>(csll: List<T>, element: T) returns (node: Node<T>)
    requires csll.Valid()
    modifies csll, csll.Repr()
    ensures csll.Ring() && fresh(node) && node.data == element
    ensures csll.nodes == [node] + old(csll.nodes)
    ensures csll.head == node && csll.size == old(csll.size) + 1
    ensures old(csll.initialized) ==> csll.tail == old(csll.tail)
  {
    if !csll.initialized {
      node := InitializeCsll(csll, element);
      return;
    }
    node := new Node(element);
    node.next := csll.head;
    csll.head := node;
    csll.tail.next := node;
    csll.size := csll.size + 1;
    csll.nodes := [node] + csll.nodes;
  }

  /**
   * The shared middle case of the nth and batch insertions: `index - 2` hops
   * from the head reach the predecessor, and the new node goes after it. The
   * predecessor is never the tail, so the tail's link is as it was.
   */
  method InsertAfterHops<T>(csll: List<T>, element: T, index: int) returns (node: Node<T>)
    requires csll.Valid() && 2 <= index <= csll.size
    modifies csll, csll.Repr()
    ensures csll.Valid() && fresh(node) && node.data == element
    ensures csll.nodes == old(csll.nodes[..index - 1]) + [node] + old(csll.nodes[index - 1..])
    ensures csll.head == old(csll.head) && csll.tail == old(csll.tail) && csll.size == old(csll.size) + 1
    ensures csll.initialized && csll.tail.next == old(csll.tail.next)
  {
    var current: Node<T> := csll.head;
    var hops := 0;
    while hops < index - 2
      invariant 0 <= hops <= index - 2 && current == csll.nodes[hops]
    {
      assert current.next == csll.nodes[hops + 1];
      current := current.next;
      hops := hops + 1;
    }
    ghost var ns := csll.nodes;
    assert current.next == ns[index - 1];
    node := new Node(element);
    node.next := current.next;
    current.next := node;
    csll.size := csll.size + 1;
    csll.nodes := ns[..index - 1] + [node] + ns[index - 1..];
    DistinctSplice(ns, index - 1, node);
    forall j | 0 <= j < |csll.nodes| - 1 ensures csll.nodes[j].next == csll.nodes[j + 1] {
      if j < index - 2 {
        assert csll.nodes[j] == ns[j] != ns[index - 2] && csll.nodes[j + 1] == ns[j + 1];
      } else if j >= index {
        assert csll.nodes[j] == ns[j - 1] != ns[index - 2] && csll.nodes[j + 1] == ns[j];
      }
    }
  }

  /**
   * `insert_csll_nth_element`: IndexError unless 1 <= index <= size + 1;
   * otherwise the new node is at position `index`. A closed ring stays closed.
   */
  method InsertCsllNthElement<T>(csll: List<T>, element: T, index: int) returns (r: Result<Node<T>>)
    requires csll.Valid()
    modifies csll, csll.Repr()
    ensures csll.Valid()
    ensures r.Err? <==> index <= 0 || index > old(csll.size) + 1
    ensures r.Err? ==> r.error == IndexError && unchanged(csll) && unchanged(csll.nodes)
    ensures r.Ok? ==> fresh(r.value) && r.value.data == element
    ensures r.Ok? ==> csll.nodes == old(csll.nodes[..index - 1]) + [r.value] + old(csll.nodes[index - 1..])
    ensures old(csll.Ring()) ==> csll.Ring()
  {
    if index <= 0 || index > csll.size + 1 {
      return Err(IndexError);
    }
    ghost var ns := csll.nodes;
    assert 1 <= index <= |ns| + 1;
    var node;
    if index == 1 {
      node := InsertCsllFirstElement(csll, element);
      assert ns[..0] + [node] + ns[0..] == [node] + ns;
    } else if index == csll.size + 1 {
      node := InsertCsllElement(csll, element);
      assert ns[..index - 1] + [node] + ns[index - 1..] == ns + [node];
    } else {
      node := InsertAfterHops(csll, element, index);
    }
    r := Ok(node);
  }

  /**
   * `delete_csll_first_element`: None on an empty list; otherwise the head
   * leaves. The tail is re-pointed only when one node remains, so with two or
   * more left a closed ring now ends in the removed node.
   */
  method DeleteCsllFirstElement<T>(csll: List<T>) returns (deleted: Node?<T>)
    requires csll.Valid()
    modifies csll, csll.Repr()
    ensures csll.Valid()
    ensures old(csll.nodes) == [] ==> deleted == null && unchanged(csll)
    ensures old(csll.nodes) != [] ==> deleted == old(csll.head) && csll.nodes == old(csll.nodes[1..])
    ensures deleted != null ==> deleted.next == if csll.nodes == [] then null else csll.nodes[0]
    ensures |csll.nodes| <= 1 ==> csll.Ring()
    ensures |csll.nodes| >= 2 ==> csll.tail.next == old(csll.tail.next)
    ensures old(csll.Ring()) && |csll.nodes| >= 2 ==> csll.tail.next == deleted && !csll.Ring()
  {
    if !csll.initialized || csll.head == null {
      return null;
    }
    ghost var ns := csll.nodes;
    DistinctDropFirst(ns);
    deleted := csll.head;
    csll.head := csll.head.next;
    csll.size := csll.size - 1;
    csll.nodes := ns[1..];
    if csll.size == 1 {
      assert csll.nodes == [ns[1]] && ns[0] != ns[1];
      csll.tail.next := null;
    } else if csll.size == 0 {
      csll.tail := null;
      csll.initialized := false;
    } else {
      LinkedSlice(ns, 1, |ns|);
    }
  }

  /**
   * `delete_csll_last_element`: None on an empty list, a one-node list becomes
   * empty, and otherwise the walk to the second-to-last node makes it the
   * tail, taking over the old tail's link (None once one node is left).
   */
  method DeleteCsllLastElement<T>(csll: List<T>) returns (deleted: Node?<T>)
    requires csll.Valid()
    modifies csll, csll.Repr()
    ensures csll.Valid()
    ensures old(csll.nodes) == [] ==> deleted == null && unchanged(csll)
    ensures old(csll.nodes) != [] ==> deleted == old(csll.tail) && deleted.next == old(csll.tail.next)
    ensures old(csll.nodes) != [] ==> csll.nodes == old(csll.nodes[..|csll.nodes| - 1])
    ensures |csll.nodes| >= 2 ==> csll.tail.next == old(csll.tail.next)
    ensures old(csll.Ring()) ==> csll.Ring()
  {
    if !csll.initialized || csll.head == null {
      return null;
    }
    if csll.size == 1 {
      deleted := csll.head;
      csll.head := null;
      csll.tail := null;
      csll.size := 0;
      csll.initialized := false;
      csll.nodes := [];
      return;
    }
    var current: Node<T> := csll.head;
    ghost var i := 0;
    while current.next != csll.tail
      invariant 0 <= i <= |csll.nodes| - 2 && current == csll.nodes[i]
      decreases |csll.nodes| - i
    {
      assert current.next == csll.nodes[i + 1];
      current := current.next;
      i := i + 1;
    }
    ghost var ns := csll.nodes;
    assert ns[i + 1] == ns[|ns| - 1];
    assert i == |ns| - 2;
    deleted := csll.tail;
    current.next := deleted.next;
    csll.tail := current;
    csll.size := csll.size - 1;
    if csll.size == 1 {
      csll.tail.next := null;
    }
    csll.nodes := ns[..|ns| - 1];
  }

  /**
   * The shared middle case of the nth and batch deletions: `index - 2` hops
   * reach the predecessor, which is linked past the node at `index`. The
   * removed node keeps its link and the tail's link is as it was.
   */
  method DeleteAfterHops<T>(csll: List<T>, index: int) returns (deleted: Node<T>)
    requires csll.Valid() && 2 <= index < csll.size
    modifies csll, csll.Repr()
    ensures csll.Valid()
    ensures deleted == old(csll.nodes[index - 1]) && csll.nodes == old(RemoveAt(csll.nodes, index))
    ensures deleted.next == csll.nodes[index - 1]
    ensures csll.head == old(csll.head) && csll.tail == old(csll.tail) && csll.size == old(csll.size) - 1
    ensures csll.initialized && csll.tail.next == old(csll.tail.next)
  {
    var current: Node<T> := csll.head;
    var hops := 0;
    while hops < index - 2
      invariant 0 <= hops <= index - 2 && current == csll.nodes[hops]
    {
      assert current.next == csll.nodes[hops + 1];
      current := current.next;
      hops := hops + 1;
    }
    ghost var ns := csll.nodes;
    assert current.next == ns[index - 1] && ns[index - 1].next == ns[index];
    deleted := current.next;
    current.next := deleted.next;
    csll.size := csll.size - 1;
    csll.nodes := RemoveAt(ns, index);
    DistinctRemove(ns, index - 1);
    forall j | 0 <= j < |csll.nodes| - 1 ensures csll.nodes[j].next == csll.nodes[j + 1] {
      if j < index - 2 {
        assert csll.nodes[j] == ns[j] != ns[index - 2] && csll.nodes[j + 1] == ns[j + 1];
      } else if j >= index - 1 {
        assert csll.nodes[j] == ns[j + 1] != ns[index - 2] && csll.nodes[j + 1] == ns[j + 2];
      }
    }
  }

  /**
   * `delete_csll_nth_element`: IndexError outside 1..size; otherwise the node
   * at `index` leaves. Only removing the head can open a closed ring.
   */
  method DeleteCsllNthElement<T>(csll: List<T>, index: int) returns (r: Result<Node<T>>)
    requires csll.Valid()
    modifies csll, csll.Repr()
    ensures csll.Valid()
    ensures r.Err? <==> index <= 0 || index > old(csll.size)
    ensures r.Err? ==> r.error == IndexError && unchanged(csll)
    ensures r.Ok? ==> r.value == old(csll.nodes[index - 1]) && csll.nodes == old(RemoveAt(csll.nodes, index))
    ensures index != 1 && old(csll.Ring()) ==> csll.Ring()
  {
    if index <= 0 || index > csll.size {
      return Err(IndexError);
    }
    if index == 1 {
      var node := DeleteCsllFirstElement(csll);
      r := Ok(node);
    } else if index == csll.size {
      var node := DeleteCsllLastElement(csll);
      r := Ok(node);
    } else {
      var node := DeleteAfterHops(csll, index);
      r := Ok(node);
    }
  }

  /** Splicing a node in as a batch insertion does splices its payload into the payloads. */
  lemma InsertAtPayloads<T>(ns: seq<Node<T>>, node: Node<T>, i: int)
    requires 1 <= i <= |ns|
    ensures Payloads(InsertAt(ns, MultipleElementsHandler(i, node))) == InsertAt(Payloads(ns), MultipleElementsHandler(i, node.data))
  {
    if i == 1 {
      PayloadsOfConcat([node], ns);
    } else if i == |ns| {
      PayloadsOfConcat(ns, [node]);
    } else {
      InsertedPayloads(ns, node, i - 1);
    }
  }

  lemma InsertProgressNodes<T>(start: seq<T>, hs: seq<MultipleElementsHandler<T>>, p: int, ns: seq<Node<T>>, node: Node<T>,
                               inserted: seq<MultipleElementsHandler<T>>, skipped: seq<MultipleElementsHandler<T>>)
    requires 0 <= p < |hs| && InsertProgress(start, hs, p, Payloads(ns), inserted, skipped)
    requires 1 <= hs[p].index <= |ns| && node.data == hs[p].element
    ensures InsertProgress(start, hs, p + 1, Payloads(InsertAt(ns, MultipleElementsHandler(hs[p].index, node))), inserted + [hs[p]], skipped)
  {
    InsertAtPayloads(ns, node, hs[p].index);
    InsertProgressApply(start, hs, p, Payloads(ns), inserted, skipped);
  }

  /**
   * One in-range handler of `insert_csll_multiple_elements`: index 1 prepends,
   * an index equal to the size appends, any other index splices at that position.
   */
  method InsertHandler<T>(csll: List<T>, h: MultipleElementsHandler<T>) returns (node: Node<T>)
    requires csll.Valid() && 1 <= h.index <= csll.size
    modifies csll, csll.Repr()
    ensures csll.Valid() && fresh(node) && node.data == h.element
    ensures csll.nodes == InsertAt(old(csll.nodes), MultipleElementsHandler(h.index, node))
    ensures forall n :: n in csll.nodes <==> n in old(csll.nodes) || n == node
    ensures old(csll.Ring()) ==> csll.Ring()
  {
    ghost var ns := csll.nodes;
    if h.index == 1 {
      node := InsertCsllFirstElement(csll, h.element);
      assert InsertAt(ns, MultipleElementsHandler(h.index, node)) == [node] + ns;
    } else if h.index == csll.size {
      node := InsertCsllElement(csll, h.element);
      assert InsertAt(ns, MultipleElementsHandler(h.index, node)) == ns + [node];
    } else {
      node := InsertAfterHops(csll, h.element, h.index);
      assert InsertAt(ns, MultipleElementsHandler(h.index, node)) == ns[..h.index - 1] + [node] + ns[h.index - 1..];
    }
    InsertAtPlaces(ns, MultipleElementsHandler(h.index, node));
  }

  /**
   * One turn of the loop of `insert_csll_multiple_elements`: a handler outside 1..size is
   * skipped, any other is inserted and its new node returned.
   */
  method InsertStep<T>(csll: List<T>, ghost start: seq<T>, sorted: seq<MultipleElementsHandler<T>>, p: int,
                       skipped: seq<MultipleElementsHandler<T>>, ghost inserted: seq<MultipleElementsHandler<T>>)
    returns (node: Option<Node<T>>, skipped': seq<MultipleElementsHandler<T>>, ghost inserted': seq<MultipleElementsHandler<T>>)
    requires csll.Valid() && 0 <= p < |sorted|
    requires InsertProgress(start, sorted, p, Payloads(csll.nodes), inserted, skipped)
    modifies csll, csll.Repr()
    ensures csll.Valid() && (old(csll.Ring()) ==> csll.Ring())
    ensures forall n :: n in csll.nodes ==> n in old(csll.nodes) || fresh(n)
    ensures forall n :: n in old(csll.nodes) ==> n in csll.nodes
    ensures InsertProgress(start, sorted, p + 1, Payloads(csll.nodes), inserted', skipped')
    ensures node.None? ==> inserted' == inserted
    ensures node.Some? ==> fresh(node.value) && node.value in csll.nodes && node.value.data == sorted[p].element
    ensures node.Some? ==> inserted' == inserted + [sorted[p]]
  {
    var h := sorted[p];
    if h.index <= 0 || h.index > csll.size {
      InsertProgressSkip(start, sorted, p, Payloads(csll.nodes), inserted, skipped);
      return None, skipped + [h], inserted;
    }
    ghost var ns := csll.nodes;
    var n := InsertHandler(csll, h);
    InsertProgressNodes(start, sorted, p, ns, n, inserted, skipped);
    node, skipped', inserted' := Some(n), skipped, inserted + [h];
  }

  /**
   * `insert_csll_multiple_elements`: ValueError on an empty list; otherwise the
   * handlers, sorted by index, are applied as `InsertMany` describes, and the
   * nodes returned are the new ones, holding the inserted elements.
   */
  method InsertCsllMultipleElements<T>(csll: List<T>, handlers: seq<MultipleElementsHandler<T>>)
    returns (r: Result<(seq<Node<T>>, seq<MultipleElementsHandler<T>>)>)
    requires csll.Valid()
    modifies csll, csll.Repr()
    ensures csll.Valid()
    ensures r.Err? <==> old(csll.nodes) == []
    ensures r.Err? ==> r.error == ValueError && unchanged(csll)
    ensures r.Ok? ==>
      var o := InsertMany(old(csll.Elements()), SortListMultipleElementsHandlers(handlers));
      r.value.1 == o.skipped && csll.Elements() == o.elements && Payloads(r.value.0) == ElementsOf(o.inserted)
    ensures r.Ok? ==> forall n :: n in r.value.0 ==> fresh(n) && n in csll.Repr()
    ensures old(csll.Ring()) ==> csll.Ring()
  {
    if csll.head == null {
      return Err(ValueError);
    }
    ghost var start := csll.Elements();
    var sorted := SortListMultipleElementsHandlers(handlers);
    var results: seq<Node<T>> := [];
    var skipped: seq<MultipleElementsHandler<T>> := [];
    ghost var inserted: seq<MultipleElementsHandler<T>> := [];
    InsertProgressStart(start, sorted);
    var p := 0;
    while p < |sorted|
      invariant 0 <= p <= |sorted|
      invariant csll.Valid() && (old(csll.Ring()) ==> csll.Ring())
      invariant forall n :: n in csll.nodes ==> n in old(csll.nodes) || fresh(n)
      invariant forall n :: n in results ==> fresh(n) && n in csll.nodes
      invariant |results| == |inserted| && forall k :: 0 <= k < |results| ==> results[k].data == inserted[k].element
      invariant InsertProgress(start, sorted, p, Payloads(csll.nodes), inserted, skipped)
    {
      var node;
      node, skipped, inserted := InsertStep(csll, start, sorted, p, skipped, inserted);
      if node.Some? {
        results := results + [node.value];
      }
      p := p + 1;
    }
    InsertProgressEnd(start, sorted, Payloads(csll.nodes), inserted, skipped);
    assert Payloads(results) == ElementsOf(inserted);
    r := Ok((results, skipped));
  }

  /** `DeleteProgressApply` stated on the linked nodes rather than on their payloads. */
  lemma DeleteProgressNodes<T>(start: seq<T>, idx: seq<int>, p: int, ns: seq<Node<T>>,
                               deleted: seq<MultipleElementsHandler<T>>, skipped: seq<int>)
    requires 0 <= p < |idx| && DeleteProgress(start, idx, p, Payloads(ns), deleted, skipped)
    requires 1 <= idx[p] <= |ns|
    ensures DeleteProgress(start, idx, p + 1, Payloads(RemoveAt(ns, idx[p])),
      deleted + [MultipleElementsHandler(idx[p], ns[idx[p] - 1].data)], skipped)
  {
    RemovedPayloads(ns, idx[p]);
    DeleteProgressApply(start, idx, p, Payloads(ns), deleted, skipped);
  }

  /**
   * One in-range index of `delete_csll_multiple_elements`: index 1 deletes the
   * head, an index equal to the size the tail, any other the node at that position.
   */
  method DeleteIndex<T>(csll: List<T>, index: int) returns (result: MultipleElementsHandler<T>)
    requires csll.Valid() && 1 <= index <= csll.size
    modifies csll, csll.Repr()
    ensures csll.Valid() && csll.nodes == RemoveAt(old(csll.nodes), index)
    ensures result == MultipleElementsHandler(index, old(csll.nodes)[index - 1].data)
  {
    ghost var ns := csll.nodes;
    var node: Node?<T>;
    if index == 1 {
      node := DeleteCsllFirstElement(csll);
      assert RemoveAt(ns, 1) == ns[1..];
    } else if index == csll.size {
      node := DeleteCsllLastElement(csll);
      assert RemoveAt(ns, index) == ns[..index - 1];
    } else {
      node := DeleteAfterHops(csll, index);
    }
    result := MultipleElementsHandler(index, node.data);
  }

  /** One turn of the loop of `delete_csll_multiple_elements`: skip the index or delete at it. */
  method DeleteStep<T>(csll: List<T>, ghost start: seq<T>, sorted: seq<int>, p: int,
                       results: seq<MultipleElementsHandler<T>>, skipped: seq<int>)
    returns (results': seq<MultipleElementsHandler<T>>, skipped': seq<int>)
    requires csll.Valid() && 0 <= p < |sorted|
    requires DeleteProgress(start, sorted, p, Payloads(csll.nodes), results, skipped)
    modifies csll, csll.Repr()
    ensures csll.Valid()
    ensures forall n :: n in csll.nodes ==> n in old(csll.nodes)
    ensures DeleteProgress(start, sorted, p + 1, Payloads(csll.nodes), results', skipped')
  {
    var index := sorted[p];
    if index <= 0 || index > csll.size {
      DeleteProgressSkip(start, sorted, p, Payloads(csll.nodes), results, skipped);
      return results, skipped + [index];
    }
    ghost var ns := csll.nodes;
    var result := DeleteIndex(csll, index);
    DeleteProgressNodes(start, sorted, p, ns, results, skipped);
    RemoveAtMembers(ns, index);
    results' := results + [result];
    skipped' := skipped;
  }

  /**
   * `delete_csll_multiple_elements`: ValueError on an empty list; otherwise the
   * indices, sorted, are applied as `DeleteMany` describes, each result
   * pairing an index with the payload deleted at it.
   */
  method DeleteCsllMultipleElements<T>(csll: List<T>, indices: seq<int>)
    returns (r: Result<(seq<MultipleElementsHandler<T>>, seq<int>)>)
    requires csll.Valid()
    modifies csll, csll.Repr()
    ensures csll.Valid()
    ensures r.Err? <==> old(csll.nodes) == []
    ensures r.Err? ==> r.error == ValueError && unchanged(csll)
    ensures r.Ok? ==>
      var o := DeleteMany(old(csll.Elements()), SortIndices(indices));
      r.value.0 == o.deleted && r.value.1 == o.skipped && csll.Elements() == o.elements
  {
    if csll.head == null {
      return Err(ValueError);
    }
    ghost var start := csll.Elements();
    var sorted := SortIndices(indices);
    var results: seq<MultipleElementsHandler<T>> := [];
    var skipped: seq<int> := [];
    DeleteProgressStart(start, sorted);
    var p := 0;
    while p < |sorted|
      invariant 0 <= p <= |sorted|
      invariant csll.Valid()
      invariant forall n :: n in csll.nodes ==> n in old(csll.nodes)
      invariant DeleteProgress(start, sorted, p, Payloads(csll.nodes), results, skipped)
    {
      results, skipped := DeleteStep(csll, start, sorted, p, results, skipped);
      p := p + 1;
    }
    DeleteProgressEnd(start, sorted, Payloads(csll.nodes), results, skipped);
    r := Ok((results, skipped));
  }

  /** `get_element_at_index`: None when uninitialized, IndexError outside 1..size, else the node at `index`. */
  method GetElementAtIndex<T>(index: int, csll: List<T>) returns (r: Result<Option<Node<T>>>)
    requires csll.Valid()
    ensures !csll.initialized ==> r == Ok(None)
    ensures csll.initialized && (index < 1 || index > csll.size) ==> r == Err(IndexError)
    ensures csll.initialized && 1 <= index <= csll.size ==> r == Ok(Some(csll.nodes[index - 1]))
  {
    if !csll.initialized || csll.head == null {
      return Ok(None);
    }
    if index < 1 || index > csll.size {
      return Err(IndexError);
    }
    var current: Node<T> := csll.head;
    var hops := 0;
    while hops < index - 1
      invariant 0 <= hops <= index - 1 && current == csll.nodes[hops]
    {
      assert current.next == csll.nodes[hops + 1];
      current := current.next;
      hops := hops + 1;
    }
    r := Ok(Some(current));
  }

  /**
   * `shallow_clear_singly_linked_list`: the old tail's link is set to None and
   * the container forgets its nodes; the caller must pass a list with a tail.
   */
  method ShallowClearSinglyLinkedList<T>(csll: List<T>)
    requires csll.tail != null
    modifies csll, csll.tail
    ensures old(csll.tail).next == null
    ensures csll.Valid() && csll.nodes == []
    ensures csll.head == null && csll.tail == null && csll.size == 0 && !csll.initialized
  {
    csll.head := null;
    csll.tail.next := null;
    csll.tail := null;
    csll.size := 0;
    csll.initialized := false;
    csll.nodes := [];
  }

  /**
   * `deep_clear_singly_linked_list`: walks the chain setting every `next` to
   * None, counting the size down and re-pointing the tail at the next node
   * (None once one is left), then empties the container.
   */
  method DeepClearSinglyLinkedList<T>(csll: List<T>)
    requires csll.Valid()
    modifies csll, csll.Repr()
    ensures csll.Valid() && csll.nodes == []
    ensures csll.head == null && csll.tail == null && csll.size == 0 && !csll.initialized
    ensures forall n :: n in old(csll.nodes) ==> n.next == null
  {
    if !csll.initialized || csll.head == null {
      return;
    }
    ghost var ns := csll.nodes;
    ghost var k := |ns|;
    var current := csll.head;
    ghost var i := 0;
    while current != null
      invariant 0 <= i <= k && current == (if i < k then ns[i] else null)
      invariant csll.tail == ns[k - 1] && csll.size == k - i && csll.nodes == ns && Distinct(ns)
      invariant forall j :: 0 <= j < i && j < k - 1 ==> ns[j].next == null
      invariant forall j :: i <= j < k - 1 ==> ns[j].next == ns[j + 1]
      invariant i == 0 ==> k == 1 ==> ns[0].next == null
      invariant i > 0 ==> csll.tail.next == if k - i == 1 then null else current
      decreases k - i
    {
      var nextNode := current.next;
      current.next := null;
      current := nextNode;
      csll.size := csll.size - 1;
      if csll.size == 1 {
        csll.tail.next := null;
      } else {
        csll.tail.next := current;
      }
      i := i + 1;
    }
    csll.head := null;
    csll.tail := null;
    csll.size := 0;
    csll.initialized := false;
    csll.nodes := [];
  }
}
