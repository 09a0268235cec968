/**
 * The circular doubly linked list operations. Appending and prepending keep
 * both rings; inserting or deleting in the middle rewrites only `next`;
 * removing the tail unlinks it but leaves the list's `tail` field on it. The
 * contracts say how the ghost sequence of linked nodes changes and which
 * links each operation wrote.
 */
module CircularDoublyLinkedListOperations {
  import opened Wrappers
  import opened LinkedListUtilities
  import opened BatchSemantics
  import opened Sequences
  import opened CircularDoublyLinkedList

  lemma InsertedPayloads<T>(ns: seq<Node<T>>, n: Node<T>, i: int)
    requires 0 <= i <= |ns|
    ensures Payloads(ns[..i] + [n] + ns[i..]) == Payloads(ns)[..i] + [n.data] + Payloads(ns)[i..]
  {
    PayloadsOfConcat(ns[..i] + [n], ns[i..]);
    PayloadsOfConcat(ns[..i], [n]);
    PayloadsOfSlices(ns, 0, i);
    PayloadsOfSlices(ns, i, |ns|);
  }

  lemma RemovedPayloads<T>(ns: seq<Node<T>>, i: int)
    requires 1 <= i <= |ns|
    ensures Payloads(RemoveAt(ns, i)) == RemoveAt(Payloads(ns), i)
  {
    PayloadsOfConcat(ns[..i - 1], ns[i..]);
    PayloadsOfSlices(ns, 0, i - 1);
    PayloadsOfSlices(ns, i, |ns|);
  }

  /** `initialize_cdll`: the list becomes the one fresh node holding `data`, linking to None both ways. */
  method InitializeCdll<T>(cdll: List<T>, data: T) returns (node: Node<T>)
    modifies cdll
    ensures fresh(node) && node.data == data && node.next == null && node.prev == null
    ensures cdll.PrevLinked() && cdll.nodes == [node] && cdll.repr == old(cdll.repr) + {node}
    ensures cdll.head == node && cdll.tail == node && cdll.size == 1 && cdll.initialized
  {
    node := new Node(data);
    cdll.head := node;
    cdll.initialized := true;
    cdll.tail := cdll.head;
    cdll.size := 1;
    cdll.nodes := [node];
    cdll.repr := cdll.repr + {node};
  }

  /**
   * `insert_cdll_element`: appends between the tail and the head, linking
   * both ways; an uninitialized list is initialized instead. On a ring that
   * ends at `tail` both rings stay closed. When `tail` still names a node
   * removed by `delete_cdll_last_element`, the new node is linked from that
   * removed node, and the last linked node keeps linking to the head (or to
   * None), so walking forward from the head never reaches the new node.
   */
  method InsertCdllElement<T>(cdll: List<T>, element: T) returns (node: Node<T>)
    requires cdll.Chain()
    modifies cdll, cdll.repr
    ensures cdll.Shape() && fresh(node) && node.data == element
    ensures cdll.nodes == old(cdll.nodes) + [node] && cdll.repr == old(cdll.repr) + {node}
    ensures cdll.tail == node && cdll.size == old(cdll.size) + 1
    ensures old(cdll.initialized) ==>
      cdll.head == old(cdll.head) && old(cdll.tail).next == node && node.prev == old(cdll.tail) &&
      node.next == cdll.head && cdll.head.prev == node
    ensures old(cdll.Valid()) ==> cdll.Valid()
    ensures old(cdll.PrevLinked()) ==> cdll.PrevLinked()
    ensures old(cdll.initialized) && old(cdll.tail) !in old(cdll.nodes) ==>
      old(cdll.nodes)[|old(cdll.nodes)| - 1].next == (if |old(cdll.nodes)| == 1 then null else cdll.head)
  {
    if !cdll.initialized {
      node := InitializeCdll(cdll, element);
      return;
    }
    ghost var ns := cdll.nodes;
    ghost var wasValid := cdll.Valid();
    ghost var wasPrevLinked := cdll.PrevLinked();
    node := new Node(element);
    // An initialized list always has a tail, so the branch linking the
    // head forward when there is none is left out.
    if cdll.tail != null {
      cdll.tail.next := node;
    }
    node.prev := cdll.tail;
    node.next := cdll.head;
    if cdll.head != null {
      cdll.head.prev := node;
    }
    cdll.tail := node;
    cdll.size := cdll.size + 1;
    cdll.nodes := ns + [node];
    cdll.repr := cdll.repr + {node};
    DistinctSplice(ns, |ns|, node);
    assert ns[..|ns|] + [node] + ns[|ns|..] == cdll.nodes;
    forall j | 0 <= j < |ns| - 1 ensures ns[j].next == ns[j + 1] {
      assert ns[j] != old(cdll.tail);
    }
    if wasValid {
      assert Linked(cdll.nodes) by {
        forall j | 0 <= j < |cdll.nodes| - 1 ensures cdll.nodes[j].next == cdll.nodes[j + 1] {
          assert cdll.nodes[j] == ns[j];
        }
      }
    }
    if wasPrevLinked {
      assert BackLinked(cdll.nodes) by {
        forall j | 1 <= j < |cdll.nodes| ensures cdll.nodes[j].prev == cdll.nodes[j - 1] {
          if j < |ns| {
            assert cdll.nodes[j] == ns[j] != ns[0];
          }
        }
      }
    }
  }

  /**
   * `insert_cdll_first_element`: prepends between the tail and the old
   * head, linking both ways; an uninitialized list is initialized instead.
   */
  method InsertCdllFirstElement<T>(cdll: List<T>, element: T) returns (node: Node<T>)
    requires cdll.Valid()
    modifies cdll, cdll.repr
    ensures cdll.Valid() && fresh(node) && node.data == element
    ensures cdll.nodes == [node] + old(cdll.nodes) && cdll.repr == old(cdll.repr) + {node}
    ensures cdll.head == node && cdll.size == old(cdll.size) + 1
    ensures old(cdll.initialized) ==>
      cdll.tail == old(cdll.tail) && node.next == old(cdll.head) && old(cdll.head).prev == node &&
      cdll.tail.next == node && node.prev == cdll.tail
    ensures old(cdll.PrevLinked()) ==> cdll.PrevLinked()
  {
    if !cdll.initialized {
      node := InitializeCdll(cdll, element);
      return;
    }
    ghost var ns := cdll.nodes;
    node := new Node(element);
    if cdll.head != null && cdll.tail != null {
      LinkFirst(cdll.head, cdll.tail, node);
      cdll.head := node;
      cdll.size := cdll.size + 1;
      cdll.nodes := [node] + ns;
      cdll.repr := cdll.repr + {node};
      DistinctSplice(ns, 0, node);
      assert ns[..0] + [node] + ns[0..] == cdll.nodes;
      assert Linked(cdll.nodes) by {
        forall j | 1 <= j < |cdll.nodes| - 1 ensures cdll.nodes[j].next == cdll.nodes[j + 1] {
          assert cdll.nodes[j] == ns[j - 1] != cdll.tail;
        }
      }
      RingValid(cdll);
    }
  }

  /**
   * The link writes of `insert_cdll_first_element`, in its order: the new
   * node links forward to the head, the head back to it, the tail forward
   * to it and it back to the tail. The head's `next` and the tail's `prev`
   * are kept when they are two nodes.
   */
  method LinkFirst<T>(head: Node<T>, tail: Node<T>, node: Node<T>)
    requires node != head && node != tail
    modifies head, tail, node
    ensures node.next == head && head.prev == node && tail.next == node && node.prev == tail
    ensures head != tail ==> head.next == old(head.next) && tail.prev == old(tail.prev)
  {
    node.next := head;
    head.prev := node;
    tail.next := node;
    node.prev := tail;
  }

  /**
   * The shared middle case of the nth and batch insertions: `index - 2`
   * hops from the head reach the predecessor, and the new node goes after
   * it in the forward ring only. Its `prev` stays None and no `prev` link
   * changes, so the successor still links back to the predecessor.
   */
  method InsertAfterHops<T>(cdll: List<T>, element: T, index: int) returns (node: Node<T>)
    requires cdll.Valid() && 2 <= index <= cdll.size
    modifies cdll, cdll.repr
    ensures cdll.Valid() && fresh(node) && node.data == element && node.prev == null
    ensures cdll.nodes == old(cdll.nodes[..index - 1]) + [node] + old(cdll.nodes[index - 1..])
    ensures cdll.repr == old(cdll.repr) + {node}
    ensures old(cdll.nodes[index - 2]).next == node && node.next == old(cdll.nodes[index - 1])
    ensures forall n :: n in old(cdll.repr) ==> n.prev == old(n.prev)
    ensures cdll.head == old(cdll.head) && cdll.tail == old(cdll.tail) && cdll.size == old(cdll.size) + 1
  {
    var current: Node<T> := cdll.head;
    var hops := 0;
    while hops < index - 2
      invariant 0 <= hops <= index - 2 && current == cdll.nodes[hops]
    {
      assert current.next == cdll.nodes[hops + 1];
      current := current.next;
      hops := hops + 1;
    }
    ghost var ns := cdll.nodes;
    assert current.next == ns[index - 1];
    node := new Node(element);
    node.next := current.next;
    current.next := node;
    cdll.size := cdll.size + 1;
    cdll.nodes := ns[..index - 1] + [node] + ns[index - 1..];
    cdll.repr := cdll.repr + {node};
    DistinctSplice(ns, index - 1, node);
    forall j | 0 <= j < |cdll.nodes| - 1 ensures cdll.nodes[j].next == cdll.nodes[j + 1] {
      if j < index - 2 {
        assert cdll.nodes[j] == ns[j] != ns[index - 2] && cdll.nodes[j + 1] == ns[j + 1];
      } else if j >= index {
        assert cdll.nodes[j] == ns[j - 1] != ns[index - 2] && cdll.nodes[j + 1] == ns[j];
      }
    }
  }

  /**
   * `insert_cdll_nth_element`: IndexError unless 1 <= index <= size + 1;
   * index 1 prepends, size + 1 appends, and any other index puts the new
   * node at that position of the forward ring.
   */
  method InsertCdllNthElement<T>(cdll: List<T>, element: T, index: int) returns (r: Result<Node<T>>)
    requires cdll.Valid()
    modifies cdll, cdll.repr
    ensures cdll.Valid()
    ensures r.Err? <==> index <= 0 || index > old(cdll.size) + 1
    ensures r.Err? ==> r.error == IndexError && unchanged(cdll) && unchanged(cdll.repr)
    ensures r.Ok? ==> fresh(r.value) && r.value.data == element && cdll.repr == old(cdll.repr) + {r.value}
    ensures r.Ok? ==> cdll.nodes == old(cdll.nodes[..index - 1]) + [r.value] + old(cdll.nodes[index - 1..])
    ensures r.Ok? && 1 < index <= old(cdll.size) ==> r.value.prev == null && forall n :: n in old(cdll.repr) ==> n.prev == old(n.prev)
    ensures (index == 1 || index == old(cdll.size) + 1) && old(cdll.PrevLinked()) ==> cdll.PrevLinked()
  {
    if index <= 0 || index > cdll.size + 1 {
      return Err(IndexError);
    }
    ghost var ns := cdll.nodes;
    var node;
    if index == 1 {
      node := InsertCdllFirstElement(cdll, element);
      assert ns[..0] + [node] + ns[0..] == [node] + ns;
    } else if index == cdll.size + 1 {
      node := InsertCdllElement(cdll, element);
      assert ns[..index - 1] + [node] + ns[index - 1..] == ns + [node];
    } else {
      node := InsertAfterHops(cdll, element, index);
    }
    r := Ok(node);
  }

  /**
   * `delete_cdll_first_element`: None on an empty list, a one-node list
   * becomes empty without reading `tail`; otherwise the second node becomes
   * the head, taking over the old head's `prev`, and the tail links to it. A
   * single remaining node has its `prev`, and the tail its `next`, set to
   * None. The removed node keeps its links. When `tail` still names a node
   * removed by `delete_cdll_last_element`, those tail writes go to that
   * removed node, and the last linked node keeps linking to the node just
   * removed.
   */
  method DeleteCdllFirstElement<T>(cdll: List<T>) returns (deleted: Node?<T>)
    requires cdll.Chain()
    modifies cdll, cdll.repr
    ensures cdll.Shape() && Linked(cdll.nodes) && cdll.repr == old(cdll.repr)
    ensures old(cdll.nodes) == [] ==> deleted == null && unchanged(cdll)
    ensures old(cdll.nodes) != [] ==>
      deleted == old(cdll.head) && cdll.nodes == old(cdll.nodes[1..]) && cdll.size == old(cdll.size) - 1 &&
      deleted.next == old(cdll.head.next) && deleted.prev == old(cdll.head.prev)
    ensures |old(cdll.nodes)| <= 1 ==> cdll.Valid()
    ensures |cdll.nodes| >= 2 ==> cdll.head.prev == old(cdll.head.prev) && cdll.tail == old(cdll.tail)
    ensures old(cdll.Valid()) && (old(cdll.TailLinkedBack()) || |old(cdll.nodes)| <= 3) ==> cdll.TailLinkedBack()
    ensures old(cdll.Valid()) ==> cdll.Valid()
    ensures old(cdll.PrevLinked()) ==> cdll.PrevLinked()
    ensures |old(cdll.nodes)| >= 2 && old(cdll.tail) !in old(cdll.nodes) ==>
      cdll.tail == old(cdll.tail) && cdll.tail.next == (if |cdll.nodes| == 1 then null else cdll.head) &&
      cdll.nodes[|cdll.nodes| - 1].next == deleted
  {
    if !cdll.initialized || cdll.head == null {
      return null;
    }
    deleted := cdll.head;
    if cdll.size == 1 {
      cdll.head := null;
      cdll.tail := null;
      cdll.size := 0;
      cdll.initialized := false;
      cdll.nodes := [];
      return;
    }
    deleted := DeleteHead(cdll);
  }

  /**
   * The two writes that bypass the head: the second node takes over the
   * head's `prev`, and the tail links forward to the second node.
   */
  method BypassHead<T>(head: Node<T>, tail: Node<T>)
    requires head.next != null
    modifies head.next, tail
    ensures var second := old(head.next);
      second.prev == old(head.prev) && tail.next == second &&
      (second != tail ==> second.next == old(second.next) && tail.prev == old(tail.prev))
  {
    head.next.prev := head.prev;
    tail.next := head.next;
  }

  /** `delete_cdll_first_element` on two nodes or more. */
  method DeleteHead<T>(cdll: List<T>) returns (deleted: Node<T>)
    requires cdll.Chain() && |cdll.nodes| >= 2
    modifies cdll, cdll.repr
    ensures cdll.Shape() && Linked(cdll.nodes) && cdll.repr == old(cdll.repr)
    ensures deleted == old(cdll.head) && cdll.nodes == old(cdll.nodes[1..]) && cdll.size == old(cdll.size) - 1 &&
      deleted.next == old(cdll.head.next) && deleted.prev == old(cdll.head.prev)
    ensures |cdll.nodes| >= 2 ==> cdll.head.prev == old(cdll.head.prev) && cdll.tail == old(cdll.tail)
    ensures old(cdll.Valid()) && (old(cdll.TailLinkedBack()) || |old(cdll.nodes)| <= 3) ==> cdll.TailLinkedBack()
    ensures old(cdll.Valid()) ==> cdll.Valid()
    ensures old(cdll.PrevLinked()) ==> cdll.PrevLinked()
    ensures old(cdll.tail) !in old(cdll.nodes) ==>
      cdll.tail == old(cdll.tail) && cdll.tail.next == (if |cdll.nodes| == 1 then null else cdll.head) &&
      cdll.nodes[|cdll.nodes| - 1].next == deleted
  {
    ghost var ns := cdll.nodes;
    deleted := cdll.head;
    DistinctDropFirst(ns);
    assert cdll.head.next == ns[1] && cdll.tail != deleted;
    assert cdll.tail in ns ==> cdll.tail == ns[|ns| - 1];
    if cdll.head != null && cdll.head.next != null && cdll.tail != null {
      BypassHead(cdll.head, cdll.tail);
      cdll.head := cdll.head.next;
      cdll.size := cdll.size - 1;
      cdll.nodes := ns[1..];
      // The size is at least one here, so the branch emptying the list
      // when it reaches zero is left out.
      if cdll.size == 1 {
        cdll.tail.next := null;
        cdll.head.prev := null;
      }
      assert Linked(cdll.nodes) by {
        forall j | 0 <= j < |cdll.nodes| - 1 ensures cdll.nodes[j].next == cdll.nodes[j + 1] {
          assert cdll.nodes[j] == ns[j + 1] != old(cdll.tail);
        }
      }
      if |ns| >= 3 {
        assert cdll.tail.prev == old(cdll.tail.prev);
      }
      if |ns| >= 4 {
        assert cdll.nodes[|cdll.nodes| - 2] == ns[|ns| - 2];
      }
    }
  }

  /**
   * The two writes that unlink a node through its own links: its successor
   * links back to its predecessor, and the predecessor forward to the
   * successor. Nothing else changes.
   */
  method UnlinkBetween<T>(node: Node<T>)
    requires node.next != null && node.prev != null
    modifies node.next, node.prev
    ensures var before, after := old(node.prev), old(node.next);
      before.next == after && after.prev == before &&
      (before != after ==> after.next == old(after.next) && before.prev == old(before.prev))
  {
    node.next.prev := node.prev;
    node.prev.next := node.next;
  }

  /**
   * `delete_cdll_last_element`: None on an empty list, a one-node list
   * becomes empty. Otherwise the node `tail` names is unlinked from its two
   * neighbours through its own links (if both are set): its successor links
   * back to its `prev` and that node links forward to its successor; no
   * other link changes. The size drops and a single remaining node has both
   * links set to None, but the list's `tail` field still names the removed
   * node. So a second call returns that same node again.
   *
   * The remaining nodes form a ring only when the removed node sat between
   * the second-to-last node and the head. A middle insertion or deletion
   * does not update `prev`, so the tail may link back to an earlier node
   * instead: the ring then ends at that node and the nodes after it drop
   * out, or, when it links back to a node already removed, the tail stays
   * in the ring. In those cases the contract states the link writes and the
   * size, not the list's nodes.
   */
  method DeleteCdllLastElement<T>(cdll: List<T>) returns (deleted: Node?<T>)
    requires cdll.Chain()
    modifies cdll, cdll.repr
    ensures cdll.repr == old(cdll.repr)
    ensures old(cdll.nodes) == [] ==> deleted == null && unchanged(cdll)
    ensures |old(cdll.nodes)| == 1 ==> deleted == old(cdll.head) && cdll.Valid() && cdll.nodes == []
    ensures |old(cdll.nodes)| >= 2 ==>
      deleted == old(cdll.tail) && cdll.tail == deleted && cdll.head == old(cdll.head) && cdll.initialized &&
      cdll.size == old(cdll.size) - 1 && deleted.next == old(cdll.tail.next) && deleted.prev == old(cdll.tail.prev)
    ensures |old(cdll.nodes)| == 2 ==> cdll.head.next == null && cdll.head.prev == null
    ensures |old(cdll.nodes)| >= 3 && old(cdll.tail.prev) != null && old(cdll.tail.next) != null ==>
      old(cdll.tail.prev).next == old(cdll.tail.next) && old(cdll.tail.next).prev == old(cdll.tail.prev)
    ensures |old(cdll.nodes)| >= 3 ==>
      (forall n :: n in old(cdll.repr) && n != old(cdll.tail.prev) ==> n.next == old(n.next)) &&
      (forall n :: n in old(cdll.repr) && n != old(cdll.tail.next) ==> n.prev == old(n.prev))
    ensures var k := |old(cdll.nodes)|;
      k == 2 || (k >= 3 && old(cdll.tail.prev) == old(cdll.nodes)[k - 2] && old(cdll.tail.next) == old(cdll.head)) ==>
      cdll.Chain() && cdll.nodes == old(cdll.nodes)[..k - 1] && deleted !in cdll.nodes
    ensures var k := |old(cdll.nodes)|;
      forall j :: 0 <= j < k - 2 && old(cdll.tail.prev) == old(cdll.nodes)[j] && old(cdll.tail.next) == old(cdll.head) ==>
        Linked(old(cdll.nodes)[..j + 1]) && old(cdll.nodes)[j].next == old(cdll.head)
    ensures |old(cdll.nodes)| >= 2 && old(cdll.PrevLinked()) ==>
      cdll.Chain() && BackLinked(cdll.nodes) && (|cdll.nodes| >= 2 ==> cdll.head.prev == cdll.nodes[|cdll.nodes| - 1])
  {
    if !cdll.initialized || cdll.head == null {
      return null;
    }
    if cdll.size == 1 {
      deleted := cdll.head;
      cdll.head := null;
      cdll.tail := null;
      cdll.size := 0;
      cdll.initialized := false;
      cdll.nodes := [];
      return;
    }
    deleted := DeleteTail(cdll);
  }

  /** `delete_cdll_last_element` on two nodes or more. */
  method DeleteTail<T>(cdll: List<T>) returns (deleted: Node<T>)
    requires cdll.Chain() && |cdll.nodes| >= 2
    modifies cdll, cdll.repr
    ensures cdll.repr == old(cdll.repr)
    ensures deleted == old(cdll.tail) && cdll.tail == deleted && cdll.head == old(cdll.head) && cdll.initialized &&
      cdll.size == old(cdll.size) - 1 && deleted.next == old(cdll.tail.next) && deleted.prev == old(cdll.tail.prev)
    ensures |old(cdll.nodes)| == 2 ==> cdll.head.next == null && cdll.head.prev == null
    ensures |old(cdll.nodes)| >= 3 && old(cdll.tail.prev) != null && old(cdll.tail.next) != null ==>
      old(cdll.tail.prev).next == old(cdll.tail.next) && old(cdll.tail.next).prev == old(cdll.tail.prev)
    ensures |old(cdll.nodes)| >= 3 ==>
      (forall n :: n in old(cdll.repr) && n != old(cdll.tail.prev) ==> n.next == old(n.next)) &&
      (forall n :: n in old(cdll.repr) && n != old(cdll.tail.next) ==> n.prev == old(n.prev))
    ensures var k := |old(cdll.nodes)|;
      k == 2 || (old(cdll.tail.prev) == old(cdll.nodes)[k - 2] && old(cdll.tail.next) == old(cdll.head)) ==>
      cdll.Chain() && cdll.nodes == old(cdll.nodes)[..k - 1] && deleted !in cdll.nodes
    ensures var k := |old(cdll.nodes)|;
      forall j :: 0 <= j < k - 2 && old(cdll.tail.prev) == old(cdll.nodes)[j] && old(cdll.tail.next) == old(cdll.head) ==>
        Linked(old(cdll.nodes)[..j + 1]) && old(cdll.nodes)[j].next == old(cdll.head)
    ensures old(cdll.PrevLinked()) ==>
      cdll.Chain() && BackLinked(cdll.nodes) && (|cdll.nodes| >= 2 ==> cdll.head.prev == cdll.nodes[|cdll.nodes| - 1])
  {
    ghost var ns := cdll.nodes;
    ghost var k := |ns|;
    deleted := cdll.tail;
    ghost var before := deleted.prev;
    ghost var after := deleted.next;
    assert forall j :: 0 <= j < k - 2 ==> ns[j].next == ns[j + 1];
    if deleted.next != null && deleted.prev != null {
      UnlinkBetween(deleted);
    }
    cdll.size := cdll.size - 1;
    if cdll.size == 1 {
      cdll.head.next := null;
      cdll.head.prev := null;
    }
    cdll.nodes := ns[..k - 1];
    assert deleted !in cdll.nodes by {
      assert deleted in ns ==> deleted == ns[k - 1];
    }
    if k >= 3 && before == ns[k - 2] && after == ns[0] {
      forall j | 0 <= j < k - 2 ensures ns[j].next == ns[j + 1] {
        assert ns[j] != ns[k - 2];
      }
      assert ns[k - 2].next == ns[0];
    }
    forall j | 0 <= j < k - 2 && before == ns[j] && after == ns[0]
      ensures Linked(ns[..j + 1]) && ns[j].next == ns[0]
    {
      forall i | 0 <= i < j ensures ns[i].next == ns[i + 1] {
        assert ns[i] != ns[j];
      }
    }
  }

  /**
   * A middle insertion leaves the tail's `prev` behind: inserting 9 at
   * position 3 of 1, 2, 3 links 2 to 9 while 3 still links back to 2.
   * Deleting the last node then links 2 straight to the head, so 9 leaves
   * the ring together with 3: the size is 3, but walking forward from the
   * head gives 1, 2 and 1 again.
   */
  method StaleBackLinkTrace() returns (size: int, walk: seq<int>)
    ensures size == 3 && walk == [1, 2, 1]
  {
    var cdll := new List<int>();
    var one := InitializeCdll(cdll, 1);
    var two := InsertCdllElement(cdll, 2);
    var three := InsertCdllElement(cdll, 3);
    var r := InsertCdllNthElement(cdll, 9, 3);
    var deleted := DeleteCdllLastElement(cdll);
    size := cdll.size;
    walk := [cdll.head.data, cdll.head.next.data, cdll.head.next.next.data];
  }

  /**
   * The shared middle case of the nth and batch deletions: `index - 2` hops
   * reach the predecessor, which is linked forward past the node at
   * `index`. No `prev` link changes, and the removed node keeps its links.
   */
  method DeleteAfterHops<T>(cdll: List<T>, index: int) returns (deleted: Node<T>)
    requires cdll.Valid() && 2 <= index < cdll.size
    modifies cdll, cdll.repr
    ensures cdll.Valid() && cdll.repr == old(cdll.repr)
    ensures deleted == old(cdll.nodes[index - 1]) && cdll.nodes == old(RemoveAt(cdll.nodes, index))
    ensures deleted.next == cdll.nodes[index - 1] && old(cdll.nodes[index - 2]).next == cdll.nodes[index - 1]
    ensures forall n :: n in old(cdll.repr) ==> n.prev == old(n.prev)
    ensures cdll.head == old(cdll.head) && cdll.tail == old(cdll.tail) && cdll.size == old(cdll.size) - 1
    ensures (old(cdll.TailLinkedBack()) && index != old(cdll.size) - 1) || old(cdll.size) <= 3 ==> cdll.TailLinkedBack()
  {
    var current: Node<T> := cdll.head;
    var hops := 0;
    while hops < index - 2
      invariant 0 <= hops <= index - 2 && current == cdll.nodes[hops]
    {
      assert current.next == cdll.nodes[hops + 1];
      current := current.next;
      hops := hops + 1;
    }
    ghost var ns := cdll.nodes;
    assert current.next == ns[index - 1] && ns[index - 1].next == ns[index];
    deleted := current.next;
    current.next := deleted.next;
    cdll.size := cdll.size - 1;
    cdll.nodes := RemoveAt(ns, index);
    DistinctRemove(ns, index - 1);
    forall j | 0 <= j < |cdll.nodes| - 1 ensures cdll.nodes[j].next == cdll.nodes[j + 1] {
      if j < index - 2 {
        assert cdll.nodes[j] == ns[j] != ns[index - 2] && cdll.nodes[j + 1] == ns[j + 1];
      } else if j >= index - 1 {
        assert cdll.nodes[j] == ns[j + 1] != ns[index - 2] && cdll.nodes[j + 1] == ns[j + 2];
      }
    }
    if index < |ns| - 1 {
      assert cdll.nodes[|cdll.nodes| - 2] == ns[|ns| - 2];
    }
  }

  /**
   * `delete_cdll_nth_element`: IndexError outside 1..size, also on an
   * empty list; otherwise the node at `index` leaves the forward ring and is
   * returned. Deleting at the size removes the tail as
   * `delete_cdll_last_element` does, through the tail's own `prev`, and
   * leaves `tail` on the removed node: the other nodes keep their ring only
   * when that `prev` is the node before the tail.
   */
  method DeleteCdllNthElement<T>(cdll: List<T>, index: int) returns (r: Result<Node<T>>)
    requires cdll.Valid()
    modifies cdll, cdll.repr
    ensures cdll.repr == old(cdll.repr)
    ensures r.Err? <==> index <= 0 || index > old(cdll.size)
    ensures r.Err? ==> r.error == IndexError && unchanged(cdll)
    ensures r.Ok? ==> r.value == old(cdll.nodes[index - 1]) && cdll.size == old(cdll.size) - 1
    ensures r.Ok? && (index < old(cdll.size) || old(cdll.TailLinkedBack())) ==>
      cdll.Shape() && cdll.nodes == old(RemoveAt(cdll.nodes, index))
    ensures r.Ok? && (index < old(cdll.size) || old(cdll.size) == 1) ==> cdll.Valid()
    ensures r.Ok? && 2 <= index == old(cdll.size) ==>
      cdll.tail == r.value && (old(cdll.TailLinkedBack()) ==> r.value !in cdll.nodes)
    ensures r.Ok? && 3 <= index == old(cdll.size) && old(cdll.tail.prev) != null ==>
      old(cdll.tail.prev).next == old(cdll.head) && old(cdll.head).prev == old(cdll.tail.prev)
  {
    if index <= 0 || index > cdll.size {
      return Err(IndexError);
    }
    var node := DeleteIndex(cdll, index);
    r := Ok(node);
  }

  /** Splicing a node in as a batch insertion splices its payload into the payloads. */
  lemma InsertAtPayloads<T>(ns: seq<Node<T>>, node: Node<T>, i: int)
    requires 1 <= i <= |ns|
    ensures Payloads(InsertAt(ns, MultipleElementsHandler(i, node))) == InsertAt(Payloads(ns), MultipleElementsHandler(i, node.data))
  {
    if i == 1 {
      PayloadsOfConcat([node], ns);
    } else if i == |ns| {
      PayloadsOfConcat(ns, [node]);
    } else {
      InsertedPayloads(ns, node, i - 1);
    }
  }

  lemma InsertProgressNodes<T>(start: seq<T>, hs: seq<MultipleElementsHandler<T>>, p: int, ns: seq<Node<T>>, node: Node<T>,
                               inserted: seq<MultipleElementsHandler<T>>, skipped: seq<MultipleElementsHandler<T>>)
    requires 0 <= p < |hs| && InsertProgress(start, hs, p, Payloads(ns), inserted, skipped)
    requires 1 <= hs[p].index <= |ns| && node.data == hs[p].element
    ensures InsertProgress(start, hs, p + 1, Payloads(InsertAt(ns, MultipleElementsHandler(hs[p].index, node))), inserted + [hs[p]], skipped)
  {
    InsertAtPayloads(ns, node, hs[p].index);
    InsertProgressApply(start, hs, p, Payloads(ns), inserted, skipped);
  }

  /**
   * One in-range handler of `insert_cdll_multiple_elements`: index 1
   * prepends, an index equal to the size appends, any other index splices
   * at that position of the forward ring.
   */
  method InsertHandler<T>(cdll: List<T>, h: MultipleElementsHandler<T>) returns (node: Node<T>)
    requires cdll.Valid() && 1 <= h.index <= cdll.size
    modifies cdll, cdll.repr
    ensures cdll.Valid() && fresh(node) && node.data == h.element
    ensures cdll.nodes == InsertAt(old(cdll.nodes), MultipleElementsHandler(h.index, node))
    ensures cdll.repr == old(cdll.repr) + {node}
  {
    ghost var ns := cdll.nodes;
    if h.index == 1 {
      node := InsertCdllFirstElement(cdll, h.element);
    } else if h.index == cdll.size {
      node := InsertCdllElement(cdll, h.element);
    } else {
      node := InsertAfterHops(cdll, h.element, h.index);
    }
  }

  /** One turn of the loop of `insert_cdll_multiple_elements`: skip the handler or insert it. */
  method InsertStep<T>(cdll: List<T>, ghost start: seq<T>, sorted: seq<MultipleElementsHandler<T>>, p: int,
                       skipped: seq<MultipleElementsHandler<T>>, ghost inserted: seq<MultipleElementsHandler<T>>)
    returns (node: Option<Node<T>>, skipped': seq<MultipleElementsHandler<T>>, ghost inserted': seq<MultipleElementsHandler<T>>)
    requires cdll.Valid() && 0 <= p < |sorted|
    requires InsertProgress(start, sorted, p, Payloads(cdll.nodes), inserted, skipped)
    modifies cdll, cdll.repr
    ensures cdll.Valid() && old(cdll.repr) <= cdll.repr && forall n :: n in cdll.repr ==> n in old(cdll.repr) || fresh(n)
    ensures InsertProgress(start, sorted, p + 1, Payloads(cdll.nodes), inserted', skipped')
    ensures node.None? ==> inserted' == inserted
    ensures node.Some? ==> fresh(node.value) && node.value in cdll.repr && node.value.data == sorted[p].element
    ensures node.Some? ==> inserted' == inserted + [sorted[p]]
  {
    var h := sorted[p];
    if h.index <= 0 || h.index > cdll.size {
      InsertProgressSkip(start, sorted, p, Payloads(cdll.nodes), inserted, skipped);
      return None, skipped + [h], inserted;
    }
    ghost var ns := cdll.nodes;
    var n := InsertHandler(cdll, h);
    InsertProgressNodes(start, sorted, p, ns, n, inserted, skipped);
    node, skipped', inserted' := Some(n), skipped, inserted + [h];
  }

  /**
   * `insert_cdll_multiple_elements`: ValueError when there is no head;
   * otherwise the handlers, sorted by index, are applied as `InsertMany`
   * describes, and the nodes returned are the new ones, holding the
   * inserted elements.
   */
  method InsertCdllMultipleElements<T>(cdll: List<T>, handlers: seq<MultipleElementsHandler<T>>)
    returns (r: Result<(seq<Node<T>>, seq<MultipleElementsHandler<T>>)>)
    requires cdll.Valid()
    modifies cdll, cdll.repr
    ensures cdll.Valid()
    ensures r.Err? <==> old(cdll.nodes) == []
    ensures r.Err? ==> r.error == ValueError && unchanged(cdll)
    ensures r.Ok? ==>
      var o := InsertMany(old(cdll.Elements()), SortListMultipleElementsHandlers(handlers));
      r.value.1 == o.skipped && cdll.Elements() == o.elements && Payloads(r.value.0) == ElementsOf(o.inserted)
    ensures r.Ok? ==> forall n :: n in r.value.0 ==> fresh(n) && n in cdll.repr
  {
    if cdll.head == null {
      return Err(ValueError);
    }
    ghost var start := cdll.Elements();
    var sorted := SortListMultipleElementsHandlers(handlers);
    var results: seq<Node<T>> := [];
    var skipped: seq<MultipleElementsHandler<T>> := [];
    ghost var inserted: seq<MultipleElementsHandler<T>> := [];
    InsertProgressStart(start, sorted);
    var p := 0;
    while p < |sorted|
      invariant 0 <= p <= |sorted| && cdll.Valid()
      invariant forall n :: n in cdll.repr ==> n in old(cdll.repr) || fresh(n)
      invariant forall n :: n in results ==> fresh(n) && n in cdll.repr
      invariant |results| == |inserted| && forall k :: 0 <= k < |results| ==> results[k].data == inserted[k].element
      invariant InsertProgress(start, sorted, p, Payloads(cdll.nodes), inserted, skipped)
    {
      var node;
      node, skipped, inserted := InsertStep(cdll, start, sorted, p, skipped, inserted);
      if node.Some? {
        results := results + [node.value];
      }
      p := p + 1;
    }
    InsertProgressEnd(start, sorted, Payloads(cdll.nodes), inserted, skipped);
    assert Payloads(results) == ElementsOf(inserted);
    r := Ok((results, skipped));
  }

  /**
   * One in-range index of `delete_cdll_multiple_elements`: index 1 deletes
   * the head, an index equal to the size the tail (leaving `tail` on it),
   * any other the node at that position.
   */
  method DeleteIndex<T>(cdll: List<T>, index: int) returns (deleted: Node<T>)
    requires cdll.Valid() && 1 <= index <= cdll.size
    modifies cdll, cdll.repr
    ensures cdll.repr == old(cdll.repr) && cdll.size == old(cdll.size) - 1
    ensures deleted == old(cdll.nodes)[index - 1]
    ensures index < old(cdll.size) || old(cdll.TailLinkedBack()) ==>
      cdll.Shape() && cdll.nodes == RemoveAt(old(cdll.nodes), index)
    ensures index < old(cdll.size) || old(cdll.size) == 1 ==> cdll.Valid()
    ensures index < old(cdll.size) && ((old(cdll.TailLinkedBack()) && index != old(cdll.size) - 1) || old(cdll.size) <= 3) ==>
      cdll.TailLinkedBack()
    ensures 2 <= index == old(cdll.size) ==>
      cdll.tail == deleted && (old(cdll.TailLinkedBack()) ==> deleted !in cdll.nodes)
    ensures 3 <= index == old(cdll.size) && old(cdll.tail.prev) != null ==>
      old(cdll.tail.prev).next == old(cdll.head) && old(cdll.head).prev == old(cdll.tail.prev)
  {
    ghost var ns := cdll.nodes;
    var node: Node?<T>;
    if index == 1 {
      node := DeleteCdllFirstElement(cdll);
      assert RemoveAt(ns, 1) == ns[1..];
    } else if index == cdll.size {
      node := DeleteCdllLastElement(cdll);
      assert RemoveAt(ns, index) == ns[..index - 1];
    } else {
      node := DeleteAfterHops(cdll, index);
    }
    deleted := node;
  }

  /**
   * Whether, in a ring of `size` nodes, the tail still links back to the
   * node before it each time `delete_cdll_multiple_elements` deletes at the
   * size, given the sorted indices still to come; `linked` says whether it
   * does now. Deleting at index 1 or in the middle keeps that link unless
   * the node removed is the one the tail links back to, at `size - 1`; with
   * two nodes left it no longer matters.
   */
  ghost predicate TailStaysLinked(size: int, idx: seq<int>, linked: bool)
    decreases |idx|
  {
    if idx == [] then true
    else if idx[0] <= 0 || idx[0] > size then TailStaysLinked(size, idx[1..], linked)
    else if idx[0] == size then linked
    else TailStaysLinked(size - 1, idx[1..], (linked && idx[0] != size - 1) || size <= 3)
  }

  lemma {:induction false} IndicesPastSize(size: int, idx: seq<int>, linked: bool)
    requires forall i :: 0 <= i < |idx| ==> idx[i] > size
    ensures TailStaysLinked(size, idx, linked)
    decreases |idx|
  {
    if idx != [] {
      IndicesPastSize(size, idx[1..], linked);
    }
  }

  /**
   * Strictly increasing indices keep the tail linked back whenever it
   * matters: once a deletion at `size - 1` removes the node the tail links
   * back to, the next index is past the new size, and so is every later one.
   */
  lemma {:induction false} IncreasingIndicesKeepTail(size: int, idx: seq<int>, linked: bool)
    requires forall i, j :: 0 <= i < j < |idx| ==> idx[i] < idx[j]
    requires linked || idx == [] || idx[0] > size
    ensures TailStaysLinked(size, idx, linked)
    decreases |idx|
  {
    if idx != [] {
      if idx[0] <= 0 || idx[0] > size {
        IncreasingIndicesKeepTail(size, idx[1..], linked);
      } else if idx[0] != size {
        IncreasingIndicesKeepTail(size - 1, idx[1..], (linked && idx[0] != size - 1) || size <= 3);
      }
    }
  }

  /**
   * The state of the deletion loop: the forward ring ending at `tail`, or,
   * once the tail was deleted, the bookkeeping with every index still to
   * come beyond the size.
   */
  ghost predicate DeleteLoopState<T>(cdll: List<T>, sorted: seq<int>, p: int)
    reads cdll, cdll.repr
    requires 0 <= p <= |sorted|
  {
    cdll.Valid() ||
    (cdll.Shape() && cdll.tail !in cdll.nodes && forall q :: p <= q < |sorted| ==> sorted[q] > cdll.size)
  }

  /**
   * One turn of the loop of `delete_cdll_multiple_elements`: skip the index
   * or delete at it, with `cur` the payloads `DeleteMany` has reached. While
   * `live`, the list holds exactly `cur`, and `linked` means the tail links
   * back to the node before it. After the tail was deleted every later
   * index, being no smaller, exceeds the size and is skipped; the list stops
   * being `live` when the tail was deleted through a `prev` that was not the
   * node before it.
   */
  method DeleteStep<T>(cdll: List<T>, ghost start: seq<T>, sorted: seq<int>, p: int,
                       results: seq<MultipleElementsHandler<T>>, skipped: seq<int>,
                       ghost cur: seq<T>, ghost live: bool, ghost linked: bool)
    returns (results': seq<MultipleElementsHandler<T>>, skipped': seq<int>,
             ghost cur': seq<T>, ghost live': bool, ghost linked': bool)
    requires 0 <= p < |sorted| && forall i, j :: 0 <= i < j < |sorted| ==> sorted[i] <= sorted[j]
    requires cdll.size == |cur| && DeleteProgress(start, sorted, p, cur, results, skipped)
    requires live ==> DeleteLoopState(cdll, sorted, p) && cdll.Elements() == cur
    requires !live ==> forall q :: p <= q < |sorted| ==> sorted[q] > cdll.size
    requires live && linked ==> cdll.TailLinkedBack()
    modifies cdll, cdll.repr
    ensures cdll.repr == old(cdll.repr) && cdll.size == |cur'|
    ensures DeleteProgress(start, sorted, p + 1, cur', results', skipped')
    ensures live' ==> DeleteLoopState(cdll, sorted, p + 1) && cdll.Elements() == cur'
    ensures !live' ==> forall q :: p + 1 <= q < |sorted| ==> sorted[q] > cdll.size
    ensures live' && linked' ==> cdll.TailLinkedBack()
    ensures live && TailStaysLinked(old(cdll.size), sorted[p..], linked) ==>
      live' && TailStaysLinked(cdll.size, sorted[p + 1..], linked')
  {
    var index := sorted[p];
    assert sorted[p..][1..] == sorted[p + 1..];
    if index <= 0 || index > cdll.size {
      DeleteProgressSkip(start, sorted, p, cur, results, skipped);
      return results, skipped + [index], cur, live, linked;
    }
    ghost var ns := cdll.nodes;
    ghost var tb := cdll.TailLinkedBack();
    var node := DeleteIndex(cdll, index);
    RemovedPayloads(ns, index);
    DeleteProgressApply(start, sorted, p, cur, results, skipped);
    results' := results + [MultipleElementsHandler(index, node.data)];
    skipped' := skipped;
    cur' := RemoveAt(cur, index);
    live' := index < |ns| || tb;
    if index == |ns| {
      linked' := false;
      assert forall q :: p < q < |sorted| ==> sorted[q] > cdll.size;
      IndicesPastSize(cdll.size, sorted[p + 1..], linked');
    } else {
      linked' := (linked && index != |ns| - 1) || |ns| <= 3;
    }
  }

  /**
   * `delete_cdll_multiple_elements`: ValueError when there is no head;
   * otherwise the indices, sorted, are applied as `DeleteMany` describes,
   * each result pairing an index with the payload deleted at it, and the
   * size drops by one per deletion. The list holds the payloads `DeleteMany`
   * leaves whenever the tail is linked back to the node before it each time
   * the tail is deleted (`TailStaysLinked`). Deleting at the size leaves
   * `tail` on the removed node.
   */
  method DeleteCdllMultipleElements<T>(cdll: List<T>, indices: seq<int>)
    returns (r: Result<(seq<MultipleElementsHandler<T>>, seq<int>)>)
    requires cdll.Valid()
    modifies cdll, cdll.repr
    ensures r.Err? <==> old(cdll.nodes) == []
    ensures r.Err? ==> r.error == ValueError && unchanged(cdll)
    ensures r.Ok? ==>
      var o := DeleteMany(old(cdll.Elements()), SortIndices(indices));
      r.value.0 == o.deleted && r.value.1 == o.skipped && cdll.size == |o.elements|
    ensures r.Ok? && TailStaysLinked(old(cdll.size), SortIndices(indices), old(cdll.TailLinkedBack())) ==>
      (cdll.Valid() || (cdll.Shape() && cdll.tail !in cdll.nodes)) &&
      cdll.Elements() == DeleteMany(old(cdll.Elements()), SortIndices(indices)).elements
  {
    if cdll.head == null {
      return Err(ValueError);
    }
    ghost var start := cdll.Elements();
    ghost var linked := cdll.TailLinkedBack();
    var sorted := SortIndices(indices);
    SortIndicesSorts(indices);
    var results: seq<MultipleElementsHandler<T>> := [];
    var skipped: seq<int> := [];
    ghost var cur := start;
    ghost var live := true;
    ghost var tracked := linked;
    DeleteProgressStart(start, sorted);
    assert sorted[0..] == sorted;
    var p := 0;
    while p < |sorted|
      invariant 0 <= p <= |sorted| && cdll.repr == old(cdll.repr) && cdll.size == |cur|
      invariant DeleteProgress(start, sorted, p, cur, results, skipped)
      invariant live ==> DeleteLoopState(cdll, sorted, p) && cdll.Elements() == cur
      invariant !live ==> forall q :: p <= q < |sorted| ==> sorted[q] > cdll.size
      invariant live && tracked ==> cdll.TailLinkedBack()
      invariant TailStaysLinked(|start|, sorted, linked) ==> live && TailStaysLinked(cdll.size, sorted[p..], tracked)
    {
      results, skipped, cur, live, tracked := DeleteStep(cdll, start, sorted, p, results, skipped, cur, live, tracked);
      p := p + 1;
    }
    DeleteProgressEnd(start, sorted, cur, results, skipped);
    r := Ok((results, skipped));
  }

  /**
   * `get_element_at_index`: None when uninitialized, IndexError outside
   * 1..size, else the node at `index`. The walk follows only `next`, so the
   * forward ring suffices, whatever `tail` names.
   */
  method GetElementAtIndex<T>(index: int, cdll: List<T>) returns (r: Result<Option<Node<T>>>)
    requires cdll.Chain()
    ensures !cdll.initialized ==> r == Ok(None)
    ensures cdll.initialized && (index < 1 || index > cdll.size) ==> r == Err(IndexError)
    ensures cdll.initialized && 1 <= index <= cdll.size ==> r == Ok(Some(cdll.nodes[index - 1]))
  {
    if !cdll.initialized || cdll.head == null {
      return Ok(None);
    }
    if index < 1 || index > cdll.size {
      return Err(IndexError);
    }
    var current: Node<T> := cdll.head;
    var hops := 0;
    while hops < index - 1
      invariant 0 <= hops <= index - 1 && current == cdll.nodes[hops]
    {
      assert current.next == cdll.nodes[hops + 1];
      current := current.next;
      hops := hops + 1;
    }
    r := Ok(Some(current));
  }

  /**
   * `shallow_clear_doubly_linked_list`: the tail's link, if there is a tail,
   * is set to None and the container forgets its nodes.
   */
  method ShallowClearDoublyLinkedList<T>(cdll: List<T>)
    modifies cdll, cdll.tail
    ensures old(cdll.tail) != null ==> old(cdll.tail).next == null
    ensures cdll.PrevLinked() && cdll.nodes == [] && cdll.repr == old(cdll.repr)
    ensures cdll.head == null && cdll.tail == null && cdll.size == 0 && !cdll.initialized
  {
    cdll.head := null;
    if cdll.tail != null {
      cdll.tail.next := null;
    }
    cdll.tail := null;
    cdll.size := 0;
    cdll.initialized := false;
    cdll.nodes := [];
  }

  /**
   * `deep_clear_doubly_linked_list`: returns at once on an uninitialized
   * list; otherwise walks the ring setting every `next` to None, counting
   * the size down and re-pointing the tail at the next node (None once one
   * is left), then empties the container. No `prev` link changes.
   */
  method DeepClearDoublyLinkedList<T>(cdll: List<T>)
    requires cdll.Valid()
    modifies cdll, cdll.repr
    ensures cdll.PrevLinked() && cdll.nodes == [] && cdll.repr == old(cdll.repr)
    ensures cdll.head == null && cdll.tail == null && cdll.size == 0 && !cdll.initialized
    ensures forall n :: n in old(cdll.nodes) ==> n.next == null
    ensures forall n :: n in old(cdll.repr) ==> n.prev == old(n.prev)
  {
    if !cdll.initialized || cdll.head == null {
      return;
    }
    ghost var ns := cdll.nodes;
    ghost var k := |ns|;
    var current := cdll.head;
    ghost var i := 0;
    while current != null
      invariant 0 <= i <= k && current == (if i < k then ns[i] else null)
      invariant cdll.tail == ns[k - 1] && cdll.size == k - i && cdll.nodes == ns && Distinct(ns)
      invariant cdll.repr == old(cdll.repr) && forall j :: 0 <= j < k ==> ns[j] in cdll.repr
      invariant forall j :: 0 <= j < i && j < k - 1 ==> ns[j].next == null
      invariant forall j :: i <= j < k - 1 ==> ns[j].next == ns[j + 1]
      invariant i == 0 ==> k == 1 ==> ns[0].next == null
      invariant i > 0 ==> cdll.tail.next == if k - i == 1 then null else current
      invariant forall n :: n in old(cdll.repr) ==> n.prev == old(n.prev)
      decreases k - i
    {
      var nextNode := current.next;
      current.next := null;
      current := nextNode;
      cdll.size := cdll.size - 1;
      if cdll.size == 1 && cdll.tail != null {
        cdll.tail.next := null;
      } else if cdll.tail != null {
        cdll.tail.next := current;
      }
      i := i + 1;
    }
    cdll.head := null;
    cdll.tail := null;
    cdll.size := 0;
    cdll.initialized := false;
    cdll.nodes := [];
  }
}
