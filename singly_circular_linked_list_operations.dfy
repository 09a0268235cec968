/**
 * The `singly_circular_linked_list` package: a second copy of the circular
 * singly operations under the `sll` names, on records with the same fields.
 * Every operation here runs the circular singly operation it copies, and
 * repeats that operation's contract under the copy's name.
 *
 * The copy's `deep_clear_singly_linked_list` differs: it never counts the
 * size down. `TwinDeepClearStep` models one turn of its loop on a ring of
 * node numbers, and `TwinDeepClearNeverEnds` shows that on every ring of
 * two or more nodes the cursor never becomes None. `DeepClearSinglyLinkedList`
 * below clears as the circular singly copy does.
 */
module SinglyCircularLinkedListOperations {
  import opened Wrappers
  import opened LinkedListUtilities
  import opened BatchSemantics
  import opened CircularSinglyLinkedList
  import Csll = CircularSinglyLinkedListOperations

  /** `initialize_sll`: the list becomes the one fresh node holding `data`, which links to None. */
  method InitializeSll<T>(sll: List<T>, data: T) returns (node: Node<T>)
    modifies sll
    ensures fresh(node) && node.data == data && node.next == null
    ensures sll.Ring() && sll.nodes == [node]
    ensures sll.head == node && sll.tail == node && sll.size == 1 && sll.initialized
  {
    node := Csll.InitializeCsll(sll, data);
  }

  /** `insert_sll_element`: appends, closing the ring through the new tail. */
  method InsertSllElement<T>(sll: List<T>, element: T) returns (node: Node<T>)
    requires sll.Valid()
    modifies sll, sll.Repr()
    ensures sll.Ring() && fresh(node) && node.data == element
    ensures sll.nodes == old(sll.nodes) + [node]
    ensures sll.tail == node && sll.size == old(sll.size) + 1
    ensures old(sll.initialized) ==> sll.head == old(sll.head) && old(sll.tail).next == node
  {
    node := Csll.InsertCsllElement(sll, element);
  }

  /** `insert_sll_first_element`: prepends, the tail linking to the new head. */
  method InsertSllFirstElement<T>(sll: List<T>, element: T) returns (node: Node<T>)
    requires sll.Valid()
    modifies sll, sll.Repr()
    ensures sll.Ring() && fresh(node) && node.data == element
    ensures sll.nodes == [node] + old(sll.nodes)
    ensures sll.head == node && sll.size == old(sll.size) + 1
    ensures old(sll.initialized) ==> sll.tail == old(sll.tail)
  {
    node := Csll.InsertCsllFirstElement(sll, element);
  }

  /** `insert_sll_nth_element`: IndexError outside 1..size + 1, else the new node at `index`. */
  method InsertSllNthElement<T>(sll: List<T>, element: T, index: int) returns (r: Result<Node<T>>)
    requires sll.Valid()
    modifies sll, sll.Repr()
    ensures sll.Valid()
    ensures r.Err? <==> index <= 0 || index > old(sll.size) + 1
    ensures r.Err? ==> r.error == IndexError && unchanged(sll) && unchanged(sll.nodes)
    ensures r.Ok? ==> fresh(r.value) && r.value.data == element
    ensures r.Ok? ==> sll.nodes == old(sll.nodes[..index - 1]) + [r.value] + old(sll.nodes[index - 1..])
    ensures old(sll.Ring()) ==> sll.Ring()
  {
    r := Csll.InsertCsllNthElement(sll, element, index);
  }

  /** `insert_sll_multiple_elements`: ValueError on an empty list, else the sorted handlers applied as `InsertMany` says. */
  method InsertSllMultipleElements<T>(sll: List<T>, handlers: seq<MultipleElementsHandler<T>>)
    returns (r: Result<(seq<Node<T>>, seq<MultipleElementsHandler<T>>)>)
    requires sll.Valid()
    modifies sll, sll.Repr()
    ensures sll.Valid()
    ensures r.Err? <==> old(sll.nodes) == []
    ensures r.Err? ==> r.error == ValueError && unchanged(sll)
    ensures r.Ok? ==>
      var o := InsertMany(old(sll.Elements()), SortListMultipleElementsHandlers(handlers));
      r.value.1 == o.skipped && sll.Elements() == o.elements && Payloads(r.value.0) == ElementsOf(o.inserted)
    ensures r.Ok? ==> forall n :: n in r.value.0 ==> fresh(n) && n in sll.Repr()
    ensures old(sll.Ring()) ==> sll.Ring()
  {
    r := Csll.InsertCsllMultipleElements(sll, handlers);
  }

  /** `delete_sll_first_element`: None when empty, else the old head; the tail keeps its link. */
  method DeleteSllFirstElement<T>(sll: List<T>) returns (deleted: Node?<T>)
    requires sll.Valid()
    modifies sll, sll.Repr()
    ensures sll.Valid()
    ensures old(sll.nodes) == [] ==> deleted == null && unchanged(sll)
    ensures old(sll.nodes) != [] ==> deleted == old(sll.head) && sll.nodes == old(sll.nodes[1..])
    ensures deleted != null ==> deleted.next == if sll.nodes == [] then null else sll.nodes[0]
    ensures |sll.nodes| <= 1 ==> sll.Ring()
    ensures |sll.nodes| >= 2 ==> sll.tail.next == old(sll.tail.next)
    ensures old(sll.Ring()) && |sll.nodes| >= 2 ==> sll.tail.next == deleted && !sll.Ring()
  {
    deleted := Csll.DeleteCsllFirstElement(sll);
  }

  /** `delete_sll_last_element`: None when empty, else the old tail; its predecessor takes over its link. */
  method DeleteSllLastElement<T>(sll: List<T>) returns (deleted: Node?<T>)
    requires sll.Valid()
    modifies sll, sll.Repr()
    ensures sll.Valid()
    ensures old(sll.nodes) == [] ==> deleted == null && unchanged(sll)
    ensures old(sll.nodes) != [] ==> deleted == old(sll.tail) && deleted.next == old(sll.tail.next)
    ensures old(sll.nodes) != [] ==> sll.nodes == old(sll.nodes[..|sll.nodes| - 1])
    ensures |sll.nodes| >= 2 ==> sll.tail.next == old(sll.tail.next)
    ensures old(sll.Ring()) ==> sll.Ring()
  {
    deleted := Csll.DeleteCsllLastElement(sll);
  }

  /** `delete_sll_nth_element`: IndexError outside 1..size, else the node at `index` is removed and returned. */
  method DeleteSllNthElement<T>(sll: List<T>, index: int) returns (r: Result<Node<T>>)
    requires sll.Valid()
    modifies sll, sll.Repr()
    ensures sll.Valid()
    ensures r.Err? <==> index <= 0 || index > old(sll.size)
    ensures r.Err? ==> r.error == IndexError && unchanged(sll)
    ensures r.Ok? ==> r.value == old(sll.nodes[index - 1]) && sll.nodes == old(RemoveAt(sll.nodes, index))
    ensures index != 1 && old(sll.Ring()) ==> sll.Ring()
  {
    r := Csll.DeleteCsllNthElement(sll, index);
  }

  /** `delete_sll_multiple_elements`: ValueError on an empty list, else the sorted indices applied as `DeleteMany` says. */
  method DeleteSllMultipleElements<T>(sll: List<T>, indices: seq<int>)
    returns (r: Result<(seq<MultipleElementsHandler<T>>, seq<int>)>)
    requires sll.Valid()
    modifies sll, sll.Repr()
    ensures sll.Valid()
    ensures r.Err? <==> old(sll.nodes) == []
    ensures r.Err? ==> r.error == ValueError && unchanged(sll)
    ensures r.Ok? ==>
      var o := DeleteMany(old(sll.Elements()), SortIndices(indices));
      r.value.0 == o.deleted && r.value.1 == o.skipped && sll.Elements() == o.elements
  {
    r := Csll.DeleteCsllMultipleElements(sll, indices);
  }

  /** `get_element_at_index`: None when uninitialized, IndexError outside 1..size, else the node at `index`. */
  method GetElementAtIndex<T>(index: int, sll: List<T>) returns (r: Result<Option<Node<T>>>)
    requires sll.Valid()
    ensures !sll.initialized ==> r == Ok(None)
    ensures sll.initialized && (index < 1 || index > sll.size) ==> r == Err(IndexError)
    ensures sll.initialized && 1 <= index <= sll.size ==> r == Ok(Some(sll.nodes[index - 1]))
  {
    r := Csll.GetElementAtIndex(index, sll);
  }

  /** `shallow_clear_singly_linked_list`: the old tail's link is set to None and the container is emptied. */
  method ShallowClearSinglyLinkedList<T>(sll: List<T>)
    requires sll.tail != null
    modifies sll, sll.tail
    ensures old(sll.tail).next == null
    ensures sll.Valid() && sll.nodes == []
    ensures sll.head == null && sll.tail == null && sll.size == 0 && !sll.initialized
  {
    Csll.ShallowClearSinglyLinkedList(sll);
  }

  /** `deep_clear_singly_linked_list` as intended: every node's link set to None, the container emptied. */
  method DeepClearSinglyLinkedList<T>(sll: List<T>)
    requires sll.Valid()
    modifies sll, sll.Repr()
    ensures sll.Valid() && sll.nodes == []
    ensures sll.head == null && sll.tail == null && sll.size == 0 && !sll.initialized
    ensures forall n :: n in old(sll.nodes) ==> n.next == null
  {
    Csll.DeepClearSinglyLinkedList(sll);
  }

  /**
   * The links of the nodes numbered 0..k-1, head first: `next[j]` is the
   * number of the node `j` links to, -1 for None; `current` is the cursor.
   */
  datatype ClearState = ClearState(next: seq<int>, current: int)

  /** The closed ring of `k` nodes, the cursor on the head. */
  function RingOf(k: nat): ClearState
  {
    ClearState(seq(k, j => if j == k - 1 then 0 else j + 1), 0)
  }

  /**
   * One turn of the copy's deep-clear loop, with the tail numbered `tail`
   * and `size` left as it was: the cursor's link is read and cleared, the
   * cursor moves on, and the tail is pointed at the new cursor (None when
   * the size is 1). A cursor at None or out of range ends the loop.
   */
  function TwinDeepClearStep(st: ClearState, size: int, tail: int): (st': ClearState)
    ensures |st'.next| == |st.next|
    ensures 0 <= st.current < |st.next| && 0 <= tail < |st.next| ==>
      st'.current == st.next[st.current] && st'.next[st.current] == (if st.current == tail then st'.next[tail] else -1)
  {
    if 0 <= st.current < |st.next| && 0 <= tail < |st.next| then
      var nextNode := st.next[st.current];
      var cleared := st.next[st.current := -1];
      ClearState(cleared[tail := if size == 1 then -1 else nextNode], nextNode)
    else st
  }

  /** `n` turns of the copy's deep-clear loop, stopping early once the cursor is None. */
  function TwinDeepClearRun(st: ClearState, size: int, tail: int, n: nat): ClearState
    decreases n
  {
    if n == 0 || st.current == -1 then st else TwinDeepClearRun(TwinDeepClearStep(st, size, tail), size, tail, n - 1)
  }

  /**
   * The loop's state after `i` turns on a ring of `k` nodes: the first `i`
   * links are cleared, the rest still chain forward, the tail links to the
   * cursor, and the cursor is node `i`.
   */
  ghost predicate TwinClearAfter(st: ClearState, k: int, i: int)
  {
    2 <= k && 0 <= i < k && |st.next| == k && st.current == i && st.next[k - 1] == i &&
    (forall j :: 0 <= j < i ==> st.next[j] == -1) &&
    (forall j :: i <= j < k - 1 ==> st.next[j] == j + 1)
  }

  /**
   * On a ring of two or more nodes the copy's deep clear never finishes:
   * after any number of turns its cursor is a node, the tail once it gets
   * there, and never None.
   */
  lemma {:induction false} TwinDeepClearNeverEnds(k: nat, n: nat)
    requires k >= 2
    ensures var st := TwinDeepClearRun(RingOf(k), k, k - 1, n);
      st.current == (if n < k - 1 then n else k - 1) && st.current != -1
  {
    TwinDeepClearRunFrom(RingOf(k), k, 0, n);
  }

  /** From the state after `i` turns, `n` more lead to the state after `i + n` turns, or stay on the tail. */
  lemma {:induction false} TwinDeepClearRunFrom(st: ClearState, k: int, i: int, n: nat)
    requires TwinClearAfter(st, k, i)
    ensures TwinClearAfter(TwinDeepClearRun(st, k, k - 1, n), k, if i + n < k - 1 then i + n else k - 1)
    decreases n
  {
    if n > 0 {
      TwinDeepClearRunFrom(TwinDeepClearStep(st, k, k - 1), k, if i < k - 1 then i + 1 else i, n - 1);
    }
  }

  /** The two-node ring: one turn clears the head and leaves the tail linked to itself, where the loop stays. */
  lemma TwinDeepClearTwoNodes()
    ensures TwinDeepClearStep(RingOf(2), 2, 1) == ClearState([-1, 1], 1)
    ensures TwinDeepClearStep(ClearState([-1, 1], 1), 2, 1) == ClearState([-1, 1], 1)
  {
    assert RingOf(2).next == [1, 0];
  }
}
