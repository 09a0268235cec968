/**
 * `CircularSinglyLinkedListNode` and `CircularSinglyLinkedList`: the records
 * the circular singly operations update. The twin package's
 * `SinglyCircularLinkedListNode` and `SinglyCircularLinkedList` have the same
 * fields (its flag is called `sll_initialized`), so they are the same classes here.
 */
module CircularSinglyLinkedList {
  import opened Sequences

  class Node<T> {
    const data: T
    var next: Node?<T>

    /** A new node links to None, not to itself. */
    constructor (data: T)
      ensures this.data == data && next == null
    {
      this.data := data;
      next := null;
    }
  }

  /** The payloads of a sequence of nodes, in order. */
  function Payloads<T>(ns: seq<Node<T>>): seq<T>
  {
    seq(|ns|, i requires 0 <= i < |ns| => ns[i].data)
  }

  lemma PayloadsOfSlices<T>(ns: seq<Node<T>>, i: int, j: int)
    requires 0 <= i <= j <= |ns|
    ensures Payloads(ns[i..j]) == Payloads(ns)[i..j]
  {
  }

  lemma PayloadsOfConcat<T>(a: seq<Node<T>>, b: seq<Node<T>>)
    ensures Payloads(a + b) == Payloads(a) + Payloads(b)
  {
  }

  /** Each node links to the one after it. */
  ghost predicate Linked<T>(ns: seq<Node<T>>)
    reads set n | n in ns
  {
    forall i {:trigger ns[i].next} :: 0 <= i < |ns| - 1 ==> ns[i].next == ns[i + 1]
  }

  lemma LinkedSlice<T>(ns: seq<Node<T>>, i: int, j: int)
    requires Linked(ns) && 0 <= i <= j <= |ns|
    ensures Linked(ns[i..j])
  {
    forall k | 0 <= k < j - i - 1 ensures ns[i..j][k].next == ns[i..j][k + 1] {
      assert ns[i + k].next == ns[i + k + 1];
    }
  }

  class List<T> {
    var head: Node?<T>
    var tail: Node?<T>
    var size: int
    var initialized: bool
    /** The linked nodes, head first. */
    ghost var nodes: seq<Node<T>>

    /**
     * `size` counts the nodes, the flag says whether there are any, `head`
     * and `tail` are the first and last node and each node links to the next
     * one. A single node links to None. With two or more nodes the tail links
     * to the head, or to a node that has left the list: removing the head
     * does not re-point the tail.
     */
    ghost predicate Valid()
      reads this, Repr()
    {
      Ends() && Linked(nodes) && Distinct(nodes)
    }

    ghost predicate Ends()
      reads this, Repr()
    {
      size == |nodes| &&
      (initialized <==> nodes != []) &&
      (nodes == [] ==> head == null && tail == null) &&
      (nodes != [] ==> head == nodes[0] && tail == nodes[|nodes| - 1]) &&
      (|nodes| == 1 ==> tail.next == null) &&
      (|nodes| >= 2 ==> tail.next == head || tail.next !in nodes)
    }

    /** The ring is closed: with two or more nodes the tail links to the head. */
    ghost predicate Ring()
      reads this, Repr()
    {
      Valid() && (|nodes| >= 2 ==> tail.next == head)
    }

    ghost function Repr(): set<Node<T>>
      reads this
    {
      set n | n in nodes
    }

    ghost function Elements(): seq<T>
      reads this
    {
      Payloads(nodes)
    }

    constructor ()
      ensures Valid() && Ring() && nodes == []
      ensures head == null && tail == null && size == 0 && !initialized
    {
      head := null;
      tail := null;
      size := 0;
      initialized := false;
      nodes := [];
    }
  }
}
