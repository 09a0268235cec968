/** `SinglyLinkedListNode` and `SinglyLinkedList`: the records the singly operations update. */
module SinglyLinkedList {
  import opened Sequences

  class Node<T> {
    const data: T
    var next: Node?<T>

    constructor (data: T)
      ensures this.data == data && next == null
    {
      this.data := data;
      next := null;
    }
  }

  /** The payloads of a sequence of nodes, in order. */
  function Payloads<T>(ns: seq<Node<T>>): seq<T>
  {
    seq(|ns|, i requires 0 <= i < |ns| => ns[i].data)
  }

  lemma PayloadsOfSlices<T>(ns: seq<Node<T>>, i: int, j: int)
    requires 0 <= i <= j <= |ns|
    ensures Payloads(ns[i..j]) == Payloads(ns)[i..j]
  {
  }

  lemma PayloadsOfConcat<T>(a: seq<Node<T>>, b: seq<Node<T>>)
    ensures Payloads(a + b) == Payloads(a) + Payloads(b)
  {
  }

  /** Each node links to the one after it. */
  ghost predicate Linked<T>(ns: seq<Node<T>>)
    reads set n | n in ns
  {
    forall i {:trigger ns[i].next} :: 0 <= i < |ns| - 1 ==> ns[i].next == ns[i + 1]
  }

  class List<T> {
    var head: Node?<T>
    var tail: Node?<T>
    var size: int
    var initialized: bool
    /** `sll_node`: declared by the record, read or written by no operation. */
    var sllNode: Node?<T>
    /** The linked nodes, head first, and the same nodes as a set. */
    ghost var nodes: seq<Node<T>>

    /**
     * `size` counts the nodes, the flag says whether there are any, `head`
     * and `tail` are the first and last node, each node links to the next
     * one, and the tail's link is None.
     */
    ghost predicate Valid()
      reads this, Repr()
    {
      Ends() && Linked(nodes) && Distinct(nodes)
    }

    ghost predicate Ends()
      reads this, Repr()
    {
      size == |nodes| &&
      (initialized <==> nodes != []) &&
      (nodes == [] ==> head == null && tail == null) &&
      (nodes != [] ==> head == nodes[0] && tail == nodes[|nodes| - 1] && tail.next == null)
    }

    ghost function Repr(): set<Node<T>>
      reads this
    {
      set n | n in nodes
    }

    ghost function Elements(): seq<T>
      reads this
    {
      Payloads(nodes)
    }

    constructor ()
      ensures Valid() && nodes == []
      ensures head == null && tail == null && size == 0 && !initialized && sllNode == null
    {
      head := null;
      tail := null;
      size := 0;
      initialized := false;
      sllNode := null;
      nodes := [];
    }
  }
}
