/** `DoublyLinkedList` and `DoublyLinkedListNode`: the records the doubly operations update. */
module DoublyLinkedList {
  import opened Sequences

  class Node<T> {
    const data: T
    var next: Node?<T>
    var prev: Node?<T>

    constructor (data: T)
      ensures this.data == data && next == null && prev == null
    {
      this.data := data;
      next := null;
      prev := null;
    }
  }

  /** The payloads of a sequence of nodes, in order. */
  function Payloads<T>(ns: seq<Node<T>>): seq<T>
  {
    seq(|ns|, i requires 0 <= i < |ns| => ns[i].data)
  }

  /** Each node links forward to the one after it. */
  ghost predicate Linked<T>(ns: seq<Node<T>>)
    reads ns
  {
    forall i {:trigger ns[i].next} :: 0 <= i < |ns| - 1 ==> ns[i].next == ns[i + 1]
  }

  /** Each node but the first links back to the one before it. */
  ghost predicate BackLinked<T>(ns: seq<Node<T>>)
    reads ns
  {
    forall i {:trigger ns[i].prev} :: 1 <= i < |ns| ==> ns[i].prev == ns[i - 1]
  }

  class List<T> {
    var head: Node?<T>
    var tail: Node?<T>
    var size: int
    var initialized: bool
    /** `dll_node`: declared by the record, read or written by no operation. */
    var dllNode: Node?<T>
    /** The linked nodes, head first. */
    ghost var nodes: seq<Node<T>>
    /** Every node the list has held: the linked ones and any removed node still reachable through a link. */
    ghost var repr: set<Node<T>>

    /**
     * `size` counts the nodes, the flag says whether there are any, `head`
     * and `tail` are the first and last node, the links run both ways
     * between neighbours and the tail's `next` is None. The head's `prev` is
     * None or a node that has left the list: removing the head does not
     * clear the new head's `prev`.
     */
    ghost predicate Valid()
      reads this, repr
    {
      (forall i :: 0 <= i < |nodes| ==> nodes[i] in repr) &&
      Ends() && Linked(nodes) && BackLinked(nodes) && Distinct(nodes)
    }

    ghost predicate Ends()
      reads this, repr
      requires forall i :: 0 <= i < |nodes| ==> nodes[i] in repr
    {
      size == |nodes| &&
      (initialized <==> nodes != []) &&
      (nodes == [] ==> head == null && tail == null) &&
      (nodes != [] ==> head == nodes[0] && tail == nodes[|nodes| - 1] && tail.next == null) &&
      (nodes != [] ==> head.prev == null || (head.prev in repr && forall i :: 0 <= i < |nodes| ==> nodes[i] != head.prev))
    }

    ghost function Elements(): seq<T>
      reads this
    {
      Payloads(nodes)
    }

    constructor ()
      ensures Valid() && nodes == [] && repr == {}
      ensures head == null && tail == null && size == 0 && !initialized && dllNode == null
    {
      head := null;
      tail := null;
      size := 0;
      initialized := false;
      dllNode := null;
      nodes := [];
      repr := {};
    }
  }
}
