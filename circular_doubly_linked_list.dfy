/**
 * `CircularDoublyLinkedList` and `CircularDoublyLinkedListNode`: the records
 * the circular doubly operations update.
 *
 * The operations keep the forward ring exact (the tail links to the head, a
 * single node links to None) but not the backward one: a middle insertion or
 * deletion rewrites only `next`, and removing the tail leaves the list's
 * `tail` field on the removed node. So the container has three levels:
 * `Shape` (the bookkeeping), `Chain` (the forward ring) and `Valid` (the
 * ring ending at `tail`). `PrevLinked` adds the backward ring where the
 * operations keep it, and `TailLinkedBack` only the tail's `prev`, which
 * is what removing the tail relies on.
 */
module CircularDoublyLinkedList {
  import opened Sequences

  class Node<T> {
    const data: T
    var next: Node?<T>
    var prev: Node?<T>

    /** A new node links to None both ways, not to itself. */
    constructor (data: T)
      ensures this.data == data && next == null && prev == null
    {
      this.data := data;
      next := null;
      prev := null;
    }
  }

  /** The payloads of a sequence of nodes, in order. */
  function Payloads<T>(ns: seq<Node<T>>): seq<T>
  {
    seq(|ns|, i requires 0 <= i < |ns| => ns[i].data)
  }

  lemma PayloadsOfSlices<T>(ns: seq<Node<T>>, i: int, j: int)
    requires 0 <= i <= j <= |ns|
    ensures Payloads(ns[i..j]) == Payloads(ns)[i..j]
  {
  }

  lemma PayloadsOfConcat<T>(a: seq<Node<T>>, b: seq<Node<T>>)
    ensures Payloads(a + b) == Payloads(a) + Payloads(b)
  {
  }

  /** Each node links forward to the one after it. */
  ghost predicate Linked<T>(ns: seq<Node<T>>)
    reads ns
  {
    forall i {:trigger ns[i].next} :: 0 <= i < |ns| - 1 ==> ns[i].next == ns[i + 1]
  }

  /** Each node but the first links back to the one before it. */
  ghost predicate BackLinked<T>(ns: seq<Node<T>>)
    reads ns
  {
    forall i {:trigger ns[i].prev} :: 1 <= i < |ns| ==> ns[i].prev == ns[i - 1]
  }

  class List<T> {
    var head: Node?<T>
    var tail: Node?<T>
    var size: int
    var initialized: bool
    /** The linked nodes, head first. */
    ghost var nodes: seq<Node<T>>
    /** Every node the list has held: the linked ones and any removed node still reachable through a link. */
    ghost var repr: set<Node<T>>

    /**
     * `size` counts the nodes, the flag says whether there are any and
     * `head` is the first; `tail` is the last node or one the list has
     * held before.
     */
    ghost predicate Shape()
      reads this, repr
    {
      (forall i :: 0 <= i < |nodes| ==> nodes[i] in repr) &&
      size == |nodes| &&
      (initialized <==> nodes != []) &&
      (nodes == [] ==> head == null && tail == null) &&
      (nodes != [] ==> head == nodes[0] && tail != null && tail in repr) &&
      (nodes != [] ==> tail == nodes[|nodes| - 1] || tail !in nodes) &&
      Distinct(nodes)
    }

    /**
     * The forward ring: each node links to the next, the last one to the
     * head, and a single node to None both ways. The tail's links are None
     * or nodes of the list's history, so a `tail` left on a removed node can
     * still be written through.
     */
    ghost predicate Chain()
      reads this, repr
    {
      Shape() && Linked(nodes) &&
      (|nodes| == 1 ==> nodes[0].next == null && nodes[0].prev == null) &&
      (|nodes| >= 2 ==> nodes[|nodes| - 1].next == nodes[0]) &&
      (nodes != [] ==> (tail.prev == null || tail.prev in repr) && (tail.next == null || tail.next in repr))
    }

    /** The forward ring, ending at `tail`. */
    ghost predicate Valid()
      reads this, repr
    {
      Chain() && (nodes != [] ==> tail == nodes[|nodes| - 1])
    }

    /** The backward ring as well: each node links back to the one before, the head to the tail. */
    ghost predicate PrevLinked()
      reads this, repr
    {
      Valid() && BackLinked(nodes) && (|nodes| >= 2 ==> head.prev == tail)
    }

    /**
     * The ring, with the tail linking back to the node before it once there
     * are three nodes or more: only then does unlinking the tail through
     * its own `prev` leave the ring of the other nodes.
     */
    ghost predicate TailLinkedBack()
      reads this, repr
    {
      Valid() && (|nodes| >= 3 ==> tail.prev == nodes[|nodes| - 2])
    }

    ghost function Elements(): seq<T>
      reads this
    {
      Payloads(nodes)
    }

    constructor ()
      ensures PrevLinked() && nodes == [] && repr == {}
      ensures head == null && tail == null && size == 0 && !initialized
    {
      head := null;
      tail := null;
      size := 0;
      initialized := false;
      nodes := [];
      repr := {};
    }
  }

  /**
   * A ring of two or more nodes ending at `tail` is `Valid`: the nodes are
   * distinct members of `repr`, each links to the next, the last one, the
   * tail, to the head, and the tail's `prev` is None or a member of `repr`.
   */
  lemma RingValid<T>(l: List<T>)
    requires |l.nodes| >= 2 && Distinct(l.nodes) && forall i :: 0 <= i < |l.nodes| ==> l.nodes[i] in l.repr
    requires l.size == |l.nodes| && l.initialized && l.head == l.nodes[0] && l.tail == l.nodes[|l.nodes| - 1]
    requires Linked(l.nodes) && l.tail.next == l.head && (l.tail.prev == null || l.tail.prev in l.repr)
    ensures l.Valid()
    ensures BackLinked(l.nodes) && l.head.prev == l.tail ==> l.PrevLinked()
  {
  }
}
