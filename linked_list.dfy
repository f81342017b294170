/** The doubly linked list of the data-collection code (DoubleLinkedList.hpp):
    nodes are appended at the tail and removed from the tail. The
    std::shared_ptr links become object references; the ghost sequence `nodes` lists the
    nodes from head to tail. */
module LinkedList {

  class Node<T> {
    var value: T
    var next: Node?<T>
    var prev: Node?<T>

    /** Node(val): a node holding val, linked to nothing. */
    constructor (val: T)
      ensures value == val && next == null && prev == null
    {
      value := val;
      next := null;
      prev := null;
    }
  }

  class DoubleLinkedList<T> {
    var size: int
    var head: Node?<T>
    var tail: Node?<T>
    ghost var nodes: seq<Node<T>>

    /** The links agree with `nodes`: head and tail are its ends, each node
        points to its neighbours, no node occurs twice, and size counts them. */
    ghost predicate Valid()
      reads this, nodes
    {
      size == |nodes| &&
      (nodes == [] ==> head == null && tail == null) &&
      (nodes != [] ==> head == nodes[0] && tail == nodes[|nodes| - 1]) &&
      (forall i, j :: 0 <= i < j < |nodes| ==> nodes[i] != nodes[j]) &&
      (forall i :: 0 <= i < |nodes| - 1 ==> nodes[i].next == nodes[i + 1]) &&
      (forall i :: 0 < i < |nodes| ==> nodes[i].prev == nodes[i - 1]) &&
      (nodes != [] ==> nodes[0].prev == null && nodes[|nodes| - 1].next == null)
    }

    /** The values from head to tail. */
    ghost function Contents(): (r: seq<T>)
      reads this, nodes
      ensures |r| == |nodes| && forall i :: 0 <= i < |nodes| ==> r[i] == nodes[i].value
    {
      seq(|nodes|, i reads this, nodes requires 0 <= i < |nodes| => nodes[i].value)
    }

    /** A new list is empty, with null head and tail. */
    constructor ()
      ensures Valid() && nodes == [] && size == 0 && head == null && tail == null
    {
      size := 0;
      head := null;
      tail := null;
      nodes := [];
    }

    /** getSize. */
    function GetSize(): (n: int)
      reads this, nodes
      requires Valid()
      ensures n == |Contents()|
    {
      size
    }

    /** add_node: a new node holding val becomes the tail; the head changes
        only when the list was empty. */
    method AddNode(val: T) returns (node: Node<T>)
      requires Valid()
      modifies this, tail
      ensures Valid() && fresh(node)
      ensures nodes == old(nodes) + [node] && node.value == val
      ensures Contents() == old(Contents()) + [val]
      ensures size == old(size) + 1 && tail == node
      ensures old(nodes) != [] ==> head == old(head)
    {
      node := new Node(val);
      if tail == null {
        head := node;
        tail := node;
      } else {
        node.prev := tail;
        tail.next := node;
        tail := node;
      }
      size := size + 1;
      nodes := nodes + [node];
    }

    /** remove_node: null on an empty list, which is left as it was;
        otherwise the old tail, unlinked from its predecessor, which becomes
        the tail. */
    method RemoveNode() returns (removed: Node?<T>)
      requires Valid()
      modifies this, if tail != null && tail.prev != null then {tail.prev} else {}
      ensures Valid()
      ensures old(nodes) == [] ==> removed == null && nodes == [] && size == old(size)
      ensures old(nodes) != [] ==> removed == old(tail) && nodes == old(nodes)[..|old(nodes)| - 1]
      ensures old(nodes) != [] ==> Contents() == old(Contents())[..|old(nodes)| - 1]
      ensures old(nodes) != [] ==> size == old(size) - 1
      ensures size == 0 ==> head == null && tail == null
    {
      if tail != null {
        removed := tail;
        if size == 1 {
          head := null;
          tail := null;
        } else {
          assert tail.prev == nodes[|nodes| - 2];
          tail := tail.prev;
          tail.next := null;
        }
        size := size - 1;
        nodes := nodes[..|nodes| - 1];
        return removed;
      }
      removed := null;
    }
  }
}
