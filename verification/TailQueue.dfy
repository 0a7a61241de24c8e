/**
 The tail queue of compat/queue.h.

 A back link holds the address of the pointer cell that designates an element: either the
 `tqh_first` cell of the queue head or the `tqe_next` cell of another element. `Link` names
 those cells.
 */
module TailQueue {
  import opened Sequences

  datatype Link<T(!new)> = FirstCell | NextCell(node: Node<T>)

  class Node<T(!new)> {
    var next: Node?<T>  // tqe_next
    var prev: Link<T>   // tqe_prev
    var data: T

    constructor (data: T)
      ensures this.data == data
    {
      next, prev := null, FirstCell;
      this.data := data;
    }
  }

  class Queue<T(!new)> {
    var first: Node?<T>  // tqh_first
    var last: Link<T>    // tqh_last
    ghost var nodes: seq<Node<T>>

    ghost predicate Valid()
      reads this, nodes
    {
      && (forall i, j :: 0 <= i < j < |nodes| ==> nodes[i] != nodes[j])
      && first == NodeAt(nodes, 0)
      && last == CellBefore(nodes, |nodes|)
      && (forall i {:trigger nodes[i].next} :: 0 <= i < |nodes| ==> nodes[i].next == NodeAt(nodes, i + 1))
      && (forall i {:trigger nodes[i].prev} :: 0 <= i < |nodes| ==> nodes[i].prev == CellBefore(nodes, i))
    }

    constructor ()
      ensures Valid() && nodes == []
    {
      first, last, nodes := null, FirstCell, [];
    }

    /** TAILQ_FIRST. */
    lemma FirstNode()
      requires Valid()
      ensures first == NodeAt(nodes, 0)
    {
    }

    /** TAILQ_NEXT. */
    lemma NextNode(k: nat)
      requires Valid() && k < |nodes|
      ensures nodes[k].next == NodeAt(nodes, k + 1)
    {
    }

    method InsertHead(elm: Node<T>)
      requires Valid() && elm !in nodes
      modifies this, nodes, elm
      ensures Valid() && nodes == [elm] + old(nodes)
      ensures elm.data == old(elm.data)
      ensures forall n :: n in old(nodes) ==> n.data == old(n.data)
    {
      elm.next := first;
      if first != null {
        first.prev := NextCell(elm);
      } else {
        last := NextCell(elm);
      }
      first := elm;
      elm.prev := FirstCell;
      nodes := [elm] + nodes;
    }

    method Remove(elm: Node<T>, ghost k: nat)
      requires Valid() && k < |nodes| && nodes[k] == elm
      modifies this, nodes
      ensures Valid() && nodes == Without(old(nodes), k)
      ensures elm.next == old(elm.next)
      ensures forall n :: n in old(nodes) ==> n.data == old(n.data)
    {
      if elm.next != null {
        elm.next.prev := elm.prev;
      } else {
        last := elm.prev;
      }
      match elm.prev {
        case FirstCell => first := elm.next;
        case NextCell(before) => before.next := elm.next;
      }
      nodes := Without(nodes, k);
    }
  }

  /** The element at index `i`, or null past the end. */
  function NodeAt<T(!new)>(nodes: seq<Node<T>>, i: nat): Node?<T>
  {
    if i < |nodes| then nodes[i] else null
  }

  /** The cell that designates the element at index `i`. */
  function CellBefore<T(!new)>(nodes: seq<Node<T>>, i: nat): Link<T>
    requires i <= |nodes|
  {
    if i == 0 then FirstCell else NextCell(nodes[i - 1])
  }
}
