/** The two containers the tree generator relies on: a list-backed stack and
    a singly linked queue. */
module DataStructures {

  /** A LIFO stack over a list; `n` mirrors the list's length. */
  class Stack<T> {
    var items: seq<T>
    var n: int

    ghost predicate Valid()
      reads this
    {
      n == |items|
    }

    constructor ()
      ensures Valid() && items == []
    {
      items := [];
      n := 0;
    }

    /** `__len__`. */
    function Size(): (r: int)
      reads this
      requires Valid()
      ensures r == |items|
    {
      n
    }

    /** `is_empty`: the counter is zero exactly when nothing is stored. */
    function IsEmpty(): (b: bool)
      reads this
      requires Valid()
      ensures b <==> items == []
    {
      n == 0
    }

    method Push(x: T)
      requires Valid()
      modifies this
      ensures Valid()
      ensures items == old(items) + [x]
      ensures Top() == x && Size() == old(Size()) + 1
    {
      items := items + [x];
      n := n + 1;
    }

    /** `top`: the element pushed last and not yet popped. */
    function Top(): (x: T)
      reads this
      requires Valid() && items != []
      ensures x == items[|items| - 1]
    {
      items[|items| - 1]
    }

    /** `pop`: the caller makes sure the stack is not empty. */
    method Pop() returns (x: T)
      requires Valid() && items != []
      modifies this
      ensures Valid()
      ensures x == old(Top())
      ensures items == old(items)[..|old(items)| - 1]
      ensures old(items) == items + [x] && Size() == old(Size()) - 1
    {
      n := n - 1;
      x := items[|items| - 1];
      items := items[..|items| - 1];
    }

    /** `self[:-1]`: every element except the top, bottom to top (empty for an empty stack). */
    function AllButTop(): (s: seq<T>)
      reads this
      requires Valid()
      ensures items == [] ==> s == []
      ensures items != [] ==> items == s + [Top()]
    {
      if n == 0 then [] else items[..n - 1]
    }
  }

  /** A node of the linked queue. */
  class QNode<T> {
    var elem: T
    var next: QNode?<T>

    constructor (e: T, nx: QNode?<T>)
      ensures elem == e && next == nx
    {
      elem := e;
      next := nx;
    }
  }

  /** A FIFO queue as a singly linked list from `head` to `tail`. The ghost
      sequence `nodes` lists the nodes reachable from `head`, in order, and
      `contents` their elements. */
  class Queue<T> {
    var head: QNode?<T>
    var tail: QNode?<T>
    var size: int
    ghost var nodes: seq<QNode<T>>
    ghost var contents: seq<T>
    ghost var Repr: set<object>

    ghost predicate Valid()
      reads this, Repr
    {
      && this in Repr
      && (forall i :: 0 <= i < |nodes| ==> nodes[i] in Repr)
      && size == |nodes| && |contents| == |nodes|
      && (forall i :: 0 <= i < |nodes| ==> nodes[i].elem == contents[i])
      && (nodes == [] ==> head == null && tail == null)
      && (nodes != [] ==> head == nodes[0] && tail == nodes[|nodes| - 1] && tail.next == null)
      && (forall i :: 0 <= i < |nodes| - 1 ==> nodes[i].next == nodes[i + 1])
      && (forall i, j :: 0 <= i < j < |nodes| ==> nodes[i] != nodes[j])
    }

    /** The queued elements, head first. */
    ghost function Contents(): seq<T>
      reads this
    {
      contents
    }

    constructor ()
      ensures Valid() && fresh(Repr) && Contents() == []
    {
      head := null;
      tail := null;
      size := 0;
      nodes := [];
      contents := [];
      Repr := {this};
    }

    /** `__len__`. */
    function Size(): (r: int)
      reads this, Repr
      requires Valid()
      ensures r == |Contents()|
    {
      size
    }

    /** `is_empty`. */
    function IsEmpty(): (b: bool)
      reads this, Repr
      requires Valid()
      ensures b <==> Contents() == []
    {
      size == 0
    }

    /** `first`: the head element, left in place. */
    function First(): (x: T)
      reads this, Repr
      requires Valid() && Contents() != []
      ensures x == Contents()[0]
    {
      head.elem
    }

    /** `dequeue`: removes and returns the head element; the tail is reset
        when the queue becomes empty. */
    method Dequeue() returns (x: T)
      requires Valid() && Contents() != []
      modifies this
      ensures Valid() && Repr == old(Repr)
      ensures x == old(Contents())[0]
      ensures Contents() == old(Contents())[1..]
      ensures Contents() == [] ==> head == null && tail == null
    {
      x := head.elem;
      head := head.next;
      size := size - 1;
      nodes := nodes[1..];
      contents := contents[1..];
      if size == 0 {
        tail := null;
      }
    }

    /** `enqueue`: appends at the tail; on an empty queue the new node is both head and tail. */
    method Enqueue(e: T)
      requires Valid()
      modifies Repr
      ensures Valid() && fresh(Repr - old(Repr))
      ensures Contents() == old(Contents()) + [e]
      ensures old(Contents()) == [] ==> head == tail && head != null && head.elem == e
    {
      var nd := new QNode(e, null);
      if IsEmpty() {
        head := nd;
      } else {
        tail.next := nd;
      }
      tail := nd;
      size := size + 1;
      nodes := nodes + [nd];
      contents := contents + [e];
      Repr := Repr + {nd};
    }
  }
}
