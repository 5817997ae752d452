/**
 * A doubly linked list of heap-allocated nodes, updated in place.
 *
 * The list object holds `head`, `tail` and `length`; every node holds
 * `prev`, `value` and `next`. The ghost sequence `nodes` is the chain from
 * `head` to `tail`, and the ghost sequence `Contents` is the values along
 * it; `Valid()` ties both to the real fields.
 */
module LinkedList {

  datatype Option<T> = None | Some(value: T)

  class ListNode {
    var prev: ListNode?
    const value: int
    var next: ListNode?

    constructor (value: int, prev: ListNode?, next: ListNode?)
      ensures this.prev == prev && this.value == value && this.next == next
    {
      this.prev := prev;
      this.value := value;
      this.next := next;
    }
  }

  /** The position of `n` in `ns` (its first occurrence). */
  ghost function IndexOf(ns: seq<ListNode>, n: ListNode): (i: nat)
    requires n in ns
    ensures i < |ns| && ns[i] == n
    ensures forall j :: 0 <= j < i ==> ns[j] != n
  {
    if ns[0] == n then 0 else 1 + IndexOf(ns[1..], n)
  }

  /** `s` with the element at position `i` taken out. */
  ghost function RemoveAt<T>(s: seq<T>, i: nat): (r: seq<T>)
    requires i < |s|
    ensures |r| == |s| - 1
    ensures forall k :: 0 <= k < i ==> r[k] == s[k]
    ensures forall k :: i <= k < |r| ==> r[k] == s[k + 1]
  {
    s[..i] + s[i + 1..]
  }

  /**
   * The heap-independent part of the list invariant: `ns` has no repeated
   * node, lies within `repr`, and carries the values `cs`.
   */
  ghost predicate Shape(ns: seq<ListNode>, cs: seq<int>, repr: set<ListNode>)
  {
    && |cs| == |ns|
    && Distinct(ns)
    && (forall i :: 0 <= i < |ns| ==> ns[i] in repr && ns[i].value == cs[i])
  }

  /** Taking the node at `i` out keeps the shape, and the node is gone. */
  lemma RemoveAtShape(ns: seq<ListNode>, cs: seq<int>, repr: set<ListNode>, i: nat)
    requires Shape(ns, cs, repr) && i < |ns|
    ensures Shape(RemoveAt(ns, i), RemoveAt(cs, i), repr) && ns[i] !in RemoveAt(ns, i)
  {
    RemoveAtDistinct(ns, i);
  }

  /** A node outside the chain can leave the set of owned nodes. */
  lemma ShapeWithout(ns: seq<ListNode>, cs: seq<int>, repr: set<ListNode>, n: ListNode)
    requires Shape(ns, cs, repr) && n !in ns
    ensures Shape(ns, cs, repr - {n})
  {
  }

  /**
   * The pointers of `ns` form a chain: consecutive nodes link to each other
   * both ways, and `first`/`last` are its ends, with `first.prev` and
   * `last.next` null (both null for an empty chain).
   */
  ghost predicate Chain(ns: seq<ListNode>, first: ListNode?, last: ListNode?)
    reads ns
  {
    && (forall i :: 0 <= i < |ns| - 1 ==> ns[i].next == ns[i + 1])
    && (forall i :: 0 < i < |ns| ==> ns[i].prev == ns[i - 1])
    && (ns == [] ==> first == null && last == null)
    && (ns != [] ==>
          && first == ns[0] && first.prev == null
          && last == ns[|ns| - 1] && last.next == null)
  }

  /** No element occurs twice. */
  ghost predicate Distinct<T>(s: seq<T>)
  {
    forall i, j :: 0 <= i < j < |s| ==> s[i] != s[j]
  }

  /**
   * Taking an element out of a sequence without repetitions leaves one
   * without repetitions, and the element is gone.
   */
  lemma RemoveAtDistinct<T>(s: seq<T>, i: nat)
    requires i < |s| && Distinct(s)
    ensures Distinct(RemoveAt(s, i)) && s[i] !in RemoveAt(s, i)
  {
    var r := RemoveAt(s, i);
    forall k | 0 <= k < |r|
      ensures r[k] != s[i]
    {
      if k < i {
        assert r[k] == s[k];
      } else {
        assert r[k] == s[k + 1];
      }
    }
  }

  /**
   * Taking the element at `i` out and putting it back at either end is a
   * permutation: the same values, each as often as before.
   */
  lemma MoveKeepsValues<T>(s: seq<T>, i: nat)
    requires i < |s|
    ensures multiset([s[i]] + RemoveAt(s, i)) == multiset(s)
    ensures multiset(RemoveAt(s, i) + [s[i]]) == multiset(s)
  {
    assert s == s[..i] + [s[i]] + s[i + 1..];
  }

  class DoublyLinkedList {
    var head: ListNode?
    var tail: ListNode?
    var length: int

    ghost var nodes: seq<ListNode>
    ghost var Contents: seq<int>
    ghost var Repr: set<ListNode>

    /**
     * The list invariant: `nodes` are distinct, consecutive nodes link to
     * each other both ways, `head`/`tail` are the ends with `head.prev` and
     * `tail.next` null, and `length` counts the nodes.
     */
    ghost predicate Valid()
      reads this, Repr
    {
      Linked() && length == |nodes|
    }

    /** The list invariant apart from the count kept in `length`. */
    ghost predicate Linked()
      reads this, Repr
    {
      Shape(nodes, Contents, Repr) && Chain(nodes, head, tail)
    }

    /**
     * A list holding the given node, or an empty list. The source does not
     * clear the node's own links, so the list is only well formed when the
     * node is unlinked.
     */
    constructor (node: ListNode?)
      ensures head == node && tail == node
      ensures length == if node == null then 0 else 1
      ensures Repr == if node == null then {} else {node}
      ensures node == null ==> Valid() && Contents == []
      ensures node != null && node.prev == null && node.next == null ==>
                Valid() && nodes == [node] && Contents == [node.value]
    {
      head := node;
      tail := node;
      length := if node != null then 1 else 0;
      nodes := if node != null then [node] else [];
      Contents := if node != null then [node.value] else [];
      Repr := if node != null then {node} else {};
    }

    /** The number of values in the list. */
    function Len(): (n: int)
      reads this, Repr
      requires Valid()
      ensures n == |Contents| && n == |nodes|
    {
      length
    }

    /** Wraps `value` in a new node and links it in front of the old head. */
    method AddToHead(value: int)
      requires Valid()
      modifies this, Repr
      ensures Valid()
      ensures Contents == [value] + old(Contents)
      ensures fresh(head) && nodes == [head] + old(nodes) && Repr == old(Repr) + {head}
      ensures length == old(length) + 1
      ensures old(head) != null ==> old(head).prev == head
      ensures old(nodes) == [] ==> head == tail
    {
      var newNode := new ListNode(value, null, null);
      length := length + 1;
      if head == null && tail == null {
        head := newNode;
        tail := newNode;
      } else {
        newNode.next := head;
        head.prev := newNode;
        head := newNode;
      }
      nodes := [newNode] + nodes;
      Contents := [value] + Contents;
      Repr := Repr + {newNode};
    }

    /** Wraps `value` in a new node and links it after the old tail. */
    method AddToTail(value: int)
      requires Valid()
      modifies this, Repr
      ensures Valid()
      ensures Contents == old(Contents) + [value]
      ensures fresh(tail) && nodes == old(nodes) + [tail] && Repr == old(Repr) + {tail}
      ensures length == old(length) + 1
      ensures old(tail) != null ==> old(tail).next == tail
      ensures old(nodes) == [] ==> head == tail
    {
      var newNode := new ListNode(value, null, null);
      length := length + 1;
      if head == null && tail == null {
        tail := newNode;
        head := newNode;
      } else {
        newNode.prev := tail;
        tail.next := newNode;
        tail := newNode;
      }
      nodes := nodes + [newNode];
      Contents := Contents + [value];
      Repr := Repr + {newNode};
    }

    /**
     * Unlinks `node` from the list, keeping the order of the other nodes;
     * on an empty list nothing happens. The middle case splices the two
     * neighbours together; the source's middle case does not (see
     * DeleteMiddleAsWritten).
     */
    method Delete(node: ListNode)
      requires Valid()
      requires node in nodes || nodes == []
      modifies this, Repr
      ensures Valid()
      ensures old(nodes) == [] ==> unchanged(this)
      ensures node !in nodes
      ensures node in old(nodes) ==> Repr == old(Repr) - {node}
      ensures node in old(nodes) ==>
                var i := IndexOf(old(nodes), node);
                && nodes == RemoveAt(old(nodes), i)
                && Contents == RemoveAt(old(Contents), i)
                && length == old(length) - 1
      ensures |old(nodes)| == 1 ==> head == null && tail == null && length == 0
    {
      if head == null && tail == null {
        return;
      }
      length := length - 1;
      Unlink(node);
      ShapeWithout(nodes, Contents, Repr, node);
      Repr := Repr - {node};
    }

    /** The cases of Delete on a non-empty list, in the source's order. */
    method Unlink(node: ListNode)
      requires Linked()
      requires node in nodes
      modifies this, Repr
      ensures Linked() && Unlinked(node) && node !in nodes
    {
      if head == tail {
        UnlinkOnly(node);
      } else if head == node {
        UnlinkHead(node);
      } else if tail == node {
        UnlinkTail(node);
      } else {
        Splice(node);
      }
    }

    /**
     * What each case of Delete promises: `node` is taken out of `nodes`,
     * its value out of `Contents`, and the rest keeps its order.
     */
    twostate predicate Unlinked(node: ListNode)
      reads this
      requires node in old(nodes) && old(|Contents| == |nodes|)
    {
      var i := IndexOf(old(nodes), node);
      && nodes == RemoveAt(old(nodes), i)
      && Contents == RemoveAt(old(Contents), i)
      && length == old(length)
      && Repr == old(Repr)
    }

    /** The one-node case of Delete: the list becomes empty. */
    method UnlinkOnly(node: ListNode)
      requires Linked()
      requires node in nodes && head == tail
      modifies this
      ensures Linked() && Unlinked(node) && node !in nodes
    {
      head := null;
      tail := null;
      nodes := RemoveAt(nodes, 0);
      Contents := RemoveAt(Contents, 0);
    }

    /** The head case of Delete: the next node becomes the head. */
    method UnlinkHead(node: ListNode)
      requires Linked()
      requires node in nodes && head != tail && node == head
      modifies this, Repr
      ensures Linked() && Unlinked(node) && node !in nodes
    {
      assert node.next == nodes[1];
      head := node.next;
      head.prev := null;
      RemoveAtShape(nodes, Contents, Repr, 0);
      nodes := RemoveAt(nodes, 0);
      Contents := RemoveAt(Contents, 0);
    }

    /** The tail case of Delete: the previous node becomes the tail. */
    method UnlinkTail(node: ListNode)
      requires Linked()
      requires node in nodes && head != tail && node == tail
      modifies this, Repr
      ensures Linked() && Unlinked(node) && node !in nodes
    {
      ghost var i := |nodes| - 1;
      assert IndexOf(nodes, node) == i && node.prev == nodes[i - 1];
      tail := node.prev;
      tail.next := null;
      RemoveAtShape(nodes, Contents, Repr, i);
      nodes := RemoveAt(nodes, i);
      Contents := RemoveAt(Contents, i);
    }

    /**
     * The middle case of Delete: links the two neighbours of `node` to each
     * other, which takes `node` out of the chain.
     */
    method Splice(node: ListNode)
      requires Linked()
      requires node in nodes && node != head && node != tail
      modifies this, Repr
      ensures Linked() && Unlinked(node) && node !in nodes
    {
      ghost var i := IndexOf(nodes, node);
      Bypass(node, i);
      RemoveAtShape(nodes, Contents, Repr, i);
      nodes := RemoveAt(nodes, i);
      Contents := RemoveAt(Contents, i);
    }

    /**
     * The pointer updates of the middle case: the predecessor of `node` now
     * points forward to its successor and the successor back to its
     * predecessor, so the chain skips `node`.
     */
    method Bypass(node: ListNode, ghost i: nat)
      requires Linked()
      requires node != head && node != tail && i < |nodes| && nodes[i] == node
      modifies Repr
      ensures Chain(RemoveAt(nodes, i), head, tail)
    {
      assert 0 < i < |nodes| - 1;
      assert node.prev == nodes[i - 1] && node.next == nodes[i + 1];
      node.prev.next := node.next;
      node.next.prev := node.prev;
    }

    /** Unlinks the head node and returns its value. */
    method RemoveFromHead() returns (value: int)
      requires Valid()
      requires nodes != []
      modifies this, Repr
      ensures Valid()
      ensures value == old(Contents)[0]
      ensures Contents == old(Contents)[1..] && nodes == old(nodes)[1..]
      ensures length == old(length) - 1
      ensures Repr == old(Repr) - {old(head)}
      ensures head != null ==> head.prev == null
    {
      value := head.value;
      Delete(head);
    }

    /** Unlinks the tail node and returns its value. */
    method RemoveFromTail() returns (value: int)
      requires Valid()
      requires nodes != []
      modifies this, Repr
      ensures Valid()
      ensures value == old(Contents)[|old(Contents)| - 1]
      ensures Contents == old(Contents)[..|old(Contents)| - 1]
      ensures nodes == old(nodes)[..|old(nodes)| - 1]
      ensures length == old(length) - 1
      ensures Repr == old(Repr) - {old(tail)}
      ensures tail != null ==> tail.next == null
    {
      value := tail.value;
      Delete(tail);
    }

    /**
     * Moves the value of `node` to the front: nothing happens when `node` is
     * already the head; otherwise the node is deleted and a new node with
     * its value is added as the head.
     */
    method MoveToFront(node: ListNode)
      requires Valid()
      requires node in nodes
      modifies this, Repr
      ensures Valid()
      ensures length == old(length)
      ensures node == old(head) ==> unchanged(this)
      ensures node != old(head) ==>
                var i := IndexOf(old(nodes), node);
                Contents == [old(Contents)[i]] + RemoveAt(old(Contents), i)
      ensures node != old(head) ==> fresh(head) && Repr == old(Repr) - {node} + {head}
      ensures node != old(head) ==>
                nodes == [head] + RemoveAt(old(nodes), IndexOf(old(nodes), node))
      ensures multiset(Contents) == multiset(old(Contents))
    {
      if node == head {
        return;
      }
      ghost var i := IndexOf(nodes, node);
      MoveKeepsValues(Contents, i);
      Delete(node);
      AddToHead(node.value);
    }

    /**
     * Moves the value of `node` to the end: nothing happens when `node` is
     * already the tail; otherwise the node is deleted and a new node with
     * its value is added as the tail.
     */
    method MoveToEnd(node: ListNode)
      requires Valid()
      requires node in nodes
      modifies this, Repr
      ensures Valid()
      ensures length == old(length)
      ensures node == old(tail) ==> unchanged(this)
      ensures node != old(tail) ==>
                var i := IndexOf(old(nodes), node);
                Contents == RemoveAt(old(Contents), i) + [old(Contents)[i]]
      ensures node != old(tail) ==> fresh(tail) && Repr == old(Repr) - {node} + {tail}
      ensures node != old(tail) ==>
                nodes == RemoveAt(old(nodes), IndexOf(old(nodes), node)) + [tail]
      ensures multiset(Contents) == multiset(old(Contents))
    {
      if node == tail {
        return;
      }
      ghost var i := IndexOf(nodes, node);
      MoveKeepsValues(Contents, i);
      Delete(node);
      AddToTail(node.value);
    }

    /**
     * The largest value, found by one scan from the head; `None` for an
     * empty list.
     */
    method GetMax() returns (r: Option<int>)
      requires Valid()
      ensures r.None? <==> Contents == []
      ensures r.Some? ==> r.value in Contents
      ensures r.Some? ==> forall k :: 0 <= k < |Contents| ==> Contents[k] <= r.value
    {
      if head == null {
        return None;
      }
      var maxVal := head.value;
      var current := head;
      ghost var i := 0;
      while current != null
        invariant 0 <= i <= |nodes|
        invariant current == if i < |nodes| then nodes[i] else null
        invariant maxVal in Contents
        invariant forall k :: 0 <= k < i ==> Contents[k] <= maxVal
        decreases |nodes| - i
      {
        if current.value > maxVal {
          maxVal := current.value;
        }
        current := current.next;
        i := i + 1;
      }
      return Some(maxVal);
    }

    /**
     * The middle case of delete as the source writes it: the length drops,
     * but the node's `prev` is overwritten with its `next` and its `next` is
     * rewritten to that same node, so no neighbour is relinked. The forward
     * chain from `head` still passes through `node`, and the list is no
     * longer well formed.
     */
    method DeleteMiddleAsWritten(node: ListNode)
      requires Valid()
      requires node in nodes && node != head && node != tail
      modifies this, node
      ensures length == old(length) - 1
      ensures head == old(head) && tail == old(tail)
      ensures nodes == old(nodes) && Contents == old(Contents)
      ensures node.prev == old(node.next) && node.next == old(node.next)
      ensures !Valid()
    {
      length := length - 1;
      node.prev := node.next;
      node.next := node.prev;
    }
  }

  /**
   * Adding 1, 2, 3 at the tail and deleting the middle node with the
   * source's middle case: the length says 2, yet the forward chain from the
   * head still reads 1, 2, 3, and the last two nodes point back at each other.
   */
  method DeleteMiddleAsWrittenScenario() returns (forward: seq<int>, len: int, backCycle: bool)
    ensures forward == [1, 2, 3] && len == 2 && backCycle
  {
    var l := new DoublyLinkedList(null);
    l.AddToTail(1);
    l.AddToTail(2);
    var mid := l.tail;
    l.AddToTail(3);
    ghost var ns := l.nodes;
    assert ns[1] == mid;
    l.DeleteMiddleAsWritten(mid);
    var a := l.head;
    var b := a.next;
    var c := b.next;
    forward := [a.value, b.value, c.value];
    len := l.length;
    backCycle := c.prev == b && b.prev == c;
  }

  /**
   * The same steps with the corrected delete: the length is 2 and the
   * forward chain from the head reads 1, 3 and ends there.
   */
  method DeleteMiddleScenario() returns (forward: seq<int>, len: int, ends: bool)
    ensures forward == [1, 3] && len == 2 && ends
  {
    var l := new DoublyLinkedList(null);
    l.AddToTail(1);
    l.AddToTail(2);
    var mid := l.tail;
    l.AddToTail(3);
    l.Delete(mid);
    var a := l.head;
    var b := a.next;
    forward := [a.value, b.value];
    len := l.length;
    ends := b.next == null;
  }
}
