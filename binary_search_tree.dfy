/**
 * A binary search tree node and the recursive operations defined on it:
 * insertion, membership, maximum and a pre-order visit.
 *
 * The source's `BSTNode` is always a real node; an absent child is `None`.
 * Here a tree is a datatype whose `Empty` stands for an absent child, and
 * every operation that the source calls on a node requires `t.Node?`.
 * Insertion, which the source performs by attaching a new node in place,
 * is a function that returns the tree after the insertion.
 */
module SearchTree {

  datatype Tree = Empty | Node(left: Tree, value: int, right: Tree)

  /** The values stored in a tree, with their multiplicity. */
  ghost function Elements(t: Tree): (m: multiset<int>)
  {
    match t
    case Empty => multiset{}
    case Node(l, x, r) => Elements(l) + multiset{x} + Elements(r)
  }

  /**
   * The search-tree ordering: everything in a left subtree is smaller than
   * the node value and everything in a right subtree is greater or equal.
   */
  ghost predicate Ordered(t: Tree)
  {
    match t
    case Empty => true
    case Node(l, x, r) =>
      && Ordered(l)
      && Ordered(r)
      && (forall y :: y in Elements(l) ==> y < x)
      && (forall y :: y in Elements(r) ==> x <= y)
  }

  /** True when some node of `t` has exactly one child. */
  ghost predicate HasLoneChild(t: Tree)
  {
    match t
    case Empty => false
    case Node(l, _, r) => l.Empty? != r.Empty? || HasLoneChild(l) || HasLoneChild(r)
  }

  /** The larger of two values. */
  function Max(a: int, b: int): (m: int)
  {
    if a < b then b else a
  }

  /** A freshly constructed node, with no children. */
  function Leaf(v: int): (t: Tree)
    ensures t.Node? && Ordered(t)
    ensures Elements(t) == multiset{v}
  {
    Node(Empty, v, Empty)
  }

  /**
   * Inserting `v` below the node `t`: smaller values go left, greater or
   * equal ones go right, and an absent child slot receives a new leaf.
   * Exactly one value is added and the root stays where it is.
   */
  function Insert(t: Tree, v: int): (r: Tree)
    requires t.Node?
    ensures r.Node? && r.value == t.value
    ensures Elements(r) == Elements(t) + multiset{v}
  {
    if v < t.value then
      Node(if t.left.Node? then Insert(t.left, v) else Leaf(v), t.value, t.right)
    else
      Node(t.left, t.value, if t.right.Node? then Insert(t.right, v) else Leaf(v))
  }

  /**
   * Membership by descent: equal is found, a greater target goes right, a
   * smaller one goes left, and an absent child means not found.
   */
  function Contains(t: Tree, target: int): (b: bool)
    requires t.Node?
    ensures b ==> target in Elements(t)
  {
    if t.value == target then true
    else if target > t.value then t.right.Node? && Contains(t.right, target)
    else t.left.Node? && Contains(t.left, target)
  }

  /**
   * The maximum as the source computes it: a node without children yields
   * its own value; otherwise an absent subtree contributes the candidate 0.
   */
  function GetMax(t: Tree): (r: int)
    requires t.Node?
    ensures t.value <= r
  {
    if t.left.Empty? && t.right.Empty? then t.value
    else
      var leftMax := if t.left.Node? then GetMax(t.left) else 0;
      var rightMax := if t.right.Node? then GetMax(t.right) else 0;
      var res := if leftMax > t.value then leftMax else t.value;
      if rightMax > res then rightMax else res
  }

  /** The true maximum of a non-empty tree: an absent subtree has no candidate. */
  function TreeMax(t: Tree): (r: int)
    requires t.Node?
    ensures t.value <= r
  {
    var withLeft := if t.left.Node? then Max(t.value, TreeMax(t.left)) else t.value;
    if t.right.Node? then Max(withLeft, TreeMax(t.right)) else withLeft
  }

  /**
   * The values handed to the visitor by `for_each`, in call order: the node
   * itself, then its left subtree, then its right subtree.
   */
  function ForEach(t: Tree): (visits: seq<int>)
    requires t.Node?
    ensures |visits| > 0 && visits[0] == t.value
  {
    [t.value]
      + (if t.left.Node? then ForEach(t.left) else [])
      + (if t.right.Node? then ForEach(t.right) else [])
  }

  /** The visitor is called exactly once per stored value, duplicates included. */
  lemma {:induction false} ForEachVisitsAll(t: Tree)
    requires t.Node?
    ensures multiset(ForEach(t)) == Elements(t)
  {
    var fromLeft := if t.left.Node? then ForEach(t.left) else [];
    var fromRight := if t.right.Node? then ForEach(t.right) else [];
    if t.left.Node? {
      ForEachVisitsAll(t.left);
    }
    if t.right.Node? {
      ForEachVisitsAll(t.right);
    }
    assert multiset(fromLeft) == Elements(t.left) && multiset(fromRight) == Elements(t.right);
    calc {
      multiset(ForEach(t));
      multiset([t.value] + fromLeft + fromRight);
      multiset([t.value]) + multiset(fromLeft) + multiset(fromRight);
      Elements(t);
    }
  }

  /** Insertion keeps the search-tree ordering. */
  lemma {:induction false} InsertPreservesOrder(t: Tree, v: int)
    requires t.Node? && Ordered(t)
    ensures Ordered(Insert(t, v))
  {
    var r := Insert(t, v);
    if v < t.value {
      if t.left.Node? {
        InsertPreservesOrder(t.left, v);
      }
      assert Ordered(r.left) && r.right == t.right;
      assert forall y :: y in Elements(r.left) ==> y < t.value;
    } else {
      if t.right.Node? {
        InsertPreservesOrder(t.right, v);
      }
      assert Ordered(r.right) && r.left == t.left;
      assert forall y :: y in Elements(r.right) ==> t.value <= y;
    }
  }

  /** On an ordered tree the descent finds `w` exactly when `w` is stored. */
  lemma {:induction false} ContainsCorrect(t: Tree, w: int)
    requires t.Node? && Ordered(t)
    ensures Contains(t, w) <==> w in Elements(t)
  {
    if t.value != w {
      if w > t.value {
        assert w !in Elements(t.left);
        if t.right.Node? {
          ContainsCorrect(t.right, w);
        }
      } else {
        assert w !in Elements(t.right);
        if t.left.Node? {
          ContainsCorrect(t.left, w);
        }
      }
    }
  }

  /**
   * After inserting `v` into an ordered tree, `v` is found, and the answer
   * for every other value is what it was before.
   */
  lemma InsertThenContains(t: Tree, v: int)
    requires t.Node? && Ordered(t)
    ensures Contains(Insert(t, v), v)
    ensures forall w :: w != v ==> (Contains(Insert(t, v), w) <==> Contains(t, w))
  {
    InsertPreservesOrder(t, v);
    ContainsCorrect(Insert(t, v), v);
    forall w | w != v
      ensures Contains(Insert(t, v), w) <==> Contains(t, w)
    {
      ContainsCorrect(Insert(t, v), w);
      ContainsCorrect(t, w);
    }
  }

  /** The source's maximum bounds every stored value, and it is a stored value or 0. */
  lemma {:induction false} GetMaxBound(t: Tree)
    requires t.Node?
    ensures forall y :: y in Elements(t) ==> y <= GetMax(t)
    ensures GetMax(t) in Elements(t) || GetMax(t) == 0
  {
    var x := t.value;
    if t.left.Node? || t.right.Node? {
      var leftMax := if t.left.Node? then GetMax(t.left) else 0;
      var rightMax := if t.right.Node? then GetMax(t.right) else 0;
      if t.left.Node? {
        GetMaxBound(t.left);
      }
      if t.right.Node? {
        GetMaxBound(t.right);
      }
      assert GetMax(t) == Max(Max(x, leftMax), rightMax);
      UnionBound(multiset{x}, x, Elements(t.left), leftMax);
      UnionBound(multiset{x} + Elements(t.left), Max(x, leftMax), Elements(t.right), rightMax);
      assert Elements(t) == multiset{x} + Elements(t.left) + Elements(t.right);
    }
  }

  /** The true maximum is a stored value and bounds every stored value. */
  lemma {:induction false} TreeMaxIsMaximum(t: Tree)
    requires t.Node?
    ensures TreeMax(t) in Elements(t)
    ensures forall y :: y in Elements(t) ==> y <= TreeMax(t)
  {
    var x := t.value;
    var withLeft := if t.left.Node? then Max(x, TreeMax(t.left)) else x;
    if t.left.Node? {
      TreeMaxIsMaximum(t.left);
      MaxOfUnion(multiset{x}, x, Elements(t.left), TreeMax(t.left));
    }
    assert Elements(t.left) + multiset{x} == multiset{x} + Elements(t.left);
    if t.right.Node? {
      TreeMaxIsMaximum(t.right);
      MaxOfUnion(multiset{x} + Elements(t.left), withLeft, Elements(t.right), TreeMax(t.right));
    }
  }

  /** The larger of two upper bounds bounds the union of the two bags. */
  lemma UnionBound(a: multiset<int>, ma: int, b: multiset<int>, mb: int)
    requires forall y :: y in a ==> y <= ma
    requires forall y :: y in b ==> y <= mb
    ensures forall y :: y in a + b ==> y <= Max(ma, mb)
  {
  }

  /** The larger of two bounds, each attained in its own bag, bounds the union and is in it. */
  lemma MaxOfUnion(a: multiset<int>, ma: int, b: multiset<int>, mb: int)
    requires ma in a && forall y :: y in a ==> y <= ma
    requires mb in b && forall y :: y in b ==> y <= mb
    ensures Max(ma, mb) in a + b
    ensures forall y :: y in a + b ==> y <= Max(ma, mb)
  {
  }

  /**
   * Exactly what the source's maximum computes: the true maximum, floored
   * at 0 as soon as some node has exactly one child.
   */
  lemma {:induction false} GetMaxExact(t: Tree)
    requires t.Node?
    ensures GetMax(t) == if HasLoneChild(t) then Max(TreeMax(t), 0) else TreeMax(t)
  {
    var l, x, r := t.left, t.value, t.right;
    if l.Empty? && r.Empty? {
      assert !HasLoneChild(t);
    } else if r.Empty? {
      GetMaxExact(l);
      assert HasLoneChild(t);
      assert GetMax(t) == Max(Max(x, GetMax(l)), 0);
      assert TreeMax(t) == Max(x, TreeMax(l));
    } else if l.Empty? {
      GetMaxExact(r);
      assert HasLoneChild(t);
      assert GetMax(t) == Max(Max(x, 0), GetMax(r));
      assert TreeMax(t) == Max(x, TreeMax(r));
    } else {
      GetMaxExact(l);
      GetMaxExact(r);
      assert HasLoneChild(t) == (HasLoneChild(l) || HasLoneChild(r));
      assert GetMax(t) == Max(Max(x, GetMax(l)), GetMax(r));
      assert TreeMax(t) == Max(Max(x, TreeMax(l)), TreeMax(r));
    }
  }

  /** On a single node the source's maximum is the node's value. */
  lemma GetMaxLeaf(v: int)
    ensures GetMax(Leaf(v)) == v
  {
  }

  /** When no stored value is negative, the source's maximum is the true maximum. */
  lemma GetMaxNonNegative(t: Tree)
    requires t.Node?
    requires forall y :: y in Elements(t) ==> 0 <= y
    ensures GetMax(t) == TreeMax(t)
  {
    GetMaxExact(t);
    TreeMaxIsMaximum(t);
  }

  /**
   * A tree holding -3 with -5 below it: the source's maximum is 0, which is
   * not stored at all, while the true maximum is -3.
   */
  lemma GetMaxNegativeCounterexample()
    ensures var t := Insert(Leaf(-3), -5);
      GetMax(t) == 0 && 0 !in Elements(t) && TreeMax(t) == -3
  {
    var t := Insert(Leaf(-3), -5);
    assert t == Node(Leaf(-5), -3, Empty);
    assert Elements(t) == multiset{-5, -3};
  }

  /**
   * Inserting 3, 8, 1 and 4 below a root holding 5 gives the tree with 3
   * (itself holding 1 and 4) on the left and 8 on the right: the maximum is
   * 8, 4 is found and 9 is not.
   */
  lemma InsertScenario()
    ensures var t := Insert(Insert(Insert(Insert(Leaf(5), 3), 8), 1), 4);
      && t == Node(Node(Leaf(1), 3, Leaf(4)), 5, Leaf(8))
      && GetMax(t) == 8 && TreeMax(t) == 8
      && Contains(t, 4) && !Contains(t, 9)
  {
    var t1 := Insert(Leaf(5), 3);
    assert t1 == Node(Leaf(3), 5, Empty);
    var t2 := Insert(t1, 8);
    assert t2 == Node(Leaf(3), 5, Leaf(8));
    var t3 := Insert(t2, 1);
    assert t3.left == Insert(Leaf(3), 1) == Node(Leaf(1), 3, Empty);
    var t := Insert(t3, 4);
    assert t.left == Insert(t3.left, 4) == Node(Leaf(1), 3, Leaf(4));
  }

  /**
   * On a tree shaped like that one the visitor sees the root, then the left
   * subtree in the same order (its root, then its children), then the right.
   */
  lemma ForEachScenario(a: int, b: int, c: int, d: int, e: int)
    ensures ForEach(Node(Node(Leaf(a), b, Leaf(c)), d, Leaf(e))) == [d, b, a, c, e]
  {
    var left := Node(Leaf(a), b, Leaf(c));
    assert ForEach(left) == [b] + [a] + [c];
    assert ForEach(Node(left, d, Leaf(e))) == [d] + [b, a, c] + [e];
  }
}
