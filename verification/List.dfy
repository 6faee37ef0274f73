/** The circular doubly linked list of list.c, and the stack of stack.c, which is the same list used
    from its tail. */
module List {

  class ListNode<T(0)> {
    var next: ListNode?<T>
    var prev: ListNode?<T>
    const item: T

    constructor (item: T)
      ensures this.item == item
    {
      this.item := item;
      next, prev := null, null;
    }
  }

  class List<T(0)> {
    const head: ListNode<T>
    ghost var nodes: seq<ListNode<T>>

    /** Position `i` of the ring: the head at both ends, the nodes between. */
    ghost function At(i: int): ListNode<T>
      reads this
    {
      if 1 <= i <= |nodes| then nodes[i - 1] else head
    }

    ghost function NodeSet(): set<ListNode<T>>
      reads this
    {
      set n | n in nodes
    }

    ghost predicate Valid()
      reads this, head, nodes
    {
      && (forall i, j :: 0 <= i < j <= |nodes| ==> At(i) != At(j))
      && (forall i :: 0 <= i <= |nodes| ==> At(i).next == At(i + 1) && At(i + 1).prev == At(i))
    }

    ghost function Items(): seq<T>
      reads this
    {
      ItemsOf(nodes)
    }

    static ghost function ItemsOf(s: seq<ListNode<T>>): seq<T> {
      seq(|s|, i requires 0 <= i < |s| => s[i].item)
    }

    /** list_init. */
    constructor (nothing: T)
      ensures Valid() && nodes == [] && fresh(head)
    {
      head := new ListNode(nothing);
      nodes := [];
      new;
      head.next, head.prev := head, head;
    }

    /** list_append, also stack_push. */
    method Append(node: ListNode<T>)
      requires Valid() && node != head && node !in nodes
      modifies this, node, head, NodeSet()
      ensures Valid() && nodes == old(nodes) + [node]
    {
      ghost var n := |nodes|;
      assert At(n + 1).prev == At(n) && forall i :: 0 <= i <= n ==> At(i) != node;
      node.next := head;
      node.prev := head.prev;
      head.prev.next := node;
      head.prev := node;
      nodes := nodes + [node];
      assert forall i :: 0 <= i <= n ==> At(i) == old(At(i));
      assert At(n + 1) == node && At(n + 2) == head;
    }

    /** list_remove. */
    method Remove(node: ListNode<T>, ghost k: nat)
      requires Valid() && k < |nodes| && nodes[k] == node
      modifies this, head, NodeSet()
      ensures Valid() && nodes == old(nodes[..k] + nodes[k + 1..])
      ensures unchanged(node)
    {
      assert At(k + 1) == node && node.prev == At(k) && node.next == At(k + 2);
      node.prev.next := node.next;
      node.next.prev := node.prev;
      nodes := nodes[..k] + nodes[k + 1..];
      assert forall i :: 0 <= i <= k ==> At(i) == old(At(i));
      assert forall i :: k < i <= |nodes| + 1 ==> At(i) == old(At(i + 1));
    }

    /** list_empty. */
    method Empty() returns (empty: bool)
      requires Valid()
      ensures empty <==> nodes == []
    {
      assert At(0).next == At(1);
      empty := head.next == head;
    }

    /** list_remove_first. */
    method RemoveFirst() returns (node: ListNode?<T>)
      requires Valid()
      modifies this, head, NodeSet()
      ensures Valid() && if old(nodes) == [] then node == null && nodes == [] else node == old(nodes[0]) && nodes == old(nodes[1..])
    {
      node := null;
      var empty := Empty();
      if !empty {
        assert At(0).next == At(1);
        node := head.next;
        Remove(node, 0);
      }
    }

    /** stack_pop. */
    method Pop() returns (node: ListNode?<T>)
      requires Valid()
      modifies this, head, NodeSet()
      ensures Valid()
      ensures if old(nodes) == [] then node == null && nodes == []
              else node == old(nodes[|nodes| - 1]) && nodes == old(nodes[..|nodes| - 1])
    {
      var empty := Empty();
      if empty {
        return null;
      }
      ghost var n := |nodes|;
      assert At(n + 1).prev == At(n);
      node := head.prev;
      Remove(node, n - 1);
    }

    lemma HeadApart()
      requires Valid()
      ensures head !in nodes
    {
      forall i | 0 <= i < |nodes| ensures nodes[i] != head {
        assert At(i + 1) != At(0);
      }
    }

    /** One visit of list_traverse, the `k`-th; the successor is read before the node can go. */
    method VisitOne(node: ListNode<T>, drop: T -> bool, ghost all: seq<ListNode<T>>, ghost k: nat) returns (next: ListNode<T>)
      requires Valid() && k < |all| && all[k] == node && nodes == Midway(all, drop, k)
      modifies this, head, NodeSet()
      ensures Valid() && nodes == Midway(all, drop, k + 1) && NodeSet() <= old(NodeSet())
      ensures next == if k + 1 < |all| then all[k + 1] else head
    {
      KeptStep(all, drop, k);
      ghost var p := |Kept(all[..k], drop)|;
      assert At(p + 1) == node && At(p + 1).next == At(p + 2);
      next := node.next;
      if drop(node.item) {
        Remove(node, p);
      }
    }

    /** list_traverse. `drop` tells the nodes the visitor unlinks while it is shown them, `go` is its
        return value. The successor is read before the visit, so an unlinked node does no harm. */
    method Traverse(drop: T -> bool, go: T -> bool) returns (ghost k: nat)
      requires Valid()
      modifies this, head, NodeSet()
      ensures Valid() && k <= |old(nodes)|
      ensures nodes == Midway(old(nodes), drop, k)
      ensures forall i :: 0 <= i < k - 1 ==> go(old(nodes)[i].item)
      ensures k < |old(nodes)| ==> 0 < k && !go(old(nodes)[k - 1].item)
    {
      ghost var all := nodes;
      var node := head.next;
      k := 0;
      assert At(0).next == At(1);
      HeadApart();
      while node != head
        invariant all == old(nodes) && NodeSet() <= old(NodeSet()) && head !in all && k <= |all| && Valid() && nodes == Midway(all, drop, k)
        invariant node == if k < |all| then all[k] else head
        invariant forall i :: 0 <= i < k ==> go(all[i].item)
        decreases |all| - k
      {
        var tmp := VisitOne(node, drop, all, k);
        k := k + 1;
        assert node == old(nodes)[k - 1];
        if !go(node.item) {
          return;
        }
        node := tmp;
      }
    }
  }

  /** The nodes a traversal leaves in the list. */
  ghost function Kept<T(0)>(s: seq<ListNode<T>>, drop: T -> bool): (r: seq<ListNode<T>>)
    ensures forall m :: m in r ==> m in s
  {
    if s == [] then []
    else Kept(s[..|s| - 1], drop) + if drop(s[|s| - 1].item) then [] else [s[|s| - 1]]
  }

  /** The list after `k` visits. */
  ghost function Midway<T(0)>(all: seq<ListNode<T>>, drop: T -> bool, k: nat): seq<ListNode<T>>
    requires k <= |all|
  {
    Kept(all[..k], drop) + all[k..]
  }

  lemma KeptStep<T(0)>(all: seq<ListNode<T>>, drop: T -> bool, k: nat)
    requires k < |all|
    ensures var before, after := Midway(all, drop, k), Midway(all, drop, k + 1);
      var p := |Kept(all[..k], drop)|;
      && p < |before| && before[p] == all[k]
      && (if p + 1 < |before| then k + 1 < |all| && before[p + 1] == all[k + 1] else k + 1 == |all|)
      && after == (if drop(all[k].item) then before[..p] + before[p + 1..] else before)
      && (forall m :: m in before ==> m in all)
  {
    assert all[..k + 1][..k] == all[..k];
  }
}
