/** Threads of the AVL tree: rebuilding them, and walking along them without a stack
    (btree.c:30-40, btree.c:166-204). */
module BTreeThreads {
  import opened BTreeShape

  // ---------------------------------------------------------------- rethreading

  ghost function Last(t: Tree): Node
    requires t.Bin?
  {
    if t.right.Leaf? then t.node else Last(t.right)
  }

  lemma {:induction false} LastInside(t: Tree)
    requires t.Bin?
    ensures Last(t) in NodeSet(t)
  {
    if t.right.Bin? {
      LastInside(t.right);
    }
  }

  /** Everything about a fully threaded tree but the right link of its last node. */
  ghost predicate ThreadedButLast(root: Node?, t: Tree)
    requires t.Bin? && Bst(t)
    reads NodeSet(t) - {Last(t)}, Last(t)`llink, Last(t)`balance
  {
    BstDisjoint(t);
    LastInside(t);
    if t.right.Bin? then LastInside(t.right);
      && root == t.node && root.balance as int == Height(t.left) - Height(t.right)
      && Linked(root.llink, t.left, root) && FullyThreaded(t.left, root)
      && !root.rflag && ThreadedButLast(root.rlink, t.right)
    else
      && root == t.node && root.balance as int == Height(t.left)
      && Linked(root.llink, t.left, root) && FullyThreaded(t.left, root)
  }

  lemma {:induction false} ForgetLast(root: Node, t: Tree)
    requires t.Bin? && Bst(t) && Linked(root, t, null) && FullyThreaded(t, null)
    ensures ThreadedButLast(root, t) && Last(t).rlink == null
  {
    if t.right.Bin? {
      ForgetLast(root.rlink, t.right);
    }
  }

  /** The missing thread of the last node completes the tree up to `next`. */
  lemma {:induction false} ThreadLast(root: Node, t: Tree, next: Node)
    requires t.Bin? && Bst(t) && ThreadedButLast(root, t)
    requires Last(t).rflag && Last(t).rlink == next
    ensures Linked(root, t, next) && FullyThreaded(t, next)
  {
    if t.right.Bin? {
      ThreadLast(root.rlink, t.right, next);
    }
  }

  /** btree_node_threading. */
  method NodeThreading(node: Node, pre: Node?)
    requires pre != node
    modifies node, if pre != null && (pre.rlink == null || pre.rflag) then {pre} else {}
    ensures unchanged(node`llink) && unchanged(node`balance)
    ensures !node.rflag && node.rlink == if old(node.rflag) then null else old(node.rlink)
    ensures pre != null ==> pre.llink == old(pre.llink) && pre.balance == old(pre.balance)
    ensures pre != null ==>
      if old(pre.rlink == null || pre.rflag) then pre.rlink == node && pre.rflag else unchanged(pre)
  {
    if node.rflag {
      node.rflag := false;
      node.rlink := null;
    }
    if pre != null && (pre.rlink == null || pre.rflag) {
      pre.rlink := node;
      pre.rflag := true;
    }
  }

  /** The visit of `t`'s root, its left subtree being done except for the thread of its last node. */
  method VisitThreading(root: Node, pre: Node?, ghost t: Tree, ghost succ: Node?)
    requires t.Bin? && Bst(t) && root == t.node && root.balance as int == Height(t.left) - Height(t.right)
    requires Linked(root.llink, t.left, null) && FullyThreaded(t.left, null)
    requires if root.rflag then t.right == Leaf else Linked(root.rlink, t.right, succ)
    requires if t.left.Bin? then pre == Last(t.left) else pre == null || (pre !in NodeSet(t) && pre.rlink != null && !pre.rflag)
    modifies NodeSet(t.left), root
    ensures Linked(root.llink, t.left, root) && FullyThreaded(t.left, root)
    ensures !root.rflag && Linked(root.rlink, t.right, succ)
    ensures unchanged(root`llink) && unchanged(root`balance)
  {
    BstDisjoint(t);
    AllAllocated(t.left);
    AllAllocated(t.right);
    if t.left.Bin? {
      LastInside(t.left);
      ForgetLast(t.left.node, t.left);
    }
    NodeThreading(root, pre);
    if t.left.Bin? {
      ThreadLast(t.left.node, t.left, root);
    }
  }

  /** btree_in_order_traverse with btree_node_threading as the visitor. `pre` comes in as the node
      visited last before this subtree; it has a right child, so it is never written. */
  method ThreadInOrder(root: Node?, pre: Node?, ghost t: Tree, ghost succ: Node?) returns (last: Node?)
    requires Linked(root, t, succ) && Bst(t)
    requires pre != null ==> pre !in NodeSet(t) && pre.rlink != null && !pre.rflag
    modifies NodeSet(t)
    ensures Linked(root, t, null) && FullyThreaded(t, null)
    ensures last == if t.Leaf? then pre else Last(t)
    decreases t
  {
    last := pre;
    if root != null {
      BstDisjoint(t);
      AllAllocated(t.left);
      AllAllocated(t.right);
      if root.llink != null {
        last := ThreadInOrder(root.llink, last, t.left, root);
      }
      VisitThreading(root, last, t, succ);
      last := root;
      if root.rlink != null && !root.rflag {
        last := ThreadInOrder(root.rlink, last, t.right, succ);
      }
    }
  }

  // ---------------------------------------------------------------- walking the tree

  /** `s` occurs in `t`, and its first node is the `i`-th of `t` in order. */
  ghost predicate SubAt(t: Tree, s: Tree, i: int) {
    || (s == t && i == 0)
    || (t.Bin? && (SubAt(t.left, s, i) || SubAt(t.right, s, i - |InOrder(t.left)| - 1)))
  }

  /** The node after the `k` first ones of `t`. */
  ghost function After(t: Tree, k: int, succ: Node?): Node?
    requires 0 <= k
  {
    if k < |InOrder(t)| then InOrder(t)[k] else succ
  }

  lemma {:induction false} SubInOrder(t: Tree, s: Tree, i: int)
    requires SubAt(t, s, i)
    ensures 0 <= i <= i + |InOrder(s)| <= |InOrder(t)| && InOrder(t)[i..i + |InOrder(s)|] == InOrder(s)
  {
    if s == t && i == 0 {
    } else if SubAt(t.left, s, i) {
      SubInOrder(t.left, s, i);
    } else {
      SubInOrder(t.right, s, i - |InOrder(t.left)| - 1);
    }
  }

  lemma {:induction false} SubChildren(t: Tree, s: Tree, i: int)
    requires SubAt(t, s, i) && s.Bin?
    ensures SubAt(t, s.left, i) && SubAt(t, s.right, i + |InOrder(s.left)| + 1)
  {
    if s == t && i == 0 {
      assert SubAt(t.left, s.left, 0) && SubAt(t.right, s.right, 0);
    } else if SubAt(t.left, s, i) {
      SubChildren(t.left, s, i);
    } else {
      SubChildren(t.right, s, i - |InOrder(t.left)| - 1);
    }
  }

  /** The subtree that a position of the in-order sequence is the root of. */
  lemma {:induction false} SubWithRoot(t: Tree, k: nat) returns (s: Tree, i: int)
    requires k < |InOrder(t)|
    ensures SubAt(t, s, i) && s.Bin? && i + |InOrder(s.left)| == k && s.node == InOrder(t)[k]
  {
    if k < |InOrder(t.left)| {
      s, i := SubWithRoot(t.left, k);
    } else if k == |InOrder(t.left)| {
      s, i := t, 0;
    } else {
      s, i := SubWithRoot(t.right, k - |InOrder(t.left)| - 1);
      i := i + |InOrder(t.left)| + 1;
    }
  }

  /** However many threads are missing, each that is there leads to the next node in order. */
  lemma {:induction false} ThreadSound(root: Node?, t: Tree, succ: Node?, q: nat)
    requires Linked(root, t, succ) && q < |InOrder(t)|
    ensures InOrder(t)[q] in NodeSet(t)
    ensures var n := InOrder(t)[q]; n.rflag ==> n.rlink != null && n.rlink == After(t, q + 1, succ)
    decreases t
  {
    var l := |InOrder(t.left)|;
    if q < l {
      ThreadSound(root.llink, t.left, root, q);
    } else if l < q {
      ThreadSound(root.rlink, t.right, succ, q - l - 1);
    }
  }

  /** In a whole tree: its in-order successor, and no thread leads nowhere. */
  lemma ThreadToSuccessor(root: Node?, t: Tree, q: nat)
    requires Linked(root, t, null) && q < |InOrder(t)|
    ensures var n := InOrder(t)[q]; n.rflag ==> q + 1 < |InOrder(t)| && n.rlink == InOrder(t)[q + 1]
  {
    ThreadSound(root, t, null, q);
  }

  lemma {:induction false} SubLinked(root: Node?, t: Tree, succ: Node?, s: Tree, i: int)
    requires Linked(root, t, succ) && FullyThreaded(t, succ) && SubAt(t, s, i) && s.Bin?
    ensures i + |InOrder(s)| >= 0
    ensures Linked(s.node, s, After(t, i + |InOrder(s)|, succ)) && FullyThreaded(s, After(t, i + |InOrder(s)|, succ))
    ensures NodeSet(s) <= NodeSet(t)
  {
    SubInOrder(t, s, i);
    if s == t && i == 0 {
    } else if SubAt(t.left, s, i) {
      SubInOrder(t.left, s, i);
      SubLinked(root.llink, t.left, root, s, i);
    } else {
      var j := i - |InOrder(t.left)| - 1;
      SubInOrder(t.right, s, j);
      SubLinked(if root.rflag then null else root.rlink, t.right, succ, s, j);
    }
  }

  /** What one node of a fully threaded tree leads to. */
  lemma {:induction false} Step(root: Node?, t: Tree, s: Tree, i: int)
    requires Linked(root, t, null) && FullyThreaded(t, null) && SubAt(t, s, i) && s.Bin?
    ensures var q := i + |InOrder(s.left)|;
      && 0 <= q < |InOrder(t)| && InOrder(t)[q] == s.node
      && (s.node.llink == null <==> s.left.Leaf?) && (s.left.Bin? ==> s.node.llink == s.left.node)
      && (s.node.rflag ==> q + 1 < |InOrder(t)| && s.node.rlink == InOrder(t)[q + 1])
      && (!s.node.rflag ==> if s.right.Leaf? then s.node.rlink == null && q + 1 == |InOrder(t)| else s.node.rlink == s.right.node)
  {
    SubInOrder(t, s, i);
    SubLinked(root, t, null, s, i);
    var q := i + |InOrder(s.left)|;
    assert InOrder(t)[q] == InOrder(t)[i..i + |InOrder(s)|][q - i];
    assert InOrder(s)[q - i] == s.node;
  }

  /** A walk over `full` in which `stop` looks at the nodes visited so far, the current one last:
      it visits all of `full`, or stops at the first node at which it is told to. */
  ghost predicate IsWalk(full: seq<Node?>, stop: seq<Node?> -> bool, visited: seq<Node?>) {
    && 0 < |visited| <= |full| && visited == full[..|visited|]
    && (forall k :: 0 < k < |visited| ==> !stop(full[..k]))
    && (|visited| < |full| ==> stop(visited))
  }

  /** A walk that has not been stopped yet. */
  ghost predicate Walking(full: seq<Node?>, stop: seq<Node?> -> bool, visited: seq<Node?>) {
    |visited| <= |full| && visited == full[..|visited|] && forall k :: 0 < k <= |visited| ==> !stop(full[..k])
  }

  lemma WalkOn(full: seq<Node?>, stop: seq<Node?> -> bool, visited: seq<Node?>, node: Node?)
    requires Walking(full, stop, visited) && |visited| < |full| && full[|visited|] == node
    ensures if stop(visited + [node]) then IsWalk(full, stop, visited + [node]) else Walking(full, stop, visited + [node])
    ensures |visited| + 1 == |full| ==> IsWalk(full, stop, visited + [node])
  {
    assert visited + [node] == full[..|visited| + 1];
  }

  /** The nodes of `t` from the `i`-th on, then the null the traversal ends with. */
  ghost predicate Remaining(full: seq<Node?>, t: Tree, i: int) {
    && 0 <= i <= |InOrder(t)| && |full| == |InOrder(t)| - i + 1 && full[|InOrder(t)| - i] == null
    && forall k :: 0 <= k < |InOrder(t)| - i ==> full[k] == InOrder(t)[i + k]
  }

  /** Lines 191-192. */
  method Leftmost(start: Node, ghost root: Node?, ghost t: Tree, ghost s: Tree, ghost i: int)
    returns (node: Node, ghost c: Tree)
    requires Linked(root, t, null) && FullyThreaded(t, null)
    requires SubAt(t, s, i) && s.Bin? && start == s.node
    ensures SubAt(t, c, i) && c.Bin? && c.left.Leaf? && node == c.node
  {
    node, c := start, s;
    AllAllocated(t);
    Step(root, t, c, i);
    while node.llink != null
      invariant SubAt(t, c, i) && c.Bin? && node == c.node
      invariant (node.llink == null <==> c.left.Leaf?) && (c.left.Bin? ==> node.llink == c.left.node)
      decreases c
    {
      SubChildren(t, c, i);
      Step(root, t, c.left, i);
      c, node := c.left, node.llink;
    }
  }

  /** Lines 195-200: on through the threads, from a node already visited. */
  method FollowThreads(from: Node, sofar: seq<Node?>, stop: seq<Node?> -> bool, ghost full: seq<Node?>,
                       ghost root: Node?, ghost t: Tree, ghost s: Tree, ghost i: int, ghost first: int)
    returns (node: Node, visited: seq<Node?>, done: bool, ghost c: Tree, ghost j: int)
    requires Linked(root, t, null) && FullyThreaded(t, null)
    requires Remaining(full, t, first)
    requires s.Bin? && SubAt(t, s, i) && from == s.node && first <= i + |InOrder(s.left)| < |InOrder(t)|
    requires |sofar| == i + |InOrder(s.left)| + 1 - first && Walking(full, stop, sofar)
    ensures done ==> IsWalk(full, stop, visited)
    ensures !done ==>
      && c.Bin? && SubAt(t, c, j) && node == c.node && !node.rflag
      && i + |InOrder(s.left)| <= j + |InOrder(c.left)| < |InOrder(t)|
      && |visited| == j + |InOrder(c.left)| + 1 - first && Walking(full, stop, visited)
  {
    AllAllocated(t);
    node, visited, done, c, j := from, sofar, false, s, i;
    while node.rflag
      invariant c.Bin? && SubAt(t, c, j) && node == c.node
      invariant i + |InOrder(s.left)| <= j + |InOrder(c.left)| < |InOrder(t)|
      invariant |visited| == j + |InOrder(c.left)| + 1 - first && Walking(full, stop, visited)
      decreases |InOrder(t)| - j - |InOrder(c.left)|
    {
      Step(root, t, c, j);
      node := node.rlink;
      WalkOn(full, stop, visited, node);
      visited := visited + [node];
      if stop(visited) {
        done := true;
        return;
      }
      c, j := SubWithRoot(t, j + |InOrder(c.left)| + 1);
    }
  }

  /** Lines 190-201, one round of the outer loop: down to the leftmost node, along the threads, and
      on to the right child of the last node reached. */
  method Round(from: Node, sofar: seq<Node?>, stop: seq<Node?> -> bool, ghost full: seq<Node?>,
               ghost root: Node?, ghost t: Tree, ghost s: Tree, ghost p: int, ghost first: int)
    returns (node: Node?, visited: seq<Node?>, done: bool, ghost c: Tree, ghost p': int)
    requires Linked(root, t, null) && FullyThreaded(t, null)
    requires Remaining(full, t, first) && first <= p
    requires s.Bin? && SubAt(t, s, p) && from == s.node && |sofar| == p - first && Walking(full, stop, sofar)
    ensures done ==> IsWalk(full, stop, visited)
    ensures !done ==>
      && p < p' <= |InOrder(t)| && |visited| == p' - first && Walking(full, stop, visited)
      && SubAt(t, c, p') && node == Root(c) && (c.Leaf? ==> p' == |InOrder(t)|)
  {
    AllAllocated(t);
    done := false;
    p' := p;
    node, c := Leftmost(from, root, t, s, p);
    Step(root, t, c, p);
    WalkOn(full, stop, sofar, node);
    visited := sofar + [node];
    if stop(visited) {
      done := true;
      return;
    }
    ghost var j;
    node, visited, done, c, j := FollowThreads(node, visited, stop, full, root, t, c, p, first);
    if !done {
      Step(root, t, c, j);
      SubChildren(t, c, j);
      node, c, p' := node.rlink, c.right, j + |InOrder(c.left)| + 1;
    }
  }

  /** btree_thread_traverse, started at the root of any subtree `s` of a fully threaded tree `t`.
      The visitor is a function of everything visited so far, which is all a visitor that keeps its
      own state can depend on. */
  method ThreadTraverse(start: Node?, stop: seq<Node?> -> bool, ghost root: Node?, ghost t: Tree, ghost s: Tree, ghost i: int)
    returns (visited: seq<Node?>)
    requires Linked(root, t, null) && FullyThreaded(t, null)
    requires SubAt(t, s, i) && start == Root(s) && (s.Leaf? ==> i == |InOrder(t)|)
    ensures 0 <= i <= |InOrder(t)|
    ensures IsWalk(InOrder(t)[i..] + [null], stop, visited)
  {
    ghost var c, p := s, i;
    SubInOrder(t, s, i);
    AllAllocated(t);
    ghost var full: seq<Node?> := InOrder(t)[i..] + [null];
    assert Remaining(full, t, i);
    visited := [];
    var node := start;
    while node != null
      invariant i <= p <= |InOrder(t)| && |visited| == p - i && Walking(full, stop, visited)
      invariant SubAt(t, c, p) && node == Root(c) && (c.Leaf? ==> p == |InOrder(t)|)
      decreases |InOrder(t)| - p
    {
      var done;
      node, visited, done, c, p := Round(node, visited, stop, full, root, t, c, p, i);
      if done {
        return;
      }
    }
    WalkOn(full, stop, visited, null);
    visited := visited + [null];
  }
}
