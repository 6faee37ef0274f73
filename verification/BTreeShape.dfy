/** The threaded AVL tree of btree.c: its nodes, and what it means for them to form a tree.

    A node's right link is either a child or, when `rflag` is set, a thread to the in-order
    successor, so the heap is not a tree. The proofs therefore speak of a ghost `Tree` of node
    references and of predicates that tie the link fields to it. Keys never change once a node
    exists, so search order is a fact about the ghost tree alone. */
module BTreeShape {

  newtype int8 = x: int | -0x80 <= x < 0x80

  /** bt_node_entry_t, followed by the header value that http_header_t stores behind it. */
  class Node {
    const key: int
    const value: string
    var balance: int8
    var rflag: bool
    var llink: Node?
    var rlink: Node?

    constructor (key: int, value: string)
      ensures this.key == key && this.value == value
    {
      this.key := key;
      this.value := value;
      balance, rflag, llink, rlink := 0, false, null, null;
    }
  }

  datatype Tree = Leaf | Bin(left: Tree, node: Node, right: Tree)

  // ---------------------------------------------------------------- the ghost tree

  ghost function NodeSet(t: Tree): set<Node> {
    if t.Leaf? then {} else NodeSet(t.left) + {t.node} + NodeSet(t.right)
  }

  ghost function InOrder(t: Tree): seq<Node> {
    if t.Leaf? then [] else InOrder(t.left) + [t.node] + InOrder(t.right)
  }

  ghost function Height(t: Tree): nat {
    if t.Leaf? then 0 else 1 + Max(Height(t.left), Height(t.right))
  }

  function Max(a: int, b: int): int {
    if a < b then b else a
  }

  ghost predicate Bst(t: Tree) {
    t.Bin? ==>
      && Bst(t.left) && Bst(t.right)
      && (forall m :: m in NodeSet(t.left) ==> m.key < t.node.key)
      && (forall m :: m in NodeSet(t.right) ==> t.node.key < m.key)
  }

  ghost predicate Avl(t: Tree) {
    t.Bin? ==> Avl(t.left) && Avl(t.right) && -1 <= Height(t.left) - Height(t.right) <= 1
  }

  ghost predicate HasKey(t: Tree, key: int) {
    exists m :: m in NodeSet(t) && m.key == key
  }

  // ---------------------------------------------------------------- the heap against the ghost tree

  /** The fields from `root` down spell out `t`: child links are the subtrees, every stored balance
      factor is left height minus right height, and every thread that is present sits on a node
      without a right child and leads to its in-order successor. `succ` is the node that follows
      the whole of `t`. Threads may be missing. */
  ghost predicate Linked(root: Node?, t: Tree, succ: Node?)
    reads NodeSet(t)
  {
    match t
    case Leaf => root == null
    case Bin(l, n, r) =>
      && root == n
      && n.balance as int == Height(l) - Height(r)
      && Linked(n.llink, l, n)
      && if n.rflag then r == Leaf && succ != null && n.rlink == succ else Linked(n.rlink, r, succ)
  }

  /** `Linked`, except that the balance factor at the top may be out of date. */
  ghost predicate Stale(root: Node?, t: Tree, succ: Node?)
    requires t.Bin?
    reads NodeSet(t)
  {
    && root == t.node
    && Linked(root.llink, t.left, root)
    && if root.rflag then t.right == Leaf && succ != null && root.rlink == succ else Linked(root.rlink, t.right, succ)
  }

  /** Every node without a right child has its thread; only the last node of all has none. */
  ghost predicate FullyThreaded(t: Tree, succ: Node?)
    reads NodeSet(t)
  {
    t.Bin? ==>
      && FullyThreaded(t.left, t.node)
      && FullyThreaded(t.right, succ)
      && (t.right.Leaf? && succ != null ==> t.node.rflag)
  }

  /** The nodes of a tree value that exists are objects that exist. */
  lemma AllAllocated(t: Tree)
    ensures forall m :: m in NodeSet(t) ==> allocated(m)
  {
  }

  /** A node's two subtrees and the node itself are apart, because their keys are. */
  lemma {:induction false} BstDisjoint(t: Tree)
    requires t.Bin? && Bst(t)
    ensures NodeSet(t.left) !! NodeSet(t.right)
    ensures t.node !in NodeSet(t.left) && t.node !in NodeSet(t.right)
  {
  }

  /** Everything insertion keeps. */
  ghost predicate Good(root: Node?, t: Tree, succ: Node?)
    reads NodeSet(t)
  {
    Linked(root, t, succ) && Bst(t) && Avl(t)
  }

  ghost function Root(t: Tree): Node? {
    if t.Leaf? then null else t.node
  }
}
