/** Insertion into the threaded AVL tree (btree.c:83-165). The C code passes the address of the link
    it may replace; here the new subtree root is returned and the caller stores it. */
module BTreeInsert {
  import opened BTreeShape

  /** e_insert_result_t. */
  datatype InsertResult = Exist | Ok | Left | Right | Balanced

  // ---------------------------------------------------------------- rotations

  ghost function RotateLeft(t: Tree): Tree
    requires t.Bin? && t.right.Bin?
  {
    Bin(Bin(t.left, t.node, t.right.left), t.right.node, t.right.right)
  }

  ghost function RotateRight(t: Tree): Tree
    requires t.Bin? && t.left.Bin?
  {
    Bin(t.left.left, t.left.node, Bin(t.left.right, t.node, t.right))
  }

  ghost predicate FitsInt8(x: int) {
    -0x80 <= x < 0x80
  }

  /** A rotation changes neither the nodes nor their order. */
  lemma {:induction false} RotateLeftKeepsOrder(t: Tree)
    requires t.Bin? && t.right.Bin?
    ensures InOrder(RotateLeft(t)) == InOrder(t)
    ensures NodeSet(RotateLeft(t)) == NodeSet(t)
    ensures Bst(t) ==> Bst(RotateLeft(t))
  {
    var l, n, r := t.left, t.node, t.right;
    assert InOrder(RotateLeft(t)) == InOrder(l) + [n] + InOrder(r.left) + [r.node] + InOrder(r.right);
    if Bst(t) {
      assert Bst(r) && r.node in NodeSet(r);
      assert forall m :: m in NodeSet(r.left) ==> m in NodeSet(r);
      assert Bst(Bin(l, n, r.left));
    }
  }

  lemma {:induction false} RotateRightKeepsOrder(t: Tree)
    requires t.Bin? && t.left.Bin?
    ensures InOrder(RotateRight(t)) == InOrder(t)
    ensures NodeSet(RotateRight(t)) == NodeSet(t)
    ensures Bst(t) ==> Bst(RotateRight(t))
  {
    var l, n, r := t.left, t.node, t.right;
    assert InOrder(RotateRight(t)) == InOrder(l.left) + [l.node] + InOrder(l.right) + [n] + InOrder(r);
    if Bst(t) {
      assert Bst(l) && l.node in NodeSet(l);
      assert forall m :: m in NodeSet(l.right) ==> m in NodeSet(l);
      assert Bst(Bin(l.right, n, r));
    }
  }

  /** Lines 147 and 148, for arbitrary heights: they compute the true balance factors of the two
      rotated nodes from the true old ones. */
  function LeftLowered(b: int, nb: int): int {
    b + if nb < 0 then 1 - nb else 1
  }

  function LeftRaised(lowered: int, nb: int): int {
    nb + if lowered > 0 then 1 + lowered else 1
  }

  lemma {:induction false} LeftRotationFactors(t: Tree)
    requires t.Bin? && t.right.Bin?
    ensures var b, nb := Height(t.left) - Height(t.right), Height(t.right.left) - Height(t.right.right);
            var u := RotateLeft(t);
            && LeftLowered(b, nb) == Height(u.left.left) - Height(u.left.right)
            && LeftRaised(LeftLowered(b, nb), nb) == Height(u.left) - Height(u.right)
  {
  }

  /** Lines 161 and 162. */
  function RightLowered(b: int, nb: int): int {
    b - if nb > 0 then 1 + nb else 1
  }

  function RightRaised(lowered: int, nb: int): int {
    nb - if lowered < 0 then 1 - lowered else 1
  }

  lemma {:induction false} RightRotationFactors(t: Tree)
    requires t.Bin? && t.left.Bin?
    ensures var b, nb := Height(t.left) - Height(t.right), Height(t.left.left) - Height(t.left.right);
            var u := RotateRight(t);
            && RightLowered(b, nb) == Height(u.right.left) - Height(u.right.right)
            && RightRaised(RightLowered(b, nb), nb) == Height(u.left) - Height(u.right)
  {
  }

  /** btree_left_rotate. The new factors must fit the field; nothing bounds the heights. */
  method LeftRotate(root: Node, ghost t: Tree, ghost succ: Node?) returns (newRoot: Node)
    requires Linked(root, t, succ) && Bst(t)
    requires t.Bin? && t.right.Bin?
    requires FitsInt8(Height(RotateLeft(t).left.left) - Height(RotateLeft(t).left.right))
    requires FitsInt8(Height(RotateLeft(t).left) - Height(RotateLeft(t).right))
    modifies t.node, t.right.node
    ensures newRoot == t.right.node && Linked(newRoot, RotateLeft(t), succ)
  {
    newRoot := root.rlink;
    assert newRoot in NodeSet(t.right);
    root.rlink := newRoot.llink;
    newRoot.llink := root;
    LeftRotationFactors(t);
    var lowered := LeftLowered(root.balance as int, newRoot.balance as int);
    var raised := LeftRaised(lowered, newRoot.balance as int);
    root.balance, newRoot.balance := lowered as int8, raised as int8;
  }

  /** btree_right_rotate: a thread on the left child is dropped, because its right link becomes a
      child link again. */
  method RightRotate(root: Node, ghost t: Tree, ghost succ: Node?) returns (newRoot: Node)
    requires Linked(root, t, succ) && Bst(t)
    requires t.Bin? && t.left.Bin?
    requires FitsInt8(Height(RotateRight(t).right.left) - Height(RotateRight(t).right.right))
    requires FitsInt8(Height(RotateRight(t).left) - Height(RotateRight(t).right))
    modifies t.node, t.left.node
    ensures newRoot == t.left.node && Linked(newRoot, RotateRight(t), succ)
  {
    newRoot := root.llink;
    assert newRoot in NodeSet(t.left);
    root.llink := if newRoot.rflag then null else newRoot.rlink;
    newRoot.rflag := false;
    newRoot.rlink := root;
    RightRotationFactors(t);
    var lowered := RightLowered(root.balance as int, newRoot.balance as int);
    var raised := RightRaised(lowered, newRoot.balance as int);
    root.balance, newRoot.balance := lowered as int8, raised as int8;
  }

  // ---------------------------------------------------------------- insertion

  /** What a result code says about the tree before and after: whether it grew, and which side
      of it is now the higher one. */
  ghost predicate Describes(ret: InsertResult, t: Tree, t': Tree) {
    match ret
    case Exist => t' == t
    case Ok => t.Leaf? && Height(t') == 1
    case Left => t.Bin? && t'.Bin? && Height(t') == Height(t) + 1 && Height(t'.left) == Height(t'.right) + 1
    case Right => t.Bin? && t'.Bin? && Height(t') == Height(t) + 1 && Height(t'.right) == Height(t'.left) + 1
    case Balanced => t.Bin? && Height(t') == Height(t)
  }

  /** The height arithmetic of the four rebalancing cases. */
  lemma {:induction false} SingleLeftHeights(t: Tree)
    requires t.Bin? && t.right.Bin? && Avl(t.left) && Avl(t.right)
    requires Height(t.right) == Height(t.left) + 2 && Height(t.right.right) == Height(t.right.left) + 1
    ensures Avl(RotateLeft(t)) && Height(RotateLeft(t)) == Height(t) - 1
    ensures Height(RotateLeft(t).left) == Height(RotateLeft(t).right)
  {
    assert Avl(Bin(t.left, t.node, t.right.left));
  }

  lemma {:induction false} SingleRightHeights(t: Tree)
    requires t.Bin? && t.left.Bin? && Avl(t.left) && Avl(t.right)
    requires Height(t.left) == Height(t.right) + 2 && Height(t.left.left) == Height(t.left.right) + 1
    ensures Avl(RotateRight(t)) && Height(RotateRight(t)) == Height(t) - 1
    ensures Height(RotateRight(t).left) == Height(RotateRight(t).right)
  {
    assert Avl(Bin(t.left.right, t.node, t.right));
  }

  lemma {:induction false} DoubleLeftHeights(t: Tree)
    requires t.Bin? && t.right.Bin? && t.right.left.Bin? && Avl(t.left) && Avl(t.right)
    requires Height(t.right) == Height(t.left) + 2 && Height(t.right.left) == Height(t.right.right) + 1
    ensures var u := RotateLeft(Bin(t.left, t.node, RotateRight(t.right)));
            Avl(u) && Height(u) == Height(t) - 1 && Height(u.left) == Height(u.right)
  {
    assert Avl(t.right.left);
    assert Avl(Bin(t.left, t.node, t.right.left.left));
    assert Avl(Bin(t.right.left.right, t.right.node, t.right.right));
  }

  lemma {:induction false} DoubleRightHeights(t: Tree)
    requires t.Bin? && t.left.Bin? && t.left.right.Bin? && Avl(t.left) && Avl(t.right)
    requires Height(t.left) == Height(t.right) + 2 && Height(t.left.right) == Height(t.left.left) + 1
    ensures var u := RotateRight(Bin(RotateLeft(t.left), t.node, t.right));
            Avl(u) && Height(u) == Height(t) - 1 && Height(u.left) == Height(u.right)
  {
    assert Avl(t.left.right);
    assert Avl(Bin(t.left.right.right, t.node, t.right));
    assert Avl(Bin(t.left.left, t.left.node, t.left.right.left));
  }


  /** Line 110: `btree_right_rotate(&(*root)->rlink)`. */
  method RotateInnerRight(root: Node, ghost t: Tree, ghost succ: Node?) returns (ghost t': Tree)
    requires t.Bin? && Stale(root, t, succ) && Bst(t) && Avl(t.right) && t.right.Bin? && t.right.left.Bin?
    modifies NodeSet(t.right), root`rlink
    ensures t' == Bin(t.left, t.node, RotateRight(t.right)) && NodeSet(t') == NodeSet(t) && Bst(t')
    ensures Stale(root, t', succ)
  {
    BstDisjoint(t);
    AllAllocated(t.left);
    RotateRightKeepsOrder(t.right);
    assert Avl(t.right.left);
    var c := RightRotate(root.rlink, t.right, succ);
    root.rlink := c;
    t' := Bin(t.left, t.node, RotateRight(t.right));
  }

  /** Lines 109-111, the right subtree being two levels higher. */
  method RebalanceRight(root: Node, grown: InsertResult, ghost t: Tree, ghost succ: Node?)
    returns (newRoot: Node, ghost t': Tree)
    requires t.Bin? && t.right.Bin? && Linked(root, t, succ) && Bst(t) && Avl(t.left) && Avl(t.right)
    requires Height(t.right) == Height(t.left) + 2
    requires if grown == Left then Height(t.right.left) == Height(t.right.right) + 1
             else Height(t.right.right) == Height(t.right.left) + 1
    modifies NodeSet(t)
    ensures Good(newRoot, t', succ) && NodeSet(t') == NodeSet(t)
    ensures t'.Bin? && Height(t') == Height(t) - 1 && newRoot.balance == 0
  {
    t' := t;
    if grown == Left {
      DoubleLeftHeights(t);
      t' := RotateInnerRight(root, t, succ);
    } else {
      SingleLeftHeights(t);
    }
    RotateLeftKeepsOrder(t');
    newRoot := LeftRotate(root, t', succ);
    t' := RotateLeft(t');
  }

  /** Line 129: `btree_left_rotate(&(*root)->llink)`. */
  method RotateInnerLeft(root: Node, ghost t: Tree, ghost succ: Node?) returns (ghost t': Tree)
    requires t.Bin? && Stale(root, t, succ) && Bst(t) && Avl(t.left) && t.left.Bin? && t.left.right.Bin?
    modifies NodeSet(t.left), root`llink
    ensures t' == Bin(RotateLeft(t.left), t.node, t.right) && NodeSet(t') == NodeSet(t) && Bst(t')
    ensures Stale(root, t', succ)
  {
    BstDisjoint(t);
    AllAllocated(t.right);
    RotateLeftKeepsOrder(t.left);
    assert Avl(t.left.right);
    var c := LeftRotate(root.llink, t.left, root);
    root.llink := c;
    t' := Bin(RotateLeft(t.left), t.node, t.right);
  }

  /** Lines 128-130, the left subtree being two levels higher. */
  method RebalanceLeft(root: Node, grown: InsertResult, ghost t: Tree, ghost succ: Node?)
    returns (newRoot: Node, ghost t': Tree)
    requires t.Bin? && t.left.Bin? && Linked(root, t, succ) && Bst(t) && Avl(t.left) && Avl(t.right)
    requires Height(t.left) == Height(t.right) + 2
    requires if grown == Right then Height(t.left.right) == Height(t.left.left) + 1
             else Height(t.left.left) == Height(t.left.right) + 1
    modifies NodeSet(t)
    ensures Good(newRoot, t', succ) && NodeSet(t') == NodeSet(t)
    ensures t'.Bin? && Height(t') == Height(t) - 1 && newRoot.balance == 0
  {
    t' := t;
    if grown == Right {
      DoubleRightHeights(t);
      t' := RotateInnerLeft(root, t, succ);
    } else {
      SingleRightHeights(t);
    }
    RotateRightKeepsOrder(t');
    newRoot := RightRotate(root, t', succ);
    t' := RotateRight(t');
  }

  /** Lines 104-117: the right subtree has been replaced by one that an insertion produced. */
  method RightGrew(root: Node, grown: InsertResult, ghost r0: Tree, ghost t: Tree, ghost succ: Node?)
    returns (newRoot: Node, ret: InsertResult, ghost t': Tree)
    requires t.Bin? && Stale(root, t, succ) && Bst(t) && Avl(t.left) && Avl(t.right)
    requires root.balance as int == Height(t.left) - Height(r0) && -1 <= root.balance <= 1
    requires grown in {Ok, Left, Right} && Describes(grown, r0, t.right)
    modifies NodeSet(t)
    ensures Good(newRoot, t', succ) && NodeSet(t') == NodeSet(t)
    ensures ret in {Right, Balanced} && Describes(ret, Bin(t.left, t.node, r0), t')
  {
    BstDisjoint(t);
    t', newRoot := t, root;
    root.balance := root.balance - 1;
    if root.balance == -2 {
      newRoot, t' := RebalanceRight(root, grown, t, succ);
      assert newRoot.balance == 0;
    }
    ret := if newRoot.balance != 0 then Right else Balanced;
  }

  /** Lines 123-136, the mirror image. */
  method LeftGrew(root: Node, grown: InsertResult, ghost l0: Tree, ghost t: Tree, ghost succ: Node?)
    returns (newRoot: Node, ret: InsertResult, ghost t': Tree)
    requires t.Bin? && Stale(root, t, succ) && Bst(t) && Avl(t.left) && Avl(t.right)
    requires root.balance as int == Height(l0) - Height(t.right) && -1 <= root.balance <= 1
    requires grown in {Ok, Left, Right} && Describes(grown, l0, t.left)
    modifies NodeSet(t)
    ensures Good(newRoot, t', succ) && NodeSet(t') == NodeSet(t)
    ensures ret in {Left, Balanced} && Describes(ret, Bin(l0, t.node, t.right), t')
  {
    BstDisjoint(t);
    t', newRoot := t, root;
    root.balance := root.balance + 1;
    if root.balance == 2 {
      newRoot, t' := RebalanceLeft(root, grown, t, succ);
      assert newRoot.balance == 0;
    }
    ret := if newRoot.balance != 0 then Left else Balanced;
  }

  lemma {:induction false} HasKeyInside(t: Tree, key: int)
    requires t.Bin? && Bst(t)
    ensures t.node.key < key ==> (HasKey(t, key) <==> HasKey(t.right, key))
    ensures key < t.node.key ==> (HasKey(t, key) <==> HasKey(t.left, key))
  {
  }

  lemma {:induction false} BstGrows(t: Tree, node: Node, t': Tree)
    requires t.Bin? && Bst(t) && t'.Bin? && t'.node == t.node && Bst(t'.left) && Bst(t'.right)
    requires || (t'.left == t.left && NodeSet(t'.right) <= NodeSet(t.right) + {node} && t.node.key < node.key)
             || (t'.right == t.right && NodeSet(t'.left) <= NodeSet(t.left) + {node} && node.key < t.node.key)
    ensures Bst(t')
  {
  }

  /** A node that is about to be inserted, as btree_insert prepares it. */
  predicate Unlinked(node: Node)
    reads node
  {
    node.llink == null && node.rlink == null && !node.rflag && node.balance == 0
  }

  /** What one insertion promises about the tree. */
  ghost predicate Inserted(t: Tree, node: Node, ret: InsertResult, t': Tree) {
    && Describes(ret, t, t')
    && (ret == Exist <==> HasKey(t, node.key))
    && (ret != Exist ==> NodeSet(t') == NodeSet(t) + {node})
  }

  /** An insertion into one subtree, taken up to the whole tree. */
  lemma {:induction false} InsertedRight(t: Tree, node: Node, ret: InsertResult, r': Tree)
    requires t.Bin? && Bst(t) && t.node.key < node.key && Inserted(t.right, node, ret, r') && Bst(r')
    ensures var u := Bin(t.left, t.node, r');
            && Bst(u) && (ret == Exist <==> HasKey(t, node.key)) && (ret == Exist ==> u == t)
            && (ret != Exist ==> NodeSet(u) == NodeSet(t) + {node})
  {
    HasKeyInside(t, node.key);
    BstGrows(t, node, Bin(t.left, t.node, r'));
  }

  lemma {:induction false} InsertedLeft(t: Tree, node: Node, ret: InsertResult, l': Tree)
    requires t.Bin? && Bst(t) && node.key < t.node.key && Inserted(t.left, node, ret, l') && Bst(l')
    ensures var u := Bin(l', t.node, t.right);
            && Bst(u) && (ret == Exist <==> HasKey(t, node.key)) && (ret == Exist ==> u == t)
            && (ret != Exist ==> NodeSet(u) == NodeSet(t) + {node})
  {
    HasKeyInside(t, node.key);
    BstGrows(t, node, Bin(l', t.node, t.right));
  }

  /** btree_internal_insert; `newRoot` is what the C code stores back through its `**root`. */
  method InternalInsert(root: Node?, node: Node, ghost t: Tree, ghost succ: Node?)
    returns (newRoot: Node, ret: InsertResult, ghost t': Tree)
    requires Good(root, t, succ) && node !in NodeSet(t) && Unlinked(node)
    modifies NodeSet(t), node
    ensures Good(newRoot, t', succ) && Inserted(t, node, ret, t')
    decreases t, 2
  {
    if root == null {
      newRoot, ret, t' := node, Ok, Bin(Leaf, node, Leaf);
    } else if node.key == root.key {
      assert root in NodeSet(t);
      newRoot, ret, t' := root, Exist, t;
    } else if node.key > root.key {
      newRoot, ret, t' := InsertRight(root, node, t, succ);
    } else {
      newRoot, ret, t' := InsertLeft(root, node, t, succ);
    }
  }

  /** Lines 98-103: drop a thread, then insert below the right link. */
  method DescendRight(root: Node, node: Node, ghost t: Tree, ghost succ: Node?)
    returns (ret: InsertResult, ghost r': Tree)
    requires t.Bin? && Good(root, t, succ) && node !in NodeSet(t) && Unlinked(node)
    modifies NodeSet(t.right), node, root`rlink, root`rflag
    ensures Stale(root, Bin(t.left, root, r'), succ) && Bst(r') && Avl(r') && Inserted(t.right, node, ret, r')
    decreases t, 0
  {
    BstDisjoint(t);
    AllAllocated(t.left);
    if root.rflag {
      root.rflag := false;
      root.rlink := null;
    }
    var c;
    c, ret, r' := InternalInsert(root.rlink, node, t.right, succ);
    root.rlink := c;
  }

  /** Lines 95-118. */
  method InsertRight(root: Node, node: Node, ghost t: Tree, ghost succ: Node?)
    returns (newRoot: Node, ret: InsertResult, ghost t': Tree)
    requires t.Bin? && Good(root, t, succ) && node !in NodeSet(t) && Unlinked(node) && root.key < node.key
    modifies NodeSet(t), node
    ensures Good(newRoot, t', succ) && Inserted(t, node, ret, t')
    decreases t, 1
  {
    ghost var r';
    ret, r' := DescendRight(root, node, t, succ);
    InsertedRight(t, node, ret, r');
    newRoot, t' := root, Bin(t.left, root, r');
    if ret in {Ok, Left, Right} {
      newRoot, ret, t' := RightGrew(root, ret, t.right, t', succ);
    }
  }

  /** Line 122: insert below the left link. */
  method DescendLeft(root: Node, node: Node, ghost t: Tree, ghost succ: Node?)
    returns (ret: InsertResult, ghost l': Tree)
    requires t.Bin? && Good(root, t, succ) && node !in NodeSet(t) && Unlinked(node)
    modifies NodeSet(t.left), node, root`llink
    ensures Stale(root, Bin(l', root, t.right), succ) && Bst(l') && Avl(l') && Inserted(t.left, node, ret, l')
    decreases t, 0
  {
    BstDisjoint(t);
    AllAllocated(t.right);
    var c;
    c, ret, l' := InternalInsert(root.llink, node, t.left, root);
    root.llink := c;
  }

  /** Lines 119-137. */
  method InsertLeft(root: Node, node: Node, ghost t: Tree, ghost succ: Node?)
    returns (newRoot: Node, ret: InsertResult, ghost t': Tree)
    requires t.Bin? && Good(root, t, succ) && node !in NodeSet(t) && Unlinked(node) && node.key < root.key
    modifies NodeSet(t), node
    ensures Good(newRoot, t', succ) && Inserted(t, node, ret, t')
    decreases t, 1
  {
    ghost var l';
    ret, l' := DescendLeft(root, node, t, succ);
    InsertedLeft(t, node, ret, l');
    newRoot, t' := root, Bin(l', root, t.right);
    if ret in {Ok, Left, Right} {
      newRoot, ret, t' := LeftGrew(root, ret, t.left, t', succ);
    }
  }
}
