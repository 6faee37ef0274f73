/** btree_t: the tree as its clients see it, a strictly sorted sequence of nodes. */
module BTree {
  import opened BTreeShape
  import opened BTreeInsert
  import opened BTreeThreads

  // ---------------------------------------------------------------- order

  ghost predicate Sorted(s: seq<Node>) {
    forall i, j :: 0 <= i < j < |s| ==> s[i].key < s[j].key
  }

  /** Where a new node belongs in a sorted sequence. */
  ghost function Insort(s: seq<Node>, node: Node): seq<Node> {
    if s == [] then [node]
    else if node.key < s[0].key then [node] + s
    else [s[0]] + Insort(s[1..], node)
  }

  ghost function Elems(s: seq<Node>): set<Node> {
    set m | m in s
  }

  ghost predicate KeyFree(s: seq<Node>, key: int) {
    forall i :: 0 <= i < |s| ==> s[i].key != key
  }

  lemma {:induction false} InOrderElems(t: Tree)
    ensures Elems(InOrder(t)) == NodeSet(t)
  {
    if t.Bin? {
      InOrderElems(t.left);
      InOrderElems(t.right);
      assert Elems(InOrder(t)) == Elems(InOrder(t.left)) + {t.node} + Elems(InOrder(t.right));
    }
  }

  lemma {:induction false} InOrderSorted(t: Tree)
    requires Bst(t)
    ensures Sorted(InOrder(t))
  {
    if t.Bin? {
      InOrderSorted(t.left);
      InOrderSorted(t.right);
      InOrderElems(t.left);
      InOrderElems(t.right);
      var l, r := InOrder(t.left), InOrder(t.right);
      forall i | 0 <= i < |l| ensures l[i].key < t.node.key { assert l[i] in Elems(l); }
      forall i | 0 <= i < |r| ensures t.node.key < r[i].key { assert r[i] in Elems(r); }
    }
  }

  lemma {:induction false} InOrderLength(t: Tree)
    requires Bst(t)
    ensures |InOrder(t)| == |NodeSet(t)|
  {
    if t.Bin? {
      BstDisjoint(t);
      InOrderLength(t.left);
      InOrderLength(t.right);
      assert |NodeSet(t.left) + {t.node}| == |NodeSet(t.left)| + 1;
    }
  }

  /** A sorted sequence is determined by its members. */
  lemma {:induction false} SortedUnique(a: seq<Node>, b: seq<Node>)
    requires |a| == |b| && Sorted(a) && Sorted(b) && Elems(a) == Elems(b)
    ensures a == b
  {
    if a != [] {
      assert a[0] in Elems(b) && b[0] in Elems(a);
      assert a[0] == b[0];
      RestElems(a);
      RestElems(b);
      SortedUnique(a[1..], b[1..]);
      assert a == [a[0]] + a[1..] && b == [b[0]] + b[1..];
    }
  }

  lemma RestElems(s: seq<Node>)
    requires Sorted(s) && s != []
    ensures Elems(s[1..]) == Elems(s) - {s[0]}
  {
    forall m | m in Elems(s) && m != s[0] ensures m in Elems(s[1..]) {
      var i :| 0 <= i < |s| && s[i] == m;
      assert s[1..][i - 1] == m;
    }
  }

  lemma ElemsCons(x: Node, s: seq<Node>)
    ensures Elems([x] + s) == {x} + Elems(s)
  {
  }

  lemma {:induction false} InsortElems(s: seq<Node>, node: Node)
    ensures |Insort(s, node)| == |s| + 1 && Elems(Insort(s, node)) == Elems(s) + {node}
  {
    if s == [] || node.key < s[0].key {
      ElemsCons(node, s);
    } else {
      InsortElems(s[1..], node);
      ElemsCons(s[0], s[1..]);
      ElemsCons(s[0], Insort(s[1..], node));
      assert s == [s[0]] + s[1..];
    }
  }

  ghost predicate AllAbove(key: int, s: seq<Node>) {
    forall i :: 0 <= i < |s| ==> key < s[i].key
  }

  lemma AboveElems(key: int, a: seq<Node>, node: Node, b: seq<Node>)
    requires AllAbove(key, a) && key < node.key && Elems(b) == Elems(a) + {node}
    ensures AllAbove(key, b)
  {
    forall i | 0 <= i < |b| ensures key < b[i].key {
      assert b[i] in Elems(b);
    }
  }

  lemma {:induction false} InsortSorted(s: seq<Node>, node: Node)
    requires Sorted(s) && KeyFree(s, node.key)
    ensures Sorted(Insort(s, node))
  {
    if s != [] && s[0].key <= node.key {
      InsortSorted(s[1..], node);
      InsortElems(s[1..], node);
      AboveElems(s[0].key, s[1..], node, Insort(s[1..], node));
    }
  }

  lemma KeyFreeOrder(t: Tree, key: int)
    requires !HasKey(t, key)
    ensures KeyFree(InOrder(t), key)
  {
    InOrderElems(t);
    var s := InOrder(t);
    forall i | 0 <= i < |s| ensures s[i].key != key {
      assert s[i] in Elems(s);
    }
  }

  /** What a search tree that gained one node looks like in order. */
  lemma {:induction false} InsertedOrder(t: Tree, node: Node, t': Tree)
    requires Bst(t) && Bst(t') && !HasKey(t, node.key) && NodeSet(t') == NodeSet(t) + {node}
    ensures InOrder(t') == Insort(InOrder(t), node)
  {
    InOrderSorted(t);
    InOrderSorted(t');
    InOrderLength(t);
    InOrderLength(t');
    InOrderElems(t);
    InOrderElems(t');
    KeyFreeOrder(t, node.key);
    InsortSorted(InOrder(t), node);
    InsortElems(InOrder(t), node);
    assert node !in NodeSet(t);
    SortedUnique(InOrder(t'), Insort(InOrder(t), node));
  }

  // ---------------------------------------------------------------- contents

  /** What the nodes say, as a map from key to value. */
  ghost function MapOf(s: seq<Node>): map<int, string> {
    if s == [] then map[] else MapOf(s[..|s| - 1])[s[|s| - 1].key := s[|s| - 1].value]
  }

  /** Keeping the first value of a key, as a tree that refuses duplicates does. */
  function Store(m: map<int, string>, key: int, value: string): map<int, string> {
    if key in m then m else m[key := value]
  }

  lemma {:induction false} MapOfSorted(s: seq<Node>)
    requires Sorted(s)
    ensures forall k :: k in MapOf(s) <==> !KeyFree(s, k)
    ensures forall i :: 0 <= i < |s| ==> s[i].key in MapOf(s) && MapOf(s)[s[i].key] == s[i].value
  {
    if s != [] {
      var f, last := s[..|s| - 1], s[|s| - 1];
      MapOfSorted(f);
      assert s == f + [last];
      forall k ensures KeyFree(s, k) <==> KeyFree(f, k) && last.key != k {
        assert KeyFree(s, k) ==> s[|s| - 1].key != k;
      }
    }
  }

  /** A sorted sequence says of each of its keys what the map says. */
  lemma MapOfMember(s: seq<Node>, m: Node)
    requires Sorted(s) && m in Elems(s)
    ensures m.key in MapOf(s) && MapOf(s)[m.key] == m.value
  {
    MapOfSorted(s);
  }

  lemma KeyOfMember(s: seq<Node>, k: int) returns (m: Node)
    requires Sorted(s) && k in MapOf(s)
    ensures m in Elems(s) && m.key == k && m.value == MapOf(s)[k]
  {
    MapOfSorted(s);
    var i :| 0 <= i < |s| && s[i].key == k;
    m := s[i];
  }

  /** Two sorted sequences, one with one more member. */
  lemma OneMoreEntry(s: seq<Node>, node: Node, u: seq<Node>)
    requires Sorted(s) && Sorted(u) && Elems(u) == Elems(s) + {node} && node.key !in MapOf(s)
    ensures MapOf(u) == MapOf(s)[node.key := node.value]
  {
    var a, b := MapOf(u), MapOf(s)[node.key := node.value];
    forall k | k in a ensures k in b && a[k] == b[k] {
      var m := KeyOfMember(u, k);
      if m != node {
        MapOfMember(s, m);
      }
    }
    forall k | k in b ensures k in a {
      if k == node.key {
        MapOfMember(u, node);
      } else {
        var m := KeyOfMember(s, k);
        MapOfMember(u, m);
      }
    }
  }

  lemma InsortContents(s: seq<Node>, node: Node)
    requires Sorted(s) && KeyFree(s, node.key)
    ensures node.key !in MapOf(s) && MapOf(Insort(s, node)) == MapOf(s)[node.key := node.value]
  {
    InsortSorted(s, node);
    InsortElems(s, node);
    MapOfSorted(s);
    OneMoreEntry(s, node, Insort(s, node));
  }

  // ---------------------------------------------------------------- the tree

  /** A step of a client. */
  datatype Op = Add(key: int, value: string) | Rethread

  function Replay(m: map<int, string>, ops: seq<Op>): map<int, string> {
    if ops == [] then m else
      var before := Replay(m, ops[..|ops| - 1]);
      match ops[|ops| - 1]
      case Add(key, value) => Store(before, key, value)
      case Rethread => before
  }

  class BTree {
    var root: Node?
    ghost var t: Tree

    ghost predicate Valid()
      reads this, NodeSet(t)
    {
      Good(root, t, null)
    }

    ghost function Order(): seq<Node>
      reads this
    {
      InOrder(t)
    }

    ghost function Contents(): map<int, string>
      reads this
    {
      MapOf(InOrder(t))
    }

    /** btree_init. */
    constructor ()
      ensures Valid() && Order() == [] && t == Leaf
    {
      root, t := null, Leaf;
    }

    /** btree_insert. A node whose key is present is refused, and then nothing changes. */
    method Insert(node: Node) returns (added: bool)
      requires Valid() && node !in NodeSet(t)
      modifies this, NodeSet(t), node
      ensures Valid()
      ensures added <==> !HasKey(old(t), node.key)
      ensures if added then NodeSet(t) == old(NodeSet(t)) + {node} else t == old(t) && root == old(root)
      ensures Order() == if added then Insort(old(Order()), node) else old(Order())
      ensures Contents() == Store(old(Contents()), node.key, node.value)
    {
      AllAllocated(t);
      node.llink, node.rlink, node.balance, node.rflag := null, null, 0, false;
      var r, ret;
      ghost var t', t0 := t, t;
      r, ret, t' := InternalInsert(root, node, t, null);
      root, t := r, t';
      added := ret != Exist;
      KeysOfOrder(t0, node.key);
      if added {
        InsertedOrder(t0, node, t');
        InOrderSorted(t0);
        KeyFreeOrder(t0, node.key);
        InsortContents(InOrder(t0), node);
      }
    }

    /** btree_build_in_order_threading. */
    method BuildThreads()
      requires Valid()
      modifies NodeSet(t)
      ensures Valid() && FullyThreaded(t, null)
    {
      var last := ThreadInOrder(root, null, t, null);
    }

    /** btree_visit, returning the node it visits. */
    method Find(key: int) returns (found: Node?)
      requires Valid()
      ensures found == null <==> !HasKey(t, key)
      ensures found != null ==> found in NodeSet(t) && found.key == key
    {
      var next := root;
      ghost var c := t;
      ghost var succ: Node? := null;
      AllAllocated(t);
      while next != null
        invariant Linked(next, c, succ) && Bst(c) && NodeSet(c) <= NodeSet(t)
        invariant HasKey(t, key) <==> HasKey(c, key)
        decreases c
      {
        if next.key == key {
          assert next in NodeSet(c);
          return next;
        }
        HasKeyInside(c, key);
        if key > next.key {
          if next.rflag {
            next, c := null, c.right;
          } else {
            next, c := next.rlink, c.right;
          }
        } else {
          succ := next;
          next, c := next.llink, c.left;
        }
      }
      found := null;
    }

    /** Any interleaving of insertions and rethreadings keeps the tree valid, threads included. */
    method Run(ops: seq<Op>)
      requires Valid()
      modifies this, NodeSet(t)
      ensures Valid() && Contents() == Replay(old(Contents()), ops)
    {
      for n := 0 to |ops|
        invariant Valid() && fresh(NodeSet(t) - old(NodeSet(t)))
        invariant Contents() == Replay(old(Contents()), ops[..n])
      {
        assert ops[..n + 1][..n] == ops[..n];
        AllAllocated(t);
        match ops[n] {
          case Add(key, value) =>
            var node := new Node(key, value);
            var added := Insert(node);
          case Rethread =>
            BuildThreads();
        }
      }
      assert ops[..|ops|] == ops;
    }
  }

  lemma KeysOfOrder(t: Tree, key: int)
    requires Bst(t)
    ensures HasKey(t, key) <==> key in MapOf(InOrder(t))
  {
    InOrderSorted(t);
    MapOfSorted(InOrder(t));
    InOrderElems(t);
    var s := InOrder(t);
    if HasKey(t, key) {
      var m :| m in NodeSet(t) && m.key == key;
      assert m in Elems(s);
    } else {
      KeyFreeOrder(t, key);
    }
  }
}
