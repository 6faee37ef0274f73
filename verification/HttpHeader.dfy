/** The header collection of http_header.c: a tree of header values keyed by table id, filled by the
    parser and printed along the threads. */
module HttpHeader {
  import opened BTreeShape
  import opened BTreeThreads
  import opened BTree
  import opened HeaderTable
  import opened HeaderText

  // ---------------------------------------------------------------- adding a field

  /** http_header_add on the collection's map: unknown names, empty strings and ids that are already
      present change nothing. */
  function AddField(names: seq<string>, m: map<int, string>, name: string, value: string): map<int, string> {
    if (name != "" && name[0] == NUL) || value == "" || value[0] == NUL || Scan(names, name) == -1 then m
    else Store(m, Scan(names, name), value)
  }

  function AddFields(names: seq<string>, m: map<int, string>, fields: seq<(string, string)>): map<int, string> {
    if fields == [] then m
    else
      var last := fields[|fields| - 1];
      AddField(names, AddFields(names, m, fields[..|fields| - 1]), last.0, last.1)
  }

  /** A field whose name is one of the table, in whatever case, is added under that id, unless the id is there
      already; an empty value and an unknown name change nothing. */
  lemma AddedExactly(names: seq<string>, m: map<int, string>, name: string, value: string, id: nat)
    requires DistinctHashes(names) && id < |names| && NoNul(name) && NoNul(value)
    ensures SameLetters(name, names[id]) && value != "" ==> AddField(names, m, name, value) == if id in m then m else m[id := value]
    ensures value == "" || (forall k :: 0 <= k < |names| ==> Hash(names[k]) != Hash(name)) ==> AddField(names, m, name, value) == m
  {
    if SameLetters(name, names[id]) {
      CaseVariantFound(names, id, name);
    }
  }

  lemma AddFieldsOne(names: seq<string>, m: map<int, string>, fields: seq<(string, string)>, name: string, value: string)
    ensures AddFields(names, m, fields + [(name, value)]) == AddField(names, AddFields(names, m, fields), name, value)
  {
    assert (fields + [(name, value)])[..|fields|] == fields;
  }

  lemma {:induction false} AddFieldsInParts(names: seq<string>, m: map<int, string>, a: seq<(string, string)>, b: seq<(string, string)>)
    ensures AddFields(names, m, a + b) == AddFields(names, AddFields(names, m, a), b)
  {
    if b == [] {
      assert a + b == a;
    } else {
      AddFieldsInParts(names, m, a, b[..|b| - 1]);
      assert (a + b)[..|a + b| - 1] == a + b[..|b| - 1];
    }
  }

  /** What one call of the parser leaves: the collection, `*rdlen`, `*is_end`, and a return of -1. */
  datatype Loaded = Loaded(m: map<int, string>, consumed: nat, end: bool, failed: bool) {
    function Later(n: nat): Loaded {
      Loaded(m, n + consumed, end, failed)
    }
  }

  /** The effect of the parser on a collection, line by line. */
  function Load(names: seq<string>, m: map<int, string>, b: string): Loaded
    decreases |b|
  {
    match ScanLine(b)
    case Incomplete => Loaded(m, 0, false, false)
    case Bad => Loaded(m, 0, false, true)
    case Blank(n) => Loaded(m, n, true, false)
    case Field(name, value, n) => Load(names, AddField(names, m, name, value), b[n..]).Later(n)
  }

  /** It is the parse, with every field handed to http_header_add in order. */
  lemma {:induction false} LoadIsParse(names: seq<string>, m: map<int, string>, b: string)
    ensures var r := Parse(b); Load(names, m, b) == Loaded(AddFields(names, m, r.fields), r.consumed, r.end, r.failed)
    decreases |b|
  {
    var l := ScanLine(b);
    if l.Field? {
      var m' := AddField(names, m, l.name, l.value);
      LoadIsParse(names, m', b[l.n..]);
      AddFieldsOne(names, m, [], l.name, l.value);
      AddFieldsInParts(names, m, [(l.name, l.value)], Parse(b[l.n..]).fields);
    }
  }

  /** What `LoadExtends` says of one string. */
  ghost predicate LoadContinues(names: seq<string>, m: map<int, string>, b: string, x: string) {
    var l := Load(names, m, b);
    && l.consumed <= |b|
    && Load(names, m, b + x) == if l.end || l.failed then l else Load(names, l.m, b[l.consumed..] + x).Later(l.consumed)
  }

  /** A line that is the same in `b` and in `b + x` leaves the question to what follows it. */
  lemma {:induction false} LoadContinuesBehind(names: seq<string>, m: map<int, string>, b: string, x: string,
                                               m': map<int, string>, n: nat)
    requires 0 < n <= |b| && LoadContinues(names, m', b[n..], x)
    requires Load(names, m, b) == Load(names, m', b[n..]).Later(n)
    requires Load(names, m, b + x) == Load(names, m', (b + x)[n..]).Later(n)
    ensures LoadContinues(names, m, b, x)
  {
    DropAppend(b, x, n);
    DropDrop(b, n, Load(names, m', b[n..]).consumed);
  }

  /** Loading more bytes: a finished or failed load stays as it is, an unfinished one goes on from the
      collection it left, on its unconsumed tail. */
  lemma {:induction false} LoadExtends(names: seq<string>, m: map<int, string>, b: string, x: string)
    ensures var l := Load(names, m, b);
      && l.consumed <= |b|
      && Load(names, m, b + x) == if l.end || l.failed then l else Load(names, l.m, b[l.consumed..] + x).Later(l.consumed)
    decreases |b|
  {
    var l := ScanLine(b);
    if l == Incomplete {
      assert b[0..] == b;
    } else {
      HeaderText.LineStable(b, x, 0, HeaderText.Fresh);
      if l.Field? {
        var m' := AddField(names, m, l.name, l.value);
        LoadExtends(names, m', b[l.n..], x);
        LoadContinuesBehind(names, m, b, x, m', l.n);
      }
    }
  }

  // ---------------------------------------------------------------- the printed fields

  /** "%s" stops at a NUL byte. */
  function CString(value: string): string {
    if value == "" || value[0] == NUL then "" else [value[0]] + CString(value[1..])
  }

  predicate NoNul(value: string) {
    forall i :: 0 <= i < |value| ==> value[i] != NUL
  }

  lemma {:induction false} CStringWhole(value: string)
    requires NoNul(value)
    ensures CString(value) == value
  {
    if value != "" {
      CStringWhole(value[1..]);
    }
  }

  lemma {:induction false} CStringCut(value: string, rest: string)
    requires NoNul(value)
    ensures CString(value + [NUL] + rest) == value
  {
    var all := value + [NUL] + rest;
    if value == "" {
      assert all[0] == NUL;
    } else {
      assert all[0] == value[0] && all[1..] == value[1..] + [NUL] + rest;
      CStringCut(value[1..], rest);
    }
  }

  lemma {:induction false} CStringShorter(value: string)
    ensures |CString(value)| <= |value|
  {
    if value != "" {
      CStringShorter(value[1..]);
    }
  }

  function NameOf(names: seq<string>, id: int): string {
    if 0 <= id < |names| then names[id] else ""
  }

  /** The line snprintf is asked to write. */
  function Text(names: seq<string>, n: Node): string {
    LineText(NameOf(names, n.key), CString(n.value))
  }

  /** The space the visitor insists on. */
  function Need(names: seq<string>, n: Node): nat {
    |NameOf(names, n.key)| + |n.value| + 4
  }

  lemma TextFits(names: seq<string>, n: Node)
    ensures |Text(names, n)| <= Need(names, n)
  {
    CStringShorter(n.value);
  }

  /** What snprintf leaves in a buffer of `left` bytes: an exact fit loses its last byte to the
      terminator. */
  function Emit(text: string, left: nat): (r: string)
    requires |text| <= left
    ensures |r| == |text|
  {
    if text != "" && |text| == left then text[..|text| - 1] + [NUL] else text
  }

  /** The nodes of `s` from the `k`-th on that a buffer of `left` bytes takes. */
  function Count(names: seq<string>, s: seq<Node>, k: nat, left: nat): (c: nat)
    requires k <= |s|
    ensures k + c <= |s|
    decreases |s| - k
  {
    if k == |s| || left < Need(names, s[k]) then 0 else
      TextFits(names, s[k]);
      1 + Count(names, s, k + 1, left - |Text(names, s[k])|)
  }

  function Emitted(names: seq<string>, s: seq<Node>, k: nat, left: nat): (r: string)
    requires k <= |s|
    ensures |r| <= left
    decreases |s| - k
  {
    if k == |s| || left < Need(names, s[k]) then "" else
      TextFits(names, s[k]);
      var text := Text(names, s[k]);
      Emit(text, left) + Emitted(names, s, k + 1, left - |text|)
  }

  function Needs(names: seq<string>, s: seq<Node>): nat {
    if s == [] then 0 else Need(names, s[0]) + Needs(names, s[1..])
  }

  function FieldsOf(names: seq<string>, s: seq<Node>): seq<(string, string)> {
    seq(|s|, i requires 0 <= i < |s| => (NameOf(names, s[i].key), s[i].value))
  }

  /** Values the printer writes out in full. */
  predicate NulFree(s: seq<Node>) {
    forall i :: 0 <= i < |s| ==> NoNul(s[i].value)
  }

  /** The texts of the nodes from the `k`-th up to the `e`-th. */
  function TextOf(names: seq<string>, s: seq<Node>, k: nat, e: nat): string
    requires k <= e <= |s|
    decreases e - k
  {
    if k == e then "" else Text(names, s[k]) + TextOf(names, s, k + 1, e)
  }

  lemma {:induction false} TextOfLines(names: seq<string>, s: seq<Node>, k: nat, e: nat)
    requires k <= e <= |s| && NulFree(s)
    ensures TextOf(names, s, k, e) == Lines(FieldsOf(names, s[k..e])) && |TextOf(names, s, k, e)| == Needs(names, s[k..e])
    decreases e - k
  {
    if k < e {
      CStringWhole(s[k].value);
      assert s[k..e][1..] == s[k + 1..e];
      assert FieldsOf(names, s[k..e])[1..] == FieldsOf(names, s[k + 1..e]);
      TextOfLines(names, s, k + 1, e);
    }
  }

  /** A text in a room it fits into: an exact fit loses its last byte. */
  function Fitted(text: string, left: nat): (r: string)
    ensures |r| == |text|
  {
    if text != "" && |text| == left then text[..left - 1] + [NUL] else text
  }

  lemma FittedStep(text: string, rest: string, left: nat)
    requires text != "" && |text| + |rest| <= left
    ensures Emit(text, left) + Fitted(rest, left - |text|) == Fitted(text + rest, left)
  {
    if rest != "" && |text + rest| == left {
      assert (text + rest)[..left - 1] == text + rest[..|rest| - 1];
    } else if rest == "" {
      assert text + rest == text;
    }
  }

  /** In any room whole lines come out, but for the last byte of an exact fit; and all of them do exactly if
      there is room for all. */
  lemma {:induction false} EmitsSome(names: seq<string>, s: seq<Node>, k: nat, left: nat)
    requires k <= |s| && NulFree(s)
    ensures var e := k + Count(names, s, k, left);
      && |TextOf(names, s, k, e)| <= left && Emitted(names, s, k, left) == Fitted(TextOf(names, s, k, e), left)
      && (e == |s| <==> |TextOf(names, s, k, |s|)| <= left)
    decreases |s| - k
  {
    if k < |s| {
      CStringWhole(s[k].value);
      var text := Text(names, s[k]);
      if |text| <= left {
        EmitsSome(names, s, k + 1, left - |text|);
        FittedStep(text, TextOf(names, s, k + 1, k + Count(names, s, k, left)), left);
      }
    }
  }

  lemma EmitsWhole(names: seq<string>, s: seq<Node>, k: nat, left: nat)
    requires k <= |s| && NulFree(s) && |TextOf(names, s, k, |s|)| < left
    ensures Count(names, s, k, left) == |s| - k && Emitted(names, s, k, left) == TextOf(names, s, k, |s|)
  {
    EmitsSome(names, s, k, left);
  }

  /** With room for everything and the blank line, every line comes out whole and in order. */
  lemma EmitsAll(names: seq<string>, s: seq<Node>, k: nat, left: nat)
    requires k <= |s| && NulFree(s) && left > Needs(names, s[k..])
    ensures Count(names, s, k, left) == |s| - k
    ensures Emitted(names, s, k, left) == Lines(FieldsOf(names, s[k..]))
    ensures |Lines(FieldsOf(names, s[k..]))| == Needs(names, s[k..])
  {
    assert s[k..|s|] == s[k..];
    TextOfLines(names, s, k, |s|);
    EmitsWhole(names, s, k, left);
  }

  /** The length http_header_len adds up over the tree. */
  ghost function TreeNeeds(names: seq<string>, t: Tree): nat {
    if t.Leaf? then 0 else Need(names, t.node) + TreeNeeds(names, t.left) + TreeNeeds(names, t.right)
  }

  lemma {:induction false} NeedsInParts(names: seq<string>, a: seq<Node>, b: seq<Node>)
    ensures Needs(names, a + b) == Needs(names, a) + Needs(names, b)
  {
    if a == [] {
      assert a + b == b;
    } else {
      assert (a + b)[1..] == a[1..] + b;
      NeedsInParts(names, a[1..], b);
    }
  }

  lemma {:induction false} TreeNeedsInOrder(names: seq<string>, t: Tree)
    ensures TreeNeeds(names, t) == Needs(names, InOrder(t))
  {
    if t.Bin? {
      TreeNeedsInOrder(names, t.left);
      TreeNeedsInOrder(names, t.right);
      NeedsInParts(names, InOrder(t.left), [t.node]);
      NeedsInParts(names, InOrder(t.left) + [t.node], InOrder(t.right));
    }
  }

  // ---------------------------------------------------------------- print, then parse

  /** Headers that survive the trip: known ids, strictly ascending, with values the parser keeps. */
  ghost predicate Printable(names: seq<string>, s: seq<Node>) {
    && Sorted(s) && DistinctHashes(names) && (forall id :: 0 <= id < |names| ==> GoodName(names[id]))
    && forall i :: 0 <= i < |s| ==> 0 <= s[i].key < |names| && GoodValue(s[i].value)
  }

  lemma {:induction false} FieldsRebuildMap(names: seq<string>, s: seq<Node>)
    requires Printable(names, s)
    ensures AddFields(names, map[], FieldsOf(names, s)) == MapOf(s)
  {
    if s != [] {
      var f, n := s[..|s| - 1], s[|s| - 1];
      FieldsRebuildMap(names, f);
      FieldsOfFront(names, s);
      NextKeyIsNew(s);
      FieldStored(names, MapOf(f), n.key, n.value);
    }
  }

  lemma FieldsOfFront(names: seq<string>, s: seq<Node>)
    requires s != []
    ensures var n := s[|s| - 1]; FieldsOf(names, s) == FieldsOf(names, s[..|s| - 1]) + [(NameOf(names, n.key), n.value)]
    ensures FieldsOf(names, s)[..|s| - 1] == FieldsOf(names, s[..|s| - 1])
  {
  }

  lemma NextKeyIsNew(s: seq<Node>)
    requires Sorted(s) && s != []
    ensures s[|s| - 1].key !in MapOf(s[..|s| - 1])
  {
    MapOfSorted(s[..|s| - 1]);
  }

  /** A field under its own table name is stored under its own id. */
  lemma FieldStored(names: seq<string>, m: map<int, string>, id: nat, value: string)
    requires DistinctHashes(names) && id < |names| && GoodName(names[id]) && GoodValue(value)
    ensures AddField(names, m, names[id], value) == Store(m, id, value)
  {
    CaseVariantFound(names, id, names[id]);
  }

  /** Parsing the printed block into an empty collection gives back exactly the same headers, with
      the end flag set and every byte used. */
  lemma PrintParseRoundTrip(names: seq<string>, s: seq<Node>)
    requires Printable(names, s)
    ensures NulFree(s)
    ensures var b := Block(FieldsOf(names, s)); Load(names, map[], b) == Loaded(MapOf(s), |b|, true, false)
  {
    var fields := FieldsOf(names, s);
    forall i | 0 <= i < |fields| ensures GoodName(fields[i].0) && GoodValue(fields[i].1) {
      assert GoodValue(s[i].value);
    }
    BlockRoundTrip(fields);
    FieldsRebuildMap(names, s);
    LoadIsParse(names, map[], Block(fields));
  }

  // ---------------------------------------------------------------- the visitor of the printer

  /** The bytes left in the buffer after the nodes visited so far. */
  function Left(names: seq<string>, size: int, visited: seq<Node?>): int {
    if visited == [] then size
    else
      var last := visited[|visited| - 1];
      Left(names, size, visited[..|visited| - 1]) - if last == null then 0 else |Text(names, last)|
  }

  /** The return value of http_header_accumelate_str for the last node visited. */
  predicate Refuses(names: seq<string>, size: int, visited: seq<Node?>) {
    visited == [] ||
    var last := visited[|visited| - 1];
    last == null || Left(names, size, visited[..|visited| - 1]) < Need(names, last)
  }

  lemma OneMoreVisit(names: seq<string>, size: int, full: seq<Node?>, k: nat)
    requires k < |full|
    ensures Left(names, size, full[..k + 1]) == Left(names, size, full[..k]) - if full[k] == null then 0 else |Text(names, full[k])|
    ensures Refuses(names, size, full[..k + 1]) <==> full[k] == null || Left(names, size, full[..k]) < Need(names, full[k])
  {
    assert full[..k + 1][..k] == full[..k];
  }

  /** A walk with that visitor visits one node more than it prints: the one refused, or the null. */
  lemma {:induction false} WalkPrints(names: seq<string>, s: seq<Node>, size: nat, full: seq<Node?>, visited: seq<Node?>,
                                      k: nat, left: nat)
    requires |full| == |s| + 1 && full[|s|] == null && forall i :: 0 <= i < |s| ==> full[i] == s[i]
    requires IsWalk(full, v => Refuses(names, size, v), visited)
    requires k < |visited| && left == Left(names, size, full[..k])
    ensures |visited| == k + Count(names, s, k, left) + 1
    decreases |visited| - k
  {
    OneMoreVisit(names, size, full, k);
    if k + 1 < |visited| {
      assert !Refuses(names, size, full[..k + 1]);
      TextFits(names, s[k]);
      WalkPrints(names, s, size, full, visited, k + 1, left - |Text(names, s[k])|);
    } else if k < |s| {
      assert visited == full[..k + 1];
      assert Refuses(names, size, visited);
    }
  }

  // ---------------------------------------------------------------- the collection

  /** The in-order position of the first node below `node`, -1 if it is not in the tree. */
  ghost function StartOf(t: Tree, node: Node): int {
    if t.Leaf? then -1
    else if t.node == node then 0
    else if StartOf(t.left, node) >= 0 then StartOf(t.left, node)
    else if StartOf(t.right, node) >= 0 then |InOrder(t.left)| + 1 + StartOf(t.right, node)
    else -1
  }

  lemma {:induction false} SubOf(t: Tree, node: Node) returns (s: Tree)
    requires node in NodeSet(t)
    ensures SubAt(t, s, StartOf(t, node)) && s.Bin? && s.node == node && 0 <= StartOf(t, node) < |InOrder(t)|
  {
    if t.node == node {
      s := t;
    } else if node in NodeSet(t.left) {
      s := SubOf(t.left, node);
    } else {
      s := SubOf(t.right, node);
      if StartOf(t.left, node) >= 0 {
        s := SubFound(t.left, node);
      }
    }
  }

  lemma {:induction false} SubFound(t: Tree, node: Node) returns (s: Tree)
    requires StartOf(t, node) >= 0
    ensures SubAt(t, s, StartOf(t, node)) && s.Bin? && s.node == node && StartOf(t, node) < |InOrder(t)|
  {
    if t.node == node {
      s := t;
    } else if StartOf(t.left, node) >= 0 {
      s := SubFound(t.left, node);
    } else {
      s := SubFound(t.right, node);
    }
  }

  /** Where a walk from the cursor begins. */
  ghost function Start(t: Tree, cursor: Node?): int {
    if cursor == null then |InOrder(t)| else StartOf(t, cursor)
  }

  /** A print that stopped between two lines left the cursor on the last node it had printed. The
      next one starts at that node or before it, so it repeats at least one line. */
  lemma {:induction false} ResumeRepeats(t: Tree, k: nat)
    requires k < |InOrder(t)|
    ensures 0 <= StartOf(t, InOrder(t)[k]) <= k
  {
    var l := |InOrder(t.left)|;
    if k < l {
      ResumeRepeats(t.left, k);
    } else if l < k {
      ResumeRepeats(t.right, k - l - 1);
      if StartOf(t.left, InOrder(t)[k]) >= 0 {
        var s := SubFound(t.left, InOrder(t)[k]);
      }
    }
  }

  class HeaderCollection {
    const table: HeaderIndex
    const tree: BTree
    var cursor: Node?

    ghost function Repr(): set<object>
      reads this, tree
    {
      {this, tree} + NodeSet(tree.t)
    }

    ghost predicate Valid()
      reads this, tree, NodeSet(tree.t), table, table.hashes, table.index
    {
      && tree.Valid() && table.Valid() && DistinctHashes(table.names)
      && (forall m :: m in NodeSet(tree.t) ==> 0 <= m.key < |table.names|)
      && (cursor == null || cursor in NodeSet(tree.t))
    }

    ghost function Contents(): map<int, string>
      reads this, tree
    {
      tree.Contents()
    }

    /** The cursor stands at the root, where the next print starts from the first header. */
    ghost predicate Rewound()
      reads this, tree
    {
      cursor == tree.root
    }

    /** http_header_init. */
    constructor (table: HeaderIndex)
      requires table.Valid() && DistinctHashes(table.names)
      ensures Valid() && Rewound() && this.table == table && Contents() == map[] && tree.t == Leaf && fresh(tree)
      ensures fresh(Repr())
    {
      this.table := table;
      tree := new BTree();
      cursor := null;
    }

    /** http_header_add_by_id. */
    method AddById(id: int, value: string)
      requires Valid() && 0 <= id < |table.names|
      modifies Repr()
      ensures Valid() && forall m :: m in NodeSet(tree.t) ==> m in old(NodeSet(tree.t)) || fresh(m)
      ensures Contents() == if value == "" || value[0] == NUL then old(Contents()) else Store(old(Contents()), id, value)
      ensures old(Rewound()) ==> Rewound()
    {
      AllAllocated(tree.t);
      if value != "" && value[0] != NUL {
        var h := new Node(id, value);
        var added := tree.Insert(h);
        cursor := tree.root;
        CursorInTree();
      }
    }

    lemma CursorInTree()
      requires tree.Valid() && cursor == tree.root
      ensures cursor == null || cursor in NodeSet(tree.t)
    {
    }

    /** http_header_add. */
    method Add(name: string, value: string)
      requires Valid()
      modifies Repr()
      ensures Valid() && forall m :: m in NodeSet(tree.t) ==> m in old(NodeSet(tree.t)) || fresh(m)
      ensures Contents() == AddField(table.names, old(Contents()), name, value)
      ensures old(Rewound()) ==> Rewound()
    {
      AllAllocated(tree.t);
      if (name != "" && name[0] == NUL) || value == "" || value[0] == NUL {
        return;
      }
      var id := table.BinaryNSearch(name);
      if id != -1 {
        AddById(id, value);
      }
    }

    /** http_header_len. */
    method Len() returns (len: nat)
      requires Valid()
      ensures len == Needs(table.names, tree.Order()) + 2
    {
      len := AccumulateLen(table.names, tree.root, 2, tree.t, null);
      TreeNeedsInOrder(table.names, tree.t);
    }

    /** The headers from the cursor on: what a print still has to write. */
    ghost function Pending(): seq<Node>
      requires Valid()
      reads this, tree, NodeSet(tree.t), table, table.hashes, table.index
    {
      StartInside(tree.t, cursor);
      InOrder(tree.t)[Start(tree.t, cursor)..]
    }

    /** The traversal of line 445: the nodes shown to the visitor, the last of which it refuses. */
    method Walk(size: nat) returns (visited: seq<Node?>)
      requires Valid() && FullyThreaded(tree.t, null)
      ensures Valid()
      ensures |visited| == Count(table.names, Pending(), 0, size) + 1
      ensures forall k :: 0 <= k < |visited| - 1 ==> visited[k] == Pending()[k]
      ensures visited[|visited| - 1] == null <==> |visited| - 1 == |Pending()|
    {
      AllAllocated(tree.t);
      StartInside(tree.t, cursor);
      ghost var s, i := Leaf, Start(tree.t, cursor);
      if cursor != null {
        s := SubOf(tree.t, cursor);
      } else {
        EndIsEmpty(tree.t);
      }
      ghost var full: seq<Node?> := Pending() + [null];
      var names := table.names;
      visited := ThreadTraverse(cursor, v => Refuses(names, size, v), tree.root, tree.t, s, i);
      WalkPrints(names, Pending(), size, full, visited, 0, size);
    }

    /** What a print of `size` bytes from the cursor leaves behind: the text, the end flag, and the
        new cursor, which is the last node printed while lines are missing. */
    ghost predicate Printed(pending: seq<Node>, before: Node?, size: nat, out: string, isEnd: bool)
      reads this, tree
    {
      var text, c := Emitted(table.names, pending, 0, size), Count(table.names, pending, 0, size);
      && (isEnd <==> c == |pending| && |text| + 2 <= size)
      && out == (if isEnd then text + CRLF else text)
      && cursor == (if isEnd then tree.root
                    else if c == |pending| then null
                    else if c == 0 then before
                    else pending[c - 1])
    }

    /** Lines 424, 432 and 446-454: where the cursor ends up, and the blank line. */
    method Finish(visited: seq<Node?>, text: string, size: nat, ghost s: seq<Node>) returns (out: string, isEnd: bool)
      requires Valid() && s == Pending() && text == Emitted(table.names, s, 0, size)
      requires |visited| == Count(table.names, s, 0, size) + 1
      requires forall k :: 0 <= k < |visited| - 1 ==> visited[k] == s[k]
      requires visited[|visited| - 1] == null <==> |visited| - 1 == |s|
      modifies `cursor
      ensures Valid() && Printed(s, old(cursor), size, out, isEnd)
    {
      var n := |visited| - 1;
      out, isEnd := text, false;
      if 0 < n {
        PendingInside(s, n - 1);
        cursor := visited[n - 1];
      }
      if visited[n] == null {
        cursor := null;
        if size - |out| >= 2 {
          out := out + CRLF;
          isEnd := true;
          cursor := tree.root;
        }
      }
    }

    /** http_header_to_str into a buffer of `size` bytes, from whatever the cursor stands at. From a
        rewound cursor, a buffer of `Len()` bytes takes the whole block exactly, and the cursor is
        rewound again: the call can be repeated. */
    method ToStr(size: nat) returns (out: string, isEnd: bool)
      requires Valid()
      modifies this, NodeSet(tree.t)
      ensures Valid() && tree.t == old(tree.t) && tree.root == old(tree.root)
      ensures |out| <= size
      ensures Printed(old(Pending()), old(cursor), size, out, isEnd)
      ensures old(Rewound()) && NulFree(tree.Order()) && size >= Needs(table.names, tree.Order()) + 2 ==>
        && isEnd && Rewound() && out == Block(FieldsOf(table.names, tree.Order()))
        && |out| == Needs(table.names, tree.Order()) + 2
    {
      ghost var s := Pending();
      AllAllocated(tree.t);
      tree.BuildThreads();
      var visited := Walk(size);
      var text := PrintNodes(table.names, visited, 0, size, s);
      out, isEnd := Finish(visited, text, size, s);
      if old(Rewound()) && NulFree(s) && size >= Needs(table.names, s) + 2 {
        assert s[0..] == s;
        EmitsAll(table.names, s, 0, size);
      }
    }

    /** http_header_parse. */
    method Parse(buf: string) returns (rdlen: nat, isEnd: bool, failed: bool)
      requires Valid()
      modifies Repr()
      ensures Valid() && forall m :: m in NodeSet(tree.t) ==> m in old(NodeSet(tree.t)) || fresh(m)
      ensures Loaded(Contents(), rdlen, isEnd, failed) == Load(table.names, old(Contents()), buf)
      ensures old(Rewound()) ==> Rewound()
    {
      rdlen, isEnd, failed := 0, false, false;
      ghost var whole := Load(table.names, Contents(), buf);
      var rest := buf;
      AllAllocated(tree.t);
      while true
        invariant !isEnd && !failed && whole == Load(table.names, Contents(), rest).Later(rdlen)
        invariant Valid() && forall m :: m in NodeSet(tree.t) ==> m in old(NodeSet(tree.t)) || fresh(m)
        invariant old(Rewound()) ==> Rewound()
        decreases |rest|
      {
        AllAllocated(tree.t);
        var l := NextLine(rest);
        match l {
          case Incomplete =>
            return;
          case Bad =>
            failed := true;
            return;
          case Blank(n) =>
            rdlen, isEnd := rdlen + n, true;
            return;
          case Field(name, value, n) =>
            Add(name, value);
            rdlen, rest := rdlen + n, rest[n..];
        }
      }
    }

    /** http_header_destroy. */
    method Destroy()
      requires Valid()
      modifies this, tree
      ensures Valid() && Rewound() && Contents() == map[] && tree.t == Leaf
    {
      ghost var freed := FreeNodes(tree.root, tree.t, null, {});
      tree.root, tree.t := null, Leaf;
      cursor := tree.root;
    }

    lemma PendingInside(s: seq<Node>, k: nat)
      requires Valid() && s == Pending() && k < |s|
      ensures s[k] in NodeSet(tree.t)
    {
      InOrderElems(tree.t);
      StartInside(tree.t, cursor);
      assert s[k] == InOrder(tree.t)[Start(tree.t, cursor) + k];
      assert s[k] in Elems(InOrder(tree.t));
    }
  }

  /** btree_pre_order_traverse with http_header_accumulate_len as the visitor. */
  method AccumulateLen(names: seq<string>, root: Node?, len0: nat, ghost t: Tree, ghost succ: Node?) returns (len: nat)
    requires Linked(root, t, succ)
    ensures len == len0 + TreeNeeds(names, t)
    decreases t
  {
    len := len0;
    if root != null {
      AllAllocated(t.left);
      AllAllocated(t.right);
      len := len + Need(names, root);
      if root.llink != null {
        len := AccumulateLen(names, root.llink, len, t.left, root);
      }
      if root.rlink != null && !root.rflag {
        len := AccumulateLen(names, root.rlink, len, t.right, succ);
      }
    }
  }

  /** btree_post_order_traverse with http_header_free_node as the visitor: every node is freed once,
      and none is looked at after it has been freed. */
  method FreeNodes(root: Node?, ghost t: Tree, ghost succ: Node?, ghost freed: set<Node>) returns (ghost freed': set<Node>)
    requires Linked(root, t, succ) && Bst(t) && freed !! NodeSet(t)
    ensures freed' == freed + NodeSet(t)
    decreases t
  {
    freed' := freed;
    if root != null {
      BstDisjoint(t);
      AllAllocated(t.left);
      AllAllocated(t.right);
      assert root !in freed';
      if root.llink != null {
        freed' := FreeNodes(root.llink, t.left, root, freed');
      }
      assert root !in freed';
      if root.rlink != null && !root.rflag {
        freed' := FreeNodes(root.rlink, t.right, succ, freed');
      }
      assert root !in freed';
      freed' := freed' + {root};
    }
  }

  /** Printing a collection and parsing the text into a new one copies it. */
  method Copy(h: HeaderCollection, size: nat) returns (copy: HeaderCollection)
    requires h.Valid() && h.Rewound() && Printable(h.table.names, h.tree.Order())
    requires size >= Needs(h.table.names, h.tree.Order()) + 2
    modifies h, NodeSet(h.tree.t)
    ensures h.Valid() && h.tree.t == old(h.tree.t)
    ensures copy.Valid() && copy.Contents() == h.Contents()
  {
    PrintParseRoundTrip(h.table.names, h.tree.Order());
    AllAllocated(h.tree.t);
    var text, isEnd := h.ToStr(size);
    AllAllocated(h.tree.t);
    copy := ParseInto(h.table, text);
  }

  /** A new collection filled from a text. */
  method ParseInto(table: HeaderIndex, text: string) returns (copy: HeaderCollection)
    requires table.Valid() && DistinctHashes(table.names)
    ensures copy.Valid() && copy.Contents() == Load(table.names, map[], text).m
  {
    copy := new HeaderCollection(table);
    AllAllocated(copy.tree.t);
    var rdlen, end, failed := copy.Parse(text);
  }

  lemma StartInside(t: Tree, cursor: Node?)
    requires cursor == null || cursor in NodeSet(t)
    ensures 0 <= Start(t, cursor) <= |InOrder(t)|
    ensures cursor == Root(t) ==> Start(t, cursor) == 0
  {
    if cursor != null {
      var s := SubOf(t, cursor);
    }
  }

  /** The empty subtree behind the last node, where a null cursor stands. */
  lemma {:induction false} EndIsEmpty(t: Tree)
    ensures SubAt(t, Leaf, |InOrder(t)|)
  {
    if t.Bin? {
      EndIsEmpty(t.right);
    }
  }

  /** The snprintf calls of one walk, from its `k`-th node on: `buf` moves and `size` shrinks by each. */
  method PrintNodes(names: seq<string>, visited: seq<Node?>, k: nat, size: nat, ghost s: seq<Node>) returns (out: string)
    requires k <= |s| && |visited| == k + Count(names, s, k, size) + 1
    requires forall i :: 0 <= i < |visited| - 1 ==> visited[i] == s[i]
    ensures out == Emitted(names, s, k, size)
    decreases |visited| - k
  {
    if k == |visited| - 1 {
      NothingLeft(names, s, k, size);
      return "";
    }
    var text := Text(names, visited[k]);
    EmittedStep(names, s, k, size, text);
    var rest := PrintNodes(names, visited, k + 1, size - |text|, s);
    out := Emit(text, size) + rest;
  }

  lemma NothingLeft(names: seq<string>, s: seq<Node>, k: nat, left: nat)
    requires k <= |s| && Count(names, s, k, left) == 0
    ensures Emitted(names, s, k, left) == ""
  {
  }

  lemma EmittedStep(names: seq<string>, s: seq<Node>, k: nat, left: nat, text: string)
    requires k < |s| && Count(names, s, k, left) > 0 && text == Text(names, s[k])
    ensures |text| <= left && Count(names, s, k, left) == 1 + Count(names, s, k + 1, left - |text|)
    ensures Emitted(names, s, k, left) == Emit(text, left) + Emitted(names, s, k + 1, left - |text|)
  {
    TextFits(names, s[k]);
  }
}
