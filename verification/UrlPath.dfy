/** Path normalisation in http_url.c:322-369: a stack of segments, against the dot-segment removal of
    RFC 3986, section 5.2.4. */
module UrlPath {
  import opened List
  import opened Wrappers
  import UrlCoding

  /** IS_PATH. */
  predicate IsPath(c: char) {
    c == '-' || c == '.' || c == '/' || c == '_' || '0' <= c <= '9' || 'A' <= c <= 'Z' || 'a' <= c <= 'z'
  }

  /** The bytes a path may have: those that need no encoding, and four more. */
  lemma PathBytesExactly(c: char)
    ensures IsPath(c) <==> (c as int < 0x80 && UrlCoding.IsAlnum(c as int)) || c in "-._/"
  {
    assert "-._/"[0] == '-' && "-._/"[1] == '.' && "-._/"[2] == '_' && "-._/"[3] == '/';
  }

  predicate AllPath(s: string) {
    forall i :: 0 <= i < |s| ==> IsPath(s[i])
  }

  predicate StartsQuery(c: char) {
    c == '?' || c == '#'
  }

  /** The bytes that end a segment; the last two also end the path. */
  predicate Ends(c: char) {
    c == '/' || StartsQuery(c)
  }

  // ---------------------------------------------------------------- the stack machine

  /** strncmp(seg, "../", |seg|) == 0 on a non-empty segment: "../", "..", and also a lone "." */
  predicate Pops(seg: string) {
    seg != "" && seg <= "../"
  }

  /** Lines 337-352: one segment against the stack; None is the underflow. */
  function Push(stack: seq<string>, seg: string): Option<seq<string>> {
    if Pops(seg) then
      if stack == [] then None else Some(stack[..|stack| - 1])
    else if seg <= "./" then Some(stack)
    else Some(stack + [seg])
  }

  /** The bytes of `p` before its first `/`, `?` or `#`. */
  function SegLen(p: string): (k: nat)
    ensures k <= |p|
  {
    if p == "" || Ends(p[0]) then 0 else 1 + SegLen(p[1..])
  }

  lemma {:induction false} SegLenFacts(p: string)
    ensures var k := SegLen(p); (k < |p| ==> Ends(p[k])) && forall i :: 0 <= i < k ==> !Ends(p[i])
  {
    if p != "" && !Ends(p[0]) {
      SegLenFacts(p[1..]);
    }
  }

  /** What http_url_parse_path leaves on the stack; None is its -1. */
  function Normalise(p: string, stack: seq<string>): Option<seq<string>>
    decreases |p|
  {
    var k := SegLen(p);
    if !AllPath(p[..k]) then None
    else if k < |p| && p[k] == '/' then
      match Push(stack, p[..k + 1])
      case None => None
      case Some(s) => Normalise(p[k + 1..], s)
    else Push(stack, p[..k])
  }

  /** The length of the path: everything before the query or the fragment. */
  function PathLen(p: string): (n: nat)
    ensures n <= |p|
  {
    if p == "" || StartsQuery(p[0]) then 0 else 1 + PathLen(p[1..])
  }

  lemma {:induction false} PathLenFacts(p: string)
    ensures var n := PathLen(p); (n < |p| ==> StartsQuery(p[n])) && forall i :: 0 <= i < n ==> !StartsQuery(p[i])
  {
    if p != "" && !StartsQuery(p[0]) {
      PathLenFacts(p[1..]);
    }
  }

  /** A byte that starts no query lets the path go on. */
  lemma PathGoesOn(p: string, i: nat)
    requires i < |p| && i <= PathLen(p)
    ensures if StartsQuery(p[i]) then PathLen(p) == i else i + 1 <= PathLen(p)
  {
    PathLenFacts(p);
  }

  function Concat(stack: seq<string>): string {
    if stack == [] then "" else Concat(stack[..|stack| - 1]) + stack[|stack| - 1]
  }

  // ---------------------------------------------------------------- the loop

  lemma {:induction false} SegLenIs(p: string, k: nat)
    requires k <= |p| && (k < |p| ==> Ends(p[k])) && forall i :: 0 <= i < k ==> !Ends(p[i])
    ensures SegLen(p) == k
  {
    if k > 0 {
      SegLenIs(p[1..], k - 1);
    }
  }

  /** From offset `seg` on, with the bytes up to `i` known to be inside the segment. */
  ghost predicate Scanning(p: string, seg: nat, i: nat) {
    seg <= i <= |p| && forall j :: seg <= j < i ==> IsPath(p[j]) && !Ends(p[j])
  }

  lemma {:induction false} SegmentDone(p: string, seg: nat, i: nat, stack: seq<string>)
    requires Scanning(p, seg, i) && (i < |p| ==> Ends(p[i]))
    ensures Normalise(p[seg..], stack) ==
      if i < |p| && p[i] == '/' then
        match Push(stack, p[seg..i + 1])
        case None => None
        case Some(s) => Normalise(p[i + 1..], s)
      else Push(stack, p[seg..i])
  {
    var q, k := p[seg..], i - seg;
    assert k < |q| ==> q[k] == p[i];
    SegLenIs(q, k);
    assert q[..k] == p[seg..i];
    if i < |p| {
      assert q[..k + 1] == p[seg..i + 1] && q[k + 1..] == p[i + 1..];
    }
  }

  lemma {:induction false} BadByte(p: string, seg: nat, i: nat, stack: seq<string>)
    requires Scanning(p, seg, i) && i < |p| && !Ends(p[i]) && !IsPath(p[i])
    ensures Normalise(p[seg..], stack) == None
  {
    var q := p[seg..];
    SegLenBeyond(q, i - seg);
    assert !IsPath(q[..SegLen(q)][i - seg]);
  }

  lemma {:induction false} SegLenBeyond(p: string, k: nat)
    requires k < |p| && forall i :: 0 <= i <= k ==> !Ends(p[i])
    ensures k < SegLen(p)
  {
    if k > 0 {
      SegLenBeyond(p[1..], k - 1);
    }
  }

  /** Lines 337-352. */
  method PushSegment(stack: List<string>, seg: string) returns (ok: bool)
    requires stack.Valid()
    modifies stack, stack.head, stack.NodeSet()
    ensures stack.Valid() && forall n :: n in stack.nodes ==> n in old(stack.nodes) || fresh(n)
    ensures ok <==> Push(old(stack.Items()), seg) != None
    ensures ok ==> stack.Items() == Push(old(stack.Items()), seg).value
  {
    ok := true;
    if |seg| != 0 && seg <= "../" {
      var s := stack.Pop();
      ok := s != null;
    } else if !(seg <= "./") {
      var s := new ListNode(seg);
      stack.Append(s);
    }
  }

  lemma EmptyPath()
    ensures Normalise("", []) == Some([]) && PathLen("") == 0
  {
  }

  /** Lines 335-352: the segment that ends at `i`, with its slash if it has one. */
  method TakeSegment(p: string, seg: nat, i: nat, stack: List<string>) returns (ok: bool, segLen: nat)
    requires stack.Valid() && Scanning(p, seg, i) && (i < |p| ==> Ends(p[i]))
    modifies stack, stack.head, stack.NodeSet()
    ensures stack.Valid() && forall n :: n in stack.nodes ==> n in old(stack.nodes) || fresh(n)
    ensures segLen == i - seg + if i < |p| && p[i] == '/' then 1 else 0
    ensures Normalise(p[seg..], old(stack.Items())) ==
      if !ok then None else if i < |p| && p[i] == '/' then Normalise(p[i + 1..], stack.Items()) else Some(stack.Items())
  {
    SegmentDone(p, seg, i, stack.Items());
    segLen := i - seg + if i != |p| && p[i] == '/' then 1 else 0;
    ok := PushSegment(stack, p[seg..seg + segLen]);
  }

  /** Lines 333-364: one turn of the loop, at offset `i`. */
  method Turn(p: string, seg: nat, i: nat, stack: List<string>) returns (ok: bool, end: bool, next: nat)
    requires stack.Valid() && Scanning(p, seg, i)
    modifies stack, stack.head, stack.NodeSet()
    ensures stack.Valid() && forall n :: n in stack.nodes ==> n in old(stack.nodes) || fresh(n)
    ensures ok ==> (end <==> i == |p| || StartsQuery(p[i]))
    ensures ok && !end ==> Scanning(p, next, i + 1)
    ensures Normalise(p[seg..], old(stack.Items())) ==
      if !ok then None else if end then Some(stack.Items()) else Normalise(p[next..], stack.Items())
  {
    end, next := false, seg;
    if i == |p| || p[i] == '?' || p[i] == '#' || p[i] == '/' {
      var segLen;
      ok, segLen := TakeSegment(p, seg, i, stack);
      if i == |p| || p[i] != '/' {
        end := true;
      } else {
        next := seg + segLen;
      }
    } else if !IsPath(p[i]) {
      BadByte(p, seg, i, stack.Items());
      ok := false;
    } else {
      ok := true;
    }
  }

  /** http_url_parse_path on the `size` bytes of `p`. */
  method ParsePath(p: string, stack: List<string>) returns (ret: int, parseLen: nat)
    requires stack.Valid() && stack.nodes == []
    modifies stack, stack.head
    ensures stack.Valid() && forall n :: n in stack.nodes ==> fresh(n)
    ensures match Normalise(p, [])
            case None => ret == -1 && parseLen == 0
            case Some(s) => ret == 0 && parseLen == PathLen(p) && stack.Items() == s
  {
    parseLen := 0;
    ghost var goal := Normalise(p, []);
    assert p[0..] == p && stack.Items() == [];
    if |p| == 0 {
      EmptyPath();
      return 0, 0;
    }
    var seg: nat, i: nat := 0, 0;
    while true
      invariant Scanning(p, seg, i) && i <= PathLen(p)
      invariant stack.Valid() && forall n :: n in stack.nodes ==> fresh(n)
      invariant goal == Normalise(p[seg..], stack.Items())
      decreases |p| - i
    {
      if i < |p| {
        PathGoesOn(p, i);
      }
      var ok, end, next := Turn(p, seg, i, stack);
      if !ok {
        return -1, 0;
      }
      if end {
        return 0, i;
      }
      seg, i := next, i + 1;
    }
  }
}
