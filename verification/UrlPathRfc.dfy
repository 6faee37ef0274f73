/** What the segment stack of http_url.c computes, against RFC 3986, section 5.2.4. */
module UrlPathRfc {
  import opened UrlPath
  import opened Wrappers

  // ---------------------------------------------------------------- RFC 3986, section 5.2.4

  /** The length of the first segment: up to, not including, the next "/" after the first byte. */
  function FirstSegment(input: string): (n: nat)
    requires input != ""
    ensures 1 <= n <= |input|
  {
    1 + SlashAt(input[1..])
  }

  function SlashAt(s: string): (n: nat)
    ensures n <= |s|
  {
    if s == "" || s[0] == '/' then 0 else 1 + SlashAt(s[1..])
  }

  /** Step C's "remove the last segment and its preceding slash (if any)". */
  function DropLast(output: string): string {
    if output == "" then "" else
      var n := |output| - 1;
      if output[n] == '/' then output[..n] else DropLast(output[..n])
  }

  /** Steps A to E of remove_dot_segments. */
  function RemoveDots(input: string, output: string): string
    decreases |input|
  {
    if input == "" then output
    else if "../" <= input then RemoveDots(input[3..], output)
    else if "./" <= input then RemoveDots(input[2..], output)
    else if "/./" <= input then RemoveDots(input[2..], output)
    else if input == "/." then RemoveDots("/", output)
    else if "/../" <= input then RemoveDots(input[3..], DropLast(output))
    else if input == "/.." then RemoveDots("/", DropLast(output))
    else if input == "." || input == ".." then output
    else
      var n := FirstSegment(input);
      RemoveDots(input[n..], output + input[..n])
  }

  // ---------------------------------------------------------------- segments on the stack

  predicate SlashFree(s: string) {
    forall i :: 0 <= i < |s| ==> s[i] != '/'
  }

  /** A segment that stays on the stack: no dot segment, and not empty. */
  predicate Ordinary(seg: string) {
    !Pops(seg) && !(seg <= "./")
  }

  /** An ordinary segment with its slash. */
  predicate Closed(seg: string) {
    Ordinary(seg) && seg[|seg| - 1] == '/' && SlashFree(seg[..|seg| - 1])
  }

  predicate AllClosed(stack: seq<string>) {
    forall i :: 0 <= i < |stack| ==> Closed(stack[i])
  }

  lemma {:induction false} DropLastOf(a: string, x: string)
    requires a != "" && a[|a| - 1] == '/' && SlashFree(x)
    ensures DropLast(a + x) == a[..|a| - 1]
  {
    if x == "" {
      assert a + x == a;
    } else {
      assert (a + x)[..|a + x| - 1] == a + x[..|x| - 1];
      DropLastOf(a, x[..|x| - 1]);
    }
  }

  lemma {:induction false} ClosedEndsInSlash(stack: seq<string>)
    requires AllClosed(stack)
    ensures var b := "/" + Concat(stack); b[|b| - 1] == '/'
  {
    if stack != [] {
      var last := stack[|stack| - 1];
      assert last[|last| - 1] == '/';
    }
  }

  /** The RFC's output buffer is the stack behind a leading slash, without the trailing one. */
  predicate SameState(stack: seq<string>, output: string) {
    AllClosed(stack) && output + "/" == "/" + Concat(stack)
  }

  lemma PopState(stack: seq<string>, output: string)
    requires stack != [] && SameState(stack, output)
    ensures SameState(stack[..|stack| - 1], DropLast(output))
  {
    var front, last := stack[..|stack| - 1], stack[|stack| - 1];
    var a, x := "/" + Concat(front), last[..|last| - 1];
    ClosedEndsInSlash(front);
    assert last == x + "/";
    assert output + "/" == (a + x) + "/";
    assert output == (output + "/")[..|output|] == a + x;
    DropLastOf(a, x);
    assert a == a[..|a| - 1] + "/";
  }

  lemma PushState(stack: seq<string>, output: string, seg: string)
    requires SameState(stack, output) && Closed(seg)
    ensures SameState(stack + [seg], output + "/" + seg[..|seg| - 1])
  {
    assert (stack + [seg])[..|stack|] == stack;
    assert seg == seg[..|seg| - 1] + "/";
  }

  // ---------------------------------------------------------------- one segment, in both

  lemma {:induction false} SlashAtIs(s: string, n: nat)
    requires n <= |s| && (n < |s| ==> s[n] == '/') && forall i :: 0 <= i < n ==> s[i] != '/'
    ensures SlashAt(s) == n
  {
    if n > 0 {
      SlashAtIs(s[1..], n - 1);
    }
  }

  /** Which steps of the RFC can apply to an input that starts with a slash. */
  lemma AfterSlash(rest: string, k: nat)
    requires k < |rest| && rest[k] == '/' && forall i :: 0 <= i < k ==> rest[i] != '/'
    ensures var input := "/" + rest;
      && input[1..] == rest && !("../" <= input) && !("./" <= input) && input != "/." && input != "/.." && input != "." && input != ".."
      && ("/./" <= input <==> rest[..k + 1] == "./") && ("/../" <= input <==> rest[..k + 1] == "../")
      && input[k + 1..] == "/" + rest[k + 1..] && input[..k + 1] == "/" + rest[..k]
  {
    var input := "/" + rest;
    assert forall i :: 0 <= i < |rest| ==> input[i + 1] == rest[i];
    assert rest[..k + 1] == "./" <==> k == 1 && rest[0] == '.' by {
      assert k == 1 ==> rest[..2] == [rest[0], '/'];
    }
    assert rest[..k + 1] == "../" <==> k == 2 && rest[0] == '.' && rest[1] == '.' by {
      assert k == 2 ==> rest[..3] == [rest[0], rest[1], '/'];
    }
    assert "/./" <= input <==> |rest| >= 2 && rest[0] == '.' && rest[1] == '/';
    assert "/../" <= input <==> |rest| >= 3 && rest[0] == '.' && rest[1] == '.' && rest[2] == '/';
    assert input[0] == '/';
    assert k == 0 ==> rest[0] == '/';
  }

  /** The RFC on a segment that is followed by more input. */
  lemma RfcStep(rest: string, k: nat, output: string)
    requires k < |rest| && rest[k] == '/' && forall i :: 0 <= i < k ==> rest[i] != '/'
    ensures var next := "/" + rest[k + 1..];
      RemoveDots("/" + rest, output) ==
        if rest[..k + 1] == "../" then RemoveDots(next, DropLast(output))
        else if rest[..k + 1] == "./" then RemoveDots(next, output)
        else RemoveDots(next, output + "/" + rest[..k])
  {
    var input := "/" + rest;
    AfterSlash(rest, k);
    if rest[..k + 1] == "../" {
      assert k == 2;
    } else if rest[..k + 1] == "./" {
      assert k == 1;
    } else {
      SlashAtIs(rest, k);
      assert FirstSegment(input) == k + 1;
      assert output + ("/" + rest[..k]) == output + "/" + rest[..k];
    }
  }

  lemma RfcSlash(output: string)
    ensures RemoveDots("/", output) == output + "/"
  {
    assert RemoveDots("", output + "/") == output + "/";
  }

  lemma RfcDot(output: string)
    ensures RemoveDots("/.", output) == output + "/"
  {
    var input := "/.";
    assert |input| == 2 && input[0] == '/';
    assert !("../" <= input) && !("./" <= input) && !("/./" <= input);
    RfcSlash(output);
  }

  lemma RfcDotDot(output: string)
    ensures RemoveDots("/..", output) == DropLast(output) + "/"
  {
    var input := "/..";
    assert |input| == 3 && input[0] == '/' && input[2] == '.' && "/./"[2] == '/';
    assert !("../" <= input) && !("./" <= input) && !("/./" <= input) && !("/../" <= input);
    RfcSlash(DropLast(output));
  }

  /** The RFC on the last segment. */
  lemma RfcLast(rest: string, output: string)
    requires SlashFree(rest)
    ensures RemoveDots("/" + rest, output) ==
      if rest == ".." then DropLast(output) + "/" else if rest == "." then output + "/" else output + "/" + rest
  {
    if rest == ".." {
      RfcDotDot(output);
      assert "/" + rest == "/..";
    } else if rest == "." {
      RfcDot(output);
      assert "/" + rest == "/.";
    } else if rest == "" {
      RfcSlash(output);
      assert "/" + rest == "/" && output + "/" + rest == output + "/";
    } else {
      RfcLastOrdinary(rest, output);
    }
  }

  lemma RfcLastOrdinary(rest: string, output: string)
    requires SlashFree(rest) && rest != "" && rest != "." && rest != ".."
    ensures RemoveDots("/" + rest, output) == output + "/" + rest
  {
    var input := "/" + rest;
    assert input[1..] == rest && input[0] == '/' && input != "/." && input != "/..";
    SlashAtIs(rest, |rest|);
    assert forall i :: 0 <= i < |rest| ==> input[i + 1] == rest[i];
    assert forall i :: 1 <= i < |input| ==> input[i] != '/';
    assert "/./"[2] == '/' && "/../"[3] == '/';
    assert !("/./" <= input) && !("/../" <= input);
    assert input[|input|..] == "" && input[..|input|] == input;
    assert output + input == output + "/" + rest;
  }

  // ---------------------------------------------------------------- the whole path

  /** The path's last segment is a lone dot, which the code takes for the start of "../". */
  predicate EndsInDot(p: string) {
    p != "" && p[|p| - 1] == '.' && (|p| == 1 || p[|p| - 2] == '/')
  }

  predicate PlainPath(p: string) {
    forall i :: 0 <= i < |p| ==> !StartsQuery(p[i])
  }

  /** What a normalised stack looks like: no dot segments, slashes only at the ends of segments, and
      only the last segment may lack its slash. */
  predicate Normal(stack: seq<string>) {
    stack == [] || (AllClosed(stack[..|stack| - 1])
                    && var last := stack[|stack| - 1]; Closed(last) || (Ordinary(last) && SlashFree(last)))
  }

  lemma ClosedIsNormal(stack: seq<string>)
    requires AllClosed(stack)
    ensures Normal(stack)
  {
  }

  /** A segment of the path up to its slash. */
  lemma SlashSegment(rest: string)
    requires PlainPath(rest) && SegLen(rest) < |rest|
    ensures var k := SegLen(rest); var seg := rest[..k + 1];
      && rest[k] == '/' && (forall i :: 0 <= i < k ==> rest[i] != '/')
      && seg[|seg| - 1] == '/' && SlashFree(seg[..|seg| - 1]) && seg[..|seg| - 1] == rest[..k]
      && (Pops(seg) <==> seg == "../") && (seg <= "./" <==> seg == "./")
      && (EndsInDot(rest) <==> EndsInDot(rest[k + 1..])) && PlainPath(rest[k + 1..])
  {
    SegLenFacts(rest);
    var k := SegLen(rest);
    var seg, next := rest[..k + 1], rest[k + 1..];
    assert seg[k] == '/' && seg[..k] == rest[..k];
    assert next != "" ==> next[|next| - 1] == rest[|rest| - 1];
    assert |next| > 1 ==> next[|next| - 2] == rest[|rest| - 2];
  }

  lemma SlashNext(rest: string)
    requires PlainPath(rest) && SegLen(rest) < |rest|
    ensures var k := SegLen(rest); rest[k] == '/' && PlainPath(rest[k + 1..]) && (EndsInDot(rest) <==> EndsInDot(rest[k + 1..]))
  {
    SlashSegment(rest);
  }

  /** What a result of the code has to do with the RFC's: it is the same, unless the last segment is a
      lone dot, and then it is a shorter string. */
  predicate Agrees(rest: string, result: Option<seq<string>>, rfc: string) {
    result.Some? ==>
      var text := "/" + Concat(result.value);
      (if EndsInDot(rest) then |text| < |rfc| else text == rfc) && Normal(result.value)
  }

  /** From any state the two have in common, they agree in the end. */
  lemma {:induction false} RefinesFrom(rest: string, stack: seq<string>, output: string)
    requires PlainPath(rest) && SameState(stack, output)
    ensures Agrees(rest, Normalise(rest, stack), RemoveDots("/" + rest, output))
    decreases |rest|
  {
    var k := SegLen(rest);
    if k < |rest| {
      SlashNext(rest);
      if Push(stack, rest[..k + 1]).Some? {
        var stack', output' := StepState(rest, stack, output);
        RefinesFrom(rest[k + 1..], stack', output');
      }
    } else {
      NormaliseLast(rest, stack);
      if Normalise(rest, stack).Some? {
        LastSegment(rest, stack, output);
      }
    }
  }

  lemma {:induction false} NormaliseLast(rest: string, stack: seq<string>)
    requires SegLen(rest) == |rest|
    ensures Normalise(rest, stack) == if AllPath(rest) then Push(stack, rest) else None
  {
    assert rest[..|rest|] == rest;
  }

  /** One segment with a slash takes both from a common state to a common state. */
  lemma StepState(rest: string, stack: seq<string>, output: string) returns (stack': seq<string>, output': string)
    requires PlainPath(rest) && SegLen(rest) < |rest| && SameState(stack, output)
    requires Push(stack, rest[..SegLen(rest) + 1]).Some?
    ensures SameState(stack', output') && Push(stack, rest[..SegLen(rest) + 1]) == Some(stack')
    ensures RemoveDots("/" + rest, output) == RemoveDots("/" + rest[SegLen(rest) + 1..], output')
  {
    SlashSegment(rest);
    var k := SegLen(rest);
    RfcStep(rest, k, output);
    var seg := rest[..k + 1];
    stack' := Push(stack, seg).value;
    if seg == "../" {
      PopState(stack, output);
      output' := DropLast(output);
    } else if seg == "./" {
      output' := output;
    } else {
      PushState(stack, output, seg);
      output' := output + "/" + rest[..k];
    }
  }

  lemma {:induction false} LastSegment(rest: string, stack: seq<string>, output: string)
    requires SegLen(rest) == |rest| && SameState(stack, output)
    ensures Agrees(rest, Push(stack, rest), RemoveDots("/" + rest, output))
  {
    SegLenFacts(rest);
    assert SlashFree(rest);
    RfcLast(rest, output);
    if Pops(rest) {
      if stack != [] {
        PopState(stack, output);
        ClosedIsNormal(stack[..|stack| - 1]);
        assert Closed(stack[|stack| - 1]);
        assert rest == "." || rest == "..";
      }
    } else if rest <= "./" {
      ClosedIsNormal(stack);
      assert rest == "";
    } else {
      LastOrdinary(rest, stack, output);
    }
  }

  lemma LastOrdinary(rest: string, stack: seq<string>, output: string)
    requires SlashFree(rest) && Ordinary(rest) && SameState(stack, output)
    ensures "/" + Concat(stack + [rest]) == output + "/" + rest && Normal(stack + [rest])
    ensures !EndsInDot(rest)
  {
    var s := stack + [rest];
    assert s[..|stack|] == stack && s[|s| - 1] == rest;
    assert output + "/" + rest == "/" + Concat(stack) + rest;
  }

  /** For every path the code accepts, stack and RFC agree if and only if the last segment is no lone
      dot. Query and fragment are no part of the path. */
  lemma RefinesRfc(p: string)
    requires PlainPath(p) && Normalise(p, []).Some?
    ensures var s := Normalise(p, []).value;
            ("/" + Concat(s) == RemoveDots("/" + p, "") <==> !EndsInDot(p)) && Normal(s)
  {
    assert Concat([]) == "" && "" + "/" == "/" + "";
    RefinesFrom(p, [], "");
  }

  /** A path that ends in a lone dot and is accepted: the code loses the segment before it. */
  lemma LoneDotAccepted()
    ensures EndsInDot("a/.") && Normalise("a/.", []) == Some([]) && RemoveDots("/" + "a/.", "") == "/a/"
  {
    LoneDotDrops();
    LoneDotRfc();
  }

  lemma LoneDotRfc()
    ensures RemoveDots("/" + "a/.", "") == "/a/"
  {
    var p := "a/.";
    SegLenIs(p, 1);
    assert p[2..] == "." && "/" + p[2..] == "/.";
    RfcStep(p, 1, "");
    assert p[..2] == "a/" && "" + "/" + p[..1] == "/a";
    RfcDot("/a");
  }

  lemma LoneDotDrops()
    ensures Normalise("a/.", []) == Some([])
  {
    var p := "a/.";
    SegLenIs(p, 1);
    SegLenIs(".", 1);
    assert p[..2] == "a/" && p[2..] == "." && "."[..1] == ".";
    assert Push([], "a/") == Some([] + ["a/"]) && ([] + ["a/"])[..0] == [];
    assert Normalise(".", ["a/"]) == Push(["a/"], ".") == Some([]);
  }

  // ---------------------------------------------------------------- when it fails

  /** The segments of a plain path, each with its slash; the last one has none and may be empty. */
  function Segments(p: string): seq<string> {
    var k := SegLen(p);
    if k < |p| then [p[..k + 1]] + Segments(p[k + 1..]) else [p]
  }

  /** What a segment does to the height of the stack. */
  function Weight(seg: string): int {
    if Pops(seg) then -1 else if seg <= "./" then 0 else 1
  }

  function Balance(segs: seq<string>): int {
    if segs == [] then 0 else Balance(segs[..|segs| - 1]) + Weight(segs[|segs| - 1])
  }

  /** At some prefix, the dot-dot segments outnumber the ordinary ones before them. */
  ghost predicate Underflows(segs: seq<string>, height: nat) {
    exists n :: 0 <= n <= |segs| && height + Balance(segs[..n]) < 0
  }

  lemma {:induction false} BalanceFront(seg: string, rest: seq<string>)
    ensures Balance([seg] + rest) == Weight(seg) + Balance(rest)
  {
    if rest == [] {
      assert ([seg] + rest)[..0] == [] && [seg] + rest == [seg];
    } else {
      assert ([seg] + rest)[..|rest|] == [seg] + rest[..|rest| - 1];
      BalanceFront(seg, rest[..|rest| - 1]);
    }
  }

  lemma UnderflowFront(seg: string, rest: seq<string>, height: nat)
    ensures Underflows([seg] + rest, height) <==> height + Weight(seg) < 0 || Underflows(rest, height + Weight(seg))
  {
    var all := [seg] + rest;
    forall n | 0 <= n <= |rest| ensures Balance(all[..n + 1]) == Weight(seg) + Balance(rest[..n]) {
      assert all[..n + 1] == [seg] + rest[..n];
      BalanceFront(seg, rest[..n]);
    }
    assert Balance(all[..0]) == 0 && Balance(rest[..0]) == 0;
    if height + Weight(seg) >= 0 {
      if Underflows(all, height) {
        var n :| 0 <= n <= |all| && height + Balance(all[..n]) < 0;
        assert height + Weight(seg) + Balance(rest[..n - 1]) < 0;
      }
      if Underflows(rest, height + Weight(seg)) {
        var n :| 0 <= n <= |rest| && height + Weight(seg) + Balance(rest[..n]) < 0;
        assert height + Balance(all[..n + 1]) < 0;
      }
    } else {
      assert height + Balance(all[..0 + 1]) < 0;
    }
  }

  lemma UnderflowOne(seg: string, height: nat)
    ensures Underflows([seg], height) <==> height + Weight(seg) < 0
  {
    UnderflowFront(seg, [], height);
    assert [seg] + [] == [seg];
  }

  /** A plain path is refused exactly when it holds a byte no path may hold, or pops an empty stack. */
  lemma {:induction false} FailsExactly(p: string, stack: seq<string>)
    requires PlainPath(p)
    ensures Normalise(p, stack) == None <==> !AllPath(p) || Underflows(Segments(p), |stack|)
    decreases |p|
  {
    var k := SegLen(p);
    if k < |p| {
      var seg, rest := p[..k + 1], p[k + 1..];
      AllPathAtSlash(p);
      UnderflowFront(seg, Segments(rest), |stack|);
      WeightOfPush(stack, seg);
      if Push(stack, seg).Some? {
        FailsExactly(rest, Push(stack, seg).value);
      }
    } else {
      assert p[..k] == p;
      WeightOfPush(stack, p);
      UnderflowOne(p, |stack|);
    }
  }

  lemma WeightOfPush(stack: seq<string>, seg: string)
    ensures Push(stack, seg) == None <==> |stack| + Weight(seg) < 0
    ensures Push(stack, seg).Some? ==> |Push(stack, seg).value| == |stack| + Weight(seg)
  {
  }

  lemma {:induction false} AllPathAtSlash(p: string)
    requires PlainPath(p) && SegLen(p) < |p|
    ensures var k := SegLen(p); PlainPath(p[k + 1..]) && p[k] == '/' && (AllPath(p) <==> AllPath(p[..k]) && AllPath(p[k + 1..]))
  {
    SegLenFacts(p);
    AllPathParts(p, SegLen(p));
  }

  lemma AllPathParts(p: string, k: nat)
    requires k < |p| && IsPath(p[k])
    ensures AllPath(p) <==> AllPath(p[..k]) && AllPath(p[k + 1..])
  {
    var a, b := p[..k], p[k + 1..];
    if AllPath(p) {
      forall i | 0 <= i < |b| ensures IsPath(b[i]) {
        assert IsPath(p[k + 1 + i]);
      }
    }
    if AllPath(a) && AllPath(b) {
      forall i | 0 <= i < |p| ensures IsPath(p[i]) {
        if i < k {
          assert IsPath(a[i]);
        } else if i > k {
          assert IsPath(b[i - k - 1]);
        }
      }
    }
  }

  lemma {:induction false} PathLenIs(p: string, n: nat)
    requires n <= |p| && (n < |p| ==> StartsQuery(p[n])) && forall i :: 0 <= i < n ==> !StartsQuery(p[i])
    ensures PathLen(p) == n
  {
    if n > 0 {
      PathLenIs(p[1..], n - 1);
    }
  }

  lemma PathLenPastSlash(p: string, k: nat)
    requires k < |p| && p[k] == '/' && forall i :: 0 <= i < k ==> !StartsQuery(p[i])
    ensures k < PathLen(p) && PathLen(p[k + 1..]) == PathLen(p) - k - 1
  {
    PathLenFacts(p);
    var n, q := PathLen(p), p[k + 1..];
    assert forall i :: 0 <= i < n - k - 1 ==> !StartsQuery(q[i]);
    PathLenIs(q, n - k - 1);
  }

  /** Query and fragment do not take part. */
  lemma {:induction false} PathOnly(p: string, stack: seq<string>)
    ensures Normalise(p, stack) == Normalise(p[..PathLen(p)], stack)
    decreases |p|
  {
    var n, k := PathLen(p), SegLen(p);
    SegLenFacts(p);
    if k < |p| && p[k] == '/' {
      PathLenPastSlash(p, k);
      SegLenOfPrefix(p, n);
      PrefixSlices(p, n, k);
      if Push(stack, p[..k + 1]).Some? {
        PathOnly(p[k + 1..], Push(stack, p[..k + 1]).value);
      }
    } else {
      PathLenIs(p, k);
      SegLenOfPrefix(p, k);
      assert p[..k][..k] == p[..k];
    }
  }

  /** A path ends before the first question mark or number sign. */
  lemma PathCutOff(p: string, c: char, x: string, stack: seq<string>)
    requires '?' !in p && '#' !in p && (c == '?' || c == '#')
    ensures PathLen(p + [c] + x) == |p| && Normalise(p + [c] + x, stack) == Normalise(p, stack)
  {
    var all := p + [c] + x;
    assert forall i :: 0 <= i < |p| ==> all[i] == p[i] && p[i] in p;
    PathLenIs(all, |p|);
    PathOnly(all, stack);
    assert all[..|p|] == p;
  }

  lemma PrefixSlices(p: string, n: nat, k: nat)
    requires k < n <= |p|
    ensures p[..n][k] == p[k] && p[..n][..k] == p[..k] && p[..n][..k + 1] == p[..k + 1] && p[..n][k + 1..] == p[k + 1..][..n - k - 1]
  {
  }

  lemma SegLenOfPrefix(p: string, n: nat)
    requires SegLen(p) <= n <= |p|
    ensures SegLen(p[..n]) == SegLen(p)
  {
    SegLenFacts(p);
    SegLenIs(p[..n], SegLen(p));
  }

  lemma PathIsPlain(p: string)
    ensures PlainPath(p[..PathLen(p)])
  {
    PathLenFacts(p);
  }

  // ---------------------------------------------------------------- normal paths stay as they are

  lemma {:induction false} ConcatFront(seg: string, rest: seq<string>)
    ensures Concat([seg] + rest) == seg + Concat(rest)
  {
    if rest == [] {
      assert ([seg] + rest)[..0] == [];
    } else {
      assert ([seg] + rest)[..|rest|] == [seg] + rest[..|rest| - 1];
      ConcatFront(seg, rest[..|rest| - 1]);
    }
  }

  predicate GoodBytes(stack: seq<string>) {
    forall i :: 0 <= i < |stack| ==> AllPath(stack[i])
  }

  /** Normalising the text of a normal stack rebuilds the stack. */
  lemma {:induction false} NormalIsFixed(s: seq<string>, stack: seq<string>)
    requires Normal(s) && GoodBytes(s)
    ensures Normalise(Concat(s), stack) == Some(stack + s)
    decreases |s|
  {
    if s == [] {
      assert stack + s == stack;
    } else {
      var seg, rest := s[0], s[1..];
      assert s == [seg] + rest;
      ConcatFront(seg, rest);
      NormalTail(s);
      if Closed(seg) {
        ClosedFirst(seg, Concat(rest), stack);
        NormalIsFixed(rest, stack + [seg]);
        assert stack + s == (stack + [seg]) + rest;
      } else {
        assert Concat(rest) == "" && Concat(s) == seg;
        OpenLast(seg, stack);
        assert s == [seg];
      }
    }
  }

  lemma OpenLast(seg: string, stack: seq<string>)
    requires Ordinary(seg) && SlashFree(seg) && AllPath(seg)
    ensures Normalise(seg, stack) == Some(stack + [seg])
  {
    SegLenIs(seg, |seg|);
    assert seg[..|seg|] == seg;
  }

  lemma NormalTail(s: seq<string>)
    requires Normal(s) && s != []
    ensures Normal(s[1..])
    ensures |s| > 1 ==> Closed(s[0])
  {
    if |s| > 1 {
      assert s[1..][..|s| - 2] == s[..|s| - 1][1..];
      assert s[..|s| - 1][0] == s[0];
    }
  }

  lemma ClosedFirst(seg: string, rest: string, stack: seq<string>)
    requires Closed(seg) && AllPath(seg)
    ensures Normalise(seg + rest, stack) == Normalise(rest, stack + [seg])
  {
    var p, k := seg + rest, |seg| - 1;
    assert forall i :: 0 <= i < k ==> p[i] == seg[..k][i] && p[i] == seg[i];
    SegLenIs(p, k);
    assert p[..k + 1] == seg && p[k + 1..] == rest && p[..k] == seg[..k];
  }

  /** The bytes on the stack are path bytes. */
  lemma {:induction false} NormaliseGoodBytes(p: string, stack: seq<string>)
    requires GoodBytes(stack) && Normalise(p, stack).Some?
    ensures GoodBytes(Normalise(p, stack).value)
    decreases |p|
  {
    var k := SegLen(p);
    assert forall i :: 0 <= i < k ==> IsPath(p[..k][i]);
    if k < |p| && p[k] == '/' {
      assert GoodBytes(Push(stack, p[..k + 1]).value);
      NormaliseGoodBytes(p[k + 1..], Push(stack, p[..k + 1]).value);
    }
  }

  /** Normalising a second time changes nothing. */
  lemma Idempotent(p: string)
    requires Normalise(p, []).Some?
    ensures var s := Normalise(p, []).value; Normalise(Concat(s), []) == Some(s)
  {
    PathOnly(p, []);
    PathIsPlain(p);
    RefinesRfc(p[..PathLen(p)]);
    NormaliseGoodBytes(p, []);
    NormalIsFixed(Normalise(p, []).value, []);
    assert [] + Normalise(p, []).value == Normalise(p, []).value;
  }
}
