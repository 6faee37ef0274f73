/** What http_response.c:343-413 writes over a whole run, whatever buffers it is offered: its rounds as a
    function of the message and of where the run stands. */
module ResponseStream {
  import opened BTree
  import opened BTreeShape
  import opened HeaderTable
  import opened HeaderText
  import opened HttpHeader
  import HttpLog
  import HttpVersion
  import Outcome

  /** http_response_gen_status_t. */
  datatype Stage = VersionStage | CodeStage | HeaderStage | ContentStage | ErrorStage

  /** The stages still to come. */
  function Rank(stage: Stage): nat {
    match stage
    case VersionStage => 4
    case CodeStage => 3
    case HeaderStage => 2
    case ContentStage => 1
    case ErrorStage => 0
  }

  /** What does not change while a response is written: `code` is the text of its status, `tree` the ghost
      view of its header tree; `open` tells whether there is any content. */
  datatype Message = Message(version: HttpVersion.Version, code: string, names: seq<string>, tree: Tree, open: bool)

  /** Where the run stands: the next print begins at the `at`-th header, and `file` is what is left of the
      content behind the `read` bytes already read. */
  datatype State = State(stage: Stage, at: nat, file: string, read: nat)

  /** What a round, or a call, answers: `*is_end` and the bytes it wrote. */
  datatype Answer = Answer(state: State, out: string, isEnd: bool) {
    function Behind(text: string): Answer {
      this.(out := text + out)
    }
  }

  /** What read() does at an offset: it fails, or finds so many bytes and one more. */
  type Reader = nat -> int

  /** read() into `size` bytes; none are read at the end of the file, or into no room. */
  function Read(file: string, at: nat, size: nat, reader: Reader): (n: int)
    ensures n <= size && n <= |file|
  {
    if reader(at) < 0 then -1
    else if reader(at) < size && reader(at) < |file| then reader(at) + 1
    else if size < |file| then size else |file|
  }

  ghost function Nodes(m: Message): seq<Node> {
    InOrder(m.tree)
  }

  /** The headers from the `at`-th on. */
  ghost function Pending(m: Message, at: nat): seq<Node> {
    if at <= |Nodes(m)| then Nodes(m)[at..] else []
  }

  /** Where the next print begins when the cursor is left on the `k`-th header: at the leftmost descendant
      of that node. */
  ghost function Restart(m: Message, k: nat): (at: nat)
    requires k < |Nodes(m)|
    ensures at <= k
  {
    ResumeRepeats(m.tree, k);
    StartOf(m.tree, InOrder(m.tree)[k])
  }

  /** The line the first two stages write. */
  ghost function StageLine(m: Message, stage: Stage): string {
    if stage == VersionStage then HttpVersion.Text(m.version) else m.code + CRLF
  }

  ghost function PrintHeaders(m: Message, s: State, size: nat): (a: Answer)
    ensures |a.out| <= size && (a.state.stage == s.stage || a.state.stage == ContentStage) && !a.isEnd
  {
    var p := Pending(m, s.at);
    var text, c := Emitted(m.names, p, 0, size), Count(m.names, p, 0, size);
    if c == |p| && |text| + 2 <= size then Answer(s.(stage := ContentStage, at := 0), text + CRLF, false)
    else if c == |p| then Answer(s.(at := |Nodes(m)|), text, false)
    else if c == 0 then Answer(s, text, false)
    else Answer(s.(at := Restart(m, s.at + c - 1)), text, false)
  }

  ghost function ReadContent(m: Message, s: State, size: nat, reader: Reader): (a: Answer)
    ensures |a.out| <= size && a.state.stage == s.stage
  {
    var n := if m.open then Read(s.file, s.read, size, reader) else 0;
    if n <= 0 then Answer(s, "", true)
    else Answer(s.(file := s.file[n..], read := s.read + n), s.file[..n], false)
  }

  /** One round of the do-while loop. */
  ghost function Round(m: Message, s: State, size: nat, reader: Reader): (a: Answer)
    ensures |a.out| <= size && (a.state.stage == s.stage || (Rank(a.state.stage) < Rank(s.stage) && !a.isEnd))
  {
    match s.stage
    case VersionStage =>
      if size < HttpLog.VERSION_LEN then Answer(s, "", false)
      else Answer(s.(stage := CodeStage), StageLine(m, s.stage), false)
    case CodeStage =>
      if size < |m.code| + 2 then Answer(s, "", false)
      else Answer(s.(stage := HeaderStage), StageLine(m, s.stage), false)
    case HeaderStage => PrintHeaders(m, s, size)
    case ContentStage => ReadContent(m, s, size, reader)
    case ErrorStage => Answer(s, "", true)
  }

  // ---------------------------------------------------------------- calls and runs

  /** The rounds of one response: each stays in its stage, or goes on to a later one. */
  type Rounds = (State, nat) -> Answer

  ghost predicate Steady(round: Rounds) {
    forall s: State, n: nat {:trigger round(s, n)} :: var a := round(s, n);
      |a.out| <= n && (a.state.stage == s.stage || (Rank(a.state.stage) < Rank(s.stage) && !a.isEnd))
  }

  ghost function RoundsOf(m: Message, reader: Reader): (round: Rounds)
    ensures Steady(round)
  {
    (s: State, n: nat) => Round(m, s, n, reader)
  }

  /** What is promised of http_response_gen: rounds until the stage stays as it is. */
  ghost function Gen(round: Rounds, s: State, size: nat): (a: Answer)
    requires Steady(round)
    ensures |a.out| <= size
    decreases Rank(s.stage)
  {
    var a := round(s, size);
    if a.state.stage == s.stage then a else Gen(round, a.state, size - |a.out|).Behind(a.out)
  }

  /** A run: buffers of these sizes are offered until the response has ended. */
  datatype Run = Run(state: State, sent: string, ended: bool)

  ghost function RunAll(round: Rounds, s: State, sizes: seq<nat>): Run
    requires Steady(round)
  {
    if sizes == [] then Run(s, "", false)
    else
      var r := RunAll(round, s, sizes[..|sizes| - 1]);
      if r.ended then r
      else
        var a := Gen(round, r.state, sizes[|sizes| - 1]);
        Run(a.state, r.sent + a.out, a.isEnd)
  }

  /** Something asked of every round, for all rounds of a call. */
  ghost predicate Fitting(round: Rounds, fit: (State, nat) -> bool, s: State, size: nat)
    requires Steady(round)
    decreases Rank(s.stage)
  {
    var a := round(s, size);
    fit(s, size) && (a.state.stage != s.stage ==> Fitting(round, fit, a.state, size - |a.out|))
  }

  /** Something asked of every call, for all calls of a run. */
  ghost predicate EveryCall(round: Rounds, fit: (State, nat) -> bool, s: State, sizes: seq<nat>)
    requires Steady(round)
  {
    sizes == [] ||
    var front := sizes[..|sizes| - 1];
    var r := RunAll(round, s, front);
    EveryCall(round, fit, s, front) && (r.ended || fit(r.state, sizes[|sizes| - 1]))
  }

  /** A claim about the state, the bytes sent, whether every round fitted, and whether the end was reached. */
  type Claim = (State, string, bool, bool) -> bool

  ghost predicate Upheld(round: Rounds, fit: (State, nat) -> bool, claim: Claim) {
    forall s: State, n: nat, sent: string, good: bool {:trigger round(s, n), claim(s, sent, good, false)} ::
      claim(s, sent, good, false) ==> var a := round(s, n); claim(a.state, sent + a.out, good && fit(s, n), a.isEnd)
  }

  lemma Joined(a: string, b: string, c: string)
    ensures a + b + c == a + (b + c)
  {
  }

  /** What every round upholds, a call upholds. */
  lemma {:induction false} CallUpholds(round: Rounds, fit: (State, nat) -> bool, claim: Claim,
                                       s: State, size: nat, sent: string, good: bool)
    requires Steady(round) && Upheld(round, fit, claim) && claim(s, sent, good, false)
    ensures var a := Gen(round, s, size);
      claim(a.state, sent + a.out, good && Fitting(round, fit, s, size), a.isEnd)
    decreases Rank(s.stage)
  {
    var a := round(s, size);
    if a.state.stage != s.stage {
      CallUpholds(round, fit, claim, a.state, size - |a.out|, sent + a.out, good && fit(s, size));
      Joined(sent, a.out, Gen(round, a.state, size - |a.out|).out);
    }
  }

  /** And so does a run. */
  lemma {:induction false} RunUpholds(round: Rounds, fit: (State, nat) -> bool, claim: Claim, s: State, sizes: seq<nat>)
    requires Steady(round) && Upheld(round, fit, claim) && claim(s, "", true, false)
    ensures var r := RunAll(round, s, sizes);
      claim(r.state, r.sent, EveryCall(round, CallFit(round, fit), s, sizes), r.ended)
  {
    if sizes != [] {
      var front, size := sizes[..|sizes| - 1], sizes[|sizes| - 1];
      RunUpholds(round, fit, claim, s, front);
      var r := RunAll(round, s, front);
      if !r.ended {
        CallUpholds(round, fit, claim, r.state, size, r.sent, EveryCall(round, CallFit(round, fit), s, front));
      }
    }
  }

  ghost function CallFit(round: Rounds, fit: (State, nat) -> bool): (State, nat) -> bool
    requires Steady(round)
  {
    (s: State, n: nat) => Fitting(round, fit, s, n)
  }

  /** A measure that no fitting round takes back, and that only a stalling one, or the last, leaves as it is. */
  ghost predicate Moving(round: Rounds, fit: (State, nat) -> bool, stalls: (State, nat) -> bool, left: State -> nat) {
    forall s: State, n: nat {:trigger round(s, n)} :: fit(s, n) ==> var a := round(s, n);
      left(a.state) <= left(s) && (!a.isEnd && !stalls(s, n) ==> left(a.state) < left(s))
  }

  lemma {:induction false} CallMoves(round: Rounds, fit: (State, nat) -> bool, stalls: (State, nat) -> bool, left: State -> nat,
                                     s: State, size: nat)
    requires Steady(round) && Moving(round, fit, stalls, left) && Fitting(round, fit, s, size)
    ensures var a := Gen(round, s, size);
      left(a.state) <= left(s) && (!a.isEnd && !stalls(s, size) ==> left(a.state) < left(s))
    decreases Rank(s.stage)
  {
    var a := round(s, size);
    if a.state.stage != s.stage {
      CallMoves(round, fit, stalls, left, a.state, size - |a.out|);
    }
  }

  lemma {:induction false} RunMoves(round: Rounds, fit: (State, nat) -> bool, stalls: (State, nat) -> bool, left: State -> nat,
                                    s: State, sizes: seq<nat>)
    requires Steady(round) && Moving(round, fit, stalls, left)
    requires EveryCall(round, CallFit(round, fit), s, sizes) && EveryCall(round, (s: State, n: nat) => !stalls(s, n), s, sizes)
    ensures var r := RunAll(round, s, sizes); !r.ended ==> left(r.state) + |sizes| <= left(s)
  {
    if sizes != [] {
      var front, size := sizes[..|sizes| - 1], sizes[|sizes| - 1];
      RunMoves(round, fit, stalls, left, s, front);
      var r := RunAll(round, s, front);
      if !r.ended {
        CallMoves(round, fit, stalls, left, r.state, size);
      }
    }
  }

  // ---------------------------------------------------------------- what there is to say

  ghost function Content(m: Message, s: State): string {
    if m.open then s.file else ""
  }

  /** The headers from the `at`-th on, the blank line and the content. */
  ghost function Tail(m: Message, s: State, at: nat): string {
    TextOf(m.names, Pending(m, at), 0, |Pending(m, at)|) + CRLF + Content(m, s)
  }

  /** Everything a response still has to say. */
  ghost function Rest(m: Message, s: State): string {
    match s.stage
    case VersionStage => StageLine(m, VersionStage) + (StageLine(m, CodeStage) + Tail(m, s, s.at))
    case CodeStage => StageLine(m, CodeStage) + Tail(m, s, s.at)
    case HeaderStage => Tail(m, s, s.at)
    case ContentStage => Content(m, s)
    case ErrorStage => ""
  }

  /** Header names without a colon and with different hashes, ids in ascending order, values without NUL. */
  ghost predicate Sound(m: Message) {
    && DistinctHashes(m.names) && (forall id :: 0 <= id < |m.names| ==> ':' !in m.names[id])
    && Sorted(Nodes(m)) && NulFree(Nodes(m))
    && forall i :: 0 <= i < |Nodes(m)| ==> 0 <= Nodes(m)[i].key < |m.names|
  }

  // ---------------------------------------------------------------- what a call has to be offered

  /** Room for headers: less than the first line wants, or more than all lines take. */
  ghost predicate HeadersFit(m: Message, at: nat, size: nat) {
    var p := Pending(m, at);
    p == [] || size < Need(m.names, p[0]) || size > Needs(m.names, p)
  }

  /** What a caller has to offer at each stage: the first two lines may wait for room; the headers may wait
      too, but not begin in a room they do not end in; and a content that is not at its end needs a byte of
      room, and a read that does not fail. */
  ghost predicate Enough(m: Message, s: State, size: nat, reader: Reader)
    decreases Rank(s.stage)
  {
    match s.stage
    case VersionStage =>
      size < HttpLog.VERSION_LEN || Enough(m, s.(stage := CodeStage), size - HttpLog.VERSION_LEN, reader)
    case CodeStage =>
      size < |m.code| + 2 || Enough(m, s.(stage := HeaderStage), size - |m.code| - 2, reader)
    case HeaderStage =>
      var all := Needs(m.names, Pending(m, s.at));
      HeadersFit(m, s.at, size)
      && (size >= all + 2 ==> Enough(m, s.(stage := ContentStage, at := 0), size - all - 2, reader))
    case ContentStage => !m.open || s.file == "" || (size > 0 && reader(s.read) >= 0)
    case ErrorStage => true
  }

  // ---------------------------------------------------------------- where the bytes sent stand

  /** The bytes sent so far have a byte the response has not. */
  ghost predicate Differs(sent: string, w: string) {
    exists i :: 0 <= i < |sent| && i < |w| && sent[i] != w[i]
  }

  /** The bytes sent are right so far, but the headers are about to be printed again from before the one that
      is due. */
  ghost predicate Doomed(m: Message, s: State, sent: string, w: string) {
    s.stage == HeaderStage && exists q :: s.at < q < |Nodes(m)| && w == sent + Tail(m, s, q)
  }

  lemma DiffersStays(sent: string, out: string, w: string)
    requires Differs(sent, w)
    ensures Differs(sent + out, w)
  {
    var i :| 0 <= i < |sent| && i < |w| && sent[i] != w[i];
    assert (sent + out)[i] == sent[i];
  }

  lemma DiffersAt(sent: string, out: string, rest: string, i: nat)
    requires i < |out| && i < |rest| && out[i] != rest[i]
    ensures Differs(sent + out, sent + rest)
  {
    assert (sent + out)[|sent| + i] != (sent + rest)[|sent| + i];
  }

  lemma {:induction false} TextOfInParts(names: seq<string>, s: seq<Node>, k: nat, c: nat, e: nat)
    requires k <= c <= e <= |s|
    ensures TextOf(names, s, k, e) == TextOf(names, s, k, c) + TextOf(names, s, c, e)
    decreases c - k
  {
    if k < c {
      TextOfInParts(names, s, k + 1, c, e);
      Joined(Text(names, s[k]), TextOf(names, s, k + 1, c), TextOf(names, s, c, e));
    }
  }

  lemma {:induction false} TextOfDrop(names: seq<string>, s: seq<Node>, c: nat, k: nat)
    requires c <= k <= |s|
    ensures TextOf(names, s, k, |s|) == TextOf(names, s[c..], k - c, |s| - c)
    decreases |s| - k
  {
    if k < |s| {
      assert s[c..][k - c] == s[k];
      TextOfDrop(names, s, c, k + 1);
    }
  }

  /** All lines of the pending headers take what http_header_len counts for them. */
  lemma AllText(m: Message, at: nat)
    requires NulFree(Nodes(m))
    ensures var p := Pending(m, at); NulFree(p) && |TextOf(m.names, p, 0, |p|)| == Needs(m.names, p)
  {
    var p := Pending(m, at);
    if at <= |Nodes(m)| {
      assert forall i :: 0 <= i < |p| ==> p[i] == Nodes(m)[at + i];
    }
    TextOfLines(m.names, p, 0, |p|);
    assert p[0..|p|] == p;
  }

  /** From the first header on, that is the block the header parser reads back. */
  lemma TailIsBlock(m: Message, s: State)
    requires NulFree(Nodes(m))
    ensures Tail(m, s, 0) == Block(FieldsOf(m.names, Nodes(m))) + Content(m, s)
  {
    assert Pending(m, 0) == Nodes(m) && Nodes(m)[0..|Nodes(m)|] == Nodes(m);
    TextOfLines(m.names, Nodes(m), 0, |Nodes(m)|);
  }

  lemma FitsWhole(m: Message, at: nat, size: nat)
    requires NulFree(Nodes(m)) && (Pending(m, at) == [] || size > Needs(m.names, Pending(m, at)))
    ensures var p := Pending(m, at);
      && Count(m.names, p, 0, size) == |p| && Emitted(m.names, p, 0, size) == TextOf(m.names, p, 0, |p|)
      && |TextOf(m.names, p, 0, |p|)| == Needs(m.names, p)
  {
    AllText(m, at);
    if Pending(m, at) != [] {
      EmitsWhole(m.names, Pending(m, at), 0, size);
    }
  }

  /** All headers in one print, with the blank line or without. */
  lemma HeadersAll(m: Message, s: State, size: nat)
    requires NulFree(Nodes(m)) && s.stage == HeaderStage && (Pending(m, s.at) == [] || size > Needs(m.names, Pending(m, s.at)))
    ensures var a := PrintHeaders(m, s, size); a.out + Rest(m, a.state) == Rest(m, s)
    ensures var p := Pending(m, s.at); var a := PrintHeaders(m, s, size);
      if size >= Needs(m.names, p) + 2 then
        a.state == s.(stage := ContentStage, at := 0) && |a.out| == Needs(m.names, p) + 2
      else a.state == s.(at := |Nodes(m)|) && (size < 2 || p != [])
  {
    var p := Pending(m, s.at);
    FitsWhole(m, s.at, size);
    Joined(TextOf(m.names, p, 0, |p|), CRLF, Content(m, s));
  }

  /** Headers in a room they may have: the next bytes of the response, or none. */
  lemma HeadersRight(m: Message, s: State, size: nat)
    requires NulFree(Nodes(m)) && s.stage == HeaderStage && HeadersFit(m, s.at, size)
    ensures var a := PrintHeaders(m, s, size); a.out + Rest(m, a.state) == Rest(m, s)
    ensures var p := Pending(m, s.at); var a := PrintHeaders(m, s, size);
      if size >= Needs(m.names, p) + 2 then
        a.state == s.(stage := ContentStage, at := 0) && |a.out| == Needs(m.names, p) + 2
      else a.state.stage == HeaderStage && (size < 2 || p != []) &&
           if p != [] && size < Need(m.names, p[0]) then a.state == s && a.out == "" else a.state == s.(at := |Nodes(m)|)
  {
    var p := Pending(m, s.at);
    if p == [] || size > Needs(m.names, p) {
      HeadersAll(m, s, size);
    }
  }

  /** What comes out into a room that does not fit. */
  lemma SpoiltText(m: Message, at: nat, size: nat)
    requires NulFree(Nodes(m)) && !HeadersFit(m, at, size)
    ensures var p := Pending(m, at); var c := Count(m.names, p, 0, size); var done := TextOf(m.names, p, 0, c);
      && 0 < c && |done| <= size && Emitted(m.names, p, 0, size) == Fitted(done, size) && (c < |p| || |done| == size)
  {
    var p := Pending(m, at);
    AllText(m, at);
    EmitsSome(m.names, p, 0, size);
  }

  /** The last byte of an exact fit. */
  lemma LastByteLost(m: Message, s: State, size: nat, c: nat, sent: string)
    requires var p := Pending(m, s.at); s.stage == HeaderStage && 0 < c <= |p| && |TextOf(m.names, p, 0, c)| == size
    ensures Differs(sent + Fitted(TextOf(m.names, Pending(m, s.at), 0, c), size), sent + Rest(m, s))
  {
    var p := Pending(m, s.at);
    var done, due := TextOf(m.names, p, 0, c), TextOf(m.names, p, c, |p|);
    TextOfInParts(m.names, p, 0, c, |p|);
    LastByte(m.names, p, c);
    DiffersAt(sent, Fitted(done, size), done + due + CRLF + Content(m, s), size - 1);
  }

  /** Headers in another room: a byte goes wrong at once, or the cursor is left before the header that is due. */
  lemma HeadersWrong(m: Message, s: State, size: nat, sent: string, w: string)
    requires NulFree(Nodes(m)) && s.stage == HeaderStage && !HeadersFit(m, s.at, size) && sent + Rest(m, s) == w
    ensures var a := PrintHeaders(m, s, size);
      a.state.stage == HeaderStage && (Doomed(m, a.state, sent + a.out, w) || Differs(sent + a.out, w))
  {
    SpoiltText(m, s.at, size);
    var c := Count(m.names, Pending(m, s.at), 0, size);
    if |TextOf(m.names, Pending(m, s.at), 0, c)| == size {
      LastByteLost(m, s, size, c, sent);
    } else {
      LeftBefore(m, s, c, sent, PrintHeaders(m, s, size).state);
    }
  }

  /** The first `c` pending headers have been printed, and the next print begins before the one behind them. */
  lemma LeftBefore(m: Message, s: State, c: nat, sent: string, s': State)
    requires s.stage == HeaderStage && 0 < c < |Pending(m, s.at)| && s' == s.(at := Restart(m, s.at + c - 1))
    ensures Doomed(m, s', sent + TextOf(m.names, Pending(m, s.at), 0, c), sent + Rest(m, s))
  {
    var p := Pending(m, s.at);
    var done, due := TextOf(m.names, p, 0, c), TextOf(m.names, p, c, |p|);
    TextOfInParts(m.names, p, 0, c, |p|);
    TextOfDrop(m.names, p, c, c);
    assert p[c..] == Pending(m, s.at + c);
    Joined(done, due, CRLF);
    Joined(done, due + CRLF, Content(m, s));
    Joined(sent, done, Tail(m, s', s.at + c));
  }

  lemma {:induction false} LastByte(names: seq<string>, s: seq<Node>, c: nat)
    requires 0 < c <= |s|
    ensures var text := TextOf(names, s, 0, c); text != "" && text[|text| - 1] == '\n'
  {
    TextOfInParts(names, s, 0, c - 1, c);
    assert TextOf(names, s, c - 1, c) == Text(names, s[c - 1]) + TextOf(names, s, c, c);
  }

  /** The lines of two headers differ before either ends. */
  lemma LinesDiffer(m: Message, a: Node, b: Node) returns (i: nat)
    requires DistinctHashes(m.names) && forall id :: 0 <= id < |m.names| ==> ':' !in m.names[id]
    requires 0 <= a.key < |m.names| && 0 <= b.key < |m.names| && a.key != b.key
    ensures i + 1 < |Text(m.names, a)| && i + 1 < |Text(m.names, b)| && Text(m.names, a)[i] != Text(m.names, b)[i]
  {
    var x, y := m.names[a.key], m.names[b.key];
    assert x != y;
    if x + ":" <= y + ":" {
      NoPrefix(x, y);
    }
    if y + ":" < x + ":" {
      NoPrefix(y, x);
    }
    i := Outcome.Differ(y + ":", x + ":");
    assert Text(m.names, a)[i] == (x + ":")[i] && Text(m.names, b)[i] == (y + ":")[i];
  }

  lemma NoPrefix(x: string, y: string)
    requires ':' !in y && x + ":" <= y + ":"
    ensures x == y
  {
    assert (y + ":")[|x|] == (x + ":")[|x|] == ':';
    assert |x| == |y|;
    assert x == (x + ":")[..|x|] && y == (y + ":")[..|y|];
  }

  lemma LineOut(m: Message, s: State, size: nat, i: nat)
    requires var p := Pending(m, s.at); Count(m.names, p, 0, size) > 0 && i + 1 < |Text(m.names, p[0])|
    ensures var a := PrintHeaders(m, s, size); i < |a.out| && a.out[i] == Text(m.names, Pending(m, s.at)[0])[i]
  {
    var p := Pending(m, s.at);
    EmittedStep(m.names, p, 0, size, Text(m.names, p[0]));
    var line := Emit(Text(m.names, p[0]), size);
    assert Emitted(m.names, p, 0, size)[i] == line[i] == Text(m.names, p[0])[i];
  }

  /** The next line printed is not the one that is due. */
  lemma DoomedPrints(m: Message, s: State, size: nat, sent: string, w: string)
    requires Sound(m) && Doomed(m, s, sent, w)
    ensures var a := PrintHeaders(m, s, size);
      Differs(sent + a.out, w) || (a.state == s && a.out == "")
  {
    var q :| s.at < q < |Nodes(m)| && w == sent + Tail(m, s, q);
    var p, due := Pending(m, s.at), Pending(m, q);
    if Count(m.names, p, 0, size) == 0 {
      NothingLeft(m.names, p, 0, size);
    } else {
      assert p[0] == Nodes(m)[s.at] && due[0] == Nodes(m)[q];
      var i := LinesDiffer(m, p[0], due[0]);
      LineOut(m, s, size, i);
      assert TextOf(m.names, due, 0, |due|)[i] == Text(m.names, due[0])[i];
      DiffersAt(sent, PrintHeaders(m, s, size).out, Tail(m, s, q), i);
    }
  }

  // ---------------------------------------------------------------- a whole run against the response

  /** Where a run stands against the response `w`. While every call was offered enough, the bytes sent are the
      beginning of `w`, and what is left to say is the rest of it; at the end nothing is left. Otherwise they
      differ, or are bound to, or the run has ended too early. */
  ghost predicate Status(m: Message, s: State, sent: string, w: string, good: bool, ended: bool) {
    if good then sent + Rest(m, s) == w && (ended ==> Rest(m, s) == "")
    else Differs(sent, w) || (!ended && Doomed(m, s, sent, w)) || (ended && sent + Rest(m, s) == w && Rest(m, s) != "")
  }

  lemma StatusDecides(m: Message, s: State, sent: string, w: string, good: bool)
    requires Status(m, s, sent, w, good, true)
    ensures sent == w <==> good
  {
    if good {
      assert sent + "" == sent;
    } else if !Differs(sent, w) {
      assert |w| > |sent|;
    }
  }

  // ---------------------------------------------------------------- one round

  /** What a round has to be offered: see `Enough`. */
  ghost predicate Fit(m: Message, s: State, size: nat, reader: Reader) {
    match s.stage
    case HeaderStage => HeadersFit(m, s.at, size)
    case ContentStage => !m.open || s.file == "" || (size > 0 && reader(s.read) >= 0)
    case _ => true
  }

  lemma LineRound(m: Message, s: State, size: nat, reader: Reader, sent: string, w: string)
    requires s.stage == VersionStage || s.stage == CodeStage || s.stage == ErrorStage
    requires Status(m, s, sent, w, true, false)
    ensures var a := Round(m, s, size, reader); Status(m, a.state, sent + a.out, w, true, a.isEnd)
  {
    var a := Round(m, s, size, reader);
    assert sent + "" == sent;
    Joined(sent, a.out, Rest(m, a.state));
  }

  lemma ContentRound(m: Message, s: State, size: nat, reader: Reader, sent: string, w: string)
    requires s.stage == ContentStage && Status(m, s, sent, w, true, false)
    ensures var a := ReadContent(m, s, size, reader); Status(m, a.state, sent + a.out, w, Fit(m, s, size, reader), a.isEnd)
  {
    var a := ReadContent(m, s, size, reader);
    if a.isEnd {
      assert sent + "" == sent;
    } else {
      Joined(sent, a.out, a.state.file);
    }
  }

  lemma HeaderRound(m: Message, s: State, size: nat, sent: string, w: string)
    requires Sound(m) && s.stage == HeaderStage && Status(m, s, sent, w, true, false)
    ensures var a := PrintHeaders(m, s, size); Status(m, a.state, sent + a.out, w, HeadersFit(m, s.at, size), false)
  {
    var a := PrintHeaders(m, s, size);
    if HeadersFit(m, s.at, size) {
      HeadersRight(m, s, size);
      Joined(sent, a.out, Rest(m, a.state));
    } else {
      HeadersWrong(m, s, size, sent, w);
    }
  }

  lemma SpoiltRound(m: Message, s: State, size: nat, reader: Reader, sent: string, w: string)
    requires Sound(m) && Status(m, s, sent, w, false, false)
    ensures var a := Round(m, s, size, reader); Status(m, a.state, sent + a.out, w, false, a.isEnd)
  {
    var a := Round(m, s, size, reader);
    if Differs(sent, w) {
      DiffersStays(sent, a.out, w);
    } else {
      DoomedPrints(m, s, size, sent, w);
      assert sent + "" == sent;
    }
  }

  /** One round of a run that stands right, or does not. */
  lemma RoundStatus(m: Message, s: State, size: nat, reader: Reader, sent: string, w: string, good: bool)
    requires Sound(m) && Status(m, s, sent, w, good, false)
    ensures var a := Round(m, s, size, reader); Status(m, a.state, sent + a.out, w, good && Fit(m, s, size, reader), a.isEnd)
  {
    if !good {
      SpoiltRound(m, s, size, reader, sent, w);
    } else if s.stage == HeaderStage {
      HeaderRound(m, s, size, sent, w);
    } else if s.stage == ContentStage {
      ContentRound(m, s, size, reader, sent, w);
    } else {
      LineRound(m, s, size, reader, sent, w);
    }
  }

  // ---------------------------------------------------------------- whole runs

  ghost function FitOf(m: Message, reader: Reader): (State, nat) -> bool {
    (s: State, n: nat) => Fit(m, s, n, reader)
  }

  ghost function StatusOf(m: Message, w: string): Claim {
    (s, sent, good, ended) => Status(m, s, sent, w, good, ended)
  }

  lemma StatusUpheld(m: Message, reader: Reader, w: string)
    requires Sound(m)
    ensures Upheld(RoundsOf(m, reader), FitOf(m, reader), StatusOf(m, w))
  {
    var round, fit, claim := RoundsOf(m, reader), FitOf(m, reader), StatusOf(m, w);
    forall s: State, n: nat, sent: string, good: bool | claim(s, sent, good, false)
      ensures var a := round(s, n); claim(a.state, sent + a.out, good && fit(s, n), a.isEnd)
    {
      RoundStatus(m, s, n, reader, sent, w, good);
    }
  }

  /** From one stage to those behind it: `round` and `fit` do what the response does, here at least. */
  lemma EnoughStep(m: Message, s: State, size: nat, reader: Reader, round: Rounds, fit: (State, nat) -> bool)
    requires Sound(m) && Steady(round) && round(s, size) == Round(m, s, size, reader) && fit(s, size) == Fit(m, s, size, reader)
    requires var a := round(s, size); a.state.stage != s.stage ==>
      (Enough(m, a.state, size - |a.out|, reader) <==> Fitting(round, fit, a.state, size - |a.out|))
    ensures Enough(m, s, size, reader) <==> Fitting(round, fit, s, size)
  {
    if s.stage == HeaderStage && HeadersFit(m, s.at, size) {
      HeadersRight(m, s, size);
    }
  }

  /** A call is offered enough exactly if each of its rounds is. */
  lemma {:induction false} EnoughIsFitting(m: Message, s: State, size: nat, reader: Reader, round: Rounds, fit: (State, nat) -> bool)
    requires Sound(m) && round == RoundsOf(m, reader) && fit == FitOf(m, reader)
    ensures Enough(m, s, size, reader) <==> Fitting(round, fit, s, size)
    decreases Rank(s.stage)
  {
    var a := round(s, size);
    if a.state.stage != s.stage {
      EnoughIsFitting(m, a.state, size - |a.out|, reader, round, fit);
    }
    EnoughStep(m, s, size, reader, round, fit);
  }

  ghost function EnoughOf(m: Message, reader: Reader): (State, nat) -> bool {
    (s: State, n: nat) => Enough(m, s, n, reader)
  }

  lemma {:induction false} EveryCallSame(round: Rounds, f: (State, nat) -> bool, g: (State, nat) -> bool, s: State, sizes: seq<nat>)
    requires Steady(round) && forall s: State, n: nat :: f(s, n) <==> g(s, n)
    ensures EveryCall(round, f, s, sizes) <==> EveryCall(round, g, s, sizes)
  {
    if sizes != [] {
      EveryCallSame(round, f, g, s, sizes[..|sizes| - 1]);
    }
  }

  lemma EnoughIsCallFit(m: Message, reader: Reader, s: State, sizes: seq<nat>)
    requires Sound(m)
    ensures var round := RoundsOf(m, reader);
      EveryCall(round, EnoughOf(m, reader), s, sizes) <==> EveryCall(round, CallFit(round, FitOf(m, reader)), s, sizes)
  {
    var round, fit := RoundsOf(m, reader), FitOf(m, reader);
    forall s: State, n: nat ensures EnoughOf(m, reader)(s, n) <==> CallFit(round, fit)(s, n) {
      EnoughIsFitting(m, s, n, reader, round, fit);
    }
    EveryCallSame(round, EnoughOf(m, reader), CallFit(round, fit), s, sizes);
  }

  /** The run of a response, and that every call was offered enough for the state it met. */
  ghost function RunOf(m: Message, s: State, sizes: seq<nat>, reader: Reader): Run {
    RunAll(RoundsOf(m, reader), s, sizes)
  }

  ghost predicate AllEnough(m: Message, s: State, sizes: seq<nat>, reader: Reader) {
    EveryCall(RoundsOf(m, reader), EnoughOf(m, reader), s, sizes)
  }

  /** For every sequence of buffer sizes: the bytes of a run that has ended are the response exactly if every
      call was offered enough for the state it met; and as long as every call was, the bytes sent are its
      beginning. */
  lemma RunExactly(m: Message, s: State, sizes: seq<nat>, reader: Reader)
    requires Sound(m)
    ensures var r := RunOf(m, s, sizes, reader);
      && (r.ended ==> (r.sent == Rest(m, s) <==> AllEnough(m, s, sizes, reader)))
      && (AllEnough(m, s, sizes, reader) ==> r.sent + Rest(m, r.state) == Rest(m, s))
  {
    var round, fit, w := RoundsOf(m, reader), FitOf(m, reader), Rest(m, s);
    var r := RunOf(m, s, sizes, reader);
    StatusUpheld(m, reader, w);
    EnoughIsCallFit(m, reader, s, sizes);
    assert "" + w == w;
    RunUpholds(round, fit, StatusOf(m, w), s, sizes);
    if r.ended {
      StatusDecides(m, r.state, r.sent, w, AllEnough(m, s, sizes, reader));
    }
  }

  // ---------------------------------------------------------------- the end

  /** A call that finds no room for the line at hand writes nothing. */
  ghost predicate Stalls(m: Message, s: State, size: nat) {
    match s.stage
    case VersionStage => size < HttpLog.VERSION_LEN
    case CodeStage => size < |m.code| + 2
    case HeaderStage => var p := Pending(m, s.at); if p == [] then size < 2 else size < Need(m.names, p[0])
    case _ => false
  }

  ghost predicate NoneStalls(m: Message, s: State, sizes: seq<nat>, reader: Reader) {
    EveryCall(RoundsOf(m, reader), (s: State, n: nat) => !Stalls(m, s, n), s, sizes)
  }

  /** The calls a run may still take: one for each stage, one more if there are headers, and one for each byte
      of the content. */
  ghost function CallsLeft(m: Message, s: State): nat {
    Rank(s.stage) + |s.file| + if Rank(s.stage) >= 2 && Pending(m, s.at) != [] then 1 else 0
  }

  lemma RoundMoves(m: Message, s: State, size: nat, reader: Reader)
    requires Sound(m) && Fit(m, s, size, reader)
    ensures var a := Round(m, s, size, reader);
      CallsLeft(m, a.state) <= CallsLeft(m, s) && (!a.isEnd && !Stalls(m, s, size) ==> CallsLeft(m, a.state) < CallsLeft(m, s))
  {
    if s.stage == HeaderStage {
      HeadersRight(m, s, size);
    }
  }

  /** If every call is offered enough for the state it meets, and none stalls, the run ends after at most
      `CallsLeft` calls and one, and has sent the whole response. */
  lemma RunEnds(m: Message, s: State, sizes: seq<nat>, reader: Reader)
    requires Sound(m) && AllEnough(m, s, sizes, reader) && NoneStalls(m, s, sizes, reader) && |sizes| > CallsLeft(m, s)
    ensures var r := RunOf(m, s, sizes, reader); r.ended && r.sent == Rest(m, s)
  {
    var round, fit := RoundsOf(m, reader), FitOf(m, reader);
    var stalls, left := (s: State, n: nat) => Stalls(m, s, n), (s: State) => CallsLeft(m, s);
    forall s: State, n: nat | fit(s, n)
      ensures var a := round(s, n); left(a.state) <= left(s) && (!a.isEnd && !stalls(s, n) ==> left(a.state) < left(s))
    {
      RoundMoves(m, s, n, reader);
    }
    EnoughIsCallFit(m, reader, s, sizes);
    EveryCallSame(round, (s: State, n: nat) => !Stalls(m, s, n), (s: State, n: nat) => !stalls(s, n), s, sizes);
    RunMoves(round, fit, stalls, left, s, sizes);
    RunExactly(m, s, sizes, reader);
  }

  /** The bytes before the content. */
  ghost function HeadLen(m: Message, s: State): nat {
    match s.stage
    case VersionStage => HttpLog.VERSION_LEN + |m.code| + 2 + Needs(m.names, Pending(m, s.at)) + 2
    case CodeStage => |m.code| + 2 + Needs(m.names, Pending(m, s.at)) + 2
    case HeaderStage => Needs(m.names, Pending(m, s.at)) + 2
    case _ => 0
  }

  lemma HeadRound(m: Message, s: State, size: nat, reader: Reader)
    requires Sound(m) && size > HeadLen(m, s) && reader(s.read) >= 0
    ensures Fit(m, s, size, reader) && !Stalls(m, s, size)
    ensures var a := Round(m, s, size, reader);
      if Rank(s.stage) <= 1 then a.state.stage == s.stage && (s.stage == ErrorStage ==> a.isEnd)
         else a.state.stage != s.stage && size - |a.out| > HeadLen(m, a.state) && a.state.read == s.read
  {
    if s.stage == HeaderStage {
      HeadersRight(m, s, size);
    }
  }

  /** A call with room for more than the head is offered enough, does not stall, and reaches the content. */
  lemma {:induction false} HeadCall(m: Message, s: State, size: nat, reader: Reader, round: Rounds, fit: (State, nat) -> bool)
    requires Sound(m) && size > HeadLen(m, s) && reader(s.read) >= 0
    requires round == RoundsOf(m, reader) && fit == FitOf(m, reader)
    ensures Fitting(round, fit, s, size) && !Stalls(m, s, size)
    ensures !Gen(round, s, size).isEnd ==> Gen(round, s, size).state.stage == ContentStage
    decreases Rank(s.stage)
  {
    HeadRound(m, s, size, reader);
    var a := round(s, size);
    if a.state.stage != s.stage {
      HeadCall(m, a.state, size - |a.out|, reader, round, fit);
    }
  }

  /** If the first buffer has more room than the head takes, the others are not empty, and reads do not fail,
      every call is offered enough, and none stalls. */
  lemma {:induction false} RoomForHead(m: Message, s: State, sizes: seq<nat>, reader: Reader)
    requires Sound(m) && forall i :: 0 <= i < |sizes| ==> sizes[i] > if i == 0 then HeadLen(m, s) else 0
    requires forall at :: reader(at) >= 0
    ensures AllEnough(m, s, sizes, reader) && NoneStalls(m, s, sizes, reader)
    ensures var r := RunOf(m, s, sizes, reader); sizes != [] && !r.ended ==> r.state.stage == ContentStage
  {
    if sizes != [] {
      var front, size := sizes[..|sizes| - 1], sizes[|sizes| - 1];
      RoomForHead(m, s, front, reader);
      var r := RunOf(m, s, front, reader);
      if !r.ended {
        HeadCall(m, r.state, size, reader, RoundsOf(m, reader), FitOf(m, reader));
        EnoughIsFitting(m, r.state, size, reader, RoundsOf(m, reader), FitOf(m, reader));
      }
    }
  }

  // ---------------------------------------------------------------- rooms that spoil the headers

  /** Wherever there are headers to print, room for exactly their lines is not enough, nor room for exactly the
      first of them; no room at all is, and so is one byte more than their lines. */
  lemma SpoilingRooms(m: Message, at: nat)
    requires Pending(m, at) != []
    ensures var p := Pending(m, at);
      && !HeadersFit(m, at, Needs(m.names, p)) && !HeadersFit(m, at, Need(m.names, p[0]))
      && HeadersFit(m, at, 0) && HeadersFit(m, at, Needs(m.names, p) + 1)
  {
  }

  /** In terms of the printer: some headers come out and some do not, or the last byte is lost. */
  lemma SpoilsExactly(m: Message, at: nat, size: nat)
    requires NulFree(Nodes(m))
    ensures var p := Pending(m, at); var c := Count(m.names, p, 0, size);
      !HeadersFit(m, at, size) <==> 0 < c < |p| || (0 < c == |p| && size == Needs(m.names, p))
  {
    AllText(m, at);
    EmitsSome(m.names, Pending(m, at), 0, size);
  }

  /** A call that stops at the `at`-th header, and whose bytes, behind `sent`, are not those of `w`. */
  ghost predicate Spoils(round: Rounds, s: State, size: nat, at: nat, sent: string, w: string)
    requires Steady(round)
  {
    var a := Gen(round, s, size);
    a.state == s.(stage := HeaderStage, at := at) && !a.isEnd && Differs(sent + a.out, w)
  }

  /** The headers into a room for exactly their lines: the last byte is lost, and the blank line does not come. */
  lemma SpoiltCall(m: Message, s: State, reader: Reader, sent: string, w: string)
    requires Sound(m) && s.stage == HeaderStage && Pending(m, s.at) != [] && w == sent + Rest(m, s)
    ensures Spoils(RoundsOf(m, reader), s, Needs(m.names, Pending(m, s.at)), |Nodes(m)|, sent, w)
  {
    var p := Pending(m, s.at);
    var size := Needs(m.names, p);
    AllText(m, s.at);
    EmitsSome(m.names, p, 0, size);
    LastByteLost(m, s, size, |p|, sent);
    assert PrintHeaders(m, s, size).out == Fitted(TextOf(m.names, p, 0, |p|), size);
  }

  lemma NextRound(round: Rounds, s: State, size: nat)
    requires Steady(round) && round(s, size).state.stage != s.stage
    ensures var a := round(s, size); Gen(round, s, size) == Gen(round, a.state, size - |a.out|).Behind(a.out)
  {
  }

  /** Two rounds that write a line each, before such a call. */
  lemma TwoRounds(round: Rounds, s: State, s1: State, s2: State, first: string, second: string, room: nat, size: nat,
                  at: nat, w: string)
    requires Steady(round) && s1.stage != s.stage && s2.stage != s1.stage && s2 == s.(stage := HeaderStage)
    requires size == |first| + (|second| + room)
    requires Writes(round, s, size, s1, first) && Writes(round, s1, |second| + room, s2, second)
    requires Spoils(round, s2, room, at, first + second, w)
    ensures Spoils(round, s, size, at, "", w)
  {
    var a := Gen(round, s2, room);
    assert round(s, size) == Answer(s1, first, false) && round(s1, |second| + room) == Answer(s2, second, false);
    NextRound(round, s, size);
    NextRound(round, s1, |second| + room);
    Joined(first, second, a.out);
    assert "" + (first + (second + a.out)) == first + second + a.out;
  }

  predicate Writes(round: Rounds, s: State, size: nat, s': State, line: string) {
    round(s, size) == Answer(s', line, false)
  }

  lemma LineAnswer(m: Message, s: State, size: nat, reader: Reader, next: State, line: string)
    requires (s.stage == VersionStage || s.stage == CodeStage) && line == StageLine(m, s.stage) && size >= |line|
    requires next == s.(stage := if s.stage == VersionStage then CodeStage else HeaderStage)
    ensures Writes(RoundsOf(m, reader), s, size, next, line)
  {
  }

  lemma HeadIs(m: Message, s: State)
    requires s.stage == VersionStage
    ensures var first, second := StageLine(m, VersionStage), StageLine(m, CodeStage);
      && HeadLen(m, s) - 2 == |first| + (|second| + Needs(m.names, Pending(m, s.at)))
      && Rest(m, s) == first + second + Rest(m, s.(stage := HeaderStage))
  {
    Joined(StageLine(m, VersionStage), StageLine(m, CodeStage), Rest(m, s.(stage := HeaderStage)));
  }

  lemma LinesBefore(m: Message, s: State, reader: Reader, room: nat, size: nat, at: nat, w: string)
    requires s.stage == VersionStage && size == |StageLine(m, VersionStage)| + (|StageLine(m, CodeStage)| + room)
    requires Spoils(RoundsOf(m, reader), s.(stage := HeaderStage), room, at, StageLine(m, VersionStage) + StageLine(m, CodeStage), w)
    ensures Spoils(RoundsOf(m, reader), s, size, at, "", w)
  {
    var s1, s2 := s.(stage := CodeStage), s.(stage := HeaderStage);
    var first, second := StageLine(m, VersionStage), StageLine(m, CodeStage);
    LineAnswer(m, s, size, reader, s1, first);
    LineAnswer(m, s1, |second| + room, reader, s2, second);
    TwoRounds(RoundsOf(m, reader), s, s1, s2, first, second, room, size, at, w);
  }

  lemma SpoiltFrom(m: Message, s: State, reader: Reader)
    requires Sound(m) && s.stage == VersionStage && Pending(m, s.at) != []
    ensures Spoils(RoundsOf(m, reader), s, HeadLen(m, s) - 2, |Nodes(m)|, "", Rest(m, s))
  {
    HeadIs(m, s);
    SpoiltCall(m, s.(stage := HeaderStage), reader, StageLine(m, VersionStage) + StageLine(m, CodeStage), Rest(m, s));
    LinesBefore(m, s, reader, Needs(m.names, Pending(m, s.at)), HeadLen(m, s) - 2, |Nodes(m)|, Rest(m, s));
  }

  ghost predicate Ends(round: Rounds, s: State, size: nat)
    requires Steady(round)
  {
    Gen(round, s, size).isEnd
  }

  /** A cursor behind the last header, and two bytes of room: the blank line, and an end without content. */
  lemma BlankLineCall(m: Message, s: State, reader: Reader)
    requires s.stage == HeaderStage && s.at == |Nodes(m)|
    ensures Ends(RoundsOf(m, reader), s, 2)
  {
    var round, s' := RoundsOf(m, reader), s.(stage := ContentStage, at := 0);
    assert Pending(m, s.at) == [];
    assert round(s, 2) == Answer(s', "" + CRLF, false);
    assert round(s', 0).isEnd;
  }

  lemma TwoCalls(round: Rounds, s: State, size: nat, last: nat, at: nat, w: string)
    requires Steady(round) && Spoils(round, s, size, at, "", w) && Ends(round, s.(stage := HeaderStage, at := at), last)
    ensures var r := RunAll(round, s, [size, last]); r.ended && Differs(r.sent, w)
  {
    var a := Gen(round, s, size);
    assert [size, last][..1] == [size] && [size][..0] == [];
    assert RunAll(round, s, [size]) == Run(a.state, "" + a.out, false);
    DiffersStays("" + a.out, Gen(round, a.state, last).out, w);
  }

  /** Every response with headers has buffers that spoil it: the run ends, and has sent a wrong byte. */
  lemma SpoiltRun(m: Message, s: State, reader: Reader)
    requires Sound(m) && s.stage == VersionStage && Pending(m, s.at) != []
    ensures var r := RunOf(m, s, [HeadLen(m, s) - 2, 2], reader); r.ended && Differs(r.sent, Rest(m, s))
  {
    SpoiltFrom(m, s, reader);
    BlankLineCall(m, s.(stage := HeaderStage, at := |Nodes(m)|), reader);
    TwoCalls(RoundsOf(m, reader), s, HeadLen(m, s) - 2, 2, |Nodes(m)|, Rest(m, s));
  }

  // ---------------------------------------------------------------- the server's buffer, and the client

  /** The server offers one buffer again and again. */
  function Again(calls: nat, size: nat): seq<nat> {
    seq(calls, i => size)
  }

  lemma OneMoreCall(m: Message, s: State, calls: nat, size: nat, reader: Reader)
    ensures var r := RunOf(m, s, Again(calls, size), reader); var a := Gen(RoundsOf(m, reader), r.state, size);
      RunOf(m, s, Again(calls + 1, size), reader) == if r.ended then r else Run(a.state, r.sent + a.out, a.isEnd)
  {
    assert Again(calls + 1, size)[..calls] == Again(calls, size);
  }

  lemma {:induction false} MoreCalls(m: Message, s: State, calls: nat, more: nat, size: nat, reader: Reader)
    requires calls <= more && RunOf(m, s, Again(calls, size), reader).ended
    ensures RunOf(m, s, Again(more, size), reader) == RunOf(m, s, Again(calls, size), reader)
    decreases more - calls
  {
    if calls < more {
      OneMoreCall(m, s, calls, size, reader);
      MoreCalls(m, s, calls + 1, more, size, reader);
    }
  }

  /** With a buffer larger than the head, and reads that do not fail, everything is sent. */
  lemma BufferSuffices(m: Message, s: State, calls: nat, size: nat, reader: Reader)
    requires Sound(m) && size > HeadLen(m, s) && calls > CallsLeft(m, s) && forall at :: reader(at) >= 0
    ensures var r := RunOf(m, s, Again(calls, size), reader); r.ended && r.sent == Rest(m, s)
  {
    RoomForHead(m, s, Again(calls, size), reader);
    RunEnds(m, s, Again(calls, size), reader);
  }

  lemma PrintableIsSound(m: Message)
    requires Printable(m.names, Nodes(m))
    ensures Sound(m)
  {
    PrintParseRoundTrip(m.names, Nodes(m));
  }

  /** The first two lines are one: the protocol, the status, and CR LF. */
  lemma StatusLine(m: Message)
    ensures StageLine(m, VersionStage) + StageLine(m, CodeStage)
         == (if m.version == HttpVersion.V1_0 then "HTTP/1.0 " else "HTTP/1.1 ") + m.code + "\r\n"
  {
    Joined(HttpVersion.Text(m.version), m.code, CRLF);
  }

  /** A client that gets what is left of a response before its headers reads the two lines; and there its header
      parser finds exactly the headers of the message, and stops at the content. */
  lemma ClientReads(m: Message, s: State)
    requires Printable(m.names, Nodes(m)) && s.stage == VersionStage && s.at == 0
    ensures var head := StageLine(m, VersionStage) + StageLine(m, CodeStage);
      && head <= Rest(m, s)
      && var rest := Rest(m, s)[|head|..]; var l := Load(m.names, map[], rest);
      && l.m == MapOf(Nodes(m)) && l.end && !l.failed
      && l.consumed <= |rest| && rest[l.consumed..] == Content(m, s)
  {
    var first, second := StageLine(m, VersionStage), StageLine(m, CodeStage);
    var block, content := Block(FieldsOf(m.names, Nodes(m))), Content(m, s);
    PrintParseRoundTrip(m.names, Nodes(m));
    TailIsBlock(m, s);
    LoadExtends(m.names, map[], block, content);
    Joined(first, second, block + content);
    assert Rest(m, s)[|first + second|..] == block + content;
    assert (block + content)[|block|..] == content;
  }
}
