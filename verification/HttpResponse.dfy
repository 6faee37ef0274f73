/** http_response.c:321-430 on the heap: a response writes itself into whatever buffers are offered. */
module HttpResponse {
  import opened BTree
  import opened BTreeShape
  import opened HeaderText
  import opened HttpHeader
  import opened ResponseStream
  import HeaderTable
  import HttpLog
  import HttpVersion

  class HttpResponse {
    var stage: Stage
    var version: HttpVersion.Version
    var code: string      // http_response_code[status]
    const headers: HeaderCollection
    var open: bool        // content > 0
    var file: string
    var read: nat

    ghost predicate Valid()
      reads this
      reads headers, headers.tree, NodeSet(headers.tree.t)
      reads headers.table, headers.table.hashes, headers.table.index
    {
      headers.Valid()
    }

    /** What does not change while the response is written. */
    ghost function Msg(): Message
      reads this, headers.tree
    {
      Message(version, code, headers.table.names, headers.tree.t, open)
    }

    /** Where the response stands. */
    ghost function View(): State
      reads this, headers, headers.tree
    {
      State(stage, StartAt(headers.tree.t, headers.cursor), file, read)
    }

    /** http_response_init. */
    constructor (table: HeaderTable.HeaderIndex, code: string)
      requires table.Valid() && HeaderTable.DistinctHashes(table.names)
      ensures Valid() && View() == State(VersionStage, 0, "", 0)
      ensures Msg() == Message(HttpVersion.V1_1, code, table.names, Leaf, false)
      ensures headers.Contents() == map[] && fresh(headers.Repr())
    {
      stage, version, this.code, open, file, read := VersionStage, HttpVersion.V1_1, code, false, "", 0;
      headers := new HeaderCollection(table);
    }

    /** Lines 356-377: the version and the status, each in one piece. */
    method LineRound(buf: array<char>, p: nat, size: nat) returns (len: nat)
      requires Valid() && p + size <= buf.Length && (stage == VersionStage || stage == CodeStage)
      modifies `stage, buf
      ensures Valid() && Msg() == old(Msg()) && View() == old(View()).(stage := stage) && len <= size
      ensures buf[..p] == old(buf[..p])
      ensures if size < |StageLine(Msg(), old(stage))| then stage == old(stage) && len == 0
              else buf[p..p + len] == StageLine(Msg(), old(stage)) &&
                   stage == if old(stage) == VersionStage then CodeStage else HeaderStage
    {
      AllAllocated(headers.tree.t);
      len := 0;
      if stage == VersionStage {
        if size >= HttpLog.VERSION_LEN {
          len := HttpLog.VERSION_LEN;
          HttpLog.StrNCpy(buf, p, HttpVersion.Text(version), size);
          stage := CodeStage;
        }
      } else if size >= |code| + 2 {
        len := |code| + 2;
        PutCode(buf, p, size, code);
        stage := HeaderStage;
      }
    }

    /** http_header_to_str, in terms of where the next print begins. */
    method ToText(size: nat) returns (text: string, isHeaderEnd: bool)
      requires Valid() && stage == HeaderStage
      modifies headers, NodeSet(headers.tree.t)
      ensures Valid() && Msg() == old(Msg())
      ensures var a := PrintHeaders(Msg(), old(View()), size);
        text == a.out && (isHeaderEnd <==> a.state.stage == ContentStage) && View() == a.state.(stage := HeaderStage)
    {
      ghost var m, s, before, pending := Msg(), View(), headers.cursor, headers.Pending();
      StartInside(m.tree, before);
      assert pending == Pending(m, s.at);
      text, isHeaderEnd := headers.ToStr(size);
      PrintedIs(m, s, size, pending, before, headers.cursor, text, isHeaderEnd);
    }

    /** The headers, from the cursor on. */
    method HeaderRound(buf: array<char>, p: nat, size: nat) returns (len: nat)
      requires Valid() && p + size <= buf.Length && stage == HeaderStage
      modifies `stage, buf, headers, NodeSet(headers.tree.t)
      ensures Valid() && Msg() == old(Msg()) && headers.tree.t == old(headers.tree.t) && len <= size
      ensures buf[..p] == old(buf[..p])
      ensures var a := PrintHeaders(Msg(), old(View()), size); View() == a.state && buf[p..p + len] == a.out
    {
      AllAllocated(headers.tree.t);
      var text, isHeaderEnd := ToText(size);
      len := |text|;
      HttpLog.Put(buf, p, text);
      if isHeaderEnd {
        stage := ContentStage;
      }
    }

    /** Lines 387-405. */
    method ContentRound(buf: array<char>, p: nat, size: nat, reader: Reader) returns (len: nat, isEnd: bool)
      requires Valid() && p + size <= buf.Length && stage == ContentStage
      modifies `file, `read, buf
      ensures Valid() && Msg() == old(Msg()) && len <= size
      ensures buf[..p] == old(buf[..p])
      ensures var a := ReadContent(Msg(), old(View()), size, reader); View() == a.state && buf[p..p + len] == a.out && isEnd == a.isEnd
    {
      AllAllocated(headers.tree.t);
      len, isEnd := 0, false;
      if open {
        var n := Read(file, read, size, reader);
        if n <= 0 {
          isEnd := true;
        } else {
          HttpLog.Put(buf, p, file[..n]);
          file, read, len := file[n..], read + n, n;
        }
      } else {
        isEnd := true;
      }
    }

    /** One round of the do-while loop, behind the `p` bytes already written. */
    method RoundBehind(buf: array<char>, p: nat, size: nat, reader: Reader) returns (len: nat, isEnd: bool)
      requires Valid() && p + size <= buf.Length
      modifies this, buf, headers, NodeSet(headers.tree.t)
      ensures Valid() && Msg() == old(Msg()) && p <= len <= p + size
      ensures buf[..len] == old(buf[..p]) + buf[p..len]
      ensures var a := Round(Msg(), old(View()), size, reader);
        View() == a.state && buf[p..len] == a.out && isEnd == a.isEnd
    {
      AllAllocated(headers.tree.t);
      isEnd := false;
      var n := 0;
      match stage {
        case VersionStage =>
          n := LineRound(buf, p, size);
        case CodeStage =>
          n := LineRound(buf, p, size);
        case HeaderStage =>
          n := HeaderRound(buf, p, size);
        case ContentStage =>
          n, isEnd := ContentRound(buf, p, size, reader);
        case ErrorStage =>
          isEnd := true;
      }
      len := p + n;
      SplitAt(buf[..], p, len);
    }

    /** The same, in terms of points. */
    method RoundFrom(buf: array<char>, p: nat, size: nat, reader: Reader, ghost m: Message, ghost q: Point)
      returns (len: nat, isEnd: bool)
      requires Valid() && p <= size <= buf.Length && m == Msg() && q == Point(View(), size - p, buf[..p])
      modifies this, buf, headers, NodeSet(headers.tree.t)
      ensures Valid() && Msg() == m && len <= size
      ensures var a := Round(m, q.state, q.room, reader);
        isEnd == a.isEnd && View() == a.state && len == p + |a.out| && buf[..len] == q.written + a.out
    {
      len, isEnd := RoundBehind(buf, p, size - p, reader);
    }

    /** The loop. `told` is anything that can be told of the call and that a round carries on; `q` is where the
        call stands before its last round. */
    method GenerateTold(buf: array<char>, size: nat, reader: Reader, ghost told: Point -> bool)
      returns (len: nat, isEnd: bool, ghost q: Point)
      requires Valid() && size <= buf.Length && Carried(Msg(), reader, told) && told(Point(View(), size, ""))
      modifies this, buf, headers, NodeSet(headers.tree.t)
      ensures Valid() && Msg() == old(Msg()) && len <= size && told(q)
      ensures var a := Round(Msg(), q.state, q.room, reader);
        a.state.stage == q.state.stage && isEnd == a.isEnd && Behind(q, a) == Point(View(), size - len, buf[..len])
    {
      len, isEnd := 0, false;
      assert buf[..0] == "";
      q := Point(View(), size, buf[..0]);
      while true
        invariant Valid() && Msg() == old(Msg()) && len <= size && told(q) && q == Point(View(), size - len, buf[..len])
        decreases Rank(stage)
      {
        AllAllocated(headers.tree.t);
        var status := stage;
        len, isEnd := RoundFrom(buf, len, size, reader, Msg(), q);
        if status == stage {
          return;
        }
        q := Behind(q, Round(Msg(), q.state, q.room, reader));
        if stage == ErrorStage {
          assert false;
        }
      }
    }

    /** http_response_gen into the first `size` bytes of the buffer, from wherever the response stands. */
    method Generate(buf: array<char>, size: nat, reader: Reader) returns (len: nat, isEnd: bool)
      requires Valid() && size <= buf.Length
      modifies this, buf, headers, NodeSet(headers.tree.t)
      ensures Valid() && Msg() == old(Msg()) && len <= size
      ensures var a := Gen(RoundsOf(Msg(), reader), old(View()), size);
        View() == a.state && buf[..len] == a.out && isEnd == a.isEnd
    {
      ghost var m, whole := Msg(), Gen(RoundsOf(Msg(), reader), View(), size);
      ToldCarried(m, whole, reader);
      assert "" + whole.out == whole.out;
      ghost var q;
      len, isEnd, q := GenerateTold(buf, size, reader, ToldOf(m, whole, reader));
      LastRound(m, whole, reader, q);
    }

    /** The loop of server.c:325-342, for as many rounds as `calls` at most: the buffer is filled and sent until the
        response has ended. */
    method Send(wbuf: array<char>, reader: Reader, calls: nat) returns (sent: string, sendEnd: bool)
      requires Valid()
      modifies this, wbuf, headers, NodeSet(headers.tree.t)
      ensures Valid() && Msg() == old(Msg())
      ensures Run(View(), sent, sendEnd) == RunOf(Msg(), old(View()), Again(calls, wbuf.Length), reader)
    {
      ghost var m, s := Msg(), View();
      sent, sendEnd := "", false;
      var k := 0;
      while k < calls && !sendEnd
        invariant Valid() && Msg() == m && k <= calls
        invariant Run(View(), sent, sendEnd) == RunOf(m, s, Again(k, wbuf.Length), reader)
      {
        AllAllocated(headers.tree.t);
        var len;
        len, sendEnd := Generate(wbuf, wbuf.Length, reader);
        OneMoreCall(m, s, k, wbuf.Length, reader);
        sent := sent + wbuf[..len];
        k := k + 1;
      }
      if sendEnd {
        MoreCalls(m, s, k, calls, wbuf.Length, reader);
      }
    }
  }

  /** Every valid response whose header values have no NUL byte is one that the theorems on runs speak of. */
  lemma SoundResponse(response: HttpResponse)
    requires response.Valid() && NulFree(response.headers.tree.Order())
    requires forall id :: 0 <= id < |response.headers.table.names| ==> ':' !in response.headers.table.names[id]
    ensures Sound(response.Msg())
  {
    var t := response.headers.tree.t;
    InOrderSorted(t);
    InOrderElems(t);
  }

  lemma SplitAt(s: string, p: nat, len: nat)
    requires p <= len <= |s|
    ensures s[..len] == s[..p] + s[p..len]
  {
  }

  /** Where a call stands between two rounds: the state, the room left, and what is written. */
  datatype Point = Point(state: State, room: nat, written: string)

  function Behind(q: Point, a: Answer): Point
    requires |a.out| <= q.room
  {
    Point(a.state, q.room - |a.out|, q.written + a.out)
  }

  /** What is told of one point can be told of the next. */
  ghost predicate Carried(m: Message, reader: Reader, told: Point -> bool) {
    forall q: Point {:trigger Round(m, q.state, q.room, reader)} ::
      var a := Round(m, q.state, q.room, reader);
      told(q) && a.state.stage != q.state.stage ==> told(Behind(q, a))
  }

  /** The rest of the call is what a call would do from here. */
  ghost function ToldOf(m: Message, whole: Answer, reader: Reader): Point -> bool {
    (q: Point) => whole == Gen(RoundsOf(m, reader), q.state, q.room).Behind(q.written)
  }

  lemma ToldStep(round: Rounds, q: Point)
    requires Steady(round) && round(q.state, q.room).state.stage != q.state.stage
    ensures var n := Behind(q, round(q.state, q.room));
      Gen(round, q.state, q.room).Behind(q.written) == Gen(round, n.state, n.room).Behind(n.written)
  {
    var a := round(q.state, q.room);
    Joined(q.written, a.out, Gen(round, a.state, q.room - |a.out|).out);
  }

  lemma ToldCarried(m: Message, whole: Answer, reader: Reader)
    ensures Carried(m, reader, ToldOf(m, whole, reader))
  {
    forall q: Point {:trigger Round(m, q.state, q.room, reader)}
      | ToldOf(m, whole, reader)(q) && Round(m, q.state, q.room, reader).state.stage != q.state.stage
      ensures ToldOf(m, whole, reader)(Behind(q, Round(m, q.state, q.room, reader)))
    {
      ToldStep(RoundsOf(m, reader), q);
    }
  }

  lemma LastRound(m: Message, whole: Answer, reader: Reader, q: Point)
    requires ToldOf(m, whole, reader)(q) && Round(m, q.state, q.room, reader).state.stage == q.state.stage
    ensures whole == Round(m, q.state, q.room, reader).Behind(q.written)
  {
  }

  ghost function StartAt(t: Tree, cursor: Node?): nat {
    if Start(t, cursor) >= 0 then Start(t, cursor) else 0
  }

  /** What a print has written, and where it has left the cursor, is what the round of the header stage says. */
  lemma PrintedIs(m: Message, s: State, size: nat, pending: seq<Node>, before: Node?, cursor: Node?, text: string, isEnd: bool)
    requires (before == null || before in NodeSet(m.tree)) && s.at == StartAt(m.tree, before) && s.stage == HeaderStage
    requires pending == Pending(m, s.at)
    requires var lines, c := Emitted(m.names, pending, 0, size), Count(m.names, pending, 0, size);
      && (isEnd <==> c == |pending| && |lines| + 2 <= size) && text == (if isEnd then lines + CRLF else lines)
      && cursor == if isEnd then Root(m.tree) else if c == |pending| then null else if c == 0 then before else pending[c - 1]
    ensures var a := PrintHeaders(m, s, size);
      && text == a.out && (isEnd <==> a.state.stage == ContentStage)
      && StartAt(m.tree, cursor) == a.state.at
  {
    var c := Count(m.names, pending, 0, size);
    if isEnd {
      if cursor != null {
        StartInside(m.tree, cursor);
      }
    } else if 0 < c < |pending| {
      assert pending[c - 1] == Nodes(m)[s.at + c - 1];
    }
  }

  /** strncpy of the status, and the end of its line. */
  method PutCode(buf: array<char>, p: nat, size: nat, code: string)
    requires |code| + 2 <= size && p + size <= buf.Length
    modifies buf
    ensures buf[..p] == old(buf[..p])
    ensures buf[p..p + |code| + 2] == code + CRLF
  {
    HttpLog.StrNCpy(buf, p, code, size);
    var q := p + |code|;
    assert buf[p..q] == code;
    buf[q], buf[q + 1] := '\r', '\n';
    assert buf[p..q] == code && buf[p..q + 2] == buf[p..q] + CRLF;
  }
}
