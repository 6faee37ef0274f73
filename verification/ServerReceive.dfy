/** The receive loop of server.c:247-347: one task reads from a socket into a buffer, hands the buffer to
    the request parser, and moves to its front what the parser left. */
module ServerReceive {
  import opened HttpRequest
  import opened RequestStream
  import opened BTreeShape
  import HeaderTable

  const RBUF := 2048   // sizeof(rbuf)
  const SAVED := 1024  // sizeof(conn->data_buffer)

  /** memcpy, which wants its two ranges apart. */
  method MemCpy(buf: array<char>, to: nat, from: nat, n: nat)
    requires from + n <= buf.Length && to + n <= from
    modifies buf
    ensures buf[to..to + n] == old(buf[from..from + n])
  {
    var i := 0;
    while i < n
      invariant i <= n
      invariant forall j :: to + i <= j < buf.Length ==> buf[j] == old(buf[j])
      invariant forall j :: to <= j < to + i ==> buf[j] == old(buf[j + (from - to)])
    {
      buf[to + i] := buf[from + i];
      i := i + 1;
    }
  }

  /** Lines 303-316: what the parser left is moved to the front of the buffer. */
  method Compact(rbuf: array<char>, rdlen: nat, remain: nat)
    requires rdlen + remain <= rbuf.Length
    modifies rbuf
    ensures rbuf[..remain] == old(rbuf[rdlen..rdlen + remain])
  {
    if rdlen != 0 && remain != 0 {
      if rdlen >= remain {
        MemCpy(rbuf, 0, rdlen, remain);
        assert rbuf[..remain] == rbuf[0..0 + remain];
      } else {
        var wp := 0;
        while wp < remain
          invariant wp <= remain
          invariant forall j :: wp <= j < rbuf.Length ==> rbuf[j] == old(rbuf[j])
          invariant forall j :: 0 <= j < wp ==> rbuf[j] == old(rbuf[j + rdlen])
        {
          rbuf[wp] := rbuf[wp + rdlen];
          wp := wp + 1;
        }
      }
    }
  }

  /** Bytes from outside, put at `at`. */
  method CopyIn(buf: array<char>, at: nat, bytes: string)
    requires at + |bytes| <= buf.Length
    modifies buf
    ensures buf[..at + |bytes|] == old(buf[..at]) + bytes
  {
    var i := 0;
    while i < |bytes|
      invariant i <= |bytes|
      invariant forall j :: 0 <= j < at ==> buf[j] == old(buf[j])
      invariant forall j :: at <= j < at + i ==> buf[j] == bytes[j - at]
    {
      buf[at + i] := bytes[i];
      i := i + 1;
    }
  }

  /** What recv says when the bytes that have come are used up. */
  datatype Ending = WouldBlock | Broken | Closed

  class Connection {
    const request: HttpRequest
    const dataBuffer: array<char>
    var dataLen: nat

    ghost predicate Valid()
      reads this, dataBuffer
      reads request, request.path, request.path.head, request.path.nodes
      reads request.headers, request.headers.tree, NodeSet(request.headers.tree.t)
      reads request.headers.table, request.headers.table.hashes, request.headers.table.index
    {
      request.Valid() && dataBuffer.Length == SAVED && dataLen <= SAVED
    }

    /** The bytes a task that stopped left for the next one. */
    ghost function Saved(): string
      reads this, dataBuffer
      requires dataLen <= dataBuffer.Length
    {
      dataBuffer[..dataLen]
    }

    /** Lines 107-114: a connection as the accept loop sets it up. */
    constructor (table: HeaderTable.HeaderIndex)
      requires table.Valid() && HeaderTable.DistinctHashes(table.names)
      ensures Valid() && Saved() == "" && request.View() == Initial()
    {
      request := new HttpRequest(table);
      dataBuffer := new char[SAVED];
      dataLen := 0;
    }

    /** The request parser; a request that has ended, or was refused, makes room for the next, unless the
        parser claims more bytes than it was given: there the model stops. */
    method ParseOnce(data: string) returns (rdlen: nat, ended: bool, ok: bool, ghost req: Request)
      requires request.Valid() && data != ""
      modifies request, request.path, request.path.head, request.path.NodeSet(), request.headers.Repr()
      ensures request.Valid()
      ensures forall m :: m in NodeSet(request.headers.tree.t) ==> m in old(NodeSet(request.headers.tree.t)) || fresh(m)
      ensures forall n :: n in request.path.nodes ==> n in old(request.path.nodes) || fresh(n)
      ensures var rep := Call(request.headers.table.names, old(request.View()), data);
        && ok == rep.ok && ended == rep.isEnd && rdlen == rep.rdlen && (ok ==> req == rep.req)
        && (ok ==> request.View() == if ended && rdlen <= |data| then Initial() else req)
        && (!ok ==> ended && request.View() == Initial())
    {
      ghost var names, before := request.headers.table.names, request.View();
      AllAllocated(request.headers.tree.t);
      var junk: nat := *;
      NoJunk(names, before, data, junk);
      rdlen, ended, ok := request.Parse(data, junk);
      req := request.View();
      if !ok {
        FailuresReadNothing(names, before, data, 0);
      }
      if ended && rdlen <= |data| {
        request.Reset();
      }
    }

    /** Lines 294-318: the bytes received are parsed, and what is left moves to the front of the buffer.
        Should the parser claim more bytes than there are, the count of those left would be negative. */
    method ReadOnce(rbuf: array<char>, remain: nat, size: nat) returns (ok: bool, ended: bool, overrun: bool, left: nat, ghost req: Request)
      requires Valid() && rbuf != dataBuffer && 0 < size && remain + size <= rbuf.Length
      modifies rbuf, request, request.path, request.path.head, request.path.NodeSet(), request.headers.Repr()
      ensures Valid() && left <= remain + size
      ensures forall m :: m in NodeSet(request.headers.tree.t) ==> m in old(NodeSet(request.headers.tree.t)) || fresh(m)
      ensures forall n :: n in request.path.nodes ==> n in old(request.path.nodes) || fresh(n)
      ensures var data := old(rbuf[..remain + size]);
        var rep := Call(request.headers.table.names, old(request.View()), data);
        && ok == rep.ok && ended == rep.isEnd && (overrun <==> ok && rep.rdlen > |data|)
        && (!overrun && ok ==> req == rep.req && rbuf[..left] == data[rep.rdlen..])
        && (!overrun && !ok ==> ended && left == remain && rbuf[..left] == data[..left])
        && (!overrun ==> request.View() == if ended then Initial() else req)
    {
      var data := rbuf[..remain + size];
      var rdlen;
      rdlen, ended, ok, req := ParseOnce(data);
      assert request.Valid() && rbuf[..] == old(rbuf[..]);
      AllAllocated(request.headers.tree.t);
      overrun, left := false, remain;
      if ok {
        if rdlen > remain + size {
          overrun, left := true, 0;
        } else {
          left := remain + size - rdlen;
          assert rbuf[rdlen..rdlen + left] == data[rdlen..];
          Compact(rbuf, rdlen, left);
          assert request.Valid();
          assert rbuf[..left] == data[rdlen..];
        }
      }
    }

    /** Lines 276-282: what a task that would have to wait leaves behind. The length is not cleared when
        nothing remains, so the next task finds the bytes of this one's beginning again. */
    method Save(rbuf: array<char>, remain: nat)
      requires Valid() && rbuf != dataBuffer && remain <= rbuf.Length
      modifies `dataLen, dataBuffer
      ensures Valid() && request.View() == old(request.View())
      ensures Saved() == Left(rbuf[..remain], old(Saved()))
      ensures Saved() == rbuf[..remain] <==> remain <= 1024 && (remain > 0 || old(dataLen) == 0)
      ensures remain == 0 ==> Saved() == old(Saved())
      ensures remain > 1024 ==> Saved() == rbuf[..1024]
    {
      if remain != 0 {
        dataLen := if remain > SAVED then SAVED else remain;
        AllAllocated(request.headers.tree.t);
        CopyIn(dataBuffer, 0, rbuf[..dataLen]);
        assert Saved() == rbuf[..dataLen];
        assert remain > SAVED ==> |rbuf[..remain]| != |Saved()|;
      }
    }

    /** Lines 267 and 294-318: one recv, and what it leads to. */
    method Turn(rbuf: array<char>, remain: nat, bytes: string) returns (ended: bool, refused: bool, overrun: bool, left: nat)
      requires Valid() && rbuf != dataBuffer && bytes != "" && remain + |bytes| <= rbuf.Length
      modifies rbuf, request, request.path, request.path.head, request.path.NodeSet(), request.headers.Repr()
      ensures Valid() && left <= remain + |bytes|
      ensures forall m :: m in NodeSet(request.headers.tree.t) ==> m in old(NodeSet(request.headers.tree.t)) || fresh(m)
      ensures forall n :: n in request.path.nodes ==> n in old(request.path.nodes) || fresh(n)
      ensures var h := Hear(CallerOf(request.headers.table.names), Hand(old(request.View()), old(rbuf[..remain])), bytes);
        && ended == h.ended && refused == h.refused && overrun == h.overrun
        && (!overrun ==> h.hand == Hand(request.View(), rbuf[..left]))
    {
      AllAllocated(request.headers.tree.t);
      CopyIn(rbuf, remain, bytes);
      var ok;
      ghost var req;
      ok, ended, overrun, left, req := ReadOnce(rbuf, remain, |bytes|);
      refused := !ok;
    }

    /** The same, with what can be told of the track, and of a step of it. */
    method TurnTold(rbuf: array<char>, remain: nat, bytes: string, ghost incoming: string, ghost told: Teller, ghost step: Stepper,
                    ghost t: Track)
      returns (ended: bool, refused: bool, overrun: bool, left: nat, ghost u: Track)
      requires Valid() && rbuf != dataBuffer && bytes != "" && remain + |bytes| <= rbuf.Length
      requires Carried(CallerOf(request.headers.table.names), incoming, told) && Stepping(CallerOf(request.headers.table.names), step)
      requires t.clean && told(t, false) && t.hand == Hand(request.View(), rbuf[..remain])
      requires t.got + |bytes| <= |incoming| && bytes == incoming[t.got..t.got + |bytes|]
      modifies rbuf, request, request.path, request.path.head, request.path.NodeSet(), request.headers.Repr()
      ensures Valid() && left <= remain + |bytes|
      ensures forall m :: m in NodeSet(request.headers.tree.t) ==> m in old(NodeSet(request.headers.tree.t)) || fresh(m)
      ensures forall n :: n in request.path.nodes ==> n in old(request.path.nodes) || fresh(n)
      ensures told(u, overrun) && u.got == t.got + |bytes| && (u.clean <==> !refused) && (refused ==> ended && !overrun)
      ensures |u.reqs| == |t.reqs| + (if ended && !refused && !overrun then 1 else 0) && step(t, bytes, u)
      ensures !overrun ==> u.hand == Hand(request.View(), rbuf[..left])
    {
      u := Next(CallerOf(request.headers.table.names), t, bytes);
      ended, refused, overrun, left := Turn(rbuf, remain, bytes);
    }

    /** Lines 254-264: the buffer begins with what the last task left. */
    method Begin() returns (rbuf: array<char>, remain: nat)
      requires Valid()
      ensures fresh(rbuf) && rbuf.Length == RBUF == 2048 && remain <= RBUF && rbuf[..remain] == Saved()
    {
      rbuf := new char[RBUF];
      remain := 0;
      if dataLen > 0 {
        remain := dataLen;
        CopyIn(rbuf, 0, dataBuffer[..dataLen]);
      }
    }

    /** One round of the loop that finds room in the buffer, and bytes. */
    method RecvOnce(rbuf: array<char>, remain0: nat, incoming: string, size: nat, keep: nat -> bool,
                    ghost told: Teller, ghost step: Stepper, ghost t: Track, got0: nat, served0: nat)
      returns (got: nat, remain: nat, keepAlive: bool, overrun: bool, served: nat, ghost end: Track)
      requires Valid() && rbuf != dataBuffer && rbuf.Length == RBUF && remain0 < RBUF && 0 < size && t.got == got0 < |incoming|
      requires t.clean && t.hand == Hand(request.View(), rbuf[..remain0]) && served0 == |t.reqs| && AllKept(keep, served0)
      requires told(t, false) && Carried(CallerOf(request.headers.table.names), incoming, told)
      requires Stepping(CallerOf(request.headers.table.names), step)
      modifies rbuf, request, request.path, request.path.head, request.path.NodeSet(), request.headers.Repr()
      ensures Valid() && remain <= RBUF
      ensures forall m :: m in NodeSet(request.headers.tree.t) ==> m in old(NodeSet(request.headers.tree.t)) || fresh(m)
      ensures forall n :: n in request.path.nodes ==> n in old(request.path.nodes) || fresh(n)
      ensures told(end, overrun) && LastRecv(incoming, keep, told, step, t, end)
      ensures got == end.got == t.got + Least(size, RBUF - remain0, |incoming| - t.got)
      ensures (keepAlive <==> end.clean && AllKept(keep, |end.reqs|)) && (overrun ==> keepAlive) && (keepAlive ==> served == |end.reqs|)
      ensures !overrun ==> end.hand == Hand(request.View(), rbuf[..remain])
    {
      var bytes := incoming[got0..got0 + Least(size, RBUF - remain0, |incoming| - got0)];
      var ended, refused;
      ended, refused, overrun, remain, end := TurnTold(rbuf, remain0, bytes, incoming, told, step, t);
      got, keepAlive, served := got0 + |bytes|, true, served0;
      if ended && !overrun {
        keepAlive := !refused && keep(served);
        served := served + 1;
      }
    }

    /** The loop, until nothing more has come or the connection is to be closed, as it is once a request has
        been refused (lines 366-368). `told` is anything that can be said of the track and that one more recv keeps,
        and `step` anything that can be said of a recv; `before` is the track before the last one. */
    method Receive(rbuf: array<char>, remain0: nat, incoming: string, sizes: nat -> nat, keep: nat -> bool,
                   ghost told: Teller, ghost step: Stepper, ghost t: Track)
      returns (got: nat, remain: nat, keepAlive: bool, overrun: bool, ghost end: Track, ghost before: Track)
      requires Valid() && rbuf != dataBuffer && rbuf.Length == RBUF && remain0 <= RBUF
      requires t.got == 0 && t.clean && t.reqs == [] && t.hand == Hand(request.View(), rbuf[..remain0])
      requires told(t, false) && Carried(CallerOf(request.headers.table.names), incoming, told)
      requires Stepping(CallerOf(request.headers.table.names), step)
      modifies rbuf, request, request.path, request.path.head, request.path.NodeSet(), request.headers.Repr()
      ensures Valid() && remain <= RBUF
      ensures told(end, overrun) && end.got == got <= |incoming|
      ensures keepAlive <==> end.clean && AllKept(keep, |end.reqs|) && (overrun || got == |incoming|)
      ensures end.clean && AllKept(keep, |end.reqs|) && !overrun && got < |incoming| ==> remain == RBUF
      ensures if got == 0 then end == t && !overrun else LastRecv(incoming, keep, told, step, before, end)
      ensures !overrun ==> end.hand == Hand(request.View(), rbuf[..remain])
    {
      remain, overrun, keepAlive := remain0, false, true;
      var served := 0;
      got, end, before := 0, t, t;
      while keepAlive && !overrun && got < |incoming|
        invariant Valid() && remain <= RBUF && got <= |incoming|
        invariant forall m :: m in NodeSet(request.headers.tree.t) ==> m in old(NodeSet(request.headers.tree.t)) || fresh(m)
        invariant forall n :: n in request.path.nodes ==> n in old(request.path.nodes) || fresh(n)
        invariant told(end, overrun) && end.got == got && (overrun ==> keepAlive)
        invariant keepAlive ==> end.clean && AllKept(keep, |end.reqs|) && served == |end.reqs|
        invariant !keepAlive && end.clean && AllKept(keep, |end.reqs|) ==> remain == RBUF && got < |incoming|
        invariant if got == 0 then end == t && !overrun else LastRecv(incoming, keep, told, step, before, end)
        invariant !overrun ==> end.hand == Hand(request.View(), rbuf[..remain])
        decreases |incoming| - got, keepAlive
      {
        if remain == RBUF {
          keepAlive := false;
          continue;
        }
        before := end;
        got, remain, keepAlive, overrun, served, end :=
          RecvOnce(rbuf, remain, incoming, sizes(got) + 1, keep, told, step, end, got, served);
      }
    }

    /** server_serv_client, as far as it reads. `incoming` are the bytes that come during the task, of
        which a recv behind `k` bytes finds `sizes(k)` and one more, and `ending` is what recv says behind
        them; `keep` is what processing the `k`-th request does to keep_alive. The connection is kept exactly if no
        request was refused, every one served was to be kept, and recv would block behind all that has come; the task
        stops at the first recv after which one of these fails, or at a full buffer. */
    method Serve(incoming: string, sizes: nat -> nat, ending: Ending, keep: nat -> bool, ghost part: string)
      returns (keepAlive: bool, overrun: bool, ghost end: Track, ghost before: Track)
      requires Valid() && Ready(CallerOf(request.headers.table.names), part, Hand(request.View(), Saved()))
      modifies this, dataBuffer, request, request.path, request.path.head, request.path.NodeSet(), request.headers.Repr()
      ensures Valid() && end.got <= |incoming|
      ensures Told(CallerOf(request.headers.table.names), part + old(Saved()) + incoming[..end.got], end, overrun)
      ensures !overrun ==> request.View() == end.hand.req
      ensures !overrun ==>
        (keepAlive <==> end.clean && AllKept(keep, |end.reqs|) && end.got == |incoming| && ending == WouldBlock)
      ensures end.clean && AllKept(keep, |end.reqs|) && !overrun && end.got < |incoming| ==> |end.hand.rest| == RBUF
      ensures if end.got == 0 then !overrun && end == Track(0, true, [], 0, part, Hand(old(request.View()), old(Saved())))
              else LastRecv(incoming, keep, TellerOf(CallerOf(request.headers.table.names), part + old(Saved()), incoming),
                            StepperOf(CallerOf(request.headers.table.names)), before, end)
      ensures keepAlive && !overrun ==> Saved() == Left(end.hand.rest, old(Saved()))
    {
      ghost var call := CallerOf(request.headers.table.names);
      ghost var t := Track(0, true, [], 0, part, Hand(request.View(), Saved()));
      CallerComposes(request.headers.table.names);
      TellerCarried(call, part + Saved(), incoming);
      TellerBegins(call, incoming, t);
      StepperSteps(call);
      keepAlive, overrun, end, before :=
        ServeTold(incoming, sizes, ending, keep, TellerOf(call, part + Saved(), incoming), StepperOf(call), t);
    }

    method ServeTold(incoming: string, sizes: nat -> nat, ending: Ending, keep: nat -> bool, ghost told: Teller, ghost step: Stepper,
                     ghost t: Track)
      returns (keepAlive: bool, overrun: bool, ghost end: Track, ghost before: Track)
      requires Valid() && t.got == 0 && t.clean && t.reqs == [] && t.hand == Hand(request.View(), Saved())
      requires told(t, false) && Carried(CallerOf(request.headers.table.names), incoming, told)
      requires Stepping(CallerOf(request.headers.table.names), step)
      modifies this, dataBuffer, request, request.path, request.path.head, request.path.NodeSet(), request.headers.Repr()
      ensures Valid() && told(end, overrun) && end.got <= |incoming|
      ensures !overrun ==> request.View() == end.hand.req
      ensures !overrun ==>
        (keepAlive <==> end.clean && AllKept(keep, |end.reqs|) && end.got == |incoming| && ending == WouldBlock)
      ensures end.clean && AllKept(keep, |end.reqs|) && !overrun && end.got < |incoming| ==> |end.hand.rest| == RBUF
      ensures if end.got == 0 then end == t && !overrun else LastRecv(incoming, keep, told, step, before, end)
      ensures keepAlive && !overrun ==> Saved() == Left(end.hand.rest, old(Saved()))
    {
      AllAllocated(request.headers.tree.t);
      var rbuf, remain := Begin();
      var got;
      got, remain, keepAlive, overrun, end, before := Receive(rbuf, remain, incoming, sizes, keep, told, step, t);
      assert Saved() == old(Saved());
      if keepAlive && !overrun {
        if ending == WouldBlock {
          Save(rbuf, remain);
        } else {
          keepAlive := false;
        }
      }
    }
  }

  /** Every request served so far is to be followed by others. */
  predicate AllKept(keep: nat -> bool, served: nat) {
    forall i :: 0 <= i < served ==> keep(i)
  }

  /** The last recv led from `before` to `end`, and up to `before` nothing had stopped the task. */
  ghost predicate LastRecv(incoming: string, keep: nat -> bool, told: Teller, step: Stepper, before: Track, end: Track) {
    && before.got < end.got <= |incoming| && step(before, incoming[before.got..end.got], end)
    && told(before, false) && before.clean && AllKept(keep, |before.reqs|) && |before.hand.rest| < RBUF
  }

  /** What a task that has to wait leaves to the next, when it began with `saved`. */
  function Left(rest: string, saved: string): string {
    if rest == "" then saved else if |rest| <= SAVED then rest else rest[..SAVED]
  }

  function Least(a: nat, b: nat, c: nat): nat {
    if a <= b && a <= c then a else if b <= c then b else c
  }

  /** Bytes a task has saved can come back after the next one has used them: the first task gets a request line
      and half of the blank line, the second the other half. */
  lemma StaleBytes(names: seq<string>)
    ensures var call, line := CallerOf(names), REQUEST_LINE;
      var first := Next(call, Track(0, true, [], 0, "", Hand(Initial(), "")), line + "\r");
      var saved := Left(first.hand.rest, "");
      var second := Next(call, Track(0, true, [], 0, line, Hand(first.hand.req, saved)), "\n");
      && first.clean && first.part == line && saved == "\r"
      && second.clean && second.reqs == [Asked()] && second.hand.rest == "" && Left(second.hand.rest, saved) == "\r"
  {
    var call, line := CallerOf(names), REQUEST_LINE;
    LineAsked(names, "\r");
    AskedGoesOn(names, 10);
    AskedGoesOn(names, 0);
    assert "" + (line + "\r") == line + "\r" && (line + "\r")[16..] == "\r" && (line + "\r")[..16] == line;
    assert call(Initial(), line + "\r") == Report(Asked(), 16, false, true);
    assert "\r" + "\n" == "\r\n" && call(Asked(), "\r\n") == Report(Asked(), 2, true, true);
    assert "\r\n"[2..] == "";
  }
}
