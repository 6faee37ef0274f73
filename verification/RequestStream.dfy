/** What the receive loop of server.c:247-347 makes of the bytes of a connection, whichever way recv cuts
    them: the requests one call after the other would find in them. */
module RequestStream {
  import opened HttpRequest
  import HeaderText

  /** http_request_parse, as far as this module looks at it. */
  type Caller = (Request, string) -> Report

  function CallerOf(names: seq<string>): Caller {
    (r, data) => if data == "" then Report(r, 0, false, true) else Call(names, r, data)
  }

  /** A new request may be cut behind any bytes that a call takes without complaint; and a call that fails
      takes nothing. */
  ghost predicate Composes(call: Caller) {
    && (forall r, d :: !call(r, d).ok ==> call(r, d).rdlen == 0)
    && !call(Initial(), "").isEnd
    && forall a, b :: a != "" && b != "" && call(Initial(), a).ok && call(Initial(), a).rdlen <= |a| ==> CutAt(call, a, b)
  }

  ghost predicate CutAt(call: Caller, a: string, b: string)
    requires call(Initial(), a).rdlen <= |a|
  {
    var ra := call(Initial(), a);
    call(Initial(), a + b) == if ra.isEnd then ra else After(ra.rdlen, call(ra.req, a[ra.rdlen..] + b))
  }

  lemma CallerComposes(names: seq<string>)
    ensures Composes(CallerOf(names))
  {
    var call := CallerOf(names);
    forall r, d | !call(r, d).ok ensures call(r, d).rdlen == 0 {
      FailuresReadNothing(names, r, d, 0);
    }
    forall a, b | a != "" && b != "" && call(Initial(), a).ok && call(Initial(), a).rdlen <= |a| ensures CutAt(call, a, b) {
      GoodCall(names, Initial(), a);
      GoodCutHarmless(names, Initial(), a, b);
    }
  }

  // ---------------------------------------------------------------- the requests of a stream

  /** The bytes begin with a whole request. */
  predicate Whole(call: Caller, s: string) {
    call(Initial(), s).ok && call(Initial(), s).isEnd && call(Initial(), s).rdlen <= |s|
  }

  /** The stream begins with the requests `reqs`, which take `n` bytes, as the parser would find them if
      each call were given all that follows. */
  predicate Served(call: Caller, stream: string, reqs: seq<Request>, n: nat)
    decreases |reqs|
  {
    if reqs == [] then n == 0
    else
      var rep := call(Initial(), stream);
      && Whole(call, stream) && rep.req == reqs[0] && rep.rdlen <= n
      && Served(call, stream[rep.rdlen..], reqs[1..], n - rep.rdlen)
  }

  /** More bytes do not change the requests already found. */
  lemma {:induction false} ServedExtends(call: Caller, stream: string, reqs: seq<Request>, n: nat, b: string)
    requires Composes(call) && Served(call, stream, reqs, n)
    ensures Served(call, stream + b, reqs, n)
    decreases |reqs|
  {
    if b == "" {
      assert stream + b == stream;
    } else if reqs != [] {
      var k := call(Initial(), stream).rdlen;
      assert CutAt(call, stream, b);
      HeaderText.DropAppend(stream, b, k);
      ServedExtends(call, stream[k..], reqs[1..], n - k, b);
    }
  }

  lemma {:induction false} ServedOneMore(call: Caller, stream: string, reqs: seq<Request>, n: nat)
    requires Served(call, stream, reqs, n) && n <= |stream| && Whole(call, stream[n..])
    ensures var rep := call(Initial(), stream[n..]); Served(call, stream, reqs + [rep.req], n + rep.rdlen)
    decreases |reqs|
  {
    var rep := call(Initial(), stream[n..]);
    if reqs == [] {
      assert stream[0..] == stream && [rep.req][1..] == [];
    } else {
      var k := call(Initial(), stream).rdlen;
      HeaderText.DropDrop(stream, k, n - k);
      ServedOneMore(call, stream[k..], reqs[1..], n - k);
      assert (reqs + [rep.req])[1..] == reqs[1..] + [rep.req];
    }
  }

  // ---------------------------------------------------------------- where a task stands

  /** The request and the bytes in the buffer. */
  datatype Hand = Hand(req: Request, rest: string)

  /** What is known of a task: `got` bytes have come, `reqs` have ended and took the first `n` bytes of the
      stream, and `part` is what the present request has taken behind them. `clean` is lost when a request
      is refused; what the loop does then with the bytes at hand is not followed. */
  datatype Track = Track(got: nat, clean: bool, reqs: seq<Request>, n: nat, part: string, hand: Hand)

  /** `h.req` is what reading `part + h.rest` from the start of a request gives: `part` has been taken, the
      rest is left. Behind a finished request the rest has not been looked at yet. */
  predicate Ready(call: Caller, part: string, h: Hand) {
    if part + h.rest == "" || (h.req == Initial() && part == "") then h.req == Initial()
    else call(Initial(), part + h.rest) == Report(h.req, |part|, false, true)
  }

  /** The bytes of the stream are the requests served, what the present one has taken, and what lies in
      the buffer, in this order. */
  ghost predicate OnTrack(call: Caller, stream: string, t: Track) {
    && t.n <= |stream| && stream[t.n..] == t.part + t.hand.rest
    && Served(call, stream, t.reqs, t.n) && Ready(call, t.part, t.hand)
  }

  /** What one recv leads to. */
  datatype Heard = Heard(hand: Hand, ended: bool, refused: bool, overrun: bool)

  function Hear(call: Caller, h: Hand, bytes: string): Heard {
    var data := h.rest + bytes;
    var rep := call(h.req, data);
    if !rep.ok then Heard(Hand(Initial(), h.rest), true, true, false)
    else if rep.rdlen > |data| then Heard(h, rep.isEnd, false, true)
    else Heard(Hand(if rep.isEnd then Initial() else rep.req, data[rep.rdlen..]), rep.isEnd, false, false)
  }

  /** The track after one more recv. */
  function Next(call: Caller, t: Track, bytes: string): Track {
    var data := t.hand.rest + bytes;
    var rep := call(t.hand.req, data);
    var x := Hear(call, t.hand, bytes);
    var t' := t.(got := t.got + |bytes|, clean := !x.refused, hand := x.hand);
    if x.refused || x.overrun then t'
    else if x.ended then t'.(reqs := t.reqs + [rep.req], n := t.n + |t.part| + rep.rdlen, part := "")
    else t'.(part := t.part + data[..rep.rdlen])
  }

  /** While nothing is refused the task is on track. A request that is refused, or that makes a call claim
      more bytes than there are, would do the same in one call on all its bytes. */
  ghost predicate Told(call: Caller, stream: string, t: Track, overrun: bool) {
    if t.clean && !overrun then OnTrack(call, stream, t)
    else
      && t.n < |stream| && Served(call, stream, t.reqs, t.n)
      && var rep := call(Initial(), stream[t.n..]);
      if t.clean then rep.rdlen > |stream| - t.n else !rep.ok
  }

  // ---------------------------------------------------------------- one more recv

  /** The call on what is left and what has come answers for the whole request. */
  lemma OneMoreRead(call: Caller, part: string, h: Hand, bytes: string)
    requires Composes(call) && Ready(call, part, h) && bytes != ""
    ensures call(Initial(), part + (h.rest + bytes)) == After(|part|, call(h.req, h.rest + bytes))
  {
    if part + h.rest == "" || (h.req == Initial() && part == "") {
      assert part + (h.rest + bytes) == h.rest + bytes;
    } else {
      var a := part + h.rest;
      assert CutAt(call, a, bytes);
      assert a[|part|..] == h.rest && a + bytes == part + (h.rest + bytes);
    }
  }

  lemma TrackEnds(call: Caller, stream: string, t: Track, data: string)
    requires Served(call, stream, t.reqs, t.n) && t.n <= |stream| && stream[t.n..] == t.part + data
    requires var rep := call(t.hand.req, data);
      && rep.ok && rep.isEnd && rep.rdlen <= |data| && call(Initial(), t.part + data) == After(|t.part|, rep)
    ensures var rep := call(t.hand.req, data); var n := t.n + |t.part| + rep.rdlen;
      && Served(call, stream, t.reqs + [rep.req], n)
      && n <= |stream| && stream[n..] == "" + data[rep.rdlen..]
  {
    var k := call(t.hand.req, data).rdlen;
    ServedOneMore(call, stream, t.reqs, t.n);
    HeaderText.DropDrop(stream, t.n, |t.part| + k);
    DropBehind(t.part, data, k);
  }

  lemma DropBehind(part: string, data: string, k: nat)
    requires k <= |data|
    ensures (part + data)[|part| + k..] == "" + data[k..]
  {
  }

  lemma CutInTwo(part: string, data: string, k: nat)
    requires k <= |data|
    ensures part + data[..k] + data[k..] == part + data
  {
  }

  lemma NextTold(call: Caller, stream: string, t: Track, bytes: string, stream': string)
    requires Composes(call) && t.clean && OnTrack(call, stream, t) && bytes != "" && stream' == stream + bytes
    ensures Told(call, stream', Next(call, t, bytes), Hear(call, t.hand, bytes).overrun)
  {
    var data := t.hand.rest + bytes;
    var rep := call(t.hand.req, data);
    OneMoreRead(call, t.part, t.hand, bytes);
    ServedExtends(call, stream, t.reqs, t.n, bytes);
    HeaderText.DropAppend(stream, bytes, t.n);
    assert stream'[t.n..] == t.part + data;
    if rep.ok && rep.rdlen <= |data| {
      if rep.isEnd {
        TrackEnds(call, stream', t, data);
      } else {
        CutInTwo(t.part, data, rep.rdlen);
      }
    }
  }

  // ---------------------------------------------------------------- what is left unserved

  /** A whole request lies unserved in the bytes that have come exactly if it lies in the buffer and has not
      been looked at: the last request ended in the same recv, and nothing has come since. */
  lemma LeftUnserved(call: Caller, stream: string, t: Track)
    requires Composes(call) && OnTrack(call, stream, t)
    ensures Whole(call, stream[t.n..]) <==> t.part == "" && t.hand.req == Initial() && Whole(call, t.hand.rest)
  {
    assert t.part == "" ==> t.part + t.hand.rest == t.hand.rest;
  }

  /** Two requests that come in one recv: the second is left in the buffer. */
  lemma SecondLeft(call: Caller, t: Track, a: string, b: string)
    requires Composes(call) && t.clean && t.part == "" && t.hand == Hand(Initial(), "")
    requires Whole(call, a) && call(Initial(), a).rdlen == |a| && Whole(call, b)
    ensures var u := Next(call, t, a + b);
      u.clean && u.reqs == t.reqs + [call(Initial(), a).req] && u.part == "" && u.hand == Hand(Initial(), b)
  {
    assert a != "" && b != "" by {
      assert !call(Initial(), "").isEnd;
    }
    assert CutAt(call, a, b);
    assert "" + (a + b) == a + b && (a + b)[|a|..] == b;
  }

  /** Such requests there are. */
  lemma SecondLeftUnserved(names: seq<string>)
    ensures var call, a := CallerOf(names), REQUEST_LINE + "\r\n";
      var u := Next(call, Track(0, true, [], 0, "", Hand(Initial(), "")), a + a);
      u.clean && u.reqs == [Asked()] && u.hand == Hand(Initial(), a) && Whole(call, u.hand.rest)
  {
    WholeRequest(names);
    CallerComposes(names);
    var a := REQUEST_LINE + "\r\n";
    SecondLeft(CallerOf(names), Track(0, true, [], 0, "", Hand(Initial(), "")), a, a);
  }

  // ---------------------------------------------------------------- anything that can be told of a task

  type Teller = (Track, bool) -> bool

  ghost function TellerOf(call: Caller, start: string, incoming: string): Teller {
    (t: Track, overrun: bool) => t.got <= |incoming| && Told(call, start + incoming[..t.got], t, overrun)
  }

  /** What is told of a track can be told of it after one more recv. */
  ghost predicate Carried(call: Caller, incoming: string, told: Teller) {
    forall t: Track, b: string {:trigger Next(call, t, b)} ::
      t.clean && b != "" && t.got + |b| <= |incoming| && b == incoming[t.got..t.got + |b|] && told(t, false) ==>
      told(Next(call, t, b), Hear(call, t.hand, b).overrun)
  }

  lemma NextPiece(start: string, incoming: string, got: nat, b: string)
    requires got + |b| <= |incoming| && b == incoming[got..got + |b|]
    ensures start + incoming[..got + |b|] == start + incoming[..got] + b
  {
  }

  lemma TellerCarried(call: Caller, start: string, incoming: string)
    requires Composes(call)
    ensures Carried(call, incoming, TellerOf(call, start, incoming))
  {
    var told := TellerOf(call, start, incoming);
    forall t: Track, b: string {:trigger Next(call, t, b)}
      | t.clean && b != "" && t.got + |b| <= |incoming| && b == incoming[t.got..t.got + |b|] && told(t, false)
      ensures told(Next(call, t, b), Hear(call, t.hand, b).overrun)
    {
      NextPiece(start, incoming, t.got, b);
      NextTold(call, start + incoming[..t.got], t, b, start + incoming[..t.got + |b|]);
    }
  }

  /** Anything that can be said of one recv: the track before it, the bytes, and the track behind it. */
  type Stepper = (Track, string, Track) -> bool

  ghost predicate Stepping(call: Caller, step: Stepper) {
    forall t: Track, b: string {:trigger Next(call, t, b)} :: step(t, b, Next(call, t, b))
  }

  ghost function StepperOf(call: Caller): Stepper {
    (t: Track, b: string, u: Track) => u == Next(call, t, b)
  }

  lemma StepperSteps(call: Caller)
    ensures Stepping(call, StepperOf(call))
  {
  }

  /** A task begins on track. */
  lemma TellerBegins(call: Caller, incoming: string, t: Track)
    requires t.got == 0 && t.clean && t.reqs == [] && t.n == 0 && Ready(call, t.part, t.hand)
    ensures TellerOf(call, t.part + t.hand.rest, incoming)(t, false)
  {
    var start := t.part + t.hand.rest;
    assert start + incoming[..0] == start == start[0..];
  }
}
