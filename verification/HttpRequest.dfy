/** http_request.c: the stage machine that parses a request from whatever pieces arrive. */
module HttpRequest {
  import opened Outcome
  import opened BTreeShape
  import opened List
  import opened Wrappers
  import HttpMethod
  import HttpUrl
  import HttpVersion
  import HttpHeader
  import HeaderText
  import HeaderTable
  import UrlPath

  /** http_request_parse_status_t. */
  datatype Stage = MethodStage | UrlStage | VersionStage | HeaderStage | ErrorStage

  /** The stages still to come. */
  function Rank(stage: Stage): nat {
    match stage
    case MethodStage => 4
    case UrlStage => 3
    case VersionStage => 2
    case HeaderStage => 1
    case ErrorStage => 0
  }

  /** What the fields of an http_request_t say. */
  datatype Request = Request(stage: Stage, verb: HttpMethod.Method, url: HttpUrl.Url, version: HttpVersion.Version,
                             headers: map<int, string>)

  /** A request that has read nothing. */
  function Initial(): Request {
    Request(MethodStage, HttpMethod.NoMethod, HttpUrl.Url("", []), HttpVersion.NoVersion, map[])
  }

  /** One call's answer: the request, `*rdlen`, `*is_end` and the return value. */
  datatype Report = Report(req: Request, rdlen: nat, isEnd: bool, ok: bool)

  // ---------------------------------------------------------------- one call

  function Failed(r: Request): Report {
    Report(r.(stage := ErrorStage), 0, true, false)
  }

  /** The answer of a call that had consumed `n` bytes before. */
  function After(n: nat, rep: Report): Report {
    if rep.ok then rep.(rdlen := n + rep.rdlen) else rep
  }

  /** The rounds of the do-while loop from stage `r.stage` on, with `data` left. `last` is the value
      `parsed_len` still has from the round before: http_version_parse leaves it alone when it is given
      no bytes, and then the loop goes on as if so many bytes of version had been read. */
  function Rounds(names: seq<string>, r: Request, data: string, last: nat): Report
    decreases Rank(r.stage)
  {
    match r.stage
    case MethodStage =>
      (match HttpMethod.MethodOf(data)
       case More => Report(r, 0, false, true)
       case Error => Failed(r)
       case Done(n, m) => After(n, Rounds(names, r.(verb := m, stage := UrlStage), data[n..], n)))
    case UrlStage =>
      (match HttpUrl.UrlOf(data)
       case More => Report(r, 0, false, true)
       case Error => Failed(r)
       case Done(n, u) => After(n, Rounds(names, r.(url := u, stage := VersionStage), data[n..], n)))
    case VersionStage =>
      if data == "" then
        if last == 0 then Report(r, 0, false, true) else Report(r.(stage := HeaderStage), last, false, true)
      else
        (match HttpVersion.VersionOf(data)
         case More => Report(r, 0, false, true)
         case Error => Failed(r)
         case Done(n, v) => After(n, Rounds(names, r.(version := v, stage := HeaderStage), data[n..], n)))
    case HeaderStage =>
      var l := HttpHeader.Load(names, r.headers, data);
      if l.failed then Failed(r.(headers := l.m)) else Report(r.(headers := l.m), l.consumed, l.end, true)
    case ErrorStage => Failed(r)
  }

  /** http_request_parse on at least one byte. */
  function Call(names: seq<string>, r: Request, data: string): Report
    requires data != ""
  {
    Rounds(names, r, data, 0)
  }

  // ---------------------------------------------------------------- cutting the stream

  /** The bytes at hand end exactly behind the URL, so that the version stage is entered with none. */
  predicate EndsBehindUrl(r: Request, data: string) {
    match r.stage
    case MethodStage =>
      (match HttpMethod.MethodOf(data)
       case Done(n, m) => UrlEnds(data[n..])
       case _ => false)
    case UrlStage => UrlEnds(data)
    case _ => false
  }

  predicate UrlEnds(data: string) {
    match HttpUrl.UrlOf(data)
    case Done(n, u) => n == |data|
    case _ => false
  }

  /** The two places where the code cannot stand a cut: behind a lone "P", and behind the URL. */
  predicate BadCut(r: Request, data: string) {
    (r.stage == MethodStage && data == "P") || EndsBehindUrl(r, data)
  }

  /** Calling with `a` and then, on what that left over, with `b` behind it, is calling with both. */
  ghost predicate CutHarmless(names: seq<string>, r: Request, a: string, b: string)
    requires a != "" && b != ""
  {
    var ra := Call(names, r, a);
    && ra.rdlen <= |a|
    && Call(names, r, a + b) == if !ra.ok || ra.isEnd then ra
                                else After(ra.rdlen, Call(names, ra.req, a[ra.rdlen..] + b))
  }

  /** The same, from the middle of a call. */
  ghost predicate Harmless(names: seq<string>, r: Request, a: string, last: nat, b: string) {
    var ra := Rounds(names, r, a, last);
    && ra.rdlen <= |a|
    && Rounds(names, r, a + b, last) == if !ra.ok || ra.isEnd then ra
                                        else After(ra.rdlen, Rounds(names, ra.req, a[ra.rdlen..] + b, 0))
  }

  /** A stage that is done with `n` bytes of `a`, whatever follows them. */
  lemma StageDone(names: seq<string>, r: Request, a: string, last: nat, b: string, r': Request, n: nat)
    requires n <= |a| && Harmless(names, r', a[n..], n, b)
    requires Rounds(names, r, a, last) == After(n, Rounds(names, r', a[n..], n))
    requires Rounds(names, r, a + b, last) == After(n, Rounds(names, r', a[n..] + b, n))
    ensures Harmless(names, r, a, last, b)
  {
    var rn := Rounds(names, r', a[n..], n);
    HeaderText.DropDrop(a, n, rn.rdlen);
    SplitsBehind(n, rn, Rounds(names, r', a[n..] + b, n), Rounds(names, rn.req, a[n + rn.rdlen..] + b, 0));
  }

  lemma SplitsBehind(n: nat, ra: Report, rab: Report, rest: Report)
    requires rab == if !ra.ok || ra.isEnd then ra else After(ra.rdlen, rest)
    ensures After(n, rab) == if !ra.ok || ra.isEnd then After(n, ra) else After(After(n, ra).rdlen, rest)
  {
  }

  /** A stage that wants more bytes looks at them all again. */
  lemma StageWaits(names: seq<string>, r: Request, a: string, last: nat, b: string)
    requires Rounds(names, r, a, last) == Report(r, 0, false, true)
    requires Rounds(names, r, a + b, last) == Rounds(names, r, a + b, 0)
    ensures Harmless(names, r, a, last, b)
  {
    assert a[0..] == a;
    assert After(0, Rounds(names, r, a + b, 0)) == Rounds(names, r, a + b, 0);
  }

  lemma {:induction false} HeaderHarmless(names: seq<string>, r: Request, a: string, last: nat, b: string)
    requires r.stage == HeaderStage
    ensures Harmless(names, r, a, last, b)
  {
    HttpHeader.LoadExtends(names, r.headers, a, b);
  }

  lemma {:induction false} VersionHarmless(names: seq<string>, r: Request, a: string, last: nat, b: string)
    requires r.stage == VersionStage && a != ""
    ensures Harmless(names, r, a, last, b)
  {
    match HttpVersion.VersionOf(a)
    case More =>
      StageWaits(names, r, a, last, b);
    case Error =>
      HttpVersion.VersionStable(a, b);
    case Done(n, v) =>
      HttpVersion.VersionStable(a, b);
      HeaderText.DropAppend(a, b, n);
      var r' := r.(version := v, stage := HeaderStage);
      HeaderHarmless(names, r', a[n..], n, b);
      StageDone(names, r, a, last, b, r', n);
  }

  lemma {:induction false} UrlHarmless(names: seq<string>, r: Request, a: string, last: nat, b: string)
    requires r.stage == UrlStage && !UrlEnds(a)
    ensures Harmless(names, r, a, last, b)
  {
    match HttpUrl.UrlOf(a)
    case More =>
      StageWaits(names, r, a, last, b);
    case Error =>
      HttpUrl.UrlStable(a, b);
    case Done(n, u) =>
      HttpUrl.UrlStable(a, b);
      HeaderText.DropAppend(a, b, n);
      var r' := r.(url := u, stage := VersionStage);
      VersionHarmless(names, r', a[n..], n, b);
      StageDone(names, r, a, last, b, r', n);
  }

  lemma {:induction false} MethodHarmless(names: seq<string>, r: Request, a: string, last: nat, b: string)
    requires r.stage == MethodStage && a != "" && !BadCut(r, a)
    ensures Harmless(names, r, a, last, b)
  {
    match HttpMethod.MethodOf(a)
    case More =>
      StageWaits(names, r, a, last, b);
    case Error =>
      HttpMethod.MethodStable(a, b);
    case Done(n, m) =>
      HttpMethod.MethodStable(a, b);
      HeaderText.DropAppend(a, b, n);
      var r' := r.(verb := m, stage := UrlStage);
      UrlHarmless(names, r', a[n..], n, b);
      StageDone(names, r, a, last, b, r', n);
  }

  lemma {:induction false} GoodCutHarmless(names: seq<string>, r: Request, a: string, b: string)
    requires a != "" && b != "" && !BadCut(r, a)
    ensures CutHarmless(names, r, a, b)
  {
    match r.stage
    case MethodStage => MethodHarmless(names, r, a, 0, b);
    case UrlStage => UrlHarmless(names, r, a, 0, b);
    case VersionStage => VersionHarmless(names, r, a, 0, b);
    case HeaderStage => HeaderHarmless(names, r, a, 0, b);
    case ErrorStage =>
  }

  /** Behind the URL, the call claims more bytes than it was given. */
  lemma {:induction false} OverrunBehindUrl(names: seq<string>, r: Request, a: string)
    requires EndsBehindUrl(r, a) && a != ""
    ensures Call(names, r, a).ok && Call(names, r, a).rdlen > |a|
  {
    if r.stage == UrlStage {
      OverrunInUrl(names, r, a, 0);
    } else {
      var n, m := HttpMethod.MethodOf(a).n, HttpMethod.MethodOf(a).value;
      OverrunInUrl(names, r.(verb := m, stage := UrlStage), a[n..], n);
    }
  }

  lemma {:induction false} OverrunInUrl(names: seq<string>, r: Request, a: string, last: nat)
    requires r.stage == UrlStage && UrlEnds(a)
    ensures Rounds(names, r, a, last).ok && Rounds(names, r, a, last).rdlen > |a|
  {
    var n, u := HttpUrl.UrlOf(a).n, HttpUrl.UrlOf(a).value;
    var r' := r.(url := u, stage := VersionStage);
    assert a[n..] == "" && n > 0;
    assert Rounds(names, r', "", n) == Report(r'.(stage := HeaderStage), n, false, true);
  }

  /** A call claims more bytes than it was given exactly when those end behind the URL. */
  lemma OverrunExactly(names: seq<string>, r: Request, a: string)
    requires a != ""
    ensures Call(names, r, a).rdlen > |a| <==> EndsBehindUrl(r, a)
  {
    if EndsBehindUrl(r, a) {
      OverrunBehindUrl(names, r, a);
    } else if !BadCut(r, a) {
      GoodCutHarmless(names, r, a, "x");
    } else {
      LonePRefused(names, r);
    }
  }

  /** Bytes that a call takes without complaint are no bad place to cut. */
  lemma GoodCall(names: seq<string>, r: Request, a: string)
    requires a != "" && Call(names, r, a).ok && Call(names, r, a).rdlen <= |a|
    ensures !BadCut(r, a)
  {
    OverrunExactly(names, r, a);
    if BadCut(r, a) {
      LonePRefused(names, r);
    }
  }

  /** A cut is harmless, whatever follows, exactly when it is not one of the two bad ones. */
  lemma CutHarmlessExactly(names: seq<string>, r: Request, a: string)
    requires a != ""
    ensures (forall b :: b != "" ==> CutHarmless(names, r, a, b)) <==> !BadCut(r, a)
  {
    if EndsBehindUrl(r, a) {
      OverrunBehindUrl(names, r, a);
      assert !CutHarmless(names, r, a, "x");
    } else if BadCut(r, a) {
      LonePRefused(names, r);
      assert !CutHarmless(names, r, a, "OST ");
    } else {
      forall b | b != "" ensures CutHarmless(names, r, a, b) {
        GoodCutHarmless(names, r, a, b);
      }
    }
  }

  lemma LonePRefused(names: seq<string>, r: Request)
    requires r.stage == MethodStage
    ensures !Call(names, r, "P").ok && Call(names, r, "P" + "OST ").ok
  {
    var d := "P" + "OST ";
    assert d == "POST ";
    assert HttpMethod.Word(HttpMethod.POST) <= d && d[0] == 'P' && d[1] == 'O';
    HttpMethod.FirstByte(d);
    assert HttpMethod.MethodOf(d) == Done(5, HttpMethod.POST);
    assert d[5..] == "";
    var r' := r.(verb := HttpMethod.POST, stage := UrlStage);
    assert Rounds(names, r', "", 5) == Report(r', 0, false, true);
    assert Call(names, r, d) == After(5, Rounds(names, r', d[5..], 5));
  }

  // ---------------------------------------------------------------- requests in words

  /** A URL that is taken, as it stands in a request line. */
  predicate UrlText(text: string) {
    ' ' !in text && HttpUrl.NUL !in text && 0 < |text| < 1024 && HttpUrl.Segments(text).Some?
  }

  /** The request so far: behind the method, the URL, and the version. */
  function WithMethod(m: HttpMethod.Method): Request {
    Initial().(verb := m, stage := UrlStage)
  }

  function WithUrl(m: HttpMethod.Method, text: string): Request
    requires UrlText(text)
  {
    WithMethod(m).(url := HttpUrl.Url(text, HttpUrl.Segments(text).value), stage := VersionStage)
  }

  function WithVersion(m: HttpMethod.Method, text: string, v: HttpVersion.Version): Request
    requires UrlText(text)
  {
    WithUrl(m, text).(version := v, stage := HeaderStage)
  }

  lemma BehindMethod(names: seq<string>, m: HttpMethod.Method, word: string, x: string)
    requires HttpMethod.Says(m, word)
    ensures Call(names, Initial(), word + x) == After(|word|, Rounds(names, WithMethod(m), x, |word|))
  {
    var data := word + x;
    HttpMethod.SaysWord(m, word);
    assert data[..|word|] == word && data[|word|..] == x;
    HttpMethod.DecidedExactly(data, |word|, m);
  }

  lemma AfterAfter(n: nat, k: nat, rep: Report)
    ensures After(n, After(k, rep)) == After(n + k, rep)
  {
  }

  lemma UrlTaken(names: seq<string>, m: HttpMethod.Method, text: string, x: string, last: nat)
    requires UrlText(text)
    ensures Rounds(names, WithMethod(m), text + " " + x, last) == After(|text| + 1, Rounds(names, WithUrl(m, text), x, |text| + 1))
  {
    var data := text + " " + x;
    assert data[|text| + 1..] == x;
    HttpUrl.UrlCutOff(text, x);
  }

  lemma VersionTaken(names: seq<string>, m: HttpMethod.Method, text: string, v: HttpVersion.Version, line: string, x: string, last: nat)
    requires UrlText(text) && HttpVersion.Says(v, line)
    ensures Rounds(names, WithUrl(m, text), line + x, last) == After(10, Rounds(names, WithVersion(m, text, v), x, 10))
  {
    var data := line + x;
    HttpVersion.SaysParts(v, line);
    assert data[..10] == line && data[10..] == x;
    HttpVersion.DecidedExactly(data, 10, v);
  }

  lemma BehindUrl(names: seq<string>, m: HttpMethod.Method, word: string, text: string, x: string)
    requires HttpMethod.Says(m, word) && UrlText(text)
    ensures Call(names, Initial(), word + text + " " + x)
         == After(|word| + (|text| + 1), Rounds(names, WithUrl(m, text), x, |text| + 1))
  {
    assert word + text + " " + x == word + (text + " " + x);
    BehindMethod(names, m, word, text + " " + x);
    UrlTaken(names, m, text, x, |word|);
    AfterAfter(|word|, |text| + 1, Rounds(names, WithUrl(m, text), x, |text| + 1));
  }

  lemma BehindVersion(names: seq<string>, m: HttpMethod.Method, word: string, text: string, v: HttpVersion.Version, line: string, x: string)
    requires HttpMethod.Says(m, word) && UrlText(text) && HttpVersion.Says(v, line)
    ensures Call(names, Initial(), word + text + " " + line + x)
         == After(|word| + (|text| + 1) + 10, Rounds(names, WithVersion(m, text, v), x, 10))
  {
    assert word + text + " " + line + x == word + text + " " + (line + x);
    BehindUrl(names, m, word, text, line + x);
    VersionTaken(names, m, text, v, line, x, |text| + 1);
    AfterAfter(|word| + (|text| + 1), 10, Rounds(names, WithVersion(m, text, v), x, 10));
  }

  /** A request line that is not there yet: the call takes the parts that are, and waits. */
  lemma WaitsIn(names: seq<string>, m: HttpMethod.Method, word: string, text: string, x: string)
    requires HttpMethod.Says(m, word) && UrlText(text) && x != ""
    ensures HttpMethod.MethodOf(x) == More ==> Call(names, Initial(), x) == Report(Initial(), 0, false, true)
    ensures HttpUrl.UrlOf(x) == More ==> Call(names, Initial(), word + x) == Report(WithMethod(m), |word|, false, true)
    ensures HttpVersion.VersionOf(x) == More ==>
      Call(names, Initial(), word + text + " " + x) == Report(WithUrl(m, text), |word| + |text| + 1, false, true)
  {
    BehindMethod(names, m, word, x);
    BehindUrl(names, m, word, text, x);
  }

  /** One that is refused, wherever it is: nothing is read, the request has ended, and it keeps the parts before. */
  lemma RefusesIn(names: seq<string>, m: HttpMethod.Method, word: string, text: string, x: string)
    requires HttpMethod.Says(m, word) && UrlText(text) && x != ""
    ensures HttpMethod.MethodOf(x) == Error ==>
      Call(names, Initial(), x) == Report(Initial().(stage := ErrorStage), 0, true, false)
    ensures HttpUrl.UrlOf(x) == Error ==>
      Call(names, Initial(), word + x) == Report(WithMethod(m).(stage := ErrorStage), 0, true, false)
    ensures HttpVersion.VersionOf(x) == Error ==>
      Call(names, Initial(), word + text + " " + x) == Report(WithUrl(m, text).(stage := ErrorStage), 0, true, false)
  {
    BehindMethod(names, m, word, x);
    BehindUrl(names, m, word, text, x);
  }

  /** When the bytes end behind the URL, its length is counted twice, and the version is skipped. */
  lemma OverrunsBy(names: seq<string>, m: HttpMethod.Method, word: string, text: string)
    requires HttpMethod.Says(m, word) && UrlText(text)
    ensures Call(names, Initial(), word + text + " ")
         == Report(WithUrl(m, text).(stage := HeaderStage), |word| + (|text| + 1) + (|text| + 1), false, true)
  {
    BehindUrl(names, m, word, text, "");
    assert word + text + " " + "" == word + text + " ";
  }

  /** Behind a request line, of whichever method, URL and version, the headers decide: a refused line refuses the
      request, the blank line ends it, and otherwise it waits with the headers it has. */
  lemma HeadersDecide(names: seq<string>, m: HttpMethod.Method, word: string, text: string, v: HttpVersion.Version, line: string,
                      x: string)
    requires HttpMethod.Says(m, word) && UrlText(text) && HttpVersion.Says(v, line)
    ensures var l, n := HttpHeader.Load(names, map[], x), |word| + |text| + 1 + 10;
      var req := WithVersion(m, text, v).(headers := l.m);
      Call(names, Initial(), word + text + " " + line + x) ==
        if l.failed then Report(req.(stage := ErrorStage), 0, true, false) else Report(req, n + l.consumed, l.end, true)
  {
    BehindVersion(names, m, word, text, v, line, x);
    HttpVersion.SaysParts(v, line);
  }

  /** A request with good names and values, whatever follows it, is read whole: its line, and its fields, each under
      the id of its name. */
  lemma RequestRead(names: seq<string>, m: HttpMethod.Method, word: string, text: string, v: HttpVersion.Version, line: string,
                    fields: seq<(string, string)>, rest: string)
    requires HttpMethod.Says(m, word) && UrlText(text) && HttpVersion.Says(v, line)
    requires forall i :: 0 <= i < |fields| ==> HeaderText.GoodName(fields[i].0) && HeaderText.GoodValue(fields[i].1)
    ensures var head := word + text + " " + line + HeaderText.Block(fields);
      Call(names, Initial(), head + rest) ==
        Report(WithVersion(m, text, v).(headers := HttpHeader.AddFields(names, map[], fields)), |head|, true, true)
  {
    var block := HeaderText.Block(fields);
    BlockLoads(names, fields, rest);
    HeadersDecide(names, m, word, text, v, line, block + rest);
    HttpVersion.SaysParts(v, line);
    Regrouped(word + text + " " + line, block, rest);
  }

  lemma Regrouped(a: string, b: string, c: string)
    ensures a + b + c == a + (b + c)
  {
  }

  lemma BlockLoads(names: seq<string>, fields: seq<(string, string)>, rest: string)
    requires forall i :: 0 <= i < |fields| ==> HeaderText.GoodName(fields[i].0) && HeaderText.GoodValue(fields[i].1)
    ensures var block := HeaderText.Block(fields);
      HttpHeader.Load(names, map[], block + rest) == HttpHeader.Loaded(HttpHeader.AddFields(names, map[], fields), |block|, true, false)
  {
    HeaderText.BlockRoundTrip(fields);
    HttpHeader.LoadIsParse(names, map[], HeaderText.Block(fields));
    HttpHeader.LoadExtends(names, map[], HeaderText.Block(fields), rest);
  }

  // ---------------------------------------------------------------- inputs that show it

  const REQUEST_LINE := "GET / HTTP/1.0\r\n"

  /** The request behind that line. */
  function Asked(): Request {
    Request(HeaderStage, HttpMethod.GET, HttpUrl.Url("/", []), HttpVersion.V1_0, map[])
  }

  lemma RootUrl()
    ensures UrlText("/") && HttpUrl.Segments("/") == Some([])
  {
    UrlPath.EmptyPath();
    HttpUrl.PathFromRoot("");
    assert "/" + "" == "/";
  }

  /** A request line, whatever follows it. */
  lemma LineAsked(names: seq<string>, rest: string)
    ensures Call(names, Initial(), REQUEST_LINE + rest) == After(16, Rounds(names, Asked(), rest, 10))
  {
    RootUrl();
    var word, text, line := "GET ", "/", "HTTP/1.0\r\n";
    assert REQUEST_LINE == word + text + " " + line && |word| == 4 && |text| == 1;
    BehindVersion(names, HttpMethod.GET, word, text, HttpVersion.V1_0, line, rest);
  }

  lemma BlankLine()
    ensures HeaderText.ScanLine("\r\n") == HeaderText.Blank(2) && HeaderText.ScanLine("\r") == HeaderText.Incomplete
    ensures HeaderText.ScanLine("") == HeaderText.Incomplete
  {
    var b, k := "\r\n", HeaderText.Fresh;
    var k1 := HeaderText.Advance(k, '\r', 0);
    assert k1.cr && k1.s < 0;
    assert HeaderText.ScanLineFrom(b, 1, k1) == HeaderText.Blank(2);
    assert HeaderText.ScanLineFrom("\r", 1, k1) == HeaderText.Incomplete;
  }

  /** Behind the request line: nothing yet, half a blank line, and the end. */
  lemma AskedGoesOn(names: seq<string>, last: nat)
    ensures Rounds(names, Asked(), "\r", last) == Report(Asked(), 0, false, true)
    ensures Rounds(names, Asked(), "\r\n", last) == Report(Asked(), 2, true, true)
  {
    BlankLine();
  }

  /** A whole request. */
  lemma WholeRequest(names: seq<string>)
    ensures Call(names, Initial(), REQUEST_LINE + "\r\n") == Report(Asked(), 18, true, true)
  {
    LineAsked(names, "\r\n");
    AskedGoesOn(names, 10);
  }

  /** The first of the bad cuts is the beginning of an ordinary request. */
  lemma CutBehindUrl(names: seq<string>)
    ensures EndsBehindUrl(Initial(), REQUEST_LINE[..6])
    ensures Call(names, Initial(), REQUEST_LINE[..6]).rdlen > 6
  {
    var d := REQUEST_LINE[..6];
    assert d == "GET " + "/ " && d[..4] == "GET " && d[4..] == "/ " == "/" + " " + "";
    HttpMethod.DecidedExactly(d, 4, HttpMethod.GET);
    RootUrl();
    HttpUrl.UrlCutOff("/", "");
    OverrunExactly(names, Initial(), REQUEST_LINE[..6]);
  }

  // ---------------------------------------------------------------- whole streams

  /** The connection's side: the request so far, the bytes it has taken, the bytes left over, and how
      the last call ended. */
  datatype Stream = Stream(req: Request, used: nat, tail: string, isEnd: bool, ok: bool)

  /** What lies behind `n` bytes: nothing, should there be fewer. */
  function Behind(data: string, n: nat): string {
    if n <= |data| then data[n..] else ""
  }

  /** One more chunk is put behind what was left over, and the whole is parsed. A request that has ended
      or failed takes nothing more. */
  function Receive(names: seq<string>, s: Stream, chunk: string): Stream
    requires chunk != ""
  {
    if s.isEnd || !s.ok then s else
      var rep := Call(names, s.req, s.tail + chunk);
      Stream(rep.req, s.used + rep.rdlen, Behind(s.tail + chunk, rep.rdlen), rep.isEnd, rep.ok)
  }

  predicate NoneEmpty(chunks: seq<string>) {
    forall i :: 0 <= i < |chunks| ==> chunks[i] != ""
  }

  function ReceiveAll(names: seq<string>, r: Request, chunks: seq<string>): Stream
    requires NoneEmpty(chunks)
  {
    if chunks == [] then Stream(r, 0, "", false, true)
    else Receive(names, ReceiveAll(names, r, chunks[..|chunks| - 1]), chunks[|chunks| - 1])
  }

  /** The connection is where one call on `data` would have brought it. */
  predicate Level(names: seq<string>, r: Request, s: Stream, data: string)
    requires data != ""
  {
    var rep := Call(names, r, data);
    && s.req == rep.req && s.isEnd == rep.isEnd && s.ok == rep.ok
    && (s.ok ==> s.used == rep.rdlen)
    && (s.ok && !s.isEnd ==> s.tail == Behind(data, rep.rdlen))
  }

  lemma BehindBehind(data: string, n: nat, m: nat)
    requires n <= |data|
    ensures Behind(data[n..], m) == Behind(data, n + m)
  {
    if n + m <= |data| {
      HeaderText.DropDrop(data, n, m);
    }
  }

  lemma {:induction false} OneMoreChunk(names: seq<string>, r: Request, s: Stream, data: string, chunk: string)
    requires data != "" && chunk != "" && Level(names, r, s, data) && !BadCut(r, data)
    ensures Level(names, r, Receive(names, s, chunk), data + chunk)
  {
    GoodCutHarmless(names, r, data, chunk);
    var n := Call(names, r, data).rdlen;
    if s.ok && !s.isEnd {
      HeaderText.DropAppend(data, chunk, n);
      BehindBehind(data + chunk, n, Call(names, s.req, s.tail + chunk).rdlen);
    }
  }

  lemma FirstChunk(names: seq<string>, r: Request, chunks: seq<string>)
    requires |chunks| == 1 && NoneEmpty(chunks)
    ensures HeaderText.Flatten(chunks) == chunks[0]
    ensures Level(names, r, ReceiveAll(names, r, chunks), chunks[0])
  {
    assert chunks[..0] == [] && HeaderText.Flatten([]) == "" && "" + chunks[0] == chunks[0];
    assert ReceiveAll(names, r, []) == Stream(r, 0, "", false, true);
  }

  /** No way of cutting a stream changes what is parsed, if none of its cuts is one of the two bad ones:
      the same stage, method, URL, version and headers, the same end and error, the same bytes used. */
  lemma {:induction false} ChunkingInvariance(names: seq<string>, r: Request, chunks: seq<string>)
    requires chunks != [] && NoneEmpty(chunks)
    requires forall k :: 0 < k < |chunks| ==> !BadCut(r, HeaderText.Flatten(chunks[..k]))
    ensures HeaderText.Flatten(chunks) != ""
    ensures Level(names, r, ReceiveAll(names, r, chunks), HeaderText.Flatten(chunks))
    decreases |chunks|
  {
    var n := |chunks| - 1;
    var front, chunk := chunks[..n], chunks[n];
    if n == 0 {
      FirstChunk(names, r, chunks);
    } else {
      forall k | 0 < k < n ensures !BadCut(r, HeaderText.Flatten(front[..k])) {
        assert front[..k] == chunks[..k];
      }
      ChunkingInvariance(names, r, front);
      OneMoreChunk(names, r, ReceiveAll(names, r, front), HeaderText.Flatten(front), chunk);
    }
  }

  // ---------------------------------------------------------------- the code

  /** Given bytes, a call does not depend on what lay in its variables. */
  lemma NoJunk(names: seq<string>, r: Request, data: string, junk: nat)
    requires data != ""
    ensures Rounds(names, r, data, junk) == Call(names, r, data)
  {
  }

  /** One round took the request `r` to `r'`: it failed, or it stayed in its stage and the call ends, or
      what was to be parsed is what is to be parsed behind it. */
  ghost predicate Steps(names: seq<string>, r: Request, p: string, last: nat, r': Request, n: nat, isEnd: bool) {
    var whole := Rounds(names, r, p, last);
    if r'.stage == ErrorStage then whole == Report(r'.(url := whole.req.url), 0, true, false)
    else if r'.stage == r.stage then whole == Report(r', n, isEnd, true)
    else Rank(r'.stage) < Rank(r.stage) && r'.stage != MethodStage && !isEnd
         && whole == After(n, Rounds(names, r', Behind(p, n), n))
  }

  lemma UrlSteps(names: seq<string>, r: Request, p: string, last: nat)
    requires r.stage == UrlStage
    ensures match HttpUrl.UrlOf(p)
            case More => Steps(names, r, p, last, r, 0, false)
            case Error => forall u: HttpUrl.Url, n: nat :: Steps(names, r, p, last, r.(url := u, stage := ErrorStage), n, false)
            case Done(n, u) => Steps(names, r, p, last, r.(url := u, stage := VersionStage), n, false)
  {
  }

  lemma MethodSteps(names: seq<string>, r: Request, p: string, last: nat)
    requires r.stage == MethodStage
    ensures match HttpMethod.MethodOf(p)
            case More => Steps(names, r, p, last, r, 0, false)
            case Error => Steps(names, r, p, last, r.(stage := ErrorStage), 0, false)
            case Done(n, m) => Steps(names, r, p, last, r.(verb := m, stage := UrlStage), n, false)
  {
  }

  lemma VersionSteps(names: seq<string>, r: Request, p: string, last: nat)
    requires r.stage == VersionStage
    ensures p == "" ==> Steps(names, r, p, last, if last == 0 then r else r.(stage := HeaderStage), last, false)
    ensures p != "" ==>
            match HttpVersion.VersionOf(p)
            case More => Steps(names, r, p, last, r, 0, false)
            case Error => Steps(names, r, p, last, r.(stage := ErrorStage), 0, false)
            case Done(n, v) => Steps(names, r, p, last, r.(version := v, stage := HeaderStage), n, false)
  {
    if p == "" && last > 0 {
      var r' := r.(stage := HeaderStage);
      assert HttpHeader.Load(names, r.headers, "") == HttpHeader.Loaded(r.headers, 0, false, false);
      assert Rounds(names, r', Behind("", last), last) == Report(r', 0, false, true);
    }
  }

  lemma HeaderSteps(names: seq<string>, r: Request, p: string, last: nat)
    requires r.stage == HeaderStage
    ensures var l := HttpHeader.Load(names, r.headers, p);
            Steps(names, r, p, last, r.(headers := l.m, stage := if l.failed then ErrorStage else HeaderStage), l.consumed, l.end)
  {
  }

  lemma {:induction false} FailuresReadNothing(names: seq<string>, r: Request, p: string, last: nat)
    requires !Rounds(names, r, p, last).ok
    ensures Rounds(names, r, p, last).rdlen == 0 && Rounds(names, r, p, last).isEnd
    decreases Rank(r.stage)
  {
    match r.stage
    case MethodStage =>
      match HttpMethod.MethodOf(p) {
        case Done(n, m) => FailuresReadNothing(names, r.(verb := m, stage := UrlStage), p[n..], n);
        case _ =>
      }
    case UrlStage =>
      match HttpUrl.UrlOf(p) {
        case Done(n, u) => FailuresReadNothing(names, r.(url := u, stage := VersionStage), p[n..], n);
        case _ =>
      }
    case VersionStage =>
      if p != "" {
        match HttpVersion.VersionOf(p) {
          case Done(n, v) => FailuresReadNothing(names, r.(version := v, stage := HeaderStage), p[n..], n);
          case _ =>
        }
      }
    case _ =>
  }

  class HttpRequest {
    var stage: Stage
    var verb: HttpMethod.Method
    var text: string                 // url.url
    const path: List<string>         // url.path.path_stack
    var version: HttpVersion.Version
    const headers: HttpHeader.HeaderCollection

    ghost predicate Valid()
      reads this, path, path.head, path.nodes
      reads headers, headers.tree, NodeSet(headers.tree.t)
      reads headers.table, headers.table.hashes, headers.table.index
    {
      && path.Valid() && headers.Valid()
      && (stage == MethodStage || stage == UrlStage ==> path.nodes == [])
    }

    ghost function View(): Request
      reads this, path, headers, headers.tree
    {
      Request(stage, verb, HttpUrl.Url(text, path.Items()), version, headers.Contents())
    }

    /** http_request_init. */
    constructor (table: HeaderTable.HeaderIndex)
      requires table.Valid() && HeaderTable.DistinctHashes(table.names)
      ensures Valid() && fresh(path) && fresh(path.head) && fresh(headers.Repr()) && headers.table == table
      ensures View() == Initial()
    {
      stage, verb, text, version := MethodStage, HttpMethod.NoMethod, "", HttpVersion.NoVersion;
      path := new List("");
      headers := new HttpHeader.HeaderCollection(table);
    }

    /** One round of the do-while loop. */
    method Round(p: string, last: nat) returns (parsedLen: nat, isEnd: bool)
      requires Valid()
      modifies this, path, path.head, headers.Repr()
      ensures Valid() && forall m :: m in NodeSet(headers.tree.t) ==> m in old(NodeSet(headers.tree.t)) || fresh(m)
      ensures forall n :: n in path.nodes ==> n in old(path.nodes) || fresh(n)
      ensures Steps(headers.table.names, old(View()), p, last, View(), parsedLen, isEnd)
    {
      if stage == UrlStage {
        isEnd := false;
        parsedLen := UrlRound(p, last);
      } else if stage == HeaderStage {
        parsedLen, isEnd := HeaderRound(p, last);
      } else {
        isEnd := false;
        if stage == MethodStage {
          parsedLen := MethodRound(p, last);
        } else if stage == VersionStage {
          parsedLen := VersionRound(p, last);
        } else {
          parsedLen := 0;
        }
      }
    }

    /** The URL, whose path goes onto the stack. */
    method UrlRound(p: string, ghost last: nat) returns (parsedLen: nat)
      requires Valid() && stage == UrlStage
      modifies `stage, `text, path, path.head
      ensures Valid() && forall n :: n in path.nodes ==> fresh(n)
      ensures Steps(headers.table.names, old(View()), p, last, View(), parsedLen, false)
    {
      AllAllocated(headers.tree.t);
      UrlSteps(headers.table.names, View(), p, last);
      var ret, n, t := HttpUrl.ParseUrl(p, path);
      parsedLen := n;
      if ret < 0 {
        stage := ErrorStage;
      } else if n > 0 {
        text, stage := t, VersionStage;
      }
    }

    method MethodRound(p: string, ghost last: nat) returns (parsedLen: nat)
      requires Valid() && stage == MethodStage
      modifies `stage, `verb
      ensures Valid()
      ensures Steps(headers.table.names, old(View()), p, last, View(), parsedLen, false)
    {
      AllAllocated(headers.tree.t);
      MethodSteps(headers.table.names, View(), p, last);
      parsedLen := 0;
      var r := HttpMethod.ParseMethod(p, '\0');
      match r {
        case More =>
        case Error => stage := ErrorStage;
        case Done(n, m) => parsedLen, verb, stage := n, m, UrlStage;
      }
    }

    method VersionRound(p: string, last: nat) returns (parsedLen: nat)
      requires Valid() && stage == VersionStage
      modifies `stage, `version
      ensures Valid()
      ensures Steps(headers.table.names, old(View()), p, last, View(), parsedLen, false)
    {
      AllAllocated(headers.tree.t);
      VersionSteps(headers.table.names, View(), p, last);
      var ret, n, v := HttpVersion.ParseVersion(p, last, version);
      parsedLen, version := n, v;
      if ret < 0 {
        stage := ErrorStage;
      } else if n > 0 {
        stage := HeaderStage;
      }
    }

    method HeaderRound(p: string, ghost last: nat) returns (parsedLen: nat, isEnd: bool)
      requires Valid() && stage == HeaderStage
      modifies `stage, headers.Repr()
      ensures Valid() && forall m :: m in NodeSet(headers.tree.t) ==> m in old(NodeSet(headers.tree.t)) || fresh(m)
      ensures Steps(headers.table.names, old(View()), p, last, View(), parsedLen, isEnd)
    {
      HeaderSteps(headers.table.names, View(), p, last);
      var failed;
      parsedLen, isEnd, failed := ParseHeaders(p);
      if failed {
        stage := ErrorStage;
      }
    }

    method ParseHeaders(p: string) returns (parsedLen: nat, isEnd: bool, failed: bool)
      requires Valid()
      modifies headers.Repr()
      ensures Valid() && forall m :: m in NodeSet(headers.tree.t) ==> m in old(NodeSet(headers.tree.t)) || fresh(m)
      ensures View() == old(View()).(headers := headers.Contents())
      ensures HttpHeader.Loaded(headers.Contents(), parsedLen, isEnd, failed)
              == HttpHeader.Load(headers.table.names, old(headers.Contents()), p)
    {
      AllAllocated(headers.tree.t);
      parsedLen, isEnd, failed := headers.Parse(p);
    }

    /** http_request_parse. `junk` is what lies in its variable `parsed_len` to begin with; it matters only to a
        call in the version stage without bytes. `rdlen` may exceed the bytes at hand, where `Rounds` says so.
        What a refused URL has left in the URL's fields is not promised. */
    method Parse(data: string, junk: nat) returns (rdlen: nat, isEnd: bool, ok: bool)
      requires Valid()
      modifies this, path, path.head, headers.Repr()
      ensures Valid() && forall m :: m in NodeSet(headers.tree.t) ==> m in old(NodeSet(headers.tree.t)) || fresh(m)
      ensures forall n :: n in path.nodes ==> n in old(path.nodes) || fresh(n)
      ensures var rep := Rounds(headers.table.names, old(View()), data, junk);
        && ok == rep.ok && isEnd == rep.isEnd && rdlen == rep.rdlen
        && View() == if ok then rep.req else rep.req.(url := View().url)
    {
      rdlen, isEnd := 0, false;
      var p, parsedLen := data, junk;
      ghost var names := headers.table.names;
      ghost var whole := Rounds(names, View(), data, junk);
      AllAllocated(headers.tree.t);
      while true
        invariant Valid() && forall m :: m in NodeSet(headers.tree.t) ==> m in old(NodeSet(headers.tree.t)) || fresh(m)
        invariant forall n :: n in path.nodes ==> n in old(path.nodes) || fresh(n)
        invariant whole == After(rdlen, Rounds(names, View(), p, parsedLen))
        decreases Rank(stage)
      {
        AllAllocated(headers.tree.t);
        var last := stage;
        parsedLen, isEnd := Round(p, parsedLen);
        p, rdlen := Behind(p, parsedLen), rdlen + parsedLen;
        if stage == ErrorStage || stage == last {
          break;
        }
      }
      if stage == ErrorStage {
        return 0, true, false;
      }
      ok := true;
    }

    /** http_request_reset. */
    method Reset()
      requires Valid()
      modifies this, path, path.head, path.NodeSet(), headers.Repr()
      ensures Valid() && headers.Rewound() && headers.tree.t == Leaf
      ensures View() == Initial()
    {
      verb, version := HttpMethod.NoMethod, HttpVersion.NoVersion;
      headers.Destroy();
      EmptyPath();
      text, stage := "", MethodStage;
    }

    /** The stack in http_url_destory. */
    method EmptyPath()
      requires path.Valid()
      modifies path, path.head, path.NodeSet()
      ensures path.Valid() && path.nodes == []
    {
      var empty := path.Empty();
      while !empty
        invariant path.Valid() && path.NodeSet() <= old(path.NodeSet()) && (empty <==> path.nodes == [])
        decreases |path.nodes|
      {
        var node := path.Pop();
        empty := path.Empty();
      }
    }
  }
}
