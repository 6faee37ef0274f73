/** http_url.c:244-321: cutting the URL out of the request line and handing its path on. The query is
    not modelled; its parser never fails. */
module HttpUrl {
  import opened Outcome
  import opened List
  import opened Wrappers
  import HeaderTable
  import UrlPath

  const NUL := '\0'
  const LIMIT := 1024   // sizeof(url->url)

  /** The URL's text and the segments of its path. */
  datatype Url = Url(text: string, path: seq<string>)

  // ---------------------------------------------------------------- what is promised

  /** The bytes before the first space or NUL. */
  function TextLen(data: string): (n: nat)
    ensures n <= |data|
  {
    if data == "" || data[0] == ' ' || data[0] == NUL then 0 else 1 + TextLen(data[1..])
  }

  /** The position of the first "//", or the length. */
  function DoubleSlash(s: string): (n: nat)
    ensures n <= |s| && (n < |s| ==> n + 2 <= |s|)
  {
    if |s| < 2 then |s| else if s[0] == '/' && s[1] == '/' then 0 else 1 + DoubleSlash(s[1..])
  }

  /** The position of the first slash, or the length. */
  function Slash(s: string): (n: nat)
    ensures n <= |s|
  {
    if s == "" || s[0] == '/' then 0 else 1 + Slash(s[1..])
  }

  /** "http:" and nothing else, in any case. */
  predicate OnlyScheme(s: string) {
    HeaderTable.SameLetters(s, "http:")
  }

  /** Where the path of a URL is: None if the URL is refused, Some(None) if it has no path. The text
      "http:" alone leaves the cursor behind the terminator, on the zeroed rest of the buffer. */
  function PathOf(text: string): Option<Option<string>> {
    if OnlyScheme(text) then Some(None)
    else
      var i := DoubleSlash(text);
      if i < |text| then
        var rest := text[i + 2..];
        Some(if Slash(rest) < |rest| then Some(rest[Slash(rest) + 1..]) else None)
      else if text == "" then Some(None)
      else if text[0] == '/' then Some(Some(text[1..]))
      else None
  }

  function Segments(text: string): Option<seq<string>> {
    match PathOf(text)
    case None => None
    case Some(None) => Some([])
    case Some(Some(p)) => UrlPath.Normalise(p, [])
  }

  /** What is promised of `http_url_parse`. */
  function UrlOf(data: string): Outcome<Url> {
    var n := TextLen(data);
    if n < |data| && data[n] == NUL then Error
    else if n == |data| || n == 0 then More
    else if n >= LIMIT then Error
    else
      match Segments(data[..n])
      case None => Error
      case Some(path) => Done(n + 1, Url(data[..n], path))
  }

  // ---------------------------------------------------------------- more bytes

  lemma {:induction false} TextLenIs(data: string, n: nat)
    requires n <= |data| && (n < |data| ==> data[n] == ' ' || data[n] == NUL)
    requires forall i :: 0 <= i < n ==> data[i] != ' ' && data[i] != NUL
    ensures TextLen(data) == n
  {
    if n > 0 {
      TextLenIs(data[1..], n - 1);
    }
  }

  lemma {:induction false} TextLenStable(data: string, x: string)
    requires TextLen(data) < |data|
    ensures TextLen(data + x) == TextLen(data) && (data + x)[TextLen(data)] == data[TextLen(data)]
  {
    if TextLen(data) > 0 {
      assert (data + x)[1..] == data[1..] + x;
      TextLenStable(data[1..], x);
    }
  }

  /** Once the URL is decided, more bytes do not change it. */
  lemma UrlStable(data: string, x: string)
    requires UrlOf(data) != More
    ensures UrlOf(data + x) == UrlOf(data)
  {
    TextLenStable(data, x);
    assert (data + x)[..TextLen(data)] == data[..TextLen(data)];
  }

  // ---------------------------------------------------------------- the code

  /** strstr(s, "//"). */
  method FindDoubleSlash(s: string) returns (i: nat)
    ensures i == DoubleSlash(s)
  {
    i := 0;
    ghost var rest := s;
    while i + 1 < |s| && !(s[i] == '/' && s[i + 1] == '/')
      invariant i <= |s| && rest == s[i..] && DoubleSlash(s) == i + DoubleSlash(rest)
    {
      rest := rest[1..];
      i := i + 1;
    }
    if i + 1 >= |s| {
      i := |s|;
    }
  }

  /** strchr(s, '/'). */
  method FindSlash(s: string) returns (i: nat)
    ensures i == Slash(s)
  {
    i := 0;
    ghost var rest := s;
    while i < |s| && s[i] != '/'
      invariant i <= |s| && rest == s[i..] && Slash(s) == i + Slash(rest)
    {
      rest := rest[1..];
      i := i + 1;
    }
  }

  /** Lines 270-320: the text that was cut out. */
  method ParseText(text: string, stack: List<string>) returns (ok: bool)
    requires stack.Valid() && stack.nodes == []
    modifies stack, stack.head
    ensures stack.Valid() && forall n :: n in stack.nodes ==> fresh(n)
    ensures ok <==> Segments(text).Some?
    ensures ok ==> stack.Items() == Segments(text).value
  {
    if OnlyScheme(text) {
      return true;
    }
    var path;
    var i := FindDoubleSlash(text);
    if i < |text| {
      var rest := text[i + 2..];
      var j := FindSlash(rest);
      if j == |rest| {
        return true;
      }
      path := rest[j + 1..];
    } else if |text| == 0 {
      return true;
    } else if text[0] == '/' {
      path := text[1..];
    } else {
      return false;
    }
    var ret, len := UrlPath.ParsePath(path, stack);
    ok := ret == 0;
  }

  /** http_url_parse. `text` is what it copies into `url->url`. */
  method ParseUrl(data: string, stack: List<string>) returns (ret: int, parseLen: nat, text: string)
    requires stack.Valid() && stack.nodes == []
    modifies stack, stack.head
    ensures stack.Valid() && forall n :: n in stack.nodes ==> fresh(n)
    ensures match UrlOf(data)
            case More => ret == 0 && parseLen == 0 && stack.nodes == []
            case Error => ret == -1
            case Done(n, url) => ret == 0 && parseLen == n && text == url.text && stack.Items() == url.path
  {
    parseLen, text := 0, "";
    var i := 0;
    while i < |data|
      invariant 0 <= i <= |data| && stack.Valid() && stack.nodes == []
      invariant forall j :: 0 <= j < i ==> data[j] != ' ' && data[j] != NUL
    {
      if data[i] == NUL {
        TextLenIs(data, i);
        return -1, 0, "";
      }
      if data[i] == ' ' {
        break;
      }
      i := i + 1;
    }
    TextLenIs(data, i);
    if i == |data| || i == 0 {
      return 0, 0, "";
    }
    if i >= LIMIT {
      return -1, 0, "";
    }
    parseLen, text := i + 1, data[..i];
    var ok := ParseText(text, stack);
    ret := if ok then 0 else -1;
  }

  // ---------------------------------------------------------------- the same, without positions

  predicate NoDouble(s: string) {
    forall i :: 0 <= i && i + 1 < |s| ==> s[i] != '/' || s[i + 1] != '/'
  }

  lemma {:induction false} DoubleSlashIs(s: string, n: nat)
    requires n + 2 <= |s| && s[n] == '/' && s[n + 1] == '/' && NoDouble(s[..n + 1])
    ensures DoubleSlash(s) == n
  {
    if n > 0 {
      assert s[..n + 1][0] == s[0] && s[..n + 1][1] == s[1];
      assert s[1..][..n] == s[..n + 1][1..];
      DoubleSlashIs(s[1..], n - 1);
    }
  }

  lemma {:induction false} NoDoubleSlash(s: string)
    requires NoDouble(s)
    ensures DoubleSlash(s) == |s|
  {
    if |s| >= 2 {
      NoDoubleSlash(s[1..]);
    }
  }

  lemma {:induction false} SlashIs(s: string, n: nat)
    requires n <= |s| && (n < |s| ==> s[n] == '/') && '/' !in s[..n]
    ensures Slash(s) == n
  {
    if n > 0 {
      assert s[0] == s[..n][0] && s[1..][..n - 1] == s[..n][1..];
      SlashIs(s[1..], n - 1);
    }
  }

  /** Behind the first two slashes comes the host; the path is what lies behind the next slash. */
  lemma PathBehindHost(before: string, host: string, path: string)
    requires NoDouble(before + "/") && '/' !in host
    ensures PathOf(before + "//" + host + "/" + path) == Some(Some(path))
  {
    var n, rest := |before|, host + "/" + path;
    var text := before + "//" + rest;
    assert text == before + "//" + host + "/" + path;
    assert text[n] == '/' && text[n + 1] == '/' && text[..n + 1] == before + "/";
    NotOnlyScheme(text, n);
    DoubleSlashIs(text, n);
    assert text[n + 2..] == rest && rest[..|host|] == host && rest[|host| + 1..] == path;
    SlashIs(rest, |host|);
  }

  lemma HostAlone(before: string, host: string)
    requires NoDouble(before + "/") && '/' !in host
    ensures PathOf(before + "//" + host) == Some(None)
  {
    var n := |before|;
    var text := before + "//" + host;
    assert text[n] == '/' && text[n + 1] == '/' && text[..n + 1] == before + "/";
    NotOnlyScheme(text, n);
    DoubleSlashIs(text, n);
    assert text[n + 2..] == host && host[..|host|] == host;
    SlashIs(host, |host|);
  }

  /** Without two slashes in a row, the path begins behind the first byte, which is a slash. */
  lemma PathFromRoot(path: string)
    requires NoDouble("/" + path)
    ensures PathOf("/" + path) == Some(Some(path))
  {
    var text := "/" + path;
    assert text[0] == '/' && text[1..] == path;
    NotOnlyScheme(text, 0);
    NoDoubleSlash(text);
  }

  /** And anything else has no path, if it is nothing or the scheme alone, and is refused otherwise. */
  lemma NoRoot(text: string)
    requires NoDouble(text) && (text == "" || text[0] != '/')
    ensures PathOf(text) == if text == "" || Scheme(text) then Some(None) else None
  {
    NoDoubleSlash(text);
    SchemeOnly(text);
  }

  predicate Scheme(text: string) {
    && |text| == 5 && (text[0] == 'h' || text[0] == 'H') && (text[1] == 't' || text[1] == 'T')
    && (text[2] == 't' || text[2] == 'T') && (text[3] == 'p' || text[3] == 'P') && text[4] == ':'
  }

  lemma SchemeOnly(text: string)
    ensures OnlyScheme(text) <==> Scheme(text)
  {
    var s := "http:";
    assert |s| == 5 && s[0] == 'h' && s[1] == 't' && s[2] == 't' && s[3] == 'p' && s[4] == ':';
  }

  lemma NotOnlyScheme(text: string, i: nat)
    requires i < |text| && text[i] == '/'
    ensures !OnlyScheme(text)
  {
    SchemeOnly(text);
  }

  /** A URL is cut off at the first space; there has to be one, and no NUL before it, and less than 1024 bytes. */
  lemma UrlCutOff(text: string, rest: string)
    requires ' ' !in text && NUL !in text
    ensures UrlOf(text + " " + rest) ==
      if text == "" then More
      else if |text| >= 1024 || Segments(text) == None then Error
      else Done(|text| + 1, Url(text, Segments(text).value))
    ensures UrlOf(text) == More && UrlOf(text + [NUL] + rest) == Error
  {
    var n := |text|;
    var a, b := text + " " + rest, text + [NUL] + rest;
    assert a[..n] == text && text[..n] == text;
    assert forall i :: 0 <= i < n ==> text[i] in text && a[i] == text[i] && b[i] == text[i];
    TextLenIs(a, n);
    TextLenIs(b, n);
    TextLenIs(text, n);
  }
}
