/** http_method.c: recognising the method at the start of a request. */
module HttpMethod {
  import opened Outcome

  datatype Method = GET | PUT | DELETE | PATCH | POST | HEAD | OPTIONS | NoMethod

  const NUL := '\0'

  /** `methods`. */
  function Word(m: Method): string {
    match m
    case GET => "GET "
    case PUT => "PUT "
    case DELETE => "DELETE "
    case PATCH => "PATCH "
    case POST => "POST "
    case HEAD => "HEAD "
    case OPTIONS => "OPTIONS "
    case NoMethod => ""
  }

  /** Data against one word: done when the word is there, waiting while it may still come. */
  function Against(data: string, m: Method): Outcome<Method> {
    if Word(m) <= data then Done(|Word(m)|, m) else if data < Word(m) then More else Error
  }

  function OrElse(a: Outcome<Method>, b: Outcome<Method>): Outcome<Method> {
    if a == Error then b else a
  }

  /** What is promised of `http_method_parse`. DELETE and PATCH are in the table but never recognised;
      a lone "P" is refused, because the code decides by the byte behind it. */
  function MethodOf(data: string): Outcome<Method> {
    if data == "" || data == "P" then Error
    else if data[0] == NUL then More
    else OrElse(Against(data, GET), OrElse(Against(data, PUT), OrElse(Against(data, POST),
                OrElse(Against(data, HEAD), Against(data, OPTIONS)))))
  }

  /** Lines 71-81: the rest of the chosen word, of which `t0` bytes have been looked at. */
  method MatchRest(data: string, x: Method, t0: nat) returns (r: Outcome<Method>)
    requires 0 < t0 < |Word(x)| && forall i :: 0 <= i < t0 && i < |data| ==> data[i] == Word(x)[i]
    ensures r == if t0 <= |data| then Against(data, x) else Error
  {
    var t, p := t0, t0;
    var word := Word(x);
    var ok := true;
    while t < |data| && p < |word| && ok
      invariant t0 <= t && p == t <= |word| && (t <= |data| || t == t0)
      invariant ok ==> forall i :: 0 <= i < t && i < |data| ==> data[i] == word[i]
      invariant !ok ==> t - 1 < |data| && data[t - 1] != word[t - 1]
      decreases |data| - t, ok
    {
      ok := ok && data[t] == word[p];
      t, p := t + 1, p + 1;
    }
    if ok && p == |word| {
      assert word == data[..t];
      return Done(t, x);
    }
    if ok && t == |data| {
      assert data == word[..t];
      return More;
    }
    return Error;
  }

  /** http_method_parse. `beyond` is whatever byte lies behind the data; the code reads it after a lone
      "P", and refuses whatever it is. */
  method ParseMethod(data: string, beyond: char) returns (r: Outcome<Method>)
    ensures r == MethodOf(data)
  {
    if |data| == 0 {
      return Error;
    }
    match data[0] {
      case 'G' =>
        r := MatchRest(data, GET, 1);
      case 'P' =>
        var second := if |data| > 1 then data[1] else beyond;
        if second == 'U' {
          r := MatchRest(data, PUT, 2);
        } else if second == 'O' {
          r := MatchRest(data, POST, 2);
        } else {
          r := Error;
        }
      case 'H' =>
        r := MatchRest(data, HEAD, 1);
      case 'O' =>
        r := MatchRest(data, OPTIONS, 1);
      case '\0' =>
        r := More;
      case _ =>
        r := Error;
    }
    FirstByte(data);
  }

  /** A word can only be there, or come, when its first byte is. */
  lemma FirstByte(data: string)
    requires data != ""
    ensures forall m :: Against(data, m) != Error && m != NoMethod ==> data[0] == Word(m)[0]
    ensures forall m :: Against(data, m) != Error && m != NoMethod && |data| > 1 ==> data[1] == Word(m)[1]
  {
  }

  /** Once the method is decided, more bytes do not change it. */
  lemma MethodStable(data: string, x: string)
    requires MethodOf(data) != More && data != "" && data != "P"
    ensures MethodOf(data + x) == MethodOf(data)
  {
    assert (data + x)[0] == data[0];
    forall m | Against(data, m) != More ensures Against(data + x, m) == Against(data, m) {
      AgainstStable(data, x, m);
    }
  }

  lemma AgainstStable(data: string, x: string, m: Method)
    requires Against(data, m) != More
    ensures Against(data + x, m) == Against(data, m)
  {
    if Against(data, m) == Error {
      var i := Differ(data, Word(m));
      assert (data + x)[i] == data[i];
    }
  }

  /** The words that are recognised. */
  predicate Says(m: Method, word: string) {
    match m
    case GET => word == "GET "
    case PUT => word == "PUT "
    case POST => word == "POST "
    case HEAD => word == "HEAD "
    case OPTIONS => word == "OPTIONS "
    case _ => false
  }

  lemma SaysWord(m: Method, word: string)
    requires Says(m, word)
    ensures word == Word(m) && 4 <= |word|
  {
  }

  /** A method is found exactly if its word is there, whole. */
  lemma DecidedExactly(data: string, n: nat, m: Method)
    ensures MethodOf(data) == Done(n, m) <==> n <= |data| && Says(m, data[..n])
  {
    if n <= |data| && Says(m, data[..n]) {
      SaysWord(m, data[..n]);
      FirstByte(data);
      assert Against(data, m) == Done(n, m);
    }
  }

  /** The code waits exactly on a NUL, and on the beginnings of such a word, but for none and a lone P. */
  lemma WaitsExactly(data: string)
    ensures MethodOf(data) == More <==>
      (data != "" && data != "P" &&
      (data[0] == '\0' || data < "GET " || data < "PUT " || data < "POST " || data < "HEAD " || data < "OPTIONS "))
  {
    if data != "" {
      FirstByte(data);
    }
  }
}
