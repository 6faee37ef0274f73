/** http_version.c: the protocol version and the end of the request line. */
module HttpVersion {
  import opened Outcome

  datatype Version = V1_0 | V1_1 | NoVersion

  const PROTOCOL := "HTTP/1."
  const DELIMITER := "\r\n"

  /** What is promised of `http_version_parse` on at least one byte. A mismatch in the last byte at
      hand is not reported before another byte follows it (`t == end` is tested first). */
  function VersionOf(data: string): Outcome<Version>
    requires data != ""
  {
    if |data| <= |PROTOCOL| then
      if data[..|data| - 1] <= PROTOCOL then More else Error
    else if !(PROTOCOL <= data) || (data[7] != '0' && data[7] != '1') then Error
    else
      var rest := data[8..];
      if DELIMITER <= rest then Done(10, if data[7] == '0' then V1_0 else V1_1)
      else if rest <= DELIMITER then More
      else Error
  }

  /** One of the two comparison loops: `t` and `p` are how far it came, `ok` whether all was equal. */
  method Compare(data: string, t0: nat, word: string) returns (t: nat, p: nat, ok: bool)
    requires t0 <= |data|
    ensures t == t0 + p && t <= |data| && p <= |word|
    ensures if ok then data[t0..t] == word[..p] && (t == |data| || p == |word|)
            else 0 < p && data[t0..t - 1] == word[..p - 1] && data[t - 1] != word[p - 1]
  {
    t, p, ok := t0, 0, true;
    while t < |data| && p < |word| && ok
      invariant t == t0 + p && t <= |data| && p <= |word|
      invariant if ok then data[t0..t] == word[..p]
                else 0 < p && data[t0..t - 1] == word[..p - 1] && data[t - 1] != word[p - 1]
      decreases |data| - t, ok
    {
      ok := ok && data[t] == word[p];
      t, p := t + 1, p + 1;
    }
  }

  /** http_version_parse. On no bytes it returns without setting `*parse_len`, which keeps the value it
      had before, `parseLen0`; otherwise the length is that of `Done`, or zero. */
  method ParseVersion(data: string, parseLen0: nat, v0: Version) returns (ret: int, parseLen: nat, v: Version)
    ensures data == "" ==> ret == 0 && parseLen == parseLen0 && v == v0
    ensures data != "" ==>
      match VersionOf(data)
      case More => ret == 0 && parseLen == 0 && v == v0
      case Error => ret == -1 && parseLen == 0 && v == v0
      case Done(n, w) => ret == 0 && parseLen == n && v == w
  {
    v := v0;
    if |data| == 0 {
      return 0, parseLen0, v0;
    }
    ret, parseLen := -1, 0;
    var t, p, ok := Compare(data, 0, PROTOCOL);
    assert data[0..t] == data[..t];
    if t == |data| {
      PrefixFacts(data, p, ok);
      return 0, 0, v0;
    }
    if ok && p == |PROTOCOL| {
      assert PROTOCOL <= data;
      if data[t] == '0' || data[t] == '1' {
        t := t + 1;
        var t2, p2, ok2 := Compare(data, t, DELIMITER);
        assert data[8..][..p2] == data[8..t2];
        if ok2 && p2 == |DELIMITER| {
          return 0, t2, if data[t2 - 3] == '0' then V1_0 else V1_1;
        }
        if ok2 && p2 < |DELIMITER| {
          assert data[8..] == DELIMITER[..p2];
          return 0, 0, v0;
        }
        assert data[8..][p2 - 1] != DELIMITER[p2 - 1];
      }
    } else {
      assert data[t - 1] != PROTOCOL[t - 1];
      assert |data| <= 7 ==> data[..|data| - 1][t - 1] != PROTOCOL[t - 1];
    }
  }

  lemma PrefixFacts(data: string, p: nat, ok: bool)
    requires 0 < |data| == p <= |PROTOCOL|
    requires if ok then data[..p] == PROTOCOL[..p] else data[..p - 1] == PROTOCOL[..p - 1]
    ensures VersionOf(data) == More
  {
    assert ok ==> data[..p - 1] == PROTOCOL[..p][..p - 1];
    assert PROTOCOL[..p - 1] <= PROTOCOL;
  }

  /** Once the version is decided, more bytes do not change it. */
  lemma VersionStable(data: string, x: string)
    requires data != "" && VersionOf(data) != More
    ensures VersionOf(data + x) == VersionOf(data)
  {
    var all := data + x;
    if |data| <= |PROTOCOL| {
      var d := data[..|data| - 1];
      assert !(PROTOCOL < d) && |d| < |PROTOCOL|;
      var i := Differ(d, PROTOCOL);
      assert all[i] == d[i] && (x != "" ==> all[..|all| - 1][i] == d[i]);
      assert x == "" ==> all == data;
    } else {
      assert all[7] == data[7] && all[8..] == data[8..] + x;
      assert PROTOCOL <= data <==> PROTOCOL <= all;
      var rest := data[8..];
      if VersionOf(data) == Error && PROTOCOL <= data && (data[7] == '0' || data[7] == '1') {
        var i := Differ(rest, DELIMITER);
        assert all[8..][i] == rest[i];
      }
    }
  }

  /** http_version_to_str into enough room. */
  function Text(v: Version): string {
    match v
    case V1_0 => "HTTP/1.0 "
    case V1_1 => "HTTP/1.1 "
    case NoVersion => "HTTP/1.1 "
  }

  /** The bytes that end a request line of the version. */
  predicate Says(v: Version, line: string) {
    match v
    case V1_0 => line == "HTTP/1.0\r\n"
    case V1_1 => line == "HTTP/1.1\r\n"
    case NoVersion => false
  }

  lemma SaysParts(v: Version, line: string)
    requires Says(v, line)
    ensures |line| == 10 && line[..7] == PROTOCOL && line[8..] == DELIMITER && line[7] == if v == V1_0 then '0' else '1'
  {
  }

  lemma DoneSays(data: string)
    requires data != "" && VersionOf(data).Done?
    ensures var d := VersionOf(data); d.n == 10 <= |data| && Says(d.value, data[..10])
  {
    assert data[..10] == data[..7] + [data[7]] + data[8..10];
    assert data[8..][..2] == data[8..10];
  }

  /** A version is found exactly if its line is there, whole. */
  lemma DecidedExactly(data: string, n: nat, v: Version)
    requires data != ""
    ensures VersionOf(data) == Done(n, v) <==> n == 10 <= |data| && Says(v, data[..10])
  {
    if VersionOf(data).Done? {
      DoneSays(data);
    }
    if 10 <= |data| && Says(v, data[..10]) {
      SaysParts(v, data[..10]);
      assert data[..10][..7] == data[..7] && data[..10][8..] == data[8..10] == data[8..][..2];
    }
  }

  /** The code waits exactly on the beginnings of such a line, and on up to seven bytes of which all but the last
      are one. */
  lemma WaitsExactly(data: string)
    requires data != ""
    ensures VersionOf(data) == More <==> (|data| <= 7 && data[..|data| - 1] <= "HTTP/1.")
                                         || data < "HTTP/1.0\r\n" || data < "HTTP/1.1\r\n"
  {
    var a, b := "HTTP/1.0\r\n", "HTTP/1.1\r\n";
    SaysParts(V1_0, a);
    SaysParts(V1_1, b);
    if |data| <= 7 {
      if data < a {
        BeginningsShort(data, a);
      }
      if data < b {
        BeginningsShort(data, b);
      }
    } else {
      BeginningsLong(data, a);
      BeginningsLong(data, b);
    }
  }

  lemma BeginningsShort(data: string, line: string)
    requires 0 < |data| <= 7 && |line| == 10 && line[..7] == PROTOCOL && data < line
    ensures data[..|data| - 1] <= PROTOCOL
  {
  }

  lemma BeginningsLong(data: string, line: string)
    requires |data| > 7 && |line| == 10 && line[..7] == PROTOCOL && line[8..] == DELIMITER
    ensures data < line <==> |data| < 10 && PROTOCOL <= data && data[7] == line[7] && data[8..] <= DELIMITER
  {
    if data < line {
      assert data == line[..|data|];
    }
  }

  /** What the printer writes is what the parser reads, but for the blank it is followed by; no version counts as
      1.1. */
  lemma TextRoundTrip(v: Version, rest: string)
    ensures |Text(v)| == 9 && Text(v)[8] == ' '
    ensures VersionOf(Text(v)[..8] + "\r\n" + rest) == Done(10, if v == V1_0 then V1_0 else V1_1)
  {
    var data := Text(v)[..8] + "\r\n" + rest;
    assert data[..10] == Text(v)[..8] + "\r\n";
    DecidedExactly(data, 10, if v == V1_0 then V1_0 else V1_1);
  }
}
