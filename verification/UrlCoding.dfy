/** Percent-coding in http_url.c:155-225: an allocating two-pass encoder and an in-place decoder. */
module UrlCoding {

  type Byte = x: int | 0 <= x < 0x100

  const PERCENT: Byte := 0x25

  predicate IsNum(x: Byte) {
    0x30 <= x <= 0x39
  }

  /** IS_ALNUM: the bytes that need no encoding. */
  predicate IsAlnum(x: Byte) {
    IsNum(x) || 0x41 <= x <= 0x5A || 0x61 <= x <= 0x7A
  }

  /** http_hex. */
  function HexDigit(n: nat): Byte
    requires n < 0x10
  {
    if n < 10 then 0x30 + n else 0x41 + n - 10
  }

  /** http_hex_char_to_num: either case is read, -1 is no digit. */
  function HexValue(x: Byte): (n: int)
    ensures -1 <= n < 0x10
  {
    if IsNum(x) then x - 0x30
    else if 0x61 <= x <= 0x66 then x - (0x61 - 10)
    else if 0x41 <= x <= 0x46 then x - (0x41 - 10)
    else -1
  }

  lemma HexRoundTrip(n: nat)
    requires n < 0x10
    ensures HexValue(HexDigit(n)) == n && HexDigit(n) != 0
  {
  }

  // ---------------------------------------------------------------- the codes

  function EncodeByte(x: Byte): seq<Byte> {
    if IsAlnum(x) then [x] else [PERCENT, HexDigit(x / 0x10), HexDigit(x % 0x10)]
  }

  function Encode(s: seq<Byte>): seq<Byte> {
    if s == [] then [] else EncodeByte(s[0]) + Encode(s[1..])
  }

  /** The bytes decoded before the end or the first malformed escape, and whether the end was reached. */
  function Decode(s: seq<Byte>): (r: (seq<Byte>, bool))
    ensures |r.0| <= |s|
  {
    if s == [] then ([], true)
    else if s[0] != PERCENT then
      var rest := Decode(s[1..]);
      ([s[0]] + rest.0, rest.1)
    else if |s| >= 3 && HexValue(s[1]) >= 0 && HexValue(s[2]) >= 0 then
      var rest := Decode(s[3..]);
      ([HexValue(s[1]) * 0x10 + HexValue(s[2])] + rest.0, rest.1)
    else ([], false)
  }

  /** Decoding undoes encoding, for every byte string. */
  lemma {:induction false} DecodeEncode(s: seq<Byte>)
    ensures Decode(Encode(s)) == (s, true)
  {
    if s != [] {
      var e := Encode(s);
      DecodeEncode(s[1..]);
      assert s == [s[0]] + s[1..];
      if IsAlnum(s[0]) {
        assert e[1..] == Encode(s[1..]);
      } else {
        HexRoundTrip(s[0] / 0x10);
        HexRoundTrip(s[0] % 0x10);
        assert e[3..] == Encode(s[1..]);
        assert e[0] == PERCENT && e[1] == HexDigit(s[0] / 0x10) && e[2] == HexDigit(s[0] % 0x10);
      }
    }
  }

  // ---------------------------------------------------------------- the same, by character

  const UPPER := "0123456789ABCDEF"
  const LOWER := "0123456789abcdef"

  /** The digits are the hexadecimal ones, in either case, each with its place as its value; nothing else is one. */
  lemma HexDigitsExactly(x: Byte, n: nat)
    requires n < 0x10
    ensures HexValue(x) == n <==> x == UPPER[n] as int || x == LOWER[n] as int
    ensures HexValue(x) == -1 <==> forall k :: 0 <= k < 0x10 ==> x != UPPER[k] as int && x != LOWER[k] as int
    ensures HexDigit(n) == UPPER[n] as int
  {
    HexDigitsByRange();
    if HexValue(x) >= 0 {
      assert x == UPPER[HexValue(x)] as int || x == LOWER[HexValue(x)] as int;
    }
  }

  lemma HexDigitsByRange()
    ensures forall k :: 0 <= k < 10 ==> UPPER[k] as int == LOWER[k] as int == 0x30 + k
    ensures forall k :: 10 <= k < 0x10 ==> UPPER[k] as int == 0x41 + k - 10 && LOWER[k] as int == 0x61 + k - 10
  {
  }

  /** Plain bytes are left alone, and every other byte becomes a percent sign and its two upper-case digits. */
  lemma {:induction false} EncodesExactly(s: seq<Byte>, x: Byte, rest: seq<Byte>)
    requires forall i :: 0 <= i < |s| ==> IsAlnum(s[i])
    requires !IsAlnum(x)
    ensures Encode(s) == s
    ensures Encode(s + [x] + rest) == s + [0x25, UPPER[x / 0x10] as int, UPPER[x % 0x10] as int] + Encode(rest)
  {
    HexDigitsByRange();
    var all := s + [x] + rest;
    if s == [] {
      assert all == [x] + rest && all[1..] == rest;
      assert Encode(all) == EncodeByte(x) + Encode(rest);
      assert EncodeByte(x) == [0x25, UPPER[x / 0x10] as int, UPPER[x % 0x10] as int];
    } else {
      assert all[1..] == s[1..] + [x] + rest && all[0] == s[0];
      EncodesExactly(s[1..], x, rest);
      assert [s[0]] + s[1..] == s;
    }
  }

  const LETTERS := "ABCDEFGHIJKLMNOPQRSTUVWXYZ"
  const SMALL := "abcdefghijklmnopqrstuvwxyz"

  lemma LettersByRange()
    ensures forall k :: 0 <= k < 26 ==> LETTERS[k] as int == 0x41 + k && SMALL[k] as int == 0x61 + k
  {
  }

  /** The bytes that are plain: digits and letters. */
  lemma AlnumExactly(x: Byte)
    ensures IsAlnum(x) <==> (exists k :: 0 <= k < 10 && x == UPPER[k] as int)
                            || (exists k :: 0 <= k < 26 && (x == LETTERS[k] as int || x == SMALL[k] as int))
  {
    HexDigitsByRange();
    LettersByRange();
    if IsNum(x) {
      assert x == UPPER[x - 0x30] as int;
    } else if IsAlnum(x) {
      var k := if x <= 0x5A then x - 0x41 else x - 0x61;
      assert x == LETTERS[k] as int || x == SMALL[k] as int;
    }
  }

  /** What has no percent sign decodes to itself. */
  lemma {:induction false} DecodesPlain(s: seq<Byte>, rest: seq<Byte>)
    requires PERCENT !in s
    ensures Decode(s + rest) == (s + Decode(rest).0, Decode(rest).1)
  {
    if s == [] {
      assert s + rest == rest && [] + Decode(rest).0 == Decode(rest).0;
    } else {
      assert (s + rest)[1..] == s[1..] + rest;
      DecodesPlain(s[1..], rest);
      assert [s[0]] + (s[1..] + Decode(rest).0) == s + Decode(rest).0;
    }
  }

  /** A percent sign and two hexadecimal digits, in whichever case, decode to the byte they write; with fewer
      digits behind it the rest is refused. */
  lemma DecodesEscape(hi: nat, lo: nat, a: Byte, b: Byte, rest: seq<Byte>)
    requires hi < 0x10 && lo < 0x10
    requires (a == UPPER[hi] as int || a == LOWER[hi] as int) && (b == UPPER[lo] as int || b == LOWER[lo] as int)
    ensures Decode([0x25, a, b] + rest) == ([hi * 0x10 + lo] + Decode(rest).0, Decode(rest).1)
  {
    HexDigitsExactly(a, hi);
    HexDigitsExactly(b, lo);
    assert ([0x25, a, b] + rest)[3..] == rest;
  }

  lemma RefusesExactly(rest: seq<Byte>)
    ensures Decode([0x25] + rest) == ([], false) <==> |rest| < 2 || HexValue(rest[0]) == -1 || HexValue(rest[1]) == -1
  {
    var s := [0x25] + rest;
    if |rest| >= 2 {
      assert s[1] == rest[0] && s[2] == rest[1];
    }
  }

  /** An encoded string is made of alphanumerics and percent signs; in particular it has no NUL. */
  lemma {:induction false} EncodedBytes(s: seq<Byte>)
    ensures forall i :: 0 <= i < |Encode(s)| ==> IsAlnum(Encode(s)[i]) || Encode(s)[i] == PERCENT
  {
    if s != [] {
      EncodedBytes(s[1..]);
    }
  }

  lemma {:induction false} EncodeSnoc(s: seq<Byte>, x: Byte)
    ensures Encode(s + [x]) == Encode(s) + EncodeByte(x)
  {
    if s == [] {
      assert s + [x] == [x] && [x][1..] == [];
    } else {
      assert (s + [x])[1..] == s[1..] + [x];
      EncodeSnoc(s[1..], x);
    }
  }

  // ---------------------------------------------------------------- C strings

  /** `a` holds the `n` bytes before its first terminator. */
  ghost predicate CString(a: array<Byte>, n: nat)
    reads a
  {
    n < a.Length && a[n] == 0 && forall i :: 0 <= i < n ==> a[i] != 0
  }

  /** The first pass (lines 203-206). */
  method EscapedSize(url: array<Byte>, ghost n: nat) returns (len: nat)
    requires CString(url, n)
    ensures len == |Encode(url[..n])| + 1
  {
    var p := 0;
    len := 0;
    while url[p] != 0
      invariant 0 <= p <= n && len == |Encode(url[..p])|
      decreases n - p
    {
      EncodeSnoc(url[..p], url[p]);
      assert url[..p + 1] == url[..p] + [url[p]];
      if !IsAlnum(url[p]) {
        len := len + 2;
      }
      p, len := p + 1, len + 1;
    }
    len := len + 1;
  }

  lemma {:induction false} EncodeSplit(s: seq<Byte>, p: nat)
    requires p < |s|
    ensures Encode(s[..p + 1]) == Encode(s[..p]) + EncodeByte(s[p])
    ensures |Encode(s[..p])| + |EncodeByte(s[p])| <= |Encode(s)|
  {
    EncodeSnoc(s[..p], s[p]);
    assert s[..p + 1] == s[..p] + [s[p]];
    EncodePrefix(s, p + 1);
  }

  lemma {:induction false} EncodePrefix(s: seq<Byte>, p: nat)
    requires p <= |s|
    ensures |Encode(s[..p])| <= |Encode(s)|
    decreases |s| - p
  {
    if p == |s| {
      assert s[..p] == s;
    } else {
      EncodeSnoc(s[..p], s[p]);
      assert s[..p + 1] == s[..p] + [s[p]];
      EncodePrefix(s, p + 1);
    }
  }

  /** http_url_escape. The first pass has computed exactly the room the second one needs. A byte above
      127 would be a negative `char` and index `http_hex` below zero. */
  method Escape(url: array<Byte>, ghost n: nat) returns (encoded: array<Byte>)
    requires CString(url, n) && forall i :: 0 <= i < n ==> url[i] < 0x80
    ensures fresh(encoded) && encoded[..] == Encode(url[..n]) + [0]
    ensures CString(encoded, |Encode(url[..n])|)
  {
    var len := EscapedSize(url, n);
    encoded := new Byte[len];
    ghost var s, d := url[..n], [];
    var p, x := 0, 0;
    assert s[..0] == [];
    while url[p] != 0
      invariant 0 <= p <= n && d == Encode(s[..p]) && x == |d| <= |Encode(s)|
      invariant forall i :: 0 <= i < x ==> encoded[i] == d[i]
      decreases n - p
    {
      EncodeSplit(s, p);
      d := d + EncodeByte(url[p]);
      if !IsAlnum(url[p]) {
        encoded[x] := PERCENT;
        encoded[x + 1] := HexDigit(url[p] / 0x10);
        encoded[x + 2] := HexDigit(url[p] % 0x10);
        x := x + 3;
      } else {
        encoded[x] := url[p];
        x := x + 1;
      }
      p := p + 1;
    }
    assert s[..p] == s;
    encoded[x] := 0;
    EncodedBytes(s);
  }

  /** `d` is the decoding of the first `p` bytes of `s`. */
  ghost predicate Decoding(s: seq<Byte>, p: nat, d: seq<Byte>)
    requires p <= |s|
  {
    Decode(s) == (d + Decode(s[p..]).0, Decode(s[p..]).1)
  }

  lemma DecodingStarts(s: seq<Byte>)
    ensures Decoding(s, 0, [])
  {
    assert s[0..] == s;
    assert [] + Decode(s).0 == Decode(s).0;
  }

  lemma DecodingPlain(s: seq<Byte>, p: nat, d: seq<Byte>)
    requires p < |s| && s[p] != PERCENT && Decoding(s, p, d)
    ensures Decoding(s, p + 1, d + [s[p]])
  {
    assert s[p..][1..] == s[p + 1..];
    assert d + [s[p]] + Decode(s[p + 1..]).0 == d + ([s[p]] + Decode(s[p + 1..]).0);
  }

  lemma DecodingEscape(s: seq<Byte>, p: nat, d: seq<Byte>, x: Byte)
    requires p + 2 < |s| && s[p] == PERCENT && HexValue(s[p + 1]) >= 0 && HexValue(s[p + 2]) >= 0
    requires x == HexValue(s[p + 1]) * 0x10 + HexValue(s[p + 2]) && Decoding(s, p, d)
    ensures Decoding(s, p + 3, d + [x])
  {
    assert s[p..][3..] == s[p + 3..];
    assert d + [x] + Decode(s[p + 3..]).0 == d + ([x] + Decode(s[p + 3..]).0);
  }

  lemma DecodingStops(s: seq<Byte>, p: nat, d: seq<Byte>)
    requires p < |s| && s[p] == PERCENT && Decoding(s, p, d)
    requires p + 2 >= |s| || HexValue(s[p + 1]) < 0 || HexValue(s[p + 2]) < 0
    ensures Decode(s) == (d, false)
  {
    assert Decode(s[p..]) == ([], false);
    assert d + [] == d;
  }

  /** `after` is `before` with its first bytes overwritten by `d`. */
  ghost predicate Overwritten(before: seq<Byte>, after: seq<Byte>, d: seq<Byte>) {
    && |d| <= |before| == |after|
    && (forall i :: 0 <= i < |d| ==> after[i] == d[i])
    && (forall i :: |d| <= i < |before| ==> after[i] == before[i])
  }

  /** http_url_unescape, in place. The write cursor never passes the read cursor, so what is still to
      be read is untouched. A malformed escape stops the decoder with the bytes written so far. */
  method Unescape(url: array<Byte>, ghost n: nat) returns (ret: int)
    requires CString(url, n)
    modifies url
    ensures var (d, ok) := Decode(old(url[..n]));
            ret == (if ok then 0 else -1) && Overwritten(old(url[..]), url[..], if ok then d + [0] else d)
  {
    ghost var s, d := url[..n], [];
    var p, w := 0, 0;
    DecodingStarts(s);
    while url[p] != 0
      invariant 0 <= w <= p <= n && w == |d| && Decoding(s, p, d)
      invariant Overwritten(old(url[..]), url[..], d)
      decreases n - p
    {
      assert url[p] == s[p];
      if url[p] == PERCENT {
        assert p + 1 < n ==> url[p + 1] == s[p + 1];
        var x := HexValue(url[p + 1]);
        if x < 0 {
          DecodingStops(s, p, d);
          return -1;
        }
        assert p + 2 < n ==> url[p + 2] == s[p + 2];
        var y := HexValue(url[p + 2]);
        if y < 0 {
          DecodingStops(s, p, d);
          return -1;
        }
        DecodingEscape(s, p, d, x * 0x10 + y);
        url[w] := x * 0x10 + y;
        p := p + 2;
      } else {
        DecodingPlain(s, p, d);
        url[w] := url[p];
      }
      d := d + [url[w]];
      w := w + 1;
      p := p + 1;
    }
    assert s[p..] == [] && d + [] == d;
    url[w] := 0;
    ret := 0;
  }

  /** Escaping a string and decoding the result in place gives the string back. */
  method EscapeThenUnescape(url: array<Byte>, ghost n: nat) returns (ret: int, copy: array<Byte>)
    requires CString(url, n) && forall i :: 0 <= i < n ==> url[i] < 0x80
    ensures ret == 0 && n < copy.Length && copy[..n + 1] == url[..n + 1]
  {
    DecodeEncode(url[..n]);
    copy := Escape(url, n);
    assert copy[..|Encode(url[..n])|] == Encode(url[..n]);
    ret := Unescape(copy, |Encode(url[..n])|);
    assert copy[..n + 1] == url[..n] + [0];
  }
}
