/** The log buffers of http_request.c:112-127 and http_response.c:414-430, which are filled alike: the
    version and the printed headers, each behind its own terminator, in a buffer that fits to the byte. */
module HttpLog {
  import opened BTreeShape
  import opened HttpHeader
  import opened HeaderText
  import opened HeaderTable
  import HttpVersion

  const VERSION_LEN := 9   // http_version_len

  /** No print writes more than its lines need. */
  lemma {:induction false} EmittedWithin(names: seq<string>, s: seq<Node>, k: nat, left: nat)
    requires k <= |s|
    ensures |Emitted(names, s, k, left)| <= Needs(names, s[k..])
    decreases |s| - k
  {
    if k < |s| && left >= Need(names, s[k]) {
      TextFits(names, s[k]);
      assert s[k..][1..] == s[k + 1..];
      EmittedWithin(names, s, k + 1, left - |Text(names, s[k])|);
    }
  }

  /** From whatever node the cursor stands at, a print fits into http_header_len bytes. */
  lemma PrintWithin(names: seq<string>, s: seq<Node>, i: nat, size: nat)
    requires i <= |s|
    ensures |Emitted(names, s[i..], 0, size)| <= Needs(names, s)
  {
    assert s[i..][0..] == s[i..];
    EmittedWithin(names, s[i..], 0, size);
    assert s == s[..i] + s[i..];
    NeedsInParts(names, s[..i], s[i..]);
  }

  /** strncpy to `at`: `text`, then NUL bytes as far as `size` goes. */
  method StrNCpy(buf: array<char>, at: nat, text: string, size: nat)
    requires |text| <= size && at + size <= buf.Length
    modifies buf
    ensures buf[..at] == old(buf[..at])
    ensures buf[at..at + |text|] == text
    ensures forall i :: at + |text| <= i < at + size ==> buf[i] == NUL
    ensures buf[at + size..] == old(buf[at + size..])
  {
    var i := at;
    while i < at + size
      invariant at <= i <= at + size
      invariant forall j :: 0 <= j < at || at + size <= j < buf.Length ==> buf[j] == old(buf[j])
      invariant forall j :: at <= j < i ==> buf[j] == if j - at < |text| then text[j - at] else NUL
    {
      buf[i] := if i - at < |text| then text[i - at] else NUL;
      i := i + 1;
    }
  }

  /** The bytes the header printer puts at `at`. */
  method Put(buf: array<char>, at: nat, text: string)
    requires at + |text| <= buf.Length
    modifies buf
    ensures buf[..at] == old(buf[..at])
    ensures buf[at..at + |text|] == text
    ensures buf[at + |text|..] == old(buf[at + |text|..])
  {
    StrNCpy(buf, at, text, |text|);
  }

  lemma PendingWithin(headers: HeaderCollection, size: nat)
    requires headers.Valid()
    ensures |Emitted(headers.table.names, headers.Pending(), 0, size)| <= Needs(headers.table.names, headers.tree.Order())
  {
    StartInside(headers.tree.t, headers.cursor);
    PrintWithin(headers.table.names, headers.tree.Order(), Start(headers.tree.t, headers.cursor), size);
  }

  /** http_header_to_str with one byte to spare. */
  method Print(headers: HeaderCollection, len: nat) returns (out: string)
    requires headers.Valid() && len == Needs(headers.table.names, headers.tree.Order()) + 2
    modifies headers, NodeSet(headers.tree.t)
    ensures headers.Valid() && headers.tree.t == old(headers.tree.t) && headers.tree.root == old(headers.tree.root)
    ensures |out| <= len
    ensures old(headers.Rewound()) && NulFree(headers.tree.Order()) ==>
      headers.Rewound() && |out| == len && out == Block(FieldsOf(headers.table.names, headers.tree.Order()))
  {
    PendingWithin(headers, len + 1);
    ghost var pending := headers.Pending();
    var isEnd;
    out, isEnd := headers.ToStr(len + 1);
  }

  /** The text of a log buffer. */
  function Rendered(v: HttpVersion.Version, out: string): string {
    HttpVersion.Text(v) + [NUL] + out + [NUL]
  }

  lemma RenderedByteByByte(v: HttpVersion.Version, out: string)
    ensures var r := Rendered(v, out);
      && |r| == |out| + 11 && r[..9] == HttpVersion.Text(v) && r[9] == '\0' && r[10..|r| - 1] == out && r[|r| - 1] == '\0'
  {
  }

  /** What both log functions build. The last terminator is within the buffer, wherever the cursor
      stood; when everything is printed it is the last byte of the buffer, so the sizes are exact, and
      the headers can be printed again afterwards. */
  method Render(v: HttpVersion.Version, headers: HeaderCollection) returns (buf: array<char>, ghost out: string)
    requires headers.Valid()
    modifies headers, NodeSet(headers.tree.t)
    ensures headers.Valid() && headers.tree.t == old(headers.tree.t) && headers.tree.root == old(headers.tree.root)
    ensures fresh(buf) && Rendered(v, out) <= buf[..]
    ensures old(headers.Rewound()) && NulFree(headers.tree.Order()) ==>
      && headers.Rewound() && out == Block(FieldsOf(headers.table.names, headers.tree.Order()))
      && buf[..] == Rendered(v, out)
  {
    AllAllocated(headers.tree.t);
    var len := headers.Len();
    buf := new char[len + VERSION_LEN + 2];
    var text := Print(headers, len);
    out := text;
    Fill(buf, HttpVersion.Text(v), text);
  }

  /** The copies into the buffer. */
  method Fill(buf: array<char>, version: string, text: string)
    requires |version| == VERSION_LEN && |text| + VERSION_LEN + 2 <= buf.Length
    modifies buf
    ensures version + [NUL] + text + [NUL] <= buf[..]
  {
    StrNCpy(buf, 0, version, buf.Length);
    var len := |version|;
    buf[len] := NUL;
    var hptr := len + 1;
    assert buf[..hptr] == version + [NUL];
    Put(buf, hptr, text);
    assert buf[..hptr + |text|] == version + [NUL] + text;
    buf[hptr + |text|] := NUL;
    assert buf[..hptr + |text|] == version + [NUL] + text;
    assert buf[..hptr + |text| + 1] == version + [NUL] + text + [NUL];
  }
}
