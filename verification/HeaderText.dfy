/** The header block as text: what http_header_parse accepts (http_header.c:457-549) and what the
    printer writes (http_header.c:418-456), as functions of strings. */
module HeaderText {
  import opened HeaderTable

  const CRLF := "\r\n"

  // ---------------------------------------------------------------- one line

  /** The parser's cursors into the current line, -1 for NULL: start and end of the name, the colon,
      start and last significant byte of the value; and whether the byte before was a CR. */
  datatype Cursors = Cursors(s: int, ne: int, c: int, vs: int, e: int, cr: bool)

  const Fresh := Cursors(-1, -1, -1, -1, -1, false)

  /** What a line comes to: not there yet, an error, the blank line, or a field. `n` bytes used. */
  datatype Line = Incomplete | Bad | Blank(n: nat) | Field(name: string, value: string, n: nat)

  predicate Within(k: Cursors, j: nat) {
    && -1 <= k.s < j && -1 <= k.ne < j && -1 <= k.c < j && -1 <= k.vs < j && -1 <= k.e < j
    && (k.vs >= 0 ==> k.e >= k.vs && k.ne >= 0)
    && (k.c >= 0 ==> k.ne >= 0)
  }

  predicate Stray(k: Cursors, ch: char) {
    ch != '\n' && ch != '\r' && ch != ' ' && ch != ':' && k.ne >= 0 && k.c < 0
  }

  function Advance(k: Cursors, ch: char, j: nat): (k': Cursors)
    requires Within(k, j) && ch != '\n' && !Stray(k, ch)
    ensures Within(k', j + 1)
  {
    (match ch
     case '\r' => k
     case ' ' => if k.s >= 0 && k.c < 0 && k.ne < 0 then k.(ne := j) else k
     case ':' => if k.c < 0 then k.(c := j, ne := if k.ne < 0 then j else k.ne) else k
     case _ =>
       if k.s < 0 then k.(s := j)
       else if k.c >= 0 && k.vs < 0 then k.(vs := j, e := j)
       else if k.vs >= 0 then k.(e := j)
       else k).(cr := ch == '\r')
  }

  /** The name between two cursors; empty when they are the wrong way round, a length that
      http_header_n_hash treats like zero. */
  function NameAt(b: string, s: int, ne: int): string
    requires 0 <= s <= |b| && 0 <= ne <= |b|
  {
    if s <= ne then b[s..ne] else ""
  }

  function EndOfLine(b: string, j: nat, k: Cursors): Line
    requires j < |b| && Within(k, j)
  {
    if !k.cr then Bad
    else if k.s < 0 then Blank(j + 1)
    else if k.vs < 0 then Bad
    else Field(NameAt(b, k.s, k.ne), b[k.vs..k.e + 1], j + 1)
  }

  function ScanLineFrom(b: string, j: nat, k: Cursors): (l: Line)
    requires j <= |b| && Within(k, j)
    ensures l.Blank? || l.Field? ==> j < l.n <= |b|
    decreases |b| - j
  {
    if j == |b| then Incomplete
    else if b[j] == '\n' then EndOfLine(b, j, k)
    else if Stray(k, b[j]) then Bad
    else ScanLineFrom(b, j + 1, Advance(k, b[j], j))
  }

  function ScanLine(b: string): Line {
    ScanLineFrom(b, 0, Fresh)
  }

  // ---------------------------------------------------------------- a block of lines

  /** What one call reports: the fields handed to http_header_add in order, `*rdlen`, `*is_end`, and
      whether it returned -1. */
  datatype Parsed = Parsed(fields: seq<(string, string)>, consumed: nat, end: bool, failed: bool) {
    predicate Done() {
      end || failed
    }

    /** This result, followed by what the rest of the input gave. */
    function Then(rest: Parsed): Parsed {
      Parsed(fields + rest.fields, consumed + rest.consumed, rest.end, rest.failed)
    }
  }

  /** A way to read the first line of a string. The block parser is defined over any of them: what it
      needs to know is that a line it has read is not empty and lies inside the string. */
  type Scanner = string -> Line

  predicate Reads(l: Line, b: string) {
    l.Blank? || l.Field? ==> 0 < l.n <= |b|
  }

  function ParseWith(scan: Scanner, b: string): (r: Parsed)
    ensures r.consumed <= |b|
    decreases |b|
  {
    var l := scan(b);
    if !Reads(l, b) then Parsed([], 0, false, true) else
      match l
      case Incomplete => Parsed([], 0, false, false)
      case Bad => Parsed([], 0, false, true)
      case Blank(n) => Parsed([], n, true, false)
      case Field(name, value, n) => Parsed([(name, value)], n, false, false).Then(ParseWith(scan, b[n..]))
  }

  /** http_header_parse. */
  function Parse(b: string): Parsed {
    ParseWith(ScanLine, b)
  }

  // ---------------------------------------------------------------- the parser's loop

  /** The switch of the parser (lines 507-544); `bad` is its return of -1. Cursors are offsets from
      the start of the line, -1 for NULL. */
  method ScanByte(ch: char, j: nat, s0: int, ne0: int, c0: int, vs0: int, e0: int, ghost cr: bool)
    returns (s: int, ne: int, c: int, vs: int, e: int, bad: bool)
    requires ch != '\n' && Within(Cursors(s0, ne0, c0, vs0, e0, cr), j)
    ensures bad <==> Stray(Cursors(s0, ne0, c0, vs0, e0, cr), ch)
    ensures !bad ==> Cursors(s, ne, c, vs, e, ch == '\r') == Advance(Cursors(s0, ne0, c0, vs0, e0, cr), ch, j)
  {
    s, ne, c, vs, e, bad := s0, ne0, c0, vs0, e0, false;
    match ch {
      case '\r' =>
      case ' ' =>
        if s >= 0 && c < 0 {
          if ne < 0 {
            ne := j;
          }
        }
      case ':' =>
        if c < 0 {
          c := j;
          if ne < 0 {
            ne := c;
          }
        }
      case _ =>
        if ne >= 0 && c < 0 {
          bad := true;
          return;
        }
        if s < 0 {
          s := j;
        } else if c >= 0 && vs < 0 {
          vs := j;
          e := vs;
        } else if vs >= 0 {
          e := j;
        }
    }
  }

  /** The rounds of the parser's loop (lines 472-547) that belong to one line: at every line end the
      code sets all its cursors back, so each line is scanned on its own. */
  method NextLine(b: string) returns (l: Line)
    ensures l == ScanLine(b)
  {
    var s, ne, c, vs, e := -1, -1, -1, -1, -1;
    var pre := NUL;
    var j := 0;
    while j < |b|
      invariant 0 <= j <= |b| && Within(Cursors(s, ne, c, vs, e, pre == '\r'), j)
      invariant ScanLine(b) == ScanLineFrom(b, j, Cursors(s, ne, c, vs, e, pre == '\r'))
    {
      if b[j] == '\n' {
        if pre != '\r' {
          return Bad;
        }
        if s >= 0 {
          if vs < 0 || e < 0 {
            return Bad;
          }
          e := e + 1;
          return Field(NameAt(b, s, ne), b[vs..e], j + 1);
        } else {
          return Blank(j + 1);
        }
      }
      var bad;
      s, ne, c, vs, e, bad := ScanByte(b[j], j, s, ne, c, vs, e, pre == '\r');
      if bad {
        return Bad;
      }
      pre := b[j];
      j := j + 1;
    }
    return Incomplete;
  }

  // ---------------------------------------------------------------- what a line is, without cursors

  /** The bytes that are part of a name or of a value. */
  predicate Sig(ch: char) {
    ch != ' ' && ch != ':' && ch != '\r' && ch != '\n'
  }

  /** No significant byte from `i` up to `j`. */
  predicate Nothing(b: string, i: int, j: int) {
    forall k :: 0 <= k < |b| && i <= k < j ==> !Sig(b[k])
  }

  predicate NoColon(b: string, j: int) {
    forall k :: 0 <= k < |b| && k < j ==> b[k] != ':'
  }

  /** `s` is the first significant byte of the first `j`, or -1. */
  predicate FirstSig(b: string, j: nat, s: int) {
    if s < 0 then s == -1 && Nothing(b, 0, j) else s < j && s < |b| && Sig(b[s]) && Nothing(b, 0, s)
  }

  predicate FirstColon(b: string, j: nat, c: int) {
    if c < 0 then c == -1 && NoColon(b, j) else c < j && c < |b| && b[c] == ':' && NoColon(b, c)
  }

  /** The name that begins at `s` ends at `ne`, before the first space or colon behind it. */
  predicate NameEnds(b: string, s: nat, ne: int) {
    s < ne < |b| && (b[ne] == ' ' || b[ne] == ':') && forall k :: s <= k < ne ==> b[k] != ' ' && b[k] != ':'
  }

  /** Where the name ends, with the first colon at `c`; a colon before the name ends it before it begins. */
  predicate NameEnd(b: string, j: nat, s: int, c: int, ne: int) {
    if ne < 0 then ne == -1 && c < 0 && (s < 0 || (s < j <= |b| && forall k :: s <= k < j ==> b[k] != ' '))
    else if s < 0 || (0 <= c < s) then c >= 0 && ne == c
    else ne < j && NameEnds(b, s, ne) && (c < 0 || ne <= c)
  }

  /** The value runs from the first to the last significant byte behind the colon, that of the name left out. */
  predicate ValueIs(b: string, j: nat, s: int, c: int, vs: int, e: int) {
    var from := (if s < c then c else s) + 1;
    if vs < 0 then vs == -1 && e == -1 && (s < 0 || c < 0 || Nothing(b, from, j))
    else
      && s >= 0 && c >= 0 && from <= vs <= e < j && e < |b| && Sig(b[vs]) && Sig(b[e])
      && Nothing(b, from, vs) && Nothing(b, e + 1, j)
  }

  /** A significant byte behind the end of a name that no colon has followed yet. */
  predicate StrayAt(b: string, s: nat, i: nat, k: nat) {
    s < i < k < |b| && Sig(b[s]) && b[i] == ' ' && Sig(b[k]) && NoColon(b, k)
  }

  ghost predicate HasStray(b: string, j: nat) {
    exists s: nat, i: nat, k: nat :: k < j && StrayAt(b, s, i, k)
  }

  /** The cursors say this of the first `j` bytes. */
  ghost predicate Describes(b: string, j: nat, k: Cursors) {
    && Within(k, j) && j <= |b| && FirstSig(b, j, k.s) && FirstColon(b, j, k.c) && NameEnd(b, j, k.s, k.c, k.ne)
    && ValueIs(b, j, k.s, k.c, k.vs, k.e) && (k.cr <==> j > 0 && b[j - 1] == '\r') && !HasStray(b, j)
  }

  lemma StrayStep(b: string, j: nat, k: Cursors)
    requires Describes(b, j, k) && j < |b| && b[j] != '\n'
    ensures Stray(k, b[j]) <==> HasStray(b, j + 1)
  {
    if Stray(k, b[j]) {
      assert StrayAt(b, k.s, k.ne, j);
    }
    if HasStray(b, j + 1) {
      var s: nat, i: nat, l: nat :| l < j + 1 && StrayAt(b, s, i, l);
      assert l == j;
      assert k.s <= s < i && b[i] == ' ';
    }
  }

  lemma AdvanceFirsts(b: string, j: nat, k: Cursors)
    requires Within(k, j) && j < |b| && b[j] != '\n' && !Stray(k, b[j]) && FirstSig(b, j, k.s) && FirstColon(b, j, k.c)
    ensures var k' := Advance(k, b[j], j); FirstSig(b, j + 1, k'.s) && FirstColon(b, j + 1, k'.c)
  {
  }

  lemma AdvanceName(b: string, j: nat, k: Cursors)
    requires Within(k, j) && j < |b| && b[j] != '\n' && !Stray(k, b[j]) && NameEnd(b, j, k.s, k.c, k.ne)
    requires FirstSig(b, j, k.s) && FirstColon(b, j, k.c)
    ensures var k' := Advance(k, b[j], j); NameEnd(b, j + 1, k'.s, k'.c, k'.ne)
  {
  }

  lemma AdvanceValue(b: string, j: nat, k: Cursors)
    requires Within(k, j) && j < |b| && b[j] != '\n' && !Stray(k, b[j]) && ValueIs(b, j, k.s, k.c, k.vs, k.e)
    ensures var k' := Advance(k, b[j], j); ValueIs(b, j + 1, k'.s, k'.c, k'.vs, k'.e)
  {
  }

  lemma AdvanceDescribes(b: string, j: nat, k: Cursors)
    requires Describes(b, j, k) && j < |b| && b[j] != '\n' && !Stray(k, b[j])
    ensures Describes(b, j + 1, Advance(k, b[j], j))
  {
    StrayStep(b, j, k);
    AdvanceFirsts(b, j, k);
    AdvanceName(b, j, k);
    AdvanceValue(b, j, k);
  }

  lemma {:induction false} ScannedFrom(b: string, j: nat, k: Cursors, e: nat) returns (k': Cursors)
    requires Describes(b, j, k) && j <= e <= |b| && '\n' !in b[..e] && (e < |b| ==> b[e] == '\n')
    ensures if HasStray(b, e) then ScanLineFrom(b, j, k) == Bad
            else Describes(b, e, k') && ScanLineFrom(b, j, k) == if e == |b| then Incomplete else EndOfLine(b, e, k')
    decreases e - j
  {
    k' := k;
    if j < e {
      assert b[j] == b[..e][j];
      StrayStep(b, j, k);
      if Stray(k, b[j]) {
        var s: nat, i: nat, l: nat :| l < j + 1 && StrayAt(b, s, i, l);
        assert l < e && StrayAt(b, s, i, l);
      } else {
        AdvanceDescribes(b, j, k);
        k' := ScannedFrom(b, j + 1, Advance(k, b[j], j), e);
      }
    }
  }

  /** A field with this name and this value, in the first `e` bytes. */
  ghost predicate FieldIn(b: string, e: nat, name: string, value: string) {
    exists s: nat, c: nat, ne: nat, vs: nat, ve: nat ::
      && FirstSig(b, e, s) && FirstColon(b, e, c) && NameEnd(b, e, s, c, ne) && ValueIs(b, e, s, c, vs, ve)
      && name == NameAt(b, s, ne) && value == b[vs..ve + 1]
  }

  /** The first line of `b` ends at `e`, or has not ended. */
  predicate LineEnds(b: string, e: nat) {
    e <= |b| && '\n' !in b[..e] && (e < |b| ==> b[e] == '\n')
  }

  predicate EndsInCr(b: string, e: nat) {
    0 < e <= |b| && b[e - 1] == '\r'
  }

  lemma Scanned(b: string, e: nat) returns (k: Cursors)
    requires LineEnds(b, e)
    ensures if HasStray(b, e) then ScanLine(b) == Bad
            else Describes(b, e, k) && ScanLine(b) == if e == |b| then Incomplete else EndOfLine(b, e, k)
  {
    assert Describes(b, 0, Fresh);
    k := ScannedFrom(b, 0, Fresh, e);
  }

  /** As long as a line has not ended, it is refused exactly if it has a stray byte. */
  lemma UnendedLine(b: string)
    requires LineEnds(b, |b|)
    ensures ScanLine(b) == if HasStray(b, |b|) then Bad else Incomplete
  {
    var k := Scanned(b, |b|);
  }

  /** A line that has ended is blank exactly if it ends in CR LF and has no significant byte. */
  lemma BlankExactly(b: string, e: nat)
    requires LineEnds(b, e) && e < |b|
    ensures ScanLine(b) == Blank(e + 1) <==> EndsInCr(b, e) && Nothing(b, 0, e)
  {
    var k := Scanned(b, e);
    if Nothing(b, 0, e) {
      assert !HasStray(b, e);
    }
  }

  /** It is a field exactly if it ends in CR LF, has no stray byte, and has a name, a colon and a value. */
  lemma FieldExactly(b: string, e: nat, name: string, value: string)
    requires LineEnds(b, e) && e < |b|
    ensures ScanLine(b) == Field(name, value, e + 1) <==> EndsInCr(b, e) && !HasStray(b, e) && FieldIn(b, e, name, value)
  {
    var k := Scanned(b, e);
    if !HasStray(b, e) && FieldIn(b, e, name, value) {
      FieldIsThere(b, e, k, name, value);
    }
  }

  lemma FieldIsThere(b: string, e: nat, k: Cursors, name: string, value: string)
    requires Describes(b, e, k) && FieldIn(b, e, name, value)
    ensures k.s >= 0 && k.vs >= 0 && name == NameAt(b, k.s, k.ne) && value == b[k.vs..k.e + 1]
  {
    var s: nat, c: nat, ne: nat, vs: nat, ve: nat :|
      && FirstSig(b, e, s) && FirstColon(b, e, c) && NameEnd(b, e, s, c, ne) && ValueIs(b, e, s, c, vs, ve)
      && name == NameAt(b, s, ne) && value == b[vs..ve + 1];
    OneFirst(b, e, s, c, k.s, k.c);
    OneName(b, e, s, c, ne, k.ne);
    OneValue(b, e, s, c, vs, ve, k.vs, k.e);
  }

  lemma OneFirst(b: string, j: nat, s: nat, c: nat, s': int, c': int)
    requires FirstSig(b, j, s) && FirstSig(b, j, s') && FirstColon(b, j, c) && FirstColon(b, j, c')
    ensures s == s' && c == c'
  {
  }

  lemma OneName(b: string, j: nat, s: nat, c: nat, ne: nat, ne': int)
    requires NameEnd(b, j, s, c, ne) && NameEnd(b, j, s, c, ne')
    ensures ne == ne'
  {
  }

  lemma OneValue(b: string, j: nat, s: nat, c: nat, vs: nat, e: nat, vs': int, e': int)
    requires ValueIs(b, j, s, c, vs, e) && ValueIs(b, j, s, c, vs', e')
    ensures vs == vs' && e == e'
  {
  }

  /** And it is refused exactly if there is no CR before its LF, or a stray byte, or a name without a colon or
      without a value. */
  lemma RefusedExactly(b: string, e: nat)
    requires LineEnds(b, e) && e < |b|
    ensures ScanLine(b) == Bad <==>
      !EndsInCr(b, e) || HasStray(b, e) || (!Nothing(b, 0, e) && !exists name, value :: FieldIn(b, e, name, value))
  {
    var k := Scanned(b, e);
    if !HasStray(b, e) {
      if k.vs >= 0 {
        assert FieldIn(b, e, NameAt(b, k.s, k.ne), b[k.vs..k.e + 1]);
      } else if exists name, value :: FieldIn(b, e, name, value) {
        var name, value :| FieldIn(b, e, name, value);
        FieldIsThere(b, e, k, name, value);
      }
    }
  }

  predicate Blanks(s: string) {
    forall i :: 0 <= i < |s| ==> s[i] == ' ' || s[i] == '\r'
  }

  predicate Skipped(s: string) {
    forall i :: 0 <= i < |s| ==> s[i] == ' ' || s[i] == ':' || s[i] == '\r'
  }

  /** A name up to its end. */
  predicate NameText(name: string) {
    name != "" && Sig(name[0]) && forall i :: 0 <= i < |name| ==> name[i] != ' ' && name[i] != ':' && name[i] != '\n'
  }

  predicate ValueText(value: string) {
    value != "" && Sig(value[0]) && Sig(value[|value| - 1]) && '\n' !in value
  }

  /** The parts of a line, by position: the name from `s` to `ne`, the colon at `c`, the value from `vs` to `v`, and
      the LF at `e`. */
  predicate Parts(b: string, s: nat, ne: nat, c: nat, vs: nat, v: nat, e: nat) {
    && s < ne <= c < vs < v < e < |b|
    && Blanks(b[..s]) && NameText(b[s..ne]) && Blanks(b[ne..c]) && (ne < c ==> b[ne] == ' ') && b[c] == ':'
    && Skipped(b[c + 1..vs]) && ValueText(b[vs..v]) && Skipped(b[v..e - 1]) && b[e - 1] == '\r' && b[e] == '\n'
  }

  /** The same, byte by byte. */
  predicate PartBytes(b: string, s: nat, ne: nat, c: nat, vs: nat, v: nat, e: nat) {
    && s < ne <= c < vs < v < e < |b| && Sig(b[s]) && Sig(b[vs]) && Sig(b[v - 1])
    && (forall i :: 0 <= i < s ==> b[i] == ' ' || b[i] == '\r')
    && (forall i :: s <= i < ne ==> b[i] != ' ' && b[i] != ':' && b[i] != '\n')
    && (forall i :: ne <= i < c ==> b[i] == ' ' || b[i] == '\r') && (ne < c ==> b[ne] == ' ') && b[c] == ':'
    && (forall i :: c < i < vs ==> b[i] == ' ' || b[i] == ':' || b[i] == '\r') && (forall i :: vs <= i < v ==> b[i] != '\n')
    && (forall i :: v <= i < e ==> b[i] == ' ' || b[i] == ':' || b[i] == '\r') && b[e - 1] == '\r' && b[e] == '\n'
  }

  lemma PartsByBytes(b: string, s: nat, ne: nat, c: nat, vs: nat, v: nat, e: nat)
    requires Parts(b, s, ne, c, vs, v, e)
    ensures PartBytes(b, s, ne, c, vs, v, e)
  {
    assert forall i :: 0 <= i < s ==> b[i] == b[..s][i];
    assert forall i :: s <= i < ne ==> b[i] == b[s..ne][i - s];
    assert forall i :: ne <= i < c ==> b[i] == b[ne..c][i - ne];
    assert forall i :: c < i < vs ==> b[i] == b[c + 1..vs][i - c - 1];
    assert forall i :: vs <= i < v ==> b[i] == b[vs..v][i - vs];
    assert forall i :: v <= i < e - 1 ==> b[i] == b[v..e - 1][i - v];
    assert b[vs..v][v - vs - 1] == b[v - 1];
  }

  lemma PartsNoStray(b: string, s: nat, ne: nat, c: nat, vs: nat, v: nat, e: nat)
    requires PartBytes(b, s, ne, c, vs, v, e)
    ensures LineEnds(b, e) && !HasStray(b, e)
  {
    if HasStray(b, e) {
      var x: nat, i: nat, k: nat :| k < e && StrayAt(b, x, i, k);
      assert false;
    }
  }

  lemma PartsRead(b: string, s: nat, ne: nat, c: nat, vs: nat, v: nat, e: nat)
    requires Parts(b, s, ne, c, vs, v, e)
    ensures ScanLine(b) == Field(b[s..ne], b[vs..v], e + 1)
  {
    PartsByBytes(b, s, ne, c, vs, v, e);
    PartsNoStray(b, s, ne, c, vs, v, e);
    assert FirstSig(b, e, s) && FirstColon(b, e, c) && NameEnd(b, e, s, c, ne) && ValueIs(b, e, s, c, vs, v - 1);
    assert FieldIn(b, e, b[s..ne], b[vs..v]);
    FieldExactly(b, e, b[s..ne], b[vs..v]);
  }

  /** A name and a value, whatever blanks stand around them, and whatever colons behind the first. */
  lemma LineReads(pre: string, name: string, mid: string, gap: string, value: string, trail: string, rest: string)
    requires Blanks(pre) && NameText(name) && Blanks(mid) && (mid == "" || mid[0] == ' ')
    requires Skipped(gap) && ValueText(value) && Skipped(trail)
    ensures var line := pre + name + mid + ":" + gap + value + trail + CRLF; ScanLine(line + rest) == Field(name, value, |line|)
  {
    var b := pre + name + mid + ":" + gap + value + trail + CRLF + rest;
    var s, ne := |pre|, |pre| + |name|;
    var c := ne + |mid|;
    var vs := c + 1 + |gap|;
    var v := vs + |value|;
    var e := v + |trail| + 1;
    assert b[..s] == pre && b[s..ne] == name && b[ne..c] == mid && b[c] == ':' && b[c + 1..vs] == gap;
    assert b[vs..v] == value && b[v..e - 1] == trail && b[e - 1] == '\r' && b[e] == '\n';
    PartsRead(b, s, ne, c, vs, v, e);
  }

  // ---------------------------------------------------------------- chunking

  lemma {:induction false} LineStable(b: string, x: string, j: nat, k: Cursors)
    requires j <= |b| && Within(k, j) && ScanLineFrom(b, j, k) != Incomplete
    ensures ScanLineFrom(b + x, j, k) == ScanLineFrom(b, j, k)
    decreases |b| - j
  {
    assert (b + x)[j] == b[j];
    if b[j] == '\n' {
      if k.cr && k.s >= 0 && k.vs >= 0 {
        assert (b + x)[k.vs..k.e + 1] == b[k.vs..k.e + 1];
        assert NameAt(b + x, k.s, k.ne) == NameAt(b, k.s, k.ne);
      }
    } else if !Stray(k, b[j]) {
      LineStable(b, x, j + 1, Advance(k, b[j], j));
    }
  }

  /** A line that is complete, or an error, stays what it is when more bytes follow. */
  ghost predicate Stable(scan: Scanner) {
    && (forall b :: Reads(scan(b), b))
    && forall b, x :: scan(b) != Incomplete ==> scan(b + x) == scan(b)
  }

  lemma ScanLineStable()
    ensures Stable(ScanLine)
  {
    forall b, x | ScanLine(b) != Incomplete ensures ScanLine(b + x) == ScanLine(b) {
      LineStable(b, x, 0, Fresh);
    }
  }

  lemma DropDrop(b: string, n: nat, m: nat)
    requires n + m <= |b|
    ensures b[n..][m..] == b[n + m..]
  {
  }

  lemma DropAppend(b: string, x: string, n: nat)
    requires n <= |b|
    ensures (b + x)[n..] == b[n..] + x
  {
  }

  lemma ThenAssociates(p: Parsed, q: Parsed, r: Parsed)
    ensures p.Then(q).Then(r) == p.Then(q.Then(r))
  {
    assert p.fields + q.fields + r.fields == p.fields + (q.fields + r.fields);
  }

  lemma EmptyThen(r: Parsed)
    ensures Parsed([], 0, false, false).Then(r) == r
  {
  }

  /** What `ParseExtends` says of one string. */
  ghost predicate Extends(scan: Scanner, b: string, x: string) {
    var r := ParseWith(scan, b);
    ParseWith(scan, b + x) == if r.Done() then r else r.Then(ParseWith(scan, b[r.consumed..] + x))
  }

  lemma {:induction false} ExtendsField(scan: Scanner, b: string, x: string)
    requires Stable(scan) && scan(b).Field? && Reads(scan(b), b) && Extends(scan, b[scan(b).n..], x)
    ensures Extends(scan, b, x)
  {
    var l := scan(b);
    assert scan(b + x) == l && Reads(l, b + x);
    var f, rest := Parsed([(l.name, l.value)], l.n, false, false), b[l.n..];
    var r := ParseWith(scan, rest);
    DropAppend(b, x, l.n);
    assert ParseWith(scan, b) == f.Then(r) && ParseWith(scan, b + x) == f.Then(ParseWith(scan, rest + x));
    if !r.Done() {
      DropDrop(b, l.n, r.consumed);
      ThenAssociates(f, r, ParseWith(scan, rest[r.consumed..] + x));
    }
  }

  /** A finished or failed parse does not change when more bytes follow; an unfinished one goes on
      exactly as if it were restarted on its unconsumed tail. */
  lemma {:induction false} ParseExtends(scan: Scanner, b: string, x: string)
    requires Stable(scan)
    ensures var r := ParseWith(scan, b);
            ParseWith(scan, b + x) == if r.Done() then r else r.Then(ParseWith(scan, b[r.consumed..] + x))
    decreases |b|
  {
    var l := scan(b);
    assert Reads(l, b);
    if l == Incomplete {
      assert b[0..] == b;
      EmptyThen(ParseWith(scan, b + x));
    } else if l.Field? {
      ParseExtends(scan, b[l.n..], x);
      ExtendsField(scan, b, x);
    } else {
      assert scan(b + x) == l;
    }
  }

  /** The caller's side: the unconsumed tail, and everything reported so far. */
  datatype Feed = Feed(tail: string, out: Parsed)

  function FeedChunk(scan: Scanner, f: Feed, chunk: string): Feed {
    if f.out.Done() then f else
      var r := ParseWith(scan, f.tail + chunk);
      Feed((f.tail + chunk)[r.consumed..], f.out.Then(r))
  }

  function FeedAll(scan: Scanner, chunks: seq<string>): Feed {
    if chunks == [] then Feed("", Parsed([], 0, false, false))
    else FeedChunk(scan, FeedAll(scan, chunks[..|chunks| - 1]), chunks[|chunks| - 1])
  }

  function Flatten(chunks: seq<string>): string {
    if chunks == [] then "" else Flatten(chunks[..|chunks| - 1]) + chunks[|chunks| - 1]
  }

  /** The caller has been told what one call on `b` would tell, and keeps the tail of `b`. */
  predicate UpTo(scan: Scanner, f: Feed, b: string) {
    var r := ParseWith(scan, b);
    f.out == r && (!r.Done() ==> f.tail == b[r.consumed..])
  }

  lemma {:induction false} OneMoreChunk(scan: Scanner, f: Feed, b: string, chunk: string)
    requires Stable(scan) && UpTo(scan, f, b)
    ensures UpTo(scan, FeedChunk(scan, f, chunk), b + chunk)
  {
    ParseExtends(scan, b, chunk);
    var n := ParseWith(scan, b).consumed;
    if !f.out.Done() {
      DropAppend(b, chunk, n);
      DropDrop(b + chunk, n, ParseWith(scan, b[n..] + chunk).consumed);
    }
  }

  lemma {:induction false} FeedingIsParsing(scan: Scanner, chunks: seq<string>)
    requires Stable(scan) && scan("") == Incomplete
    ensures UpTo(scan, FeedAll(scan, chunks), Flatten(chunks))
  {
    if chunks != [] {
      var front := chunks[..|chunks| - 1];
      FeedingIsParsing(scan, front);
      OneMoreChunk(scan, FeedAll(scan, front), Flatten(front), chunks[|chunks| - 1]);
    }
  }

  /** However a byte stream is cut, feeding the pieces reports what one call on the stream reports. */
  lemma ChunkingInvariance(chunks: seq<string>)
    ensures FeedAll(ScanLine, chunks).out == Parse(Flatten(chunks))
  {
    ScanLineStable();
    FeedingIsParsing(ScanLine, chunks);
  }

  // ---------------------------------------------------------------- lines one behind the other

  function Together(lines: seq<string>): string {
    if lines == [] then "" else lines[0] + Together(lines[1..])
  }

  /** Each line is a field. */
  predicate AllFields(lines: seq<string>, fields: seq<(string, string)>) {
    && |fields| == |lines|
    && forall i :: 0 <= i < |lines| ==> ScanLine(lines[i]) == Field(fields[i].0, fields[i].1, |lines[i]|)
  }

  /** Fields, and then the line that ends the parse: it is refused, and the fields before it stay; or it is blank,
      and the parse has ended behind it; or it is not there yet, and is left. */
  lemma {:induction false} LinesParsed(lines: seq<string>, fields: seq<(string, string)>, x: string)
    requires AllFields(lines, fields) && !ScanLine(x).Field?
    ensures var n := |Together(lines)|; var l := ScanLine(x);
      Parse(Together(lines) + x) == Parsed(fields, if l.Blank? then n + l.n else n, l.Blank?, l.Bad?)
  {
    if lines == [] {
      assert "" + x == x && fields == [];
    } else {
      var rest := Together(lines[1..]) + x;
      assert Together(lines) + x == lines[0] + rest && (lines[0] + rest)[|lines[0]|..] == rest;
      LineStable(lines[0], rest, 0, Fresh);
      LinesParsed(lines[1..], fields[1..], x);
      assert [fields[0]] + fields[1..] == fields;
    }
  }

  // ---------------------------------------------------------------- printing

  function LineText(name: string, value: string): string {
    name + ": " + value + CRLF
  }

  function Lines(fields: seq<(string, string)>): string {
    if fields == [] then "" else LineText(fields[0].0, fields[0].1) + Lines(fields[1..])
  }

  function Block(fields: seq<(string, string)>): string {
    Lines(fields) + CRLF
  }

  /** A printed line, byte by byte: a colon and a blank between name and value, and CR LF behind it. */
  lemma LineByteByByte(name: string, value: string)
    ensures var line, n := LineText(name, value), |name|;
      && |line| == n + |value| + 4 && line[..n] == name && line[n] == ':' && line[n + 1] == ' '
      && line[n + 2..n + 2 + |value|] == value && line[n + 2 + |value|] == '\r' && line[n + 3 + |value|] == '\n'
  {
  }

  /** The bytes the parser skips around names and values. */
  predicate Blankish(c: char) {
    c == ' ' || c == ':'
  }

  predicate Special(c: char) {
    Blankish(c) || c == '\r' || c == '\n' || c == NUL
  }

  /** A name that can be told from its value again. */
  predicate GoodName(name: string) {
    name != "" && forall i :: 0 <= i < |name| ==> !Special(name[i])
  }

  /** A value the parser gives back unchanged. */
  predicate GoodValue(value: string) {
    && value != "" && (forall i :: 0 <= i < |value| ==> value[i] != '\r' && value[i] != '\n' && value[i] != NUL)
    && !Blankish(value[0]) && !Blankish(value[|value| - 1])
  }

  /** A printed line scans back to its name and value. */
  lemma LineRoundTrip(name: string, value: string, rest: string)
    requires GoodName(name) && GoodValue(value)
    ensures ScanLine(LineText(name, value) + rest) == Field(name, value, |LineText(name, value)|)
  {
    LineReads("", name, "", " ", value, "", rest);
    assert "" + name + "" + ":" + " " + value + "" + CRLF == LineText(name, value);
  }

  lemma BlockFront(fields: seq<(string, string)>)
    requires fields != []
    ensures var line := LineText(fields[0].0, fields[0].1);
            Block(fields) == line + Block(fields[1..]) && (line + Block(fields[1..]))[|line|..] == Block(fields[1..])
  {
  }

  /** Parsing a printed block gives back its fields, in order, and uses up every byte. */
  lemma {:induction false} BlockRoundTrip(fields: seq<(string, string)>)
    requires forall i :: 0 <= i < |fields| ==> GoodName(fields[i].0) && GoodValue(fields[i].1)
    ensures Parse(Block(fields)) == Parsed(fields, |Block(fields)|, true, false)
  {
    if fields == [] {
      assert Block(fields) == CRLF;
      assert ScanLineFrom(CRLF, 0, Fresh) == ScanLineFrom(CRLF, 1, Fresh.(cr := true));
    } else {
      BlockFront(fields);
      BlockRoundTrip(fields[1..]);
      LineThenBlock(LineText(fields[0].0, fields[0].1), fields[0].0, fields[0].1, Block(fields[1..]));
      assert fields == [fields[0]] + fields[1..];
    }
  }

  lemma {:induction false} LineThenBlock(line: string, name: string, value: string, rest: string)
    requires GoodName(name) && GoodValue(value) && line == LineText(name, value) && (line + rest)[|line|..] == rest
    ensures Parse(line + rest) == Parsed([(name, value)], |line|, false, false).Then(Parse(rest))
  {
    LineRoundTrip(name, value, rest);
  }
}
