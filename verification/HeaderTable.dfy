/** The header name table of http_header.c and its hash-sorted index (http_header.c:550-657).

    The table's contents are a parameter: `names` stands for the strings of `http_header_fields`. */
module HeaderTable {

  const NUL := '\0'

  // ---------------------------------------------------------------- case and hashes

  /** tolower in the C locale. */
  function Lower(c: char): char {
    if 'A' <= c <= 'Z' then c - 'A' + 'a' else c
  }

  /** Equal but for letter case. */
  predicate SameLetters(a: string, b: string) {
    |a| == |b| && forall i :: 0 <= i < |a| ==> Lower(a[i]) == Lower(b[i])
  }

  /** A byte read through a signed `char`. */
  function SignedChar(c: char): int {
    var b := c as int % 0x100;
    if b < 0x80 then b else b - 0x100
  }

  /** Bitwise exclusive or. */
  function Xor(a: nat, b: nat): nat {
    if a == 0 && b == 0 then 0 else (a % 2 + b % 2) % 2 + 2 * Xor(a / 2, b / 2)
  }

  lemma XorParts(a: nat, b: nat)
    ensures Xor(a, b) % 2 == (a % 2 + b % 2) % 2 && Xor(a, b) / 2 == Xor(a / 2, b / 2)
  {
  }

  lemma XorCommutes(a: nat, b: nat)
    ensures Xor(a, b) == Xor(b, a)
  {
  }

  /** Applying the same operand twice undoes it: what the XOR swap of the index relies on. */
  lemma {:induction false} XorCancels(a: nat, b: nat)
    ensures Xor(a, Xor(a, b)) == b
    decreases a + b
  {
    if a != 0 || b != 0 {
      XorCancels(a / 2, b / 2);
      XorParts(a, b);
      XorParts(a, Xor(a, b));
      FromParts(a, b, Xor(a, b), Xor(a, Xor(a, b)));
    }
  }

  lemma FromParts(a: nat, b: nat, x: nat, y: nat)
    requires x % 2 == (a % 2 + b % 2) % 2 && y % 2 == (a % 2 + x % 2) % 2 && y / 2 == b / 2
    ensures y == b
  {
    assert y % 2 == b % 2;
  }

  function Low16(x: int): nat {
    x % 0x1_0000
  }

  /** One round of the hash loop, on the 16 bits of `hash`. */
  function Mix(h: nat, lowered: char): nat {
    Low16(Xor(h, Low16(SignedChar(lowered) - 0x30)) + SignedChar(lowered) * 0x100)
  }

  function Hash16(s: string): nat {
    if s == [] then 0 else Mix(Hash16(s[..|s| - 1]), Lower(s[|s| - 1]))
  }

  function Signed16(h: nat): int {
    if h < 0x8000 then h else h - 0x1_0000
  }

  /** The hash as the int16_t the code compares. */
  function Hash(s: string): int {
    Signed16(Hash16(s))
  }

  /** http_header_n_hash; http_header_hash is the same loop up to the terminator. */
  method NHash(bin: string) returns (hash: int)
    ensures hash == Hash(bin)
  {
    var h := 0;
    for p := 0 to |bin|
      invariant h == Hash16(bin[..p])
    {
      assert bin[..p + 1][..p] == bin[..p];
      h := Mix(h, Lower(bin[p]));
    }
    assert bin[..|bin|] == bin;
    hash := Signed16(h);
  }

  /** The hash does not see letter case. */
  lemma {:induction false} HashIgnoresCase(a: string, b: string)
    requires SameLetters(a, b)
    ensures Hash(a) == Hash(b) && Hash16(a) == Hash16(b)
  {
    if a != [] {
      var n := |a| - 1;
      HashIgnoresCase(a[..n], b[..n]);
    }
  }

  // ---------------------------------------------------------------- comparison

  /** strncasecmp(target, name, |target|) == 0 from position `i` on; `name` ends in a terminator, and
      an equal pair of terminators ends the comparison. */
  function NCaseEqualFrom(target: string, name: string, i: nat): bool
    decreases |target| - i
  {
    if i >= |target| then true
    else
      var a, b := Lower(target[i]), if i < |name| then Lower(name[i]) else NUL;
      a == b && (a == NUL || NCaseEqualFrom(target, name, i + 1))
  }

  function NCaseEqual(target: string, name: string): bool {
    NCaseEqualFrom(target, name, 0)
  }

  lemma {:induction false} CaseVariantEqual(target: string, name: string, i: nat)
    requires SameLetters(target, name)
    ensures NCaseEqualFrom(target, name, i)
    decreases |target| - i
  {
    if i < |target| {
      CaseVariantEqual(target, name, i + 1);
    }
  }

  /** A target without NUL equals a name, as far as the comparison goes, exactly if it is one of its beginnings,
      letter case aside. */
  lemma {:induction false} EqualExactly(target: string, name: string, i: nat)
    requires i <= |target| && forall k :: 0 <= k < |target| ==> target[k] != NUL
    requires forall k :: 0 <= k < i && k < |name| ==> Lower(target[k]) == Lower(name[k])
    requires i <= |name|
    ensures NCaseEqualFrom(target, name, i) <==> |target| <= |name| && SameLetters(target, name[..|target|])
    decreases |target| - i
  {
    if i < |target| {
      assert Lower(target[i]) != NUL;
      if i < |name| && Lower(target[i]) == Lower(name[i]) {
        EqualExactly(target, name, i + 1);
      } else if |target| <= |name| {
        assert name[..|target|][i] == name[i];
      }
    }
  }

  // ---------------------------------------------------------------- lookup, by linear scan

  predicate Matches(names: seq<string>, id: int, target: string) {
    0 <= id < |names| && Hash(names[id]) == Hash(target) && NCaseEqual(target, names[id])
  }

  /** What a lookup is supposed to find: the first entry with an equal hash and equal text. */
  function ScanFrom(names: seq<string>, target: string, i: nat): (id: int)
    ensures id == -1 || (i <= id && Matches(names, id, target))
    ensures id == -1 ==> forall k :: i <= k < |names| ==> !Matches(names, k, target)
    decreases |names| - i
  {
    if i >= |names| then -1
    else if Matches(names, i, target) then i
    else ScanFrom(names, target, i + 1)
  }

  function Scan(names: seq<string>, target: string): int {
    ScanFrom(names, target, 0)
  }

  /** No two names of the table share a hash. */
  ghost predicate DistinctHashes(names: seq<string>) {
    forall i, j :: 0 <= i < j < |names| ==> Hash(names[i]) != Hash(names[j])
  }

  /** Every case variant of a table name is found, under its own id. */
  lemma CaseVariantFound(names: seq<string>, id: nat, target: string)
    requires DistinctHashes(names) && id < |names| && SameLetters(target, names[id])
    ensures Scan(names, target) == id
  {
    HashIgnoresCase(target, names[id]);
    CaseVariantEqual(target, names[id], 0);
    assert Matches(names, id, target);
  }

  /** A lookup answers with a name exactly if that has the hash of the target, and begins with it, letter case
      aside; with distinct hashes there is one such name at most. */
  lemma FoundExactly(names: seq<string>, target: string, id: nat)
    requires DistinctHashes(names) && id < |names| && forall k :: 0 <= k < |target| ==> target[k] != NUL
    ensures Scan(names, target) == id <==>
      Hash(target) == Hash(names[id]) && |target| <= |names[id]| && SameLetters(target, names[id][..|target|])
  {
    EqualExactly(target, names[id], 0);
    var found := Scan(names, target);
    if Matches(names, id, target) {
      assert found != -1;
      assert Hash(names[found]) == Hash(names[id]);
    }
  }

  lemma {:induction false} XorZero(a: nat)
    ensures Xor(0, a) == Xor(a, 0) == a
  {
    if a != 0 {
      XorZero(a / 2);
    }
  }

  lemma XorStep(a: nat, b: nat, h: nat, k: nat, r: nat)
    requires Xor(h, k) == r && h == a / 2 && k == b / 2 && (a != 0 || b != 0)
    ensures Xor(a, b) == (a % 2 + b % 2) % 2 + 2 * r
  {
  }

  lemma SignedSmall(c: char)
    requires c as int < 0x80
    ensures SignedChar(c) == c as int
  {
  }

  lemma MixOf(h: nat, c: char, s: int, d: nat)
    requires s == SignedChar(c) && d == Low16(s - 0x30)
    ensures Mix(h, c) == Low16(Xor(h, d) + s * 0x100)
  {
  }

  /** One round of the hash, given its exclusive or. */
  lemma MixIs(h: nat, c: char, s: nat, x: nat)
    requires s == c as int < 0x80 && s >= 0x30 && x == Xor(h, s - 0x30) && x + s * 0x100 < 0x1_0000
    ensures Mix(h, c) == x + s * 0x100
  {
    SignedSmall(c);
    Low16Is(s - 0x30, s - 0x30, 0);
    MixOf(h, c, s, s - 0x30);
    Low16Is(x + s * 0x100, x + s * 0x100, 0);
  }

  lemma XorKnown(a: nat, b: nat)
    requires a == 24881 && b == 50
    ensures Xor(a, b) == 24835
  {
    XorZero(388);
    XorStep(777, 1, 388, 0, 388);
    XorStep(1555, 3, 777, 1, 776);
    XorStep(3110, 6, 1555, 3, 1552);
    XorStep(6220, 12, 3110, 6, 3104);
    XorStep(12440, 25, 6220, 12, 6208);
    XorStep(a, b, 12440, 25, 12417);
  }

  /** Two hashes, as numbers. */
  lemma KnownHashes(a: string, ab: string)
    requires a == "A" && ab == "ab"
    ensures Hash(a) == 24881 && Hash(ab) == -15613
  {
    var h, k := 49, 24881;
    assert a[..0] == "" && ab[..1][..0] == "" && Lower(a[0]) == Lower(ab[..1][0]) == 'a' && Lower(ab[1]) == 'b';
    XorZero(h);
    MixIs(0, 'a', 97, h);
    assert Hash16(a) == Hash16(ab[..1]) == k;
    XorKnown(k, 50);
    MixIs(k, 'b', 98, 24835);
    assert Hash16(ab) == 49923;
  }

  lemma Low16Is(x: int, y: nat, k: int)
    requires x == y + k * 0x1_0000 && y < 0x1_0000
    ensures Low16(x) == y
  {
  }

  lemma MixHigh(c: char, x: nat)
    requires c as int == 0xE9 && x == 65465
    ensures Mix(0, c) == 59577
  {
    Low16Is(SignedChar(c) - 0x30, x, -1);
    XorZero(x);
    Low16Is(x + SignedChar(c) * 0x100, 59577, 0);
  }

  /** And that of a byte above 127, which the code takes for a negative one. */
  lemma KnownHigh(high: string)
    requires |high| == 1 && high[0] as int == 0xE9
    ensures Hash(high) == -5959
  {
    var c := high[0];
    assert high[..0] == "" && Hash16(high[..0]) == 0 && Lower(c) == c;
    MixHigh(c, 65465);
    HashOfOne(high, c);
  }

  lemma HashOfOne(s: string, c: char)
    requires s == [c] && Lower(c) == c
    ensures Hash(s) == Signed16(Mix(0, c))
  {
    assert s[..0] == [] && s[0] == c && Hash16(s) == Mix(Hash16(s[..0]), Lower(s[0]));
  }

  // ---------------------------------------------------------------- the sorted index

  /** The entries 0 .. |s|-1 in some order. */
  ghost predicate Permutation(s: seq<nat>) {
    && (forall i :: 0 <= i < |s| ==> s[i] < |s|)
    && (forall i, j :: 0 <= i < j < |s| ==> s[i] != s[j])
    && (forall v: nat :: v < |s| ==> v in s)
  }

  lemma SwapKeepsPermutation(s: seq<nat>, j: nat)
    requires Permutation(s) && j + 1 < |s|
    ensures Permutation(s[j := s[j + 1]][j + 1 := s[j]])
  {
    var u := s[j := s[j + 1]][j + 1 := s[j]];
    forall v: nat | v < |s| ensures v in u {
      assert v in s;
      var k :| 0 <= k < |s| && s[k] == v;
      assert v == if k == j then u[j + 1] else if k == j + 1 then u[j] else u[k];
    }
  }

  /** Everything after position `i` is in place. */
  ghost predicate TailSorted(ks: seq<int>, i: int) {
    forall k, m :: 0 <= k < m < |ks| && i < m ==> ks[k] <= ks[m]
  }

  ghost predicate LargestAt(ks: seq<int>, j: int)
    requires j < |ks|
  {
    forall k :: 0 <= k < j ==> ks[k] <= ks[j]
  }

  /** One comparison of the inner loop on the keys. */
  ghost function Bubbled(ks: seq<int>, j: nat): seq<int>
    requires j + 1 < |ks|
  {
    if ks[j] <= ks[j + 1] then ks else ks[j := ks[j + 1]][j + 1 := ks[j]]
  }

  lemma BubbleStep(ks: seq<int>, i: int, j: nat)
    requires j < i < |ks| && TailSorted(ks, i) && LargestAt(ks, j)
    ensures TailSorted(Bubbled(ks, j), i) && LargestAt(Bubbled(ks, j), j + 1)
    ensures j + 1 == i ==> TailSorted(Bubbled(ks, j), i - 1)
  {
  }

  /** With distinct hashes, one equal hash decides the lookup. */
  lemma OneCandidate(names: seq<string>, target: string, id: nat)
    requires id < |names| && Hash(names[id]) == Hash(target)
    ensures DistinctHashes(names) ==> Scan(names, target) == if NCaseEqual(target, names[id]) then id else -1
  {
    var k := Scan(names, target);
    assert NCaseEqual(target, names[id]) ==> Matches(names, id, target);
  }

  /** `http_header_fields` and `http_header_fields_index`. An int8_t index limits the table to 128
      entries. */
  class HeaderIndex {
    const names: seq<string>
    const hashes: array<int>
    const index: array<nat>

    ghost predicate Sized()
      reads this
    {
      0 < |names| <= 0x80 && hashes.Length == index.Length == |names|
    }

    ghost predicate Hashed()
      reads this, hashes, index
    {
      && Sized() && Permutation(index[..])
      && forall i :: 0 <= i < |names| ==> hashes[i] == Hash(names[i])
    }

    /** The hash of the entry at one position of the index. */
    ghost function HashAt(k: int): int
      requires Hashed() && 0 <= k < |names|
      reads this, hashes, index
    {
      hashes[index[k]]
    }

    /** The hashes in index order. */
    ghost function Keys(): (ks: seq<int>)
      requires Hashed()
      reads this, hashes, index
      ensures |ks| == |names| && forall k :: 0 <= k < |names| ==> ks[k] == HashAt(k)
    {
      seq(|names|, k requires 0 <= k < |names| && Hashed() reads this, hashes, index => HashAt(k))
    }

    ghost predicate Valid()
      reads this, hashes, index
    {
      Hashed() && forall i, j :: 0 <= i < j < |names| ==> Keys()[i] <= Keys()[j]
    }

    /** http_header_hash_all_fields. */
    constructor (names: seq<string>)
      requires 0 < |names| <= 0x80
      ensures this.names == names && Valid() && fresh(hashes) && fresh(index)
    {
      this.names := names;
      hashes := new int[|names|];
      index := new nat[|names|];
      new;
      for i := 0 to |names|
        invariant forall k :: 0 <= k < i ==> hashes[k] == Hash(names[k]) && index[k] == k
      {
        var h := NHash(names[i]);
        hashes[i], index[i] := h, i;
      }
      forall v: nat | v < |names| ensures v in index[..] {
        assert index[..][v] == v;
      }
      BubbleSort();
    }

    /** Lines 570-572. */
    method XorSwap(j: nat)
      requires j + 1 < index.Length
      modifies index
      ensures index[..] == old(index[..])[j := old(index[j + 1])][j + 1 := old(index[j])]
    {
      XorCancels(index[j], index[j + 1]);
      XorCancels(index[j + 1], index[j]);
      XorCommutes(index[j], index[j + 1]);
      var x := Xor(index[j], index[j + 1]);
      index[j] := Xor(index[j], x);
      index[j + 1] := Xor(index[j + 1], x);
    }

    /** Lines 568-573. */
    method CompareSwap(j: nat)
      requires Hashed() && j + 1 < |names|
      modifies index
      ensures Hashed()
      ensures Keys() == Bubbled(old(Keys()), j)
    {
      if hashes[index[j]] > hashes[index[j + 1]] {
        SwapKeepsPermutation(index[..], j);
        XorSwap(j);
      }
    }

    /** http_header_fields_bubble_sort. */
    method BubbleSort()
      requires Hashed()
      modifies index
      ensures Valid()
    {
      var i := |names| - 1;
      ghost var ks := Keys();
      while i > 0
        invariant 0 <= i < |names| && Hashed() && ks == Keys() && TailSorted(ks, i)
      {
        var j := 0;
        while j < i
          invariant 0 <= j <= i && Hashed() && ks == Keys() && TailSorted(ks, i) && LargestAt(ks, j)
        {
          CompareSwap(j);
          BubbleStep(ks, i, j);
          ks := Keys();
          j := j + 1;
        }
        i := i - 1;
      }
    }

    /** http_header_binary_n_search; http_header_binary_search is the same loop over a terminated
        string. */
    method BinaryNSearch(target: string) returns (id: int)
      requires Valid()
      ensures id != -1 ==> Matches(names, id, target)
      ensures DistinctHashes(names) ==> id == Scan(names, target)
    {
      id := -1;
      var hash := NHash(target);
      ghost var ks := Keys();
      var low, high := 0, index.Length - 1;
      while low <= high
        invariant 0 <= low && high < |names|
        invariant id == -1 && forall k :: 0 <= k < |names| && ks[k] == hash ==> low <= k <= high
      {
        var mid := (low + high) / 2;
        assert ks[mid] == Hash(names[index[mid]]);
        if hash == hashes[index[mid]] {
          if NCaseEqual(target, names[index[mid]]) {
            id := index[mid];
          }
          OneCandidate(names, target, index[mid]);
          return;
        } else if hash < hashes[index[mid]] {
          high := mid - 1;
        } else {
          low := mid + 1;
        }
      }
      forall k | 0 <= k < |names| ensures Hash(names[k]) != hash {
        assert k in index[..];
        var p :| 0 <= p < |names| && index[..][p] == k;
        assert ks[p] == Hash(names[k]);
      }
    }
  }
}
