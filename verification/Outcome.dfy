/** The three answers of a parser that is handed a prefix of its input. */
module Outcome {

  /** More bytes are needed, the input is refused, or the first `n` bytes are done. */
  datatype Outcome<T> = More | Error | Done(n: nat, value: T)

  /** The first position where two strings that are no prefixes of each other differ. */
  lemma Differ(a: string, w: string) returns (i: nat)
    requires !(w <= a) && !(a < w)
    ensures i < |a| && i < |w| && a[i] != w[i]
  {
    i := 0;
    while i < |a| && i < |w| && a[i] == w[i]
      invariant i <= |a| && i <= |w| && a[..i] == w[..i]
    {
      i := i + 1;
    }
    assert a[..|a|] == a && w[..|w|] == w;
  }
}
