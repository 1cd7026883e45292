/** What several modules need to say about sequences. */
module Sequences {
  /** Concatenation is associative; the solver has to be told where to regroup. */
  lemma Glue<T>(a: seq<T>, b: seq<T>, c: seq<T>)
    ensures (a + b) + c == a + (b + c)
  {
  }

  ghost predicate NoDup<T>(s: seq<T>) { forall i, j {:trigger s[i], s[j]} :: 0 <= i < j < |s| ==> s[i] != s[j] }

  /** `s` without its element `k`. */
  function Without<T>(s: seq<T>, k: nat): (r: seq<T>)
    requires k < |s|
    ensures |r| == |s| - 1
    ensures forall i {:trigger r[i]} :: 0 <= i < |r| ==> r[i] == s[if i < k then i else i + 1]
  {
    s[..k] + s[k + 1..]
  }
}
