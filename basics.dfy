/** Small value types and string predicates shared by the other modules. */
module Basics {
  /** A value that may be absent: JavaScript's `null`/`undefined` made explicit. */
  datatype Option<T> = None | Some(value: T)

  /** `c` does not occur in `s`. */
  predicate Lacks(s: string, c: char)
  {
    forall k | 0 <= k < |s| :: s[k] != c
  }

  /** `c` occurs in `s` exactly once, at `p`. */
  predicate OnlyAt(s: string, c: char, p: nat)
  {
    p < |s| && s[p] == c && forall k | 0 <= k < |s| && s[k] == c :: k == p
  }

  /** `a` is `b` with some elements left out: the elements of `a` occur in `b` in the same order. */
  predicate IsSubseq<T(==)>(a: seq<T>, b: seq<T>)
    decreases |b|
  {
    if a == [] then true
    else if b == [] then false
    else (a[0] == b[0] && IsSubseq(a[1..], b[1..])) || IsSubseq(a, b[1..])
  }
}
