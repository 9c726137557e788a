// Optional values and results with an error message, used wherever the
// source returns a null pointer, npos, or throws.
module Wrappers {

  datatype Option<T> = None | Some(value: T)

  datatype Result<T> = Ok(value: T) | Err(error: string)

  function Min(a: int, b: int): int
  {
    if a < b then a else b
  }

  /** Splitting off the first element, and moving one element across a concatenation. Stated
    * for any element type, so that the solver does not compare the elements themselves (for
    * strings, character by character). */
  lemma ConsHead<T>(xs: seq<T>)
    requires |xs| > 0
    ensures xs == [xs[0]] + xs[1..]
  {
  }

  lemma DropPrefix<T>(a: seq<T>, b: seq<T>)
    ensures (a + b)[|a|..] == b
  {
  }

  lemma ConsBack<T>(xs: seq<T>, x: T, rest: seq<T>)
    requires |xs| > 0 && x == xs[0] && rest == xs[1..]
    ensures [x] + rest == xs
  {
  }

  lemma SnocAppend<T>(a: seq<T>, x: T, c: seq<T>)
    ensures a + [x] + c == a + ([x] + c)
  {
  }

  lemma SuffixSlice<T>(s: seq<T>, k: nat, i: nat, j: nat)
    requires k <= |s| && i <= j <= |s| - k
    ensures s[k..][i..j] == s[k + i .. k + j] && s[k..][i..] == s[k + i ..]
  {
  }

  lemma Regroup<T>(a: seq<T>, b: seq<T>, c: seq<T>, d: seq<T>)
    ensures a + b + c + d == a + (b + c + d)
  {
  }

  lemma Assoc<T>(a: seq<T>, b: seq<T>, c: seq<T>)
    ensures a + b + c == a + (b + c)
  {
  }

  lemma DropOne<T>(a: seq<T>, b: seq<T>)
    requires |a| == 1
    ensures (a + b)[1..] == b
  {
  }

  lemma Inner<T>(a: seq<T>, m: seq<T>, b: seq<T>)
    requires |a| == 1 && |b| == 1
    ensures (a + m + b)[1 .. |a + m + b| - 1] == m
  {
  }

  lemma Middle<T>(a: seq<T>, m: seq<T>, b: seq<T>)
    ensures (a + m + b)[|a| .. |a| + |m|] == m
  {
  }

  lemma SnocUpdate<T>(a: seq<T>, x: T, y: T)
    ensures (a + [x])[|a| := y] == a + [y]
  {
  }
}
