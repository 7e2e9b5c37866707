/** Facts about sequences shared by several components. */
module Sequences {

  /** Every element of a occurs in b, in the same order. */
  ghost predicate IsSubsequence<T>(a: seq<T>, b: seq<T>) {
    if a == [] then true
    else if b == [] then false
    else (a[0] == b[0] && IsSubsequence(a[1..], b[1..])) || IsSubsequence(a, b[1..])
  }

  lemma {:induction false} SubsequenceSkip<T>(a: seq<T>, b: seq<T>, t: seq<T>)
    requires IsSubsequence(a, b)
    ensures IsSubsequence(a, b + t)
    decreases |b|
  {
    if a != [] {
      assert (b + t)[1..] == b[1..] + t;
      if a[0] == b[0] && IsSubsequence(a[1..], b[1..]) {
        SubsequenceSkip(a[1..], b[1..], t);
      } else {
        SubsequenceSkip(a, b[1..], t);
      }
    }
  }

  lemma {:induction false} SubsequenceSnoc<T>(a: seq<T>, b: seq<T>, x: T)
    requires IsSubsequence(a, b)
    ensures IsSubsequence(a + [x], b + [x])
    decreases |b|
  {
    if b == [] {
      assert a == [] && ([x])[1..] == [];
    } else {
      assert (b + [x])[1..] == b[1..] + [x];
      if a == [] {
        SubsequenceSnoc(a, b[1..], x);
      } else if a[0] == b[0] && IsSubsequence(a[1..], b[1..]) {
        SubsequenceSnoc(a[1..], b[1..], x);
        assert (a + [x])[1..] == a[1..] + [x];
      } else {
        SubsequenceSnoc(a, b[1..], x);
      }
    }
  }

  lemma PrefixSnoc<T>(s: seq<T>, n: nat, x: T)
    requires n < |s| && s[n] == x
    ensures s[..n + 1] == s[..n] + [x]
  {
  }
}
