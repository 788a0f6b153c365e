/** Sequences with an element put in or taken out, without repetitions, and regrouped. */
module Seqs {
  ghost predicate Distinct<T>(xs: seq<T>) {
    forall i, j :: 0 <= i < j < |xs| ==> xs[i] != xs[j]
  }

  function InsertAt<T>(s: seq<T>, n: nat, x: T): (r: seq<T>)
    requires n <= |s|
    ensures |r| == |s| + 1 && r[n] == x
  {
    s[..n] + [x] + s[n..]
  }

  function RemoveAt<T>(s: seq<T>, n: nat): (r: seq<T>)
    requires n < |s|
    ensures |r| == |s| - 1
    ensures forall i :: 0 <= i < n ==> r[i] == s[i]
    ensures forall i :: n <= i < |r| ==> r[i] == s[i + 1]
  {
    s[..n] + s[n + 1..]
  }

  lemma PutBack<T>(s: seq<T>, n: nat)
    requires n < |s|
    ensures InsertAt(RemoveAt(s, n), n, s[n]) == s
  {}

  lemma Associate<T>(a: seq<T>, b: seq<T>, c: seq<T>)
    ensures a + b + c == a + (b + c)
  {}
}
