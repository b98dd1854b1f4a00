// Laws of sequences that the proofs call by name.
module Seqs {

  lemma Assoc<T>(a: seq<T>, b: seq<T>, c: seq<T>)
    ensures (a + b) + c == a + (b + c)
  {
  }

  lemma Unit<T>(a: seq<T>)
    ensures a + [] == a && [] + a == a
  {
  }

  /** Splitting the tail is the tail of splitting. */
  lemma TailSplit<T>(c: seq<T>, n: nat)
    requires 0 < n <= |c|
    ensures c[..n][0] == c[0]
    ensures c[..n][1..] == c[1..][..n - 1] && c[1..][n - 1..] == c[n..]
  {
  }

  lemma AppendSplit<T>(a: seq<T>, b: seq<T>)
    ensures (a + b)[..|a|] == a && (a + b)[|a|..] == b
  {
  }

  function Concat<T>(pieces: seq<seq<T>>): seq<T> {
    if pieces == [] then [] else pieces[0] + Concat(pieces[1..])
  }

  /** No element occurs twice. */
  ghost predicate Distinct<T>(s: seq<T>) {
    forall i, j :: 0 <= i < j < |s| ==> s[i] != s[j]
  }

  /** All elements but the one at i. */
  function Without<T>(s: seq<T>, i: nat): (u: seq<T>)
    requires i < |s|
    ensures |u| == |s| - 1
    ensures forall j :: 0 <= j < i ==> u[j] == s[j]
    ensures forall j {:trigger u[j]} :: i <= j < |u| ==> u[j] == s[j + 1]
  {
    s[..i] + s[i + 1..]
  }

  lemma SliceTake<T>(a: seq<T>, at: nat, n: nat, k: nat)
    requires k <= n && at + n <= |a|
    ensures a[at..at + n][..k] == a[at..at + k]
  {
  }
}
