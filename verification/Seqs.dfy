/** Sequences and sets: a few operations, and facts that proofs name explicitly. */
module Seqs {

  lemma Assoc<T>(a: seq<T>, b: seq<T>, c: seq<T>)
    ensures a + b + c == a + (b + c)
  {}

  lemma PlusNothing<T>(a: seq<T>)
    ensures a + [] == a && [] + a == a
  {}

  function Repeat<T>(x: T, n: nat): (s: seq<T>)
    ensures |s| == n && forall i | 0 <= i < n :: s[i] == x
  {
    if n == 0 then [] else [x] + Repeat(x, n - 1)
  }

  function Concat(pieces: seq<string>): string
  {
    if pieces == [] then [] else pieces[0] + Concat(pieces[1..])
  }

  function Without<T>(s: seq<T>, n: nat): seq<T>
    requires n < |s|
  {
    s[..n] + s[n + 1..]
  }

  /** `ARR_FIND` for the first difference of two arrays of one length. */
  method FirstDifference<T(==)>(a: seq<T>, b: seq<T>) returns (j: nat)
    requires |a| == |b|
    ensures j <= |a| && (j < |a| ==> a[j] != b[j])
    ensures j == |a| <==> a == b
  {
    j := 0;
    while j < |a| && a[j] == b[j]
      invariant j <= |a| && forall k | 0 <= k < j :: a[k] == b[k]
    {
      j := j + 1;
    }
  }

  lemma SubsetSize<T>(a: set<T>, b: set<T>)
    requires a <= b
    ensures |a| <= |b|
  {
    assert b == a + (b - a);
  }

  lemma SliceAt<T>(s: seq<T>, i: nat)
    requires i < |s|
    ensures s[..i + 1] + s[i + 1..] == s && s[..i] + [s[i]] == s[..i + 1]
  {}

  /** An arbitrary element. */
  method Pick<T>(s: set<T>) returns (x: T)
    requires s != {}
    ensures x in s
  {
    x :| x in s;
  }
}
