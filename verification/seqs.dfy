/**
 * Subsequences: what is left of a sequence after some of its elements are
 * removed, the rest keeping their order. Removing an invader from the army
 * and dropping dead shots both leave a subsequence.
 */
module Sequences {

  /** `a` is `b` with some elements left out, the rest in their order. */
  ghost predicate IsSubsequence<T>(a: seq<T>, b: seq<T>)
    decreases |b|
  {
    if a == [] then true
    else if b == [] then false
    else (a[0] == b[0] && IsSubsequence(a[1..], b[1..])) || IsSubsequence(a, b[1..])
  }

  /** Every sequence is a subsequence of itself. */
  lemma {:induction false} SubsequenceOfSelf<T>(a: seq<T>)
    ensures IsSubsequence(a, a)
    decreases |a|
  {
    if a != [] {
      SubsequenceOfSelf(a[1..]);
    }
  }

  /** A subsequence of a subsequence of `c` is a subsequence of `c`. */
  lemma {:induction false} SubsequenceTrans<T>(a: seq<T>, b: seq<T>, c: seq<T>)
    requires IsSubsequence(a, b) && IsSubsequence(b, c)
    ensures IsSubsequence(a, c)
    decreases |c|
  {
    if a != [] {
      if b[0] == c[0] && IsSubsequence(b[1..], c[1..]) {
        if a[0] == b[0] && IsSubsequence(a[1..], b[1..]) {
          SubsequenceTrans(a[1..], b[1..], c[1..]);
        } else {
          SubsequenceTrans(a, b[1..], c[1..]);
        }
      } else {
        SubsequenceTrans(a, b, c[1..]);
      }
    }
  }

  /** Removing the element at index `i` leaves a subsequence. */
  lemma {:induction false} RemovalIsSubsequence<T>(a: seq<T>, i: nat)
    requires i < |a|
    ensures IsSubsequence(a[..i] + a[i + 1..], a)
    decreases i
  {
    var r := a[..i] + a[i + 1..];
    if i == 0 {
      assert r == a[1..];
      SubsequenceOfSelf(a[1..]);
    } else {
      RemovalIsSubsequence(a[1..], i - 1);
      assert r[0] == a[0];
      assert r[1..] == a[1..][..i - 1] + a[1..][i..];
    }
  }
}
