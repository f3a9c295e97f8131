/** Generic facts about sequences: filtering and order-preserving selection. */
module Seqs {

  /** The elements of `s` that satisfy `p`, in their original order (a boolean-mask selection). */
  function Filter<T(==)>(s: seq<T>, p: T -> bool): (r: seq<T>)
    ensures |r| <= |s|
    ensures forall x :: x in r ==> x in s && p(x)
    ensures forall x :: x in s && p(x) ==> x in r
    ensures IsSubsequence(r, s)
    ensures forall x :: x in s ==> multiset(r)[x] == if p(x) then multiset(s)[x] else 0
  {
    if s == [] then []
    else
      var rest := Filter(s[1..], p);
      assert s == [s[0]] + s[1..];
      if p(s[0]) then [s[0]] + rest else (SubsequenceSkip(rest, s); rest)
  }

  /** `r` can be obtained from `s` by deleting elements, without reordering the others. */
  predicate IsSubsequence<T(==)>(r: seq<T>, s: seq<T>)
    decreases |s|
  {
    if r == [] then true
    else if s == [] then false
    else if r[0] == s[0] then IsSubsequence(r[1..], s[1..])
    else IsSubsequence(r, s[1..])
  }

  /** A subsequence of the tail of `s` is a subsequence of `s`. */
  lemma {:induction false} SubsequenceSkip<T>(r: seq<T>, s: seq<T>)
    requires s != [] && IsSubsequence(r, s[1..])
    ensures IsSubsequence(r, s)
    decreases |s|, 0
  {
    if r != [] && r[0] == s[0] {
      SubsequenceTail(r, s[1..]);
    }
  }

  /** Dropping the first element of a subsequence leaves a subsequence. */
  lemma {:induction false} SubsequenceTail<T>(r: seq<T>, t: seq<T>)
    requires r != [] && IsSubsequence(r, t)
    ensures IsSubsequence(r[1..], t)
    decreases |t|, 1
  {
    if r[0] == t[0] {
      SubsequenceSkip(r[1..], t);
    } else {
      SubsequenceTail(r, t[1..]);
      SubsequenceSkip(r[1..], t);
    }
  }

  /** Filtering distributes over concatenation: rows can be filtered piece by piece. */
  lemma {:induction false} FilterAppend<T>(a: seq<T>, b: seq<T>, p: T -> bool)
    ensures Filter(a + b, p) == Filter(a, p) + Filter(b, p)
    decreases |a|
  {
    if a != [] {
      assert (a + b)[0] == a[0] && (a + b)[1..] == a[1..] + b;
      FilterAppend(a[1..], b, p);
      var rest := Filter(a[1..], p) + Filter(b, p);
      assert Filter(a + b, p) == if p(a[0]) then [a[0]] + rest else rest;
    } else {
      assert a + b == b;
    }
  }

  /** `f` applied to every element, in order. */
  function MapSeq<A, B>(s: seq<A>, f: A -> B): (r: seq<B>)
    ensures |r| == |s|
    ensures forall i :: 0 <= i < |s| ==> r[i] == f(s[i])
  {
    seq(|s|, i requires 0 <= i < |s| => f(s[i]))
  }

  lemma MapAppend<A, B>(a: seq<A>, b: seq<A>, f: A -> B)
    ensures MapSeq(a + b, f) == MapSeq(a, f) + MapSeq(b, f)
  {
  }
}
