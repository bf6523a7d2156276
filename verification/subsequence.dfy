/** Order-preserving sublists: the shape every removal in this model has. */
module Subsequence {

  /** `a` can be obtained from `b` by deleting elements, keeping the order
      of the rest. */
  predicate IsSubseq<T(==)>(a: seq<T>, b: seq<T>)
    decreases |b|
  {
    if b == [] then a == []
    else (a != [] && a[0] == b[0] && IsSubseq(a[1..], b[1..])) || IsSubseq(a, b[1..])
  }

  lemma {:induction false} SubseqRefl<T>(a: seq<T>)
    ensures IsSubseq(a, a)
    decreases |a|
  {
    if a != [] {
      SubseqRefl(a[1..]);
    }
  }

  lemma {:induction false} SubseqTrans<T>(a: seq<T>, b: seq<T>, c: seq<T>)
    requires IsSubseq(a, b) && IsSubseq(b, c)
    ensures IsSubseq(a, c)
    decreases |c|
  {
    if c == [] {
      assert b == [];
    } else if b != [] && b[0] == c[0] && IsSubseq(b[1..], c[1..]) {
      if a != [] && a[0] == b[0] && IsSubseq(a[1..], b[1..]) {
        SubseqTrans(a[1..], b[1..], c[1..]);
      } else {
        SubseqTrans(a, b[1..], c[1..]);
      }
    } else {
      SubseqTrans(a, b, c[1..]);
    }
  }

  /** Dropping the element at one position leaves a subsequence. */
  lemma {:induction false} DropOneIsSubseq<T>(s: seq<T>, k: nat)
    requires k < |s|
    ensures IsSubseq(s[..k] + s[k + 1..], s)
    decreases k
  {
    var d := s[..k] + s[k + 1..];
    if k == 0 {
      assert d == s[1..];
      SubseqRefl(s[1..]);
    } else {
      DropOneIsSubseq(s[1..], k - 1);
      assert d[0] == s[0];
      assert d[1..] == s[1..][..k - 1] + s[1..][k..];
    }
  }
}
