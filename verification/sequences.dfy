/** Order-preserving selection of elements from a sequence. */
module Sequences {

  /** `a` is obtained from `b` by deleting elements; the rest keep their order. */
  ghost predicate IsSubsequence<T>(a: seq<T>, b: seq<T>)
    decreases |b|
  {
    |a| == 0 ||
    (|b| > 0 && ((a[0] == b[0] && IsSubsequence(a[1..], b[1..])) || IsSubsequence(a, b[1..])))
  }

  lemma {:induction false} SubsequenceRefl<T>(a: seq<T>)
    ensures IsSubsequence(a, a)
    decreases |a|
  {
    if |a| > 0 {
      SubsequenceRefl(a[1..]);
    }
  }

  /** Deleting more elements in front keeps a subsequence a subsequence. */
  lemma {:induction false} SubsequencePrepend<T>(a: seq<T>, c: seq<T>, b: seq<T>)
    requires IsSubsequence(a, b)
    ensures IsSubsequence(a, c + b)
    decreases |c|
  {
    if |c| > 0 {
      SubsequencePrepend(a, c[1..], b);
      assert (c + b)[1..] == c[1..] + b;
      assert IsSubsequence(a, (c + b)[1..]);
    } else {
      assert c + b == b;
    }
  }

  /** A common first element may be kept on both sides. */
  lemma SubsequenceCons<T>(x: T, a: seq<T>, b: seq<T>)
    requires IsSubsequence(a, b)
    ensures IsSubsequence([x] + a, [x] + b)
  {
    assert ([x] + a)[1..] == a;
    assert ([x] + b)[1..] == b;
  }

  /** Keeping a common prefix on both sides. */
  lemma {:induction false} SubsequenceKeepPrefix<T>(p: seq<T>, a: seq<T>, b: seq<T>)
    requires IsSubsequence(a, b)
    ensures IsSubsequence(p + a, p + b)
    decreases |p|
  {
    if |p| > 0 {
      SubsequenceKeepPrefix(p[1..], a, b);
      assert p + a == [p[0]] + (p[1..] + a);
      assert p + b == [p[0]] + (p[1..] + b);
      SubsequenceCons(p[0], p[1..] + a, p[1..] + b);
    } else {
      assert p + a == a && p + b == b;
    }
  }

  /** Every element of a subsequence is an element of the whole. */
  lemma {:induction false} SubsequenceElements<T>(a: seq<T>, b: seq<T>, x: T)
    requires IsSubsequence(a, b)
    requires x in a
    ensures x in b
    decreases |b|
  {
    if a[0] == b[0] && IsSubsequence(a[1..], b[1..]) {
      if x != a[0] {
        SubsequenceElements(a[1..], b[1..], x);
      }
    } else {
      SubsequenceElements(a, b[1..], x);
    }
  }

  /** Splitting a sequence at `e` and joining the halves gives it back. */
  lemma TakeDrop<T>(s: seq<T>, e: nat)
    requires e <= |s|
    ensures s[..e] + s[e..] == s
    ensures e == 1 ==> [s[0]] + s[1..] == s
  {
    if e == 1 {
      assert s[..1] == [s[0]];
    }
  }

  /** The first character put back in front of a prefix of the rest. */
  lemma ConsSlice<T>(t: seq<T>, o: nat, r: seq<T>)
    requires o < |t|
    ensures [t[0]] + (t[1..][..o] + r) == t[..o + 1] + r
    ensures t[1..][o..] == t[o + 1..]
  {
    assert [t[0]] + t[1..][..o] == t[..o + 1];
  }

  /** Multiset sums of two splittings add up piecewise over concatenation. */
  lemma MultisetStep<T>(a: seq<T>, b: seq<T>, c: seq<T>, x: seq<T>, y: seq<T>, z: seq<T>)
    requires multiset(a) == multiset(b) + multiset(c)
    requires multiset(x) == multiset(y) + multiset(z)
    ensures multiset(a + x) == multiset(b + y) + multiset(c + z)
  {
  }

  /** Regrouping a cons onto a concatenation. */
  lemma ConsAssoc<T>(p: T, r: seq<T>, b: seq<T>)
    ensures [p] + (r + b) == ([p] + r) + b
  {
  }

  /** Regrouping a concatenation. */
  lemma ConcatAssoc<T>(a: seq<T>, m: seq<T>, b: seq<T>)
    ensures a + (m + b) == a + m + b
  {
  }
}
