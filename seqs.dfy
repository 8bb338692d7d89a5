/** Order-preserving selection from a sequence, and what "subsequence" means. */
module Seqs {

  /** The elements of `s` that satisfy `p`, in their original order (a list comprehension with a guard). */
  function Where<T>(s: seq<T>, p: T -> bool): (r: seq<T>)
    ensures |r| <= |s|
    ensures forall x :: x in r ==> x in s && p(x)
  {
    if |s| == 0 then []
    else
      var kept := Where(s[..|s| - 1], p);
      if p(s[|s| - 1]) then kept + [s[|s| - 1]] else kept
  }

  /** The elements of `s` whose flag in `keep` is set, in order. */
  function Pick<T>(s: seq<T>, keep: seq<bool>): seq<T>
    requires |keep| == |s|
  {
    if |s| == 0 then []
    else Pick(s[..|s| - 1], keep[..|s| - 1]) + (if keep[|s| - 1] then [s[|s| - 1]] else [])
  }

  /** `a` is obtained from `b` by deleting elements: same elements, same relative order. */
  ghost predicate IsSubsequence<T>(a: seq<T>, b: seq<T>) {
    exists keep: seq<bool> :: |keep| == |b| && a == Pick(b, keep)
  }

  /** The flags that `Where(s, p)` keeps. */
  function Mask<T>(s: seq<T>, p: T -> bool): (m: seq<bool>)
    ensures |m| == |s|
  {
    seq(|s|, i requires 0 <= i < |s| => p(s[i]))
  }

  lemma {:induction false} WhereIsPick<T>(s: seq<T>, p: T -> bool)
    ensures Where(s, p) == Pick(s, Mask(s, p))
  {
    if |s| > 0 {
      var n := |s| - 1;
      assert Mask(s, p)[..n] == Mask(s[..n], p);
      WhereIsPick(s[..n], p);
    }
  }

  /** Selecting never reorders, duplicates or alters elements. */
  lemma WhereIsSubsequence<T>(s: seq<T>, p: T -> bool)
    ensures IsSubsequence(Where(s, p), s)
  {
    WhereIsPick(s, p);
  }

  /** Every element of `s` that satisfies `p` is selected, and nothing else. */
  lemma {:induction false} WhereMembership<T>(s: seq<T>, p: T -> bool, x: T)
    ensures x in Where(s, p) <==> x in s && p(x)
  {
    if |s| > 0 {
      var n := |s| - 1;
      assert s == s[..n] + [s[n]];
      WhereMembership(s[..n], p, x);
    }
  }

  /** When every element qualifies, selection is the identity. */
  lemma {:induction false} WhereAll<T>(s: seq<T>, p: T -> bool)
    requires forall i :: 0 <= i < |s| ==> p(s[i])
    ensures Where(s, p) == s
  {
    if |s| > 0 {
      var n := |s| - 1;
      WhereAll(s[..n], p);
      assert s == s[..n] + [s[n]];
    }
  }

  /** Selecting twice with the same test changes nothing the second time. */
  lemma WhereIdempotent<T>(s: seq<T>, p: T -> bool)
    ensures Where(Where(s, p), p) == Where(s, p)
  {
    var r := Where(s, p);
    forall i | 0 <= i < |r| ensures p(r[i]) {
      assert r[i] in r;
    }
    WhereAll(r, p);
  }

  /** Two selections in a row select by the conjunction of their tests. */
  lemma {:induction false} WhereWhere<T>(s: seq<T>, p: T -> bool, q: T -> bool, both: T -> bool)
    requires forall x :: both(x) == (p(x) && q(x))
    ensures Where(Where(s, p), q) == Where(s, both)
  {
    if |s| > 0 {
      var n := |s| - 1;
      WhereWhere(s[..n], p, q, both);
      var inner := Where(s[..n], p);
      if p(s[n]) {
        assert (inner + [s[n]])[..|inner|] == inner;
      }
    }
  }

  /** Selection depends only on which elements pass the test. */
  lemma {:induction false} WhereExt<T>(s: seq<T>, p: T -> bool, q: T -> bool)
    requires forall x :: p(x) == q(x)
    ensures Where(s, p) == Where(s, q)
  {
    if |s| > 0 {
      WhereExt(s[..|s| - 1], p, q);
    }
  }

  /** The conjunction of two tests. */
  function Both<T(!new)>(p: T -> bool, q: T -> bool): (r: T -> bool)
    ensures forall x :: r(x) == (p(x) && q(x))
  {
    x => p(x) && q(x)
  }
}
