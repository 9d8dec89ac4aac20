/** Order-preserving selection from a sequence. */
module Sequences {

  /** `a` can be obtained from `b` by deleting elements: the order of what
      is kept is the order of `b`. */
  predicate IsSubsequence<T(==)>(a: seq<T>, b: seq<T>)
    decreases |b|
  {
    if |a| == 0 then true
    else if |b| == 0 then false
    else if a[0] == b[0] then IsSubsequence(a[1..], b[1..])
    else IsSubsequence(a, b[1..])
  }

  /** A subsequence of `b` only holds elements of `b`. */
  lemma {:induction false} SubsequenceMembers<T>(a: seq<T>, b: seq<T>)
    requires IsSubsequence(a, b)
    ensures forall x :: x in a ==> x in b
    decreases |b|
  {
    if |a| > 0 && |b| > 0 {
      if a[0] == b[0] {
        SubsequenceMembers(a[1..], b[1..]);
        assert a == [a[0]] + a[1..];
      } else {
        SubsequenceMembers(a, b[1..]);
      }
    }
  }

  /** Putting an element in front of `b` keeps every subsequence of `b`. */
  lemma {:induction false} SubsequenceCons<T>(a: seq<T>, x: T, b: seq<T>)
    requires IsSubsequence(a, b)
    ensures IsSubsequence(a, [x] + b)
    decreases |b|, 1
  {
    assert ([x] + b)[1..] == b;
    if |a| > 0 && a[0] == x {
      SubsequenceDropHead(a, b);
    }
  }

  /** If `a` is a subsequence of `b` then so is `a` without its head. */
  lemma {:induction false} SubsequenceDropHead<T>(a: seq<T>, b: seq<T>)
    requires |a| > 0 && IsSubsequence(a, b)
    ensures IsSubsequence(a[1..], b)
    decreases |b|, 0
  {
    if a[0] == b[0] {
      if |a[1..]| > 0 {
        SubsequenceCons(a[1..], b[0], b[1..]);
        assert [b[0]] + b[1..] == b;
      }
    } else {
      SubsequenceDropHead(a, b[1..]);
      if |a[1..]| > 0 {
        SubsequenceCons(a[1..], b[0], b[1..]);
        assert [b[0]] + b[1..] == b;
      }
    }
  }

  /** Every sequence is a subsequence of itself. */
  lemma {:induction false} SubsequenceRefl<T>(a: seq<T>)
    ensures IsSubsequence(a, a)
    decreases |a|
  {
    if |a| > 0 {
      SubsequenceRefl(a[1..]);
    }
  }

  /** The sequence back to front. */
  function Reverse<T>(s: seq<T>): (r: seq<T>)
    ensures |r| == |s|
    ensures forall i :: 0 <= i < |s| ==> r[i] == s[|s| - 1 - i]
    decreases |s|
  {
    if |s| == 0 then [] else Reverse(s[1..]) + [s[0]]
  }

  /** The sequence with the element at `i` taken out: what comes before
      keeps its index, what comes after moves down by one. */
  function Delete<T>(s: seq<T>, i: int): (r: seq<T>)
    requires 0 <= i < |s|
    ensures |r| == |s| - 1
    ensures forall k :: 0 <= k < i ==> r[k] == s[k]
    ensures forall k :: i <= k < |r| ==> r[k] == s[k + 1]
  {
    s[..i] + s[i + 1..]
  }

  /** Deleting one place of a sequence without repeats leaves a sequence
      without repeats that no longer holds the deleted element. */
  lemma DeleteDistinct<T>(s: seq<T>, i: int)
    requires 0 <= i < |s|
    requires forall a, b :: 0 <= a < b < |s| ==> s[a] != s[b]
    ensures s[i] !in Delete(s, i)
    ensures forall a, b :: 0 <= a < b < |Delete(s, i)| ==> Delete(s, i)[a] != Delete(s, i)[b]
  {
    var r := Delete(s, i);
    forall a, b | 0 <= a < b < |r| ensures r[a] != r[b] {
      var a' := if a < i then a else a + 1;
      var b' := if b < i then b else b + 1;
      assert r[a] == s[a'] && r[b] == s[b'];
    }
    forall k | 0 <= k < |r| ensures r[k] != s[i] {
      var k' := if k < i then k else k + 1;
      assert r[k] == s[k'];
    }
  }

  /** Reversing puts the last element first. */
  lemma ReverseSnoc<T>(s: seq<T>)
    requires |s| > 0
    ensures Reverse(s) == [s[|s| - 1]] + Reverse(s[..|s| - 1])
  {
    var a, b := Reverse(s), [s[|s| - 1]] + Reverse(s[..|s| - 1]);
    forall i | 0 < i < |s| ensures a[i] == b[i] {
      assert b[i] == Reverse(s[..|s| - 1])[i - 1];
    }
  }

  /** Deleting behind a new head is deleting one place further on. */
  lemma DeleteCons<T>(x: T, s: seq<T>, j: int)
    requires 0 <= j < |s|
    ensures [x] + Delete(s, j) == Delete([x] + s, j + 1)
  {
    var a, b := [x] + Delete(s, j), Delete([x] + s, j + 1);
    forall k | 0 <= k < |a| ensures a[k] == b[k] {
      if k > 0 { assert a[k] == Delete(s, j)[k - 1]; }
    }
  }

  /** Dropping the first `d` elements after deleting position `i >= d`
      is deleting in what is left after the drop. */
  lemma DeleteThenDrop<T>(L: seq<T>, i: int, d: int, w: T)
    requires 0 <= d <= i < |L|
    ensures (Delete(L, i) + [w])[d..] == Delete(L[d..], i - d) + [w]
  {
    var R, S := (Delete(L, i) + [w])[d..], Delete(L[d..], i - d) + [w];
    assert |R| == |S|;
    forall k | 0 <= k < |S| ensures R[k] == S[k] {
      if k < |S| - 1 {
        assert R[k] == Delete(L, i)[d + k];
        if k < i - d {
          assert S[k] == L[d..][k];
        } else {
          assert S[k] == L[d..][k + 1];
        }
      }
    }
  }

  /** Deleting a position before the first `d`, then dropping `d`. */
  lemma DeleteBeforeDrop<T>(L: seq<T>, i: int, d: int, w: T)
    requires 0 <= i < d < |L|
    ensures (Delete(L, i) + [w])[d..] == L[d + 1..] + [w]
  {
    var R, S := (Delete(L, i) + [w])[d..], L[d + 1..] + [w];
    assert |R| == |S|;
    forall k | 0 <= k < |S| ensures R[k] == S[k] {
      if k < |S| - 1 {
        assert R[k] == Delete(L, i)[d + k];
      }
    }
  }

  /** The elements of `s` that satisfy `p`, in their order. */
  function Filter<T>(s: seq<T>, p: T -> bool): (r: seq<T>)
    ensures |r| <= |s|
    decreases |s|
  {
    if |s| == 0 then []
    else if p(s[0]) then [s[0]] + Filter(s[1..], p)
    else Filter(s[1..], p)
  }

  /** What `Filter` keeps: an order-preserving selection holding exactly
      the elements that satisfy `p`, each as often as in `s`. */
  lemma {:induction false} FilterMembers<T>(s: seq<T>, p: T -> bool)
    ensures IsSubsequence(Filter(s, p), s)
    ensures forall x :: x in Filter(s, p) <==> x in s && p(x)
    ensures forall x :: p(x) ==> multiset(Filter(s, p))[x] == multiset(s)[x]
    decreases |s|
  {
    if |s| > 0 {
      FilterMembers(s[1..], p);
      assert s == [s[0]] + s[1..];
      var r := Filter(s[1..], p);
      if p(s[0]) {
        assert ([s[0]] + r)[1..] == r;
        assert multiset([s[0]] + r) == multiset([s[0]]) + multiset(r);
      } else {
        SubsequenceCons(r, s[0], s[1..]);
      }
      assert multiset(s) == multiset([s[0]]) + multiset(s[1..]);
    }
  }

  /** A filter that every element passes keeps the whole sequence. */
  lemma {:induction false} FilterAll<T>(s: seq<T>, p: T -> bool)
    requires forall i :: 0 <= i < |s| ==> p(s[i])
    ensures Filter(s, p) == s
    decreases |s|
  {
    if |s| > 0 {
      FilterAll(s[1..], p);
      assert s == [s[0]] + s[1..];
    }
  }

  /** Filtering with a stronger condition selects from what a weaker one
      keeps. */
  lemma {:induction false} FilterWeaker<T>(s: seq<T>, p: T -> bool, q: T -> bool)
    requires forall i :: 0 <= i < |s| && p(s[i]) ==> q(s[i])
    ensures IsSubsequence(Filter(s, p), Filter(s, q))
    decreases |s|
  {
    if |s| > 0 {
      FilterWeaker(s[1..], p, q);
      var a, b := Filter(s[1..], p), Filter(s[1..], q);
      if p(s[0]) {
        assert ([s[0]] + a)[1..] == a && ([s[0]] + b)[1..] == b;
      } else if q(s[0]) {
        SubsequenceCons(a, s[0], b);
      }
    }
  }
}
