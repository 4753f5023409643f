/** Sequence facts shared by the consistent-hash ring model: distinctness,
    the move-to-front rotation used to derive preference lists, and removal
    of one element; and the optional value of partial operations. */
module Seqs {

  /** A result that may be missing. */
  datatype Option<T> = None | Some(value: T)

  /** No element occurs twice. */
  ghost predicate Distinct<T>(s: seq<T>) {
    forall i, j :: 0 <= i < j < |s| ==> s[i] != s[j]
  }

  /** `s` with the element at `idx` moved to the front: the elements before
      `idx` shift right by one, the elements after it keep their place. */
  function MoveToFront<T>(s: seq<T>, idx: nat): (r: seq<T>)
    requires idx < |s|
    ensures |r| == |s|
    ensures r[0] == s[idx]
    ensures forall k :: 0 < k <= idx ==> r[k] == s[k - 1]
    ensures forall k {:trigger r[k]} :: idx < k < |s| ==> r[k] == s[k]
  {
    [s[idx]] + s[..idx] + s[idx + 1..]
  }

  /** The move is a permutation. */
  lemma MoveToFrontPermutes<T>(s: seq<T>, idx: nat)
    requires idx < |s|
    ensures multiset(MoveToFront(s, idx)) == multiset(s)
  {
    assert s == s[..idx] + [s[idx]] + s[idx + 1..];
  }

  /** Moving the head to the front changes nothing. */
  lemma MoveToFrontZero<T>(s: seq<T>)
    requires 0 < |s|
    ensures MoveToFront(s, 0) == s
  {
    assert s == [s[0]] + s[1..];
  }

  /** `r` is `base` with one of its elements moved to the front. */
  ghost predicate IsRotationOf<T>(r: seq<T>, base: seq<T>) {
    exists idx :: 0 <= idx < |base| && r == MoveToFront(base, idx)
  }

  /** `s` without any occurrence of `x`, order kept. */
  function Remove<T(==)>(s: seq<T>, x: T): (r: seq<T>)
    ensures forall y :: y in r ==> y in s && y != x
    ensures forall y :: y in s && y != x ==> y in r
    ensures |r| <= |s|
  {
    if |s| == 0 then []
    else (if s[0] == x then [] else [s[0]]) + Remove(s[1..], x)
  }

  lemma {:induction false} RemoveConcat<T>(a: seq<T>, b: seq<T>, x: T)
    ensures Remove(a + b, x) == Remove(a, x) + Remove(b, x)
  {
    if |a| == 0 {
      assert a + b == b;
    } else {
      var head := if a[0] == x then [] else [a[0]];
      assert (a + b)[0] == a[0] && (a + b)[1..] == a[1..] + b;
      RemoveConcat(a[1..], b, x);
      assert Remove(a + b, x) == head + (Remove(a[1..], x) + Remove(b, x));
    }
  }

  lemma {:induction false} RemoveAbsent<T>(s: seq<T>, x: T)
    requires x !in s
    ensures Remove(s, x) == s
  {
    if |s| > 0 {
      assert s[0] != x && x !in s[1..];
      RemoveAbsent(s[1..], x);
      assert s == [s[0]] + s[1..];
    }
  }

  /** Moving one element of a duplicate-free list to the front keeps the
      relative order of all the other elements. */
  lemma {:induction false} MoveToFrontKeepsOthersInOrder<T>(s: seq<T>, idx: nat)
    requires Distinct(s) && idx < |s|
    ensures Remove(MoveToFront(s, idx), s[idx]) == Remove(s, s[idx])
  {
    var x := s[idx];
    var pre, post := s[..idx], s[idx + 1..];
    OnlyAt(s, idx);
    RemoveFront(pre, post, x);
    RemoveMiddle(pre, post, x);
    assert MoveToFront(s, idx) == [x] + pre + post;
    assert s == pre + [x] + post;
  }

  /** In a duplicate-free list the element at `idx` occurs neither before
      nor after it. */
  lemma OnlyAt<T>(s: seq<T>, idx: nat)
    requires Distinct(s) && idx < |s|
    ensures s[idx] !in s[..idx] && s[idx] !in s[idx + 1..]
  {
    var x := s[idx];
    var pre, post := s[..idx], s[idx + 1..];
    forall k | 0 <= k < |pre| ensures pre[k] != x {
      assert pre[k] == s[k];
    }
    forall k | 0 <= k < |post| ensures post[k] != x {
      assert post[k] == s[idx + 1 + k];
    }
  }

  lemma RemoveFront<T>(pre: seq<T>, post: seq<T>, x: T)
    requires x !in pre && x !in post
    ensures Remove([x] + pre + post, x) == pre + post
  {
    assert [x] + pre + post == [x] + (pre + post);
    RemoveHead(x, pre + post);
    RemoveConcat(pre, post, x);
    RemoveAbsent(pre, x);
    RemoveAbsent(post, x);
  }

  lemma RemoveMiddle<T>(pre: seq<T>, post: seq<T>, x: T)
    requires x !in pre && x !in post
    ensures Remove(pre + [x] + post, x) == pre + post
  {
    assert pre + [x] + post == pre + ([x] + post);
    RemoveConcat(pre, [x] + post, x);
    RemoveHead(x, post);
    RemoveAbsent(pre, x);
    RemoveAbsent(post, x);
  }

  lemma RemoveHead<T>(x: T, rest: seq<T>)
    ensures Remove([x] + rest, x) == Remove(rest, x)
  {
    assert ([x] + rest)[1..] == rest;
  }

  /** A duplicate-free list holds every element at most once. */
  lemma DistinctCountAtMostOne<T>(s: seq<T>, x: T)
    requires Distinct(s)
    ensures multiset(s)[x] <= 1
  {
    if |s| > 0 {
      assert s == [s[0]] + s[1..];
      DistinctCountAtMostOne(s[1..], x);
      if s[0] == x {
        assert x !in s[1..] by {
          forall k | 0 <= k < |s[1..]| ensures s[1..][k] != x {
            assert s[1..][k] == s[k + 1];
          }
        }
      }
    }
  }

  /** A permutation of a duplicate-free list is duplicate-free and has the same length. */
  lemma PermutationOfDistinct<T>(a: seq<T>, b: seq<T>)
    requires multiset(a) == multiset(b) && Distinct(b)
    ensures Distinct(a) && |a| == |b|
  {
    assert |a| == |multiset(a)| == |multiset(b)| == |b|;
    forall i, j | 0 <= i < j < |a| ensures a[i] != a[j] {
      if a[i] == a[j] {
        var x := a[i];
        assert a == a[..i] + [x] + a[i + 1..j] + [x] + a[j + 1..];
        assert multiset(a)[x] >= 2;
        DistinctCountAtMostOne(b, x);
      }
    }
  }

  /** Dropping the element at `k` from a duplicate-free list leaves a
      duplicate-free list of exactly the other elements. */
  lemma DropAt<T>(b: seq<T>, k: nat)
    requires Distinct(b) && k < |b|
    ensures Distinct(b[..k] + b[k + 1..])
    ensures forall y :: y in b[..k] + b[k + 1..] <==> y in b && y != b[k]
  {
    var b' := b[..k] + b[k + 1..];
    forall i, j | 0 <= i < j < |b'| ensures b'[i] != b'[j] {
      var i0 := if i < k then i else i + 1;
      var j0 := if j < k then j else j + 1;
      assert b'[i] == b[i0] && b'[j] == b[j0];
    }
    forall y ensures y in b' <==> y in b && y != b[k] {
      if y in b' {
        var i :| 0 <= i < |b'| && b'[i] == y;
        var i0 := if i < k then i else i + 1;
        assert b[i0] == y && i0 != k;
      }
      if y in b && y != b[k] {
        var m :| 0 <= m < |b| && b[m] == y;
        if m < k { assert b'[m] == y; } else { assert b'[m - 1] == y; }
      }
    }
  }

  /** Two duplicate-free lists with the same elements are permutations of each other. */
  lemma {:induction false} SameElementsPermutation<T>(a: seq<T>, b: seq<T>)
    requires Distinct(a) && Distinct(b)
    requires forall x :: x in a <==> x in b
    ensures multiset(a) == multiset(b)
    decreases |a|
  {
    if |a| > 0 {
      var x := a[0];
      assert x in b;
      var k :| 0 <= k < |b| && b[k] == x;
      var a', b' := a[1..], b[..k] + b[k + 1..];
      DropHead(a);
      DropAt(b, k);
      SameElementsOfDrops(a, b, a', b', x);
      SameElementsPermutation(a', b');
      PermutationOfDrops(a, b, k);
    } else {
      NonEmptyHasMember(b);
    }
  }

  /** Putting back the same element on both sides keeps a permutation. */
  lemma PermutationOfDrops<T>(a: seq<T>, b: seq<T>, k: nat)
    requires 0 < |a| && k < |b| && b[k] == a[0]
    requires multiset(a[1..]) == multiset(b[..k] + b[k + 1..])
    ensures multiset(a) == multiset(b)
  {
    MultisetWithout(a, 0);
    MultisetWithout(b, k);
    assert a[..0] + a[1..] == a[1..];
  }

  /** A list's elements are the one at `k` and those of the rest. */
  lemma MultisetWithout<T>(b: seq<T>, k: nat)
    requires k < |b|
    ensures multiset(b) == multiset{b[k]} + multiset(b[..k] + b[k + 1..])
  {
    assert b == b[..k] + [b[k]] + b[k + 1..];
  }

  lemma NonEmptyHasMember<T>(b: seq<T>)
    ensures |b| > 0 ==> exists y :: y in b
  {
    if |b| > 0 {
      assert b[0] in b;
    }
  }

  lemma DropHead<T>(a: seq<T>)
    requires Distinct(a) && 0 < |a|
    ensures Distinct(a[1..])
    ensures forall y :: y in a[1..] <==> y in a && y != a[0]
  {
    DropAt(a, 0);
    assert a[..0] + a[1..] == a[1..];
  }

  lemma SameElementsOfDrops<T>(a: seq<T>, b: seq<T>, a': seq<T>, b': seq<T>, x: T)
    requires forall y :: y in a <==> y in b
    requires forall y :: y in a' <==> y in a && y != x
    requires forall y :: y in b' <==> y in b && y != x
    ensures forall y :: y in a' <==> y in b'
  {
  }
}
