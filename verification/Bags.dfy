/** Pairwise relations on sequences, and sets of consecutive naturals. */
module Bags {

  ghost predicate Symmetric<T(!new)>(r: (T, T) -> bool) {
    forall x, y :: r(x, y) ==> r(y, x)
  }

  ghost predicate Pairwise<T(!new)>(s: seq<T>, r: (T, T) -> bool) {
    forall i, j :: 0 <= i < j < |s| ==> r(s[i], s[j])
  }

  /** Pairwise, read off the multiset: an element that occurs twice must be related to itself. */
  ghost predicate PairwiseBag<T(!new)>(m: multiset<T>, r: (T, T) -> bool) {
    forall x, y :: x in m && y in m && (x == y ==> m[x] >= 2) ==> r(x, y)
  }

  /** A symmetric relation holds pairwise whatever the order of the elements. */
  lemma PairwiseAsBag<T(!new)>(s: seq<T>, r: (T, T) -> bool)
    requires Symmetric(r)
    ensures Pairwise(s, r) <==> PairwiseBag(multiset(s), r)
  {
    var m := multiset(s);
    if Pairwise(s, r) {
      forall x, y | x in m && y in m && (x == y ==> m[x] >= 2) ensures r(x, y) {
        var i, j := TwoPlaces(s, x, y);
        assert r(s[if i < j then i else j], s[if i < j then j else i]);
      }
    }
    if PairwiseBag(m, r) {
      forall i, j | 0 <= i < j < |s| ensures r(s[i], s[j]) {
        if s[i] == s[j] { TwiceInBag(s, i, j); }
        assert s[i] in m && s[j] in m;
      }
    }
  }

  lemma TwiceInBag<T>(s: seq<T>, i: nat, j: nat)
    requires i < j < |s| && s[i] == s[j]
    ensures multiset(s)[s[i]] >= 2
  {
    assert s == s[..j] + [s[j]] + s[j + 1..];
    assert s[i] == s[..j][i] && s[i] in multiset(s[..j]);
  }

  lemma TwoPlaces<T>(s: seq<T>, x: T, y: T) returns (i: nat, j: nat)
    requires x in s && y in s && (x == y ==> multiset(s)[x] >= 2)
    ensures i < |s| && j < |s| && i != j && s[i] == x && s[j] == y
  {
    i :| i < |s| && s[i] == x;
    var rest := s[..i] + s[i + 1..];
    assert s == s[..i] + [s[i]] + s[i + 1..];
    assert multiset(s) == multiset(rest) + multiset{x};
    assert y in multiset(rest);
    var k: nat :| k < |rest| && rest[k] == y;
    j := if k < i then k else k + 1;
  }

  // ---- runs of consecutive naturals --------------------------------------------

  predicate Between(lo: nat, p: nat, hi: nat) { lo <= p < hi }

  ghost function Run(lo: nat, hi: nat): set<nat> {
    set p: nat | p < hi && Between(lo, p, hi)
  }

  lemma {:induction false} RunSize(lo: nat, hi: nat)
    requires lo <= hi
    ensures |Run(lo, hi)| == hi - lo
    decreases hi
  {
    if lo < hi {
      RunSize(lo, hi - 1);
      assert Run(lo, hi) == Run(lo, hi - 1) + {hi - 1};
    } else {
      assert Run(lo, hi) == {};
    }
  }

  lemma SubsetSize<T>(a: set<T>, b: set<T>)
    requires a <= b
    ensures |a| <= |b|
    ensures |a| == |b| ==> a == b
  {
    assert b == a + (b - a);
    assert |b| == |a| + |b - a|;
  }
}
