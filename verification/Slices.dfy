/** Writing a run of elements into a sequence. */
module Slices {

  /** s with w in place from index at on, as far as s goes. */
  function Overlay<T>(s: seq<T>, at: nat, w: seq<T>): (r: seq<T>)
    ensures |r| == |s|
  {
    seq(|s|, b requires 0 <= b < |s| => if at <= b < at + |w| then w[b - at] else s[b])
  }

  lemma OverlayAt<T>(s: seq<T>, at: nat, w: seq<T>)
    ensures forall b :: 0 <= b < |s| ==> Overlay(s, at, w)[b] == if at <= b < at + |w| then w[b - at] else s[b]
  {
  }

  /** Two adjoining runs are one. */
  lemma OverlaySplit<T>(s: seq<T>, at: nat, v: seq<T>, w: seq<T>)
    ensures Overlay(s, at, v + w) == Overlay(Overlay(s, at, v), at + |v|, w)
  {
  }

  lemma OverlayNothing<T>(s: seq<T>, at: nat)
    ensures Overlay(s, at, []) == s
  {
  }

  /** r is s with w written at at. */
  ghost predicate Wrote<T>(r: seq<T>, s: seq<T>, at: nat, w: seq<T>) { r == Overlay(s, at, w) }

  lemma WroteNothing<T>(s: seq<T>, at: nat)
    ensures Wrote(s, s, at, [])
  {
  }

  lemma WroteBoth<T>(s: seq<T>, at: nat, v: seq<T>, r: seq<T>, w: seq<T>, t: seq<T>)
    requires Wrote(r, s, at, v) && Wrote(t, r, at + |v|, w)
    ensures Wrote(t, s, at, v + w)
  {
    hide Overlay;
    OverlaySplit(s, at, v, w);
  }

  lemma SubSlice<T>(s: seq<T>, lo: nat, hi: nat, i: nat, j: nat)
    requires lo <= hi <= |s| && i <= j <= hi - lo
    ensures s[lo..hi][i..j] == s[lo + i..lo + j]
  {
    var a, b := s[lo..hi][i..j], s[lo + i..lo + j];
    assert forall k :: 0 <= k < |a| ==> a[k] == b[k];
  }
}
